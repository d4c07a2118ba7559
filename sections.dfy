/** The section-header table: `shnum` records read back to back from `shoff`
    (the first loop of `File::parse`). */
module Sections {
  import opened ElfTypes
  import opened Endian
  import opened ByteSource

  /** Size in bytes of one record: 40 for ELFCLASS32, 64 for ELFCLASS64. */
  function RecordSize(c: ElfClass): nat {
    match c
    case Class32 => 40
    case Class64 => 64
  }

  /** A record as read: the header with its name still empty, the raw offset of
      its name in the string table, and the cursor after the record. */
  datatype Record = Record(hdr: SectionHeader, nameIdx: nat, next: nat)

  /** One record read at `pos`, field by field as the first loop of
      `File::parse` reads it: name offset and type (32 bits each), then flags,
      addr, offset and size (class-sized), link and info (32 bits in both
      classes), addralign and entsize (class-sized). */
  function ReadRecord(src: seq<u8>, pos: nat, c: ElfClass, d: u8): (r: Result<Record>)
    ensures r.Ok? <==> ValidData(d) && pos + RecordSize(c) <= |src|
    ensures !ValidData(d) ==> r == Err(InvalidEndianness)
    ensures ValidData(d) && pos + RecordSize(c) > |src| ==> r == Err(UnexpectedEof)
    ensures r.Ok? ==> r.value.next == pos + RecordSize(c) && r.value.hdr.name == ""
  {
    var w := WordSize(c);
    var name :- UintAt(src, pos, 4, d);
    var shtype :- UintAt(src, name.next, 4, d);
    var flags :- UintAt(src, shtype.next, w, d);
    var addr :- UintAt(src, flags.next, w, d);
    var offset :- UintAt(src, addr.next, w, d);
    var size :- UintAt(src, offset.next, w, d);
    var link :- UintAt(src, size.next, 4, d);
    var info :- UintAt(src, link.next, 4, d);
    var addralign :- UintAt(src, info.next, w, d);
    var entsize :- UintAt(src, addralign.next, w, d);
    Ok(Record(
      SectionHeader("", shtype.value, flags.value, addr.value, offset.value, size.value,
                    link.value, info.value, addralign.value, entsize.value),
      name.value, entsize.next))
  }

  /** The section-header layout of the System V ABI: byte offset and width of
      each field of a record, in the order name, type, flags, addr, offset,
      size, link, info, addralign, entsize. In ELFCLASS32 all ten are 32-bit;
      in ELFCLASS64 flags, addr, offset, size, addralign and entsize are
      64-bit and the other four stay 32-bit. */
  function Layout(c: ElfClass): seq<(nat, nat)> {
    match c
    case Class32 => [(0, 4), (4, 4), (8, 4), (12, 4), (16, 4), (20, 4), (24, 4), (28, 4), (32, 4), (36, 4)]
    case Class64 => [(0, 4), (4, 4), (8, 8), (16, 8), (24, 8), (32, 8), (40, 4), (44, 4), (48, 8), (56, 8)]
  }

  /** Every field of the layout lies inside the record of `RecordSize` bytes. */
  predicate Fits(layout: seq<(nat, nat)>, size: nat) {
    forall k :: 0 <= k < |layout| ==> layout[k].0 + layout[k].1 <= size
  }

  /** The values of the fields `layout` places in the record at `pos`. */
  function Fields(src: seq<u8>, pos: nat, layout: seq<(nat, nat)>, d: u8): (v: seq<nat>)
    requires ValidData(d)
    requires forall k :: 0 <= k < |layout| ==> pos + layout[k].0 + layout[k].1 <= |src|
    ensures |v| == |layout|
  {
    if layout == [] then []
    else [ValueAt(src, pos + layout[0].0, layout[0].1, d)] + Fields(src, pos, layout[1..], d)
  }

  /** Field `k` is the value of its own bytes. */
  lemma {:induction false} FieldAt(src: seq<u8>, pos: nat, layout: seq<(nat, nat)>, d: u8, k: nat)
    requires ValidData(d)
    requires forall j :: 0 <= j < |layout| ==> pos + layout[j].0 + layout[j].1 <= |src|
    requires k < |layout|
    ensures Fields(src, pos, layout, d)[k] ==
      Decode(d, src[pos + layout[k].0..pos + layout[k].0 + layout[k].1])
  {
    if k > 0 {
      FieldAt(src, pos, layout[1..], d, k - 1);
    } else {
      ValueAtDecode(src, pos + layout[0].0, layout[0].1, d);
    }
  }

  /** The record at `pos` by the layout: the whole record must be present. */
  function RecordAt(src: seq<u8>, pos: nat, c: ElfClass, d: u8): (r: Result<Record>)
    ensures r.Ok? <==> ValidData(d) && pos + RecordSize(c) <= |src|
    ensures !ValidData(d) ==> r == Err(InvalidEndianness)
    ensures ValidData(d) && pos + RecordSize(c) > |src| ==> r == Err(UnexpectedEof)
    ensures r.Ok? ==> r.value.next == pos + RecordSize(c) && r.value.hdr.name == ""
  {
    if !ValidData(d) then Err(InvalidEndianness)
    else if pos + RecordSize(c) > |src| then Err(UnexpectedEof)
    else
      assert Fits(Layout(c), RecordSize(c));
      var v := Fields(src, pos, Layout(c), d);
      Ok(Record(SectionHeader("", v[1], v[2], v[3], v[4], v[5], v[6], v[7], v[8], v[9]),
                v[0], pos + RecordSize(c)))
  }

  /** Reading the fields one after another yields exactly the layout: records
      are 40 or 64 bytes, fields are back to back, and every field comes from
      its own bytes of the record. */
  lemma ReadRecordLayout(src: seq<u8>, pos: nat, c: ElfClass, d: u8)
    ensures ReadRecord(src, pos, c, d) == RecordAt(src, pos, c, d)
  {
    if ValidData(d) && pos + RecordSize(c) <= |src| {
      assert Fits(Layout(c), RecordSize(c));
      forall k | 0 <= k < 10 {
        FieldAt(src, pos, Layout(c), d, k);
      }
    }
  }

  /** The table as read so far: headers and name offsets, index-aligned, and
      the cursor after the last record. */
  datatype Table = Table(hdrs: seq<SectionHeader>, nameIdxs: seq<nat>, next: nat)

  /** Record `i` of a table ends no later than the table does. */
  lemma RecordInTable(i: nat, n: nat, size: nat)
    requires i < n
    ensures i * size + size <= n * size
  {
    assert i * size + size == (i + 1) * size;
  }

  /** The `n` records of the table at `shoff`: record `i` is the record at
      `shoff + i * size`, and a non-empty table fails exactly when its last
      record runs past the end of the source; `shentsize` plays no part. */
  function SectionTable(src: seq<u8>, shoff: nat, n: nat, c: ElfClass, d: u8): (r: Result<Table>)
    requires ValidData(d)
    ensures r.Ok? <==> n == 0 || shoff + n * RecordSize(c) <= |src|
    ensures r.Err? ==> r.error == UnexpectedEof
    ensures r.Ok? ==> |r.value.hdrs| == |r.value.nameIdxs| == n && r.value.next == shoff + n * RecordSize(c)
  {
    var size := RecordSize(c);
    if n > 0 && shoff + n * size > |src| then Err(UnexpectedEof)
    else
      Ok(Table(seq(n, i requires 0 <= i < n => (RecordInTable(i, n, size); RecordAt(src, shoff + i * size, c, d).value.hdr)),
               seq(n, i requires 0 <= i < n => (RecordInTable(i, n, size); RecordAt(src, shoff + i * size, c, d).value.nameIdx)),
               shoff + n * size))
  }

  /** Record `i` of a table that was read is the record at `shoff + i * size`,
      so each header's fields come from that record's own bytes. */
  lemma TableRecord(src: seq<u8>, shoff: nat, n: nat, c: ElfClass, d: u8, i: nat)
    requires ValidData(d) && SectionTable(src, shoff, n, c, d).Ok? && i < n
    ensures var t := SectionTable(src, shoff, n, c, d).value;
      RecordAt(src, shoff + i * RecordSize(c), c, d) ==
        Ok(Record(t.hdrs[i], t.nameIdxs[i], shoff + (i + 1) * RecordSize(c)))
  {
    var size := RecordSize(c);
    RecordInTable(i, n, size);
    assert shoff + i * size + size == shoff + (i + 1) * size;
    var rec := RecordAt(src, shoff + i * size, c, d);
    assert rec.Ok? && rec.value.next == shoff + (i + 1) * size;
    var t := SectionTable(src, shoff, n, c, d).value;
    assert t.hdrs[i] == rec.value.hdr && t.nameIdxs[i] == rec.value.nameIdx;
  }

  /** A table of `k` records that is followed by a readable record is a table
      of `k + 1` records ending with it. */
  lemma TableGrows(src: seq<u8>, shoff: nat, k: nat, c: ElfClass, d: u8)
    requires ValidData(d) && SectionTable(src, shoff, k, c, d).Ok?
    requires RecordAt(src, SectionTable(src, shoff, k, c, d).value.next, c, d).Ok?
    ensures var t := SectionTable(src, shoff, k, c, d).value;
      var rec := RecordAt(src, t.next, c, d).value;
      SectionTable(src, shoff, k + 1, c, d) ==
        Ok(Table(t.hdrs + [rec.hdr], t.nameIdxs + [rec.nameIdx], rec.next))
  {
    var size := RecordSize(c);
    var t := SectionTable(src, shoff, k, c, d).value;
    var rec := RecordAt(src, t.next, c, d).value;
    assert shoff + k * size + size == shoff + (k + 1) * size;
    var u := SectionTable(src, shoff, k + 1, c, d);
    assert u.Ok?;
    forall i | 0 <= i < k
      ensures u.value.hdrs[i] == t.hdrs[i] && u.value.nameIdxs[i] == t.nameIdxs[i]
    {
      TableEntriesAgree(src, shoff, k, c, d, i);
    }
    assert u.value.hdrs[k] == rec.hdr && u.value.nameIdxs[k] == rec.nameIdx;
    assert u.value.hdrs == t.hdrs + [rec.hdr];
    assert u.value.nameIdxs == t.nameIdxs + [rec.nameIdx];
  }

  /** Entry `i` of a table does not depend on how many records follow it. */
  lemma TableEntriesAgree(src: seq<u8>, shoff: nat, k: nat, c: ElfClass, d: u8, i: nat)
    requires ValidData(d) && i < k
    requires SectionTable(src, shoff, k, c, d).Ok? && SectionTable(src, shoff, k + 1, c, d).Ok?
    ensures SectionTable(src, shoff, k + 1, c, d).value.hdrs[i] == SectionTable(src, shoff, k, c, d).value.hdrs[i]
    ensures SectionTable(src, shoff, k + 1, c, d).value.nameIdxs[i] == SectionTable(src, shoff, k, c, d).value.nameIdxs[i]
  {
    RecordInTable(i, k, RecordSize(c));
  }

  /** A record that cannot be read at `shoff + k * size`, with `k < n`, fails
      a table of `n` records. */
  lemma TableFailsAt(src: seq<u8>, shoff: nat, k: nat, n: nat, c: ElfClass, d: u8)
    requires ValidData(d) && k < n
    requires RecordAt(src, shoff + k * RecordSize(c), c, d).Err?
    ensures SectionTable(src, shoff, n, c, d) == Err(UnexpectedEof)
  {
    RecordInTable(k, n, RecordSize(c));
  }

  /** One iteration of the first loop of `File::parse`: one record read at
      the cursor. */
  method ReadSectionHeader(r: Reader, c: ElfClass, d: u8) returns (res: Result<Record>)
    modifies r
    ensures res == RecordAt(r.bytes, old(r.pos), c, d)
    ensures res.Ok? ==> r.pos == res.value.next
  {
    ReadRecordLayout(r.bytes, r.pos, c, d);
    var w := WordSize(c);
    var name :- r.ReadUint(4, d);
    var shtype :- r.ReadUint(4, d);
    var flags :- r.ReadUint(w, d);
    var addr :- r.ReadUint(w, d);
    var offset :- r.ReadUint(w, d);
    var size :- r.ReadUint(w, d);
    var link :- r.ReadUint(4, d);
    var info :- r.ReadUint(4, d);
    var addralign :- r.ReadUint(w, d);
    var entsize :- r.ReadUint(w, d);
    res := Ok(Record(
      SectionHeader("", shtype.value, flags.value, addr.value, offset.value, size.value,
                    link.value, info.value, addralign.value, entsize.value),
      name.value, entsize.next));
  }
}
