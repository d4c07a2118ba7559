/** Concrete files and what they decode to. */
module Samples {
  import opened ElfTypes
  import opened Endian
  import opened ByteSource
  import opened Names
  import opened Header
  import opened Sections
  import opened ElfFile

  /** A minimal little-endian ELFCLASS32 file: type 2, machine 3, version 1,
      entry 0, no program headers and no sections; it is the 52-byte header
      alone. */
  const MinimalIdentBytes: seq<u8> := ELFMAG + [ELFCLASS32, ELFDATA2LSB, 1] + seq(9, _ => 0)
  const MinimalPrefix: seq<u8> := [2, 0, 3, 0, 1, 0, 0, 0]
  const MinimalRest: seq<u8> := seq(16, _ => 0) + [52, 0, 0, 0, 0, 0, 40, 0, 0, 0, 0, 0]
  const MinimalElf: seq<u8> := MinimalIdentBytes + MinimalPrefix + MinimalRest

  /** Its identification block: the magic number, ELFCLASS32, ELFDATA2LSB. */
  lemma MinimalIdent()
    ensures |MinimalElf| == 52
    ensures Ident(MinimalElf)[..4] == ELFMAG
    ensures Ident(MinimalElf)[EI_CLASS] == ELFCLASS32 && Ident(MinimalElf)[EI_DATA] == ELFDATA2LSB
  {
    var id := Ident(MinimalElf);
    assert MinimalElf[..16] == MinimalIdentBytes;
    assert id == MinimalIdentBytes;
    assert MinimalIdentBytes[..4] == ELFMAG;
  }

  /** Its header decodes, as ELFCLASS32. */
  lemma MinimalHeaderDecodes()
    ensures ParseHeader(MinimalElf).Ok? && ParseHeader(MinimalElf).value.cls == Class32
  {
    MinimalIdent();
    var src := MinimalElf;
    assert |Available(src, 0, EI_NIDENT)| == 16;
    assert ReadPrefix(src, 16, 1).Ok?;
    assert ReadWords(src, 24, 4, 1).Ok?;
    assert ReadTail(src, 36, 1).Ok?;
  }

  /** Its header fields, read little-endian. */
  lemma MinimalFields()
    ensures Decode(1, MinimalElf[16..18]) == 2 && Decode(1, MinimalElf[18..20]) == 3
    ensures Decode(1, MinimalElf[20..24]) == 1 && Decode(1, MinimalElf[24..28]) == 0
    ensures Decode(1, MinimalElf[48..50]) == 0
  {
    var src := MinimalElf;
    assert src[16..24] == MinimalPrefix;
    assert src[24..52] == MinimalRest;
    assert src[16..18] == MinimalPrefix[..2] == [2, 0];
    assert src[18..20] == MinimalPrefix[2..4] == [3, 0];
    assert src[20..24] == MinimalPrefix[4..] == [1, 0, 0, 0];
    assert src[24..28] == MinimalRest[..4] == [0, 0, 0, 0];
    assert src[48..50] == MinimalRest[24..26] == [0, 0];
    var z: seq<u8> := [0];
    assert LeValue(z) == 0 && LeValue([0, 0]) == 0 && LeValue([0, 0, 0]) == 0;
    assert LeValue([1, 0, 0, 0]) == 1 && LeValue([0, 0, 0, 0]) == 0;
  }

  /** It decodes to its header and an empty map. */
  lemma MinimalFile()
    ensures ParseFile(MinimalElf) == Ok(File(FileHeader(1, 1, 1, 0, 0, 2, 3, 0), map[]))
    ensures GetSection(ParseFile(MinimalElf).value, ".text") == None
  {
    MinimalHeaderDecodes();
    var h := ParseHeader(MinimalElf).value;
    IdentFields(MinimalElf, h);
    Class32Layout(MinimalElf, h);
    MinimalFields();
    assert h.file == FileHeader(1, 1, 1, 0, 0, 2, 3, 0);
    ParseNoSections(MinimalElf);
  }


  /** A little-endian ELFCLASS32 file with one section that is its own
      section-name string table: the header (shoff 52, shnum 1, shstrndx 0),
      one 40-byte record (name offset 0, type 3, offset 92, size 3,
      addralign 1) and the three bytes ".a" NUL. */
  const OneWords: seq<u8> := [0, 0, 0, 0, 0, 0, 0, 0, 52, 0, 0, 0]
  const OneTail: seq<u8> := [0, 0, 0, 0, 52, 0, 0, 0, 0, 0, 40, 0, 1, 0, 0, 0]
  const OneRecord: seq<u8> :=
    [0, 0, 0, 0, 3, 0, 0, 0] + seq(8, _ => 0) + [92, 0, 0, 0, 3, 0, 0, 0] + seq(8, _ => 0) + [1, 0, 0, 0, 0, 0, 0, 0]
  const OneStrtab: seq<u8> := [0x2E, 0x61, 0]
  const OneSectionElf: seq<u8> :=
    MinimalIdentBytes + MinimalPrefix + OneWords + OneTail + OneRecord + OneStrtab

  /** The header of the record, before its name is resolved. */
  const OneSectionHdr: SectionHeader := SectionHeader("", 3, 0, 0, 92, 3, 0, 0, 1, 0)

  /** Where each piece of the file lies. */
  lemma OneBytes()
    ensures |OneSectionElf| == 95
    ensures OneSectionElf[..16] == MinimalIdentBytes && OneSectionElf[16..24] == MinimalPrefix
    ensures OneSectionElf[24..36] == OneWords && OneSectionElf[36..52] == OneTail
    ensures OneSectionElf[52..92] == OneRecord && OneSectionElf[92..95] == OneStrtab
  {
    var a := MinimalIdentBytes + MinimalPrefix;
    var b := a + OneWords;
    var c := b + OneTail;
    var e := c + OneRecord;
    assert |a| == 24 && |b| == 36 && |c| == 52 && |e| == 92;
    assert OneSectionElf == e + OneStrtab;
    assert OneSectionElf[..92] == e;
    assert e[..52] == c && c[..36] == b && b[..24] == a;
    assert a[..16] == MinimalIdentBytes && a[16..] == MinimalPrefix;
  }

  /** Its header decodes, as ELFCLASS32. */
  lemma OneHeaderOk()
    ensures ParseHeader(OneSectionElf).Ok? && ParseHeader(OneSectionElf).value.cls == Class32
  {
    var src := OneSectionElf;
    OneBytes();
    assert Ident(src) == MinimalIdentBytes;
    assert MinimalIdentBytes[..4] == ELFMAG;
    assert |Available(src, 0, EI_NIDENT)| == 16;
    assert ReadPrefix(src, 16, 1).Ok?;
    assert ReadWords(src, 24, 4, 1).Ok?;
    assert ReadTail(src, 36, 1).Ok?;
  }

  /** The bytes of the header fields the decode depends on. */
  lemma OneHeaderSlices()
    ensures OneSectionElf[16..18] == [2, 0] && OneSectionElf[18..20] == [3, 0]
    ensures OneSectionElf[20..24] == [1, 0, 0, 0] && OneSectionElf[24..28] == [0, 0, 0, 0]
    ensures OneSectionElf[32..36] == [52, 0, 0, 0]
    ensures OneSectionElf[48..50] == [1, 0] && OneSectionElf[50..52] == [0, 0]
  {
    var src := OneSectionElf;
    OneBytes();
    assert src[16..18] == MinimalPrefix[..2];
    assert src[18..20] == MinimalPrefix[2..4];
    assert src[20..24] == MinimalPrefix[4..];
    assert src[24..28] == OneWords[..4];
    assert OneWords[..4] == [0, 0, 0, 0];
    assert src[32..36] == OneWords[8..];
    assert src[48..50] == OneTail[12..14];
    assert src[50..52] == OneTail[14..];
  }

  /** The table is at 52, with one section and string table 0. */
  lemma OneHeaderDecodes()
    ensures ParseHeader(OneSectionElf).Ok?
    ensures var h := ParseHeader(OneSectionElf).value;
      h.file == FileHeader(1, 1, 1, 0, 0, 2, 3, 0) &&
      h.cls == Class32 && h.shoff == 52 && h.shnum == 1 && h.shstrndx == 0
  {
    var src := OneSectionElf;
    OneHeaderOk();
    OneBytes();
    var h := ParseHeader(src).value;
    IdentFields(src, h);
    Class32Layout(src, h);
    OneHeaderSlices();
    var z: seq<u8> := [0];
    assert LeValue(z) == 0 && LeValue([0, 0]) == 0 && LeValue([0, 0, 0]) == 0 && LeValue([0, 0, 0, 0]) == 0;
    assert LeValue([1, 0, 0, 0]) == 1 && LeValue([52, 0, 0, 0]) == 52;
    assert LeValue([2, 0]) == 2 && LeValue([3, 0]) == 3 && LeValue([1, 0]) == 1;
  }

  /** The bytes of each field of the record. */
  lemma OneRecordFields()
    ensures OneRecord[0..4] == [0, 0, 0, 0] && OneRecord[4..8] == [3, 0, 0, 0]
    ensures OneRecord[8..12] == [0, 0, 0, 0] && OneRecord[12..16] == [0, 0, 0, 0]
    ensures OneRecord[16..20] == [92, 0, 0, 0] && OneRecord[20..24] == [3, 0, 0, 0]
    ensures OneRecord[24..28] == [0, 0, 0, 0] && OneRecord[28..32] == [0, 0, 0, 0]
    ensures OneRecord[32..36] == [1, 0, 0, 0] && OneRecord[36..40] == [0, 0, 0, 0]
  {
    var zeros: seq<u8> := seq(8, _ => 0);
    var a: seq<u8> := [0, 0, 0, 0, 3, 0, 0, 0];
    var b: seq<u8> := [92, 0, 0, 0, 3, 0, 0, 0];
    var c: seq<u8> := [1, 0, 0, 0, 0, 0, 0, 0];
    var r := OneRecord;
    assert r == a + zeros + b + zeros + c;
    assert r[..8] == a && r[8..16] == zeros && r[16..24] == b && r[24..32] == zeros && r[32..] == c;
    SliceOfSlice(r, 0, 8, 0, 4); SliceOfSlice(r, 0, 8, 4, 8);
    SliceOfSlice(r, 8, 16, 0, 4); SliceOfSlice(r, 8, 16, 4, 8);
    SliceOfSlice(r, 16, 24, 0, 4); SliceOfSlice(r, 16, 24, 4, 8);
    SliceOfSlice(r, 24, 32, 0, 4); SliceOfSlice(r, 24, 32, 4, 8);
    SliceOfSlice(r, 32, 40, 0, 4); SliceOfSlice(r, 32, 40, 4, 8);
    assert zeros[..4] == [0, 0, 0, 0] && zeros[4..8] == [0, 0, 0, 0];
  }

  /** Field `k` of the record is the value of its bytes within the record. */
  lemma OneField(k: nat)
    requires k < 10
    ensures var l := Layout(Class32);
      Fields(OneSectionElf, 52, l, 1)[k] == LeValue(OneRecord[l[k].0..l[k].0 + l[k].1])
  {
    var src := OneSectionElf;
    var l := Layout(Class32);
    OneBytes();
    assert Fits(l, 40);
    FieldAt(src, 52, l, 1, k);
    SliceOfSlice(src, 52, 92, l[k].0, l[k].0 + l[k].1);
  }

  /** A slice of a slice is a slice of the whole. */
  lemma SliceOfSlice(s: seq<u8>, p: nat, q: nat, a: nat, b: nat)
    requires p <= q <= |s| && a <= b <= q - p
    ensures s[p..q][a..b] == s[p + a..p + b]
  {
    var l := s[p..q][a..b];
    var r := s[p + a..p + b];
    assert |l| == |r| == b - a;
    forall i | 0 <= i < b - a
      ensures l[i] == r[i]
    {
      assert l[i] == s[p..q][a + i] == s[p + a + i];
    }
  }

  /** The values the record's fields hold. */
  const OneFieldsExpected: seq<nat> := [0, 3, 0, 0, 92, 3, 0, 0, 1, 0]

  /** Each field's bytes, read little-endian, give its expected value. */
  lemma OneRecordValues()
    ensures var l := Layout(Class32);
      forall k :: 0 <= k < 10 ==> LeValue(OneRecord[l[k].0..l[k].0 + l[k].1]) == OneFieldsExpected[k]
  {
    OneRecordFields();
    var z: seq<u8> := [0];
    assert LeValue(z) == 0 && LeValue([0, 0]) == 0 && LeValue([0, 0, 0]) == 0 && LeValue([0, 0, 0, 0]) == 0;
    assert LeValue([3, 0, 0, 0]) == 3 && LeValue([92, 0, 0, 0]) == 92 && LeValue([1, 0, 0, 0]) == 1;
  }

  /** The ten field values of the record. */
  lemma OneFieldValues()
    ensures Fields(OneSectionElf, 52, Layout(Class32), 1) == OneFieldsExpected
  {
    var v := Fields(OneSectionElf, 52, Layout(Class32), 1);
    OneRecordValues();
    forall k | 0 <= k < 10
      ensures v[k] == OneFieldsExpected[k]
    {
      OneField(k);
    }
  }

  /** The record at 52 is that header, with name offset 0. */
  lemma OneRecordReads()
    ensures RecordAt(OneSectionElf, 52, Class32, 1) == Ok(Record(OneSectionHdr, 0, 92))
  {
    OneBytes();
    OneFieldValues();
  }

  /** The table holds that one record. */
  lemma OneTable()
    ensures SectionTable(OneSectionElf, 52, 1, Class32, 1) == Ok(Table([OneSectionHdr], [0], 92))
  {
    OneBytes();
    OneRecordReads();
    TableRecord(OneSectionElf, 52, 1, Class32, 1, 0);
    var t := SectionTable(OneSectionElf, 52, 1, Class32, 1).value;
    assert t.hdrs[0] == OneSectionHdr && t.nameIdxs[0] == 0;
    assert t.hdrs == [OneSectionHdr] && t.nameIdxs == [0];
  }

  /** The section's payload is the string table, and offset 0 in it names ".a". */
  lemma OnePayloadAndName()
    ensures Payloads(OneSectionElf, [OneSectionHdr]) == [OneStrtab]
    ensures ElfString(OneStrtab, 0) == Ok(".a")
  {
    OneBytes();
    assert Available(OneSectionElf, 92, 3) == OneStrtab;
    assert FirstZero(OneStrtab, 2) == Some(2);
    assert FirstZero(OneStrtab, 1) == Some(2);
    assert FirstZero(OneStrtab, 0) == Some(2);
    var name := Latin1(OneStrtab[0..2]);
    assert name[0] == '.' && name[1] == 'a';
    assert name == ".a";
  }

  /** Its names resolve against its own string table. */
  lemma OneNames()
    ensures ResolveNames([OneStrtab], [OneSectionHdr], [0], 0) == Ok([OneSectionHdr.(name := ".a")])
  {
    OnePayloadAndName();
    var ps: seq<seq<u8>> := [OneStrtab];
    var idxs: seq<nat> := [0];
    assert ps[0] == OneStrtab && idxs[0] == 0;
    assert forall i :: 0 <= i < 1 ==> ElfString(ps[0], idxs[i]).Ok?;
    var hs := [OneSectionHdr];
    var r := ResolveNames(ps, hs, idxs, 0);
    assert !(exists i :: 0 <= i < |hs| && ElfString(ps[0], idxs[i]).Err?);
    assert r == Ok(seq(1, i requires 0 <= i < 1 => hs[i].(name := ElfString(ps[0], idxs[i]).value)));
    assert ElfString(ps[0], idxs[0]).value == ".a";
    assert r.value == [OneSectionHdr.(name := ".a")];
  }

  /** It decodes to one section, named ".a" through its own contents, whose
      data is the string table; `get_section` finds it. */
  lemma OneSectionFile()
    ensures ParseFile(OneSectionElf) ==
      Ok(File(FileHeader(1, 1, 1, 0, 0, 2, 3, 0), map[".a" := Section(OneSectionHdr.(name := ".a"), OneStrtab)]))
    ensures GetSection(ParseFile(OneSectionElf).value, ".a") == Some(ObjSection(".a", 0, 3, OneStrtab))
  {
    OneHeaderDecodes();
    OneTable();
    OnePayloadAndName();
    OneNames();
    var h := ParseHeader(OneSectionElf).value;
    ParseFileOfStages(OneSectionElf, h, Table([OneSectionHdr], [0], 92), [OneSectionHdr.(name := ".a")]);
    var secs := Zip([OneSectionHdr.(name := ".a")], [OneStrtab]);
    assert secs == [Section(OneSectionHdr.(name := ".a"), OneStrtab)];
    assert secs[..0] == [];
  }

  /** A big-endian ELFCLASS64 header alone: type 2, machine 62, version 1,
      entry 0x1000, no program headers and no sections, 64 bytes. */
  const Be64IdentBytes: seq<u8> := ELFMAG + [ELFCLASS64, ELFDATA2MSB, 1] + seq(9, _ => 0)
  const Be64Prefix: seq<u8> := [0, 2, 0, 62, 0, 0, 0, 1]
  const Be64Words: seq<u8> := [0, 0, 0, 0, 0, 0, 16, 0] + seq(16, _ => 0)
  const Be64Tail: seq<u8> := [0, 0, 0, 0, 0, 64, 0, 0, 0, 0, 0, 64, 0, 0, 0, 0]
  const Be64Elf: seq<u8> := Be64IdentBytes + Be64Prefix + Be64Words + Be64Tail

  /** Where each piece of the header lies. */
  lemma Be64Bytes()
    ensures |Be64Elf| == 64
    ensures Be64Elf[..16] == Be64IdentBytes && Be64Elf[16..24] == Be64Prefix
    ensures Be64Elf[24..48] == Be64Words && Be64Elf[48..64] == Be64Tail
  {
    var a := Be64IdentBytes + Be64Prefix;
    var b := a + Be64Words;
    assert |a| == 24 && |b| == 48;
    assert Be64Elf == b + Be64Tail;
    assert Be64Elf[..48] == b && b[..24] == a;
    assert a[..16] == Be64IdentBytes && a[16..] == Be64Prefix;
  }

  /** Its header decodes, as ELFCLASS64. */
  lemma Be64HeaderOk()
    ensures ParseHeader(Be64Elf).Ok? && ParseHeader(Be64Elf).value.cls == Class64
  {
    var src := Be64Elf;
    Be64Bytes();
    assert Ident(src) == Be64IdentBytes;
    assert Be64IdentBytes[..4] == ELFMAG;
    assert |Available(src, 0, EI_NIDENT)| == 16;
    assert ReadPrefix(src, 16, 2).Ok?;
    assert ReadWords(src, 24, 8, 2).Ok?;
    assert ReadTail(src, 48, 2).Ok?;
  }

  /** The bytes of the header fields. */
  lemma Be64Slices()
    ensures Be64Elf[16..18] == [0, 2] && Be64Elf[18..20] == [0, 62]
    ensures Be64Elf[20..24] == [0, 0, 0, 1] && Be64Elf[24..32] == [0, 0, 0, 0, 0, 0, 16, 0]
    ensures Be64Elf[60..62] == [0, 0]
  {
    var src := Be64Elf;
    Be64Bytes();
    assert src[16..18] == Be64Prefix[..2];
    assert src[18..20] == Be64Prefix[2..4];
    assert src[20..24] == Be64Prefix[4..];
    assert src[24..32] == Be64Words[..8];
    assert Be64Words[..8] == [0, 0, 0, 0, 0, 0, 16, 0];
    assert src[60..62] == Be64Tail[12..14];
  }

  /** The header's fields, read most significant byte first. */
  lemma Be64Fields()
    ensures Decode(2, Be64Elf[16..18]) == 2 && Decode(2, Be64Elf[18..20]) == 62
    ensures Decode(2, Be64Elf[20..24]) == 1 && Decode(2, Be64Elf[24..32]) == 4096
    ensures Decode(2, Be64Elf[60..62]) == 0
  {
    Be64Slices();
    Be64Values();
  }

  /** The big-endian values of those fields. */
  lemma Be64Values()
    ensures BeValue([0, 2]) == 2 && BeValue([0, 62]) == 62 && BeValue([0, 0]) == 0
    ensures BeValue([0, 0, 0, 1]) == 1
    ensures BeValue([0, 0, 0, 0, 0, 0, 16, 0]) == 4096
  {
    var e: seq<u8> := [0, 0, 0, 0, 0, 0, 16, 0];
    var k := 0;
    while k < 6
      invariant k <= 6 && BeValue(e[..k]) == 0
    {
      assert e[..k + 1][..k] == e[..k];
      k := k + 1;
    }
    assert e[..7][..6] == e[..6];
    assert BeValue(e[..7]) == 16;
    assert e[..8] == e && e[..8][..7] == e[..7];
    var one: seq<u8> := [0, 0, 0, 1];
    assert one[..3] == [0, 0, 0] && one[..3][..2] == [0, 0] && one[..2][..1] == [0];
    assert BeValue([0]) == 0;
  }

  /** It decodes to its header and an empty map. */
  lemma Be64File()
    ensures ParseFile(Be64Elf) == Ok(File(FileHeader(2, 2, 1, 0, 0, 2, 62, 4096), map[]))
  {
    Be64HeaderOk();
    var h := ParseHeader(Be64Elf).value;
    IdentFields(Be64Elf, h);
    Class64Layout(Be64Elf, h);
    Be64Fields();
    assert h.file == FileHeader(2, 2, 1, 0, 0, 2, 62, 4096);
    ParseNoSections(Be64Elf);
  }
}
