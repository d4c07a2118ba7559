/** The identification block and the file header: the first part of
    `File::parse`. */
module Header {
  import opened ElfTypes
  import opened Endian
  import opened ByteSource

  /** The identification buffer: 16 zero bytes over which a single read copies
      as many leading bytes of the source as there are, up to 16. */
  function Ident(src: seq<u8>): (id: seq<u8>)
    ensures |id| == EI_NIDENT
    ensures forall i :: 0 <= i < EI_NIDENT ==> id[i] == if i < |src| then src[i] else 0
  {
    var got := Available(src, 0, EI_NIDENT);
    got + seq(EI_NIDENT - |got|, _ => 0)
  }

  /** The class byte, checked. */
  function ClassOf(b: u8): (r: Result<ElfClass>)
    ensures r.Ok? <==> b == ELFCLASS32 || b == ELFCLASS64
    ensures r.Err? ==> r.error == InvalidClass
    ensures r.Ok? ==> (r.value == Class32 <==> b == ELFCLASS32)
  {
    if b == ELFCLASS32 then Ok(Class32)
    else if b == ELFCLASS64 then Ok(Class64)
    else Err(InvalidClass)
  }

  /** Everything the header read produces: the `FileHeader` that is kept, the
      checked class, the fields used later (`shoff`, `shnum`, `shstrndx`), the
      fields read and then discarded, and the cursor position after the last
      field. */
  datatype HeaderRead = HeaderRead(
    file: FileHeader,
    cls: ElfClass,
    phoff: nat,
    shoff: nat,
    flags: nat,
    ehsize: nat,
    phentsize: nat,
    phnum: nat,
    shentsize: nat,
    shnum: nat,
    shstrndx: nat,
    end: nat)

  /** The three fields read before the class is looked at. */
  datatype Prefix = Prefix(elfType: nat, machine: nat, version: nat, next: nat)

  /** type (16 bits), machine (16 bits), version (32 bits), from `pos` on. */
  function ReadPrefix(src: seq<u8>, pos: nat, d: u8): (r: Result<Prefix>)
    ensures r.Ok? <==> ValidData(d) && pos + 8 <= |src|
    ensures !ValidData(d) ==> r == Err(InvalidEndianness)
    ensures ValidData(d) && pos + 8 > |src| ==> r == Err(UnexpectedEof)
    ensures r.Ok? ==> r.value == Prefix(Decode(d, src[pos..pos + 2]), Decode(d, src[pos + 2..pos + 4]),
                                        Decode(d, src[pos + 4..pos + 8]), pos + 8)
  {
    var elfType :- UintAt(src, pos, 2, d);
    var machine :- UintAt(src, elfType.next, 2, d);
    var version :- UintAt(src, machine.next, 4, d);
    Ok(Prefix(elfType.value, machine.value, version.value, version.next))
  }

  /** The three class-sized fields. */
  datatype Words = Words(entry: nat, phoff: nat, shoff: nat, next: nat)

  /** entry, phoff and shoff, each `w` bytes wide, from `pos` on. */
  function ReadWords(src: seq<u8>, pos: nat, w: nat, d: u8): (r: Result<Words>)
    ensures r.Ok? <==> ValidData(d) && pos + 3 * w <= |src|
    ensures !ValidData(d) ==> r == Err(InvalidEndianness)
    ensures ValidData(d) && pos + 3 * w > |src| ==> r == Err(UnexpectedEof)
    ensures r.Ok? ==> r.value == Words(Decode(d, src[pos..pos + w]), Decode(d, src[pos + w..pos + 2 * w]),
                                       Decode(d, src[pos + 2 * w..pos + 3 * w]), pos + 3 * w)
    ensures r.Ok? ==> r.value.entry < Pow256(w) && r.value.phoff < Pow256(w) && r.value.shoff < Pow256(w)
  {
    var entry :- UintAt(src, pos, w, d);
    var phoff :- UintAt(src, entry.next, w, d);
    var shoff :- UintAt(src, phoff.next, w, d);
    Ok(Words(entry.value, phoff.value, shoff.value, shoff.next))
  }

  /** The fixed-width fields after the class-sized ones. */
  datatype Tail = Tail(flags: nat, ehsize: nat, phentsize: nat, phnum: nat,
                       shentsize: nat, shnum: nat, shstrndx: nat, next: nat)

  /** flags (32 bits), then ehsize, phentsize, phnum, shentsize, shnum and
      shstrndx (16 bits each), from `pos` on. */
  function ReadTail(src: seq<u8>, pos: nat, d: u8): (r: Result<Tail>)
    ensures r.Ok? <==> ValidData(d) && pos + 16 <= |src|
    ensures !ValidData(d) ==> r == Err(InvalidEndianness)
    ensures ValidData(d) && pos + 16 > |src| ==> r == Err(UnexpectedEof)
    ensures r.Ok? ==> r.value.next == pos + 16 && r.value.flags == Decode(d, src[pos..pos + 4])
    ensures r.Ok? ==> r.value.shnum == Decode(d, src[pos + 12..pos + 14])
    ensures r.Ok? ==> r.value.shstrndx == Decode(d, src[pos + 14..pos + 16])
  {
    var flags :- UintAt(src, pos, 4, d);
    var ehsize :- UintAt(src, flags.next, 2, d);
    var phentsize :- UintAt(src, ehsize.next, 2, d);
    var phnum :- UintAt(src, phentsize.next, 2, d);
    var shentsize :- UintAt(src, phnum.next, 2, d);
    var shnum :- UintAt(src, shentsize.next, 2, d);
    var shstrndx :- UintAt(src, shnum.next, 2, d);
    Ok(Tail(flags.value, ehsize.value, phentsize.value, phnum.value,
            shentsize.value, shnum.value, shstrndx.value, shstrndx.next))
  }

  /** The header read: magic check, then the fields in file order, the class
      deciding the width of entry, phoff and shoff only after type, machine
      and version have been read. */
  function ParseHeader(src: seq<u8>): (r: Result<HeaderRead>)
    ensures r.Ok? ==> ValidData(r.value.file.data)
  {
    var id := Ident(src);
    if id[..4] != ELFMAG then Err(InvalidMagic)
    else
      var d := id[EI_DATA];
      var pre :- ReadPrefix(src, |Available(src, 0, EI_NIDENT)|, d);
      var cls :- ClassOf(id[EI_CLASS]);
      var words :- ReadWords(src, pre.next, WordSize(cls), d);
      var tail :- ReadTail(src, words.next, d);
      Ok(HeaderRead(
        FileHeader(id[EI_CLASS], d, pre.version, id[EI_OSABI], id[EI_ABIVERSION],
                   pre.elfType, pre.machine, words.entry),
        cls, words.phoff, words.shoff, tail.flags, tail.ehsize, tail.phentsize,
        tail.phnum, tail.shentsize, tail.shnum, tail.shstrndx, tail.next))
  }

  /** Lines 84-86 on the reader: type, machine and version. */
  method ReadPrefixFrom(r: Reader, d: u8) returns (res: Result<Prefix>)
    modifies r
    ensures res == ReadPrefix(r.bytes, old(r.pos), d)
    ensures res.Ok? ==> r.pos == res.value.next
  {
    var elfType :- r.ReadUint(2, d);
    var machine :- r.ReadUint(2, d);
    var version :- r.ReadUint(4, d);
    res := Ok(Prefix(elfType.value, machine.value, version.value, version.next));
  }

  /** Lines 94-96 or 99-101 on the reader: entry, phoff and shoff. */
  method ReadWordsFrom(r: Reader, w: nat, d: u8) returns (res: Result<Words>)
    modifies r
    ensures res == ReadWords(r.bytes, old(r.pos), w, d)
    ensures res.Ok? ==> r.pos == res.value.next
  {
    var entry :- r.ReadUint(w, d);
    var phoff :- r.ReadUint(w, d);
    var shoff :- r.ReadUint(w, d);
    res := Ok(Words(entry.value, phoff.value, shoff.value, shoff.next));
  }

  /** Lines 106-112 on the reader: flags and the six 16-bit fields. */
  method ReadTailFrom(r: Reader, d: u8) returns (res: Result<Tail>)
    modifies r
    ensures res == ReadTail(r.bytes, old(r.pos), d)
    ensures res.Ok? ==> r.pos == res.value.next
  {
    var flags :- r.ReadUint(4, d);
    var ehsize :- r.ReadUint(2, d);
    var phentsize :- r.ReadUint(2, d);
    var phnum :- r.ReadUint(2, d);
    var shentsize :- r.ReadUint(2, d);
    var shnum :- r.ReadUint(2, d);
    var shstrndx :- r.ReadUint(2, d);
    res := Ok(Tail(flags.value, ehsize.value, phentsize.value, phnum.value,
                   shentsize.value, shnum.value, shstrndx.value, shstrndx.next));
  }

  /** Lines 71-112 of `File::parse`, read by read. */
  method ReadFileHeader(r: Reader) returns (res: Result<HeaderRead>)
    modifies r
    ensures res == ParseHeader(r.bytes)
    ensures res.Ok? ==> r.pos == res.value.end
    ensures res == Err(InvalidMagic) ==> r.pos == Min(EI_NIDENT, |r.bytes|)
  {
    r.Seek(0);
    var got := r.ReadUpTo(EI_NIDENT);
    var eident := got + seq(EI_NIDENT - |got|, _ => 0);
    assert eident == Ident(r.bytes);
    if eident[..4] != ELFMAG {
      return Err(InvalidMagic);
    }
    var d := eident[EI_DATA];
    var pre :- ReadPrefixFrom(r, d);
    var cls: ElfClass;
    if eident[EI_CLASS] == ELFCLASS32 {
      cls := Class32;
    } else if eident[EI_CLASS] == ELFCLASS64 {
      cls := Class64;
    } else {
      return Err(InvalidClass);
    }
    var words :- ReadWordsFrom(r, WordSize(cls), d);
    var tail :- ReadTailFrom(r, d);
    res := Ok(HeaderRead(
      FileHeader(eident[EI_CLASS], d, pre.version, eident[EI_OSABI], eident[EI_ABIVERSION],
                 pre.elfType, pre.machine, words.entry),
      cls, words.phoff, words.shoff, tail.flags, tail.ehsize, tail.phentsize,
      tail.phnum, tail.shentsize, tail.shnum, tail.shstrndx, tail.next));
  }

  /** A wrong magic number, and nothing else, fails with "invalid magic number". */
  lemma MagicCheck(src: seq<u8>)
    ensures ParseHeader(src) == Err(InvalidMagic) <==> Ident(src)[..4] != ELFMAG
  {
  }

  /** A decoded header carries the identification bytes of the source at their
      fixed indices, a recognised encoding and a recognised class. */
  lemma IdentFields(src: seq<u8>, h: HeaderRead)
    requires ParseHeader(src) == Ok(h)
    ensures |src| >= h.end >= 52 && src[..4] == ELFMAG
    ensures h.file.elfClass == src[EI_CLASS] && h.file.data == src[EI_DATA]
    ensures h.file.osAbi == src[EI_OSABI] && h.file.abiVersion == src[EI_ABIVERSION]
    ensures ValidData(h.file.data)
    ensures h.cls == Class32 <==> src[EI_CLASS] == ELFCLASS32
    ensures h.cls == Class64 <==> src[EI_CLASS] == ELFCLASS64
  {
    var id := Ident(src);
    assert |Available(src, 0, EI_NIDENT)| == 16;
    assert id[..4] == src[..4];
  }

  /** ELFCLASS32: entry, phoff and shoff are the 32-bit fields at bytes 24, 28
      and 32, so each is below 2^32, and the header ends at byte 52. */
  lemma Class32Layout(src: seq<u8>, h: HeaderRead)
    requires ParseHeader(src) == Ok(h) && h.cls == Class32
    ensures h.end == 52
    ensures h.file.elfType == Decode(h.file.data, src[16..18])
    ensures h.file.machine == Decode(h.file.data, src[18..20])
    ensures h.file.version == Decode(h.file.data, src[20..24])
    ensures h.file.entrypoint == Decode(h.file.data, src[24..28])
    ensures h.phoff == Decode(h.file.data, src[28..32])
    ensures h.shoff == Decode(h.file.data, src[32..36])
    ensures h.file.entrypoint < Pow256(4) && h.phoff < Pow256(4) && h.shoff < Pow256(4)
    ensures h.shnum == Decode(h.file.data, src[48..50])
    ensures h.shstrndx == Decode(h.file.data, src[50..52])
  {
    assert |Available(src, 0, EI_NIDENT)| == 16;
  }

  /** ELFCLASS64: entry, phoff and shoff are the 64-bit fields at bytes 24, 32
      and 40, and the header ends at byte 64. */
  lemma Class64Layout(src: seq<u8>, h: HeaderRead)
    requires ParseHeader(src) == Ok(h) && h.cls == Class64
    ensures h.end == 64
    ensures h.file.elfType == Decode(h.file.data, src[16..18])
    ensures h.file.machine == Decode(h.file.data, src[18..20])
    ensures h.file.version == Decode(h.file.data, src[20..24])
    ensures h.file.entrypoint == Decode(h.file.data, src[24..32])
    ensures h.phoff == Decode(h.file.data, src[32..40])
    ensures h.shoff == Decode(h.file.data, src[40..48])
    ensures h.shnum == Decode(h.file.data, src[60..62])
    ensures h.shstrndx == Decode(h.file.data, src[62..64])
  {
    var id := Ident(src);
    var d := id[EI_DATA];
    assert |Available(src, 0, EI_NIDENT)| == 16;
    var pre := ReadPrefix(src, 16, d);
    var words := ReadWords(src, 24, 8, d);
    var tail := ReadTail(src, 48, d);
    assert ClassOf(id[EI_CLASS]) == Ok(Class64);
    assert pre.Ok? && words.Ok? && tail.Ok?;
    assert h.file.entrypoint == words.value.entry;
    assert h.phoff == words.value.phoff;
    assert h.shoff == words.value.shoff;
    assert h.shnum == tail.value.shnum && h.shstrndx == tail.value.shstrndx;
  }

  /** An unknown encoding byte fails at the first field read. */
  lemma InvalidData(src: seq<u8>)
    requires Ident(src)[..4] == ELFMAG && !ValidData(Ident(src)[EI_DATA])
    ensures ParseHeader(src) == Err(InvalidEndianness)
  {
  }

  /** An unknown class byte fails with "invalid class" exactly when the type,
      machine and version reads (bytes 16 to 24) succeed. */
  lemma InvalidClassAfterReads(src: seq<u8>)
    requires Ident(src)[..4] == ELFMAG && ValidData(Ident(src)[EI_DATA])
    requires Ident(src)[EI_CLASS] != ELFCLASS32 && Ident(src)[EI_CLASS] != ELFCLASS64
    ensures ParseHeader(src) == if |src| >= 24 then Err(InvalidClass) else Err(UnexpectedEof)
  {
  }
}
