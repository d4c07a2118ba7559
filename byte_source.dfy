/** The seekable byte source `File::parse` reads from, modelled as an in-memory
    byte sequence and a cursor, and the primitive reads `read_u16`, `read_u32`
    and `read_u64` made on it. */
module ByteSource {
  import opened ElfTypes
  import opened Endian

  function Max(a: nat, b: nat): nat {
    if a < b then b else a
  }

  function Min(a: nat, b: nat): nat {
    if a <= b then a else b
  }

  /** The bytes that a read of at most `n` bytes at position `off` yields: all
      of them while they last, never more than `n`, none past the end. */
  function Available(src: seq<u8>, off: nat, n: nat): (p: seq<u8>)
    ensures |p| <= n
    ensures |p| == if off < |src| then Min(n, |src| - off) else 0
    ensures forall i :: 0 <= i < |p| ==> off + i < |src| && p[i] == src[off + i]
    ensures off + n <= |src| ==> p == src[off..off + n]
  {
    if off >= |src| then [] else src[off..off + Min(n, |src| - off)]
  }

  /** A fixed-width read: its value and the cursor position after it. */
  datatype Read = Read(value: nat, next: nat)

  /** What `read_uN` with `n == N / 8` does at position `pos` under the
      data-encoding byte `d`: an unknown encoding fails before anything is
      consumed; otherwise exactly `n` bytes are consumed, or the read fails
      when fewer remain. */
  function UintAt(src: seq<u8>, pos: nat, n: nat, d: u8): (r: Result<Read>)
    ensures r.Ok? <==> ValidData(d) && pos + n <= |src|
    ensures !ValidData(d) ==> r == Err(InvalidEndianness)
    ensures ValidData(d) && pos + n > |src| ==> r == Err(UnexpectedEof)
    ensures r.Ok? ==> r.value.next == pos + n && r.value.value < Pow256(n)
    ensures r.Ok? ==> r.value.value == Decode(d, src[pos..pos + n])
  {
    if !ValidData(d) then Err(InvalidEndianness)
    else if pos + n > |src| then Err(UnexpectedEof)
    else Ok(Read(Decode(d, src[pos..pos + n]), pos + n))
  }

  /** A successful read consumed exactly the encoding of the value it returns. */
  lemma UintAtConsumesEncoding(src: seq<u8>, pos: nat, n: nat, d: u8)
    requires UintAt(src, pos, n, d).Ok?
    ensures Encode(d, UintAt(src, pos, n, d).value.value, n) == src[pos..pos + n]
  {
    EncodeDecode(d, src[pos..pos + n]);
  }

  /** The reader: the bytes of the source and the cursor into them. */
  class Reader {
    const bytes: seq<u8>
    var pos: nat

    constructor (bytes: seq<u8>)
      ensures this.bytes == bytes && pos == 0
    {
      this.bytes := bytes;
      pos := 0;
    }

    /** `seek(SeekFrom::Start(p))`; a position past the end is allowed, and
        reads there find no bytes. */
    method Seek(p: nat)
      modifies this
      ensures pos == p
    {
      pos := p;
    }

    /** A read of at most `n` bytes, one byte at a time, stopping at the end of
        the source. */
    method ReadUpTo(n: nat) returns (got: seq<u8>)
      modifies this
      ensures got == Available(bytes, old(pos), n)
      ensures pos == old(pos) + |got|
    {
      got := [];
      while |got| < n && pos < |bytes|
        invariant pos == old(pos) + |got| && |got| <= n
        invariant got == [] || pos <= |bytes|
        invariant forall i :: 0 <= i < |got| ==> got[i] == bytes[old(pos) + i]
        decreases n - |got|
      {
        got := got + [bytes[pos]];
        pos := pos + 1;
      }
      assert |got| == |Available(bytes, old(pos), n)|;
    }

    /** The `read_u16` / `read_u32` / `read_u64` macros, as one read of `n`
        bytes. An unknown encoding returns before reading; otherwise
        `read_exact` consumes the field, or, when fewer than `n` bytes remain,
        whatever remains before it reports the end of file. */
    method ReadUint(n: nat, d: u8) returns (r: Result<Read>)
      modifies this
      ensures r == UintAt(bytes, old(pos), n, d)
      ensures r.Ok? ==> pos == r.value.next
      ensures r == Err(InvalidEndianness) ==> pos == old(pos)
      ensures r == Err(UnexpectedEof) ==> pos == Max(old(pos), |bytes|)
    {
      r := UintAt(bytes, pos, n, d);
      if r.Ok? {
        pos := r.value.next;
      } else if r == Err(UnexpectedEof) {
        pos := Max(pos, |bytes|);
      }
    }
  }

  /** Under little-endian the bytes 01 00 read as 1, under big-endian as 256. */
  lemma EndiannessExample()
    ensures UintAt([1, 0], 0, 2, ELFDATA2LSB) == Ok(Read(1, 2))
    ensures UintAt([1, 0], 0, 2, ELFDATA2MSB) == Ok(Read(256, 2))
  {
    var s: seq<u8> := [1, 0];
    assert s[..1] == [1] && s[1..] == [0] && s[..1][..0] == [];
  }
}
