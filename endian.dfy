/** Unsigned integers stored as little- or big-endian byte strings. */
module Endian {
  import opened ElfTypes

  function Pow256(n: nat): (p: nat)
    ensures p > 0
  {
    if n == 0 then 1 else 256 * Pow256(n - 1)
  }

  /** The value of `s` with its least significant byte first. */
  function LeValue(s: seq<u8>): (v: nat)
    ensures v < Pow256(|s|)
  {
    if s == [] then 0 else s[0] + 256 * LeValue(s[1..])
  }

  /** The value of `s` with its most significant byte first. */
  function BeValue(s: seq<u8>): (v: nat)
    ensures v < Pow256(|s|)
  {
    if s == [] then 0 else 256 * BeValue(s[..|s| - 1]) + s[|s| - 1]
  }

  /** `s` back to front. */
  function Reverse(s: seq<u8>): (r: seq<u8>)
    ensures |r| == |s| && forall i :: 0 <= i < |s| ==> r[i] == s[|s| - 1 - i]
  {
    if s == [] then [] else [s[|s| - 1]] + Reverse(s[..|s| - 1])
  }

  /** Big-endian is little-endian read back to front: the two byte orders
      value the same bytes in opposite order. */
  lemma {:induction false} BeValueIsReversedLe(s: seq<u8>)
    ensures BeValue(s) == LeValue(Reverse(s))
    decreases |s|
  {
    if s != [] {
      BeValueIsReversedLe(s[..|s| - 1]);
      assert Reverse(s)[1..] == Reverse(s[..|s| - 1]);
    }
  }

  /** The `n` low-order bytes of `v`, least significant first. */
  function LeBytes(v: nat, n: nat): (s: seq<u8>)
    ensures |s| == n
  {
    if n == 0 then [] else [v % 256] + LeBytes(v / 256, n - 1)
  }

  /** The `n` low-order bytes of `v`, most significant first. */
  function BeBytes(v: nat, n: nat): (s: seq<u8>)
    ensures |s| == n
  {
    if n == 0 then [] else BeBytes(v / 256, n - 1) + [v % 256]
  }

  /** The value of `s` in the byte order the data-encoding byte `d` selects. */
  function Decode(d: u8, s: seq<u8>): (v: nat)
    requires ValidData(d)
    ensures v < Pow256(|s|)
  {
    if d == ELFDATA2LSB then LeValue(s) else BeValue(s)
  }

  /** The value of the `w` bytes of `src` from `at` on, in the byte order `d`
      selects, read off by position. */
  function ValueAt(src: seq<u8>, at: nat, w: nat, d: u8): nat
    requires at + w <= |src|
    decreases w
  {
    if w == 0 then 0
    else if d == ELFDATA2LSB then src[at] + 256 * ValueAt(src, at + 1, w - 1, d)
    else 256 * ValueAt(src, at, w - 1, d) + src[at + w - 1]
  }

  /** Reading by position is decoding the slice. */
  lemma {:induction false} ValueAtDecode(src: seq<u8>, at: nat, w: nat, d: u8)
    requires ValidData(d) && at + w <= |src|
    ensures ValueAt(src, at, w, d) == Decode(d, src[at..at + w])
    decreases w
  {
    if w > 0 {
      if d == ELFDATA2LSB {
        ValueAtDecode(src, at + 1, w - 1, d);
        assert src[at..at + w][1..] == src[at + 1..at + w];
      } else {
        ValueAtDecode(src, at, w - 1, d);
        assert src[at..at + w][..w - 1] == src[at..at + w - 1];
      }
    }
  }

  /** The `n`-byte encoding of `v` in the byte order `d` selects. */
  function Encode(d: u8, v: nat, n: nat): (s: seq<u8>)
    requires ValidData(d)
    ensures |s| == n
  {
    if d == ELFDATA2LSB then LeBytes(v, n) else BeBytes(v, n)
  }

  lemma {:induction false} LeValueOfBytes(v: nat, n: nat)
    requires v < Pow256(n)
    ensures LeValue(LeBytes(v, n)) == v
  {
    if n > 0 {
      LeValueOfBytes(v / 256, n - 1);
      assert LeBytes(v, n)[1..] == LeBytes(v / 256, n - 1);
    }
  }

  lemma {:induction false} LeBytesOfValue(s: seq<u8>)
    ensures LeBytes(LeValue(s), |s|) == s
  {
    if s != [] {
      LeBytesOfValue(s[1..]);
      assert s == [s[0]] + s[1..];
    }
  }

  lemma {:induction false} BeValueOfBytes(v: nat, n: nat)
    requires v < Pow256(n)
    ensures BeValue(BeBytes(v, n)) == v
  {
    if n > 0 {
      BeValueOfBytes(v / 256, n - 1);
      var s := BeBytes(v, n);
      assert s[..n - 1] == BeBytes(v / 256, n - 1);
    }
  }

  lemma {:induction false} BeBytesOfValue(s: seq<u8>)
    ensures BeBytes(BeValue(s), |s|) == s
  {
    if s != [] {
      BeBytesOfValue(s[..|s| - 1]);
      assert s == s[..|s| - 1] + [s[|s| - 1]];
    }
  }

  /** Decoding inverts encoding and encoding inverts decoding, so the value read
      from a field determines the field's bytes and vice versa. */
  lemma DecodeEncode(d: u8, v: nat, n: nat)
    requires ValidData(d) && v < Pow256(n)
    ensures Decode(d, Encode(d, v, n)) == v
  {
    if d == ELFDATA2LSB { LeValueOfBytes(v, n); } else { BeValueOfBytes(v, n); }
  }

  lemma EncodeDecode(d: u8, s: seq<u8>)
    requires ValidData(d)
    ensures Encode(d, Decode(d, s), |s|) == s
  {
    if d == ELFDATA2LSB { LeBytesOfValue(s); } else { BeBytesOfValue(s); }
  }
}
