/** Name resolution: `get_elf_string` reads a section name out of the
    string-table section's bytes. */
module Names {
  import opened ElfTypes

  /** The index of the first zero byte at or after `start`, if any. */
  function FirstZero(data: seq<u8>, start: nat): (r: Option<nat>)
    decreases |data| - start
    ensures r.Some? ==> start <= r.value < |data| && data[r.value] == 0
    ensures r.Some? ==> forall i :: start <= i < r.value ==> data[i] != 0
    ensures r.None? ==> forall i :: start <= i < |data| ==> data[i] != 0
  {
    if start >= |data| then None
    else if data[start] == 0 then Some(start)
    else FirstZero(data, start + 1)
  }

  /** Bytes as characters, one character per byte. */
  function Latin1(bs: seq<u8>): (s: string)
    ensures |s| == |bs| && forall i :: 0 <= i < |bs| ==> s[i] == bs[i] as char
  {
    seq(|bs|, i requires 0 <= i < |bs| => bs[i] as char)
  }

  /** The name `get_elf_string(data, start)` resolves to. The end of the name
      starts as 0 and becomes the first zero byte at or after `start`; when
      there is none it stays 0, and `end - start` underflows unless `start`
      is 0 as well. */
  function ElfString(data: seq<u8>, start: nat): (r: Result<string>)
    ensures r.Err? <==> start > 0 && forall i :: start <= i < |data| ==> data[i] != 0
    ensures r.Err? ==> r.error == NameUnderflow
    ensures r.Ok? ==> forall k :: 0 <= k < |r.value| ==>
      start + k < |data| && data[start + k] != 0 && r.value[k] == data[start + k] as char
    ensures r.Ok? && (exists i :: start <= i < |data| && data[i] == 0) ==>
      start + |r.value| < |data| && data[start + |r.value|] == 0
    ensures r.Ok? && (forall i :: start <= i < |data| ==> data[i] != 0) ==> r.value == []
  {
    var end := match FirstZero(data, start) case Some(e) => e case None => 0;
    if end < start then Err(NameUnderflow) else Ok(Latin1(data[start..end]))
  }

  /** `get_elf_string`: a scan for the terminator, then a copy of the bytes
      before it. */
  method GetElfString(data: seq<u8>, start: nat) returns (r: Result<string>)
    ensures r == ElfString(data, start)
  {
    var end: nat := 0;
    var i := start;
    while i < |data|
      invariant start <= i && end == 0
      invariant forall j :: start <= j < i && j < |data| ==> data[j] != 0
    {
      if data[i] == 0 {
        end := i;
        break;
      }
      i := i + 1;
    }
    if end < start {
      return Err(NameUnderflow);
    }
    var ret: string := [];
    i := start;
    while i < end
      invariant start <= i <= end <= |data|
      invariant ret == Latin1(data[start..i])
    {
      ret := ret + [data[i] as char];
      i := i + 1;
    }
    r := Ok(ret);
  }
}
