/** `File::parse` as a whole: header, section-header table, payloads, names
    and the name-keyed map, and the lookup `get_section`. */
module ElfFile {
  import opened ElfTypes
  import opened ByteSource
  import opened Names
  import opened Header
  import opened Sections

  /** The payload of each section: the bytes from its offset on, at most its
      size of them (the second loop of `File::parse`). */
  function Payloads(src: seq<u8>, hdrs: seq<SectionHeader>): (ps: seq<seq<u8>>)
    ensures |ps| == |hdrs|
  {
    seq(|hdrs|, i requires 0 <= i < |hdrs| => Available(src, hdrs[i].offset, hdrs[i].size))
  }

  /** Every header with its resolved name (the third loop of `File::parse`).
      The string table is the payload at `shstrndx`; indexing it fails when
      there is at least one section and `shstrndx` is out of range, before any
      name is looked up. */
  function ResolveNames(payloads: seq<seq<u8>>, hdrs: seq<SectionHeader>, nameIdxs: seq<nat>,
                        shstrndx: nat): (r: Result<seq<SectionHeader>>)
    requires |payloads| == |hdrs| == |nameIdxs|
    ensures r == Err(ShstrndxOutOfRange) <==> |hdrs| > 0 && shstrndx >= |hdrs|
    ensures r.Ok? ==> |r.value| == |hdrs| && forall i :: 0 <= i < |hdrs| ==>
      r.value[i] == hdrs[i].(name := r.value[i].name) &&
      ElfString(payloads[shstrndx], nameIdxs[i]) == Ok(r.value[i].name)
    ensures r.Err? && r.error != ShstrndxOutOfRange ==>
      r.error == NameUnderflow &&
      exists i :: 0 <= i < |hdrs| && ElfString(payloads[shstrndx], nameIdxs[i]).Err?
  {
    if |hdrs| == 0 then Ok([])
    else if shstrndx >= |payloads| then Err(ShstrndxOutOfRange)
    else if exists i :: 0 <= i < |hdrs| && ElfString(payloads[shstrndx], nameIdxs[i]).Err? then
      Err(NameUnderflow)
    else
      Ok(seq(|hdrs|, i requires 0 <= i < |hdrs| =>
        hdrs[i].(name := ElfString(payloads[shstrndx], nameIdxs[i]).value)))
  }

  /** Headers paired with payloads, index by index. */
  function Zip(hdrs: seq<SectionHeader>, payloads: seq<seq<u8>>): (secs: seq<Section>)
    requires |hdrs| == |payloads|
    ensures |secs| == |hdrs|
    ensures forall i :: 0 <= i < |secs| ==> secs[i].hdr == hdrs[i] && secs[i].data == payloads[i]
  {
    seq(|hdrs|, i requires 0 <= i < |hdrs| => Section(hdrs[i], payloads[i]))
  }

  /** The map built by inserting every section under its name, in table order
      (the last loop of `File::parse`). */
  function Index(secs: seq<Section>): (m: map<string, Section>)
    ensures m.Keys == set i | 0 <= i < |secs| :: secs[i].hdr.name
  {
    if secs == [] then map[]
    else
      var last := secs[|secs| - 1];
      var m := Index(secs[..|secs| - 1])[last.hdr.name := last];
      assert forall i :: 0 <= i < |secs| - 1 ==> secs[..|secs| - 1][i] == secs[i];
      m
  }

  /** The whole decode: any failure of a stage is the failure of the decode. */
  function ParseFile(src: seq<u8>): (r: Result<File>)
    ensures r == Err(InvalidMagic) <==> Ident(src)[..4] != ELFMAG
    ensures r.Ok? ==> ParseHeader(src).Ok? && r.value.hdr == ParseHeader(src).value.file
    ensures r.Ok? ==> ValidData(r.value.hdr.data) && src[..4] == ELFMAG
  {
    var h :- ParseHeader(src);
    var t :- SectionTable(src, h.shoff, h.shnum, h.cls, h.file.data);
    var payloads := Payloads(src, t.hdrs);
    var named :- ResolveNames(payloads, t.hdrs, t.nameIdxs, h.shstrndx);
    Ok(File(h.file, Index(Zip(named, payloads))))
  }

  /** A section whose name no later section repeats is the one the map keeps
      under that name. */
  lemma {:induction false} IndexKeepsLast(secs: seq<Section>, i: nat)
    requires i < |secs|
    requires forall j :: i < j < |secs| ==> secs[j].hdr.name != secs[i].hdr.name
    ensures secs[i].hdr.name in Index(secs) && Index(secs)[secs[i].hdr.name] == secs[i]
    decreases |secs|
  {
    var init := secs[..|secs| - 1];
    if i < |secs| - 1 {
      assert init[i] == secs[i];
      forall j | i < j < |init|
        ensures init[j].hdr.name != init[i].hdr.name
      {
        assert init[j] == secs[j];
      }
      IndexKeepsLast(init, i);
    }
  }

  /** Conversely, every entry of the map is the last section carrying its key. */
  lemma {:induction false} IndexEntryIsLast(secs: seq<Section>, name: string)
    requires name in Index(secs)
    ensures exists i :: 0 <= i < |secs| && secs[i].hdr.name == name && Index(secs)[name] == secs[i] &&
                (forall j :: i < j < |secs| ==> secs[j].hdr.name != name)
    decreases |secs|
  {
    var n := |secs|;
    var init := secs[..n - 1];
    if secs[n - 1].hdr.name == name {
      assert Index(secs)[name] == secs[n - 1];
    } else {
      assert name in Index(init);
      IndexEntryIsLast(init, name);
      var i :| 0 <= i < |init| && init[i].hdr.name == name && Index(init)[name] == init[i] &&
        forall j :: i < j < |init| ==> init[j].hdr.name != name;
      assert init[i] == secs[i];
      forall j | i < j < n
        ensures secs[j].hdr.name != name
      {
        if j < n - 1 {
          assert init[j] == secs[j];
        }
      }
    }
  }

  /** With `shnum == 0` the table, the payloads and the names are empty, so the
      decode succeeds with an empty map whatever `shoff` and `shstrndx` say. */
  lemma ParseNoSections(src: seq<u8>)
    requires ParseHeader(src).Ok? && ParseHeader(src).value.shnum == 0
    ensures ParseFile(src) == Ok(File(ParseHeader(src).value.file, map[]))
  {
    var h := ParseHeader(src).value;
    var t := SectionTable(src, h.shoff, 0, h.cls, h.file.data);
    assert t == Ok(Table([], [], h.shoff));
    assert Payloads(src, []) == [];
    assert ResolveNames([], [], [], h.shstrndx) == Ok([]);
    assert Zip([], []) == [];
  }

  /** Once the table has been read, an `shstrndx` that does not index it fails
      the decode, though `shnum` sections were read (the source panics here). */
  lemma ParseShstrndxOutOfRange(src: seq<u8>)
    requires ParseHeader(src).Ok?
    requires var h := ParseHeader(src).value;
      SectionTable(src, h.shoff, h.shnum, h.cls, h.file.data).Ok? && 0 < h.shnum <= h.shstrndx
    ensures ParseFile(src) == Err(ShstrndxOutOfRange)
  {
    var h := ParseHeader(src).value;
    var t := SectionTable(src, h.shoff, h.shnum, h.cls, h.file.data).value;
    assert ResolveNames(Payloads(src, t.hdrs), t.hdrs, t.nameIdxs, h.shstrndx) == Err(ShstrndxOutOfRange);
  }

  /** The keys of the map built from resolved headers are exactly the names
      resolved for them. */
  lemma NamedKeys(payloads: seq<seq<u8>>, hdrs: seq<SectionHeader>, nameIdxs: seq<nat>,
                  shstrndx: nat, named: seq<SectionHeader>, name: string)
    requires |payloads| == |hdrs| == |nameIdxs|
    requires ResolveNames(payloads, hdrs, nameIdxs, shstrndx) == Ok(named)
    ensures name in Index(Zip(named, payloads)) <==>
      (exists i :: 0 <= i < |hdrs| && ElfString(payloads[shstrndx], nameIdxs[i]) == Ok(name))
  {
    var secs := Zip(named, payloads);
    if name in Index(secs) {
      var i :| 0 <= i < |secs| && secs[i].hdr.name == name;
      assert ElfString(payloads[shstrndx], nameIdxs[i]) == Ok(name);
    }
    if exists i :: 0 <= i < |hdrs| && ElfString(payloads[shstrndx], nameIdxs[i]) == Ok(name) {
      var i :| 0 <= i < |hdrs| && ElfString(payloads[shstrndx], nameIdxs[i]) == Ok(name);
      assert secs[i].hdr.name == name;
    }
  }

  /** The entry kept under a key is the last header resolving to it, renamed,
      with its own payload. */
  lemma NamedEntry(payloads: seq<seq<u8>>, hdrs: seq<SectionHeader>, nameIdxs: seq<nat>,
                   shstrndx: nat, named: seq<SectionHeader>, name: string)
    requires |payloads| == |hdrs| == |nameIdxs|
    requires ResolveNames(payloads, hdrs, nameIdxs, shstrndx) == Ok(named)
    requires name in Index(Zip(named, payloads))
    ensures exists i :: (0 <= i < |hdrs| && Index(Zip(named, payloads))[name] == Section(hdrs[i].(name := name), payloads[i]) &&
                         ElfString(payloads[shstrndx], nameIdxs[i]) == Ok(name) &&
                         (forall j :: i < j < |hdrs| ==> ElfString(payloads[shstrndx], nameIdxs[j]) != Ok(name)))
  {
    var secs := Zip(named, payloads);
    IndexEntryIsLast(secs, name);
    var i :| 0 <= i < |secs| && secs[i].hdr.name == name && Index(secs)[name] == secs[i] &&
      forall j :: i < j < |secs| ==> secs[j].hdr.name != name;
    assert secs[i] == Section(named[i], payloads[i]);
    forall j | i < j < |hdrs|
      ensures ElfString(payloads[shstrndx], nameIdxs[j]) != Ok(name)
    {
      assert secs[j].hdr.name == named[j].name;
    }
  }

  /** The payload kept under a key was read at that entry's own offset and
      size. */
  lemma NamedPayload(src: seq<u8>, hdrs: seq<SectionHeader>, nameIdxs: seq<nat>,
                     shstrndx: nat, named: seq<SectionHeader>, name: string)
    requires |hdrs| == |nameIdxs|
    requires ResolveNames(Payloads(src, hdrs), hdrs, nameIdxs, shstrndx) == Ok(named)
    requires name in Index(Zip(named, Payloads(src, hdrs)))
    ensures var sec := Index(Zip(named, Payloads(src, hdrs)))[name];
      sec.hdr.name == name && sec.data == Available(src, sec.hdr.offset, sec.hdr.size)
  {
    var ps := Payloads(src, hdrs);
    var secs := Zip(named, ps);
    IndexEntryIsLast(secs, name);
    var i :| 0 <= i < |secs| && secs[i].hdr.name == name && Index(secs)[name] == secs[i];
    assert secs[i] == Section(named[i], ps[i]);
    assert named[i] == hdrs[i].(name := named[i].name);
  }

  /** A successful decode went through every stage, and the file is built from
      their results. */
  lemma ParseFileStages(src: seq<u8>, f: File)
    requires ParseFile(src) == Ok(f)
    ensures ParseHeader(src).Ok?
    ensures var h := ParseHeader(src).value;
      SectionTable(src, h.shoff, h.shnum, h.cls, h.file.data).Ok?
    ensures var h := ParseHeader(src).value;
      var t := SectionTable(src, h.shoff, h.shnum, h.cls, h.file.data).value;
      var ps := Payloads(src, t.hdrs);
      var named := ResolveNames(ps, t.hdrs, t.nameIdxs, h.shstrndx);
      named.Ok? && f == File(h.file, Index(Zip(named.value, ps)))
  {
  }

  /** Conversely, stages that all succeed make the decode succeed with the
      file built from their results. */
  lemma ParseFileOfStages(src: seq<u8>, h: HeaderRead, t: Table, named: seq<SectionHeader>)
    requires ParseHeader(src) == Ok(h)
    requires SectionTable(src, h.shoff, h.shnum, h.cls, h.file.data) == Ok(t)
    requires ResolveNames(Payloads(src, t.hdrs), t.hdrs, t.nameIdxs, h.shstrndx) == Ok(named)
    ensures ParseFile(src) == Ok(File(h.file, Index(Zip(named, Payloads(src, t.hdrs)))))
  {
  }

  /** The keys of a decoded file are exactly the names resolved for the
      records of its table. */
  lemma ParsedKeys(src: seq<u8>, f: File, name: string)
    requires ParseFile(src) == Ok(f)
    ensures var h := ParseHeader(src).value;
      var t := SectionTable(src, h.shoff, h.shnum, h.cls, h.file.data).value;
      name in f.sections <==>
        (exists i :: 0 <= i < |t.hdrs| && ElfString(Payloads(src, t.hdrs)[h.shstrndx], t.nameIdxs[i]) == Ok(name))
  {
    var h := ParseHeader(src).value;
    var t := SectionTable(src, h.shoff, h.shnum, h.cls, h.file.data).value;
    var payloads := Payloads(src, t.hdrs);
    var named := ResolveNames(payloads, t.hdrs, t.nameIdxs, h.shstrndx).value;
    ParseFileStages(src, f);
    NamedKeys(payloads, t.hdrs, t.nameIdxs, h.shstrndx, named, name);
  }

  /** Each entry of a decoded file is record `i` of the table, renamed to its
      key, with the payload read for it; no later record resolves to the same
      key. */
  lemma ParsedSection(src: seq<u8>, f: File, name: string)
    requires ParseFile(src) == Ok(f) && name in f.sections
    ensures var h := ParseHeader(src).value;
      var t := SectionTable(src, h.shoff, h.shnum, h.cls, h.file.data).value;
      var ps := Payloads(src, t.hdrs);
      exists i :: (0 <= i < |t.hdrs| && f.sections[name] == Section(t.hdrs[i].(name := name), ps[i]) &&
                   ElfString(ps[h.shstrndx], t.nameIdxs[i]) == Ok(name) &&
                   (forall j :: i < j < |t.hdrs| ==> ElfString(ps[h.shstrndx], t.nameIdxs[j]) != Ok(name)))
  {
    var h := ParseHeader(src).value;
    var t := SectionTable(src, h.shoff, h.shnum, h.cls, h.file.data).value;
    var payloads := Payloads(src, t.hdrs);
    var named := ResolveNames(payloads, t.hdrs, t.nameIdxs, h.shstrndx).value;
    ParseFileStages(src, f);
    NamedEntry(payloads, t.hdrs, t.nameIdxs, h.shstrndx, named, name);
  }

  /** The payload kept under a key is at most `size` bytes from the section's
      `offset`, exactly those when they lie inside the file: a section running
      past the end is truncated, not rejected. */
  lemma ParsedSectionData(src: seq<u8>, f: File, name: string)
    requires ParseFile(src) == Ok(f) && name in f.sections
    ensures var sec := f.sections[name];
      sec.hdr.name == name &&
      sec.data == Available(src, sec.hdr.offset, sec.hdr.size) && |sec.data| <= sec.hdr.size &&
      (sec.hdr.offset + sec.hdr.size <= |src| ==> sec.data == src[sec.hdr.offset..sec.hdr.offset + sec.hdr.size])
  {
    var h := ParseHeader(src).value;
    var t := SectionTable(src, h.shoff, h.shnum, h.cls, h.file.data).value;
    var named := ResolveNames(Payloads(src, t.hdrs), t.hdrs, t.nameIdxs, h.shstrndx).value;
    ParseFileStages(src, f);
    assert f.sections == Index(Zip(named, Payloads(src, t.hdrs)));
    NamedPayload(src, t.hdrs, t.nameIdxs, h.shstrndx, named, name);
    var sec := f.sections[name];
    assert sec.data == Available(src, sec.hdr.offset, sec.hdr.size);
  }

  /** `Object::get_section`: the section kept under `name`, reduced to its
      name, address, size and payload. */
  function GetSection(f: File, name: string): (r: Option<ObjSection>)
    ensures r.None? <==> name !in f.sections
    ensures r.Some? ==> var sec := f.sections[name];
      r.value.name == sec.hdr.name && r.value.addr == sec.hdr.addr &&
      r.value.size == sec.hdr.size && r.value.data == sec.data
  {
    if name in f.sections then
      var sec := f.sections[name];
      Some(ObjSection(sec.hdr.name, sec.hdr.addr, sec.hdr.size, sec.data))
    else
      None
  }

  /** On a decoded file, `get_section` finds exactly the resolved names, and
      what it returns carries the name asked for and the (possibly truncated)
      payload of that section. */
  lemma GetSectionOfParsed(src: seq<u8>, f: File, name: string)
    requires ParseFile(src) == Ok(f)
    ensures var h := ParseHeader(src).value;
      var t := SectionTable(src, h.shoff, h.shnum, h.cls, h.file.data).value;
      GetSection(f, name).Some? <==>
        (exists i :: 0 <= i < |t.hdrs| && ElfString(Payloads(src, t.hdrs)[h.shstrndx], t.nameIdxs[i]) == Ok(name))
    ensures GetSection(f, name).Some? ==> var o := GetSection(f, name).value;
      o.name == name && o.data == Available(src, f.sections[name].hdr.offset, o.size) && |o.data| <= o.size
  {
    ParsedKeys(src, f, name);
    if name in f.sections {
      ParsedSectionData(src, f, name);
    }
  }

  /** The first loop of `File::parse` (lines 119-171): seek to `shoff` and
      push `shnum` records. */
  method ReadTable(r: Reader, h: HeaderRead) returns (res: Result<Table>)
    requires ValidData(h.file.data)
    modifies r
    ensures res == SectionTable(r.bytes, h.shoff, h.shnum, h.cls, h.file.data)
    ensures res.Ok? ==> r.pos == res.value.next
  {
    var cls, data := h.cls, h.file.data;
    r.Seek(h.shoff);
    var hdrs: seq<SectionHeader> := [];
    var nameIdxs: seq<nat> := [];
    var k := 0;
    while k < h.shnum
      invariant k <= h.shnum
      invariant SectionTable(r.bytes, h.shoff, k, cls, data) == Ok(Table(hdrs, nameIdxs, r.pos))
    {
      var rec := ReadSectionHeader(r, cls, data);
      if rec.Err? {
        TableFailsAt(r.bytes, h.shoff, k, h.shnum, cls, data);
        return Err(rec.error);
      }
      TableGrows(r.bytes, h.shoff, k, cls, data);
      nameIdxs := nameIdxs + [rec.value.nameIdx];
      hdrs := hdrs + [rec.value.hdr];
      k := k + 1;
    }
    res := Ok(Table(hdrs, nameIdxs, r.pos));
  }

  /** The second loop (lines 173-179): for each header, seek to its offset and
      read at most its size of bytes. */
  method LoadPayloads(r: Reader, hdrs: seq<SectionHeader>) returns (payloads: seq<seq<u8>>)
    modifies r
    ensures payloads == Payloads(r.bytes, hdrs)
    ensures |hdrs| == 0 ==> r.pos == old(r.pos)
    ensures |hdrs| > 0 ==> r.pos == hdrs[|hdrs| - 1].offset + |payloads[|hdrs| - 1]|
  {
    payloads := [];
    var k := 0;
    while k < |hdrs|
      invariant k <= |hdrs|
      invariant payloads == Payloads(r.bytes, hdrs[..k])
      invariant k == 0 ==> r.pos == old(r.pos)
      invariant k > 0 ==> r.pos == hdrs[k - 1].offset + |payloads[k - 1]|
    {
      r.Seek(hdrs[k].offset);
      var bytes := r.ReadUpTo(hdrs[k].size);
      payloads := payloads + [bytes];
      k := k + 1;
    }
    assert hdrs[..k] == hdrs;
  }

  /** The third loop (lines 181-183): each header's name, written in place. */
  method NameSections(payloads: seq<seq<u8>>, hdrs: seq<SectionHeader>, nameIdxs: seq<nat>,
                      shstrndx: nat) returns (res: Result<seq<SectionHeader>>)
    requires |payloads| == |hdrs| == |nameIdxs|
    ensures res == ResolveNames(payloads, hdrs, nameIdxs, shstrndx)
  {
    var named := hdrs;
    var k := 0;
    while k < |named|
      invariant k <= |named| == |hdrs|
      invariant k > 0 ==> shstrndx < |payloads|
      invariant forall j :: 0 <= j < k ==>
        ElfString(payloads[shstrndx], nameIdxs[j]) == Ok(named[j].name) &&
        named[j] == hdrs[j].(name := named[j].name)
      invariant forall j :: k <= j < |named| ==> named[j] == hdrs[j]
    {
      if shstrndx >= |payloads| {
        return Err(ShstrndxOutOfRange);
      }
      var name := GetElfString(payloads[shstrndx], nameIdxs[k]);
      if name.Err? {
        assert ElfString(payloads[shstrndx], nameIdxs[k]).Err?;
        return Err(name.error);
      }
      named := named[k := named[k].(name := name.value)];
      k := k + 1;
    }
    if 0 < |hdrs| {
      assert !exists i :: 0 <= i < |hdrs| && ElfString(payloads[shstrndx], nameIdxs[i]).Err?;
      assert named == seq(|hdrs|, i requires 0 <= i < |hdrs| =>
        hdrs[i].(name := ElfString(payloads[shstrndx], nameIdxs[i]).value));
    }
    res := Ok(named);
  }

  /** The last loop (lines 185-187): insert every section under its name. */
  method BuildIndex(hdrs: seq<SectionHeader>, payloads: seq<seq<u8>>) returns (sections: map<string, Section>)
    requires |hdrs| == |payloads|
    ensures sections == Index(Zip(hdrs, payloads))
  {
    sections := map[];
    var k := 0;
    while k < |hdrs|
      invariant k <= |hdrs|
      invariant sections == Index(Zip(hdrs, payloads)[..k])
    {
      assert Zip(hdrs, payloads)[..k + 1][..k] == Zip(hdrs, payloads)[..k];
      sections := sections[hdrs[k].name := Section(hdrs[k], payloads[k])];
      k := k + 1;
    }
    assert Zip(hdrs, payloads)[..k] == Zip(hdrs, payloads);
  }

  /** `File::parse` on a reader over `r.bytes`, its stages in the source's
      order; the first stage that fails decides the error. */
  method Parse(r: Reader) returns (res: Result<File>)
    modifies r
    ensures res == ParseFile(r.bytes)
    ensures res.Ok? ==> (
      ParseHeader(r.bytes).Ok? &&
      var h := ParseHeader(r.bytes).value;
      SectionTable(r.bytes, h.shoff, h.shnum, h.cls, h.file.data).Ok? &&
      var hdrs := SectionTable(r.bytes, h.shoff, h.shnum, h.cls, h.file.data).value.hdrs;
      r.pos == if hdrs == [] then h.shoff
               else hdrs[|hdrs| - 1].offset + |Available(r.bytes, hdrs[|hdrs| - 1].offset, hdrs[|hdrs| - 1].size)|)
  {
    var h :- ReadFileHeader(r);
    var t :- ReadTable(r, h);
    var payloads := LoadPayloads(r, t.hdrs);
    var named :- NameSections(payloads, t.hdrs, t.nameIdxs, h.shstrndx);
    var sections := BuildIndex(named, payloads);
    res := Ok(File(h.file, sections));
  }
}
