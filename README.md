# ELF decoder model

A Dafny model of the ELF object-file decoder in `src/elf/file.rs`. It covers the
endian-dispatched integer reads, the identification block and file header, the
section-header table, the section payloads, name resolution through the
section-name string table, the name-keyed section map, and the
format-independent `get_section` lookup.

The byte source that `File::parse` reads from (any `io::Read + io::Seek`) is
modelled as the class `ByteSource.Reader`. It holds a fixed byte sequence and a
cursor. The stages that read the source are methods over a reader. The stages
that work on what was read are methods over sequences. Each method is proved
equal to a pure function:

- on a reader, `Header.ReadFileHeader` equals `Header.ParseHeader`;
- on a reader, `ElfFile.ReadTable` equals `Sections.SectionTable`;
- on a reader, `ElfFile.LoadPayloads` equals `ElfFile.Payloads`;
- on sequences, `ElfFile.NameSections` equals `ElfFile.ResolveNames`;
- on sequences, `ElfFile.BuildIndex` equals `ElfFile.Index`;
- on sequences, `Names.GetElfString` equals `Names.ElfString`.

The reader methods also state where the cursor ends up.

`ElfFile.Parse` composes these methods, and `ElfFile.ParseFile` composes the
functions. The lemmas state what those functions promise:

- the magic check and the identification bytes of a decoded header;
- the header layout of each class;
- the section-header layout of each class;
- the position of each record in the table;
- possibly truncated payloads;
- the three outcomes of name resolution;
- the out-of-range `shstrndx` failure;
- the keys of the map and which record wins for a duplicate name;
- what `get_section` returns on a decoded file.

Modules, one per file:

- `ElfTypes` (elf_types.dfy): constants, record types and the error/result types;
- `Endian` (endian.dfy): little/big-endian values and their encodings;
- `ByteSource` (byte_source.dfy): the reader and the `read_uN` macros;
- `Names` (names.dfy): `get_elf_string`;
- `Header` (header.dfy): identification and file header;
- `Sections` (sections.dfy): the section-header table;
- `ElfFile` (elf_file.dfy): the rest of `File::parse`, `File::sections`, `get_section`;
- `Samples` (samples.dfy): three concrete files and what they decode to:
  - a bare 52-byte little-endian ELFCLASS32 header;
  - a file with one section that is its own string table;
  - a bare 64-byte big-endian ELFCLASS64 header.

Two failures are panics in the source, not `io::Error`s:

- indexing `sections_data` with an out-of-range `shstrndx` (line 182);
- the unsigned subtraction `end - start` in `get_elf_string` (line 51).

The model returns them as the errors `ShstrndxOutOfRange` and `NameUnderflow`, so
that a decode either yields a file or says why not.

Three behaviours of the code differ from what the ELF format leads one to expect; the model follows the code:

- A section whose `offset + size` runs past the end of the source is not an
  error. The payload loop takes what bytes there are (line 177). See
  `ElfFile.ParsedSectionData`.
- A name with no zero terminator does not run to the end of the string table.
  The scan leaves `end` at 0 (lines 43-49). With offset 0 that name is `""`;
  with any other offset `end - start` underflows (line 51). See `Names.ElfString`.
- `shentsize` is read but never used. Records are always 40 (ELFCLASS32) or 64
  (ELFCLASS64) bytes: see `Sections.SectionTable`.

## Model

| member | source | states |
|---|---|---|
| `ByteSource.UintAt` | src/elf/file.rs:12-40 | A read of `n` bytes under data byte `d` succeeds iff `d` is ELFDATA2LSB or ELFDATA2MSB and `n` bytes remain. An unknown `d` gives "invalid endianness" before anything is consumed. Too few bytes gives an end-of-file error. On success it consumes exactly `n` bytes, and the value is below 256^n and is the decoding of those bytes in that byte order. |
| `ByteSource.UintAtConsumesEncoding` | src/elf/file.rs:12-40 | The bytes a successful read consumes are exactly the `n`-byte encoding of the value it returns. |
| `ByteSource.EndiannessExample` | src/elf/file.rs:32-40 | The bytes 01 00 read as 1 little-endian and as 256 big-endian. |
| `ByteSource.Reader.ReadUint` | src/elf/file.rs:12-40 | The reader's read returns the value of `UintAt` at the cursor. On success the cursor moves past the field. An unknown encoding leaves it in place. At end of file `read_exact` has consumed what remained, so the cursor sits at the end of the source, or where it was if that was already past the end. |
| `ByteSource.Reader.Seek` | src/elf/file.rs:176 | A seek to an absolute position puts the cursor there, even past the end of the source. |
| `ByteSource.Reader.ReadUpTo` | src/elf/file.rs:177 | A byte-at-a-time read of at most `n` bytes returns the bytes of the source from the cursor on, at most `n` of them, stopping at the end. The cursor advances by the number returned. |
| `ByteSource.Available` | src/elf/file.rs:177 | What a bounded read yields: never more than `n` bytes, `min(n, remaining)` of them, each the source byte at its position, and the whole slice when it fits. |
| `Endian.DecodeEncode` | src/elf/file.rs:12-40 | In either byte order, decoding the `n`-byte encoding of a value below 256^n gives the value back. |
| `Endian.EncodeDecode` | src/elf/file.rs:12-40 | In either byte order, encoding the value of a byte string in its own length gives the string back. |
| `Endian.Decode` | src/elf/file.rs:15-16 | A field's value in the byte order the encoding selects is below 256^n. |
| `Endian.BeValueIsReversedLe` | src/elf/file.rs:15-16 | The big-endian value of any byte string is the little-endian value of the same bytes reversed. |
| `Endian.ValueAtDecode` | src/elf/file.rs:12-40 | Reading `w` bytes of the source by position has the value of the slice decoded. |
| `Names.FirstZero` | src/elf/file.rs:43-49 | The scan for the terminator finds the first zero byte at or after `start`, or reports that there is none. |
| `Names.ElfString` | src/elf/file.rs:42-57 | A name fails (the underflow) iff `start > 0` and no zero byte follows `start`. Otherwise every character is the non-zero byte at its offset from `start`. When a terminator exists the name ends right at it. When none exists the name is empty. |
| `Names.GetElfString` | src/elf/file.rs:42-57 | The scan-then-copy loops compute `ElfString`. |
| `Header.Ident` | src/elf/file.rs:71-73 | The identification buffer is 16 bytes: the source's first bytes where present, zero past its end. |
| `Header.ClassOf` | src/elf/file.rs:88-104 | The class byte is accepted iff it is ELFCLASS32 or ELFCLASS64, and otherwise fails with "invalid class". |
| `Header.ReadPrefix` | src/elf/file.rs:84-86 | type, machine and version are the 2-, 2- and 4-byte fields from the cursor on. They fail exactly as the primitive reads do. |
| `Header.ReadWords` | src/elf/file.rs:88-104 | entry, phoff and shoff are three consecutive class-width fields, each below 256^width. |
| `Header.ReadTail` | src/elf/file.rs:106-112 | flags and the six 16-bit fields cover 16 bytes. shnum and shstrndx are the last two 16-bit fields. |
| `Header.ParseHeader` | src/elf/file.rs:71-112 | A decoded header always has a recognised data encoding. |
| `Header.ReadPrefixFrom` | src/elf/file.rs:84-86 | The three reads on the reader compute `ReadPrefix` at the cursor and, on success, leave the cursor after version. |
| `Header.ReadWordsFrom` | src/elf/file.rs:92-104 | The three class-width reads on the reader compute `ReadWords` at the cursor and, on success, leave the cursor after shoff. |
| `Header.ReadTailFrom` | src/elf/file.rs:106-112 | The seven reads on the reader compute `ReadTail` at the cursor and, on success, leave the cursor after shstrndx. |
| `Header.ReadFileHeader` | src/elf/file.rs:71-112 | The header read on the reader computes `ParseHeader` and leaves the cursor after the last header field. After a bad magic number the cursor sits where the identification read stopped. |
| `Header.MagicCheck` | src/elf/file.rs:75-77 | The decode fails with "invalid magic number" iff the first four identification bytes are not 7F 'E' 'L' 'F'. |
| `Header.IdentFields` | src/elf/file.rs:79-82 | A decoded header comes from a source that has the magic number and at least one whole header. Its class, data, OS/ABI and ABI-version bytes are source bytes 4, 5, 7 and 8. Its encoding is valid, and its class is 32- or 64-bit exactly as byte 4 says. |
| `Header.Class32Layout` | src/elf/file.rs:84-112 | ELFCLASS32: the header ends at byte 52. type, machine, version, entry, phoff and shoff are the fields at bytes 16, 18, 20, 24, 28 and 32, and shnum and shstrndx are at 48 and 50. entry, phoff and shoff are zero-extended 32-bit values. |
| `Header.Class64Layout` | src/elf/file.rs:84-112 | ELFCLASS64: the header ends at byte 64. entry, phoff and shoff are the 64-bit fields at bytes 24, 32 and 40, and shnum and shstrndx are at 60 and 62. |
| `Header.InvalidData` | src/elf/file.rs:84 | An unknown data-encoding byte fails the decode with "invalid endianness" at the first field read. |
| `Header.InvalidClassAfterReads` | src/elf/file.rs:84-104 | An unknown class byte gives "invalid class" only when bytes 16-24 are present. Otherwise the earlier reads fail first with end of file. |
| `Sections.ReadRecord` | src/elf/file.rs:133-170 | Reading one record field by field succeeds iff a whole 40- or 64-byte record remains. Its name is still empty, and the cursor ends right after the record. |
| `Sections.RecordAt` | src/elf/file.rs:133-170 | The layout reading of a record fails and succeeds exactly as `ReadRecord` does. |
| `Sections.FieldAt` | src/elf/file.rs:133-170 | Each field of the layout is the value of its own bytes within the record. |
| `Sections.ReadRecordLayout` | src/elf/file.rs:133-170 | The field-by-field read equals the fixed System V layout for the class. |
| `Sections.SectionTable` | src/elf/file.rs:119-171 | A non-empty table of `shnum` records fails iff its last record runs past the end of the source, and then with end of file. An empty table never fails. The table holds `shnum` headers and name offsets and ends `shnum` record sizes after `shoff`. |
| `Sections.TableRecord` | src/elf/file.rs:119-171 | Record `i` of the table is the record at `shoff + i * size`. |
| `Sections.TableGrows` | src/elf/file.rs:121-171 | Each iteration of the loop that reads a record extends the table by exactly that record. |
| `Sections.TableEntriesAgree` | src/elf/file.rs:121-171 | Reading further records does not change the ones already read. |
| `Sections.TableFailsAt` | src/elf/file.rs:121-171 | A record that cannot be read before the `shnum`-th fails the whole table. |
| `Sections.ReadSectionHeader` | src/elf/file.rs:133-170 | One iteration on the reader returns the record at the cursor and leaves the cursor after it. |
| `ElfFile.ReadTable` | src/elf/file.rs:119-171 | The seek to `shoff` and the record loop compute `SectionTable`. After a successful read the cursor is right after the last record. |
| `ElfFile.Payloads` | src/elf/file.rs:173-179 | There is one payload per header. |
| `ElfFile.LoadPayloads` | src/elf/file.rs:173-179 | The payload loop on the reader computes `Payloads`. The cursor ends right after the bytes read for the last header, and does not move when there are no headers. |
| `ElfFile.ResolveNames` | src/elf/file.rs:181-183 | Name resolution fails with an out-of-range string-table index iff there are sections and `shstrndx >= shnum`. Any other failure is a name that underflows. On success only the names change, each the `ElfString` of its offset in the string-table payload. |
| `ElfFile.NameSections` | src/elf/file.rs:181-183 | The in-place renaming loop computes `ResolveNames`. |
| `ElfFile.Zip` | src/elf/file.rs:185 | Section `i` pairs header `i` with payload `i`. |
| `ElfFile.Index` | src/elf/file.rs:185-187 | The keys of the map are exactly the names of the sections inserted, so its size is the number of distinct names. |
| `ElfFile.IndexKeepsLast` | src/elf/file.rs:185-187 | A section that no later section shares a name with is the value under its name: the last insert wins. |
| `ElfFile.IndexEntryIsLast` | src/elf/file.rs:185-187 | Every value in the map is the last section inserted under its key. |
| `ElfFile.BuildIndex` | src/elf/file.rs:185-187 | The insert loop computes `Index` of the headers paired with their payloads. |
| `ElfFile.NamedKeys` | src/elf/file.rs:181-187 | The keys built from resolved headers are exactly the names resolved for them. |
| `ElfFile.NamedEntry` | src/elf/file.rs:181-187 | The entry under a key is the last header resolving to it, renamed, with its own payload. |
| `ElfFile.NamedPayload` | src/elf/file.rs:173-187 | The payload kept under a key was read at the kept header's own offset and size. |
| `ElfFile.ParseFile` | src/elf/file.rs:70-202 | The whole decode fails with "invalid magic number" iff the identification bytes lack the magic number. A decoded file's header is the header decoded from the source, with a recognised encoding, and the source starts with the magic number. |
| `ElfFile.ParseFileStages` | src/elf/file.rs:70-202 | A successful decode passed every stage, and the file is the header with the map built from the stages' results. |
| `ElfFile.ParseFileOfStages` | src/elf/file.rs:70-202 | Conversely, when every stage succeeds the decode succeeds with the file built from their results. |
| `ElfFile.ParseNoSections` | src/elf/file.rs:121-201 | With `shnum == 0` the decode succeeds with the header and an empty map, whatever `shoff` and `shstrndx` are. |
| `ElfFile.ParseShstrndxOutOfRange` | src/elf/file.rs:181-183 | Once a non-empty table is read, `shstrndx >= shnum` fails the decode. |
| `ElfFile.ParsedKeys` | src/elf/file.rs:181-206 | The keys of `File::sections` are exactly the names resolved for the table's records. |
| `ElfFile.ParsedSection` | src/elf/file.rs:121-206 | Each entry is some record `i` of the table, renamed to its key, with its own payload. No later record resolves to the same key. |
| `ElfFile.ParsedSectionData` | src/elf/file.rs:173-179 | A section's data is at most `size` bytes from its `offset`, and exactly those when they lie inside the file. A section running past the end is truncated, not rejected. |
| `ElfFile.GetSection` | src/elf/file.rs:225-236 | The lookup is absent iff the name is not a key. Otherwise it carries that section's name, address, size and data. |
| `ElfFile.GetSectionOfParsed` | src/elf/file.rs:225-236 | On a decoded file the lookup finds exactly the resolved names. Its result carries the name asked for and the possibly truncated payload of that section. |
| `ElfFile.Parse` | src/elf/file.rs:70-202 | The whole decode on a reader computes `ParseFile` of the reader's bytes. After a successful decode the cursor is at `shoff` when there are no sections. Otherwise it is right after the bytes read for the last section. |
| `Samples.MinimalIdent` | src/elf/file.rs:72-82 | The sample header's identification block has the magic number, ELFCLASS32 and ELFDATA2LSB. |
| `Samples.MinimalHeaderDecodes` | src/elf/file.rs:71-112 | The 52-byte sample header decodes as ELFCLASS32. |
| `Samples.MinimalFields` | src/elf/file.rs:84-111 | Its type, machine, version, entry and shnum fields read little-endian as 2, 3, 1, 0 and 0. |
| `Samples.MinimalFile` | src/elf/file.rs:70-206 | The bare header decodes to its file header and an empty section map, and `get_section(".text")` finds nothing. |
| `Samples.OneHeaderOk` | src/elf/file.rs:71-112 | The header of the one-section sample decodes as ELFCLASS32. |
| `Samples.OneHeaderDecodes` | src/elf/file.rs:84-112 | Its header has type 2, machine 3 and version 1, with the table at byte 52, one section and string table 0. |
| `Samples.OneField` | src/elf/file.rs:133-144 | Each field of the sample record is the little-endian value of its bytes within the record. |
| `Samples.OneFieldValues` | src/elf/file.rs:133-144 | The record's ten fields are name offset 0, type 3, offset 92, size 3 and addralign 1, the rest 0. |
| `Samples.OneRecordReads` | src/elf/file.rs:133-170 | The record at byte 52 is that section header with its name still empty, and the next record would start at byte 92. |
| `Samples.OneTable` | src/elf/file.rs:119-171 | The table of one record at byte 52 holds exactly that header and name offset. |
| `Samples.OnePayloadAndName` | src/elf/file.rs:42-57 | The section's payload is the three bytes at offset 92, and offset 0 in them names `.a`. |
| `Samples.OneNames` | src/elf/file.rs:181-183 | The section, as string table of itself, is renamed `.a`. |
| `Samples.Be64HeaderOk` | src/elf/file.rs:71-112 | The 64-byte big-endian header decodes as ELFCLASS64. |
| `Samples.Be64Fields` | src/elf/file.rs:84-111 | Read most significant byte first, its type, machine, version, entry and shnum are 2, 62, 1, 0x1000 and 0. |
| `Samples.Be64Values` | src/elf/file.rs:16 | The big-endian values of those field bytes. |
| `Samples.Be64File` | src/elf/file.rs:70-202 | The big-endian header decodes to its file header and an empty section map. |
| `Samples.OneSectionFile` | src/elf/file.rs:70-236 | The sample decodes to one section keyed `.a` with the string table as its data, and `get_section(".a")` returns its name, address 0, size 3 and those bytes. |

## Left out

- The `Display` implementations of `File` and `Section` only format text, so they are not modelled.
- `Object::arch` returns a constant, so it is not modelled.
- The accessors `File::sections`, `Section::header` and `Section::data` (lines 204-206, 239-246) are the datatype fields `File.sections`, `Section.hdr` and `Section.data`, not separate functions.
- I/O errors of the underlying stream and `unwrap` on failed byte reads are not modelled. The source is an in-memory byte sequence that never fails.
- The identification read (line 73) is modelled as reading `min(16, length)` bytes, as a file or cursor does. A reader returning fewer bytes is not modelled.
- The result of the first seek (line 71) is ignored in the source and always succeeds in the model.
- `HashMap` iteration order is not modelled. The map is a Dafny `map`, which has no order.
- Integer fields are unbounded naturals. Every value read is below 256^width, and the 32-bit ones are widened without loss, so no wrap-around arises. The `as usize` casts at lines 177 and 182 are identities in the model.
- The newtype wrappers of `elf::types` (`Class`, `Data`, `Type`, `Machine`, `SectionType`, `SectionFlag` and others) are their raw integers.
- Payloads are computed for all headers before names are resolved, as in the source. Panics are reported as `Err` values rather than aborting.
- `ByteSource.Reader.ReadUint` follows what `read_exact` does on files and in-memory cursors when it fails at end of file: it consumes the remaining bytes. The standard library leaves this unspecified for other readers. Every such failure ends the decode, so no decode result depends on it.
- `Sections.ReadSectionHeader` and `ElfFile.ReadTable` do not state where the cursor is after a failed read. That position is discarded with the error.
