/** Constants and record types of the ELF object-file format, as laid down in
    chapter 4 "Object Files" of the System V ABI ("ELF Header", "ELF
    Identification" and "Sections"), and the outcomes of decoding. */
module ElfTypes {

  /** An unsigned byte. */
  type u8 = x: int | 0 <= x < 0x100

  /** The magic number at the start of every ELF file: 0x7F 'E' 'L' 'F'. */
  const ELFMAG: seq<u8> := [0x7F, 0x45, 0x4C, 0x46]

  /** Byte indices in the identification block. */
  const EI_CLASS: nat := 4
  const EI_DATA: nat := 5
  const EI_OSABI: nat := 7
  const EI_ABIVERSION: nat := 8
  const EI_NIDENT: nat := 16

  /** Values of the class byte. */
  const ELFCLASS32: u8 := 1
  const ELFCLASS64: u8 := 2

  /** Values of the data-encoding byte. */
  const ELFDATA2LSB: u8 := 1
  const ELFDATA2MSB: u8 := 2

  predicate ValidData(d: u8) {
    d == ELFDATA2LSB || d == ELFDATA2MSB
  }

  /** Why a decode produced no file. The first four are the `io::Error`s that
      `File::parse` returns; the last two are panics of the decoder (an
      out-of-range vector index and an unsigned subtraction that underflows). */
  datatype Error =
    | InvalidEndianness
    | InvalidMagic
    | InvalidClass
    | UnexpectedEof
    | ShstrndxOutOfRange
    | NameUnderflow

  datatype Result<T> = Ok(value: T) | Err(error: Error) {
    predicate IsFailure() {
      Err?
    }

    function PropagateFailure<U>(): Result<U>
      requires Err?
    {
      Err(error)
    }

    function Extract(): T
      requires Ok?
    {
      value
    }
  }

  datatype Option<T> = None | Some(value: T)

  /** The two recognised classes, once the class byte has been checked. */
  datatype ElfClass = Class32 | Class64

  /** Width in bytes of an address, offset or size field of the class. */
  function WordSize(c: ElfClass): nat {
    match c
    case Class32 => 4
    case Class64 => 8
  }

  /** The decoded file header. `elfClass` and `data` are the raw identification
      bytes; the integer fields are the values read, zero-extended. */
  datatype FileHeader = FileHeader(
    elfClass: u8,
    data: u8,
    version: nat,
    osAbi: u8,
    abiVersion: u8,
    elfType: nat,
    machine: nat,
    entrypoint: nat)

  /** One entry of the section-header table; `name` is resolved in a later pass. */
  datatype SectionHeader = SectionHeader(
    name: string,
    shtype: nat,
    flags: nat,
    addr: nat,
    offset: nat,
    size: nat,
    link: nat,
    info: nat,
    addralign: nat,
    entsize: nat)

  /** A section: its header and the bytes loaded for it. The fields `hdr` and
      `data` are the accessors `Section::header` and `Section::data`. */
  datatype Section = Section(hdr: SectionHeader, data: seq<u8>)

  /** A decoded file: its header and its sections keyed by name. The field
      `sections` is the accessor `File::sections`. */
  datatype File = File(hdr: FileHeader, sections: map<string, Section>)

  /** The format-independent section view returned by `get_section`. */
  datatype ObjSection = ObjSection(name: string, addr: nat, size: nat, data: seq<u8>)
}
