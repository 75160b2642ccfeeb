/**
 * The leading-byte classifier of FileViewer/probe/binexeobj.cc
 * (identify_binexeobj_magic): one `switch` on the first byte, a few
 * length-guarded tests per case, one format tag out.
 *
 * Two properties of the C++ are made explicit:
 *  - `mv[i]` is a plain `char`. Whether it is signed is the `signedChar`
 *    parameter: the switch compares its promoted value with the case labels,
 *    and `mv[7] < 43` and the Mach-O shifts see the promoted value too.
 *  - A string literal or char array handed to `startswith` becomes a
 *    std::string_view whose length strlen computes (`CStr`), so a literal
 *    with an embedded NUL is cut short there.
 * The source as written is `Identify`; `IdentifyIntended` is the classifier
 * with the defects recorded in README's findings corrected.
 */
module Binexeobj {
  import opened Bytes

  /** details::Types, the tags this classifier can produce. */
  datatype Types =
    | None
    | Archive
    | Elf | ElfRelocatable | ElfExecutable | ElfSharedObject | ElfCore
    | MachOObject | MachOExecutable | MachOFixedVirtualMemorySharedLib | MachOCore
    | MachOPreloadExecutable | MachODynamicallyLinkedSharedLib | MachODynamicLinker
    | MachOBundle | MachODynamicallyLinkedSharedLibStub | MachODsymCompanion
    | MachOKextBundle | MachOUniversalBinary
    | CoffClGlObject | CoffObject | CoffImportLibrary | PECoffExecutable
    | WindowsResource | WasmObject | Pdb | Bitcode

  /** What a call produces: a tag, or the std::out_of_range that string_view::substr throws. */
  datatype Verdict = Classified(tag: Types) | OutOfRange

  // ------------------------------------------------------------ constants

  const CoffImportLiteral: seq<byte> := [0x00, 0x00, 0xFF, 0xFF]   // "\0\0\xFF\xFF"
  const WasmLiteral: seq<byte> := [0x00, 0x61, 0x73, 0x6D]         // "\0asm"
  const BitcodeLiteral: seq<byte> := [0xDE, 0xC0, 0x17, 0x0B]      // "\xDE\xC0\x17\x0B"
  const BitcodeWrapperLiteral: seq<byte> := [0x42, 0x43, 0xC0, 0xDE] // "BC\xC0\xDE"
  const ArchLiteral: seq<byte> := [0x21, 0x3C, 0x61, 0x72, 0x63, 0x68, 0x3E, 0x0A] // "!<arch>\n"
  const ThinLiteral: seq<byte> := [0x21, 0x3C, 0x74, 0x68, 0x69, 0x6E, 0x3E, 0x0A] // "!<thin>\n"
  /** ElfMagic, a char array ending in '\0'. */
  const ElfMagic: seq<byte> := [0x7F, 0x45, 0x4C, 0x46, 0x00]
  const FatLiteral: seq<byte> := [0xCA, 0xFE, 0xBA, 0xBE]
  const Fat64Literal: seq<byte> := [0xCA, 0xFE, 0xBA, 0xBF]
  const MachO32Literal: seq<byte> := [0xFE, 0xED, 0xFA, 0xCE]
  const MachO64Literal: seq<byte> := [0xFE, 0xED, 0xFA, 0xCF]
  const MachO32ReverseLiteral: seq<byte> := [0xCE, 0xFA, 0xED, 0xFE]
  const MachO64ReverseLiteral: seq<byte> := [0xCF, 0xFA, 0xED, 0xFE]
  /** "Microsoft C/C++ MSF 7.00\r\n" */
  const PdbLiteral: seq<byte> :=
    [0x4D, 0x69, 0x63, 0x72, 0x6F, 0x73, 0x6F, 0x66, 0x74, 0x20, 0x43, 0x2F, 0x43,
     0x2B, 0x2B, 0x20, 0x4D, 0x53, 0x46, 0x20, 0x37, 0x2E, 0x30, 0x30, 0x0D, 0x0A]
  const MzLiteral: seq<byte> := [0x4D, 0x5A]                       // "MZ"
  /** llvm::COFF::PEMagic, a char array "PE\0\0". */
  const PEMagic: seq<byte> := [0x50, 0x45, 0x00, 0x00]

  /** offsetof(llvm::COFF::BigObjHeader, UUID). */
  const BigObjUuidOffset: nat := 12
  /** llvm::COFF::BigObjMagic, compared with memcmp over all 16 bytes. */
  const BigObjMagic: seq<byte> :=
    [0xC7, 0xA1, 0xBA, 0xD1, 0xEE, 0xBA, 0xA9, 0x4B, 0xAF, 0x20, 0xFA, 0xF6, 0x6A, 0xA4, 0xDC, 0xB8]
  /** llvm::COFF::ClGlObjMagic. */
  const ClGlObjMagic: seq<byte> :=
    [0x38, 0xFE, 0xB3, 0x0C, 0xA5, 0xD9, 0xAB, 0x4D, 0xAC, 0x9B, 0xD6, 0xB6, 0x22, 0x26, 0x53, 0xC2]
  /** llvm::COFF::WinResMagic. */
  const WinResMagic: seq<byte> :=
    [0x00, 0x00, 0x00, 0x00, 0x20, 0x00, 0x00, 0x00, 0xFF, 0xFF, 0x00, 0x00, 0xFF, 0xFF, 0x00, 0x00]
  /** sizeof(mach_header) and sizeof(mach_header_64). */
  const MachHeaderSize: nat := 28
  const MachHeader64Size: nat := 32
  /** Where the code reads the PE header offset, and where the MS-DOS stub keeps it (e_lfanew). */
  const PeOffsetAsRead: nat := 0x32
  const PeOffsetField: nat := 0x3C

  // ------------------------------------------------------------ primitives

  /** The int a plain char promotes to. */
  function CharValue(b: byte, signedChar: bool): (c: int)
    ensures !signedChar || b < 0x80 ==> c == b as int
    ensures signedChar && b >= 0x80 ==> c == b as int - 256 && c < 0
  {
    if signedChar && b >= 0x80 then b as int - 256 else b as int
  }

  /** probe::startswith: the view is at least as long as the pattern and begins with it. */
  function StartsWith(sv: seq<byte>, sv2: seq<byte>): (r: bool)
    ensures r <==> |sv| >= |sv2| && sv[..|sv2|] == sv2
  {
    |sv| >= |sv2| && MemEq(sv, sv2, |sv2|)
  }

  // ------------------------------------------------------------ the cases of the switch

  /**
   * case 0x00. The patterns are parameters: the source passes the
   * strlen-converted literals, the corrected classifier the full four bytes.
   */
  function ZeroCase(mv: seq<byte>, importMagic: seq<byte>, wasmMagic: seq<byte>): (t: Types)
    requires |mv| >= 4
    ensures t in {CoffImportLibrary, CoffObject, CoffClGlObject, WindowsResource, WasmObject, None}
  {
    if StartsWith(mv, importMagic) then
      if |mv| < BigObjUuidOffset + |BigObjMagic| then CoffImportLibrary
      else if MemEq(mv[BigObjUuidOffset..], BigObjMagic, |BigObjMagic|) then CoffObject
      else if MemEq(mv[BigObjUuidOffset..], ClGlObjMagic, |ClGlObjMagic|) then CoffClGlObject
      else CoffImportLibrary
    else if |mv| >= |WinResMagic| && MemEq(mv, WinResMagic, |WinResMagic|) then WindowsResource
    else if mv[1] == 0 then CoffObject
    else if StartsWith(mv, wasmMagic) then WasmObject
    else None
  }

  /** case '\177': e_ident[EI_DATA] == 2 (big-endian) makes byte 16 the high byte of e_type. */
  function ElfCase(mv: seq<byte>): (t: Types)
    requires |mv| >= 4
    ensures t in {Elf, ElfRelocatable, ElfExecutable, ElfSharedObject, ElfCore, None}
  {
    if StartsWith(mv, CStr(ElfMagic)) && |mv| >= 18 then
      var data2Msb := mv[5] == 2;
      var high := if data2Msb then 16 else 17;
      var low := if data2Msb then 17 else 16;
      if mv[high] == 0 then
        match mv[low]
        case 1 => ElfRelocatable
        case 2 => ElfExecutable
        case 3 => ElfSharedObject
        case 4 => ElfCore
        case _ => Elf
      else Elf
    else None
  }

  /** case 0xCA: a fat binary whose architecture count byte is below 43. */
  function FatCase(mv: seq<byte>, signedChar: bool): (t: Types)
    requires |mv| >= 4
    ensures t in {MachOUniversalBinary, None}
  {
    if StartsWith(mv, FatLiteral) || StartsWith(mv, Fat64Literal) then
      if |mv| >= 8 && CharValue(mv[7], signedChar) < 43 then MachOUniversalBinary else None
    else None
  }

  /** The value a char promotes to, as the 32 bits of an int. */
  function Promote(b: byte, signedChar: bool): bv32 {
    if signedChar && b >= 0x80 then (b as bv32) | 0xFFFF_FF00 else b as bv32
  }

  /** uint16_t type = a << 24 | b << 12 | c << 8 | d, each a promoted char. */
  function MachOType(a: byte, b: byte, c: byte, d: byte, signedChar: bool): (t: bv16)
    ensures !signedChar ==> t == (d as bv16) | ((c as bv16) << 8) | (((b & 0x0F) as bv16) << 12)
  {
    var v := (Promote(a, signedChar) << 24) | (Promote(b, signedChar) << 12)
           | (Promote(c, signedChar) << 8) | Promote(d, signedChar);
    (v & 0xFFFF) as bv16
  }

  /** The Mach-O file types 1..11 (MH_OBJECT .. MH_KEXT_BUNDLE). */
  function MachOTag(type_: bv16): (t: Types)
    ensures t != None <==> 1 <= type_ <= 11
    ensures t !in {Archive, Bitcode, Pdb, PECoffExecutable, CoffObject, MachOUniversalBinary}
  {
    match type_
    case 1 => MachOObject
    case 2 => MachOExecutable
    case 3 => MachOFixedVirtualMemorySharedLib
    case 4 => MachOCore
    case 5 => MachOPreloadExecutable
    case 6 => MachODynamicallyLinkedSharedLib
    case 7 => MachODynamicLinker
    case 8 => MachOBundle
    case 9 => MachODynamicallyLinkedSharedLibStub
    case 10 => MachODsymCompanion
    case 11 => MachOKextBundle
    case _ => None
  }

  /** The view starts with one of the four thin Mach-O magics, in either byte order. */
  predicate IsMachOMagic(mv: seq<byte>)
  {
    || StartsWith(mv, MachO32Literal) || StartsWith(mv, MachO64Literal)
    || StartsWith(mv, MachO32ReverseLiteral) || StartsWith(mv, MachO64ReverseLiteral)
  }

  /** The type field as the code reads it; 0 when no magic matched or the header does not fit. */
  function MachOFileType(mv: seq<byte>, signedChar: bool): (t: bv16)
    requires |mv| >= 4
    ensures t != 0 ==> (|mv| >= MachHeaderSize && IsMachOMagic(mv))
    ensures (!signedChar && (StartsWith(mv, MachO32Literal) || StartsWith(mv, MachO64Literal)) && |mv| >= MachHeader64Size) ==>
      t == (mv[15] as bv16) | ((mv[14] as bv16) << 8) | (((mv[13] & 0x0F) as bv16) << 12)
    ensures (!signedChar && !StartsWith(mv, MachO32Literal) && !StartsWith(mv, MachO64Literal) &&
             (StartsWith(mv, MachO32ReverseLiteral) || StartsWith(mv, MachO64ReverseLiteral)) && |mv| >= MachHeader64Size) ==>
      t == (mv[12] as bv16) | ((mv[13] as bv16) << 8) | (((mv[14] & 0x0F) as bv16) << 12)
  {
    if StartsWith(mv, MachO32Literal) || StartsWith(mv, MachO64Literal) then
      var minsize := if mv[3] == 0xCE then MachHeaderSize else MachHeader64Size;
      if |mv| >= minsize then MachOType(mv[12], mv[13], mv[14], mv[15], signedChar) else 0
    else if StartsWith(mv, MachO32ReverseLiteral) || StartsWith(mv, MachO64ReverseLiteral) then
      var minsize := if mv[0] == 0xCE then MachHeaderSize else MachHeader64Size;
      if |mv| >= minsize then MachOType(mv[15], mv[14], mv[13], mv[12], signedChar) else 0
    else 0
  }

  /** case 0xFE, 0xCE, 0xCF. */
  function MachOCase(mv: seq<byte>, signedChar: bool): (t: Types)
    requires |mv| >= 4
    ensures t !in {Archive, Bitcode, Pdb, PECoffExecutable, CoffObject, MachOUniversalBinary}
    ensures t != None ==> (|mv| >= MachHeaderSize && IsMachOMagic(mv))
  {
    MachOTag(MachOFileType(mv, signedChar))
  }

  /** case 0xF0, 0x83, 0x84, 0x66, 0x50, 0x4c, 0xc4: machine byte then the 0x90/0x68 test it falls through to. */
  function CoffMachineCase(mv: seq<byte>): (t: Types)
    requires |mv| >= 4
    ensures t == (if mv[1] in {0x01, 0x02} then CoffObject else None)
  {
    if mv[1] == 0x01 then CoffObject else CoffMachineFallthrough(mv)
  }

  /** case 0x90, 0x68. */
  function CoffMachineFallthrough(mv: seq<byte>): (t: Types)
    requires |mv| >= 4
    ensures t == CoffObject <==> mv[1] == 0x02
    ensures t != CoffObject ==> t == None
  {
    if mv[1] == 0x02 then CoffObject else None
  }

  /** case 0x64: x86-64 or ARM64. */
  function Coff64Case(mv: seq<byte>): (t: Types)
    requires |mv| >= 4
    ensures t == CoffObject <==> mv[1] in {0x86, 0xAA}
    ensures t != CoffObject ==> t == None
  {
    if mv[1] == 0x86 || mv[1] == 0xAA then CoffObject else None
  }

  /**
   * case 'M': a PDB, or an MZ stub whose 32-bit little-endian field at
   * offsetField locates the PE signature. substr(off) throws when off is
   * past the end; `throwing` says whether that is kept or read as no match.
   */
  function MzCase(mv: seq<byte>, offsetField: nat, peMagic: seq<byte>, throwing: bool): (r: Verdict)
    requires |mv| >= 4 && offsetField + 4 <= 0x40
    ensures !throwing ==> r.Classified?
    ensures r.Classified? ==> r.tag in {Pdb, PECoffExecutable, None}
  {
    if StartsWith(mv, PdbLiteral) then Classified(Pdb)
    else if StartsWith(mv, MzLiteral) && |mv| >= 0x3C + 4 then
      var off := LE32(mv, offsetField);
      if off > |mv| then (if throwing then OutOfRange else Classified(None))
      else if StartsWith(mv[off..], peMagic) then Classified(PECoffExecutable)
      else Classified(None)
    else Classified(None)
  }

  // ------------------------------------------------------------ the classifier

  /** identify_binexeobj_magic, as written. */
  function Identify(mv: seq<byte>, signedChar: bool): (r: Verdict)
    ensures |mv| < 4 ==> r == Classified(None)
    ensures r.OutOfRange? ==> mv[0] == 0x4D && |mv| >= 0x40 && LE32(mv, PeOffsetAsRead) > |mv|
  {
    if |mv| < 4 then Classified(None)
    else
      match CharValue(mv[0], signedChar)
      case 0x00 => Classified(ZeroCase(mv, CStr(CoffImportLiteral), CStr(WasmLiteral)))
      case 0xDE => Classified(if StartsWith(mv, BitcodeLiteral) then Bitcode else None)
      case 0x42 => Classified(if StartsWith(mv, BitcodeWrapperLiteral) then Archive else None)
      case 0x21 => Classified(if StartsWith(mv, ArchLiteral) || StartsWith(mv, ThinLiteral) then Archive else None)
      case 0x7F => Classified(ElfCase(mv))
      case 0xCA => Classified(FatCase(mv, signedChar))
      case 0xFE => Classified(MachOCase(mv, signedChar))
      case 0xCE => Classified(MachOCase(mv, signedChar))
      case 0xCF => Classified(MachOCase(mv, signedChar))
      case 0xF0 => Classified(CoffMachineCase(mv))
      case 0x83 => Classified(CoffMachineCase(mv))
      case 0x84 => Classified(CoffMachineCase(mv))
      case 0x66 => Classified(CoffMachineCase(mv))
      case 0x50 => Classified(CoffMachineCase(mv))
      case 0x4C => Classified(CoffMachineCase(mv))
      case 0xC4 => Classified(CoffMachineCase(mv))
      case 0x90 => Classified(CoffMachineFallthrough(mv))
      case 0x68 => Classified(CoffMachineFallthrough(mv))
      case 0x4D => MzCase(mv, PeOffsetAsRead, CStr(PEMagic), true)
      case 0x64 => Classified(Coff64Case(mv))
      case _ => Classified(None)
  }

  /**
   * The classifier with the findings corrected: the leading byte read as
   * unsigned, literals compared over their full length, the PE offset read
   * from e_lfanew at 0x3C, and an offset past the end read as no match.
   */
  function IdentifyIntended(mv: seq<byte>): (t: Types)
    ensures |mv| < 4 ==> t == None
    ensures |mv| >= 4 && mv[0] == 0x4D && !StartsWith(mv, PdbLiteral) && t != None ==>
      t == PECoffExecutable && mv[1] == 0x5A && |mv| >= 0x40
  {
    if |mv| < 4 then None
    else
      match mv[0] as int
      case 0x00 => ZeroCase(mv, CoffImportLiteral, WasmLiteral)
      case 0xDE => if StartsWith(mv, BitcodeLiteral) then Bitcode else None
      case 0x42 => if StartsWith(mv, BitcodeWrapperLiteral) then Archive else None
      case 0x21 => if StartsWith(mv, ArchLiteral) || StartsWith(mv, ThinLiteral) then Archive else None
      case 0x7F => ElfCase(mv)
      case 0xCA => FatCase(mv, false)
      case 0xFE => MachOCase(mv, false)
      case 0xCE => MachOCase(mv, false)
      case 0xCF => MachOCase(mv, false)
      case 0xF0 => CoffMachineCase(mv)
      case 0x83 => CoffMachineCase(mv)
      case 0x84 => CoffMachineCase(mv)
      case 0x66 => CoffMachineCase(mv)
      case 0x50 => CoffMachineCase(mv)
      case 0x4C => CoffMachineCase(mv)
      case 0xC4 => CoffMachineCase(mv)
      case 0x90 => CoffMachineFallthrough(mv)
      case 0x68 => CoffMachineFallthrough(mv)
      case 0x4D => MzCase(mv, PeOffsetField, PEMagic, false).tag
      case 0x64 => Coff64Case(mv)
      case _ => None
  }

  // ------------------------------------------------------------ properties of Identify

  /** strlen leaves "\0\0\xFF\xFF" and "\0asm" empty, ElfMagic four bytes long and PEMagic "PE". */
  lemma LiteralLengths()
    ensures CStr(CoffImportLiteral) == [] && CStr(WasmLiteral) == []
    ensures CStr(ElfMagic) == [0x7F, 0x45, 0x4C, 0x46]
    ensures CStr(PEMagic) == [0x50, 0x45]
  {
    assert CStrLen(ElfMagic[4..]) == 0;
    assert CStrLen(ElfMagic) == 4;
    assert CStrLen(PEMagic[2..]) == 0;
    assert CStrLen(PEMagic) == 2;
  }

  /** A leading byte with no case label gives none. */
  lemma UnlistedLeadIsNone(mv: seq<byte>, signedChar: bool)
    requires |mv| >= 4
    requires CharValue(mv[0], signedChar) !in
      {0x00, 0xDE, 0x42, 0x21, 0x7F, 0xCA, 0xFE, 0xCE, 0xCF, 0xF0, 0x83, 0x84,
       0x66, 0x50, 0x4C, 0xC4, 0x90, 0x68, 0x4D, 0x64}
    ensures Identify(mv, signedChar) == Classified(None)
  {
  }

  /** With a signed plain char no case label of 0x80 or more can match. */
  lemma SignedCharHidesHighLeads(mv: seq<byte>)
    requires |mv| >= 4 && mv[0] >= 0x80
    ensures Identify(mv, true) == Classified(None)
  {
  }

  /**
   * A leading 0x00 is always COFF: the strlen-converted "\0\0\xFF\xFF" is
   * empty and matches every view, so windows_resource, the byte-1 test and
   * wasm_object are never reached.
   */
  lemma ZeroLeadIsCoff(mv: seq<byte>, signedChar: bool)
    requires |mv| >= 4 && mv[0] == 0x00
    ensures Identify(mv, signedChar) == Classified(
      if |mv| < 28 then CoffImportLibrary
      else if mv[12..28] == BigObjMagic then CoffObject
      else if mv[12..28] == ClGlObjMagic then CoffClGlObject
      else CoffImportLibrary)
  {
    LiteralLengths();
    if |mv| >= 28 {
      assert mv[12..][..16] == mv[12..28];
    }
  }

  /** archive comes from "!<arch>\n", "!<thin>\n" and the bitcode wrapper "BC\xC0\xDE", and from nothing else. */
  lemma ArchiveIff(mv: seq<byte>, signedChar: bool)
    ensures Identify(mv, signedChar) == Classified(Archive) <==>
      StartsWith(mv, ArchLiteral) || StartsWith(mv, ThinLiteral) || StartsWith(mv, BitcodeWrapperLiteral)
  {
    if |mv| >= 4 && mv[0] != 0x21 && mv[0] != 0x42 {
      assert !StartsWith(mv, ArchLiteral) && !StartsWith(mv, ThinLiteral) && !StartsWith(mv, BitcodeWrapperLiteral);
      NotArchiveElsewhere(mv, signedChar);
    }
  }

  /** No case but '!' and 'B' produces archive. */
  lemma NotArchiveElsewhere(mv: seq<byte>, signedChar: bool)
    requires |mv| >= 4 && mv[0] != 0x21 && mv[0] != 0x42
    ensures Identify(mv, signedChar) != Classified(Archive)
  {
    var c := CharValue(mv[0], signedChar);
    assert c != 0x21 && c != 0x42;
    if c == 0x4D {
      var r := MzCase(mv, PeOffsetAsRead, CStr(PEMagic), true);
      assert r.Classified? ==> r.tag in {Pdb, PECoffExecutable, None};
    }
  }

  /** bitcode is DE C0 17 0B, when the leading byte is read unsigned. */
  lemma BitcodeIff(mv: seq<byte>)
    ensures Identify(mv, false) == Classified(Bitcode) <==> |mv| >= 4 && StartsWith(mv, BitcodeLiteral)
  {
    if |mv| >= 4 && mv[0] == 0x00 {
      ZeroLeadIsCoff(mv, false);
    }
    if |mv| >= 4 && mv[0] == 0x4D {
      IdentifyAtMz(mv, false);
    }
  }

  /** The ELF tag of e_type from its high and low bytes. */
  function ElfTypeTag(high: byte, low: byte): Types {
    if high != 0 then Elf
    else if low == 1 then ElfRelocatable
    else if low == 2 then ElfExecutable
    else if low == 3 then ElfSharedObject
    else if low == 4 then ElfCore
    else Elf
  }

  /**
   * An ELF view of 18 bytes or more is tagged by e_type, whose high byte is
   * byte 16 when e_ident[EI_DATA] (byte 5) is 2 and byte 17 otherwise; a
   * shorter one is none.
   */
  lemma ElfByType(mv: seq<byte>, signedChar: bool)
    requires |mv| >= 4 && mv[..4] == [0x7F, 0x45, 0x4C, 0x46]
    ensures |mv| < 18 ==> Identify(mv, signedChar) == Classified(None)
    ensures |mv| >= 18 && mv[5] == 2 ==> Identify(mv, signedChar) == Classified(ElfTypeTag(mv[16], mv[17]))
    ensures |mv| >= 18 && mv[5] != 2 ==> Identify(mv, signedChar) == Classified(ElfTypeTag(mv[17], mv[16]))
  {
    LiteralLengths();
  }

  /** universal binary: CA FE BA BE or BF, eight bytes at least, and an architecture count byte below 43. */
  lemma UniversalBinaryIff(mv: seq<byte>)
    requires |mv| >= 4 && mv[0] == 0xCA
    ensures Identify(mv, false) == Classified(MachOUniversalBinary) <==>
      (StartsWith(mv, FatLiteral) || StartsWith(mv, Fat64Literal)) && |mv| >= 8 && mv[7] < 43
    ensures Identify(mv, false) != Classified(MachOUniversalBinary) ==> Identify(mv, false) == Classified(None)
  {
  }

  /** Byte 12 is shifted out of the 16-bit type entirely. */
  lemma MachOTypeIgnoresFirstByte(a: byte, a': byte, b: byte, c: byte, d: byte, signedChar: bool)
    ensures MachOType(a, b, c, d, signedChar) == MachOType(a', b, c, d, signedChar)
  {
  }

  /**
   * The type lands in 1..11 exactly when the low nibble of the second byte
   * and all of the third byte are zero and the last byte is 1..11, whatever
   * the signedness of char.
   */
  lemma MachOTypeInRange(a: byte, b: byte, c: byte, d: byte, signedChar: bool)
    ensures 1 <= MachOType(a, b, c, d, signedChar) <= 11 <==> b & 0x0F == 0 && c == 0 && 1 <= d <= 11
  {
  }

  /**
   * A thin Mach-O view is tagged by its file type when the header of the
   * width its magic names fits, and is none otherwise; reverse-endian magics
   * read the four bytes in the opposite order.
   */
  lemma MachOThin(mv: seq<byte>)
    requires |mv| >= 4 && mv[0] in {0xFE, 0xCE, 0xCF}
    ensures Identify(mv, false) == Classified(
      if StartsWith(mv, MachO32Literal) || StartsWith(mv, MachO64Literal) then
        (if |mv| >= (if mv[3] == 0xCE then 28 else 32) && mv[13] & 0x0F == 0 && mv[14] == 0 && 1 <= mv[15] <= 11
         then MachOTag(mv[15] as bv16) else None)
      else if StartsWith(mv, MachO32ReverseLiteral) || StartsWith(mv, MachO64ReverseLiteral) then
        (if |mv| >= (if mv[0] == 0xCE then 28 else 32) && mv[14] & 0x0F == 0 && mv[13] == 0 && 1 <= mv[12] <= 11
         then MachOTag(mv[12] as bv16) else None)
      else None)
  {
    IdentifyAtMachO(mv);
    if |mv| >= 16 {
      var t := MachOFileType(mv, false);
      MachOTypeInRange(mv[12], mv[13], mv[14], mv[15], false);
      MachOTypeInRange(mv[15], mv[14], mv[13], mv[12], false);
      assert forall a, d: byte :: MachOType(a, 0, 0, d, false) == d as bv16;
      assert forall a, d: byte, b: byte :: b & 0x0F == 0 ==> MachOType(a, b, 0, d, false) == d as bv16;
    }
  }

  /** A Mach-O leading byte, read unsigned, selects MachOCase. */
  lemma IdentifyAtMachO(mv: seq<byte>)
    requires |mv| >= 4 && mv[0] in {0xFE, 0xCE, 0xCF}
    ensures Identify(mv, false) == Classified(MachOCase(mv, false))
  {
    assert CharValue(mv[0], false) == mv[0] as int;
  }

  /**
   * COFF machine bytes: the seven first-case bytes take 1 or (by fallthrough)
   * 2 as byte 1, 0x90 and 0x68 take 2, 0x64 takes 0x86 or 0xAA. The leads
   * below 0x80 are reached whatever the signedness of plain char; the others
   * only when it is unsigned (SignedCharHidesHighLeads).
   */
  lemma CoffMachines(mv: seq<byte>, signedChar: bool)
    requires |mv| >= 4
    ensures mv[0] in {0x66, 0x50, 0x4C} || (!signedChar && mv[0] in {0xF0, 0x83, 0x84, 0xC4}) ==>
      Identify(mv, signedChar) == Classified(if mv[1] in {0x01, 0x02} then CoffObject else None)
    ensures mv[0] == 0x68 || (!signedChar && mv[0] == 0x90) ==>
      Identify(mv, signedChar) == Classified(if mv[1] == 0x02 then CoffObject else None)
    ensures mv[0] == 0x64 ==>
      Identify(mv, signedChar) == Classified(if mv[1] in {0x86, 0xAA} then CoffObject else None)
  {
  }

  /**
   * case 'M': the PDB signature gives pdb; otherwise an MZ view of 64 bytes
   * or more reads a little-endian offset at 0x32, throws when it is past the
   * end and is a PE executable when "PE" stands there.
   */
  lemma MzBranch(mv: seq<byte>, signedChar: bool)
    requires |mv| >= 4 && mv[0] == 0x4D
    ensures StartsWith(mv, PdbLiteral) ==> Identify(mv, signedChar) == Classified(Pdb)
    ensures !StartsWith(mv, PdbLiteral) && !(mv[1] == 0x5A && |mv| >= 0x40) ==>
      Identify(mv, signedChar) == Classified(None)
    ensures !StartsWith(mv, PdbLiteral) && mv[1] == 0x5A && |mv| >= 0x40 ==>
      var off := LE32(mv, 0x32);
      Identify(mv, signedChar) ==
        if off > |mv| then OutOfRange
        else if off + 2 <= |mv| && mv[off] == 0x50 && mv[off + 1] == 0x45 then Classified(PECoffExecutable)
        else Classified(None)
  {
    IdentifyAtMz(mv, signedChar);
    MzCaseAsRead(mv);
  }

  /** A leading 'M' selects MzCase whatever the signedness of char. */
  lemma IdentifyAtMz(mv: seq<byte>, signedChar: bool)
    requires |mv| >= 4 && mv[0] == 0x4D
    ensures Identify(mv, signedChar) == MzCase(mv, PeOffsetAsRead, [0x50, 0x45], true)
  {
    assert CharValue(mv[0], signedChar) == 0x4D;
    LiteralLengths();
  }

  /** MzCase with the offset field at 0x32, the two-byte "PE" and the throw kept. */
  lemma MzCaseAsRead(mv: seq<byte>)
    requires |mv| >= 4 && mv[0] == 0x4D
    ensures StartsWith(mv, PdbLiteral) ==> MzCase(mv, PeOffsetAsRead, [0x50, 0x45], true) == Classified(Pdb)
    ensures !StartsWith(mv, PdbLiteral) && !(mv[1] == 0x5A && |mv| >= 0x40) ==>
      MzCase(mv, PeOffsetAsRead, [0x50, 0x45], true) == Classified(None)
    ensures !StartsWith(mv, PdbLiteral) && mv[1] == 0x5A && |mv| >= 0x40 ==>
      var off := LE32(mv, 0x32);
      MzCase(mv, PeOffsetAsRead, [0x50, 0x45], true) ==
        if off > |mv| then OutOfRange
        else if off + 2 <= |mv| && mv[off] == 0x50 && mv[off + 1] == 0x45 then Classified(PECoffExecutable)
        else Classified(None)
  {
    assert StartsWith(mv, MzLiteral) <==> mv[1] == 0x5A by {
      assert mv[..2][1] == mv[1];
      if mv[1] == 0x5A {
        assert mv[..2] == MzLiteral;
      }
    }
    if |mv| >= 0x40 {
      var off := LE32(mv, 0x32);
      if off + 2 <= |mv| {
        assert mv[off..][..2] == [mv[off], mv[off + 1]];
      }
    }
  }

  // ------------------------------------------------------------ fixtures

  /** An 18-byte little-endian ELF header with e_type 2 is an executable. */
  lemma FixtureElfExecutable(signedChar: bool)
    ensures Identify([0x7F, 0x45, 0x4C, 0x46, 0x01, 0x01, 0x01, 0x00, 0x00, 0x00,
                      0x00, 0x00, 0x00, 0x00, 0x00, 0x00, 0x02, 0x00], signedChar)
            == Classified(ElfExecutable)
  {
    LiteralLengths();
  }

  /** "!<arch>\n" is an archive. */
  lemma FixtureArchive(signedChar: bool)
    ensures Identify(ArchLiteral, signedChar) == Classified(Archive)
  {
  }

  /** A 64-bit big-endian Mach-O header with file type 2. */
  function MachOFixture(): (mv: seq<byte>)
    ensures |mv| == 32 && mv[..4] == MachO64Literal
  {
    [0xFE, 0xED, 0xFA, 0xCF, 0, 0, 0, 0, 0, 0, 0, 0, 0, 0, 0, 0x02] + seq(16, _ => 0)
  }

  /** ... is an executable when char is unsigned. */
  lemma FixtureMachOExecutable()
    ensures Identify(MachOFixture(), false) == Classified(MachOExecutable)
  {
    var mv := MachOFixture();
    assert mv[12] == 0 && mv[13] == 0 && mv[14] == 0 && mv[15] == 2;
    assert MachOType(0, 0, 0, 2, false) == 2;
  }

  // ------------------------------------------------------------ findings

  /** An 8-byte WebAssembly module header. */
  const WasmHeader: seq<byte> := [0x00, 0x61, 0x73, 0x6D, 0x01, 0x00, 0x00, 0x00]

  /** As written, a WebAssembly module is read as a COFF import library. */
  lemma WasmReadAsImportLibrary(signedChar: bool)
    ensures Identify(WasmHeader, signedChar) == Classified(CoffImportLibrary)
  {
    ZeroLeadIsCoff(WasmHeader, signedChar);
  }

  /** Corrected: every view that starts with "\0asm" is a WebAssembly object. */
  lemma IntendedFindsWasm(mv: seq<byte>)
    requires StartsWith(mv, WasmLiteral)
    ensures IdentifyIntended(mv) == WasmObject
  {
    assert mv[1] == 0x61 && mv[2] == 0x73;
  }

  /** Corrected: every view that starts with WinResMagic is a Windows resource. */
  lemma IntendedFindsWinRes(mv: seq<byte>)
    requires StartsWith(mv, WinResMagic)
    ensures IdentifyIntended(mv) == WindowsResource
  {
    assert mv[2] == 0x00;
    assert mv[..16] == WinResMagic;
  }

  /** A 0x84-byte PE image: MZ, e_lfanew 0x80 at 0x3C, "PE\0\0" at 0x80, zero elsewhere. */
  function PeImage(): (mv: seq<byte>)
    ensures |mv| == 0x84
  {
    seq(0x84, i requires 0 <= i < 0x84 =>
      if i == 0 then 0x4D else if i == 1 then 0x5A else if i == 0x3C then 0x80
      else if i == 0x80 then 0x50 else if i == 0x81 then 0x45 else 0x00)
  }

  /** As written, a PE image is not recognised: the offset read at 0x32 is 0, where "MZ" stands. */
  lemma PeImageMissed(signedChar: bool)
    ensures Identify(PeImage(), signedChar) == Classified(None)
  {
    var mv := PeImage();
    assert mv[0] == 0x4D && mv[1] == 0x5A;
    assert !StartsWith(mv, PdbLiteral) by { assert mv[1] != PdbLiteral[1]; }
    assert LE32(mv, 0x32) == 0 by {
      assert mv[0x32] == 0 && mv[0x33] == 0 && mv[0x34] == 0 && mv[0x35] == 0;
    }
    assert mv[1] != 0x45;
    MzBranch(mv, signedChar);
  }

  /** Corrected: an MZ view whose e_lfanew locates "PE\0\0" is a PE executable. */
  lemma IntendedFindsPe(mv: seq<byte>)
    requires |mv| >= 0x40 && mv[0] == 0x4D && mv[1] == 0x5A
    requires LE32(mv, PeOffsetField) + 4 <= |mv|
    requires mv[LE32(mv, PeOffsetField)..LE32(mv, PeOffsetField) + 4] == PEMagic
    ensures IdentifyIntended(mv) == PECoffExecutable
  {
    var off := LE32(mv, PeOffsetField);
    IntendedAtMz(mv);
    assert StartsWith(mv, MzLiteral) by { assert mv[..2] == MzLiteral; }
    assert !StartsWith(mv, PdbLiteral) by { assert mv[1] != PdbLiteral[1]; }
    assert StartsWith(mv[off..], PEMagic) by { assert mv[off..][..4] == PEMagic; }
  }

  /** In the corrected classifier a leading 'M' selects MzCase at 0x3C, with "PE\0\0" and no throw. */
  lemma IntendedAtMz(mv: seq<byte>)
    requires |mv| >= 4 && mv[0] == 0x4D
    ensures IdentifyIntended(mv) == MzCase(mv, PeOffsetField, PEMagic, false).tag
  {
  }

  /** A 64-byte MZ stub whose field at 0x32 is 0xFFFFFFFF. */
  function HugeOffsetStub(): (mv: seq<byte>)
    ensures |mv| == 0x40
  {
    seq(0x40, i requires 0 <= i < 0x40 =>
      if i == 0 then 0x4D else if i == 1 then 0x5A else if 0x32 <= i < 0x36 then 0xFF else 0x00)
  }

  /** As written, an offset past the end makes substr throw out of the classifier. */
  lemma HugeOffsetThrows(signedChar: bool)
    ensures Identify(HugeOffsetStub(), signedChar) == OutOfRange
  {
    var mv := HugeOffsetStub();
    assert mv[0] == 0x4D && mv[1] == 0x5A;
    assert !StartsWith(mv, PdbLiteral) by { assert mv[1] != PdbLiteral[1]; }
    assert LE32(mv, 0x32) == 0xFFFF_FFFF by {
      assert mv[0x32] == 0xFF && mv[0x33] == 0xFF && mv[0x34] == 0xFF && mv[0x35] == 0xFF;
    }
    MzBranch(mv, signedChar);
  }

  /** Corrected: an MZ view whose PE offset lies past the end is no match, not an exception. */
  lemma IntendedOffsetPastEndIsNone(mv: seq<byte>)
    requires |mv| >= 0x40 && mv[0] == 0x4D && mv[1] == 0x5A
    requires LE32(mv, PeOffsetField) > |mv|
    ensures IdentifyIntended(mv) == None
  {
    assert !StartsWith(mv, PdbLiteral) by { assert mv[1] != PdbLiteral[1]; }
  }

  /** As written with a signed plain char (the MSVC default), a 64-bit Mach-O executable is none. */
  lemma MachOMissedWithSignedChar()
    ensures Identify(MachOFixture(), true) == Classified(None)
  {
    SignedCharHidesHighLeads(MachOFixture());
  }

  /**
   * Corrected: apart from the two repaired cases (0x00 and 'M'), the
   * corrected classifier is the source read with an unsigned char; in
   * particular it tags the Mach-O fixture as an executable.
   */
  lemma IntendedIsUnsignedReading(mv: seq<byte>)
    requires |mv| >= 4 ==> mv[0] != 0x00 && mv[0] != 0x4D
    ensures Identify(mv, false) == Classified(IdentifyIntended(mv))
    ensures IdentifyIntended(MachOFixture()) == MachOExecutable
  {
    FixtureMachOExecutable();
  }
}
