# FileViewer format classification, modelled in Dafny

This project models the format-classification core of FileViewer, in Dafny.
It covers five components:

- **Leading-byte dispatcher.** `identify_binexeobj_magic` tells ELF, Mach-O (thin and universal), COFF objects and import libraries, PE images, archives, LLVM bitcode, WebAssembly and PDB files apart by their first bytes.
- **Byte views.** `memview` and `mapview` from include/mapview.hpp are bounds-checked byte views. The git and ZIP detectors read through views from headers outside this model's sources (an unqualified `memview` and `base::MemView`), which the model gives include/mapview.hpp's `memview` meaning (see "## Left out"). The dispatcher reads a `std::string_view`, through its own `startswith` and `substr`.
- **Two compound-format detectors.**
  - The ZIP detector recognises Office Open XML documents (docx, pptx, xlsx) and otherwise reports a plain ZIP.
  - The git object-store detector recognises pack files, pack indexes (versions 2 and 3) and multi-pack-indexes.
- **Wide-character formatter.** `StrFormat` and `StrFormatInternal` cover:
  - the argument tags of `FormatArg`;
  - the bounded `buffer` and its sticky overflow flag;
  - `AlphaNumber`'s digit conversion;
  - the directive loop;
  - the argument-free fast paths.
- **Substring search.** `int_memmatch` from memutil.hpp, with its four wrappers.

## How the model is built

- **Views are values.** A view is the immutable sequence of bytes it covers. Bytes are `bv8`, and wide characters are integers in 0..0xFFFF, as 16-bit `wchar_t` is.
- **Plain `char`.** Its signedness is a parameter, `signedChar`. The dispatcher switches on a `char`, and `%c` narrows through `char`, so both depend on it.
- **Pure code becomes functions.** The dispatcher and the git detector are written as functions. The ZIP probe is a function, `Zip.MsXmlDocs`. It is also written as methods (`Zip.InquisitiveMsXmlDocs` and the `...Scan` methods) that move `startoffset` and `index` the way the source does, and each method is proved equal to the function.
- **Search loops.** `Memmem`, `memsearch` and `int_memmatch` are methods with loops. They are proved against `Search.Find`, the leftmost occurrence of a needle.
- **The formatter is imperative.**
  - `FmtBuffer.Buffer` is a class over a `wchar_t` array.
  - `FmtBuffer.Writer` forwards to a buffer or to a string.
  - `AlphaNumber` writes backwards into a scratch array.
  - `StrFormatInternal` is a `while` loop.
- **Formatter specification.** Each writer call is an `Op` (Out is `Push`, Append is `Put`). `ApplyAll` says what a sequence of calls does to a `Sink`, meaning the text plus the overflow flag. `Fmt.Pass` gives the calls one turn of the loop makes, and `Fmt.Run` and `Fmt.Format` give the whole call. Every method is proved to leave its writer in the state this specification names.
- **Where the source reads outside the view.** The ZIP probe sometimes reads bytes past the view, and the dispatcher's `substr` can throw. Both are explicit results (`ReadPastEnd`, `OutOfRange`) in the as-written model. A corrected model sits beside each one; see "## Findings".

Two consequences of the code are easy to miss:

- A 12-byte `PACK` file is **not** a git pack, under the `memview` meaning the model gives the git detector's view. That `cast` is strict (`off + sizeof(T) < size`, include/mapview.hpp:79-84), so lib/inquisitive/git.cc:43-53 accepts the header only when at least one byte follows it (`Git.PackFixtureRefused`, `Git.PackFixtureAccepted`).
- The ELF and COFF literals are compared after `strlen` cuts them at their first NUL. The ELF magic is therefore four bytes long, and the empty COFF import-library literal matches every view.

## Model

| member | source | states |
|---|---|---|
| Bytes.MemEq | include/mapview.hpp:60 | memcmp(a, b, n) == 0 holds exactly when the first n bytes of a and b are equal |
| Bytes.CStrLen | FileViewer/probe/binexeobj.cc:21 | strlen of a literal: every byte before the result is nonzero, and the byte at the result, if any, is NUL |
| Bytes.CStr | FileViewer/probe/binexeobj.cc:11-14 | a literal converted to string_view keeps exactly its bytes before the first NUL |
| Bytes.LE32 | FileViewer/probe/binexeobj.cc:171 | read32le yields a 32-bit unsigned value |
| Bytes.BE32 | lib/inquisitive/git.cc:49-50 | resolvebe of a 32-bit field yields a 32-bit unsigned value |
| Search.Find | lib/inquisitive/zip.cc:36-62 | a found offset is an occurrence of the needle and no earlier offset is one; None means there is no occurrence at all |
| Search.FindEmpty | lib/inquisitive/zip.cc:46-47 | the empty needle is found at offset 0 |
| Search.FindSomeIff | lib/inquisitive/zip.cc:56-61 | the search succeeds exactly when the needle occurs somewhere |
| Search.FindIsLeftmost | lib/inquisitive/zip.cc:57-59 | an occurrence with none before it is the one reported |
| Search.OccursInSuffix | lib/inquisitive/zip.cc:71-75 | an occurrence in data + offset is an occurrence in data, offset places later |
| MapView.At | include/mapview.hpp:73-78 | memview operator[]: the byte at off inside the view, UCHAR_MAX outside it |
| MapView.StartsWith | include/mapview.hpp:56-61 | memview startswith: true exactly when the prefix fits in the view and its bytes open the view |
| MapView.IndexsWith | include/mapview.hpp:62-67 | memview indexswith: true exactly when sv's bytes stand at offset (within the view) |
| MapView.SubMv | include/mapview.hpp:68-70 | submv(pos, n) covers min(n, size - pos) bytes starting at pos |
| MapView.Cast | include/mapview.hpp:79-84 | cast<T>(off) gives sizeof(T) bytes from off exactly when off + sizeof(T) < size, and nullptr otherwise |
| MapView.MapAt | include/mapview.hpp:138-143 | mapview operator[]: the byte at off inside the map, 255 outside it |
| MapView.MapStartsWith | include/mapview.hpp:144-152 | mapview startswith: true exactly when the prefix is strictly shorter than the map and opens it |
| MapView.MapIndexsWith | include/mapview.hpp:153-158 | mapview indexswith: true exactly when sv's bytes stand at offset |
| MapView.MapCast | include/mapview.hpp:160-165 | mapview cast<T>(off) has the same strict bound as memview's |
| MapView.SubView | include/mapview.hpp:167-172 | subview(off) is empty at or past the end and otherwise covers the rest of the map from off |
| MapView.AtSubView | include/mapview.hpp:167-172 | a byte of a sub-view is the map's byte off places further on |
| MapView.AtSubViewPastEnd | include/mapview.hpp:73-78 | reading past the end of a sub-view gives the sentinel |
| MapView.MapStartsWithStronger | include/mapview.hpp:144-149 | a mapview prefix match implies the memview prefix match on the same bytes |
| MapView.MapStartsWithRejectsWholeView | include/mapview.hpp:145-147 | mapview startswith never accepts the whole mapping as its own prefix |
| MapView.CastRejectsExactFit | include/mapview.hpp:80-82 | a header that would end exactly at the end of the view is refused |
| MapView.CastSmaller | include/mapview.hpp:79-84 | when a header fits at off, every smaller header fits there too |
| MapView.SubMvStartsWith | include/mapview.hpp:62-70 | startswith on submv(pos) agrees with indexswith(pos) |
| MapView.SubMvWhole | include/mapview.hpp:68-70 | submv(0) is the view itself |
| MapView.SubMvRest | include/mapview.hpp:68-70 | submv(pos) with the default length is the rest of the view |
| Binexeobj.CharValue | FileViewer/probe/binexeobj.cc:19 | the value a char switch compares: the byte, or that byte minus 256 when char is signed and the byte is 0x80 or more |
| Binexeobj.StartsWith | FileViewer/probe/binexeobj.cc:11-14 | startswith holds exactly when sv2 fits in sv and opens it |
| Binexeobj.ZeroCase | FileViewer/probe/binexeobj.cc:20-49 | the 0x00 case yields one of the COFF, resource or wasm tags, or none |
| Binexeobj.ElfCase | FileViewer/probe/binexeobj.cc:65-86 | the ELF case yields one of the five ELF tags or none |
| Binexeobj.FatCase | FileViewer/probe/binexeobj.cc:87-94 | the 0xCA case yields universal binary or none |
| Binexeobj.MachOTag | FileViewer/probe/binexeobj.cc:120-145 | the file type maps to a Mach-O tag exactly when it lies in 1..11 |
| Binexeobj.MachOFileType | FileViewer/probe/binexeobj.cc:98-118 | the type is nonzero only for a view that starts with one of the four thin Mach-O magics and holds at least a 32-bit header; read with an unsigned char, a native-order view gives bytes 15, 14 and the low nibble of 13, a reverse-order view bytes 12, 13 and the low nibble of 14 |
| Binexeobj.MachOCase | FileViewer/probe/binexeobj.cc:95-147 | the case gives only a thin Mach-O tag or None, and a tag only for a view with a Mach-O magic and at least a 32-bit header |
| Binexeobj.MachOType | FileViewer/probe/binexeobj.cc:108 | read with an unsigned char, the 16-bit type is the last byte, with the third byte above it and the low nibble of the second byte at the top |
| Binexeobj.CoffMachineCase | FileViewer/probe/binexeobj.cc:148-160 | the first COFF case gives coff_object exactly when byte 1 is 1 or (by fallthrough) 2, and none otherwise |
| Binexeobj.CoffMachineFallthrough | FileViewer/probe/binexeobj.cc:161-164 | case 0x90 and 0x68 give coff_object exactly when byte 1 is 2, and none otherwise |
| Binexeobj.Coff64Case | FileViewer/probe/binexeobj.cc:178-182 | case 0x64 gives coff_object exactly when byte 1 is 0x86 or 0xAA, and none otherwise |
| Binexeobj.MzCase | FileViewer/probe/binexeobj.cc:165-177 | the 'M' case classifies unless substr is asked to throw |
| Binexeobj.Identify | FileViewer/probe/binexeobj.cc:15-187 | a view shorter than 4 bytes is none |
| Binexeobj.IdentifyIntended | FileViewer/probe/binexeobj.cc:15-187 | the corrected classifier: a view shorter than 4 bytes is none, and an 'M' view without the PDB signature is pecoff_executable or none, the former only for an MZ header of at least 0x40 bytes |
| Binexeobj.LiteralLengths | FileViewer/probe/binexeobj.cc:10 | strlen leaves "\0\0\xFF\xFF" and "\0asm" empty, ElfMagic four bytes long and PEMagic "PE" |
| Binexeobj.UnlistedLeadIsNone | FileViewer/probe/binexeobj.cc:183-186 | a leading byte with no case label gives none |
| Binexeobj.SignedCharHidesHighLeads | FileViewer/probe/binexeobj.cc:19 | with a signed plain char, a leading byte of 0x80 or more always gives none |
| Binexeobj.ZeroLeadIsCoff | FileViewer/probe/binexeobj.cc:20-37 | a leading 0x00 always takes the COFF branch: a BigObj or ClGl UUID at offset 12 picks coff_object or coff_cl_gl_object, otherwise coff_import_library |
| Binexeobj.ArchiveIff | FileViewer/probe/binexeobj.cc:55-64 | archive exactly for views starting "!<arch>\n", "!<thin>\n" or "BC\xC0\xDE", whatever the signedness of char |
| Binexeobj.NotArchiveElsewhere | FileViewer/probe/binexeobj.cc:15-187 | no leading byte other than '!' and 'B' yields archive |
| Binexeobj.BitcodeIff | FileViewer/probe/binexeobj.cc:50-54 | with an unsigned char, bitcode exactly for views starting DE C0 17 0B |
| Binexeobj.ElfByType | FileViewer/probe/binexeobj.cc:65-86 | an ELF view under 18 bytes is none; otherwise e_type, read in the byte order given by byte 5, picks the tag |
| Binexeobj.UniversalBinaryIff | FileViewer/probe/binexeobj.cc:87-94 | universal binary exactly for CA FE BA BE/BF with at least 8 bytes and byte 7 below 43; anything else with 0xCA is none |
| Binexeobj.MachOTypeIgnoresFirstByte | FileViewer/probe/binexeobj.cc:108 | byte 12 (15 reversed) is shifted entirely out of the 16-bit type |
| Binexeobj.MachOTypeInRange | FileViewer/probe/binexeobj.cc:108 | the 16-bit type lies in 1..11 exactly when the second byte's low nibble and the third byte are zero and the last byte is 1..11 |
| Binexeobj.MachOThin | FileViewer/probe/binexeobj.cc:95-147 | a thin Mach-O view is tagged by its file type when the header of the width its magic names fits, and is none otherwise |
| Binexeobj.IdentifyAtMachO | FileViewer/probe/binexeobj.cc:95-97 | the leading bytes FE, CE and CF select the Mach-O case |
| Binexeobj.CoffMachines | FileViewer/probe/binexeobj.cc:148-164 | whatever the signedness of char, leads 0x66, 0x50 and 0x4C take 1 or, by fallthrough, 2 as byte 1, 0x68 takes 2 and 0x64 takes 0x86 or 0xAA; with an unsigned char, leads 0xF0, 0x83, 0x84 and 0xC4 also take 1 or 2 and 0x90 takes 2 |
| Binexeobj.MzBranch | FileViewer/probe/binexeobj.cc:165-177 | the PDB signature gives pdb; an MZ view of at least 0x40 bytes reads the offset at 0x32 and throws past the end or finds "PE" there |
| Binexeobj.IdentifyAtMz | FileViewer/probe/binexeobj.cc:165 | a leading 'M' selects the MZ case whatever the signedness of char |
| Binexeobj.MzCaseAsRead | FileViewer/probe/binexeobj.cc:165-177 | the MZ case as written: pdb, then offset 0x32, then substr (which may throw), then "PE" |
| Binexeobj.FixtureElfExecutable | FileViewer/probe/binexeobj.cc:65-86 | the 18-byte little-endian ELF header with e_type 2 is elf_executable |
| Binexeobj.FixtureArchive | FileViewer/probe/binexeobj.cc:60-64 | "!<arch>\n" is archive |
| Binexeobj.FixtureMachOExecutable | FileViewer/probe/binexeobj.cc:95-147 | a 32-byte FE ED FA CF header with file type 2 is macho_executable when char is unsigned |
| Binexeobj.WasmReadAsImportLibrary | FileViewer/probe/binexeobj.cc:21-25 | as written, an 8-byte WebAssembly header is coff_import_library |
| Binexeobj.IntendedFindsWasm | FileViewer/probe/binexeobj.cc:46-48 | corrected: every view starting "\0asm" is wasm_object |
| Binexeobj.IntendedFindsWinRes | FileViewer/probe/binexeobj.cc:38-42 | corrected: every view starting with the resource magic is windows_resource |
| Binexeobj.PeImageMissed | FileViewer/probe/binexeobj.cc:169-175 | as written, a PE image whose e_lfanew (0x3C) points at "PE\0\0" is none, because offset 0x32 is read |
| Binexeobj.IntendedFindsPe | FileViewer/probe/binexeobj.cc:169-175 | corrected: an MZ view whose e_lfanew locates "PE\0\0" is pecoff_executable |
| Binexeobj.IntendedAtMz | FileViewer/probe/binexeobj.cc:165-177 | in the corrected classifier 'M' reads e_lfanew at 0x3C, compares "PE\0\0" and never throws |
| Binexeobj.HugeOffsetThrows | FileViewer/probe/binexeobj.cc:171-172 | as written, an MZ stub whose field at 0x32 is 0xFFFFFFFF makes substr throw |
| Binexeobj.IntendedOffsetPastEndIsNone | FileViewer/probe/binexeobj.cc:172 | corrected: a PE offset past the end is none, not an exception |
| Binexeobj.MachOMissedWithSignedChar | FileViewer/probe/binexeobj.cc:19 | as written with a signed plain char, a 64-bit Mach-O executable is none |
| Binexeobj.IntendedIsUnsignedReading | FileViewer/probe/binexeobj.cc:15-187 | apart from the 0x00 and 'M' cases, the corrected classifier is the source read with an unsigned char |
| Zip.IsZip | lib/inquisitive/zip.cc:14-18 | true exactly for a buffer longer than 3 bytes opening "PK", then 3, 5 or 7, then 4, 6 or 8 |
| Zip.MsDocsSubview | lib/inquisitive/zip.cc:20-34 | docx, pptx and xlsx exactly when the view starts "word/", "ppt/" and "xl/" respectively, each with its label; None otherwise |
| Zip.Memmem | lib/inquisitive/zip.cc:36-62 | returns the leftmost occurrence of the needle, offset 0 for the empty needle, nullptr when there is none |
| Zip.NextSignature | lib/inquisitive/zip.cc:71-75 | -1, or an index at or after i; NextSignatureIsFirst shows it is the first occurrence of "PK\3\4" from i |
| Zip.MagicIndex | lib/inquisitive/zip.cc:66-76 | -1, or an index at or after offset |
| Zip.MagicIndexIsFirstSignature | lib/inquisitive/zip.cc:66-76 | MagicIndex is the first "PK\3\4" at or after offset, and -1 exactly when none stands at or after offset |
| Zip.MagicIndexIsMemmem | lib/inquisitive/zip.cc:71-75 | MagicIndex is the Memmem search of the rest of the view, placed back at offset |
| Zip.MagicIndexScan | lib/inquisitive/zip.cc:66-76 | the method computes MagicIndex |
| Zip.SubDocs | lib/inquisitive/zip.cc:105 | msdocssubview(mv.submv(pos)) reads outside the view exactly when pos is past the end and unguarded; inside, it is msdocssubview of the rest |
| Zip.IndexsAt | lib/inquisitive/zip.cc:87 | IndexsWith hits exactly when sv stands at off inside the view, and reads outside it exactly when off is in range but off + size is not |
| Zip.MsXmlDocs | lib/inquisitive/zip.cc:78-119 | no "PK\3\4" at the start means None; a match is docx, pptx or xlsx; the guarded probe never reads outside the view |
| Zip.InquisitiveMsXmlDocs | lib/inquisitive/zip.cc:78-119 | the step-by-step method computes MsXmlDocs |
| Zip.Hops | lib/inquisitive/zip.cc:94-118 | the walk after a manifest first entry finds only docx, pptx or xlsx, and the guarded reading never leaves the view |
| Zip.FirstHop | lib/inquisitive/zip.cc:95-99 | the same for the walk from the first search |
| Zip.SecondHop | lib/inquisitive/zip.cc:100-104 | the same for the walk from the second search |
| Zip.SecondEntry | lib/inquisitive/zip.cc:105-108 | the same for the second name check and what follows it |
| Zip.LastHop | lib/inquisitive/zip.cc:109-116 | the same for the third search and its name check |
| Zip.HopsScan | lib/inquisitive/zip.cc:94-118 | the walk after a manifest first entry computes Hops |
| Zip.FirstHopScan | lib/inquisitive/zip.cc:95-99 | the first search and the hops after it compute FirstHop |
| Zip.SecondHopScan | lib/inquisitive/zip.cc:100-104 | the second search computes SecondHop |
| Zip.SecondEntryScan | lib/inquisitive/zip.cc:104-108 | the name check of the second entry computes SecondEntry |
| Zip.LastHopScan | lib/inquisitive/zip.cc:109-116 | the third search and its name check compute LastHop |
| Zip.FirstSearchStart | lib/inquisitive/zip.cc:94 | readle<uint32_t>(data + 18) + 49, wrapping at 2^32 |
| Zip.OfficeNeedsKnownFirstName | lib/inquisitive/zip.cc:80-89 | an Office verdict needs "PK\3\4" at the start and, at offset 0x1E, an Office part or one of the two manifests |
| Zip.OfficeFirstEntry | lib/inquisitive/zip.cc:83-85 | an Office part named by the first entry decides the verdict at once |
| Zip.ManifestImpliesHeaderFits | lib/inquisitive/zip.cc:87-93 | once a manifest name matched at 0x1E, the 30-byte header cast cannot fail, so that test is dead |
| Zip.GuardAgreesWhereDefined | lib/inquisitive/zip.cc:78-119 | wherever the source stays inside the view, the guarded probe gives the source's answer |
| Zip.HopsGuardAgrees | lib/inquisitive/zip.cc:94-118 | the same agreement for the hops |
| Zip.FirstHopGuardAgrees | lib/inquisitive/zip.cc:95-99 | the same agreement for the first search |
| Zip.SecondHopGuardAgrees | lib/inquisitive/zip.cc:100-104 | the same agreement for the second search |
| Zip.SecondEntryGuardAgrees | lib/inquisitive/zip.cc:105-108 | the same agreement for the second name check |
| Zip.LastHopGuardAgrees | lib/inquisitive/zip.cc:109-116 | the same agreement for the third search |
| Zip.TinyZipReadsPastEnd | lib/inquisitive/zip.cc:83 | as written, a bare "PK\3\4" makes msdocssubview read past the view; the guarded probe says None and the family says plain ZIP |
| Zip.ZipFamily | lib/inquisitive/zip.cc:121-130 | the family verdict over the corrected, bounds-checked probe MsXmlDocs(mv, true): None exactly when IsZip fails, otherwise an Office tag or plain ZIP with its label; it equals the source's verdict wherever the source stays inside the view (GuardAgreesWhereDefined) |
| Zip.MimetypeIsPlainZip | lib/inquisitive/zip.cc:121-130 | a ZIP whose first entry is "mimetype" is a plain ZIP archive |
| Zip.EntryAfterFirstSearchIsNotChecked | lib/inquisitive/zip.cc:95-104 | a manifest followed directly by a "word/" entry is a plain ZIP: the entry the first search finds is passed over without a name check |
| Zip.SkippedWordSearches | lib/inquisitive/zip.cc:94-109 | in that archive the first search starts at 49 and lands on 49, and the second finds nothing |
| Git.GitBinary | lib/inquisitive/git.cc:39-95 | never reads outside the view; a match needs one of the three signatures |
| Git.IndexName | lib/inquisitive/git.cc:59-76 | the pack-index label carries the big-endian version |
| Git.PackHeader | lib/inquisitive/git.cc:43-53 | a PACK view of 12 bytes or fewer is None; a longer one is gitpack with the big-endian version and object count |
| Git.IndexHeader | lib/inquisitive/git.cc:54-80 | an index view of 1032 bytes or fewer is None; a longer one is gitpkindex counting objects from fanout[255] (v2), packobjects (v3), or not at all |
| Git.Index3OverlayFits | lib/inquisitive/git.cc:67-71 | the version 3 overlay always fits once the common index header has, so hd3 is never null |
| Git.MidxHeader | lib/inquisitive/git.cc:81-92 | a MIDX view of 12 bytes or fewer is None; a longer one is gitpack with version, oid version, chunks and big-endian pack count |
| Git.NoSignatureNoMatch | lib/inquisitive/git.cc:94 | without one of the three signatures the result is None |
| Git.PackFixtureRefused | lib/inquisitive/git.cc:44-47 | the bare 12-byte header "PACK", 2, 5 is refused by the strict cast |
| Git.PackFixtureAccepted | lib/inquisitive/git.cc:43-53 | one byte more and it is a version 2 pack of 5 objects |
| FmtArgs.FromInteger | lib/strings/fmt_fwd.hpp:28-68 | signed types and plain char are tagged INTEGER, unsigned ones UINTEGER; width is sizeof the type; the stored int64 is the value modulo 2^64 |
| FmtArgs.FromFloat | lib/strings/fmt_fwd.hpp:69-80 | tag FLOAT with width 4 for float and 8 for double and long double; the int64 that ToInteger yields for it is kept as given |
| FmtArgs.Tag | lib/strings/fmt_fwd.hpp:115 | the tag names the live union member: INTEGER or UINTEGER exactly for an integer (UINTEGER exactly when unsigned), FLOAT, STRING and PTR exactly for their forms |
| FmtArgs.WcsLen | lib/strings/fmt_fwd.hpp:84 | wcslen counts the characters before the first NUL |
| FmtArgs.FromWideCStr | lib/strings/fmt_fwd.hpp:82-85 | a null wide string becomes "(NULL)" of length 6; otherwise the characters before the terminator |
| FmtArgs.FromWStringView | lib/strings/fmt_fwd.hpp:93-96 | a wstring_view keeps all its characters and its length |
| FmtArgs.IntegerTags | lib/strings/fmt_fwd.hpp:28-68 | INTEGER exactly for char, short, int, long and long long; widths are 1, 2, 4 or 8 |
| FmtArgs.StoredValue | lib/strings/fmt_fwd.hpp:65-68 | the stored value is the argument itself, except that unsigned long long values from 2^63 wrap to negative |
| FmtArgs.WideCStrStopsAtNul | lib/strings/fmt_fwd.hpp:82-85 | a wide C string keeps exactly the characters before its terminator |
| FmtBuffer.Buffer.constructor | lib/strings/fmt.cc:21 | an empty buffer over data with capacity cap and no overflow; it keeps the array's contents so that later writes can be compared with them |
| FmtBuffer.BufferPush | lib/strings/fmt.cc:28-34 | push_back appends ch exactly when the buffer is not full; overflow is set exactly when it was already or the buffer is full |
| FmtBuffer.BufferAppend | lib/strings/fmt.cc:44-52 | append copies the string exactly when a slot stays free after it; overflow is set exactly when it was already or the string does not fit |
| FmtBuffer.ApplyOp | lib/strings/fmt.cc:119-120 | a writer call never clears overflow, a string writer never sets it, and the old text stays a prefix of the new |
| FmtBuffer.ApplyAll | lib/strings/fmt.cc:119-120 | a sequence of calls never shortens the text, and leaves a string writer's flag as it was |
| FmtBuffer.Buffer.PushBack | lib/strings/fmt.cc:28-34 | appends ch while len < cap, else sets overflow; no slot from the new length on changes |
| FmtBuffer.Buffer.Append | lib/strings/fmt.cc:44-52 | copies s only when len + size < cap, else sets overflow and writes nothing; no slot from the new length on changes |
| FmtBuffer.Buffer.IsOverflow | lib/strings/fmt.cc:53 | whether a write has been refused: the overflow flag of the buffer's state |
| FmtBuffer.Buffer.Length | lib/strings/fmt.cc:54 | the number of characters the buffer holds, never more than its capacity |
| FmtBuffer.Buffer.Close | lib/strings/fmt.cc:23-27 | writes a NUL at data[len] when len < cap and changes no other slot |
| FmtBuffer.PadText | lib/strings/fmt.cc:113-118 | Pad appends min(pad, 32) characters |
| FmtBuffer.Writer.OverBuffer | lib/strings/fmt.cc:108-131 | a writer over a buffer starts in the buffer's state |
| FmtBuffer.Writer.OverString | lib/strings/fmt.cc:108-130 | a writer over an empty std::wstring starts empty and not overflowed |
| FmtBuffer.Writer.Out | lib/strings/fmt.cc:120 | Out is push_back on the target |
| FmtBuffer.Writer.Append | lib/strings/fmt.cc:119 | Append is append on the target |
| FmtBuffer.Writer.Pad | lib/strings/fmt.cc:113-118 | Pad appends the padding text |
| FmtBuffer.Writer.Overflow | lib/strings/fmt.cc:127-128 | the buffer's flag for a buffer writer; always false for a string writer |
| FmtBuffer.OverflowIsSticky | lib/strings/fmt.cc:28-52 | no writer call ever clears overflow |
| FmtBuffer.TextOnlyGrows | lib/strings/fmt.cc:28-52 | calls only extend the text, by no more than the characters they carry |
| FmtBuffer.LenWithinCap | lib/strings/fmt.cc:28-52 | a buffer never holds more than its capacity |
| FmtBuffer.AppendKeepsSpareSlot | lib/strings/fmt.cc:44-52 | after a successful non-empty append a slot is still free |
| FmtBuffer.PushBackFillsLastSlot | lib/strings/fmt.cc:28-34 | push_back may use the last slot, leaving no room for the terminator |
| FmtBuffer.UnboundedWritesAll | lib/strings/fmt.cc:119-120 | the std::wstring writer writes every character of every call |
| FmtBuffer.RoomyBufferWritesAll | lib/strings/fmt.cc:28-52 | a buffer with room for everything behaves as the std::wstring writer |
| FmtBuffer.FlattenAppend | lib/strings/fmt.cc:119-120 | the characters of two call sequences are those of each, in order |
| FmtBuffer.ApplyAllAppend | lib/strings/fmt.cc:119-120 | two call sequences act one after the other |
| FmtDigits.DigitChar | lib/strings/fmt.cc:68-69 | digits below 10 are '0'..'9'; the others are 'A'..'F' from uhex or 'a'..'f' from hex |
| FmtDigits.Radix | lib/strings/fmt.cc:71-97 | the base used is 8 or 16 when asked, decimal otherwise |
| FmtDigits.DigitString | lib/strings/fmt.cc:71-97 | the do-while loops write at least one digit |
| FmtDigits.AlphaText | lib/strings/fmt.cc:98-105 | AlphaNumber's text has at least one character and at least min(width, 32) |
| FmtDigits.EmitDigit | lib/strings/fmt.cc:73-95 | one pass of the do-while writes the last digit of v just before the digits already written, divides v by the radix and keeps the digits still to write plus those written equal to the whole digit string |
| FmtDigits.WriteDigits | lib/strings/fmt.cc:71-97 | the do-while loops leave the digits of value, most significant first, just before digits + 32, using at most 22 slots |
| FmtDigits.AlphaNumber | lib/strings/fmt.cc:64-106 | returns beg with AlphaText (fill then digits) in digits[beg..32] |
| FmtDigits.FillBefore | lib/strings/fmt.cc:101 | fill_n writes the fill characters before the digits and keeps the digits |
| FmtDigits.DigitStringStep | lib/strings/fmt.cc:92-95 | one loop step: the last digit is value % radix and the rest are the digits of value / radix |
| FmtDigits.DigitCount | lib/strings/fmt.cc:71-97 | a value below 8^n has at most n digits in any of the three bases |
| FmtDigits.DigitCountOf64BitValue | lib/strings/fmt.cc:63-67 | a 64-bit value has at most 22 digits, so the 32-slot scratch area is never overrun |
| FmtDigits.DigitStringRoundTrip | lib/strings/fmt.cc:71-97 | reading the digits back in the radix gives the value |
| FmtDigits.DigitCharValue | lib/strings/fmt.cc:68-69 | hex[d] and uhex[d] read back as d |
| FmtDigits.DigitStringAlphabet | lib/strings/fmt.cc:68-69 | every digit is a digit of the radix, in the case asked for |
| FmtDigits.AlphaTextShape | lib/strings/fmt.cc:98-105 | at most 32 characters: max(digit count, min(width, 32)) of them, fill then digits that read back as the value |
| Fmt.Text | lib/strings/fmt.cc:142 | the format runs up to its first NUL and contains none |
| Fmt.Digits | lib/strings/fmt.cc:160-167 | the digit loop consumes exactly the maximal run of digits, stops at the first non-digit and keeps the accumulator in uint32 |
| Fmt.DigitsValue | lib/strings/fmt.cc:160-167 | the loop's value is acc * 10^n plus the decimal value of the n-digit run, modulo 2^32 |
| Fmt.ParseSpec | lib/strings/fmt.cc:157-168 | zero is set exactly when '0' follows the '%'; the width is the decimal value, modulo 2^32, of the digit run after the '%'; when a '.' follows it, the fraction width is the value of the digit run after the '.' and the letter is the first character past that run, otherwise the fraction width is 0 and the letter follows the width digits |
| Fmt.SignedReading | lib/strings/fmt.cc:215-217 | %d's reading of every argument but a string: an INTEGER's magnitude and sign recover it, a UINTEGER is read modulo 2^64 and never negative, a FLOAT or PTR gives the magnitude and sign of the int64 ToInteger yields; a string gives nothing |
| Fmt.UnsignedReading | lib/strings/fmt.cc:226-258 | %o, %x and %X read every argument but a string as a uint64 congruent to its stored (or ToInteger) int64; a string gives nothing |
| Fmt.CharToWide | lib/strings/fmt.cc:195 | %c keeps the low byte, sign-extended into the 16-bit unit exactly when plain char is signed |
| Fmt.ArgOps | lib/strings/fmt.cc:173-314 | an argument of the wrong kind writes nothing: %b and %c print only integers, %s only strings, and %d, %o, %x and %X anything but a string |
| Fmt.DirectiveOps | lib/strings/fmt.cc:169-315 | a letter that takes an argument fails exactly when the arguments are used up, and consumes one otherwise |
| Fmt.WrongKindConsumedSilently | lib/strings/fmt.cc:173-258 | an argument of the wrong kind is still consumed: the directive writes nothing and moves on to the next argument |
| Fmt.NumberDirectiveWrites | lib/strings/fmt.cc:211-258 | %d, %o, %x and %X over any argument but a string write at least one digit, and at least min(width, 32) characters |
| Fmt.Pass | lib/strings/fmt.cc:147-317 | a turn of the loop that continues moves forward |
| Fmt.Run | lib/strings/fmt.cc:147-318 | the loop does nothing and fails once the writer has overflowed; it succeeds only with the writer not overflowed; the text only grows |
| Fmt.Format | lib/strings/fmt.cc:133-319 | without arguments the call fails with nothing written; success means no overflow; the text only grows |
| Fmt.FormatString | lib/strings/fmt.cc:321-329 | without arguments the std::wstring overload returns the empty string |
| Fmt.MemSearch | lib/strings/fmt.cc:10-17 | memsearch returns the offset of the first ch, or npos when there is none |
| Fmt.ParseSpecAt | lib/strings/fmt.cc:157-168 | the parse loops compute ParseSpec |
| Fmt.ScanDigits | lib/strings/fmt.cc:160-162 | one digit loop computes Digits |
| Fmt.Directive | lib/strings/fmt.cc:169-315 | the switch makes the writer calls DirectiveOps gives, or reports the missing argument |
| Fmt.ArgDirective | lib/strings/fmt.cc:173-314 | the argument-consuming cases make the calls ArgOps gives |
| Fmt.BoolDirective | lib/strings/fmt.cc:173-186 | %b writes "false" for 0 and "true" otherwise |
| Fmt.CharDirective | lib/strings/fmt.cc:187-198 | %c pads to the width, then writes the character |
| Fmt.StringDirective | lib/strings/fmt.cc:199-210 | %s pads to the width, then writes the string |
| Fmt.SignedDirective | lib/strings/fmt.cc:211-225 | %d over any argument but a string writes the sign, then the padded digits of the magnitude; over a string it writes nothing |
| Fmt.UnsignedDirective | lib/strings/fmt.cc:226-258 | %o, %x and %X over any argument but a string write the padded digits of the uint64 reading; over a string they write nothing |
| Fmt.Turn | lib/strings/fmt.cc:148-317 | one turn makes the writer calls of one Pass and reports how the loop goes on |
| Fmt.TurnAt | lib/strings/fmt.cc:154-168 | from a '%': the preceding text, then the directive |
| Fmt.PassNoPercent | lib/strings/fmt.cc:149-153 | with no '%' left, a pass writes the rest and ends |
| Fmt.PassMissingArg | lib/strings/fmt.cc:174-176 | a pass whose directive lacks its argument writes the text before the '%' and fails |
| Fmt.PassEmit | lib/strings/fmt.cc:154-168 | a served directive writes the text before the '%' and then its output |
| Fmt.StrFormatInternal | lib/strings/fmt.cc:133-319 | the loop leaves the writer in the state Format specifies and returns its verdict |
| Fmt.FormatToString | lib/strings/fmt.cc:321-329 | the formatted text, or the empty string on failure |
| Fmt.FormatToBuffer | lib/strings/fmt.cc:331-339 | the length written, or -1 on failure; the buffer holds the text, NUL-terminated when a slot is left, and no slot after that changes |
| Fmt.NoArgumentsFail | lib/strings/fmt.cc:136-138 | without arguments StrFormatInternal fails before writing anything |
| Fmt.UnboundedRunExtends | lib/strings/fmt.cc:147-318 | the string writer's run only extends its text and never overflows |
| Fmt.RoomyRun | lib/strings/fmt.cc:147-318 | a buffer with a slot to spare beyond the string result runs exactly as the string writer |
| Fmt.AcceptedWritesAll | lib/strings/fmt.cc:28-52 | calls a buffer accepted leave it as the string writer would |
| Fmt.BufferSuccessIsString | lib/strings/fmt.cc:147-318 | a buffer run that succeeds wrote what the string writer writes |
| Fmt.BufferAgreesWithString | lib/strings/fmt.cc:321-339 | a buffer result other than -1 is the string result; a string result shorter than the buffer is also the buffer result |
| Fmt.Collapse | lib/strings/fmt.cc:355-365 | the fast path never lengthens the text |
| Fmt.CollapseStep | lib/strings/fmt.cc:358-363 | one character is emitted per step; "%%" consumes two characters |
| Fmt.PlainToString | lib/strings/fmt.cc:355-365 | StrFormat(fmt) is the text with each "%%" written as one '%' |
| Fmt.Pushed | lib/strings/fmt.cc:342-353 | push_back of each character overflows exactly when the text exceeds the capacity, and keeps the prefix that fits |
| Fmt.PushedStep | lib/strings/fmt.cc:28-34 | one push_back extends Pushed by one character |
| Fmt.PushCollapsed | lib/strings/fmt.cc:346-351 | the fast-path loop leaves the buffer holding Pushed of the collapsed text |
| Fmt.PushAt | lib/strings/fmt.cc:347-350 | one turn: push_back, stepping over the second '%' of "%%" |
| Fmt.PlainToBuffer | lib/strings/fmt.cc:342-353 | StrFormat(buf, N, fmt) returns the collapsed length or -1, holds the prefix that fits, is NUL-terminated only when a slot is left, and changes no slot after that |
| Fmt.StrFormat | lib/strings/fmt_fwd.hpp:137-145 | with arguments the formatted text, without them the fast path |
| Fmt.StrFormatText | lib/strings/fmt_fwd.hpp:137-145 | without arguments the result is never longer than the format |
| Fmt.StrFormatToBuffer | lib/strings/fmt_fwd.hpp:123-135 | the buffer overloads dispatch the same way: the length or -1, the text, its NUL when a slot is left, and no other slot changed |
| Fmt.CollapseEscape | lib/strings/fmt.cc:355-365 | the fast path prints escaped text as the text itself |
| Fmt.FormatEscaped | lib/strings/fmt.cc:147-172 | on the argument path, escaped text also formats to itself and succeeds |
| Fmt.PackedEscapedIsLiteral | lib/strings/fmt_fwd.hpp:137-145 | whatever the arguments, the escape of a NUL-free text prints that text |
| Fmt.EscapeKeepsNul | lib/strings/fmt.cc:142 | escaping a NUL-free text leaves it NUL-free |
| Fmt.PassWithoutPercent | lib/strings/fmt.cc:149-153 | a pass over text without '%' writes the rest and ends |
| Fmt.PassAtDoublePercent | lib/strings/fmt.cc:154-172 | a pass that meets "%%" after plain text writes that text and one '%' |
| Fmt.BareSpec | lib/strings/fmt.cc:157-168 | a letter right after '%' parses with no flag, no width and no fraction width |
| Fmt.RunEscaped | lib/strings/fmt.cc:147-318 | from where an escape begins, the loop appends the unescaped text and succeeds |
| Fmt.RunNext | lib/strings/fmt.cc:147-317 | the run after a continuing pass is the run from its next index |
| Fmt.RunLast | lib/strings/fmt.cc:150-153 | the run after a pass that ends the text applies it and returns the verdict |
| Fmt.EscapeAppend | lib/strings/fmt.cc:355-365 | escaping distributes over concatenation |
| Fmt.EscapeNoPercent | lib/strings/fmt.cc:355-365 | text without '%' is its own escape |
| FmtExamples.PadWithNul | lib/strings/fmt.cc:113-118 | "%3s" of "a" writes ' ', a NUL, then "a": the pad arrays are zero past their first slot |
| FmtExamples.SignBeforePadding | lib/strings/fmt.cc:211-225 | "%05d" of -42 is "-00042" |
| FmtExamples.NegativePass | lib/strings/fmt.cc:211-225 | the single pass over "%05d" writes '-' and then "00042" |
| FmtExamples.ZeroFiveSpec | lib/strings/fmt.cc:157-168 | "%05d" parses with the zero flag and width 5 |
| FmtExamples.FortyTwoPadded | lib/strings/fmt.cc:98-105 | 42 in width 5 with '0' fill is "00042" |
| FmtExamples.SecondArgumentMissing | lib/strings/fmt.cc:211-214 | "%d%d" with one argument writes the first and fails the call |
| FmtExamples.FirstOfTwoPass | lib/strings/fmt.cc:211-225 | the first pass of "%d%d" consumes the argument |
| FmtExamples.SecondOfTwoPass | lib/strings/fmt.cc:212-214 | the second pass fails on the missing argument |
| FmtExamples.CharSignExtends | lib/strings/fmt.cc:195 | "%c" of 0xE9 is U+FFE9 with a signed char and U+00E9 with an unsigned one |
| MemUtil.Folded | lib/strings/memutil.hpp:38-44 | each character compared is the character itself, or towlower of its low byte when case-insensitive |
| MemUtil.ToLower | lib/strings/memutil.hpp:40 | the result is never 'A'..'Z'; it is the character itself, or an upper-case letter moved to lower case |
| MemUtil.Fold | lib/strings/memutil.hpp:38-44 | case-sensitively the character itself; otherwise a byte that is not 'A'..'Z' and agrees with the character modulo 32 |
| MemUtil.MemMatch | lib/strings/memutil.hpp:25-56 | a match lies inside the haystack, and the empty needle is found at 0 |
| MemUtil.IntMemMatch | lib/strings/memutil.hpp:25-56 | int_memmatch returns the first place the folded needle stands in the folded haystack, or nullptr |
| MemUtil.MatchStep | lib/strings/memutil.hpp:45-48 | a match either completes the needle, found where it starts, or lengthens the partial match |
| MemUtil.MismatchStep | lib/strings/memutil.hpp:49-53 | after a mismatch the scan backs up and resumes one past the start of the partial match, losing no occurrence |
| MemUtil.NoRoomLeft | lib/strings/memutil.hpp:37-55 | with no room left for the needle there is no occurrence |
| MemUtil.MemStr | lib/strings/memutil.hpp:59-62 | memstr: a case-sensitive search for the needle up to its terminator |
| MemUtil.MemCaseStr | lib/strings/memutil.hpp:64-67 | memcasestr: a case-insensitive search for the needle up to its terminator |
| MemUtil.MemMem | lib/strings/memutil.hpp:69-72 | memmem: a case-sensitive search for needlelen characters |
| MemUtil.MemCaseMem | lib/strings/memutil.hpp:74-77 | memcasemem: a case-insensitive search for needlelen characters |
| MemUtil.OccursIsMatch | lib/strings/memutil.hpp:38-48 | an occurrence after folding is exactly a character-by-character match |
| MemUtil.MemMatchIsLeftmost | lib/strings/memutil.hpp:25-56 | the result is a match and no earlier offset matches; None means no offset matches |
| MemUtil.EmptyNeedleAtStart | lib/strings/memutil.hpp:30-32 | the empty needle is found at the start, even in an empty haystack |
| MemUtil.CaseInsensitiveNoLater | lib/strings/memutil.hpp:38-44 | a case-sensitive match implies a case-insensitive one at the same place or earlier |
| MemUtil.BackUpFindsOverlap | lib/strings/memutil.hpp:50-52 | "aab" is found in "aaab" at 1, thanks to the back-up |
| MemUtil.LowByteFoldMatches | lib/strings/memutil.hpp:40 | case-insensitively, U+0141 matches 'a', since only its low byte is folded |
| MemUtil.WholeCharNoMatch | lib/strings/memutil.hpp:39 | case-sensitively, U+0141 does not match 'a' |
| MemUtil.UpperNeedleFound | lib/strings/memutil.hpp:42-44 | case-insensitively, "AB" is found in "xab" at 1 |
| MemUtil.TerminatorEndsNeedle | lib/strings/memutil.hpp:61 | memstr's needle ends at its first NUL |

## Left out

- Mapping a file (`mapview::mapfile`), the destructor that unmaps it and closes its handles, and all other Win32 I/O. A mapview is modelled as the bytes it has mapped.
- `lib/strings/stdwriter.hpp` and `FileViewer/probe/probe_fwd.hpp` are not part of this model. The inquisitive result record is modelled as a tag plus a structured label (`Inquisitive.Status`).
- Labels built with `StrCat` are kept as their numeric fields, not as formatted text.
- `readle` and `resolvebe` are modelled as little- and big-endian decoders of four bytes (`Bytes.LE32`, `Bytes.BE32`), whatever the host byte order.
- LLVM's COFF and Mach-O constants are taken as given, not derived from LLVM's headers:
  - the BigObj, ClGl and resource magics;
  - the UUID offset 12;
  - the header sizes 28 and 32.
- The size of `zip_file_header_t` is likewise taken as 30.
- `%f` and `%a` write nothing in the model. They need floating-point arithmetic and a `long double` to `int64_t` conversion, which are not modelled; a float argument keeps its width and the int64 that `ToInteger` yields for it.
- `%p` writes nothing in the model. The pointer constructor of `FormatArg` (fmt_fwd.hpp:99) initialises members that do not exist, so no pointer argument can be built. The `Pointer` form is kept so that `%d`, `%o`, `%x` and `%X` over a PTR tag are stated.
- The `std::basic_string` constructor of `FormatArg` (fmt_fwd.hpp:87-92) leaves the tag unset. No argument is built from it; a wide string enters through `FromWideCStr` or `FromWStringView`.
- `ArgType::BOOLEAN` in `%b` is not a member of `ArgType` (fmt_fwd.hpp:21-27). Only integer arguments print true or false.
- `FormatArg::ToInteger` is used by `%d`, `%o`, `%x` and `%X` on every argument but a string, and is defined nowhere in the sources. For an integer the model takes it to give the stored value. For a FLOAT or PTR argument the value is left open: `asInteger` is any int64, and its digits are printed as the source prints them.
- Fmt.SignedReading: for a FLOAT or PTR argument, a `ToInteger` result whose magnitude is 2^63 or more without a sign is not covered, because the open value is an int64.
- `base::MemView`, through which lib/inquisitive/zip.cc reads (`StartsWith`, `IndexsWith`, `submv`, `cast`), is not part of this model's sources. The model assumes it has the meaning of include/mapview.hpp's `memview` (`MapView.MemView`).
- The `memview` that lib/inquisitive/git.cc:39 takes is declared in a header outside this model's sources: its `startswith` accepts a byte array (git.cc:43), which `planck::memview::startswith` (include/mapview.hpp:56) does not. The model likewise assumes it has include/mapview.hpp's `memview` meaning, including the strict `cast`; the 12-byte `PACK` result (`Git.PackFixtureRefused`) rests on that assumption.
- Null `args` in `StrFormatInternal` is the same as zero arguments (`Fmt.NoArgumentsFail`).
- `towlower` is the "C" locale's: only 'A'..'Z' change.
- The memutil functions that are only declared and have no body are not part of this model: `memcasecmp`, `memdup`, `memrchr`, `memspn`, `memcspn`, `mempbrk` and `memmatch`.
- `memcat` and `memcopy` are thin wrappers around `memcpy` that the core does not call.
- `Writer<T>` is modelled as one class whose target is either a `Buffer` or a string, in place of the two template instances.
- Plain `char` signedness is a parameter, not fixed to one compiler.
- MapView.SubMv: requires pos <= size. Past the end, `size_ - pos` wraps and the view covers memory that does not belong to it; the ZIP probe's use of that case is modelled as `ReadPastEnd` in `Zip.SubDocs`.
- MapView.IndexsWith: requires that the compared bytes lie inside the view, since the source reads beyond it otherwise. The ZIP probe's use of that case is modelled as `OutOfView` in `Zip.IndexsAt`.

## Findings

| source | as written | input that shows it | evidently intended | confidence | as-written member | corrected member |
|---|---|---|---|---|---|---|
| FileViewer/probe/binexeobj.cc:21, 46 | `"\0\0\xFF\xFF"` and `"\0asm"` become `string_view`s through `strlen` and are empty, so every view starting 0x00 takes the COFF branch | the 8-byte WebAssembly header `00 61 73 6D 01 00 00 00` gives coff_import_library | the four-byte literals, so that resource files and WebAssembly modules are recognised | not executed | Binexeobj.WasmReadAsImportLibrary | Binexeobj.IntendedFindsWasm |
| FileViewer/probe/binexeobj.cc:171 | the PE header offset is read at 0x32 | a 0x84-byte image with e_lfanew 0x80 at 0x3C and "PE\0\0" at 0x80 gives none | read e_lfanew at 0x3C and compare the four-byte "PE\0\0" | not executed | Binexeobj.PeImageMissed | Binexeobj.IntendedFindsPe |
| FileViewer/probe/binexeobj.cc:172 | `mv.substr(off)` throws `std::out_of_range` when off exceeds the size | a 64-byte MZ stub whose bytes 0x32..0x35 are FF FF FF FF | an offset past the end is simply no match | not executed | Binexeobj.HugeOffsetThrows | Binexeobj.IntendedOffsetPastEndIsNone |
| FileViewer/probe/binexeobj.cc:19 | the switch is on a plain `char`, so with a signed char the case labels 0x80 and above never match | the 64-bit Mach-O header FE ED FA CF with file type 2 gives none | compare the byte as unsigned | not executed | Binexeobj.MachOMissedWithSignedChar | Binexeobj.IntendedIsUnsignedReading |
| lib/inquisitive/zip.cc:83, 87, 105, 114 | `submv(0x1E)` and `IndexsWith` read bytes beyond a short view | the 4-byte view "PK\3\4" | a name outside the view is no match, and the archive is a plain ZIP | not executed | Zip.TinyZipReadsPastEnd | Zip.GuardAgreesWhereDefined |
