/**
 * The ZIP-family detector of lib/inquisitive/zip.cc: the ZIP signature
 * test, the Office Open XML probe that looks for "word/", "ppt/" or "xl/"
 * entry names, and the byte search it walks the archive with.
 *
 * The probe reads through the view without always checking that the bytes
 * lie inside it. MsXmlDocs takes a `guarded` flag: with false it is the code
 * as written, and a read outside the view yields ReadPastEnd; with true such a
 * read counts as a miss, which is what the detector evidently intends and
 * what ZipFamily uses.
 */
module Zip {
  import opened Bytes
  import opened Wrappers
  import opened Search
  import opened MapView
  import opened Inquisitive

  /** "PK\3\4", the local file header signature. */
  const DocsMagic: seq<byte> := [0x50, 0x4B, 0x03, 0x04]
  const WordPrefix: seq<byte> := [0x77, 0x6F, 0x72, 0x64, 0x2F]   // "word/"
  const PptPrefix: seq<byte> := [0x70, 0x70, 0x74, 0x2F]          // "ppt/"
  const XlPrefix: seq<byte> := [0x78, 0x6C, 0x2F]                 // "xl/"
  /** "[Content_Types].xml" */
  const ContentTypes: seq<byte> :=
    [0x5B, 0x43, 0x6F, 0x6E, 0x74, 0x65, 0x6E, 0x74, 0x5F, 0x54, 0x79, 0x70, 0x65, 0x73, 0x5D, 0x2E, 0x78, 0x6D, 0x6C]
  /** "_rels/.rels" */
  const Rels: seq<byte> := [0x5F, 0x72, 0x65, 0x6C, 0x73, 0x2F, 0x2E, 0x72, 0x65, 0x6C, 0x73]

  /** Offset of the first entry's file name: the end of the 30-byte local file header. */
  const FirstNameOffset: nat := 0x1E
  /** sizeof(zip_file_header_t), the fixed part of a local file header. */
  const ZipFileHeaderSize: nat := 30
  /** Offset of the compressed-size field in a local file header. */
  const CompressedSizeOffset: nat := 18

  const ZipLabel: Label := Description("Zip archive data")

  /** The nine signatures IsZip accepts: "PK", then 3, 5 or 7, then 4, 6 or 8. */
  function ZipSignatures(): set<seq<byte>>
  {
    set b2: byte, b3: byte | b2 in {3, 5, 7} && b3 in {4, 6, 8} :: [0x50, 0x4B, b2, b3]
  }

  /** IsZip: the buffer is longer than 3 bytes and opens with one of the ZIP signatures. */
  function IsZip(buf: seq<byte>): (r: bool)
    ensures r <==> |buf| > 3 && buf[..4] in ZipSignatures()
  {
    var r := |buf| > 3 && buf[0] == 0x50 && buf[1] == 0x4B &&
      (buf[2] == 0x3 || buf[2] == 0x5 || buf[2] == 0x7) &&
      (buf[3] == 0x4 || buf[3] == 0x6 || buf[3] == 0x8);
    if |buf| > 3 then
      assert buf[..4] == [buf[0], buf[1], buf[2], buf[3]];
      r
    else r
  }

  /** The label msdocssubview records with each Office tag. */
  function OfficeLabel(t: Types): Label
  {
    match t
    case Docx => Description("Microsoft Word (.docx)")
    case Pptx => Description("Microsoft PowerPoint (.pptx)")
    case Xlsx => Description("Microsoft Excel (.xlsx)")
    case _ => Description("")
  }

  /**
   * msdocssubview: the Office document kind named by the entry name at the
   * start of the view. The three prefixes differ in their first byte, so at
   * most one can match and the order they are tried in does not matter.
   */
  function MsDocsSubview(v: MemView): (r: Status)
    ensures r.Found? && r.tag == Docx <==> StartsWith(v, WordPrefix)
    ensures r.Found? && r.tag == Pptx <==> StartsWith(v, PptPrefix)
    ensures r.Found? && r.tag == Xlsx <==> StartsWith(v, XlPrefix)
    ensures r.Found? ==> r.tag in {Docx, Pptx, Xlsx} && r.name == OfficeLabel(r.tag)
    ensures !r.Found? ==> r == NoMatch
  {
    if StartsWith(v, WordPrefix) then Found(Docx, OfficeLabel(Docx))
    else if StartsWith(v, PptPrefix) then Found(Pptx, OfficeLabel(Pptx))
    else if StartsWith(v, XlPrefix) then Found(Xlsx, OfficeLabel(Xlsx))
    else NoMatch
  }

  /**
   * Memmem: the offset of the first occurrence of needle in haystack, or
   * None for nullptr. The empty needle is found at offset 0.
   */
  method Memmem(haystack: seq<byte>, needle: seq<byte>) returns (r: Option<nat>)
    ensures r == Find(haystack, needle)
  {
    if |needle| == 0 {
      assert OccursAt(haystack, needle, 0);
      return Some(0);
    }
    if |haystack| < |needle| {
      return None;
    }
    var point := needle[0];
    var tail := needle[1..];
    var lastPossible := |haystack| - |needle|;
    var begin := 0;
    while begin <= lastPossible
      invariant begin <= lastPossible + 1
      invariant forall j: nat :: j < begin ==> !OccursAt(haystack, needle, j)
    {
      if haystack[begin] == point && MemEq(haystack[begin + 1..], tail, |needle| - 1) {
        assert haystack[begin..begin + |needle|] == [haystack[begin]] + haystack[begin + 1..][..|needle| - 1];
        FindIsLeftmost(haystack, needle, begin);
        return Some(begin);
      }
      assert haystack[begin..begin + |needle|][0] == haystack[begin];
      assert haystack[begin..begin + |needle|][1..] == haystack[begin + 1..][..|needle| - 1];
      begin := begin + 1;
    }
    return None;
  }

  /** The first index from i on where the signature occurs in data, or -1. */
  function NextSignature(data: seq<byte>, i: nat): (r: int)
    ensures r == -1 || i <= r
    decreases |data| - i
  {
    if i + |DocsMagic| > |data| then -1
    else if OccursAt(data, DocsMagic, i) then i
    else NextSignature(data, i + 1)
  }

  /**
   * MagicIndex: the offset in the view of the first local file header
   * signature at or after offset, or -1 (MagicIndexIsFirstSignature).
   */
  function MagicIndex(mv: MemView, offset: nat): (r: int)
    ensures r == -1 || offset <= r
  {
    if offset > |mv.data| then -1 else NextSignature(mv.data, offset)
  }

  lemma {:induction false} NextSignatureIsFirst(data: seq<byte>, i: nat)
    ensures var r := NextSignature(data, i);
      (r == -1 <==> forall j: nat :: i <= j ==> !OccursAt(data, DocsMagic, j)) &&
      (r != -1 ==> OccursAt(data, DocsMagic, r) && forall j: nat :: i <= j < r ==> !OccursAt(data, DocsMagic, j))
    decreases |data| - i
  {
    if i + |DocsMagic| > |data| {
    } else if OccursAt(data, DocsMagic, i) {
    } else {
      NextSignatureIsFirst(data, i + 1);
    }
  }

  /**
   * MagicIndex finds the first signature at or after offset, and reports -1
   * exactly when there is none there; an offset past the end finds nothing.
   */
  lemma MagicIndexIsFirstSignature(mv: MemView, offset: nat)
    ensures var r := MagicIndex(mv, offset);
      (r == -1 <==> forall j: nat :: offset <= j ==> !OccursAt(mv.data, DocsMagic, j)) &&
      (r != -1 ==> offset <= r && OccursAt(mv.data, DocsMagic, r) &&
                   forall j: nat :: offset <= j < r ==> !OccursAt(mv.data, DocsMagic, j))
  {
    NextSignatureIsFirst(mv.data, offset);
  }

  /** MagicIndex is the Memmem search of the rest of the view, placed back at offset. */
  lemma MagicIndexIsMemmem(mv: MemView, offset: nat)
    requires offset <= |mv.data|
    ensures MagicIndex(mv, offset) == match Find(mv.data[offset..], DocsMagic)
                                      case None => -1
                                      case Some(k) => offset + k
  {
    var hay := mv.data[offset..];
    MagicIndexIsFirstSignature(mv, offset);
    forall k: nat ensures OccursAt(hay, DocsMagic, k) <==> OccursAt(mv.data, DocsMagic, offset + k) {
      OccursInSuffix(mv.data, DocsMagic, offset, k);
    }
    var r := MagicIndex(mv, offset);
    if r != -1 {
      assert OccursAt(hay, DocsMagic, r - offset);
      forall j: nat | j < r - offset ensures !OccursAt(hay, DocsMagic, j) {
        assert !OccursAt(mv.data, DocsMagic, offset + j);
      }
      FindIsLeftmost(hay, DocsMagic, r - offset);
    }
  }

  /** The outcome of one of the source's unguarded comparisons. */
  datatype Probe = Hit | Miss | OutOfView

  /**
   * msdocssubview(mv.submv(pos)). With the default length the sub-view is
   * the rest of the view (SubMvRest); when pos is past the end, size - pos
   * wraps and the sub-view reaches beyond the view.
   */
  function SubDocs(mv: MemView, pos: nat, guarded: bool): (r: Status)
    ensures r == ReadPastEnd <==> !guarded && pos > |mv.data|
    ensures pos <= |mv.data| ==> r == MsDocsSubview(MemView(mv.data[pos..]))
    ensures r.Found? ==> pos < |mv.data|
  {
    if pos > |mv.data| then (if guarded then NoMatch else ReadPastEnd)
    else MsDocsSubview(MemView(mv.data[pos..]))
  }

  /**
   * mv.IndexsWith(off, sv): an offset past the end is a miss, but for a
   * smaller one the comparison reads |sv| bytes whether or not they are there.
   */
  function IndexsAt(mv: MemView, off: nat, sv: seq<byte>, guarded: bool): (p: Probe)
    ensures p == OutOfView <==> !guarded && off <= |mv.data| < off + |sv|
    ensures p == Hit <==> off + |sv| <= |mv.data| && mv.data[off..off + |sv|] == sv
  {
    if off > |mv.data| then Miss
    else if off + |sv| > |mv.data| then (if guarded then Miss else OutOfView)
    else if IndexsWith(mv, off, sv) then Hit else Miss
  }

  /**
   * inquisitive_msxmldocs. An Office Open XML package is a ZIP whose first
   * entry is a "word/", "ppt/" or "xl/" part, or whose first entry is the
   * package manifest; in that case the detector skips the first entry's
   * data, searches for the next local header signature, searches again past
   * it, and name-checks the entry there and then the one after the next
   * signature found beyond it.
   */
  function MsXmlDocs(mv: MemView, guarded: bool): (r: Status)
    ensures !StartsWith(mv, DocsMagic) ==> r == NoMatch
    ensures r.Found? ==> r.tag in {Docx, Pptx, Xlsx}
    ensures guarded ==> r != ReadPastEnd
  {
    if !StartsWith(mv, DocsMagic) then NoMatch
    else
      var first := SubDocs(mv, FirstNameOffset, guarded);
      if first != NoMatch then first
      else
        var ct := IndexsAt(mv, FirstNameOffset, ContentTypes, guarded);
        // `&&` does not evaluate the second comparison once the first matched
        var rels := if ct == Miss then IndexsAt(mv, FirstNameOffset, Rels, guarded) else Miss;
        if ct == OutOfView || rels == OutOfView then ReadPastEnd
        else if ct == Miss && rels == Miss then NoMatch
        else if Cast(mv, 0, ZipFileHeaderSize).None? then NoMatch
        else Hops(mv, guarded)
  }

  /**
   * The walk after a manifest first entry. The first search starts past the
   * first entry's data, taken as the 30-byte header, a 19-byte name and the
   * compressed size; the entry it finds is passed over and the next two are
   * name-checked.
   */
  function Hops(mv: MemView, guarded: bool): (r: Status)
    requires ZipFileHeaderSize < |mv.data|
    ensures r.Found? ==> r.tag in {Docx, Pptx, Xlsx}
    ensures guarded ==> r != ReadPastEnd
  {
    FirstHop(mv, FirstSearchStart(mv), guarded)
  }

  /** The first search, from offset; the entry it finds is passed over. */
  function FirstHop(mv: MemView, offset: nat, guarded: bool): (r: Status)
    ensures r.Found? ==> r.tag in {Docx, Pptx, Xlsx}
    ensures guarded ==> r != ReadPastEnd
  {
    var index1 := MagicIndex(mv, offset);
    if index1 == -1 then NoMatch else SecondHop(mv, index1 + 4 + 26, guarded)
  }

  /** The second search, from offset, and the name check of the entry it finds. */
  function SecondHop(mv: MemView, offset: nat, guarded: bool): (r: Status)
    ensures r.Found? ==> r.tag in {Docx, Pptx, Xlsx}
    ensures guarded ==> r != ReadPastEnd
  {
    var index2 := MagicIndex(mv, offset);
    if index2 == -1 then NoMatch else SecondEntry(mv, index2 + 4 + 26, guarded)
  }

  /** The name check at pos of the entry the second search found, then the third search 26 bytes on. */
  function SecondEntry(mv: MemView, pos: nat, guarded: bool): (r: Status)
    ensures r.Found? ==> r.tag in {Docx, Pptx, Xlsx}
    ensures guarded ==> r != ReadPastEnd
  {
    var second := SubDocs(mv, pos, guarded);
    if second != NoMatch then second else LastHop(mv, pos + 26, guarded)
  }

  /**
   * Where the first search starts: the first entry's compressed size plus 49,
   * computed in 32-bit unsigned arithmetic as readle<uint32_t>(...) + 49 is.
   */
  function FirstSearchStart(mv: MemView): (start: nat)
    requires CompressedSizeOffset + 4 <= |mv.data|
    ensures start < 0x1_0000_0000
  {
    var sum := LE32(mv.data, CompressedSizeOffset) + 49;
    if sum < 0x1_0000_0000 then sum else sum - 0x1_0000_0000
  }

  /** The third search, from offset, and the name check of the entry it finds. */
  function LastHop(mv: MemView, offset: nat, guarded: bool): (r: Status)
    ensures r.Found? ==> r.tag in {Docx, Pptx, Xlsx}
    ensures guarded ==> r != ReadPastEnd
  {
    var index3 := MagicIndex(mv, offset);
    if index3 == -1 then NoMatch
    else SubDocs(mv, index3 + 4 + 26, guarded)
  }

  /** inquisitive_zip_family: not a ZIP, an Office document, or a plain ZIP archive. */
  function ZipFamily(mv: MemView): (r: Status)
    ensures r == NoMatch <==> !IsZip(mv.data)
    ensures r != ReadPastEnd
    ensures r.Found? ==> r.tag in {Zip, Docx, Pptx, Xlsx}
    ensures r.Found? && r.tag == Zip ==> r.name == ZipLabel
  {
    if !IsZip(mv.data) then NoMatch
    else
      var docs := MsXmlDocs(mv, true);
      if docs.Found? then docs else Found(Zip, ZipLabel)
  }

  // ------------------------------------------------------------ as the source runs it

  /** MagicIndex as the source computes it: a Memmem over the rest of the view. */
  method MagicIndexScan(mv: MemView, offset: nat) returns (r: int)
    ensures r == MagicIndex(mv, offset)
  {
    if offset > |mv.data| {
      return -1;
    }
    var p := Memmem(mv.data[offset..], DocsMagic);
    MagicIndexIsMemmem(mv, offset);
    if p.None? {
      return -1;
    }
    return offset + p.value;
  }

  /** inquisitive_msxmldocs step by step, reassigning startoffset and index as the source does. */
  method InquisitiveMsXmlDocs(mv: MemView, guarded: bool) returns (r: Status)
    ensures r == MsXmlDocs(mv, guarded)
  {
    if !StartsWith(mv, DocsMagic) {
      return NoMatch;
    }
    r := SubDocs(mv, FirstNameOffset, guarded);
    if r != NoMatch {
      return;
    }
    var ct := IndexsAt(mv, FirstNameOffset, ContentTypes, guarded);
    var rels := Miss;
    if ct == Miss {
      rels := IndexsAt(mv, FirstNameOffset, Rels, guarded);
    }
    if ct == OutOfView || rels == OutOfView {
      return ReadPastEnd;
    }
    if ct == Miss && rels == Miss {
      return NoMatch;
    }
    if Cast(mv, 0, ZipFileHeaderSize).None? {
      return NoMatch;
    }
    r := HopsScan(mv, guarded);
  }

  /** The hops of inquisitive_msxmldocs, moving startoffset and index from signature to signature. */
  method HopsScan(mv: MemView, guarded: bool) returns (r: Status)
    requires ZipFileHeaderSize < |mv.data|
    ensures r == Hops(mv, guarded)
  {
    var startoffset: nat := FirstSearchStart(mv);
    r := FirstHopScan(mv, startoffset, guarded);
  }

  /** The first search and the hops after it. */
  method FirstHopScan(mv: MemView, startoffset: nat, guarded: bool) returns (r: Status)
    ensures r == FirstHop(mv, startoffset, guarded)
  {
    var index := MagicIndexScan(mv, startoffset);
    if index == -1 {
      FirstHopMissed(mv, startoffset, guarded);
      return NoMatch;
    }
    FirstHopFound(mv, startoffset, index, guarded);
    r := SecondHopScan(mv, index + 4 + 26, guarded);
  }

  /** The second search and, when its entry names no Office part, the third. */
  method SecondHopScan(mv: MemView, startoffset: nat, guarded: bool) returns (r: Status)
    ensures r == SecondHop(mv, startoffset, guarded)
  {
    var index := MagicIndexScan(mv, startoffset);
    if index == -1 {
      SecondHopMissed(mv, startoffset, guarded);
      return NoMatch;
    }
    SecondHopFound(mv, startoffset, index, guarded);
    r := SecondEntryScan(mv, index + 4 + 26, guarded);
  }

  /** FirstHop when the first search finds nothing. */
  lemma FirstHopMissed(mv: MemView, offset: nat, guarded: bool)
    requires MagicIndex(mv, offset) == -1
    ensures FirstHop(mv, offset, guarded) == NoMatch
  {
  }

  /** FirstHop when the first search finds a signature. */
  lemma FirstHopFound(mv: MemView, offset: nat, index: nat, guarded: bool)
    requires MagicIndex(mv, offset) == index
    ensures FirstHop(mv, offset, guarded) == SecondHop(mv, index + 4 + 26, guarded)
  {
  }

  /** SecondHop when the second search finds nothing. */
  lemma SecondHopMissed(mv: MemView, offset: nat, guarded: bool)
    requires MagicIndex(mv, offset) == -1
    ensures SecondHop(mv, offset, guarded) == NoMatch
  {
  }

  /** SecondHop when the second search finds a signature. */
  lemma SecondHopFound(mv: MemView, offset: nat, index: nat, guarded: bool)
    requires MagicIndex(mv, offset) == index
    ensures SecondHop(mv, offset, guarded) == SecondEntry(mv, index + 4 + 26, guarded)
  {
  }

  /** The name check of the second entry and, when it names no Office part, the third search. */
  method SecondEntryScan(mv: MemView, startoffset: nat, guarded: bool) returns (r: Status)
    ensures r == SecondEntry(mv, startoffset, guarded)
  {
    r := SubDocs(mv, startoffset, guarded);
    if r != NoMatch {
      return;
    }
    r := LastHopScan(mv, startoffset + 26, guarded);
  }

  /** LastHop when the third search finds nothing. */
  lemma LastHopMissed(mv: MemView, offset: nat, guarded: bool)
    requires MagicIndex(mv, offset) == -1
    ensures LastHop(mv, offset, guarded) == NoMatch
  {
  }

  /** LastHop when the third search finds a signature. */
  lemma LastHopFound(mv: MemView, offset: nat, index: nat, guarded: bool)
    requires MagicIndex(mv, offset) == index
    ensures LastHop(mv, offset, guarded) == SubDocs(mv, index + 4 + 26, guarded)
  {
  }

  /** The third search and the name check of the entry it finds. */
  method LastHopScan(mv: MemView, startoffset: nat, guarded: bool) returns (r: Status)
    ensures r == LastHop(mv, startoffset, guarded)
  {
    var index := MagicIndexScan(mv, startoffset);
    if index == -1 {
      LastHopMissed(mv, startoffset, guarded);
      return NoMatch;
    }
    LastHopFound(mv, startoffset, index, guarded);
    r := SubDocs(mv, index + 4 + 26, guarded);
  }

  // ------------------------------------------------------------ properties

  /**
   * An Office verdict needs a local file header at the start and, at its
   * name, an Office part or one of the two package manifests.
   */
  lemma OfficeNeedsKnownFirstName(mv: MemView, guarded: bool)
    requires MsXmlDocs(mv, guarded).Found?
    ensures mv.data[..4] == DocsMagic && FirstNameOffset < |mv.data|
    ensures MsDocsSubview(MemView(mv.data[FirstNameOffset..])).Found?
         || OccursAt(mv.data, ContentTypes, FirstNameOffset)
         || OccursAt(mv.data, Rels, FirstNameOffset)
  {
  }

  /** An Office part named by the first entry decides the verdict at once. */
  lemma OfficeFirstEntry(mv: MemView, guarded: bool)
    requires FirstNameOffset <= |mv.data| && mv.data[..4] == DocsMagic
    requires MsDocsSubview(MemView(mv.data[FirstNameOffset..])).Found?
    ensures MsXmlDocs(mv, guarded) == MsDocsSubview(MemView(mv.data[FirstNameOffset..]))
  {
  }

  /** Once a manifest name matched, the 30-byte header overlay cannot fail: that test is dead. */
  lemma ManifestImpliesHeaderFits(mv: MemView)
    requires OccursAt(mv.data, ContentTypes, FirstNameOffset) || OccursAt(mv.data, Rels, FirstNameOffset)
    ensures Cast(mv, 0, ZipFileHeaderSize).Some?
  {
  }

  /** The guarded probe gives the source's answer wherever the source stays inside the view. */
  lemma GuardAgreesWhereDefined(mv: MemView)
    requires MsXmlDocs(mv, false) != ReadPastEnd
    ensures MsXmlDocs(mv, true) == MsXmlDocs(mv, false)
  {
    if StartsWith(mv, DocsMagic) && SubDocs(mv, FirstNameOffset, false) == NoMatch {
      var ct := IndexsAt(mv, FirstNameOffset, ContentTypes, false);
      var rels := if ct == Miss then IndexsAt(mv, FirstNameOffset, Rels, false) else Miss;
      if ct != OutOfView && rels != OutOfView && !(ct == Miss && rels == Miss)
         && Cast(mv, 0, ZipFileHeaderSize).Some? {
        HopsGuardAgrees(mv);
      }
    }
  }

  lemma HopsGuardAgrees(mv: MemView)
    requires ZipFileHeaderSize < |mv.data| && Hops(mv, false) != ReadPastEnd
    ensures Hops(mv, true) == Hops(mv, false)
  {
    FirstHopGuardAgrees(mv, FirstSearchStart(mv));
  }

  lemma FirstHopGuardAgrees(mv: MemView, offset: nat)
    requires FirstHop(mv, offset, false) != ReadPastEnd
    ensures FirstHop(mv, offset, true) == FirstHop(mv, offset, false)
  {
    var index1 := MagicIndex(mv, offset);
    if index1 != -1 {
      SecondHopGuardAgrees(mv, index1 + 4 + 26);
    }
  }

  lemma SecondHopGuardAgrees(mv: MemView, offset: nat)
    requires SecondHop(mv, offset, false) != ReadPastEnd
    ensures SecondHop(mv, offset, true) == SecondHop(mv, offset, false)
  {
    if MagicIndex(mv, offset) == -1 {
      SecondHopMissed(mv, offset, false);
      SecondHopMissed(mv, offset, true);
    } else {
      var index2 := MagicIndex(mv, offset);
      SecondHopFound(mv, offset, index2, false);
      SecondHopFound(mv, offset, index2, true);
      SecondEntryGuardAgrees(mv, index2 + 4 + 26);
    }
  }

  lemma SecondEntryGuardAgrees(mv: MemView, pos: nat)
    requires SecondEntry(mv, pos, false) != ReadPastEnd
    ensures SecondEntry(mv, pos, true) == SecondEntry(mv, pos, false)
  {
    if SubDocs(mv, pos, false) == NoMatch {
      LastHopGuardAgrees(mv, pos + 26);
    }
  }

  lemma LastHopGuardAgrees(mv: MemView, offset: nat)
    requires LastHop(mv, offset, false) != ReadPastEnd
    ensures LastHop(mv, offset, true) == LastHop(mv, offset, false)
  {
  }

  /** A bare "PK\3\4": the source reads the first entry name past the end; the guarded probe says plain ZIP. */
  lemma TinyZipReadsPastEnd()
    ensures MsXmlDocs(MemView(DocsMagic), false) == ReadPastEnd
    ensures MsXmlDocs(MemView(DocsMagic), true) == NoMatch
    ensures ZipFamily(MemView(DocsMagic)) == Found(Zip, ZipLabel)
  {
    assert StartsWith(MemView(DocsMagic), DocsMagic);
    assert DocsMagic[..4] in ZipSignatures();
  }

  /** "mimetype" */
  const Mimetype: seq<byte> := [0x6D, 0x69, 0x6D, 0x65, 0x74, 0x79, 0x70, 0x65]

  /** A ZIP whose first entry is "mimetype" is a plain ZIP archive. */
  lemma MimetypeIsPlainZip(mv: MemView)
    requires FirstNameOffset + |Mimetype| <= |mv.data|
    requires mv.data[..4] == DocsMagic && mv.data[FirstNameOffset..FirstNameOffset + |Mimetype|] == Mimetype
    ensures ZipFamily(mv) == Found(Zip, ZipLabel)
    ensures |mv.data| >= FirstNameOffset + |ContentTypes| ==> MsXmlDocs(mv, false) == NoMatch
  {
    assert mv.data[..4] in ZipSignatures();
    assert mv.data[FirstNameOffset] == 0x6D;
  }

  function Zeros(n: nat): (z: seq<byte>)
    ensures |z| == n && forall k :: 0 <= k < n ==> z[k] == 0
  {
    seq(n, _ => 0)
  }

  /** A local file header with every field zero, followed by the entry name. */
  function LocalEntry(name: seq<byte>): (e: seq<byte>)
    ensures |e| == ZipFileHeaderSize + |name|
    ensures e[..4] == DocsMagic && e[ZipFileHeaderSize..] == name
    ensures forall k :: 4 <= k < ZipFileHeaderSize ==> e[k] == 0
  {
    var e := DocsMagic + Zeros(26) + name;
    assert e[..4] == DocsMagic;
    assert e[ZipFileHeaderSize..] == name;
    e
  }

  /**
   * Manifest, then a "word/" entry right after it: the first search lands
   * on the "word/" header, whose name is never checked, and the second
   * search finds nothing, so the package is not reported as a document.
   */
  function SkippedWordArchive(): (a: seq<byte>)
    ensures |a| == 84
    ensures a[..49] == LocalEntry(ContentTypes) && a[49..] == LocalEntry(WordPrefix)
  {
    var a := LocalEntry(ContentTypes) + LocalEntry(WordPrefix);
    assert a[..49] == LocalEntry(ContentTypes);
    assert a[49..] == LocalEntry(WordPrefix);
    a
  }

  lemma EntryAfterFirstSearchIsNotChecked()
    ensures OccursAt(SkippedWordArchive(), DocsMagic, 49)
    ensures MsDocsSubview(MemView(SkippedWordArchive()[79..])) == Found(Docx, OfficeLabel(Docx))
    ensures MsXmlDocs(MemView(SkippedWordArchive()), true) == NoMatch
    ensures ZipFamily(MemView(SkippedWordArchive())) == Found(Zip, ZipLabel)
  {
    var a := SkippedWordArchive();
    var mv := MemView(a);
    var first, second := a[..49], a[49..];
    assert a[..4] == DocsMagic by { assert a[..4] == first[..4]; }
    assert a[..4] in ZipSignatures();
    assert a[FirstNameOffset..FirstNameOffset + 19] == ContentTypes by {
      assert a[FirstNameOffset..FirstNameOffset + 19] == first[ZipFileHeaderSize..];
    }
    assert SubDocs(mv, FirstNameOffset, true) == NoMatch by {
      assert a[FirstNameOffset] == ContentTypes[0];
    }
    assert a[79..] == WordPrefix by { assert a[79..] == second[ZipFileHeaderSize..]; }
    SkippedWordSearches();
    assert Hops(mv, true) == NoMatch by {
      FirstHopFound(mv, 49, 49, true);
      SecondHopMissed(mv, 79, true);
    }
  }

  /** Where the three searches of the hops land in SkippedWordArchive. */
  lemma SkippedWordSearches()
    ensures FirstSearchStart(MemView(SkippedWordArchive())) == 49
    ensures MagicIndex(MemView(SkippedWordArchive()), 49) == 49
    ensures MagicIndex(MemView(SkippedWordArchive()), 79) == -1
  {
    var a := SkippedWordArchive();
    var first, second := a[..49], a[49..];
    assert a[18] == first[18] && a[19] == first[19] && a[20] == first[20] && a[21] == first[21];
    assert a[49..53] == DocsMagic by { assert a[49..53] == second[..4]; }
    assert NextSignature(a, 79) == -1 by {
      assert a[79] == second[30] && a[80] == second[31];
      assert a[79..83][0] != DocsMagic[0] && a[80..84][0] != DocsMagic[0];
      assert NextSignature(a, 81) == -1;
    }
  }
}
