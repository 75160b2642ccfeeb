/**
 * The git object-store detector of lib/inquisitive/git.cc
 * (inquisitive_gitbinary): pack files, pack indexes and multi-pack-indexes,
 * recognised by their four-byte signature and decoded from big-endian
 * header fields laid over the view with the strict `cast`.
 */
module Git {
  import opened Bytes
  import opened Wrappers
  import opened MapView
  import opened Inquisitive

  const PackMagic: seq<byte> := [0x50, 0x41, 0x43, 0x4B]   // "PACK"
  const MidxMagic: seq<byte> := [0x4D, 0x49, 0x44, 0x58]   // "MIDX"
  const IndexMagic: seq<byte> := [0xFF, 0x74, 0x4F, 0x63]  // "\377tOc"

  /** sizeof(git_pack_header_t): signature, version, objsize. */
  const PackHeaderSize: nat := 12
  /** sizeof(git_index_header_t): signature, version, fanout[256]. */
  const IndexHeaderSize: nat := 4 + 4 + 256 * 4
  /** sizeof(git_index3_header_t): signature, version, hslength, packobjects, objectformats. */
  const Index3HeaderSize: nat := 20
  /** sizeof(git_midx_header_t): signature, version, oidversion, chunks, basemidxsize, packfiles. */
  const MidxHeaderSize: nat := 12

  /** The label of a pack index: its version, and its object count for versions 2 and 3. */
  function IndexName(mv: MemView, hd: seq<byte>): (l: Label)
    requires |hd| == IndexHeaderSize && Cast(mv, 0, IndexHeaderSize) == Some(hd)
    ensures l.IndexLabel? && l.version == BE32(hd, 4)
  {
    var ver := BE32(hd, 4);
    if ver == 2 then IndexLabel(ver, Some(BE32(hd, 8 + 4 * 255)))
    else if ver == 3 then
      var hd3 := Cast(mv, 0, Index3HeaderSize).value;
      IndexLabel(ver, Some(BE32(hd3, 12)))
    else IndexLabel(ver, None)
  }

  /** inquisitive_gitbinary. */
  function GitBinary(mv: MemView): (r: Status)
    ensures r != ReadPastEnd
    ensures r.Found? ==> StartsWith(mv, PackMagic) || StartsWith(mv, IndexMagic) || StartsWith(mv, MidxMagic)
  {
    if StartsWith(mv, PackMagic) then
      match Cast(mv, 0, PackHeaderSize)
      case None => NoMatch
      case Some(hd) => Found(GitPack, PackLabel(BE32(hd, 4), BE32(hd, 8)))
    else if StartsWith(mv, IndexMagic) then
      match Cast(mv, 0, IndexHeaderSize)
      case None => NoMatch
      case Some(hd) => Found(GitPkIndex, IndexName(mv, hd))
    else if StartsWith(mv, MidxMagic) then
      match Cast(mv, 0, MidxHeaderSize)
      case None => NoMatch
      case Some(hd) => Found(GitPack, MidxLabel(hd[4] as nat, hd[5] as nat, hd[6] as nat, BE32(hd, 8)))
    else NoMatch
  }

  // ------------------------------------------------------------ properties

  /**
   * A pack needs a view longer than its 12-byte header and is reported with
   * the big-endian version and object count.
   */
  lemma PackHeader(mv: MemView)
    requires StartsWith(mv, PackMagic)
    ensures |mv.data| <= 12 ==> GitBinary(mv) == NoMatch
    ensures |mv.data| > 12 ==> GitBinary(mv) == Found(GitPack, PackLabel(BE32(mv.data, 4), BE32(mv.data, 8)))
  {
    if |mv.data| > 12 {
      var hd := Cast(mv, 0, PackHeaderSize).value;
      assert hd[4..12] == mv.data[4..12];
    }
  }

  /**
   * A pack index needs a view longer than its 1032-byte header; it is always
   * tagged gitpkindex, and its label counts objects from fanout[255] in
   * version 2, from packobjects in version 3, and not at all otherwise.
   */
  lemma IndexHeader(mv: MemView)
    requires StartsWith(mv, IndexMagic)
    ensures |mv.data| <= IndexHeaderSize ==> GitBinary(mv) == NoMatch
    ensures |mv.data| > IndexHeaderSize ==>
      var ver := BE32(mv.data, 4);
      GitBinary(mv) == Found(GitPkIndex, IndexLabel(ver,
        if ver == 2 then Some(BE32(mv.data, 1028))
        else if ver == 3 then Some(BE32(mv.data, 12))
        else None))
  {
    if |mv.data| > IndexHeaderSize {
      var hd := Cast(mv, 0, IndexHeaderSize).value;
      assert hd[4..8] == mv.data[4..8];
      assert hd[1028..1032] == mv.data[1028..1032];
      CastSmaller(mv, 0, IndexHeaderSize, Index3HeaderSize);
      var hd3 := Cast(mv, 0, Index3HeaderSize).value;
      assert hd3[12..16] == mv.data[12..16];
    }
  }

  /** The version 3 overlay can always be laid once the common index header has been. */
  lemma Index3OverlayFits(mv: MemView)
    requires Cast(mv, 0, IndexHeaderSize).Some?
    ensures Cast(mv, 0, Index3HeaderSize).Some?
  {
    CastSmaller(mv, 0, IndexHeaderSize, Index3HeaderSize);
  }

  /**
   * A multi-pack-index needs a view longer than its 12-byte header and is
   * tagged gitpack with its version, oid version, chunk count and big-endian
   * pack-file count.
   */
  lemma MidxHeader(mv: MemView)
    requires StartsWith(mv, MidxMagic)
    ensures |mv.data| <= 12 ==> GitBinary(mv) == NoMatch
    ensures |mv.data| > 12 ==>
              GitBinary(mv) == Found(GitPack, MidxLabel(mv.data[4] as nat, mv.data[5] as nat, mv.data[6] as nat, BE32(mv.data, 8)))
  {
    if |mv.data| > 12 {
      var hd := Cast(mv, 0, MidxHeaderSize).value;
      assert hd[4..12] == mv.data[4..12];
    }
  }

  /** Without one of the three signatures there is no match. */
  lemma NoSignatureNoMatch(mv: MemView)
    requires !StartsWith(mv, PackMagic) && !StartsWith(mv, IndexMagic) && !StartsWith(mv, MidxMagic)
    ensures GitBinary(mv) == NoMatch
  {
  }

  /** "PACK", version 2, 5 objects: exactly the 12-byte header. */
  const PackFixture: seq<byte> := [0x50, 0x41, 0x43, 0x4B, 0x00, 0x00, 0x00, 0x02, 0x00, 0x00, 0x00, 0x05]

  /** The strict cast refuses the bare 12-byte header. */
  lemma PackFixtureRefused()
    ensures GitBinary(MemView(PackFixture)) == NoMatch
  {
    assert StartsWith(MemView(PackFixture), PackMagic);
    PackHeader(MemView(PackFixture));
  }

  /** One byte more and it is a version 2 pack of 5 objects. */
  lemma PackFixtureAccepted()
    ensures GitBinary(MemView(PackFixture + [0x00])) == Found(GitPack, PackLabel(2, 5))
  {
    var longer := PackFixture + [0x00];
    assert StartsWith(MemView(longer), PackMagic) by { assert longer[..4] == PackMagic; }
    PackFixtureFields();
    PackHeader(MemView(longer));
  }

  /** The version and object-count fields of the 13-byte fixture. */
  lemma PackFixtureFields()
    ensures BE32(PackFixture + [0x00], 4) == 2 && BE32(PackFixture + [0x00], 8) == 5
  {
    var longer := PackFixture + [0x00];
    assert longer[4] == 0 && longer[5] == 0 && longer[6] == 0 && longer[7] == 2;
    SmallBE32(longer, 4);
    assert longer[8] == 0 && longer[9] == 0 && longer[10] == 0 && longer[11] == 5;
    SmallBE32(longer, 8);
  }

  /** A big-endian field whose three high bytes are zero is its low byte. */
  lemma SmallBE32(s: seq<byte>, off: nat)
    requires off + 4 <= |s| && s[off] == 0 && s[off + 1] == 0 && s[off + 2] == 0
    ensures BE32(s, off) == s[off + 3] as nat
  {
  }
}
