/**
 * Bounds-checked byte views (include/mapview.hpp).
 *
 * `memview` is a non-owning (pointer, length) pair; `mapview` owns a
 * read-only mapping of a file. Both only read their bytes, so each is
 * modelled as the immutable sequence of bytes it covers: a copy of a view is
 * the same value, and no accessor can change it. Creating the mapping
 * (mapfile), unmapping it and closing its handles are I/O and are not part of
 * this model.
 */
module MapView {
  import opened Bytes
  import opened Wrappers

  /** UCHAR_MAX, the byte operator[] yields for an offset outside the view. */
  const Sentinel: byte := 255

  /** memview::npos, the default length of a sub-view. */
  const Npos: nat := 0xFFFF_FFFF_FFFF_FFFF

  /** A memview: the size_ bytes starting at data_. */
  datatype MemView = MemView(data: seq<byte>)

  /** A mapview once mapfile has succeeded: the size_ mapped bytes. */
  datatype MapView = MapView(data: seq<byte>)

  function Min(a: nat, b: nat): nat { if a < b then a else b }

  // ---------------------------------------------------------------- memview

  /** memview::operator[]: the byte at off, or the sentinel past the end. */
  function At(v: MemView, off: nat): (b: byte)
    ensures off < |v.data| ==> b == v.data[off]
    ensures off >= |v.data| ==> b == Sentinel
  {
    if off >= |v.data| then Sentinel else v.data[off]
  }

  /** memview::startswith: false when the pattern is longer than the view, else a memcmp of its length. */
  function StartsWith(v: MemView, p: seq<byte>): (r: bool)
    ensures r <==> |p| <= |v.data| && v.data[..|p|] == p
  {
    if |p| > |v.data| then false else MemEq(v.data, p, |p|)
  }

  /**
   * memview::indexswith. Only offset > size is rejected; for a smaller offset
   * the memcmp reads |sv| bytes from there without checking that they lie in
   * the view, so that is what a caller must guarantee.
   */
  function IndexsWith(v: MemView, offset: nat, sv: seq<byte>): (r: bool)
    requires offset <= |v.data| ==> offset + |sv| <= |v.data|
    ensures r <==> offset <= |v.data| && v.data[offset..offset + |sv|] == sv
  {
    if offset > |v.data| then false
    else
      assert v.data[offset..][..|sv|] == v.data[offset..offset + |sv|];
      MemEq(v.data[offset..], sv, |sv|)
  }

  /**
   * memview::submv(pos, n): starts at pos and is min(n, size - pos) long.
   * The source does not check pos <= size (size - pos would wrap), so the
   * model asks it of the caller.
   */
  function SubMv(v: MemView, pos: nat, n: nat): (r: MemView)
    requires pos <= |v.data|
    ensures |r.data| == Min(n, |v.data| - pos)
    ensures forall k :: 0 <= k < |r.data| ==> r.data[k] == v.data[pos + k]
  {
    MemView(v.data[pos..pos + Min(n, |v.data| - pos)])
  }

  /**
   * memview::cast<T>(off): the sizeofT bytes of a T laid over the view at off,
   * or null. The test is strict: a header that ends exactly at the end of the
   * view is refused.
   */
  function Cast(v: MemView, off: nat, sizeofT: nat): (r: Option<seq<byte>>)
    ensures r.Some? <==> off + sizeofT < |v.data|
    ensures r.Some? ==> r.value == v.data[off..off + sizeofT]
  {
    if off + sizeofT >= |v.data| then None else Some(v.data[off..off + sizeofT])
  }

  // ---------------------------------------------------------------- mapview

  /** mapview::operator[]: the byte at off, or 255 past the end. */
  function MapAt(m: MapView, off: nat): (b: byte)
    ensures off < |m.data| ==> b == m.data[off]
    ensures off >= |m.data| ==> b == Sentinel
  {
    if off >= |m.data| then 255 else m.data[off]
  }

  /** mapview::startswith(prefix, pl): refuses pl >= size, then a memcmp of pl bytes. */
  function MapStartsWith(m: MapView, prefix: seq<byte>): (r: bool)
    ensures r <==> |prefix| < |m.data| && m.data[..|prefix|] == prefix
  {
    if |prefix| >= |m.data| then false else MemEq(m.data, prefix, |prefix|)
  }

  /** mapview::indexswith: as memview::indexswith, with the same unchecked read. */
  function MapIndexsWith(m: MapView, offset: nat, sv: seq<byte>): (r: bool)
    requires offset <= |m.data| ==> offset + |sv| <= |m.data|
    ensures r <==> offset <= |m.data| && m.data[offset..offset + |sv|] == sv
  {
    IndexsWith(MemView(m.data), offset, sv)
  }

  /** mapview::cast<T>(off): null unless the header ends strictly before the end. */
  function MapCast(m: MapView, off: nat, sizeofT: nat): (r: Option<seq<byte>>)
    ensures r.Some? <==> off + sizeofT < |m.data|
    ensures r.Some? ==> r.value == m.data[off..off + sizeofT]
  {
    Cast(MemView(m.data), off, sizeofT)
  }

  /** mapview::subview(off): the rest of the mapping from off, or the empty view. */
  function SubView(m: MapView, off: nat): (r: MemView)
    ensures off >= |m.data| ==> r.data == []
    ensures off < |m.data| ==> |r.data| == |m.data| - off
    ensures forall k :: 0 <= k < |r.data| ==> r.data[k] == m.data[off + k]
  {
    if off >= |m.data| then MemView([]) else MemView(m.data[off..])
  }

  // ---------------------------------------------------------------- properties

  /** Reading through a sub-view is reading the mapping at the shifted offset, sentinel included. */
  lemma AtSubView(m: MapView, off: nat, k: nat)
    requires off < |m.data|
    ensures At(SubView(m, off), k) == MapAt(m, off + k)
  {
  }

  /** A sub-view of an empty region yields only the sentinel. */
  lemma AtSubViewPastEnd(m: MapView, off: nat, k: nat)
    requires off >= |m.data|
    ensures At(SubView(m, off), k) == Sentinel
  {
  }

  /** mapview::startswith implies memview::startswith over the same bytes. */
  lemma MapStartsWithStronger(m: MapView, prefix: seq<byte>)
    ensures MapStartsWith(m, prefix) ==> StartsWith(MemView(m.data), prefix)
  {
  }

  /** ... and is strictly stronger: the whole mapping as a pattern matches one and not the other. */
  lemma MapStartsWithRejectsWholeView(m: MapView)
    ensures !MapStartsWith(m, m.data)
    ensures StartsWith(MemView(m.data), m.data)
  {
  }

  /** cast refuses a header that exactly fills the rest of the view. */
  lemma CastRejectsExactFit(v: MemView, off: nat)
    requires off <= |v.data|
    ensures Cast(v, off, |v.data| - off) == None
  {
  }

  /** A smaller header at the same offset can be laid wherever a larger one can, over its first bytes. */
  lemma CastSmaller(v: MemView, off: nat, large: nat, small: nat)
    requires small <= large
    requires Cast(v, off, large).Some?
    ensures Cast(v, off, small).Some?
    ensures Cast(v, off, small).value == Cast(v, off, large).value[..small]
  {
    assert v.data[off..off + large][..small] == v.data[off..off + small];
  }

  /** A sub-view starts with p exactly when the view holds p at that offset. */
  lemma SubMvStartsWith(v: MemView, pos: nat, p: seq<byte>)
    requires pos + |p| <= |v.data| <= Npos
    ensures StartsWith(SubMv(v, pos, Npos), p) <==> IndexsWith(v, pos, p)
  {
    var s := SubMv(v, pos, Npos);
    if StartsWith(s, p) {
      assert v.data[pos..pos + |p|] == s.data[..|p|];
    }
    if IndexsWith(v, pos, p) {
      assert v.data[pos..pos + |p|] == s.data[..|p|];
    }
  }

  /** The sub-view at offset 0 of default length is the view itself (size_t sizes). */
  lemma SubMvWhole(v: MemView)
    requires |v.data| <= Npos
    ensures SubMv(v, 0, Npos) == v
  {
  }

  /** With the default length npos a sub-view covers the rest of the view (size_t sizes). */
  lemma SubMvRest(v: MemView, pos: nat)
    requires pos <= |v.data| <= Npos
    ensures SubMv(v, pos, Npos).data == v.data[pos..]
  {
  }
}
