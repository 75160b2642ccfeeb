/**
 * The wide-character substring search of lib/strings/memutil.hpp:
 * int_memmatch, a scan that backs the haystack up after a partial match,
 * in its case-sensitive and case-insensitive instances, and the wrappers
 * memstr, memcasestr, memmem and memcasemem. A returned pointer is the
 * offset of the match in the haystack; nullptr is None.
 */
module MemUtil {
  import opened Wrappers
  import opened Search
  import opened FmtArgs

  /** towlower in the "C" locale: 'A'..'Z' become 'a'..'z', every other code is itself. */
  function ToLower(c: WChar): (r: WChar)
    ensures !(0x41 <= r <= 0x5A)
    ensures r == c || (0x41 <= c <= 0x5A && r == c + 0x20)
  {
    if 0x41 <= c <= 0x5A then c + 0x20 else c
  }

  /**
   * The character int_memmatch compares: the character itself when the
   * search is case-sensitive, otherwise towlower of it cast to unsigned
   * char, so that only its low eight bits take part.
   */
  function Fold(c: WChar, caseSensitive: bool): (f: WChar)
    ensures caseSensitive ==> f == c
    ensures !caseSensitive ==> f < 256 && f % 32 == c % 32 && !(0x41 <= f <= 0x5A)
  {
    if caseSensitive then c else ToLower(c % 256)
  }

  function Folded(s: seq<WChar>, caseSensitive: bool): (f: seq<WChar>)
    ensures |f| == |s| && forall k :: 0 <= k < |s| ==> f[k] == Fold(s[k], caseSensitive)
  {
    seq(|s|, k requires 0 <= k < |s| => Fold(s[k], caseSensitive))
  }

  /** What int_memmatch returns: the first place where the folded needle stands in the folded haystack. */
  function MemMatch(hay: seq<WChar>, needle: seq<WChar>, caseSensitive: bool): (r: Option<nat>)
    ensures r.Some? ==> r.value + |needle| <= |hay|
    ensures |needle| == 0 ==> r == Some(0)
  {
    Find(Folded(hay, caseSensitive), Folded(needle, caseSensitive))
  }

  /** The needle matches the haystack at j, character by character after folding. */
  predicate MatchesAt(hay: seq<WChar>, needle: seq<WChar>, caseSensitive: bool, j: nat)
  {
    j + |needle| <= |hay| &&
    forall k :: 0 <= k < |needle| ==> Fold(hay[j + k], caseSensitive) == Fold(needle[k], caseSensitive)
  }

  // ------------------------------------------------------------ the loop

  /**
   * int_memmatch<caseSensitive>: h is haystack's offset and n is
   * needle - needlestart. On a mismatch after a partial match the haystack
   * goes back n characters before the loop advances it by one.
   */
  method IntMemMatch(hay: seq<WChar>, needle: seq<WChar>, caseSensitive: bool) returns (r: Option<nat>)
    ensures r == MemMatch(hay, needle, caseSensitive)
  {
    ghost var fh, fn := Folded(hay, caseSensitive), Folded(needle, caseSensitive);
    if |needle| == 0 {
      FindEmpty(fh);
      return Some(0);
    }
    var h, n := 0, 0;
    while h < |hay|
      invariant n <= h && Scanned(fh, fn, h, n)
      decreases |hay| - (h - n), |needle| - n
    {
      var hc := Fold(hay[h], caseSensitive);
      var nc := Fold(needle[n], caseSensitive);
      if hc == nc {
        MatchStep(fh, fn, h, n);
        n := n + 1;
        if n == |needle| {
          return Some(h + 1 - n);
        }
      } else {
        MismatchStep(fh, fn, h, n);
        if n != 0 {
          h := h - n;
          n := 0;
        }
      }
      h := h + 1;
    }
    NoRoomLeft(fh, fn, n);
    return None;
  }

  /**
   * What the scan knows with h characters of the haystack read and n of
   * the needle matched: the last n characters read are the needle's first
   * n, and no occurrence starts before h - n.
   */
  ghost predicate Scanned(fh: seq<WChar>, fn: seq<WChar>, h: nat, n: nat)
  {
    n < |fn| && n <= h <= |fh| && fh[h - n..h] == fn[..n] &&
    forall j: nat :: j < h - n ==> !OccursAt(fh, fn, j)
  }

  /** A matching character either completes the needle, found where it starts, or lengthens the partial match. */
  lemma MatchStep(fh: seq<WChar>, fn: seq<WChar>, h: nat, n: nat)
    requires Scanned(fh, fn, h, n) && h < |fh| && fh[h] == fn[n]
    ensures n + 1 == |fn| ==> Find(fh, fn) == Some(h + 1 - (n + 1))
    ensures n + 1 < |fn| ==> Scanned(fh, fn, h + 1, n + 1)
  {
    assert fh[h - n..h + 1] == fh[h - n..h] + [fh[h]];
    assert fn[..n + 1] == fn[..n] + [fn[n]];
    if n + 1 == |fn| {
      assert fn[..n + 1] == fn;
      FindIsLeftmost(fh, fn, h - n);
    }
  }

  /** A mismatch rules out the start of the partial match; the scan resumes one past it with nothing matched. */
  lemma MismatchStep(fh: seq<WChar>, fn: seq<WChar>, h: nat, n: nat)
    requires Scanned(fh, fn, h, n) && h < |fh| && fh[h] != fn[n]
    ensures Scanned(fh, fn, h - n + 1, 0)
  {
    if h - n + |fn| <= |fh| {
      assert fh[h - n..h - n + |fn|][n] == fh[h];
    }
  }

  /** With fewer than |fn| characters left after the last candidate start, there is no occurrence. */
  lemma NoRoomLeft(fh: seq<WChar>, fn: seq<WChar>, n: nat)
    requires n < |fn| && n <= |fh|
    requires forall j: nat :: j < |fh| - n ==> !OccursAt(fh, fn, j)
    ensures Find(fh, fn) == None
  {
  }

  // ------------------------------------------------------------ the wrappers

  /** memstr: a case-sensitive search for the needle up to its terminator. */
  method MemStr(hay: seq<WChar>, needle: seq<WChar>) returns (r: Option<nat>)
    ensures r == MemMatch(hay, needle[..WcsLen(needle)], true)
  {
    r := IntMemMatch(hay, needle[..WcsLen(needle)], true);
  }

  /** memcasestr: a case-insensitive search for the needle up to its terminator. */
  method MemCaseStr(hay: seq<WChar>, needle: seq<WChar>) returns (r: Option<nat>)
    ensures r == MemMatch(hay, needle[..WcsLen(needle)], false)
  {
    r := IntMemMatch(hay, needle[..WcsLen(needle)], false);
  }

  /** memmem: a case-sensitive search for the first needlelen characters, NULs included. */
  method MemMem(hay: seq<WChar>, needle: seq<WChar>, needlelen: nat) returns (r: Option<nat>)
    requires needlelen <= |needle|
    ensures r == MemMatch(hay, needle[..needlelen], true)
  {
    r := IntMemMatch(hay, needle[..needlelen], true);
  }

  /** memcasemem: a case-insensitive search for the first needlelen characters. */
  method MemCaseMem(hay: seq<WChar>, needle: seq<WChar>, needlelen: nat) returns (r: Option<nat>)
    requires needlelen <= |needle|
    ensures r == MemMatch(hay, needle[..needlelen], false)
  {
    r := IntMemMatch(hay, needle[..needlelen], false);
  }

  // ------------------------------------------------------------ properties

  /** An occurrence of the folded needle is a character-by-character match after folding. */
  lemma OccursIsMatch(hay: seq<WChar>, needle: seq<WChar>, caseSensitive: bool, j: nat)
    ensures OccursAt(Folded(hay, caseSensitive), Folded(needle, caseSensitive), j) <==>
            MatchesAt(hay, needle, caseSensitive, j)
  {
    var fh, fn := Folded(hay, caseSensitive), Folded(needle, caseSensitive);
    if j + |needle| <= |hay| {
      if MatchesAt(hay, needle, caseSensitive, j) {
        assert fh[j..j + |fn|] == fn;
      }
      if OccursAt(fh, fn, j) {
        forall k | 0 <= k < |needle|
          ensures Fold(hay[j + k], caseSensitive) == Fold(needle[k], caseSensitive)
        {
          assert fh[j..j + |fn|][k] == fn[k];
        }
      }
    }
  }

  /**
   * The result is the leftmost match and lies inside the haystack
   * (p + neelen <= haylen); nullptr exactly when the needle matches nowhere.
   */
  lemma MemMatchIsLeftmost(hay: seq<WChar>, needle: seq<WChar>, caseSensitive: bool)
    ensures var r := MemMatch(hay, needle, caseSensitive);
      (r.Some? ==> r.value + |needle| <= |hay| && MatchesAt(hay, needle, caseSensitive, r.value)) &&
      (r.Some? ==> forall j: nat :: j < r.value ==> !MatchesAt(hay, needle, caseSensitive, j)) &&
      (r.None? <==> forall j: nat :: !MatchesAt(hay, needle, caseSensitive, j))
  {
    var r := MemMatch(hay, needle, caseSensitive);
    forall j: nat
      ensures OccursAt(Folded(hay, caseSensitive), Folded(needle, caseSensitive), j) <==>
              MatchesAt(hay, needle, caseSensitive, j)
    {
      OccursIsMatch(hay, needle, caseSensitive, j);
    }
  }

  /** An empty needle is found at the start, even in an empty haystack. */
  lemma EmptyNeedleAtStart(hay: seq<WChar>, caseSensitive: bool)
    ensures MemMatch(hay, [], caseSensitive) == Some(0)
  {
    FindEmpty(Folded(hay, caseSensitive));
  }

  /** A case-insensitive search finds a match no later than the case-sensitive one. */
  lemma CaseInsensitiveNoLater(hay: seq<WChar>, needle: seq<WChar>)
    requires MemMatch(hay, needle, true).Some?
    ensures MemMatch(hay, needle, false).Some?
    ensures MemMatch(hay, needle, false).value <= MemMatch(hay, needle, true).value
  {
    var p := MemMatch(hay, needle, true).value;
    MemMatchIsLeftmost(hay, needle, true);
    assert MatchesAt(hay, needle, false, p);
    OccursIsMatch(hay, needle, false, p);
    assert OccursAt(Folded(hay, false), Folded(needle, false), p);
  }

  /** Backing up after a partial match: "aab" is found at 1 in "aaab". */
  lemma BackUpFindsOverlap()
    ensures MemMatch([0x61, 0x61, 0x61, 0x62], [0x61, 0x61, 0x62], true) == Some(1)
  {
    var hay: seq<WChar>, needle: seq<WChar> := [0x61, 0x61, 0x61, 0x62], [0x61, 0x61, 0x62];
    var fh, fn := Folded(hay, true), Folded(needle, true);
    assert fh == hay && fn == needle;
    assert fh[1..4] == needle;
    assert fh[0..3] != needle by { assert fh[0..3][2] != needle[2]; }
    FindIsLeftmost(fh, fn, 1);
  }

  /** The case-insensitive search sees only the low byte: U+0141 folds to 'a'. */
  lemma LowByteFoldMatches()
    ensures MemMatch([0x0141], [0x61], false) == Some(0)
  {
    assert Folded([0x0141], false) == [0x61];
    assert Folded([0x61], false) == [0x61];
    FindIsLeftmost(Folded([0x0141], false), Folded([0x61], false), 0);
  }

  /** The case-sensitive search compares whole characters: U+0141 is not 'a'. */
  lemma WholeCharNoMatch()
    ensures MemMatch([0x0141], [0x61], true) == None
  {
    assert Folded([0x0141], true) == [0x0141] && Folded([0x61], true) == [0x61];
    assert [0x0141][0..1][0] == 0x0141;
    NoRoomLeft([0x0141], [0x61], 0);
  }

  /** "AB" is found at 1 in "xab" when case is ignored. */
  lemma UpperNeedleFound()
    ensures MemMatch([0x78, 0x61, 0x62], [0x41, 0x42], false) == Some(1)
  {
    var hay: seq<WChar>, ab: seq<WChar> := [0x78, 0x61, 0x62], [0x61, 0x62];
    var fh := Folded(hay, false);
    assert fh == hay && Folded([0x41, 0x42], false) == ab;
    assert fh[1..3] == ab;
    assert fh[0..2][0] != ab[0];
    FindIsLeftmost(fh, ab, 1);
  }

  /** memstr stops the needle at a NUL where memmem with the full length does not. */
  lemma TerminatorEndsNeedle()
    ensures WcsLen([0x61, 0x00, 0x62]) == 1
    ensures MemMatch([0x61], [0x61, 0x00, 0x62][..1], true) == Some(0)
    ensures MemMatch([0x61], [0x61, 0x00, 0x62][..3], true) == None
  {
    var needle: seq<WChar> := [0x61, 0x00, 0x62];
    assert WcsLen(needle[1..]) == 0;
    assert Folded([0x61], true) == [0x61] && Folded(needle[..1], true) == [0x61];
    FindIsLeftmost([0x61], [0x61], 0);
    assert Folded(needle[..3], true) == needle;
  }
}
