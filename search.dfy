/**
 * Leftmost occurrence of a pattern in a sequence: the reference definition
 * that the source's hand-written searches (Memmem, memsearch, int_memmatch)
 * are proved against.
 */
module Search {
  import opened Wrappers

  /** needle occurs in hay starting at index i. */
  predicate OccursAt<T(==)>(hay: seq<T>, needle: seq<T>, i: nat) {
    i + |needle| <= |hay| && hay[i..i + |needle|] == needle
  }

  /** The least index at which needle occurs in hay, if any. */
  function Find<T(==)>(hay: seq<T>, needle: seq<T>): (r: Option<nat>)
    ensures r.Some? ==> OccursAt(hay, needle, r.value)
    ensures r.Some? ==> forall j: nat :: j < r.value ==> !OccursAt(hay, needle, j)
    ensures r.None? ==> forall j: nat :: !OccursAt(hay, needle, j)
    decreases |hay|
  {
    if |needle| > |hay| then None
    else if hay[..|needle|] == needle then Some(0)
    else
      var rest := Find(hay[1..], needle);
      ShiftOccurs(hay, needle);
      assert !OccursAt(hay, needle, 0);
      assert forall j: nat :: 0 < j ==> (OccursAt(hay, needle, j) <==> OccursAt(hay[1..], needle, j - 1));
      match rest
      case None => None
      case Some(k) => Some(k + 1)
  }

  /** An occurrence in hay[1..] is an occurrence in hay, one index further on. */
  lemma ShiftOccurs<T>(hay: seq<T>, needle: seq<T>)
    requires |hay| > 0
    ensures forall j: nat :: OccursAt(hay[1..], needle, j) <==> OccursAt(hay, needle, j + 1)
  {
    forall j: nat
      ensures OccursAt(hay[1..], needle, j) <==> OccursAt(hay, needle, j + 1)
    {
      if j + |needle| <= |hay| - 1 {
        assert hay[1..][j..j + |needle|] == hay[j + 1..j + 1 + |needle|];
      }
    }
  }

  /** The empty pattern occurs at the start of everything. */
  lemma FindEmpty<T>(hay: seq<T>)
    ensures Find(hay, []) == Some(0)
  {
  }

  /** Find reports an occurrence exactly when there is one. */
  lemma FindSomeIff<T>(hay: seq<T>, needle: seq<T>)
    ensures Find(hay, needle).Some? <==> exists j: nat :: OccursAt(hay, needle, j)
  {
    if Find(hay, needle).Some? {
      var j := Find(hay, needle).value;
      assert OccursAt(hay, needle, j);
    }
  }

  /** Find is determined by its specification: the first occurrence, or none. */
  lemma FindIsLeftmost<T>(hay: seq<T>, needle: seq<T>, i: nat)
    requires OccursAt(hay, needle, i)
    requires forall j: nat :: j < i ==> !OccursAt(hay, needle, j)
    ensures Find(hay, needle) == Some(i)
  {
  }

  /** An occurrence in a suffix is an occurrence in the whole sequence, shifted by the cut. */
  lemma OccursInSuffix<T>(hay: seq<T>, needle: seq<T>, off: nat, k: nat)
    requires off <= |hay|
    ensures OccursAt(hay[off..], needle, k) <==> OccursAt(hay, needle, off + k)
  {
    if off + k + |needle| <= |hay| {
      assert hay[off..][k..k + |needle|] == hay[off + k..off + k + |needle|];
    }
  }
}
