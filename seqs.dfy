/** Sequence helpers shared by the parser and the sequencer: an Option type,
    first-index search (Ruby's `find_index`), duplicate removal keeping first
    occurrences (Ruby's `uniq`) and a pigeonhole fact used by the cycle proofs. */
module Seqs {

  datatype Option<T> = None | Some(value: T)

  /** No element occurs twice. */
  predicate Distinct<T(==)>(s: seq<T>) {
    forall i, j :: 0 <= i < j < |s| ==> s[i] != s[j]
  }

  /** Index of the first occurrence of `x` in `s`, as Ruby's `Array#find_index`. */
  function IndexOf<T(==)>(s: seq<T>, x: T): (r: Option<nat>)
    ensures r.None? <==> x !in s
    ensures r.Some? ==> r.value < |s| && s[r.value] == x && x !in s[..r.value]
  {
    if |s| == 0 then None
    else if s[0] == x then Some(0)
    else match IndexOf(s[1..], x)
      case None => None
      case Some(i) =>
        assert s[1..][..i] == s[1..i + 1];
        Some(i + 1)
  }

  /** The first occurrence is at or before any occurrence, and exactly at an
      occurrence with none before it. */
  lemma IndexOfAt<T>(s: seq<T>, x: T, k: nat)
    requires k < |s| && s[k] == x
    ensures IndexOf(s, x).Some? && IndexOf(s, x).value <= k
    ensures x !in s[..k] ==> IndexOf(s, x).value == k
  {
    var j := IndexOf(s, x).value;
    assert forall i :: 0 <= i < j ==> s[..j][i] == s[i];
    assert forall i :: 0 <= i < k ==> s[..k][i] == s[i];
  }

  /** Ruby's `Array#uniq`: every element once, at its first occurrence. */
  function Uniq<T(==)>(s: seq<T>): seq<T> {
    if |s| == 0 then []
    else
      var u := Uniq(s[..|s| - 1]);
      if s[|s| - 1] in u then u else u + [s[|s| - 1]]
  }

  /** `uniq` leaves no duplicates, loses no element, adds none and never grows. */
  lemma {:induction false} UniqFacts<T>(s: seq<T>)
    ensures Distinct(Uniq(s))
    ensures forall x :: x in Uniq(s) <==> x in s
    ensures |Uniq(s)| <= |s|
  {
    if |s| > 0 {
      var init := s[..|s| - 1];
      UniqFacts(init);
      assert forall x :: x in s <==> x in init || x == s[|s| - 1];
    }
  }

  /** One more element: kept at the end if it is new, dropped otherwise. */
  lemma UniqSnoc<T>(s: seq<T>, x: T)
    ensures Uniq(s + [x]) == if x in Uniq(s) then Uniq(s) else Uniq(s) + [x]
  {
    assert (s + [x])[..|s|] == s;
  }

  lemma {:induction false} UniqOfDistinct<T>(s: seq<T>)
    requires Distinct(s)
    ensures Uniq(s) == s
  {
    if |s| > 0 {
      var init := s[..|s| - 1];
      UniqOfDistinct(init);
      assert s[|s| - 1] !in init;
      assert s == init + [s[|s| - 1]];
    }
  }

  /** Uniq keeps the relative order of first occurrences: `x` comes before `y`
      in the result exactly when `x` first occurs before `y` in the input. */
  lemma {:induction false} UniqKeepsFirstOccurrenceOrder<T>(s: seq<T>, x: T, y: T)
    requires x in s && y in s
    ensures x in Uniq(s) && y in Uniq(s)
    ensures IndexOf(Uniq(s), x).value < IndexOf(Uniq(s), y).value
        <==> IndexOf(s, x).value < IndexOf(s, y).value
  {
    var n := |s|;
    var init, last := s[..n - 1], s[n - 1];
    assert s == init + [last];
    var u := Uniq(init);
    UniqFacts(s);
    UniqFacts(init);
    if x in init && y in init {
      UniqKeepsFirstOccurrenceOrder(init, x, y);
      IndexOfAppend(init, last, x);
      IndexOfAppend(init, last, y);
      if last !in u {
        IndexOfAppend(u, last, x);
        IndexOfAppend(u, last, y);
      }
    } else if x in init {
      // y occurs only as the last element
      IndexOfAppend(init, last, x);
      assert IndexOf(s, y).value == n - 1;
      assert y !in u;
      IndexOfAppend(u, last, x);
      assert IndexOf(Uniq(s), y).value == |u|;
    } else if y in init {
      IndexOfAppend(init, last, y);
      assert IndexOf(s, x).value == n - 1;
      assert x !in u;
      IndexOfAppend(u, last, y);
      assert IndexOf(Uniq(s), x).value == |u|;
    } else {
      assert x == last && y == last;
    }
  }

  /** Appending an element does not move an earlier first occurrence. */
  lemma {:induction false} IndexOfAppend<T>(s: seq<T>, e: T, x: T)
    requires x in s
    ensures IndexOf(s + [e], x) == IndexOf(s, x)
  {
    if s[0] != x {
      assert (s + [e])[1..] == s[1..] + [e];
      IndexOfAppend(s[1..], e, x);
    }
  }

  /** A distinct sequence has as many distinct elements as positions. */
  lemma {:induction false} DistinctCardinality<T>(s: seq<T>)
    requires Distinct(s)
    ensures |set i | 0 <= i < |s| :: s[i]| == |s|
  {
    if |s| > 0 {
      var init := s[..|s| - 1];
      DistinctCardinality(init);
      var a := set i | 0 <= i < |init| :: init[i];
      var b := set i | 0 <= i < |s| :: s[i];
      assert b == a + {s[|s| - 1]};
      assert s[|s| - 1] !in a;
    }
  }

  lemma {:induction false} SubsetCardinality<T>(a: set<T>, b: set<T>)
    requires a <= b
    ensures |a| <= |b|
  {
    if a != {} {
      var x :| x in a;
      SubsetCardinality(a - {x}, b - {x});
    }
  }

  /** A sequence has at most as many distinct elements as positions. */
  lemma {:induction false} SeqSetCardinality<T>(s: seq<T>)
    ensures |set i | 0 <= i < |s| :: s[i]| <= |s|
  {
    if |s| > 0 {
      var init := s[..|s| - 1];
      SeqSetCardinality(init);
      var a := set i | 0 <= i < |init| :: init[i];
      var b := set i | 0 <= i < |s| :: s[i];
      assert b == a + {s[|s| - 1]};
    }
  }

  /** More positions than possible values forces a repeated value. */
  lemma Pigeonhole<T>(s: seq<T>, values: set<T>)
    requires forall i :: 0 <= i < |s| ==> s[i] in values
    requires |s| > |values|
    ensures exists i, j :: 0 <= i < j < |s| && s[i] == s[j]
  {
    if Distinct(s) {
      DistinctCardinality(s);
      SubsetCardinality(set i | 0 <= i < |s| :: s[i], values);
    }
  }
}
