/**
 * Sequences without repeated elements, and the "append each element that is
 * not already there" merge shared by the quote import and by the JavaScript
 * `Set` built over the categories.
 */
module Seqs {
  /** No element occurs twice. */
  predicate NoDuplicates<T(==)>(s: seq<T>) {
    forall i, j :: 0 <= i < j < |s| ==> s[i] != s[j]
  }

  /** The elements of `s`, as a set. */
  function Elements<T>(s: seq<T>): set<T> {
    set x | x in s
  }

  /**
   * Walks `incoming` in order and appends each element that the growing
   * result does not yet contain, so a repeat inside `incoming` is dropped too.
   */
  function AppendNew<T(==)>(base: seq<T>, incoming: seq<T>): (r: seq<T>)
    ensures |base| <= |r| <= |base| + |incoming|
    ensures r[..|base|] == base
    decreases |incoming|
  {
    if incoming == [] then base
    else
      var prev := AppendNew(base, incoming[..|incoming| - 1]);
      var x := incoming[|incoming| - 1];
      if x in prev then prev else prev + [x]
  }

  /** The merge loses nothing and invents nothing. */
  lemma {:induction false} AppendNewMembership<T>(base: seq<T>, incoming: seq<T>, x: T)
    ensures x in AppendNew(base, incoming) <==> x in base || x in incoming
    decreases |incoming|
  {
    if incoming != [] {
      var init := incoming[..|incoming| - 1];
      AppendNewMembership(base, init, x);
      assert incoming == init + [incoming[|incoming| - 1]];
    }
  }

  /** Every appended element is new with respect to `base`, and none is appended twice. */
  lemma {:induction false} AppendNewAppendsFresh<T>(base: seq<T>, incoming: seq<T>)
    ensures var r := AppendNew(base, incoming);
      NoDuplicates(r[|base|..]) && forall k :: |base| <= k < |r| ==> r[k] !in base
    decreases |incoming|
  {
    if incoming != [] {
      var init := incoming[..|incoming| - 1];
      var x := incoming[|incoming| - 1];
      var prev := AppendNew(base, init);
      AppendNewAppendsFresh(base, init);
      if x !in prev {
        var r := prev + [x];
        assert r[|base|..] == prev[|base|..] + [x];
        assert x !in prev[|base|..];
      }
    }
  }

  /** A list without duplicates keeps that property through the merge. */
  lemma AppendNewKeepsNoDuplicates<T>(base: seq<T>, incoming: seq<T>)
    requires NoDuplicates(base)
    ensures NoDuplicates(AppendNew(base, incoming))
  {
    var r := AppendNew(base, incoming);
    AppendNewAppendsFresh(base, incoming);
    forall i, j | 0 <= i < j < |r| ensures r[i] != r[j] {
      if j < |base| {
        assert r[i] == base[i] && r[j] == base[j];
      } else if i < |base| {
        assert r[i] == base[i];
      } else {
        assert r[i] == r[|base|..][i - |base|] && r[j] == r[|base|..][j - |base|];
      }
    }
  }

  /** Appending an element that is not yet present keeps a list free of duplicates. */
  lemma AppendAbsentKeepsNoDuplicates<T>(s: seq<T>, x: T)
    requires NoDuplicates(s) && x !in s
    ensures NoDuplicates(s + [x])
  {
  }

  /** Merging elements that are all present already changes nothing. */
  lemma {:induction false} AppendNewAllPresent<T>(base: seq<T>, incoming: seq<T>)
    requires forall x :: x in incoming ==> x in base
    ensures AppendNew(base, incoming) == base
    decreases |incoming|
  {
    if incoming != [] {
      var init := incoming[..|incoming| - 1];
      assert forall x :: x in init ==> x in incoming;
      AppendNewAllPresent(base, init);
      assert incoming[|incoming| - 1] in incoming;
    }
  }

  /** Merging the same elements a second time adds nothing. */
  lemma AppendNewIdempotent<T>(base: seq<T>, incoming: seq<T>)
    ensures AppendNew(AppendNew(base, incoming), incoming) == AppendNew(base, incoming)
  {
    var r := AppendNew(base, incoming);
    forall x | x in incoming ensures x in r {
      AppendNewMembership(base, incoming, x);
    }
    AppendNewAllPresent(r, incoming);
  }

  /** A sequence without duplicates has as many elements as its set. */
  lemma {:induction false} DistinctCardinality<T>(s: seq<T>)
    requires NoDuplicates(s)
    ensures |Elements(s)| == |s|
    decreases |s|
  {
    if s != [] {
      var init := s[..|s| - 1];
      var x := s[|s| - 1];
      assert NoDuplicates(init);
      DistinctCardinality(init);
      assert x !in init;
      assert Elements(s) == Elements(init) + {x};
    }
  }

  /**
   * The number of elements the merge appends is the number of distinct
   * incoming elements that `base` lacks.
   */
  lemma AppendNewCount<T>(base: seq<T>, incoming: seq<T>)
    ensures |AppendNew(base, incoming)| - |base| == |Elements(incoming) - Elements(base)|
  {
    var r := AppendNew(base, incoming);
    var tail := r[|base|..];
    AppendNewAppendsFresh(base, incoming);
    DistinctCardinality(tail);
    forall x ensures x in Elements(tail) <==> x in Elements(incoming) - Elements(base) {
      AppendNewMembership(base, incoming, x);
      if x in tail {
        var k :| 0 <= k < |tail| && tail[k] == x;
        assert r[|base| + k] == x;
      }
      if x in r && x !in base {
        var k :| 0 <= k < |r| && r[k] == x;
        assert k >= |base|;
        assert tail[k - |base|] == x;
      }
    }
    assert Elements(tail) == Elements(incoming) - Elements(base);
  }
}
