/** Mine placement at the start of a game: rejection sampling of distinct
    cell indices from a stream of uniform draws in [0, CellCount). The
    random source is replaced by the sequence of values it returns. */
module Placement {
  import opened Grid

  datatype Option<T> = None | Some(value: T)

  /** Pairwise-distinct elements. */
  predicate Distinct(s: seq<int>) {
    forall i, j | 0 <= i < j < |s| :: s[i] != s[j]
  }

  /** The distinct values of `s`, each kept at its first occurrence: the list
      that draw-and-retry-on-duplicate builds from the draws `s`. */
  function FirstOccurrences(s: seq<int>): (d: seq<int>)
    ensures Distinct(d)
    ensures forall x :: x in d <==> x in s
    ensures |d| <= |s|
  {
    if |s| == 0 then []
    else
      var rest := FirstOccurrences(s[..|s| - 1]);
      var x := s[|s| - 1];
      assert forall y :: y in s <==> y in s[..|s| - 1] || y == x by {
        assert s == s[..|s| - 1] + [x];
      }
      if x in rest then rest else rest + [x]
  }

  /** The first-occurrence list of a prefix is a prefix of the whole list:
      later draws only ever append. */
  lemma {:induction false} FirstOccurrencesPrefix(s: seq<int>, i: nat)
    requires i <= |s|
    ensures FirstOccurrences(s[..i]) <= FirstOccurrences(s)
    decreases |s| - i
  {
    if i < |s| {
      FirstOccurrencesPrefix(s, i + 1);
      assert s[..i + 1][..i] == s[..i];
    } else {
      assert s[..i] == s;
    }
  }

  /** One more draw: it is appended exactly when it was not chosen yet. */
  lemma FirstOccurrencesStep(s: seq<int>, i: nat)
    requires i < |s|
    ensures FirstOccurrences(s[..i + 1]) ==
      if s[i] in FirstOccurrences(s[..i]) then FirstOccurrences(s[..i])
      else FirstOccurrences(s[..i]) + [s[i]]
  {
    assert s[..i + 1][..i] == s[..i];
  }

  /** A list of distinct values is as long as the set of its values. */
  lemma {:induction false} DistinctCardinality(d: seq<int>)
    requires Distinct(d)
    ensures |set x | x in d| == |d|
  {
    if |d| > 0 {
      var init := d[..|d| - 1];
      DistinctCardinality(init);
      assert (set x | x in d) == (set x | x in init) + {d[|d| - 1]} by {
        assert d == init + [d[|d| - 1]];
      }
      assert d[|d| - 1] !in init;
    }
  }

  /** The number of different values among the draws. */
  lemma DistinctDraws(s: seq<int>)
    ensures |FirstOccurrences(s)| == |set x | x in s|
  {
    var d := FirstOccurrences(s);
    DistinctCardinality(d);
    assert (set x | x in d) == (set x | x in s);
  }

  /** What is known once the loop has chosen BombCount indices after
      consuming `used` draws. */
  lemma PlacementComplete(draws: seq<int>, used: nat)
    requires forall i | 0 <= i < |draws| :: ValidIndex(draws[i])
    requires 0 < used <= |draws|
    requires |FirstOccurrences(draws[..used])| == BombCount
    requires |FirstOccurrences(draws[..used - 1])| < BombCount
    ensures |set x | x in draws| >= BombCount
    ensures |FirstOccurrences(draws[..used - 1])| == BombCount - 1
    ensures forall x | x in FirstOccurrences(draws[..used]) :: ValidIndex(x)
  {
    DistinctDraws(draws);
    FirstOccurrencesPrefix(draws, used);
    assert draws[..used][..used - 1] == draws[..used - 1];
    forall x | x in FirstOccurrences(draws[..used])
      ensures ValidIndex(x)
    {
      assert x in draws[..used];
    }
  }

  /** What is known when the draws run out before BombCount indices are
      chosen: there are fewer than BombCount different values to draw. */
  lemma PlacementExhausted(draws: seq<int>, used: nat)
    requires used == |draws|
    requires |FirstOccurrences(draws[..used])| < BombCount
    ensures |set x | x in draws| < BombCount
  {
    assert draws[..used] == draws;
    DistinctDraws(draws);
  }

  /** The bomb placement loop of setupBoard. It keeps drawing while fewer
      than BombCount indices are chosen and adds every draw not chosen yet.
      `used` is the number of draws consumed; the result is None when the
      draws run out first. */
  method PlaceMines(draws: seq<int>) returns (r: Option<seq<int>>, used: nat)
    requires forall i | 0 <= i < |draws| :: ValidIndex(draws[i])
    ensures used <= |draws|
    ensures r.Some? <==> |set x | x in draws| >= BombCount
    ensures r.Some? ==> r.value == FirstOccurrences(draws[..used])
    ensures r.Some? ==> 0 < used && |FirstOccurrences(draws[..used - 1])| == BombCount - 1
    ensures r.Some? ==> |r.value| == BombCount && Distinct(r.value)
    ensures r.Some? ==> forall i | 0 <= i < |r.value| :: ValidIndex(r.value[i])
    ensures r.None? ==> used == |draws|
  {
    var chosen: seq<int> := [];
    used := 0;
    while |chosen| < BombCount && used < |draws|
      invariant used <= |draws|
      invariant chosen == FirstOccurrences(draws[..used])
      invariant |chosen| <= BombCount
      invariant 0 < used ==> |FirstOccurrences(draws[..used - 1])| < BombCount
    {
      FirstOccurrencesStep(draws, used);
      var idx := draws[used];
      if idx !in chosen {
        chosen := chosen + [idx];
      }
      assert chosen == FirstOccurrences(draws[..used + 1]);
      used := used + 1;
    }
    if |chosen| == BombCount {
      PlacementComplete(draws, used);
      r := Some(chosen);
    } else {
      PlacementExhausted(draws, used);
      r := None;
    }
  }
}
