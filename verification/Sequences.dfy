/** Facts about sequences that the solver does not use on its own. */
module Sequences {

  lemma Assoc<T>(a: seq<T>, b: seq<T>, c: seq<T>)
    ensures (a + b) + c == a + (b + c)
  {
  }

  lemma TakeSlice<T>(s: seq<T>, k: nat, a: nat, b: nat)
    requires a <= b <= k <= |s|
    ensures s[..k][a..b] == s[a..b]
  {
  }

  /** Places below n, each once and in order. */
  predicate Rising(places: seq<nat>, n: nat) {
    && (forall i | 0 <= i < |places| :: places[i] < n)
    && forall i, j | 0 <= i < j < |places| :: places[i] < places[j]
  }

  /** The elements at some places. */
  function At<T>(s: seq<T>, places: seq<nat>): (r: seq<T>)
    requires forall i | 0 <= i < |places| :: places[i] < |s|
    ensures |r| == |places| && forall i | 0 <= i < |r| :: r[i] == s[places[i]]
  {
    seq(|places|, i requires 0 <= i < |places| => s[places[i]])
  }

  lemma SamePlaces<T>(front: seq<T>, last: T, places: seq<nat>)
    requires Rising(places, |front|)
    ensures At(front + [last], places) == At(front, places)
  {
  }

  lemma OnePlaceMore<T>(front: seq<T>, last: T, places: seq<nat>)
    requires Rising(places, |front|) && Rising(places + [|front|], |front| + 1)
    ensures At(front + [last], places + [|front|]) == At(front, places) + [last]
  {
  }

  lemma ConsAppend<T>(a: seq<T>, b: seq<T>)
    requires a != []
    ensures (a + b)[0] == a[0] && (a + b)[1..] == a[1..] + b
  {
  }
}
