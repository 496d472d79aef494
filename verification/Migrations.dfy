/** The migration runner of src/c_orm_migrations.c: applying what is pending, rolling back what
    was applied, and what the applied log says after either, whichever call fails. */
module Migrations {
  import opened Optional
  import opened Sequences

  datatype Rc = Ok | Refused | NotFound | NotImplemented

  /** Running a script gives the new schema and whether it succeeded; one that fails may have
      changed the schema already. */
  type Script<!S> = S -> (S, bool)

  /** A missing or empty script is None. */
  datatype Migration<!S> = Migration(version: string, up: Option<Script<S>>, down: Option<Script<S>>)

  function Execute<S>(script: Option<Script<S>>, s: S): (S, bool) {
    if script.None? then (s, true) else script.value(s)
  }

  // ----- what the operations mean

  function Versions<S>(ms: seq<Migration<S>>): (vs: seq<string>)
    ensures |vs| == |ms| && forall i | 0 <= i < |vs| :: vs[i] == ms[i].version
  {
    seq(|ms|, i requires 0 <= i < |ms| => ms[i].version)
  }

  /** The migrations still to apply, in array order; a version the array repeats counts once. */
  function Pending<S>(log: seq<string>, ms: seq<Migration<S>>): seq<Migration<S>>
    decreases |ms|
  {
    if ms == [] then []
    else if ms[0].version in log then Pending(log, ms[1..])
    else [ms[0]] + Pending(log + [ms[0].version], ms[1..])
  }

  /** The schema after all these up scripts; None if one fails. */
  function RunUps<S>(s: S, ms: seq<Migration<S>>): Option<S>
    decreases |ms|
  {
    if ms == [] then Some(s)
    else
      var (s', ok) := Execute(ms[0].up, s);
      if ok then RunUps(s', ms[1..]) else None
  }

  /** The first migration of the array with this version. */
  function Find<S>(ms: seq<Migration<S>>, version: string): Option<Migration<S>> {
    if ms == [] then None else if ms[0].version == version then Some(ms[0]) else Find(ms[1..], version)
  }

  /** The schema after the down scripts of these versions, last one first; None if a version is
      unknown or a script fails. */
  function RunDowns<S>(s: S, ms: seq<Migration<S>>, versions: seq<string>): Option<S>
    decreases |versions|
  {
    if versions == [] then Some(s)
    else
      var last := |versions| - 1;
      var m := Find(ms, versions[last]);
      if m.None? then None
      else
        var (s', ok) := Execute(m.value.down, s);
        if ok then RunDowns(s', ms, versions[..last]) else None
  }

  predicate NoRepeats(log: seq<string>) {
    forall i, j | 0 <= i < j < |log| :: log[i] != log[j]
  }

  // ----- facts about what is pending

  lemma {:induction false} PendingIsNew<S>(log: seq<string>, ms: seq<Migration<S>>)
    requires NoRepeats(log)
    ensures NoRepeats(log + Versions(Pending(log, ms)))
    decreases |ms|
  {
    if ms == [] {
      assert log + Versions(Pending(log, ms)) == log;
    } else if ms[0].version in log {
      PendingIsNew(log, ms[1..]);
    } else {
      var log' := log + [ms[0].version];
      PendingIsNew(log', ms[1..]);
      PendingHead(log, ms);
    }
  }

  lemma PendingHead<S>(log: seq<string>, ms: seq<Migration<S>>)
    requires ms != [] && ms[0].version !in log
    ensures log + Versions(Pending(log, ms))
            == log + [ms[0].version] + Versions(Pending(log + [ms[0].version], ms[1..]))
  {
    var rest := Pending(log + [ms[0].version], ms[1..]);
    VersionsCons(ms[0], rest);
    Assoc(log, [ms[0].version], Versions(rest));
  }

  lemma VersionsCons<S>(m: Migration<S>, rest: seq<Migration<S>>)
    ensures Versions([m] + rest) == [m.version] + Versions(rest)
  {
    var all := [m] + rest;
    assert forall i | 0 < i < |all| :: all[i] == rest[i - 1];
  }

  /** Afterwards nothing is pending: a second call has nothing to do. */
  lemma {:induction false} NothingPendingAfter<S>(log: seq<string>, ms: seq<Migration<S>>)
    ensures Pending(log + Versions(Pending(log, ms)), ms) == []
    decreases |ms|
  {
    if ms != [] {
      if ms[0].version in log {
        NothingPendingAfter(log, ms[1..]);
      } else {
        NothingPendingAfter(log + [ms[0].version], ms[1..]);
        PendingHead(log, ms);
      }
    }
  }

  /** Every migration of the array is applied in the end, and nothing else is added. */
  lemma {:induction false} PendingCovers<S>(log: seq<string>, ms: seq<Migration<S>>, v: string)
    ensures v in log + Versions(Pending(log, ms)) <==> v in log || exists i :: 0 <= i < |ms| && ms[i].version == v
    decreases |ms|
  {
    if ms != [] {
      var rest := ms[1..];
      assert forall i | 0 < i < |ms| :: ms[i] == rest[i - 1];
      if ms[0].version in log {
        PendingCovers(log, rest, v);
      } else {
        PendingCovers(log + [ms[0].version], rest, v);
        PendingHead(log, ms);
      }
      assert (exists i :: 0 <= i < |ms| && ms[i].version == v) <==>
             ms[0].version == v || exists i :: 0 <= i < |rest| && rest[i].version == v;
    }
  }

  /** What is pending is found in the array under its own version: a repeated version is
      applied, and rolled back, by its first entry. */
  lemma {:induction false} PendingFound<S>(log: seq<string>, ms: seq<Migration<S>>, k: nat)
    requires k < |Pending(log, ms)|
    ensures Find(ms, Pending(log, ms)[k].version) == Some(Pending(log, ms)[k])
    ensures Pending(log, ms)[k].version !in log
    decreases |ms|
  {
    if ms[0].version in log {
      PendingFound(log, ms[1..], k);
    } else if k > 0 {
      PendingFound(log + [ms[0].version], ms[1..], k - 1);
      assert ms[0].version in log + [ms[0].version];
    }
  }

  // ----- the same, by position and script by script

  /** The places of the array whose version is neither logged nor at an earlier place. */
  ghost predicate NewPlaces<S>(log: seq<string>, ms: seq<Migration<S>>, places: seq<nat>) {
    Rising(places, |ms|) && forall k: nat | k < |ms| :: k in places <==> NewPlace(log, ms, k)
  }

  predicate NewPlace<S>(log: seq<string>, ms: seq<Migration<S>>, k: nat)
    requires k < |ms|
  {
    ms[k].version !in log && forall j | 0 <= j < k :: ms[j].version != ms[k].version
  }

  lemma {:induction false} PendingSplit<S>(log: seq<string>, a: seq<Migration<S>>, b: seq<Migration<S>>)
    ensures Pending(log, a + b) == Pending(log, a) + Pending(log + Versions(Pending(log, a)), b)
    decreases |a|
  {
    if a == [] {
      assert a + b == b && log + Versions(Pending(log, a)) == log;
    } else {
      assert (a + b)[1..] == a[1..] + b;
      if a[0].version in log {
        PendingSplit(log, a[1..], b);
      } else {
        var log' := log + [a[0].version];
        PendingSplit(log', a[1..], b);
        PendingHead(log, a);
        Assoc([a[0]], Pending(log', a[1..]), Pending(log' + Versions(Pending(log', a[1..])), b));
      }
    }
  }

  /** What is pending are the migrations at these places, in order. */
  lemma {:induction false} PendingAt<S>(log: seq<string>, ms: seq<Migration<S>>) returns (places: seq<nat>)
    ensures NewPlaces(log, ms, places) && Pending(log, ms) == At(ms, places)
  {
    if ms == [] {
      places := [];
    } else {
      var front, m := ms[..|ms| - 1], ms[|ms| - 1];
      assert ms == front + [m];
      places := PendingAt(log, front);
      var log' := log + Versions(Pending(log, front));
      PendingSplit(log, front, [m]);
      PendingCovers(log, front, m.version);
      assert [m][1..] == [] && Pending(log', [m]) == if m.version in log' then [] else [m];
      if m.version in log' {
        SamePlaces(front, m, places);
        OldBehind(log, front, m, places);
      } else {
        NewBehind(log, front, m, places);
        OnePlaceMore(front, m, places);
        places := places + [|front|];
      }
    }
  }

  lemma OldBehind<S>(log: seq<string>, front: seq<Migration<S>>, m: Migration<S>, places: seq<nat>)
    requires NewPlaces(log, front, places)
    requires m.version in log || exists i :: 0 <= i < |front| && front[i].version == m.version
    ensures NewPlaces(log, front + [m], places)
  {
    var ms := front + [m];
    assert forall j | 0 <= j < |front| :: ms[j] == front[j];
    forall k: nat | k < |ms|
      ensures k in places <==> NewPlace(log, ms, k)
    {
      if k < |front| { assert NewPlace(log, ms, k) <==> NewPlace(log, front, k); }
    }
  }

  lemma NewBehind<S>(log: seq<string>, front: seq<Migration<S>>, m: Migration<S>, places: seq<nat>)
    requires NewPlaces(log, front, places)
    requires m.version !in log && forall i | 0 <= i < |front| :: front[i].version != m.version
    ensures NewPlaces(log, front + [m], places + [|front|])
  {
    var ms := front + [m];
    var last: nat := |front|;
    var more: seq<nat> := places + [last];
    assert forall j | 0 <= j < last :: ms[j] == front[j];
    assert more[|places|] == last;
    forall k: nat | k < |ms|
      ensures k in more <==> NewPlace(log, ms, k)
    {
      assert k in more <==> k in places || k == last;
      if k < last { assert NewPlace(log, ms, k) <==> NewPlace(log, front, k); }
    }
  }

  /** The script succeeded, and its own result is the new schema; a missing one changes nothing. */
  predicate Ran<S(==)>(script: Option<Script<S>>, before: S, after: S) {
    if script.None? then after == before else script.value(before) == (after, true)
  }

  /** The schemas that the up scripts go through, from s to t. */
  ghost predicate UpTrace<S(!new)>(ms: seq<Migration<S>>, s: S, t: S, trace: seq<S>) {
    && |trace| == |ms| + 1 && trace[0] == s && trace[|ms|] == t
    && forall i | 0 <= i < |ms| :: UpStep(ms, trace, i)
  }

  ghost predicate UpStep<S(!new)>(ms: seq<Migration<S>>, trace: seq<S>, i: nat)
    requires i < |ms| && |trace| == |ms| + 1
  {
    Ran(ms[i].up, trace[i], trace[i + 1])
  }

  lemma {:induction false} RunUpsTrace<S(!new)>(s: S, ms: seq<Migration<S>>, t: S)
    ensures RunUps(s, ms) == Some(t) <==> exists trace :: UpTrace(ms, s, t, trace)
    decreases |ms|
  {
    if ms == [] {
      if s == t { assert UpTrace(ms, s, t, [s]); }
    } else {
      var (next, ok) := Execute(ms[0].up, s);
      RunUpsTrace(next, ms[1..], t);
      if ok && RunUps(next, ms[1..]) == Some(t) {
        var trace :| UpTrace(ms[1..], next, t, trace);
        var all := [s] + trace;
        forall i | 0 <= i < |ms|
          ensures UpStep(ms, all, i)
        {
          if i > 0 { assert UpStep(ms[1..], trace, i - 1); }
        }
        assert UpTrace(ms, s, t, all);
      }
      if trace :| UpTrace(ms, s, t, trace) {
        assert UpStep(ms, trace, 0);
        forall i | 0 <= i < |ms| - 1
          ensures UpStep(ms[1..], trace[1..], i)
        {
          assert UpStep(ms, trace, i + 1);
        }
        assert UpTrace(ms[1..], next, t, trace[1..]);
      }
    }
  }

  /** The log grew by the migrations at the new places of the array, and their scripts' own results follow
      one another from the old schema to the new one. */
  ghost predicate AllApplied<S(!new)>(ms: seq<Migration<S>>, log0: seq<string>, s0: S, log: seq<string>, s: S) {
    exists places: seq<nat> :: AppliedAt(ms, log0, s0, log, s, places)
  }

  ghost predicate AppliedAt<S(!new)>(ms: seq<Migration<S>>, log0: seq<string>, s0: S, log: seq<string>, s: S,
                                     places: seq<nat>)
  {
    && NewPlaces(log0, ms, places) && log == log0 + Versions(At(ms, places))
    && exists trace :: UpTrace(At(ms, places), s0, s, trace)
  }

  lemma PendingApplied<S(!new)>(ms: seq<Migration<S>>, log0: seq<string>, s0: S, s: S)
    requires RunUps(s0, Pending(log0, ms)) == Some(s)
    ensures AllApplied(ms, log0, s0, log0 + Versions(Pending(log0, ms)), s)
  {
    var places := PendingAt(log0, ms);
    RunUpsTrace(s0, Pending(log0, ms), s);
    assert AppliedAt(ms, log0, s0, log0 + Versions(Pending(log0, ms)), s, places);
  }

  /** k is the first place of the array with this version. */
  predicate FirstWith<S>(ms: seq<Migration<S>>, version: string, k: nat) {
    k < |ms| && ms[k].version == version && forall j | 0 <= j < k :: ms[j].version != version
  }

  lemma {:induction false} FindIs<S>(ms: seq<Migration<S>>, version: string, k: nat)
    requires FirstWith(ms, version, k)
    ensures Find(ms, version) == Some(ms[k])
  {
    if k > 0 {
      FindIs(ms[1..], version, k - 1);
    }
  }

  lemma {:induction false} FoundAt<S>(ms: seq<Migration<S>>, version: string) returns (k: nat)
    requires Find(ms, version).Some?
    ensures FirstWith(ms, version, k)
  {
    if ms[0].version == version {
      k := 0;
    } else {
      k := FoundAt(ms[1..], version);
      k := k + 1;
      assert forall j | 0 < j < |ms| :: ms[j] == ms[1..][j - 1];
    }
  }

  /** The schemas that the down scripts of these versions go through, the last version first. */
  ghost predicate DownTrace<S(!new)>(ms: seq<Migration<S>>, versions: seq<string>, s: S, t: S, trace: seq<S>) {
    && |trace| == |versions| + 1 && trace[|versions|] == s && trace[0] == t
    && forall i | 0 <= i < |versions| :: DownStep(ms, versions, trace, i)
  }

  ghost predicate DownStep<S(!new)>(ms: seq<Migration<S>>, versions: seq<string>, trace: seq<S>, i: nat)
    requires i < |versions| && |trace| == |versions| + 1
  {
    exists k: nat :: FirstWith(ms, versions[i], k) && Ran(ms[k].down, trace[i + 1], trace[i])
  }

  /** Each down script's own result is where the next one, of the version before, starts. */
  ghost predicate RolledBack<S(!new)>(ms: seq<Migration<S>>, versions: seq<string>, s: S, t: S) {
    exists trace :: DownTrace(ms, versions, s, t, trace)
  }

  lemma {:induction false} RunDownsTrace<S(!new)>(s: S, ms: seq<Migration<S>>, versions: seq<string>, t: S)
    requires RunDowns(s, ms, versions) == Some(t)
    ensures RolledBack(ms, versions, s, t)
    decreases |versions|
  {
    if versions == [] {
      assert DownTrace(ms, versions, s, t, [s]);
    } else {
      var last: nat := |versions| - 1;
      var k := FoundAt(ms, versions[last]);
      FindIs(ms, versions[last], k);
      var next := Execute(ms[k].down, s).0;
      RunDownsTrace(next, ms, versions[..last], t);
      var trace :| DownTrace(ms, versions[..last], next, t, trace);
      var all := trace + [s];
      forall i | 0 <= i < |versions|
        ensures DownStep(ms, versions, all, i)
      {
        if i < last {
          assert DownStep(ms, versions[..last], trace, i);
        } else {
          assert all[last] == next && all[last + 1] == s;
          assert FirstWith(ms, versions[last], k) && Ran(ms[k].down, all[last + 1], all[last]);
        }
      }
      assert DownTrace(ms, versions, s, t, all);
    }
  }

  // ----- undoing what was applied

  /** Each down script takes back what its up script did. */
  ghost predicate DownsUndo<S(!new)>(ms: seq<Migration<S>>) {
    forall i, s: S | 0 <= i < |ms| && Execute(ms[i].up, s).1 ::
      Execute(ms[i].down, Execute(ms[i].up, s).0) == (s, true)
  }

  lemma {:induction false} UpsSplit<S>(s: S, a: seq<Migration<S>>, b: seq<Migration<S>>)
    ensures RunUps(s, a + b) == var mid := RunUps(s, a); if mid.None? then None else RunUps(mid.value, b)
    decreases |a|
  {
    if a == [] {
      assert a + b == b;
    } else {
      assert (a + b)[1..] == a[1..] + b;
      UpsSplit(Execute(a[0].up, s).0, a[1..], b);
    }
  }

  /** Rolling back exactly what was applied restores the schema. */
  lemma {:induction false} DownsAfterUps<S(!new)>(s: S, ms: seq<Migration<S>>, applied: seq<Migration<S>>)
    requires DownsUndo(applied) && RunUps(s, applied).Some?
    requires forall k | 0 <= k < |applied| :: Find(ms, applied[k].version) == Some(applied[k])
    ensures RunDowns(RunUps(s, applied).value, ms, Versions(applied)) == Some(s)
    decreases |applied|
  {
    if applied != [] {
      var last := |applied| - 1;
      var m := applied[last];
      assert applied == applied[..last] + [m];
      UpsSplit(s, applied[..last], [m]);
      var mid := RunUps(s, applied[..last]).value;
      assert [m][1..] == [];
      var end := Execute(m.up, mid).0;
      assert RunUps(mid, [m]) == Some(end) && Execute(m.up, mid).1;
      assert Execute(applied[last].down, Execute(applied[last].up, mid).0) == (mid, true);
      assert Versions(applied)[last] == m.version && Find(ms, m.version) == Some(m);
      DownsAfterUps(s, ms, applied[..last]);
      assert Versions(applied)[..last] == Versions(applied[..last]);
    }
  }

  /** Applying what is pending and rolling back as many steps restores schema and log. With
      nothing pending the step count would be 0, which asks for everything. */
  lemma RoundTrip<S(!new)>(s: S, log: seq<string>, ms: seq<Migration<S>>)
    requires DownsUndo(Pending(log, ms)) && RunUps(s, Pending(log, ms)).Some?
    ensures var k := |Pending(log, ms)|;
            var log' := log + Versions(Pending(log, ms));
            && RunDowns(RunUps(s, Pending(log, ms)).value, ms, log'[|log'| - k..]) == Some(s)
            && log'[..|log'| - k] == log
            && Steps(k, |log'|) == (if k > 0 then k else |log'|)
  {
    var ps := Pending(log, ms);
    forall k | 0 <= k < |ps| ensures Find(ms, ps[k].version) == Some(ps[k]) {
      PendingFound(log, ms, k);
    }
    DownsAfterUps(s, ms, ps);
    var log' := log + Versions(ps);
    assert log'[|log'| - |ps|..] == Versions(ps);
  }

  /** How many entries a rollback of `steps` takes off a log of n. */
  function Steps(steps: nat, n: nat): (k: nat)
    ensures k <= n && (steps == 0 ==> k == n) && (steps > 0 ==> k <= steps && (k == n || k == steps))
  {
    if steps == 0 || steps > n then n else steps
  }
}
