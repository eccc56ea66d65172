/** The schedule builder. Intersections fed by exactly one street get a
    one-phase cycle for that street. For the other intersections the builder
    counts how often each street name occurs over the kept cars' routes and
    keeps only the incoming streets that occur, but the step that would turn
    those into cycles is switched off by a constant-false guard, so such
    intersections never get a cycle. */
module Scheduler {
  import opened Network
  import opened Sums

  /** The source wraps the emission of cycles for intersections with several
      incoming streets in a literal `if false`. */
  const EmitContendedCycles: bool := false

  /** How many times `name` occurs in one route. */
  function UsesIn(name: StreetName): seq<StreetName> -> int
  {
    path => multiset(path)[name]
  }

  /** How many times `name` occurs over all routes: a street driven twice on
      one route counts twice. This is the reference the counting fold is
      checked against. */
  function Uses(paths: seq<seq<StreetName>>, name: StreetName): int
  {
    SumOf(paths, UsesIn(name))
  }

  /** The count recorded for `name`, zero when it has no entry. */
  function Get(counts: map<StreetName, nat>, name: StreetName): nat
  {
    if name in counts then counts[name] else 0
  }

  /** Records one more use of `name`: an existing entry goes up by one, a
      missing one is created at one. */
  function Bump(counts: map<StreetName, nat>, name: StreetName): (r: map<StreetName, nat>)
    ensures r.Keys == counts.Keys + {name}
    ensures Get(r, name) == Get(counts, name) + 1
    ensures forall other :: other != name ==> Get(r, other) == Get(counts, other)
  {
    if name in counts then counts[name := counts[name] + 1] else counts[name := 1]
  }

  /** Records every street of one route, in route order. */
  function TallyRoute(counts: map<StreetName, nat>, path: seq<StreetName>): (r: map<StreetName, nat>)
    ensures r.Keys == counts.Keys + set n | n in path
    ensures forall n :: Get(r, n) == Get(counts, n) + multiset(path)[n]
    decreases |path|
  {
    if |path| == 0 then counts
    else
      var r := TallyRoute(Bump(counts, path[0]), path[1..]);
      TallyRouteStep(counts, path, r);
      r
  }

  /** One step of the route tally: recording the first street and then the
      rest of the route records the whole route. */
  lemma TallyRouteStep(counts: map<StreetName, nat>, path: seq<StreetName>, r: map<StreetName, nat>)
    requires |path| >= 1
    requires r.Keys == Bump(counts, path[0]).Keys + set n | n in path[1..]
    requires forall n :: Get(r, n) == Get(Bump(counts, path[0]), n) + multiset(path[1..])[n]
    ensures r.Keys == counts.Keys + set n | n in path
    ensures forall n :: Get(r, n) == Get(counts, n) + multiset(path)[n]
  {
    assert path == [path[0]] + path[1..];
    assert (set n | n in path) == {path[0]} + set n | n in path[1..];
    forall n ensures Get(r, n) == Get(counts, n) + multiset(path)[n] {
      assert multiset(path)[n] == (if n == path[0] then 1 else 0) + multiset(path[1..])[n];
    }
  }

  /** Records every route in turn. */
  function TallyRoutes(counts: map<StreetName, nat>, paths: seq<seq<StreetName>>): (r: map<StreetName, nat>)
    ensures forall n :: n in r <==> n in counts || Uses(paths, n) > 0
    ensures forall n :: Get(r, n) == Get(counts, n) + Uses(paths, n)
    decreases |paths|
  {
    if |paths| == 0 then counts
    else
      var r := TallyRoutes(TallyRoute(counts, paths[0]), paths[1..]);
      assert forall n :: Uses(paths, n) == multiset(paths[0])[n] + Uses(paths[1..], n);
      assert forall n :: Uses(paths[1..], n) >= 0 by {
        forall n ensures Uses(paths[1..], n) >= 0 {
          SumOfNonNegative(paths[1..], UsesIn(n));
        }
      }
      r
  }

  /** The street-use count over the given routes: a name has an entry exactly
      when some route uses it, and the entry is its number of occurrences
      over all routes. */
  function CountStreetUses(paths: seq<seq<StreetName>>): (counts: map<StreetName, nat>)
    ensures forall n :: n in counts <==> exists k :: 0 <= k < |paths| && n in paths[k]
    ensures forall n :: n in counts ==> counts[n] == Uses(paths, n)
  {
    var counts := TallyRoutes(map[], paths);
    forall n ensures n in counts <==> exists k :: 0 <= k < |paths| && n in paths[k] {
      UsedSomewhere(paths, n);
    }
    counts
  }

  /** A name has a positive use count exactly when some route contains it. */
  lemma {:induction false} UsedSomewhere(paths: seq<seq<StreetName>>, n: StreetName)
    ensures Uses(paths, n) > 0 <==> exists k :: 0 <= k < |paths| && n in paths[k]
  {
    if |paths| > 0 {
      UsedSomewhere(paths[1..], n);
      SumOfNonNegative(paths[1..], UsesIn(n));
      if n in paths[0] {
        assert 0 <= 0 < |paths| && n in paths[0];
      }
      if exists k :: 0 <= k < |paths| && n in paths[k] {
        var k :| 0 <= k < |paths| && n in paths[k];
        if k > 0 {
          assert n in paths[1..][k - 1];
        }
      }
      if exists k :: 0 <= k < |paths[1..]| && n in paths[1..][k] {
        var k :| 0 <= k < |paths[1..]| && n in paths[1..][k];
        assert n in paths[k + 1];
      }
    }
  }

  /** The count does not depend on the order in which the cars are visited. */
  lemma CountIgnoresCarOrder(paths: seq<seq<StreetName>>, reordered: seq<seq<StreetName>>)
    requires multiset(paths) == multiset(reordered)
    ensures CountStreetUses(paths) == CountStreetUses(reordered)
  {
    var a, b := CountStreetUses(paths), CountStreetUses(reordered);
    forall n ensures Uses(paths, n) == Uses(reordered, n) {
      SumOfPermutation(paths, reordered, UsesIn(n));
    }
    forall n ensures n in a <==> n in b {
      UsedSomewhere(paths, n);
      UsedSomewhere(reordered, n);
    }
  }

  /** `sub` is `whole` with some elements deleted, the rest in their original order. */
  predicate IsSubsequence(sub: seq<StreetName>, whole: seq<StreetName>)
    decreases |whole|
  {
    if |sub| == 0 then true
    else if |whole| == 0 then false
    else if sub[0] == whole[0] then IsSubsequence(sub[1..], whole[1..])
    else IsSubsequence(sub, whole[1..])
  }

  /** Keeps the incoming streets that the count has an entry for. The result
      keeps their relative order and has every kept street as often as the
      input has it, and no other street. */
  function FilterUsed(incoming: seq<StreetName>, counts: map<StreetName, nat>): (kept: seq<StreetName>)
    ensures IsSubsequence(kept, incoming)
    ensures forall n :: multiset(kept)[n] == if n in counts then multiset(incoming)[n] else 0
  {
    if |incoming| == 0 then []
    else
      var rest := FilterUsed(incoming[1..], counts);
      assert incoming == [incoming[0]] + incoming[1..];
      if incoming[0] in counts then
        assert ([incoming[0]] + rest)[1..] == rest;
        [incoming[0]] + rest
      else rest
  }

  /** Filtering a second time changes nothing. */
  lemma {:induction false} FilterUsedIdempotent(incoming: seq<StreetName>, counts: map<StreetName, nat>)
    ensures FilterUsed(FilterUsed(incoming, counts), counts) == FilterUsed(incoming, counts)
  {
    if |incoming| > 0 {
      FilterUsedIdempotent(incoming[1..], counts);
      var rest := FilterUsed(incoming[1..], counts);
      if incoming[0] in counts {
        assert ([incoming[0]] + rest)[1..] == rest;
      }
    }
  }

  /** The routes of the kept cars, in the order the problem lists the cars. */
  function Routes(p: Problem): (paths: seq<seq<StreetName>>)
    requires p.CarsResolve()
    ensures |paths| == |p.cars|
    ensures forall k :: 0 <= k < |p.cars| ==> paths[k] == p.fleet[p.cars[k]].path
  {
    seq(|p.cars|, k requires 0 <= k < |p.cars| => p.fleet[p.cars[k]].path)
  }

  /** The cycle the disabled branch would give an intersection: each
      remaining incoming street green for one second, in order. */
  function ContendedCycles(contended: map<nat, Intersection>): (lights: Schedule)
    ensures lights.Keys == contended.Keys
    ensures forall id :: id in lights ==> |lights[id]| == |contended[id].incoming|
    ensures forall id, k :: id in lights && 0 <= k < |lights[id]| ==> lights[id][k] == (contended[id].incoming[k], 1)
  {
    map id | id in contended :: seq(|contended[id].incoming|, k requires 0 <= k < |contended[id].incoming| => (contended[id].incoming[k], 1))
  }

  /** Every remaining intersection with its incoming streets restricted to
      those the count table has. */
  function DropUndriven(contended: map<nat, Intersection>, counts: map<StreetName, nat>): (filtered: map<nat, Intersection>)
    ensures filtered.Keys == contended.Keys
    ensures forall id :: id in filtered ==> filtered[id].incoming == FilterUsed(contended[id].incoming, counts)
  {
    map id | id in contended :: contended[id].(incoming := FilterUsed(contended[id].incoming, counts))
  }

  /** Some route drives through `name`. */
  predicate Driven(paths: seq<seq<StreetName>>, name: StreetName)
  {
    exists r :: 0 <= r < |paths| && name in paths[r]
  }

  /** Under the disabled branch, the cycle of a contended intersection gives
      one second to each phase, and its streets are exactly the incoming
      streets that some route drives through. */
  lemma ContendedCycleIsDriven(contended: map<nat, Intersection>, paths: seq<seq<StreetName>>, id: nat, name: StreetName)
    requires id in contended
    ensures var lights := ContendedCycles(DropUndriven(contended, CountStreetUses(paths)));
            && id in lights
            && (forall k :: 0 <= k < |lights[id]| ==> lights[id][k].1 == 1)
            && ((exists k :: 0 <= k < |lights[id]| && lights[id][k].0 == name)
                <==> name in contended[id].incoming && Driven(paths, name))
  {
    var counts := CountStreetUses(paths);
    var filtered := DropUndriven(contended, counts);
    CycleListsIncoming(filtered, id, name);
    FilterUsedKeeps(contended[id].incoming, counts, name);
    CountedIffDriven(paths, name);
  }

  /** The count table has a name exactly when some route drives through it. */
  lemma CountedIffDriven(paths: seq<seq<StreetName>>, name: StreetName)
    ensures name in CountStreetUses(paths) <==> Driven(paths, name)
  {
  }

  /** A name is on a cycle of the disabled branch exactly when it is one of
      the intersection's (remaining) incoming streets. */
  lemma CycleListsIncoming(filtered: map<nat, Intersection>, id: nat, name: StreetName)
    requires id in filtered
    ensures var cycle := ContendedCycles(filtered)[id];
            (exists k :: 0 <= k < |cycle| && cycle[k].0 == name) <==> name in filtered[id].incoming
  {
    var kept := filtered[id].incoming;
    var cycle := ContendedCycles(filtered)[id];
    if exists k :: 0 <= k < |cycle| && cycle[k].0 == name {
      var k :| 0 <= k < |cycle| && cycle[k].0 == name;
      assert kept[k] == name;
    }
    if name in kept {
      var k :| 0 <= k < |kept| && kept[k] == name;
      assert cycle[k].0 == name;
    }
  }

  /** The filter keeps a name exactly when it is incoming and counted. */
  lemma FilterUsedKeeps(incoming: seq<StreetName>, counts: map<StreetName, nat>, name: StreetName)
    ensures name in FilterUsed(incoming, counts) <==> name in incoming && name in counts
  {
    var kept := FilterUsed(incoming, counts);
    assert name in kept <==> multiset(kept)[name] > 0;
    assert name in incoming <==> multiset(incoming)[name] > 0;
  }

  /** Under the disabled branch a contended intersection would get an empty
      cycle exactly when no route drives through any of its incoming streets;
      the lookup panics on such a cycle. */
  lemma ContendedCycleEmpty(contended: map<nat, Intersection>, paths: seq<seq<StreetName>>, id: nat)
    requires id in contended
    ensures var lights := ContendedCycles(DropUndriven(contended, CountStreetUses(paths)));
            id in lights
            && (|lights[id]| == 0 <==> forall j :: 0 <= j < |contended[id].incoming| ==> !Driven(paths, contended[id].incoming[j]))
  {
    var counts := CountStreetUses(paths);
    var incoming := contended[id].incoming;
    FilterUsedEmpty(incoming, counts);
    forall j | 0 <= j < |incoming| ensures incoming[j] in counts <==> Driven(paths, incoming[j]) {
      CountedIffDriven(paths, incoming[j]);
    }
  }

  /** The filter leaves nothing exactly when no incoming street is counted. */
  lemma {:induction false} FilterUsedEmpty(incoming: seq<StreetName>, counts: map<StreetName, nat>)
    ensures |FilterUsed(incoming, counts)| == 0 <==> forall j :: 0 <= j < |incoming| ==> incoming[j] !in counts
  {
    if |incoming| > 0 {
      FilterUsedEmpty(incoming[1..], counts);
      assert forall j :: 1 <= j < |incoming| ==> incoming[j] == incoming[1..][j - 1];
    }
  }

  /** The schedule builder. */
  function Solve(p: Problem): (lights: Schedule)
    requires p.CarsResolve()
    ensures forall id :: id in lights <==> id in p.intersections && |p.intersections[id].incoming| == 1
    ensures forall id :: id in lights ==> lights[id] == [(p.intersections[id].incoming[0], 1)]
  {
    var single := map id | id in p.intersections && |p.intersections[id].incoming| == 1
                    :: [(p.intersections[id].incoming[0], 1)];
    var contended := map id | id in p.intersections && |p.intersections[id].incoming| > 1 :: p.intersections[id];
    var counts := CountStreetUses(Routes(p));
    if EmitContendedCycles then single + ContendedCycles(DropUndriven(contended, counts)) else single
  }
}
