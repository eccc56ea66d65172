/** The traffic-light lookup. The source walks the cycle one second at a
    time from its first phase, but rebinds the requested time to zero before
    the walk, so the answer only ever looks at the first phase. The walk is
    modelled for any number of seconds, and compared with the cyclic
    position given by the cumulative phase durations. */
module Lights {
  import opened Network
  import opened Sums
  import Scheduler

  function Duration(phase: Phase): int { phase.1 }

  /** Sum of the durations of the first `k` phases. */
  function Prefix(times: seq<Phase>, k: nat): int
    requires k <= |times|
  {
    SumOf(times[..k], Duration)
  }

  /** Length of one full cycle, in seconds. */
  function CycleLength(times: seq<Phase>): (length: int)
    ensures AllPhasesTimed(times) ==> length >= |times|
  {
    TimedCycleLength(times);
    SumOf(times, Duration)
  }

  lemma {:induction false} TimedCycleLength(times: seq<Phase>)
    ensures AllPhasesTimed(times) ==> SumOf(times, Duration) >= |times|
  {
    if |times| > 0 {
      TimedCycleLength(times[1..]);
      assert AllPhasesTimed(times) ==> AllPhasesTimed(times[1..]);
    }
  }

  /** Every phase lasts at least one second. */
  predicate AllPhasesTimed(times: seq<Phase>)
  {
    forall k :: 0 <= k < |times| ==> times[k].1 >= 1
  }

  /** The phase that is green `offset` seconds into a cycle: the first one
      whose cumulative end lies beyond `offset`. */
  function ActiveEntry(times: seq<Phase>, offset: nat): (k: nat)
    requires |times| >= 1
    ensures k < |times|
  {
    if |times| == 1 || offset < times[0].1 then 0
    else 1 + ActiveEntry(times[1..], offset - times[0].1)
  }

  lemma PrefixStep(times: seq<Phase>, k: nat)
    requires k < |times|
    ensures Prefix(times, k + 1) == Prefix(times, k) + times[k].1
    ensures Prefix(times, k + 1) <= CycleLength(times)
  {
    assert times[..k + 1] == times[..k] + [times[k]];
    SumOfConcat(times[..k], [times[k]], Duration);
    SumOfPrefix(times, k + 1, Duration);
  }

  /** The phase whose cumulative window contains the offset is the active one. */
  lemma {:induction false} ActiveEntryInWindow(times: seq<Phase>, i: nat, offset: nat)
    requires i < |times|
    requires Prefix(times, i) <= offset < Prefix(times, i) + times[i].1
    ensures ActiveEntry(times, offset) == i
  {
    if i > 0 {
      assert times[..i] == [times[0]] + times[1..][..i - 1];
      assert Prefix(times, i) == times[0].1 + Prefix(times[1..], i - 1);
      SumOfNonNegative(times[1..][..i - 1], Duration);
      ActiveEntryInWindow(times[1..], i - 1, offset - times[0].1);
    }
  }

  /** A number written as whole cycles plus a remainder below the cycle
      length has that remainder modulo the cycle length. */
  lemma ModUnique(n: nat, cycle: nat, laps: nat, rem: nat)
    requires cycle >= 1 && rem < cycle && n == laps * cycle + rem
    ensures n % cycle == rem
  {
    var q, r := n / cycle, n % cycle;
    MulSub(laps, q, cycle);
    MulSub(q, laps, cycle);
    MulAtLeast(laps - q, cycle);
    MulAtLeast(q - laps, cycle);
  }

  lemma MulSub(a: int, b: int, c: int)
    ensures a * c - b * c == (a - b) * c
  {
  }

  lemma MulAtLeast(d: int, c: nat)
    ensures d >= 1 ==> d * c >= c
  {
  }

  /** Where the walk stands: the phase index and the seconds left in it. */
  datatype WalkState = WalkState(index: nat, toGo: nat)

  /** The loop of the lookup run for `steps` seconds: at each second, a phase
      with no time left hands over to the next phase (wrapping around), and
      then one second is taken off. Taking a second off a phase that has none
      is an unsigned underflow, a panic, modelled as `None`. */
  method CycleWalk(times: seq<Phase>, steps: nat) returns (r: Option<WalkState>)
    requires |times| >= 1
    ensures steps == 0 ==> r == Some(WalkState(0, times[0].1))
    ensures r.Some? ==> r.value.index < |times| && r.value.toGo <= times[r.value.index].1
    ensures AllPhasesTimed(times) ==> r.Some?
    ensures AllPhasesTimed(times) && steps >= 1
            ==> r.Some? && r.value.index == ActiveEntry(times, (steps - 1) % CycleLength(times))
  {
    ghost var timed := AllPhasesTimed(times);
    ghost var cycle := CycleLength(times);
    ghost var pos: nat := 0;
    ghost var laps: nat := 0;
    ghost var lapStart: nat := 0;
    var index := 0;
    var toGo := times[0].1;
    var i := 0;
    while i < steps
      invariant 0 <= i <= steps
      invariant index < |times|
      invariant toGo <= times[index].1
      invariant i == 0 ==> index == 0 && toGo == times[0].1
      invariant lapStart == laps * cycle
      invariant i == 0 ==> laps == 0 && lapStart == 0
      invariant timed && i >= 1 ==> pos < cycle && i - 1 == lapStart + pos
      invariant timed && i >= 1 ==> toGo < times[index].1
      invariant timed && i >= 1 ==> Prefix(times, index) + times[index].1 - toGo == pos + 1
    {
      ghost var before := index;
      ghost var handedOver := toGo == 0;
      if toGo == 0 {
        index := NextPhase(index, |times|);
        toGo := times[index].1;
      }
      if toGo == 0 {
        return None;
      }
      toGo := toGo - 1;
      if timed {
        ghost var lapStart' := lapStart;
        pos, lapStart' := WalkInvariantStep(times, cycle, i, handedOver, before, index, toGo, pos, lapStart);
        if lapStart' != lapStart {
          OneMoreLap(laps, cycle);
          laps, lapStart := laps + 1, lapStart';
        }
      }
      i := i + 1;
    }
    if timed && steps >= 1 {
      ModUnique(steps - 1, cycle, laps, pos);
      ActiveEntryInWindow(times, index, pos);
    }
    r := Some(WalkState(index, toGo));
  }

  /** One second of the walk keeps the walk's position in step with the
      elapsed time: the phase reached and the seconds already spent in it
      add up to one more than the elapsed seconds modulo the cycle length. */
  lemma WalkInvariantStep(times: seq<Phase>, cycle: nat, i: nat, handedOver: bool,
                          before: nat, index: nat, toGo: nat, pos: nat, lapStart: nat)
    returns (pos': nat, lapStart': nat)
    requires AllPhasesTimed(times) && cycle == CycleLength(times)
    requires before < |times| && index < |times|
    requires i == 0 ==> !handedOver && index == 0 && toGo + 1 == times[0].1 && lapStart == 0
    requires i >= 1 ==> pos < cycle && i - 1 == lapStart + pos
    requires handedOver ==> index == (if before + 1 < |times| then before + 1 else 0) && toGo + 1 == times[index].1
    requires handedOver && i >= 1 ==> Prefix(times, before) + times[before].1 == pos + 1
    requires !handedOver ==> index == before
    requires !handedOver && i >= 1 ==> toGo + 1 < times[index].1 && Prefix(times, index) + times[index].1 - (toGo + 1) == pos + 1
    ensures pos' < cycle && i == lapStart' + pos'
    ensures lapStart' == lapStart || lapStart' == lapStart + cycle
    ensures toGo < times[index].1
    ensures Prefix(times, index) + times[index].1 - toGo == pos' + 1
  {
    PrefixStep(times, index);
    if i == 0 {
      assert Prefix(times, 0) == 0;
      pos', lapStart' := 0, 0;
    } else if !handedOver {
      pos', lapStart' := pos + 1, lapStart;
    } else if before + 1 < |times| {
      pos', lapStart' := pos + 1, lapStart;
      StepToNextPhase(times, before, pos);
    } else {
      pos', lapStart' := 0, lapStart + cycle;
      StepWrapsAround(times, before, pos);
    }
  }

  /** Handing over to the following phase starts that phase's window. */
  lemma StepToNextPhase(times: seq<Phase>, before: nat, pos: nat)
    requires before + 1 < |times|
    requires Prefix(times, before) + times[before].1 == pos + 1
    ensures Prefix(times, before + 1) == pos + 1
    ensures pos + 1 + times[before + 1].1 <= CycleLength(times)
  {
    PrefixStep(times, before);
    PrefixStep(times, before + 1);
  }

  /** Handing over from the last phase completes a cycle. */
  lemma StepWrapsAround(times: seq<Phase>, before: nat, pos: nat)
    requires before + 1 == |times|
    requires Prefix(times, before) + times[before].1 == pos + 1
    ensures pos + 1 == CycleLength(times)
    ensures Prefix(times, 0) == 0
  {
    PrefixStep(times, before);
    assert times[..|times|] == times;
  }

  /** The phase after phase `k` of an `n`-phase cycle, wrapping around. */
  function NextPhase(k: nat, n: nat): (next: nat)
    requires k < n
    ensures next == if k + 1 < n then k + 1 else 0
  {
    (k + 1) % n
  }

  lemma OneMoreLap(laps: nat, cycle: nat)
    ensures (laps + 1) * cycle == laps * cycle + cycle
  {
  }

  /** What the lookup answers: `None` when it panics on indexing (the
      intersection has no cycle, or an empty one), otherwise whether the
      street is the one of the cycle's first phase. */
  function LightReading(lights: Schedule, id: nat, name: StreetName): Option<bool>
  {
    if id in lights && |lights[id]| >= 1 then Some(lights[id][0].0 == name) else None
  }

  /** The lookup: is `name` green at intersection `id` at second `time`? The
      time argument is shadowed by a zero before the walk, so the walk takes
      no step and the answer is the same at every second. */
  method IsLightGreen(lights: Schedule, id: nat, name: StreetName, time: nat) returns (green: Option<bool>)
    ensures green == LightReading(lights, id, name)
    ensures green.None? <==> id !in lights || |lights[id]| == 0
  {
    if id !in lights || |lights[id]| == 0 {
      return None;
    }
    var times := lights[id];
    var shadowed := 0;
    var walk := CycleWalk(times, shadowed);
    green := Some(times[walk.value.index].0 == name);
  }

  /** Under the builder's schedule the lookup answers at exactly the
      intersections with one incoming street, and there only that street is
      green; at every other intersection the lookup panics. */
  lemma SolvedLightFollowsSoleStreet(p: Problem, id: nat, name: StreetName)
    requires p.CarsResolve()
    ensures LightReading(Scheduler.Solve(p), id, name)
            == if id in p.intersections && |p.intersections[id].incoming| == 1
               then Some(name == p.intersections[id].incoming[0])
               else None
  {
  }
}
