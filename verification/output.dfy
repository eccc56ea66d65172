/** The schedule writer. The first line is the number of scheduled
    intersections; then, for each of them, a line with its id, a line with
    the number of phases, and one line `name duration` per phase. Lines are
    joined with line feeds and there is no line feed at the end. The order of
    the intersections is whatever order the schedule's table enumerates its
    entries in; the writer is modelled for any such enumeration. */
module Output {
  import opened Text
  import opened Network
  import opened Sums

  /** `order` lists every scheduled intersection exactly once. */
  predicate IsEnumeration(order: seq<nat>, lights: Schedule)
  {
    && (forall i, j :: 0 <= i < j < |order| ==> order[i] != order[j])
    && (forall i :: 0 <= i < |order| ==> order[i] in lights)
    && (forall id :: id in lights ==> id in order)
  }

  /** The line of one phase. */
  function PhaseLine(phase: Phase): string
  {
    phase.0 + " " + NatToString(phase.1)
  }

  /** The lines written for one intersection. */
  function Block(id: nat, cycle: seq<Phase>): (lines: seq<string>)
    ensures |lines| == 2 + |cycle|
  {
    [NatToString(id), NatToString(|cycle|)] + seq(|cycle|, k requires 0 <= k < |cycle| => PhaseLine(cycle[k]))
  }

  /** The blocks of the listed intersections, one after the other. */
  function Blocks(lights: Schedule, order: seq<nat>): seq<string>
    requires forall i :: 0 <= i < |order| ==> order[i] in lights
  {
    if |order| == 0 then [] else Block(order[0], lights[order[0]]) + Blocks(lights, order[1..])
  }

  /** All lines of the output. */
  function SolutionLines(lights: Schedule, order: seq<nat>): seq<string>
    requires IsEnumeration(order, lights)
  {
    [NatToString(|lights|)] + Blocks(lights, order)
  }

  /** The writer. */
  function SolutionToString(lights: Schedule, order: seq<nat>): string
    requires IsEnumeration(order, lights)
  {
    Join(SolutionLines(lights, order), '\n')
  }

  /** How many lines an intersection contributes. */
  function BlockSize(lights: Schedule): nat -> int
  {
    id => if id in lights then 2 + |lights[id]| else 0
  }

  lemma {:induction false} BlocksSize(lights: Schedule, order: seq<nat>)
    requires forall i :: 0 <= i < |order| ==> order[i] in lights
    ensures |Blocks(lights, order)| == SumOf(order, BlockSize(lights))
  {
    if |order| > 0 {
      BlocksSize(lights, order[1..]);
    }
  }

  /** No line of the output contains a line feed, provided no street name does. */
  lemma {:induction false} BlocksAvoidLineFeed(lights: Schedule, order: seq<nat>)
    requires forall i :: 0 <= i < |order| ==> order[i] in lights
    requires forall id, k :: id in lights && 0 <= k < |lights[id]| ==> '\n' !in lights[id][k].0
    ensures forall j :: 0 <= j < |Blocks(lights, order)| ==> '\n' !in Blocks(lights, order)[j]
  {
    if |order| > 0 {
      BlocksAvoidLineFeed(lights, order[1..]);
      var id := order[0];
      var block := Block(id, lights[id]);
      forall j | 0 <= j < |block| ensures '\n' !in block[j] {
        if j >= 2 {
          var ph := lights[id][j - 2];
          assert block[j] == ph.0 + " " + NatToString(ph.1);
        }
      }
    }
  }

  /** The text of the output consists of one line for the count and, per
      scheduled intersection, two lines plus one line per phase; splitting
      it at line feeds gives back exactly those lines when no street name
      contains a line feed. */
  lemma OutputLayout(lights: Schedule, order: seq<nat>)
    requires IsEnumeration(order, lights)
    requires forall id, k :: id in lights && 0 <= k < |lights[id]| ==> '\n' !in lights[id][k].0
    ensures var lines := Split(SolutionToString(lights, order), '\n');
            && lines == SolutionLines(lights, order)
            && |lines| == 1 + SumOf(order, BlockSize(lights))
            && lines[0] == NatToString(|lights|)
  {
    var lines := SolutionLines(lights, order);
    BlocksSize(lights, order);
    BlocksAvoidLineFeed(lights, order);
    forall j | 0 <= j < |lines| ensures '\n' !in lines[j] {
      if j > 0 {
        assert lines[j] == Blocks(lights, order)[j - 1];
      }
    }
    SplitJoin(lines, '\n');
  }

  /** The lines an intersection contributes; nothing for an unscheduled one. */
  function BlockOf(lights: Schedule): nat -> seq<string>
  {
    id => if id in lights then Block(id, lights[id]) else []
  }

  /** The blocks of an enumeration, one block per listed intersection. */
  function BlockList(lights: Schedule, order: seq<nat>): seq<seq<string>>
  {
    MapSeq(order, BlockOf(lights))
  }

  /** The blocks of a list of blocks, one after the other. */
  function Concat(blocks: seq<seq<string>>): seq<string>
  {
    if |blocks| == 0 then [] else blocks[0] + Concat(blocks[1..])
  }

  /** The written blocks are the per-intersection blocks, concatenated in
      enumeration order. */
  lemma {:induction false} BlocksAreBlockList(lights: Schedule, order: seq<nat>)
    requires forall i :: 0 <= i < |order| ==> order[i] in lights
    ensures Blocks(lights, order) == Concat(BlockList(lights, order))
  {
    if |order| > 0 {
      BlocksAreBlockList(lights, order[1..]);
      assert BlockList(lights, order) == [BlockOf(lights)(order[0])] + BlockList(lights, order[1..]);
      assert ([BlockOf(lights)(order[0])] + BlockList(lights, order[1..]))[1..] == BlockList(lights, order[1..]);
    }
  }

  /** Any two enumerations list the same intersections. */
  lemma EnumerationsArePermutations(lights: Schedule, order: seq<nat>, other: seq<nat>)
    requires IsEnumeration(order, lights) && IsEnumeration(other, lights)
    ensures multiset(order) == multiset(other)
  {
    DistinctMultiset(order);
    DistinctMultiset(other);
    assert forall x :: x in order <==> x in other;
  }

  /** A sequence without repetitions holds each of its elements once. */
  lemma {:induction false} DistinctMultiset(xs: seq<nat>)
    requires forall i, j :: 0 <= i < j < |xs| ==> xs[i] != xs[j]
    ensures forall x :: multiset(xs)[x] == if x in xs then 1 else 0
  {
    if |xs| > 0 {
      DistinctMultiset(xs[1..]);
      assert xs == [xs[0]] + xs[1..];
      assert xs[0] !in xs[1..];
    }
  }

  /** Whatever order the table enumerates its entries in, the output has the
      same first line and the same blocks, only possibly in another order. */
  lemma OutputOrderIndependent(lights: Schedule, order: seq<nat>, other: seq<nat>)
    requires IsEnumeration(order, lights) && IsEnumeration(other, lights)
    ensures SolutionLines(lights, order)[0] == SolutionLines(lights, other)[0]
    ensures multiset(BlockList(lights, order)) == multiset(BlockList(lights, other))
  {
    EnumerationsArePermutations(lights, order, other);
    var a, b := multiset(BlockList(lights, order)), multiset(BlockList(lights, other));
    forall block ensures a[block] == b[block] {
      MapSeqCount(order, BlockOf(lights), block);
      MapSeqCount(other, BlockOf(lights), block);
      SumOfPermutation(order, other, Hits(BlockOf(lights), block));
    }
    assert a == b;
  }

  // ---------------------------------------------------------------------
  // Reading the output back

  /** Reads a `name duration` line. */
  function ReadPhase(line: string): Option<Phase>
  {
    var t := Split(line, ' ');
    if |t| == 2 && IsNumeral(t[1]) then Some((t[0], NumeralValue(t[1]))) else None
  }

  /** Reads consecutive phase lines. */
  function ReadPhases(lines: seq<string>): Option<seq<Phase>>
  {
    if |lines| == 0 then Some([])
    else match (ReadPhase(lines[0]), ReadPhases(lines[1..]))
      case (Some(ph), Some(rest)) => Some([ph] + rest)
      case _ => None
  }

  /** Reads the blocks that follow the count line. */
  function ReadBlocks(lines: seq<string>): Option<Schedule>
    decreases |lines|
  {
    if |lines| == 0 then Some(map[])
    else if |lines| < 2 || !IsNumeral(lines[0]) || !IsNumeral(lines[1]) then None
    else
      var count := NumeralValue(lines[1]);
      if |lines| < 2 + count then None
      else match (ReadPhases(lines[2..2 + count]), ReadBlocks(lines[2 + count..]))
        case (Some(cycle), Some(rest)) => Some(rest[NumeralValue(lines[0]) := cycle])
        case _ => None
  }

  /** Reads a written schedule. */
  function ReadSolution(text: string): Option<Schedule>
  {
    var lines := Split(text, '\n');
    if IsNumeral(lines[0]) then ReadBlocks(lines[1..]) else None
  }

  /** Street names that the text format can carry: no space, no line feed. */
  predicate PlainNames(lights: Schedule)
  {
    forall id, k :: id in lights && 0 <= k < |lights[id]| ==> ' ' !in lights[id][k].0 && '\n' !in lights[id][k].0
  }

  lemma ReadPhaseLine(phase: Phase)
    requires ' ' !in phase.0
    ensures ReadPhase(PhaseLine(phase)) == Some(phase)
  {
    var digits := NatToString(phase.1);
    DigitsAvoid(phase.1, ' ');
    SplitAtFirstSeparator(phase.0, digits, ' ');
    SplitWithoutSeparator(digits, ' ');
    assert PhaseLine(phase) == phase.0 + [' '] + digits;
    NumeralRoundTrip(phase.1);
  }

  lemma {:induction false} ReadPhaseLines(cycle: seq<Phase>)
    requires forall k :: 0 <= k < |cycle| ==> ' ' !in cycle[k].0
    ensures ReadPhases(seq(|cycle|, k requires 0 <= k < |cycle| => PhaseLine(cycle[k]))) == Some(cycle)
  {
    var lines := seq(|cycle|, k requires 0 <= k < |cycle| => PhaseLine(cycle[k]));
    if |cycle| > 0 {
      ReadPhaseLine(cycle[0]);
      ReadPhaseLines(cycle[1..]);
      assert lines[1..] == seq(|cycle[1..]|, k requires 0 <= k < |cycle[1..]| => PhaseLine(cycle[1..][k]));
      assert [cycle[0]] + cycle[1..] == cycle;
    }
  }

  /** Reading a written block followed by more lines records the block's
      cycle over whatever the following lines read as. */
  lemma ReadOneBlock(id: nat, cycle: seq<Phase>, tail: seq<string>, rest: Schedule)
    requires forall k :: 0 <= k < |cycle| ==> ' ' !in cycle[k].0
    requires ReadBlocks(tail) == Some(rest)
    ensures ReadBlocks(Block(id, cycle) + tail) == Some(rest[id := cycle])
  {
    var lines := Block(id, cycle) + tail;
    var phaseLines := seq(|cycle|, k requires 0 <= k < |cycle| => PhaseLine(cycle[k]));
    NumeralRoundTrip(id);
    NumeralRoundTrip(|cycle|);
    assert lines[0] == NatToString(id) && lines[1] == NatToString(|cycle|);
    assert lines[2..2 + |cycle|] == phaseLines;
    assert lines[2 + |cycle|..] == tail;
    ReadPhaseLines(cycle);
  }

  /** Reading the blocks written for distinct intersections gives back their cycles. */
  lemma {:induction false} ReadWrittenBlocks(lights: Schedule, order: seq<nat>)
    requires forall i :: 0 <= i < |order| ==> order[i] in lights
    requires PlainNames(lights)
    ensures ReadBlocks(Blocks(lights, order)) == Some(Listed(lights, order))
  {
    if |order| > 0 {
      ReadWrittenBlocks(lights, order[1..]);
      ReadBlockBeforeRest(lights, order);
    }
  }

  /** One inductive step of reading back: the first written block adds its
      intersection to what the remaining blocks read as. */
  lemma ReadBlockBeforeRest(lights: Schedule, order: seq<nat>)
    requires |order| >= 1
    requires forall i :: 0 <= i < |order| ==> order[i] in lights
    requires PlainNames(lights)
    requires ReadBlocks(Blocks(lights, order[1..])) == Some(Listed(lights, order[1..]))
    ensures ReadBlocks(Blocks(lights, order)) == Some(Listed(lights, order))
  {
    var id := order[0];
    var tail := Blocks(lights, order[1..]);
    var rest := Listed(lights, order[1..]);
    assert Blocks(lights, order) == Block(id, lights[id]) + tail;
    ReadOneBlock(id, lights[id], tail, rest);
    RestrictionGrows(lights, order);
  }

  /** The cycles of the listed intersections. */
  function Listed(lights: Schedule, order: seq<nat>): Schedule
    requires forall i :: 0 <= i < |order| ==> order[i] in lights
  {
    map i | i in order :: lights[i]
  }

  lemma RestrictionGrows(lights: Schedule, order: seq<nat>)
    requires |order| >= 1
    requires forall i :: 0 <= i < |order| ==> order[i] in lights
    ensures (Listed(lights, order[1..]))[order[0] := lights[order[0]]] == Listed(lights, order)
  {
    assert forall i :: i in order <==> i == order[0] || i in order[1..] by {
      assert order == [order[0]] + order[1..];
    }
  }

  /** Writing a schedule and reading it back gives the schedule, whatever
      order the intersections were written in, as long as no street name
      contains a space or a line feed. */
  lemma WriteThenRead(lights: Schedule, order: seq<nat>)
    requires IsEnumeration(order, lights)
    requires PlainNames(lights)
    ensures ReadSolution(SolutionToString(lights, order)) == Some(lights)
  {
    OutputLayout(lights, order);
    var lines := SolutionLines(lights, order);
    assert Split(SolutionToString(lights, order), '\n') == lines;
    assert IsNumeral(lines[0]);
    assert lines[1..] == Blocks(lights, order);
    ReadWrittenBlocks(lights, order);
    assert Listed(lights, order).Keys == lights.Keys;
    assert Listed(lights, order) == lights;
  }
}
