/** The input reader for the Hash Code 2021 qualification format. The first
    line holds the horizon, the intersection count, the street count `S`,
    the car count `C` and the bonus; the next `S` lines are streets
    `start end name duration`; the next `C` lines are cars `P name1 name2 …`.
    Tokens are separated by single spaces. The reader builds the network:
    streets by name (a later line with the same name replaces the earlier
    one), intersections by id with their incoming and outgoing streets in
    input order, and cars, each queued with countdown 0 on the first street
    of its route. The car id is taken from the first token of the car line,
    the declared route length, so cars sharing that number overwrite one
    another in the id-keyed car table. */
module Parser {
  import opened Text
  import opened Network

  function Tokens(line: string): (tokens: seq<string>)
    ensures |tokens| >= 1
  {
    Split(line, ' ')
  }

  /** A token that reads as an unsigned 32-bit integer. */
  predicate IsU32(token: string)
  {
    IsNumeral(token) && NumeralValue(token) <= U32_MAX
  }

  datatype Header = Header(seconds: nat, intersectionCount: nat, streetCount: nat, carCount: nat, bonus: nat)

  /** The first line: every token is read as a number (so every token must
      be one), and tokens 0 to 4 are used. */
  predicate WellFormedHeader(line: string)
  {
    var tokens := Tokens(line);
    |tokens| >= 5 && forall k :: 0 <= k < |tokens| ==> IsU32(tokens[k])
  }

  function ReadHeader(line: string): Header
    requires WellFormedHeader(line)
  {
    var t := Tokens(line);
    Header(NumeralValue(t[0]), NumeralValue(t[1]), NumeralValue(t[2]), NumeralValue(t[3]), NumeralValue(t[4]))
  }

  datatype StreetLine = StreetLine(start: nat, end: nat, name: StreetName, duration: nat)

  /** A street line: tokens 0, 1 and 3 are numbers, token 2 is the name;
      further tokens are ignored. */
  predicate WellFormedStreetLine(line: string)
  {
    var t := Tokens(line);
    |t| >= 4 && IsU32(t[0]) && IsU32(t[1]) && IsU32(t[3])
  }

  function ReadStreetLine(line: string): StreetLine
    requires WellFormedStreetLine(line)
  {
    var t := Tokens(line);
    StreetLine(NumeralValue(t[0]), NumeralValue(t[1]), t[2], NumeralValue(t[3]))
  }

  /** A car line: its first token is the number that becomes the car id;
      every later token is a street of the route. */
  datatype CarLine = CarLine(id: nat, route: seq<StreetName>)

  predicate WellFormedCarLine(line: string)
  {
    IsU32(Tokens(line)[0])
  }

  function ReadCarLine(line: string): CarLine
    requires WellFormedCarLine(line)
  {
    var t := Tokens(line);
    CarLine(NumeralValue(t[0]), t[1..])
  }

  // ---------------------------------------------------------------------
  // The line formats, written out

  /** Writes a header line. */
  function HeaderText(h: Header): string
  {
    Join([NatToString(h.seconds), NatToString(h.intersectionCount), NatToString(h.streetCount),
          NatToString(h.carCount), NatToString(h.bonus)], ' ')
  }

  /** Writes a street line. */
  function StreetLineText(sl: StreetLine): string
  {
    Join([NatToString(sl.start), NatToString(sl.end), sl.name, NatToString(sl.duration)], ' ')
  }

  /** Writes a car line. */
  function CarLineText(cl: CarLine): string
  {
    Join([NatToString(cl.id)] + cl.route, ' ')
  }

  /** A header written with numbers in the unsigned 32-bit range reads back
      as itself. */
  lemma ReadHeaderInverts(h: Header)
    requires h.seconds <= U32_MAX && h.intersectionCount <= U32_MAX && h.streetCount <= U32_MAX
    requires h.carCount <= U32_MAX && h.bonus <= U32_MAX
    ensures WellFormedHeader(HeaderText(h)) && ReadHeader(HeaderText(h)) == h
  {
    var t := [NatToString(h.seconds), NatToString(h.intersectionCount), NatToString(h.streetCount),
              NatToString(h.carCount), NatToString(h.bonus)];
    forall n: nat ensures ' ' !in NatToString(n) {
      DigitsAvoid(n, ' ');
    }
    SplitJoin(t, ' ');
    NumeralRoundTrip(h.seconds);
    NumeralRoundTrip(h.intersectionCount);
    NumeralRoundTrip(h.streetCount);
    NumeralRoundTrip(h.carCount);
    NumeralRoundTrip(h.bonus);
  }

  /** A street line written with a name free of spaces and numbers in the
      unsigned 32-bit range reads back as itself. */
  lemma ReadStreetLineInverts(sl: StreetLine)
    requires ' ' !in sl.name
    requires sl.start <= U32_MAX && sl.end <= U32_MAX && sl.duration <= U32_MAX
    ensures WellFormedStreetLine(StreetLineText(sl)) && ReadStreetLine(StreetLineText(sl)) == sl
  {
    var t := [NatToString(sl.start), NatToString(sl.end), sl.name, NatToString(sl.duration)];
    forall n: nat ensures ' ' !in NatToString(n) {
      DigitsAvoid(n, ' ');
    }
    SplitJoin(t, ' ');
    NumeralRoundTrip(sl.start);
    NumeralRoundTrip(sl.end);
    NumeralRoundTrip(sl.duration);
  }

  /** A car line written with street names free of spaces and an id in the
      unsigned 32-bit range reads back as itself, an empty route included. */
  lemma ReadCarLineInverts(cl: CarLine)
    requires forall j :: 0 <= j < |cl.route| ==> ' ' !in cl.route[j]
    requires cl.id <= U32_MAX
    ensures WellFormedCarLine(CarLineText(cl)) && ReadCarLine(CarLineText(cl)) == cl
  {
    var t := [NatToString(cl.id)] + cl.route;
    DigitsAvoid(cl.id, ' ');
    assert forall k :: 1 <= k < |t| ==> t[k] == cl.route[k - 1];
    SplitJoin(t, ' ');
    NumeralRoundTrip(cl.id);
    assert t[1..] == cl.route;
  }

  /** What the reader needs of its input to get past the number conversions
      and line indexing: a header, and as many street and car lines as it
      announces, each with its numbers in place. */
  predicate WellFormedInput(text: string)
  {
    var lines := Lines(text);
    && |lines| >= 1
    && WellFormedHeader(lines[0])
    && var h := ReadHeader(lines[0]);
       && 1 + h.streetCount + h.carCount <= U32_MAX
       && 1 + h.streetCount + h.carCount <= |lines|
       && (forall i :: 1 <= i <= h.streetCount ==> WellFormedStreetLine(lines[i]))
       && (forall i :: 1 + h.streetCount <= i < 1 + h.streetCount + h.carCount ==> WellFormedCarLine(lines[i]))
  }

  function InputHeader(text: string): Header
    requires WellFormedInput(text)
  {
    ReadHeader(Lines(text)[0])
  }

  /** The street lines of the input, in order. */
  function StreetLines(text: string): (sls: seq<StreetLine>)
    requires WellFormedInput(text)
    ensures |sls| == InputHeader(text).streetCount
  {
    var lines := Lines(text);
    var h := InputHeader(text);
    seq(h.streetCount, i requires 0 <= i < h.streetCount => ReadStreetLine(lines[1 + i]))
  }

  /** The car lines of the input, in order. */
  function CarLines(text: string): (cls: seq<CarLine>)
    requires WellFormedInput(text)
    ensures |cls| == InputHeader(text).carCount
  {
    var lines := Lines(text);
    var h := InputHeader(text);
    seq(h.carCount, k requires 0 <= k < h.carCount => ReadCarLine(lines[1 + h.streetCount + k]))
  }

  // ---------------------------------------------------------------------
  // Streets and intersections

  /** The streets and intersections read so far. */
  datatype Layout = Layout(streets: map<StreetName, Street>, intersections: map<nat, Intersection>)

  function IncomingAt(ints: map<nat, Intersection>, id: nat): seq<StreetName>
  {
    if id in ints then ints[id].incoming else []
  }

  function OutgoingAt(ints: map<nat, Intersection>, id: nat): seq<StreetName>
  {
    if id in ints then ints[id].outgoing else []
  }

  /** Reads one street line: the street (with an empty queue) is stored
      under its name, replacing any earlier one; it is appended to the
      outgoing streets of its start and then to the incoming streets of its
      end, each intersection being created on first mention. */
  function AddStreet(net: Layout, sl: StreetLine): (r: Layout)
    ensures r.streets == net.streets[sl.name := Street(sl.name, [], sl.duration)]
    ensures r.intersections.Keys == net.intersections.Keys + {sl.start, sl.end}
    ensures forall id :: IncomingAt(r.intersections, id)
                         == IncomingAt(net.intersections, id) + (if id == sl.end then [sl.name] else [])
    ensures forall id :: OutgoingAt(r.intersections, id)
                         == OutgoingAt(net.intersections, id) + (if id == sl.start then [sl.name] else [])
  {
    var ints := net.intersections;
    var afterStart :=
      if sl.start in ints then ints[sl.start := ints[sl.start].(outgoing := ints[sl.start].outgoing + [sl.name])]
      else ints[sl.start := Intersection([], [sl.name])];
    var afterEnd :=
      if sl.end in afterStart then afterStart[sl.end := afterStart[sl.end].(incoming := afterStart[sl.end].incoming + [sl.name])]
      else afterStart[sl.end := Intersection([sl.name], [])];
    Layout(net.streets[sl.name := Street(sl.name, [], sl.duration)], afterEnd)
  }

  /** Names of the streets ending at `id`, in input order. */
  function EndingAt(sls: seq<StreetLine>, id: nat): seq<StreetName>
  {
    if |sls| == 0 then []
    else (if sls[0].end == id then [sls[0].name] else []) + EndingAt(sls[1..], id)
  }

  /** Names of the streets starting at `id`, in input order. */
  function StartingAt(sls: seq<StreetLine>, id: nat): seq<StreetName>
  {
    if |sls| == 0 then []
    else (if sls[0].start == id then [sls[0].name] else []) + StartingAt(sls[1..], id)
  }

  /** The duration on the last street line with name `name`, if there is one. */
  function LastDuration(sls: seq<StreetLine>, name: StreetName): Option<nat>
  {
    if |sls| == 0 then None
    else
      var later := LastDuration(sls[1..], name);
      if later.Some? then later
      else if sls[0].name == name then Some(sls[0].duration)
      else None
  }

  /** Some street line starts or ends at `id`. */
  predicate Touches(sls: seq<StreetLine>, id: nat)
  {
    exists k :: 0 <= k < |sls| && (sls[k].start == id || sls[k].end == id)
  }

  lemma TouchesStep(sls: seq<StreetLine>, id: nat)
    requires |sls| >= 1
    ensures Touches(sls, id) <==> sls[0].start == id || sls[0].end == id || Touches(sls[1..], id)
  {
    if Touches(sls, id) {
      var k :| 0 <= k < |sls| && (sls[k].start == id || sls[k].end == id);
      if k > 0 {
        assert sls[1..][k - 1] == sls[k];
      }
    }
    if Touches(sls[1..], id) {
      var k :| 0 <= k < |sls[1..]| && (sls[1..][k].start == id || sls[1..][k].end == id);
      assert sls[k + 1] == sls[1..][k];
    }
  }

  /** Reads the street lines in order. */
  function AddStreets(net: Layout, sls: seq<StreetLine>): Layout
    decreases |sls|
  {
    if |sls| == 0 then net else AddStreets(AddStreet(net, sls[0]), sls[1..])
  }

  /** After the street lines, a name has a street exactly when it had one
      before or some line declares it; a declared name holds the street of
      its last line, with an empty queue. */
  lemma {:induction false} AddStreetsStreets(net: Layout, sls: seq<StreetLine>)
    ensures var r := AddStreets(net, sls);
            forall n :: (n in r.streets <==> n in net.streets || LastDuration(sls, n).Some?)
                     && (n in r.streets ==> r.streets[n] == if LastDuration(sls, n).Some?
                                                           then Street(n, [], LastDuration(sls, n).value)
                                                           else net.streets[n])
    decreases |sls|
  {
    if |sls| > 0 {
      AddStreetsStreets(AddStreet(net, sls[0]), sls[1..]);
    }
  }

  lemma Associative(a: seq<StreetName>, b: seq<StreetName>, c: seq<StreetName>)
    ensures (a + b) + c == a + (b + c)
  {
  }

  /** After the street lines, intersection `id` exists exactly when it
      existed before or some line starts or ends there; each line is appended
      to its end's incoming list and its start's outgoing list, in input order. */
  lemma {:induction false} AddStreetsAt(net: Layout, sls: seq<StreetLine>, id: nat)
    ensures var r := AddStreets(net, sls);
            && (id in r.intersections <==> id in net.intersections || Touches(sls, id))
            && IncomingAt(r.intersections, id) == IncomingAt(net.intersections, id) + EndingAt(sls, id)
            && OutgoingAt(r.intersections, id) == OutgoingAt(net.intersections, id) + StartingAt(sls, id)
    decreases |sls|
  {
    if |sls| > 0 {
      var step := AddStreet(net, sls[0]);
      AddStreetsAt(step, sls[1..], id);
      TouchesStep(sls, id);
      var endHere := if sls[0].end == id then [sls[0].name] else [];
      var startHere := if sls[0].start == id then [sls[0].name] else [];
      assert EndingAt(sls, id) == endHere + EndingAt(sls[1..], id);
      assert StartingAt(sls, id) == startHere + StartingAt(sls[1..], id);
      assert IncomingAt(step.intersections, id) == IncomingAt(net.intersections, id) + endHere;
      assert OutgoingAt(step.intersections, id) == OutgoingAt(net.intersections, id) + startHere;
      Associative(IncomingAt(net.intersections, id), endHere, EndingAt(sls[1..], id));
      Associative(OutgoingAt(net.intersections, id), startHere, StartingAt(sls[1..], id));
    }
  }

  // ---------------------------------------------------------------------
  // Cars

  /** Why reading fails past the number conversions: a route names a street
      no street line declared, or a car line has no route at all (its second
      token is indexed for the first street). */
  datatype ParseError = UnknownStreet(carLine: nat, name: StreetName) | NoRoute(carLine: nat)

  /** The names declared by the street lines. */
  function DeclaredNames(sls: seq<StreetLine>): set<StreetName>
  {
    set i | 0 <= i < |sls| :: sls[i].name
  }

  /** A route the reader accepts: at least one street, every street declared. */
  predicate RouteResolves(route: seq<StreetName>, names: set<StreetName>)
  {
    |route| >= 1 && forall j :: 0 <= j < |route| ==> route[j] in names
  }

  /** The first street of `route` that is not declared, if any. */
  function FirstUnknown(route: seq<StreetName>, names: set<StreetName>): (r: Option<StreetName>)
    ensures r.None? <==> forall j :: 0 <= j < |route| ==> route[j] in names
    ensures r.Some? ==> r.value in route && r.value !in names
  {
    if |route| == 0 then None
    else if route[0] !in names then Some(route[0])
    else FirstUnknown(route[1..], names)
  }

  /** The failure the car line at position `k` causes, if any: the route's
      streets are looked up first, and the first street is indexed after. */
  function RouteError(cl: CarLine, k: nat, names: set<StreetName>): (r: Option<ParseError>)
    ensures r.None? <==> RouteResolves(cl.route, names)
  {
    match FirstUnknown(cl.route, names)
    case Some(n) => Some(UnknownStreet(k, n))
    case None => if |cl.route| == 0 then Some(NoRoute(k)) else None
  }

  /** The failure of the first failing car line from position `k` on. */
  function FirstCarError(cls: seq<CarLine>, names: set<StreetName>, k: nat): (r: Option<ParseError>)
    ensures r.None? <==> forall j :: k <= j < |cls| ==> RouteResolves(cls[j].route, names)
    decreases |cls| - k
  {
    if k >= |cls| then None
    else
      var e := RouteError(cls[k], k, names);
      if e.Some? then e else FirstCarError(cls, names, k + 1)
  }

  /** Queue entries, in car-line order from position `k` on, of the cars
      whose route starts with `name`: each with countdown 0. */
  function StartersFrom(cls: seq<CarLine>, k: nat, name: StreetName): seq<(CarIndex, nat)>
    decreases |cls| - k
  {
    if k >= |cls| then []
    else (if |cls[k].route| >= 1 && cls[k].route[0] == name then [(k, 0)] else []) + StartersFrom(cls, k + 1, name)
  }

  /** Appends `entry` to the queue of street `name`. */
  function PushBack(streets: map<StreetName, Street>, name: StreetName, entry: (CarIndex, nat)): (r: map<StreetName, Street>)
    requires name in streets
    ensures r.Keys == streets.Keys
    ensures r[name] == streets[name].(queue := streets[name].queue + [entry])
    ensures forall n :: n in r && n != name ==> r[n] == streets[n]
  {
    streets[name := streets[name].(queue := streets[name].queue + [entry])]
  }

  /** Puts every car from position `k` on at the back of the queue of its
      first street, with countdown 0. */
  function Enqueue(streets: map<StreetName, Street>, cls: seq<CarLine>, k: nat): (r: map<StreetName, Street>)
    requires forall j :: k <= j < |cls| ==> |cls[j].route| >= 1 && cls[j].route[0] in streets
    ensures r.Keys == streets.Keys
    ensures forall n :: n in r ==> r[n] == streets[n].(queue := streets[n].queue + StartersFrom(cls, k, n))
    decreases |cls| - k
  {
    if k >= |cls| then
      assert forall n :: n in streets ==> streets[n].queue + [] == streets[n].queue;
      streets
    else
      var first := cls[k].route[0];
      var pushed := PushBack(streets, first, (k, 0));
      var r := Enqueue(pushed, cls, k + 1);
      forall n | n in r ensures r[n] == streets[n].(queue := streets[n].queue + StartersFrom(cls, k, n)) {
        EnqueueStep(streets, pushed, r, cls, k, n);
      }
      r
  }

  lemma EnqueueStep(streets: map<StreetName, Street>, pushed: map<StreetName, Street>, r: map<StreetName, Street>,
                    cls: seq<CarLine>, k: nat, n: StreetName)
    requires k < |cls| && |cls[k].route| >= 1 && cls[k].route[0] in streets
    requires pushed == PushBack(streets, cls[k].route[0], (k, 0))
    requires n in r && n in pushed
    requires r[n] == pushed[n].(queue := pushed[n].queue + StartersFrom(cls, k + 1, n))
    ensures r[n] == streets[n].(queue := streets[n].queue + StartersFrom(cls, k, n))
  {
    var later := StartersFrom(cls, k + 1, n);
    if n == cls[k].route[0] {
      assert pushed[n].queue == streets[n].queue + [(k, 0)];
      assert StartersFrom(cls, k, n) == [(k, 0)] + later;
      assert r[n].queue == streets[n].queue + [(k, 0)] + later;
      assert streets[n].queue + [(k, 0)] + later == streets[n].queue + ([(k, 0)] + later);
    } else {
      assert pushed[n] == streets[n];
      assert StartersFrom(cls, k, n) == later;
    }
  }

  /** The car-line positions, from `k` on, whose id no later car line
      repeats: the entries an id-keyed table keeps when every insertion
      overwrites. */
  function KeptFrom(ids: seq<nat>, k: nat): (kept: seq<CarIndex>)
    ensures forall j :: j in kept <==> k <= j < |ids| && ids[j] !in ids[j + 1..]
    ensures forall a, b :: 0 <= a < b < |kept| ==> kept[a] < kept[b]
    ensures forall a :: 0 <= a < |kept| ==> k <= kept[a] < |ids|
    decreases |ids| - k
  {
    if k >= |ids| then []
    else
      var rest := KeptFrom(ids, k + 1);
      KeptFromStep(ids, k, rest);
      (if ids[k] in ids[k + 1..] then [] else [k]) + rest
  }

  /** One step of `KeptFrom`: position `k` goes in front of the later kept
      positions when no later line repeats its id. */
  lemma KeptFromStep(ids: seq<nat>, k: nat, rest: seq<CarIndex>)
    requires k < |ids|
    requires forall j :: j in rest <==> k + 1 <= j < |ids| && ids[j] !in ids[j + 1..]
    requires forall a, b :: 0 <= a < b < |rest| ==> rest[a] < rest[b]
    requires forall a :: 0 <= a < |rest| ==> k + 1 <= rest[a] < |ids|
    ensures var kept := (if ids[k] in ids[k + 1..] then [] else [k]) + rest;
            && (forall j :: j in kept <==> k <= j < |ids| && ids[j] !in ids[j + 1..])
            && (forall a, b :: 0 <= a < b < |kept| ==> kept[a] < kept[b])
            && (forall a :: 0 <= a < |kept| ==> k <= kept[a] < |ids|)
  {
    var kept := (if ids[k] in ids[k + 1..] then [] else [k]) + rest;
    if ids[k] !in ids[k + 1..] {
      assert forall a :: 1 <= a < |kept| ==> kept[a] == rest[a - 1];
    }
  }

  /** The outcome of reading. */
  datatype ParseResult = Parsed(problem: Problem) | Failed(error: ParseError)

  /** The ids of the car lines, in order. */
  function CarIds(cls: seq<CarLine>): (ids: seq<nat>)
    ensures |ids| == |cls| && forall k :: 0 <= k < |cls| ==> ids[k] == cls[k].id
  {
    seq(|cls|, k requires 0 <= k < |cls| => cls[k].id)
  }

  /** The reader. It fails exactly when some car line's route is empty or
      names an undeclared street. */
  function ParseProblem(text: string): (r: ParseResult)
    requires WellFormedInput(text)
    ensures var sls, cls := StreetLines(text), CarLines(text);
            r.Parsed? <==> forall k :: 0 <= k < |cls| ==> RouteResolves(cls[k].route, DeclaredNames(sls))
    ensures r.Parsed? ==> r.problem.amountOfSeconds == InputHeader(text).seconds
    ensures r.Parsed? ==> r.problem.bonusPoints == InputHeader(text).bonus
  {
    Assemble(InputHeader(text), StreetLines(text), CarLines(text))
  }

  /** Builds the network from the header, the street lines and the car lines. */
  function Assemble(h: Header, sls: seq<StreetLine>, cls: seq<CarLine>): (r: ParseResult)
    ensures r.Parsed? <==> forall k :: 0 <= k < |cls| ==> RouteResolves(cls[k].route, DeclaredNames(sls))
    ensures r.Parsed? ==> r.problem.amountOfSeconds == h.seconds && r.problem.bonusPoints == h.bonus
  {
    var layout := AddStreets(Layout(map[], map[]), sls);
    var names := DeclaredNames(sls);
    AddStreetsStreets(Layout(map[], map[]), sls);
    LastDurationDeclared(sls);
    assert layout.streets.Keys == names;
    match FirstCarError(cls, names, 0)
    case Some(e) => Failed(e)
    case None =>
      assert forall j :: 0 <= j < |cls| ==> |cls[j].route| >= 1 && cls[j].route[0] in layout.streets;
      var fleet := seq(|cls|, k requires 0 <= k < |cls| => Car(cls[k].id, cls[k].route, None));
      var streets := Enqueue(layout.streets, cls, 0);
      Parsed(Problem(h.seconds, h.bonus, fleet, KeptFrom(CarIds(cls), 0), streets, layout.intersections))
  }

  /** Every street line is stored under its name, with the duration of the
      last line of that name and, as queue, the cars whose route starts
      there, in car-line order, each with countdown 0. */
  lemma ParsedStreets(text: string)
    requires WellFormedInput(text) && ParseProblem(text).Parsed?
    ensures var sls, cls, p := StreetLines(text), CarLines(text), ParseProblem(text).problem;
            && p.streets.Keys == DeclaredNames(sls)
            && forall n :: n in p.streets ==>
                 && p.streets[n].name == n
                 && Some(p.streets[n].timeToTravel) == LastDuration(sls, n)
                 && p.streets[n].queue == StartersFrom(cls, 0, n)
  {
    AddStreetsStreets(Layout(map[], map[]), StreetLines(text));
    LastDurationDeclared(StreetLines(text));
  }

  /** The intersections are exactly the ids some street line starts or ends
      at; each lists the streets ending there and those starting there, in
      input order. */
  lemma ParsedIntersections(text: string)
    requires WellFormedInput(text) && ParseProblem(text).Parsed?
    ensures var sls, p := StreetLines(text), ParseProblem(text).problem;
            && (forall id :: id in p.intersections <==> Touches(sls, id))
            && (forall id :: id in p.intersections ==>
                  p.intersections[id] == Intersection(EndingAt(sls, id), StartingAt(sls, id)))
  {
    var sls := StreetLines(text);
    var layout := AddStreets(Layout(map[], map[]), sls);
    forall id {
      AddStreetsAt(Layout(map[], map[]), sls, id);
    }
    assert forall id :: IncomingAt(layout.intersections, id) == EndingAt(sls, id);
    assert forall id :: OutgoingAt(layout.intersections, id) == StartingAt(sls, id);
  }

  /** Every car line becomes a car of the fleet, with no arrival time; the
      problem keeps, per car id, the position of the last car line with that id. */
  lemma ParsedCars(text: string)
    requires WellFormedInput(text) && ParseProblem(text).Parsed?
    ensures var cls, p := CarLines(text), ParseProblem(text).problem;
            && |p.fleet| == |cls|
            && (forall k :: 0 <= k < |cls| ==> p.fleet[k] == Car(cls[k].id, cls[k].route, None))
            && p.cars == KeptFrom(CarIds(cls), 0)
            && p.CarsResolve()
  {
  }

  /** A name has a last street line exactly when some street line declares it. */
  lemma {:induction false} LastDurationDeclared(sls: seq<StreetLine>)
    ensures forall n :: LastDuration(sls, n).Some? <==> n in DeclaredNames(sls)
  {
    if |sls| > 0 {
      LastDurationDeclared(sls[1..]);
      assert DeclaredNames(sls) == {sls[0].name} + DeclaredNames(sls[1..]) by {
        forall n | n in DeclaredNames(sls) ensures n in {sls[0].name} + DeclaredNames(sls[1..]) {
          var i :| 0 <= i < |sls| && sls[i].name == n;
          if i > 0 {
            assert sls[1..][i - 1] == sls[i];
          }
        }
        forall n | n in DeclaredNames(sls[1..]) ensures n in DeclaredNames(sls) {
          var i :| 0 <= i < |sls[1..]| && sls[1..][i].name == n;
          assert sls[i + 1] == sls[1..][i];
        }
      }
    }
  }

  /** The duration a name ends up with is that of the last street line
      declaring the name: a later line replaces an earlier one. */
  lemma {:induction false} LastLineWins(sls: seq<StreetLine>, n: StreetName)
    requires LastDuration(sls, n).Some?
    ensures exists i :: 0 <= i < |sls| && sls[i].name == n && sls[i].duration == LastDuration(sls, n).value
                        && forall j :: i < j < |sls| ==> sls[j].name != n
  {
    var later := LastDuration(sls[1..], n);
    if later.Some? {
      LastLineWins(sls[1..], n);
      var i :| 0 <= i < |sls[1..]| && sls[1..][i].name == n && sls[1..][i].duration == later.value
               && forall j :: i < j < |sls[1..]| ==> sls[1..][j].name != n;
      assert sls[i + 1] == sls[1..][i];
      forall j | i + 1 < j < |sls| ensures sls[j].name != n {
        assert sls[j] == sls[1..][j - 1];
      }
    } else {
      NoLaterLine(sls[1..], n);
      forall j | 0 < j < |sls| ensures sls[j].name != n {
        assert sls[j] == sls[1..][j - 1];
      }
    }
  }

  lemma {:induction false} NoLaterLine(sls: seq<StreetLine>, n: StreetName)
    requires LastDuration(sls, n).None?
    ensures forall j :: 0 <= j < |sls| ==> sls[j].name != n
  {
    if |sls| > 0 {
      NoLaterLine(sls[1..], n);
      forall j | 0 < j < |sls| ensures sls[j].name != n {
        assert sls[j] == sls[1..][j - 1];
      }
    }
  }

  /** A street is listed at an intersection as incoming exactly when some
      street line with that name ends there, and as outgoing exactly when
      some street line with that name starts there. */
  lemma {:induction false} ListedAtEnds(sls: seq<StreetLine>, id: nat, n: StreetName)
    ensures n in EndingAt(sls, id) <==> exists i :: 0 <= i < |sls| && sls[i].end == id && sls[i].name == n
    ensures n in StartingAt(sls, id) <==> exists i :: 0 <= i < |sls| && sls[i].start == id && sls[i].name == n
  {
    if |sls| > 0 {
      ListedAtEnds(sls[1..], id, n);
      forall i | 0 < i < |sls| ensures sls[i] == sls[1..][i - 1] { }
      if exists i :: 0 <= i < |sls[1..]| && sls[1..][i].end == id && sls[1..][i].name == n {
        var i :| 0 <= i < |sls[1..]| && sls[1..][i].end == id && sls[1..][i].name == n;
        assert sls[i + 1].end == id && sls[i + 1].name == n;
      }
      if exists i :: 0 <= i < |sls[1..]| && sls[1..][i].start == id && sls[1..][i].name == n {
        var i :| 0 <= i < |sls[1..]| && sls[1..][i].start == id && sls[1..][i].name == n;
        assert sls[i + 1].start == id && sls[i + 1].name == n;
      }
    }
  }

  /** The queue entries built from the car lines are exactly the cars whose
      route starts with the street, each with countdown 0, in car-line order. */
  lemma {:induction false} StartersAreFirstStreetCars(cls: seq<CarLine>, k: nat, n: StreetName)
    ensures forall j, c :: (j, c) in StartersFrom(cls, k, n)
              <==> c == 0 && k <= j < |cls| && |cls[j].route| >= 1 && cls[j].route[0] == n
    ensures forall a, b :: 0 <= a < b < |StartersFrom(cls, k, n)|
              ==> StartersFrom(cls, k, n)[a].0 < StartersFrom(cls, k, n)[b].0
    decreases |cls| - k
  {
    if k < |cls| {
      StartersAreFirstStreetCars(cls, k + 1, n);
    }
  }

  /** Every car line, including one whose id a later line repeats, is
      queued with countdown 0 on the first street of its route. */
  lemma EveryCarLineQueued(text: string, k: nat)
    requires WellFormedInput(text) && ParseProblem(text).Parsed?
    requires k < |CarLines(text)|
    ensures var cls, p := CarLines(text), ParseProblem(text).problem;
            |cls[k].route| >= 1 && cls[k].route[0] in p.streets
            && (k, 0) in p.streets[cls[k].route[0]].queue
  {
    var sls, cls := StreetLines(text), CarLines(text);
    ParsedStreets(text);
    assert RouteResolves(cls[k].route, DeclaredNames(sls));
    StartersAreFirstStreetCars(cls, 0, cls[k].route[0]);
  }

  /** The kept positions have pairwise distinct ids, and every id of a car
      line is the id of a kept position. */
  lemma KeptIdsAreLastOccurrences(ids: seq<nat>)
    ensures forall a, b :: 0 <= a < b < |KeptFrom(ids, 0)| ==> ids[KeptFrom(ids, 0)[a]] != ids[KeptFrom(ids, 0)[b]]
    ensures forall k :: 0 <= k < |ids| ==> exists j :: j in KeptFrom(ids, 0) && ids[j] == ids[k]
  {
    var kept := KeptFrom(ids, 0);
    forall a, b | 0 <= a < b < |kept| ensures ids[kept[a]] != ids[kept[b]] {
      var x, y := kept[a], kept[b];
      assert x in kept;
      assert ids[y] == ids[x + 1..][y - x - 1];
    }
    forall k | 0 <= k < |ids| ensures exists j :: j in kept && ids[j] == ids[k] {
      var j := LastOccurrence(ids, k);
      assert j in kept;
    }
  }

  /** The last position at or after `k` that holds the id at `k`. */
  lemma LastOccurrence(ids: seq<nat>, k: nat) returns (j: nat)
    requires k < |ids|
    ensures k <= j < |ids| && ids[j] == ids[k] && ids[j] !in ids[j + 1..]
    decreases |ids| - k
  {
    if ids[k] !in ids[k + 1..] {
      j := k;
    } else {
      var m :| 0 <= m < |ids[k + 1..]| && ids[k + 1..][m] == ids[k];
      j := LastOccurrence(ids, k + 1 + m);
    }
  }

  /** A car line whose id a later car line repeats is not among the kept cars. */
  lemma RepeatedIdDropsEarlierLine(ids: seq<nat>, j: nat, k: nat)
    requires j < k < |ids| && ids[j] == ids[k]
    ensures j !in KeptFrom(ids, 0)
  {
    assert ids[j + 1..][k - j - 1] == ids[k];
  }

  /** Of the header, only the horizon and the bonus reach the network; the
      street and car counts only select the lines, and the intersection
      count is never used. */
  lemma IntersectionCountUnused(h: Header, other: Header, sls: seq<StreetLine>, cls: seq<CarLine>)
    requires h.seconds == other.seconds && h.bonus == other.bonus
    ensures Assemble(h, sls, cls) == Assemble(other, sls, cls)
  {
  }
}
