# Traffic-light scheduler (Hash Code 2021 qualification), modelled in Dafny

This project models the deterministic core of a traffic-light scheduler for
the Hash Code 2021 qualification problem and proves properties of it. The
original is written in Rust. The model covers five pieces:

- the input reader (`parse_problem`). It turns the text format into a road
  network: streets, intersections with their incoming and outgoing streets,
  and cars with their routes.
- the schedule builder (`solve`).
- the cyclic light lookup (`is_light_green`).
- the scorer (`calculate_score`).
- the schedule writer (`solution_to_string`).

The original keeps its network as shared, interior-mutable handles. Here the
network is an arena:

- streets live in a map keyed by name;
- intersections live in a map keyed by id, and list their streets by name;
- cars are addressed by the position of their line among the car lines;
- a street's queue is a sequence of (car position, countdown) pairs.

`Problem.fleet` holds every car that was read. `Problem.cars` lists the
positions of the cars that the id-keyed car table keeps.

Modules, one per file:

- `Text` (`text.dfy`): splitting at a character, joining, the line reader,
  and decimal numerals. Each comes with round-trip lemmas.
- `Network` (`network.dfy`): the data model.
- `Sums` (`sums.dfy`): sums and maps over sequences. They split over
  concatenation, ignore element order, and are monotone.
- `Scheduler` (`scheduler.dfy`): `solve`.
- `Lights` (`lights.dfy`): `is_light_green`, with its loop modelled for any
  number of steps.
- `Scoring` (`scoring.dfy`): `calculate_score`.
- `Parser` (`parser.dfy`): `parse_problem`.
- `Output` (`output.dfy`): `solution_to_string`, plus a reader for its format.
- `Pipeline` (`pipeline.dfy`): what `solve` makes of a network that was just read.

The code departs from its evident intent in several places; the model
follows the code:

- Intersections with two or more incoming streets never get a cycle. The
  code that would emit one is guarded by a literal `if false`.
- A car's id is the first token of its car line, which is the declared route
  length. It is not the car's position in the input. Car lines that share
  that number overwrite one another in the car table, but every one of them
  is still queued on its first street.
- `is_light_green` shadows its time argument with `0`. It therefore always
  answers from the cycle's first phase and ignores the time.
- The first output line is the number of entries in the schedule table. It
  is not the number of non-empty schedules.
- The reader does not check duplicate street names. A later street line with
  the same name replaces the earlier street.

Integers are unbounded in Dafny; where the source's unsigned 32-bit
arithmetic can fail, the failure is modelled explicitly as `None`:

- the score accumulation overflowing, as a panicking build would do;
- the cycle walk's countdown underflowing.

Index panics are also modelled as `None` or `Failed`:

- a lookup at an intersection with no cycle;
- a route naming an undeclared street;
- a car line with no route.

## Model

| member | source | states |
|---|---|---|
| Scheduler.Solve | src/lib.rs:42-100 | The schedule has an entry for an intersection exactly when the intersection has one incoming street. The entry is the one-phase cycle giving that street one second. Intersections with zero or several incoming streets never get an entry. |
| Scheduler.CountStreetUses | src/lib.rs:64-74 | The count table has a name exactly when some kept car's route uses it. Its value is the number of occurrences over all kept routes, so a street repeated on one route counts twice. |
| Scheduler.TallyRoutes | src/lib.rs:65-74 | Visiting the routes in turn adds, to every name's count, its occurrences over those routes. A name gets an entry exactly when it already had one or the routes use it. |
| Scheduler.TallyRoute | src/lib.rs:66-73 | Visiting one route adds each name's occurrences in that route to its count. The new key set is the old one plus the route's names. |
| Scheduler.Bump | src/lib.rs:67-71 | An existing count goes up by one; a missing name is inserted with count one; every other count is unchanged. |
| Scheduler.UsedSomewhere | src/lib.rs:64-74 | A name's total occurrence count is positive exactly when some route contains the name. |
| Scheduler.CountIgnoresCarOrder | src/lib.rs:64-74 | Visiting the cars in any other order yields the same count table. |
| Scheduler.FilterUsed | src/lib.rs:76-83 | The filtered incoming streets keep their original relative order. They hold each counted street as often as the input does, and no uncounted street. |
| Scheduler.FilterUsedIdempotent | src/lib.rs:76-83 | Applying the filter twice gives the same result as applying it once. |
| Scheduler.ContendedCycleIsDriven | src/lib.rs:64-94 | Were the disabled branch enabled, every phase of a contended intersection's cycle would last one second. A street would be on the cycle exactly when it is incoming there and some kept car's route drives through it. |
| Scheduler.ContendedCycleEmpty | src/lib.rs:76-94 | Were the disabled branch enabled, a contended intersection would get an empty cycle exactly when no route drives through any of its incoming streets. The lookup panics on such a cycle at src/lib.rs:169. |
| Scheduler.FilterUsedEmpty | src/lib.rs:76-83 | The filter leaves nothing exactly when none of the incoming streets is counted. |
| Scheduler.FilterUsedKeeps | src/lib.rs:76-83 | The filter keeps a name exactly when it is incoming and counted. |
| Lights.CycleWalk | src/lib.rs:168-176 | After any number of steps the phase index is in range and the countdown is at most that phase's duration. If every phase lasts at least a second, the decrement never underflows. After n ≥ 1 steps the walk then stands on the phase active at second n−1 of the cycle, as computed from cumulative durations and the remainder modulo the cycle length. After zero steps it stands on the first phase. |
| Lights.IsLightGreen | src/lib.rs:160-178 | The lookup panics exactly when the intersection has no cycle or an empty one. Otherwise it answers, at every time, whether the street is that of the cycle's first phase. |
| Lights.SolvedLightFollowsSoleStreet | src/lib.rs:166-177 | Under the schedule `solve` builds, the lookup at an intersection with one incoming street is true exactly for that street. At every other intersection it panics. |
| Lights.NextPhase | src/lib.rs:172 | The phase after the last one is the first; otherwise it is the next one. |
| Lights.ActiveEntryInWindow | src/lib.rs:168-176 | A time offset inside a phase's cumulative window selects that phase in the reference cycle position. |
| Scoring.Earned | src/lib.rs:183-185 | A car that never arrived earns nothing. A car that arrived within the horizon earns at least the bonus and at most the bonus plus the horizon. |
| Scoring.CalculateScore | src/lib.rs:180-188 | The scorer returns the sum, over the kept cars, of bonus + (horizon − t) for each car that arrived at t. Cars that never arrived add nothing. The result is `None` exactly when the sum exceeds the unsigned 32-bit range. It requires every arrival to be within the horizon. |
| Scoring.ScoreIgnoresCarOrder | src/lib.rs:182-186 | The score does not depend on the order in which the cars are visited. |
| Scoring.ScoreMonotoneInBonus | src/lib.rs:184 | Raising the bonus never lowers the score. |
| Scoring.UnarrivedCarsAddNothing | src/lib.rs:183-185 | Dropping the cars that never arrived leaves the score unchanged. |
| Parser.ParseProblem | src/main.rs:73-168 | Reading fails exactly when some car line's route is empty or names an undeclared street. On success the horizon is header token 0 and the bonus is header token 4. |
| Parser.Assemble | src/main.rs:87-167 | Building the network from the header, street lines and car lines fails exactly when some route is empty or names an undeclared street. On success it takes horizon and bonus from the header. |
| Text.Lines | src/main.rs:74 | No contract of its own. `Text.LinesAvoidLineFeed`, `Text.LinesAreSplitPieces` and `Text.LinesRejoin` relate the lines to the text. |
| Text.LinesAvoidLineFeed | src/main.rs:74 | No line contains a line feed. |
| Text.LinesAreSplitPieces | src/main.rs:74 | For a non-empty text without carriage returns, the lines are the pieces between line feeds, less an empty last piece. |
| Parser.ReadHeader | src/main.rs:76-85 | No contract of its own. `Parser.ReadHeaderInverts` states that it inverts the header writer. |
| Parser.ReadHeaderInverts | src/main.rs:76-85 | A header line written from five numbers in the unsigned 32-bit range is well-formed and reads back as those numbers. |
| Parser.ReadStreetLine | src/main.rs:92-96 | No contract of its own. `Parser.ReadStreetLineInverts` states that it inverts the street-line writer. |
| Parser.ReadStreetLineInverts | src/main.rs:92-96 | A street line written from a space-free name and numbers in the unsigned 32-bit range is well-formed and reads back as that street. |
| Parser.ReadCarLine | src/main.rs:136-143 | No contract of its own. `Parser.ReadCarLineInverts` states that it inverts the car-line writer. |
| Parser.ReadCarLineInverts | src/main.rs:136-143 | A car line written from an id in the unsigned 32-bit range and space-free street names is well-formed and reads back as that car line, an empty route included. |
| Parser.IntersectionCountUnused | src/main.rs:81-85 | Two headers with the same horizon and bonus build the same network from the same street and car lines. The intersection count is never used. |
| Parser.ParsedStreets | src/main.rs:91-159 | The streets are exactly the declared names. Each has its own name and the duration of the last street line with that name. Its queue holds, in car-line order, every car whose route starts with it, each with countdown 0. |
| Parser.LastLineWins | src/main.rs:99-104 | The duration a name ends up with is that of the last street line declaring the name. |
| Parser.ParsedIntersections | src/main.rs:106-131 | The intersections are exactly the ids that some street line starts or ends at. Each lists the streets ending there and the streets starting there, in input order. |
| Parser.ListedAtEnds | src/main.rs:106-131 | A street is listed as incoming (outgoing) at an intersection exactly when some street line of that name ends (starts) there. |
| Parser.AddStreets | src/main.rs:91-132 | No contract of its own. `Parser.AddStreetsStreets` and `Parser.AddStreetsAt` state what the loop builds. |
| Parser.AddStreetsStreets | src/main.rs:91-104 | Reading the street lines in order stores each street under its name, with an empty queue. A name is stored exactly when a line declares it, and it keeps the street of its last line. |
| Parser.AddStreetsAt | src/main.rs:91-132 | Reading the street lines in order appends each street to its end's incoming list and its start's outgoing list, in input order. An intersection exists exactly when some line starts or ends there. |
| Parser.AddStreet | src/main.rs:98-131 | One street line replaces the street of that name and creates or extends its start's outgoing list, then its end's incoming list. |
| Parser.ParsedCars | src/main.rs:135-164 | Every car line becomes a fleet car with its id from token 0, its route from tokens 1 onward, and no arrival time. The kept cars are the last line for each id. |
| Parser.FirstCarError | src/main.rs:139-158 | No car line fails exactly when every route is non-empty and declared throughout. |
| Parser.RouteError | src/main.rs:139-154 | A car line fails exactly when its route is empty or names an undeclared street. |
| Parser.FirstUnknown | src/main.rs:141-143 | The reported street occurs in the route and is undeclared. No street is reported when every route street is declared. |
| Parser.Enqueue | src/main.rs:152-158 | Queuing the cars appends to each street's queue its starting cars in car-line order. Nothing else about the streets changes. |
| Parser.PushBack | src/main.rs:152-158 | One car is appended at the back of its first street's queue, and every other street is unchanged. |
| Parser.StartersAreFirstStreetCars | src/main.rs:152-158 | A queue entry exists exactly for each car line whose route starts with the street, with countdown 0, in increasing car-line order. |
| Parser.EveryCarLineQueued | src/main.rs:145-158 | Every car line, including one whose id a later line repeats, sits with countdown 0 in the queue of its route's first street. |
| Parser.KeptFrom | src/main.rs:151 | The id-keyed car table keeps exactly the positions whose id no later line repeats, in increasing order. |
| Parser.KeptIdsAreLastOccurrences | src/main.rs:151-164 | Kept cars have pairwise distinct ids, and every id read appears on a kept car. |
| Parser.RepeatedIdDropsEarlierLine | src/main.rs:137-151 | A car line whose id, its declared route length, is repeated by a later line is not kept. |
| Parser.LastDurationDeclared | src/main.rs:91-104 | A name has a stored street exactly when some street line declares it. |
| Pipeline.ScheduleOfParsedNetwork | src/lib.rs:46-55 | For a network just read, `solve` schedules an intersection exactly when one street line ends there, and gives that street one second. |
| Output.SolutionToString | src/main.rs:170-192 | No contract of its own. `Output.OutputLayout`, `Output.OutputOrderIndependent` and `Output.WriteThenRead` state its layout, its independence of enumeration order, and its inverse. |
| Output.BlocksAreBlockList | src/main.rs:174-189 | The written blocks are the per-intersection blocks concatenated in enumeration order. This ties `Output.OutputOrderIndependent` to the text written. |
| Output.OutputLayout | src/main.rs:170-191 | The output split at line feeds is exactly the written lines, provided no street name contains a line feed. There are 1 + Σ(2 + cycle length) lines, and the first is the number of scheduled intersections. |
| Output.OutputOrderIndependent | src/main.rs:172-189 | Any two enumerations of the schedule table give the same first line and the same multiset of intersection blocks. |
| Output.WriteThenRead | src/main.rs:170-191 | Reading the written text back gives the schedule, in every enumeration order, when street names have no spaces or line feeds. |
| Output.ReadWrittenBlocks | src/main.rs:174-189 | Reading back the blocks written for distinct intersections gives exactly their cycles. |
| Output.ReadOneBlock | src/main.rs:178-186 | One block (the id line, the count line, then one `name duration` line per phase) reads back as its intersection's cycle. |
| Output.ReadPhaseLine | src/main.rs:181 | A `name duration` line reads back as its phase when the name has no space. |
| Output.BlocksSize | src/main.rs:178-189 | The blocks contribute 2 + cycle length lines per listed intersection. |
| Text.SplitJoin | src/main.rs:191 | Joining lines with line feeds and splitting the result at line feeds gives the lines back, if none contains a line feed. |
| Text.NumeralRoundTrip | src/main.rs:172 | Writing a number in decimal and reading the digits back gives the number. |
| Text.LinesRejoin | src/main.rs:74 | For a text without carriage returns, rejoining its lines gives back the text, except possibly one final line feed. |

## Left out

- `simulate` and `simulate_step` (src/lib.rs:102-158) are not modelled. The code is unfinished: it ends in `todo!()` and so panics on every call. Its crossing condition is always false. It also removes queue entries while iterating the same queue under a live borrow, which panics at run time. Modelling the intended simulation instead would invent behaviour.
- The test modules of both files are left out. They are incomplete and hold no assertions.
- `main`, `handle_file`, `parse_problem_from_file` and `build.rs` are left out. They only handle command-line arguments, file-system I/O and packaging.
- Aliasing of shared handles is not represented. When a street line reuses a name, the original's intersection lists keep a handle to the replaced street object. Here they hold the name, which now refers to the replacement. The replaced object's own duration is therefore not represented.
- Hash-table iteration order is not modelled. Streets and intersections are maps. `Problem.cars` lists the kept cars in car-line order; counts and scores are proved independent of that order. The writer takes the enumeration order as a parameter.
- Malformed numeric tokens, short header or street lines, and missing lines are preconditions (`Parser.WellFormedInput`), not modelled failures. The original's unsigned parse also accepts a leading `+`, which the numerals here do not.
- Parser.WellFormedInput: the bound on 1 + street count + car count stands in for the overflow of that sum in the original's range computation.
- Text.Lines: models the current standard-library line iterator. A carriage return is removed only before a line feed.
- Scheduler.CountStreetUses: counts are unbounded. The original's 64-bit counters cannot realistically overflow.
- Scoring.CalculateScore: models overflow as the panic of a build with overflow checks. A build without them would wrap the total modulo 2^32; that behaviour is not modelled.
- Lights.CycleWalk: states that the walk cannot underflow when every phase lasts at least a second. It does not characterise which schedules with a zero-length phase do make it underflow.
- Output.WriteThenRead: holds only for street names without spaces or line feeds. Other names make the written format ambiguous.
