/** What the builder makes of a freshly read network: since an
    intersection's incoming streets are the street lines that end there, an
    intersection gets a cycle exactly when one street line ends at it. */
module Pipeline {
  import opened Network
  import Parser
  import Scheduler

  lemma ScheduleOfParsedNetwork(text: string, id: nat)
    requires Parser.WellFormedInput(text) && Parser.ParseProblem(text).Parsed?
    ensures var p, sls := Parser.ParseProblem(text).problem, Parser.StreetLines(text);
            p.CarsResolve()
            && (id in Scheduler.Solve(p) <==> |Parser.EndingAt(sls, id)| == 1)
            && (id in Scheduler.Solve(p) ==> Scheduler.Solve(p)[id] == [(Parser.EndingAt(sls, id)[0], 1)])
  {
    Parser.ParsedCars(text);
    Parser.ParsedIntersections(text);
    var sls := Parser.StreetLines(text);
    if |Parser.EndingAt(sls, id)| >= 1 {
      Parser.ListedAtEnds(sls, id, Parser.EndingAt(sls, id)[0]);
    }
  }
}
