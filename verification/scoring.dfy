/** The scorer: every car that reached its destination at second `t` earns
    the bonus plus the seconds left after `t`; other cars earn nothing. The
    running total is an unsigned 32-bit integer, so a total above its range
    is an overflow panic, modelled as `None`. */
module Scoring {
  import opened Network
  import opened Sums

  /** What one car earns: nothing without an arrival, and otherwise, for an
      arrival within the horizon, at least the bonus and at most the bonus
      plus the horizon. */
  function Earned(car: Car, seconds: nat, bonus: nat): (points: int)
    ensures car.destinationReachedAt.None? ==> points == 0
    ensures car.destinationReachedAt.Some? && car.destinationReachedAt.value <= seconds
            ==> bonus <= points <= bonus + seconds
  {
    match car.destinationReachedAt
    case None => 0
    case Some(t) => bonus + (seconds - t)
  }

  function EarnedBy(seconds: nat, bonus: nat): Car -> int
  {
    car => Earned(car, seconds, bonus)
  }

  /** The score as a plain sum over the cars, with no range limit. */
  function TotalScore(cars: seq<Car>, seconds: nat, bonus: nat): int
  {
    SumOf(cars, EarnedBy(seconds, bonus))
  }

  /** No car arrived after the horizon, so no per-car subtraction underflows. */
  predicate ArrivalsWithin(cars: seq<Car>, seconds: nat)
  {
    forall k :: 0 <= k < |cars| && cars[k].destinationReachedAt.Some? ==> cars[k].destinationReachedAt.value <= seconds
  }

  /** The scorer's loop over the kept cars, with unsigned 32-bit arithmetic:
      it returns the total when the total fits, and `None` (the overflow
      panic) when it does not. */
  method CalculateScore(p: Problem) returns (score: Option<nat>)
    requires p.CarsResolve()
    requires ArrivalsWithin(p.KeptCars(), p.amountOfSeconds)
    ensures var total := TotalScore(p.KeptCars(), p.amountOfSeconds, p.bonusPoints);
            score == if total <= U32_MAX then Some(total) else None
  {
    ghost var cars := p.KeptCars();
    ghost var f := EarnedBy(p.amountOfSeconds, p.bonusPoints);
    ghost var total := TotalScore(cars, p.amountOfSeconds, p.bonusPoints);
    var sum: nat := 0;
    var i := 0;
    while i < |p.cars|
      invariant 0 <= i <= |p.cars|
      invariant sum <= U32_MAX
      invariant sum == SumOf(cars[..i], f)
    {
      var car := p.fleet[p.cars[i]];
      assert cars[..i + 1] == cars[..i] + [car];
      SumOfConcat(cars[..i], [car], f);
      SumOfPrefix(cars, i + 1, f);
      match car.destinationReachedAt {
        case None =>
        case Some(t) =>
          var earned := p.bonusPoints + (p.amountOfSeconds - t);
          if earned > U32_MAX || sum + earned > U32_MAX {
            return None;
          }
          sum := sum + earned;
      }
      i := i + 1;
    }
    assert cars[..i] == cars;
    score := Some(sum);
  }

  /** The score does not depend on the order in which the cars are visited. */
  lemma ScoreIgnoresCarOrder(cars: seq<Car>, reordered: seq<Car>, seconds: nat, bonus: nat)
    requires multiset(cars) == multiset(reordered)
    ensures TotalScore(cars, seconds, bonus) == TotalScore(reordered, seconds, bonus)
  {
    SumOfPermutation(cars, reordered, EarnedBy(seconds, bonus));
  }

  /** A larger bonus never lowers the score. */
  lemma ScoreMonotoneInBonus(cars: seq<Car>, seconds: nat, bonus: nat, bonus': nat)
    requires bonus <= bonus'
    ensures TotalScore(cars, seconds, bonus) <= TotalScore(cars, seconds, bonus')
  {
    SumOfMonotone(cars, EarnedBy(seconds, bonus), EarnedBy(seconds, bonus'));
  }

  /** Cars that never arrived add nothing: dropping them leaves the score unchanged. */
  lemma {:induction false} UnarrivedCarsAddNothing(cars: seq<Car>, seconds: nat, bonus: nat)
    ensures TotalScore(cars, seconds, bonus) == TotalScore(Arrived(cars), seconds, bonus)
  {
    if |cars| > 0 {
      UnarrivedCarsAddNothing(cars[1..], seconds, bonus);
      var f := EarnedBy(seconds, bonus);
      var rest := Arrived(cars[1..]);
      assert TotalScore(cars, seconds, bonus) == f(cars[0]) + TotalScore(cars[1..], seconds, bonus);
      if cars[0].destinationReachedAt.Some? {
        assert Arrived(cars) == [cars[0]] + rest;
        assert ([cars[0]] + rest)[1..] == rest;
        assert SumOf([cars[0]] + rest, f) == f(cars[0]) + SumOf(rest, f);
      } else {
        assert Arrived(cars) == rest;
      }
    }
  }

  /** The cars that reached their destination, in order. */
  function Arrived(cars: seq<Car>): (arrived: seq<Car>)
    ensures forall k :: 0 <= k < |arrived| ==> arrived[k].destinationReachedAt.Some?
    ensures multiset(arrived) <= multiset(cars)
  {
    if |cars| == 0 then []
    else
      assert cars == [cars[0]] + cars[1..];
      (if cars[0].destinationReachedAt.Some? then [cars[0]] else []) + Arrived(cars[1..])
  }
}
