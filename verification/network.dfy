/** The road network and the schedule, as an arena: streets are stored by
    name, intersections by id, and cars by the position of their line among
    the car lines of the input. Every relationship that the original keeps as
    a shared handle (a car's route, an intersection's streets, a street's
    queue of cars) is stored here as a list of names or car positions. */
module Network {

  datatype Option<T> = None | Some(value: T)

  type StreetName = string

  /** Position of a car's line among the car lines of the input, 0-based. */
  type CarIndex = nat

  /** Largest value of an unsigned 32-bit integer. */
  const U32_MAX: nat := 0xFFFF_FFFF

  /** A directed street. `queue` lists the cars heading for the street's end,
      in arrival order, each with the seconds it still needs to get there. */
  datatype Street = Street(name: StreetName, queue: seq<(CarIndex, nat)>, timeToTravel: nat)

  /** A car: its id, the streets it drives along in order, and when it
      reached the end of its route, if it has. */
  datatype Car = Car(id: nat, path: seq<StreetName>, destinationReachedAt: Option<nat>)

  /** A junction: streets ending here and streets starting here, in input order. */
  datatype Intersection = Intersection(incoming: seq<StreetName>, outgoing: seq<StreetName>)

  /** The whole problem. `fleet` holds every car read from the input, at its
      car-line position; `cars` lists the positions of the cars the problem
      keeps (one per car id), and is what the schedule builder and the scorer
      go over. */
  datatype Problem = Problem(
    amountOfSeconds: nat,
    bonusPoints: nat,
    fleet: seq<Car>,
    cars: seq<CarIndex>,
    streets: map<StreetName, Street>,
    intersections: map<nat, Intersection>)
  {
    /** Every kept car position addresses a car of the fleet. */
    predicate CarsResolve()
    {
      forall k :: 0 <= k < |cars| ==> cars[k] < |fleet|
    }

    /** The kept cars themselves, in the order `cars` lists them. */
    function KeptCars(): (kept: seq<Car>)
      requires CarsResolve()
      ensures |kept| == |cars|
      ensures forall k :: 0 <= k < |cars| ==> kept[k] == fleet[cars[k]]
    {
      seq(|cars|, k requires 0 <= k < |cars| => fleet[cars[k]])
    }
  }

  /** One light cycle entry: a street that is green, and for how many seconds. */
  type Phase = (StreetName, nat)

  /** The traffic-light plan: for each scheduled intersection id, its cycle of phases. */
  type Schedule = map<nat, seq<Phase>>
}
