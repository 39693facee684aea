/** The parsed realtime feed: stop predictions, trips, and the keys that identify them. */
module BusFeed {
  import opened Wrappers

  /** Every field of a stop prediction that enters its state hash. */
  datatype StopState = StopState(
    entityId: Option<string>,
    tripId: Option<string>,
    routeId: Option<string>,
    serviceDate: Option<int>,
    vehicleId: Option<string>,
    tripKey: string,
    stopId: Option<string>,
    stopSequence: Option<int>,
    relationship: Option<string>,
    arrivalTime: Option<int>,
    departureTime: Option<int>,
    arrivalDelay: Option<int>,
    departureDelay: Option<int>)

  /** A prediction; its hash is taken to be injective, so the state stands for the hash. */
  datatype StopUpdate = StopUpdate(state: StopState, source: Option<int>)

  datatype Trip = Trip(tripKey: string, tripId: Option<string>, routeId: Option<string>, source: Option<int>,
                       relationship: string)

  datatype StopKey = Sequence(number: int) | StopId(id: string) | Unknown

  datatype Key = Key(feed: nat, trip: string, stop: StopKey)

  datatype FeedTrip = FeedTrip(feed: nat, trip: string)

  function StopKeyOf(s: StopState): StopKey {
    if s.stopSequence.Some? then Sequence(s.stopSequence.value)
    else if s.stopId.Some? then StopId(s.stopId.value)
    else Unknown
  }

  function KeyOf(feed: nat, s: StopState): Key {
    Key(feed, s.tripKey, StopKeyOf(s))
  }

  /**
   Two predictions have the same key exactly when they are of one feed, trip and stop sequence and,
   where no sequence is given, of one stop.
   */
  lemma KeysTellStopsApart(f: nat, a: StopState, g: nat, b: StopState)
    ensures KeyOf(f, a) == KeyOf(g, b) <==>
            && f == g && a.tripKey == b.tripKey && a.stopSequence == b.stopSequence
            && (a.stopSequence.None? ==> a.stopId == b.stopId)
    ensures TripOf(KeyOf(f, a)) == FeedTrip(f, a.tripKey)
  {}

  function TripOf(k: Key): FeedTrip {
    FeedTrip(k.feed, k.trip)
  }

  function DelayOf(s: StopState): Option<int> {
    if s.departureDelay.Some? then s.departureDelay else s.arrivalDelay
  }
}
