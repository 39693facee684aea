/**
 What the webhook's routing adds to convergence, over runs in which events arrive and users
 register: an event that names no user, and whose customer no row knows yet, is acknowledged
 and lost; one that names a user who does not exist yet is refused, so that it comes again.
 */
module WebhookDelivery {
  import opened Wrappers
  import opened Billing

  datatype Act = Delivered(delivery: Delivery) | Registered(user: nat)

  ghost function StepOf(db: Tables, a: Act, config: Config): Tables {
    match a
    case Delivered(d) => Deliver(db, d, config)
    case Registered(id) => Step(db, Register(id))
  }

  ghost function RunOf(db: Tables, acts: seq<Act>, config: Config): Tables {
    if acts == [] then db else StepOf(RunOf(db, acts[..|acts| - 1], config), acts[|acts| - 1], config)
  }

  // ---- Customers and their users ----

  /** Each customer belongs to one user of its own, who may not exist yet, and rows only know their own customer. */
  ghost predicate IsOwned(db: Tables, owners: map<string, nat>) {
    && (forall c, d | c in owners && d in owners && owners[c] == owners[d] :: c == d)
    && forall id | id in db.users :: IsOwnRow(db.users[id], id, owners)
  }

  predicate IsOwnRow(row: User, id: nat, owners: map<string, nat>) {
    && (row.customer.Some? ==> row.customer.value in owners && owners[row.customer.value] == id)
    && (row.updatedAt.Some? ==> row.customer.Some?)
  }

  predicate IsFrom(d: Delivery, owners: map<string, nat>) {
    d.customer in owners && (d.external.Some? ==> d.external.value == owners[d.customer])
  }

  predicate IsLinked(db: Tables, owners: map<string, nat>, customer: string) {
    && customer in owners && owners[customer] in db.users
    && db.users[owners[customer]].customer == Some(customer)
  }

  lemma ResolveOwned(db: Tables, owners: map<string, nat>, d: Delivery)
    requires IsOwned(db, owners) && IsFrom(d, owners)
    ensures Resolve(db.users, d) ==
            if IsLinked(db, owners, d.customer) || d.external.Some? then Some(owners[d.customer]) else None
  {
    var owner := Owner(db.users, d.customer);
    if IsLinked(db, owners, d.customer) {
      assert IsCustomerOf(db.users, d.customer, owners[d.customer]);
    }
    if owner.Some? {
      assert IsOwnRow(db.users[owner.value], owner.value, owners);
    }
  }

  /** The delivery finds its user, who exists. */
  predicate Lands(db: Tables, owners: map<string, nat>, d: Delivery)
    requires d.customer in owners
  {
    IsLinked(db, owners, d.customer) || (d.external.Some? && owners[d.customer] in db.users)
  }

  /** A delivery that lands never meets a foreign customer, so it is recorded; any other leaves the tables alone. */
  lemma DeliverOwned(db: Tables, owners: map<string, nat>, d: Delivery, config: Config)
    requires IsOwned(db, owners) && IsFrom(d, owners)
    ensures var after := Deliver(db, d, config);
            && IsOwned(after, owners)
            && after.users.Keys == db.users.Keys
            && after.events == db.events + (if Lands(db, owners, d) then {d.eventId} else {})
            && (!Lands(db, owners, d) ==> after == db)
            && (forall c :: IsLinked(after, owners, c) <==>
                  || IsLinked(db, owners, c)
                  || (c == d.customer && Lands(db, owners, d) && d.eventId !in db.events))
  {
    ResolveOwned(db, owners, d);
    if Lands(db, owners, d) {
      var id := owners[d.customer];
      assert IsOwnRow(db.users[id], id, owners);
      forall other | other in db.users && db.users[other].customer == Some(d.customer)
        ensures other == id
      {
        assert IsOwnRow(db.users[other], other, owners);
      }
      forall row | row in Deliver(db, d, config).users
        ensures IsOwnRow(Deliver(db, d, config).users[row], row, owners)
      {
        assert IsOwnRow(db.users[row], row, owners);
      }
    }
  }

  lemma RegisterOwned(db: Tables, owners: map<string, nat>, id: nat)
    requires IsOwned(db, owners)
    ensures var after := Step(db, Register(id));
            && IsOwned(after, owners) && after.events == db.events && after.users.Keys == db.users.Keys + {id}
            && forall c :: IsLinked(after, owners, c) <==> IsLinked(db, owners, c)
  {}

  // ---- What a run makes known ----

  /** The user exists from the start or registers in the run. */
  predicate IsUserAfter(db: Tables, acts: seq<Act>, id: nat) {
    id in db.users || Registered(id) in acts
  }

  /** Act j is a delivery of the customer that names its user, who exists by then. */
  predicate Names(db: Tables, owners: map<string, nat>, acts: seq<Act>, customer: string, j: nat) {
    && j < |acts| && acts[j].Delivered? && acts[j].delivery.customer == customer
    && acts[j].delivery.external.Some? && customer in owners && IsUserAfter(db, acts[..j], owners[customer])
  }

  /** The row knew the customer from the start, or a delivery of the customer has named its existing user. */
  ghost predicate IsKnownAfter(db: Tables, owners: map<string, nat>, acts: seq<Act>, customer: string) {
    IsLinked(db, owners, customer) || exists j :: Names(db, owners, acts, customer, j)
  }

  predicate OneDelivery(acts: seq<Act>) {
    forall i, j | 0 <= i < |acts| && 0 <= j < |acts| && acts[i].Delivered? && acts[j].Delivered? &&
                  acts[i].delivery.eventId == acts[j].delivery.eventId :: acts[i] == acts[j]
  }

  ghost predicate AreFrom(db: Tables, acts: seq<Act>, owners: map<string, nat>) {
    && OneDelivery(acts)
    && forall i | 0 <= i < |acts| && acts[i].Delivered? ::
         IsFrom(acts[i].delivery, owners) && acts[i].delivery.eventId !in db.events
  }

  lemma FromPrefix(db: Tables, acts: seq<Act>, owners: map<string, nat>)
    requires acts != [] && AreFrom(db, acts, owners)
    ensures AreFrom(db, acts[..|acts| - 1], owners)
  {
    assert forall i | 0 <= i < |acts| - 1 :: acts[..|acts| - 1][i] == acts[i];
  }

  lemma KnownStep(db: Tables, owners: map<string, nat>, acts: seq<Act>, customer: string)
    requires acts != []
    ensures IsKnownAfter(db, owners, acts, customer) <==>
            || IsKnownAfter(db, owners, acts[..|acts| - 1], customer)
            || Names(db, owners, acts, customer, |acts| - 1)
  {
    var before := acts[..|acts| - 1];
    forall j | 0 <= j < |before|
      ensures Names(db, owners, acts, customer, j) == Names(db, owners, before, customer, j)
    {
      assert before[j] == acts[j] && before[..j] == acts[..j];
    }
    if j: nat :| Names(db, owners, acts, customer, j) {
      assert j < |before| ==> Names(db, owners, before, customer, j);
    }
    if j: nat :| Names(db, owners, before, customer, j) {
      assert Names(db, owners, acts, customer, j);
    }
  }

  lemma UserStep(db: Tables, acts: seq<Act>, id: nat)
    requires acts != []
    ensures IsUserAfter(db, acts, id) <==> IsUserAfter(db, acts[..|acts| - 1], id) || acts[|acts| - 1] == Registered(id)
  {
    assert acts == acts[..|acts| - 1] + [acts[|acts| - 1]];
  }

  /** A recorded event belongs to a delivery of a linked customer. */
  predicate IsAccounted(s: Tables, owners: map<string, nat>, acts: seq<Act>, id: string) {
    exists i | 0 <= i < |acts| ::
      acts[i].Delivered? && acts[i].delivery.eventId == id && IsLinked(s, owners, acts[i].delivery.customer)
  }

  predicate AllAccounted(db: Tables, s: Tables, owners: map<string, nat>, acts: seq<Act>) {
    forall id | id in s.events && id !in db.events :: IsAccounted(s, owners, acts, id)
  }

  lemma StepAccounted(db: Tables, s: Tables, t: Tables, owners: map<string, nat>, acts: seq<Act>)
    requires acts != [] && AllAccounted(db, s, owners, acts[..|acts| - 1])
    requires forall c | IsLinked(s, owners, c) :: IsLinked(t, owners, c)
    requires forall id | id in t.events && id !in s.events ::
               && acts[|acts| - 1].Delivered? && acts[|acts| - 1].delivery.eventId == id
               && IsLinked(t, owners, acts[|acts| - 1].delivery.customer)
    ensures AllAccounted(db, t, owners, acts)
  {
    var before := acts[..|acts| - 1];
    forall id | id in t.events && id !in db.events
      ensures IsAccounted(t, owners, acts, id)
    {
      if id in s.events {
        assert IsAccounted(s, owners, before, id);
        var i :| 0 <= i < |before| && before[i].Delivered? && before[i].delivery.eventId == id &&
                 IsLinked(s, owners, before[i].delivery.customer);
        assert acts[i] == before[i];
      } else {
        assert acts[|acts| - 1].delivery.eventId == id;
      }
    }
  }

  lemma RecordedIsLinked(db: Tables, s: Tables, owners: map<string, nat>, acts: seq<Act>)
    requires acts != [] && AreFrom(db, acts, owners) && acts[|acts| - 1].Delivered?
    requires AllAccounted(db, s, owners, acts[..|acts| - 1]) && acts[|acts| - 1].delivery.eventId in s.events
    ensures IsLinked(s, owners, acts[|acts| - 1].delivery.customer)
  {
    var before, d := acts[..|acts| - 1], acts[|acts| - 1].delivery;
    assert IsAccounted(s, owners, before, d.eventId);
    var i :| 0 <= i < |before| && before[i].Delivered? && before[i].delivery.eventId == d.eventId &&
             IsLinked(s, owners, before[i].delivery.customer);
    assert acts[i] == before[i];
  }

  /** The tables know the users and customers that the run makes known. */
  ghost predicate Mirrors(db: Tables, s: Tables, owners: map<string, nat>, acts: seq<Act>) {
    && IsOwned(s, owners) && AllAccounted(db, s, owners, acts)
    && (forall id :: id in s.users <==> IsUserAfter(db, acts, id))
    && forall c :: IsLinked(s, owners, c) <==> c in owners && IsKnownAfter(db, owners, acts, c)
  }

  lemma StepMirrors(db: Tables, s: Tables, t: Tables, owners: map<string, nat>, acts: seq<Act>)
    requires acts != [] && Mirrors(db, s, owners, acts[..|acts| - 1])
    requires IsOwned(t, owners) && AllAccounted(db, t, owners, acts)
    requires forall id :: id in t.users <==> id in s.users || acts[|acts| - 1] == Registered(id)
    requires forall c :: IsLinked(t, owners, c) <==>
               IsLinked(s, owners, c) || (c in owners && Names(db, owners, acts, c, |acts| - 1))
    ensures Mirrors(db, t, owners, acts)
  {
    forall id
      ensures id in t.users <==> IsUserAfter(db, acts, id)
    {
      UserStep(db, acts, id);
    }
    forall c
      ensures IsLinked(t, owners, c) <==> c in owners && IsKnownAfter(db, owners, acts, c)
    {
      KnownStep(db, owners, acts, c);
    }
  }

  lemma RegistrationMirrors(db: Tables, s: Tables, owners: map<string, nat>, acts: seq<Act>)
    requires acts != [] && acts[|acts| - 1].Registered? && Mirrors(db, s, owners, acts[..|acts| - 1])
    ensures Mirrors(db, Step(s, Register(acts[|acts| - 1].user)), owners, acts)
  {
    var t := Step(s, Register(acts[|acts| - 1].user));
    RegisterOwned(s, owners, acts[|acts| - 1].user);
    StepAccounted(db, s, t, owners, acts);
    StepMirrors(db, s, t, owners, acts);
  }

  /**
   A delivery links its customer exactly when it names the existing user; if it was recorded
   before, the link is there.
   */
  lemma DeliveryLinks(db: Tables, s: Tables, owners: map<string, nat>, acts: seq<Act>, config: Config, c: string)
    requires acts != [] && acts[|acts| - 1].Delivered? && AreFrom(db, acts, owners)
    requires Mirrors(db, s, owners, acts[..|acts| - 1])
    ensures IsLinked(Deliver(s, acts[|acts| - 1].delivery, config), owners, c) <==>
            IsLinked(s, owners, c) || (c in owners && Names(db, owners, acts, c, |acts| - 1))
  {
    var d := acts[|acts| - 1].delivery;
    DeliverOwned(s, owners, d, config);
    if d.eventId in s.events {
      RecordedIsLinked(db, s, owners, acts);
    }
  }

  lemma DeliveryMirrors(db: Tables, s: Tables, owners: map<string, nat>, acts: seq<Act>, config: Config)
    requires acts != [] && acts[|acts| - 1].Delivered? && AreFrom(db, acts, owners)
    requires Mirrors(db, s, owners, acts[..|acts| - 1])
    ensures Mirrors(db, Deliver(s, acts[|acts| - 1].delivery, config), owners, acts)
  {
    var d := acts[|acts| - 1].delivery;
    var t := Deliver(s, d, config);
    DeliverOwned(s, owners, d, config);
    StepAccounted(db, s, t, owners, acts);
    forall c
      ensures IsLinked(t, owners, c) <==>
                IsLinked(s, owners, c) || (c in owners && Names(db, owners, acts, c, |acts| - 1))
    {
      DeliveryLinks(db, s, owners, acts, config, c);
    }
    StepMirrors(db, s, t, owners, acts);
  }

  lemma {:induction false} RunMirrors(db: Tables, owners: map<string, nat>, acts: seq<Act>, config: Config)
    requires IsOwned(db, owners) && AreFrom(db, acts, owners)
    ensures Mirrors(db, RunOf(db, acts, config), owners, acts)
    decreases |acts|
  {
    if acts == [] {
    } else {
      FromPrefix(db, acts, owners);
      RunMirrors(db, owners, acts[..|acts| - 1], config);
      var s := RunOf(db, acts[..|acts| - 1], config);
      if acts[|acts| - 1].Registered? {
        RegistrationMirrors(db, s, owners, acts);
      } else {
        DeliveryMirrors(db, s, owners, acts, config);
      }
    }
  }

  // ---- Which deliveries reach their row ----

  /** Act i delivers to an existing user whom it names, or whose row knows the customer. */
  ghost predicate Reaches(db: Tables, owners: map<string, nat>, acts: seq<Act>, d: Delivery, i: nat) {
    && i < |acts| && acts[i] == Delivered(d) && d.customer in owners
    && IsUserAfter(db, acts[..i], owners[d.customer])
    && (d.external.Some? || IsKnownAfter(db, owners, acts[..i], d.customer))
  }

  ghost predicate IsRouted(db: Tables, owners: map<string, nat>, acts: seq<Act>, d: Delivery) {
    exists i :: Reaches(db, owners, acts, d, i)
  }

  lemma RoutedStep(db: Tables, owners: map<string, nat>, acts: seq<Act>, d: Delivery)
    requires acts != []
    ensures IsRouted(db, owners, acts, d) <==>
            IsRouted(db, owners, acts[..|acts| - 1], d) || Reaches(db, owners, acts, d, |acts| - 1)
  {
    var before := acts[..|acts| - 1];
    forall i | 0 <= i < |before|
      ensures Reaches(db, owners, acts, d, i) == Reaches(db, owners, before, d, i)
    {
      assert before[i] == acts[i] && before[..i] == acts[..i];
    }
    if i: nat :| Reaches(db, owners, acts, d, i) {
      assert i < |before| ==> Reaches(db, owners, before, d, i);
    }
    if i: nat :| Reaches(db, owners, before, d, i) {
      assert Reaches(db, owners, acts, d, i);
    }
  }

  lemma LandsExactly(db: Tables, owners: map<string, nat>, acts: seq<Act>, config: Config)
    requires acts != [] && acts[|acts| - 1].Delivered? && IsOwned(db, owners) && AreFrom(db, acts, owners)
    ensures acts[|acts| - 1].delivery.customer in owners
    ensures Lands(RunOf(db, acts[..|acts| - 1], config), owners, acts[|acts| - 1].delivery) <==>
            Reaches(db, owners, acts, acts[|acts| - 1].delivery, |acts| - 1)
  {
    FromPrefix(db, acts, owners);
    RunMirrors(db, owners, acts[..|acts| - 1], config);
  }

  // ---- The deliveries as billing events ----

  function EventFor(d: Delivery, owners: map<string, nat>, config: Config): Event
    requires d.customer in owners
  {
    Receive(UpdateFor(d, owners[d.customer], config))
  }

  /** The events of the deliveries that land, and the registrations. */
  ghost function EventsOf(db: Tables, owners: map<string, nat>, acts: seq<Act>, config: Config): seq<Event> {
    if acts == [] then []
    else
      var before, a := acts[..|acts| - 1], acts[|acts| - 1];
      match a
      case Registered(id) => EventsOf(db, owners, before, config) + [Register(id)]
      case Delivered(d) =>
        if d.customer in owners && Lands(RunOf(db, before, config), owners, d)
        then EventsOf(db, owners, before, config) + [EventFor(d, owners, config)]
        else EventsOf(db, owners, before, config)
  }

  lemma RunOneMore(db: Tables, es: seq<Event>, e: Event)
    ensures Run(db, es + [e]) == Step(Run(db, es), e)
  {
    assert (es + [e])[..|es|] == es;
  }

  lemma {:induction false} ActsAreEvents(db: Tables, owners: map<string, nat>, acts: seq<Act>, config: Config)
    requires IsOwned(db, owners) && AreFrom(db, acts, owners)
    ensures RunOf(db, acts, config) == Run(db, EventsOf(db, owners, acts, config))
    decreases |acts|
  {
    if acts == [] {
    } else {
      var before, a := acts[..|acts| - 1], acts[|acts| - 1];
      FromPrefix(db, acts, owners);
      ActsAreEvents(db, owners, before, config);
      var es := EventsOf(db, owners, before, config);
      match a
      case Registered(id) => RunOneMore(db, es, Register(id));
      case Delivered(d) =>
        RunMirrors(db, owners, before, config);
        ResolveOwned(RunOf(db, before, config), owners, d);
        DeliverOwned(RunOf(db, before, config), owners, d, config);
        RunOneMore(db, es, EventFor(d, owners, config));
    }
  }

  lemma EventsStayRecorded(db: Tables, owners: map<string, nat>, acts: seq<Act>, config: Config, id: string)
    requires acts != [] && IsOwned(db, owners) && AreFrom(db, acts, owners)
    requires id in RunOf(db, acts[..|acts| - 1], config).events
    ensures id in RunOf(db, acts, config).events
  {
    var s := RunOf(db, acts[..|acts| - 1], config);
    FromPrefix(db, acts, owners);
    RunMirrors(db, owners, acts[..|acts| - 1], config);
    if acts[|acts| - 1].Delivered? {
      DeliverOwned(s, owners, acts[|acts| - 1].delivery, config);
    }
  }

  lemma LandingIsRecorded(db: Tables, owners: map<string, nat>, acts: seq<Act>, config: Config)
    requires acts != [] && acts[|acts| - 1].Delivered? && IsOwned(db, owners) && AreFrom(db, acts, owners)
    requires Reaches(db, owners, acts, acts[|acts| - 1].delivery, |acts| - 1)
    ensures acts[|acts| - 1].delivery.eventId in RunOf(db, acts, config).events
  {
    FromPrefix(db, acts, owners);
    RunMirrors(db, owners, acts[..|acts| - 1], config);
    LandsExactly(db, owners, acts, config);
    DeliverOwned(RunOf(db, acts[..|acts| - 1], config), owners, acts[|acts| - 1].delivery, config);
  }

  /** Every event of a run comes from a delivery that reaches its row, and is recorded. */
  lemma {:induction false} EventsComeFrom(db: Tables, owners: map<string, nat>, acts: seq<Act>, config: Config,
                                          e: Event)
    returns (d: Delivery)
    requires IsOwned(db, owners) && AreFrom(db, acts, owners)
    requires e in EventsOf(db, owners, acts, config) && e.Receive?
    ensures Delivered(d) in acts && d.customer in owners && e == EventFor(d, owners, config)
    ensures IsRouted(db, owners, acts, d) && d.eventId in RunOf(db, acts, config).events
    decreases |acts|
  {
    var before, a := acts[..|acts| - 1], acts[|acts| - 1];
    assert acts == before + [a];
    FromPrefix(db, acts, owners);
    if e in EventsOf(db, owners, before, config) {
      d := EventsComeFrom(db, owners, before, config, e);
      EventsStayRecorded(db, owners, acts, config, d.eventId);
    } else {
      d := a.delivery;
      LandsExactly(db, owners, acts, config);
      LandingIsRecorded(db, owners, acts, config);
    }
    RoutedStep(db, owners, acts, d);
  }

  /** Every delivery that reaches its row becomes an event. */
  lemma {:induction false} ReachingIsEvent(db: Tables, owners: map<string, nat>, acts: seq<Act>, config: Config,
                                           d: Delivery)
    requires IsOwned(db, owners) && AreFrom(db, acts, owners) && IsRouted(db, owners, acts, d)
    ensures d.customer in owners && EventFor(d, owners, config) in EventsOf(db, owners, acts, config)
    decreases |acts|
  {
    var before := acts[..|acts| - 1];
    FromPrefix(db, acts, owners);
    RoutedStep(db, owners, acts, d);
    if IsRouted(db, owners, before, d) {
      ReachingIsEvent(db, owners, before, config, d);
    } else {
      LandsExactly(db, owners, acts, config);
    }
  }

  lemma EventsAreHandled(db: Tables, owners: map<string, nat>, acts: seq<Act>, config: Config, user: nat)
    requires IsOwned(db, owners) && AreFrom(db, acts, owners)
    ensures OnePayload(EventsOf(db, owners, acts, config))
    ensures AllHandled(db, EventsOf(db, owners, acts, config), user)
  {
    var es := EventsOf(db, owners, acts, config);
    ActsAreEvents(db, owners, acts, config);
    forall i, j | 0 <= i < |es| && 0 <= j < |es| && es[i].Receive? && es[j].Receive? &&
                  es[i].update.eventId == es[j].update.eventId
      ensures es[i].update == es[j].update
    {
      var c := EventsComeFrom(db, owners, acts, config, es[i]);
      var d := EventsComeFrom(db, owners, acts, config, es[j]);
    }
    forall i | 0 <= i < |es| && es[i].Receive?
      ensures es[i].update.eventId !in db.events && es[i].update.eventId in Run(db, es).events
    {
      var d := EventsComeFrom(db, owners, acts, config, es[i]);
    }
  }

  // ---- What the row ends with ----

  /** Of the customer's events that reach the row, g is the newest. */
  ghost predicate IsNewestRouted(db: Tables, owners: map<string, nat>, acts: seq<Act>, g: Delivery) {
    && IsRouted(db, owners, acts, g)
    && forall d | Delivered(d) in acts && d.customer == g.customer && d != g && IsRouted(db, owners, acts, d) ::
         d.occurredAt < g.occurredAt
  }

  /** The row holds the state of the newest event that reaches it. */
  lemma NewestRoutedIsKept(db: Tables, owners: map<string, nat>, acts: seq<Act>, config: Config, g: Delivery)
    requires IsOwned(db, owners) && AreFrom(db, acts, owners) && IsNewestRouted(db, owners, acts, g)
    requires g.customer in owners
    requires var row := RowOf(db, owners[g.customer]); row.updatedAt.Some? ==> row.updatedAt.value < g.occurredAt
    ensures var user := owners[g.customer];
            RowOf(RunOf(db, acts, config), user) == Updated(RowOf(db, user), UpdateFor(g, user, config))
  {
    var es, user := EventsOf(db, owners, acts, config), owners[g.customer];
    var u := UpdateFor(g, user, config);
    ActsAreEvents(db, owners, acts, config);
    EventsAreHandled(db, owners, acts, config, user);
    ReachingIsEvent(db, owners, acts, config, g);
    forall v | Receive(v) in es && v.user == user && v != u
      ensures v.occurredAt < u.occurredAt
    {
      var d := EventsComeFrom(db, owners, acts, config, Receive(v));
      assert d.customer == g.customer && d != g;
    }
    Converges(db, es, u);
  }

  /** g is newer than every other event of its customer. */
  predicate IsLatestOfCustomer(acts: seq<Act>, g: Delivery) {
    && Delivered(g) in acts
    && forall a | a in acts && a.Delivered? && a.delivery.customer == g.customer && a.delivery != g ::
         a.delivery.occurredAt < g.occurredAt
  }

  lemma UnroutedIsLost(db: Tables, owners: map<string, nat>, acts: seq<Act>, config: Config, g: Delivery)
    requires IsOwned(db, owners) && AreFrom(db, acts, owners) && IsLatestOfCustomer(acts, g) && g.customer in owners
    requires var row := RowOf(db, owners[g.customer]); row.updatedAt.Some? ==> row.updatedAt.value < g.occurredAt
    requires !IsRouted(db, owners, acts, g)
    ensures RowOf(RunOf(db, acts, config), owners[g.customer]).updatedAt != Some(g.occurredAt)
  {
    var es, user := EventsOf(db, owners, acts, config), owners[g.customer];
    ActsAreEvents(db, owners, acts, config);
    RowFollowsHandled(db, es, user);
    var us := Handled(db, es, user);
    var i := NewestDecides(RowOf(db, user), us);
    if !AllStale(RowOf(db, user), us) {
      HandledAreReceived(db, es, user, us[i]);
      var d := EventsComeFrom(db, owners, acts, config, Receive(us[i]));
      assert Delivered(d).delivery.customer == g.customer && d != g;
    }
  }

  /**
   The row ends with the customer's newest state exactly when some delivery of it comes when the
   user exists, and either names the user or finds that the row knows the customer.
   */
  lemma NewestIsKeptExactlyWhenRouted(db: Tables, owners: map<string, nat>, acts: seq<Act>, config: Config, g: Delivery)
    requires IsOwned(db, owners) && AreFrom(db, acts, owners) && IsLatestOfCustomer(acts, g) && g.customer in owners
    requires var row := RowOf(db, owners[g.customer]); row.updatedAt.Some? ==> row.updatedAt.value < g.occurredAt
    ensures var user := owners[g.customer];
            HoldsDelivered(RowOf(RunOf(db, acts, config), user), RowOf(db, user), g, config)
            <==> IsRouted(db, owners, acts, g)
  {
    var user := owners[g.customer];
    DeliveredIsHeld(RowOf(RunOf(db, acts, config), user), RowOf(db, user), g, user, config);
    if IsRouted(db, owners, acts, g) {
      forall d | Delivered(d) in acts && d.customer == g.customer && d != g
        ensures d.occurredAt < g.occurredAt
      {
        assert Delivered(d).delivery == d;
      }
      NewestRoutedIsKept(db, owners, acts, config, g);
    } else {
      UnroutedIsLost(db, owners, acts, config, g);
    }
  }

  /** A deleted customer's downgrade that overtakes the first purchase is lost: the row ends with the purchase. */
  lemma EarlyDowngradeIsLost(config: Config, id: string)
    ensures var downgrade := Delivery("2", 2, "customer", None, []);
            var purchase := Delivery("1", 1, "customer", Some(0), [Subscription(id, config.proProduct)]);
            var acts := [Delivered(downgrade), Delivered(purchase)];
            RowOf(RunOf(Tables({}, map[0 := NEW_USER]), acts, config), 0) ==
            User("pro", Some("customer"), Some(id), Some(1))
  {
    var downgrade := Delivery("2", 2, "customer", None, []);
    var purchase := Delivery("1", 1, "customer", Some(0), [Subscription(id, config.proProduct)]);
    var db, owners := Tables({}, map[0 := NEW_USER]), map["customer" := 0];
    var acts := [Delivered(downgrade), Delivered(purchase)];
    assert downgrade.eventId != purchase.eventId by {
      assert "2"[0] != "1"[0];
    }
    assert acts[..0] == [] && acts[..1] == [acts[0]];
    assert !IsRouted(db, owners, acts, downgrade);
    assert Reaches(db, owners, acts, purchase, 1);
    NewestRoutedIsKept(db, owners, acts, config, purchase);
  }

  /**
   A purchase for a user who does not exist yet is refused, the downgrade after it is accepted and
   forgotten, and when the user has registered the purchase comes again and stands.
   */
  lemma RefusedPurchaseOutlivesDowngrade(config: Config, id: string)
    ensures var downgrade := Delivery("2", 2, "customer", None, []);
            var purchase := Delivery("1", 1, "customer", Some(0), [Subscription(id, config.proProduct)]);
            var acts := [Delivered(purchase), Delivered(downgrade), Registered(0), Delivered(purchase)];
            RowOf(RunOf(Tables({}, map[]), acts, config), 0) == User("pro", Some("customer"), Some(id), Some(1))
  {
    var downgrade := Delivery("2", 2, "customer", None, []);
    var purchase := Delivery("1", 1, "customer", Some(0), [Subscription(id, config.proProduct)]);
    var db, owners := Tables({}, map[]), map["customer" := 0];
    var acts := [Delivered(purchase), Delivered(downgrade), Registered(0), Delivered(purchase)];
    assert downgrade.eventId != purchase.eventId by {
      assert "2"[0] != "1"[0];
    }
    assert acts[..1] == [acts[0]];
    assert acts[..3][2] == Registered(0);
    assert !IsRouted(db, owners, acts, downgrade);
    assert Reaches(db, owners, acts, purchase, 3);
    NewestRoutedIsKept(db, owners, acts, config, purchase);
  }
}
