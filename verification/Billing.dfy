/**
 Billing webhooks: each event is applied at most once and only if it is newer than the row's
 state, so that the row converges however the provider orders and repeats its deliveries.
 */
module Billing {
  import opened Wrappers

  datatype User = User(role: string, customer: Option<string>, subscription: Option<string>, updatedAt: Option<int>)

  const NEW_USER := User("free", None, None, None)

  /** The roles that a subscription can give. */
  type Plan = role: string | role != "admin" witness "free"

  datatype Update = Update(eventId: string, occurredAt: int, user: nat, customer: string, subscription: Option<string>,
                           role: Plan)

  datatype Tables = Tables(events: set<string>, users: map<nat, User>)

  datatype Outcome = Applied | Duplicate | Stale | MissingUser | Conflict

  // ---- One event ----

  predicate IsNewer(row: User, u: Update) {
    row.updatedAt.None? || row.updatedAt.value < u.occurredAt
  }

  function Updated(row: User, u: Update): User {
    User(if row.role == "admin" then row.role else u.role, Some(u.customer), u.subscription, Some(u.occurredAt))
  }

  /** The row holds the event's customer, subscription, time and role, but an administrator stays one. */
  predicate HoldsState(row: User, before: User, u: Update) {
    && row.customer == Some(u.customer) && row.subscription == u.subscription && row.updatedAt == Some(u.occurredAt)
    && row.role == if before.role == "admin" then "admin" else u.role
  }

  lemma OnlyUpdatedHolds(row: User, before: User, u: Update)
    ensures HoldsState(row, before, u) <==> row == Updated(before, u)
  {}

  /** The customer column is unique. */
  predicate IsTaken(users: map<nat, User>, u: Update) {
    exists id | id in users :: id != u.user && users[id].customer == Some(u.customer)
  }

  function Decide(db: Tables, u: Update): Outcome {
    if u.eventId in db.events then Duplicate
    else if u.user !in db.users then MissingUser
    else if !IsNewer(db.users[u.user], u) then Stale
    else if IsTaken(db.users, u) then Conflict
    else Applied
  }

  function Apply(db: Tables, u: Update): Tables {
    match Decide(db, u)
    case Applied => Tables(db.events + {u.eventId}, db.users[u.user := Updated(db.users[u.user], u)])
    case Stale => db.(events := db.events + {u.eventId})
    case _ => db
  }

  // ---- Runs ----

  datatype Event = Receive(update: Update) | Register(user: nat)

  function Step(db: Tables, e: Event): Tables {
    match e
    case Receive(u) => Apply(db, u)
    case Register(id) => if id in db.users then db else db.(users := db.users[id := NEW_USER])
  }

  function Run(db: Tables, es: seq<Event>): Tables {
    if es == [] then db else Step(Run(db, es[..|es| - 1]), es[|es| - 1])
  }

  /** The events of one user that a run has recorded, in order. */
  function Handled(db: Tables, es: seq<Event>, user: nat): seq<Update> {
    if es == [] then []
    else
      var before, e := es[..|es| - 1], es[|es| - 1];
      if e.Receive? && e.update.user == user && IsHandled(Run(db, before), e.update)
      then Handled(db, before, user) + [e.update]
      else Handled(db, before, user)
  }

  predicate IsHandled(db: Tables, u: Update) {
    Decide(db, u) == Applied || Decide(db, u) == Stale
  }

  function RowOf(db: Tables, user: nat): User {
    if user in db.users then db.users[user] else NEW_USER
  }

  /** The row after a sequence of events: each replaces an older state. */
  function Folded(row: User, us: seq<Update>): User {
    if us == [] then row
    else
      var before := Folded(row, us[..|us| - 1]);
      if IsNewer(before, us[|us| - 1]) then Updated(before, us[|us| - 1]) else before
  }

  lemma FoldedOneMore(row: User, us: seq<Update>, u: Update)
    ensures Folded(row, us + [u]) ==
              if IsNewer(Folded(row, us), u) then Updated(Folded(row, us), u) else Folded(row, us)
  {
    assert (us + [u])[..|us|] == us;
  }

  /** Only a handled event of the user can change its row. */
  lemma StepChangesRow(db: Tables, e: Event, user: nat)
    ensures e.Receive? && e.update.user == user && IsHandled(db, e.update) ==>
              RowOf(Step(db, e), user) == if IsNewer(RowOf(db, user), e.update) then Updated(RowOf(db, user), e.update)
                else RowOf(db, user)
    ensures !(e.Receive? && e.update.user == user && IsHandled(db, e.update)) ==>
              RowOf(Step(db, e), user) == RowOf(db, user)
  {}

  lemma {:induction false} RowFollowsHandled(db: Tables, es: seq<Event>, user: nat)
    ensures RowOf(Run(db, es), user) == Folded(RowOf(db, user), Handled(db, es, user))
    decreases |es|
  {
    if es == [] {
    } else {
      var before, e := es[..|es| - 1], es[|es| - 1];
      RowFollowsHandled(db, before, user);
      StepChangesRow(Run(db, before), e, user);
      if e.Receive? {
        FoldedOneMore(RowOf(db, user), Handled(db, before, user), e.update);
      }
    }
  }

  /** A user who has registered in the run, and whom no event was handled for, is free. */
  lemma NewUsersAreFree(db: Tables, es: seq<Event>, user: nat)
    requires user !in db.users && user in Run(db, es).users && Handled(db, es, user) == []
    ensures Run(db, es).users[user] == User("free", None, None, None)
  {
    RowFollowsHandled(db, es, user);
  }

  /** us[i] is the first of the newest events. */
  predicate IsFirstNewest(us: seq<Update>, i: nat) {
    && i < |us|
    && (forall j | 0 <= j < |us| :: us[j].occurredAt <= us[i].occurredAt)
    && forall j | 0 <= j < i :: us[j].occurredAt < us[i].occurredAt
  }

  predicate AllStale(row: User, us: seq<Update>) {
    forall j | 0 <= j < |us| :: !IsNewer(row, us[j])
  }

  /** The first of the newest events decides the row, unless none is newer than the row was. */
  lemma {:induction false} NewestDecides(row: User, us: seq<Update>) returns (i: nat)
    ensures if AllStale(row, us) then Folded(row, us) == row
            else IsFirstNewest(us, i) && IsNewer(row, us[i]) && Folded(row, us) == Updated(row, us[i])
    decreases |us|
  {
    i := 0;
    if us == [] {
    } else {
      var before, last := us[..|us| - 1], us[|us| - 1];
      assert forall j | 0 <= j < |before| :: before[j] == us[j];
      i := NewestDecides(row, before);
      if !AllStale(row, us) {
        var k :| 0 <= k < |us| && IsNewer(row, us[k]);
        if k < |before| {
          assert IsNewer(row, before[k]);
        }
        if IsNewer(Folded(row, before), last) {
          i := |before|;
        } else {
          assert !AllStale(row, before) && us[i] == before[i];
        }
        forall j | 0 <= j < |us|
          ensures us[j].occurredAt <= us[i].occurredAt && (j < i ==> us[j].occurredAt < us[i].occurredAt)
        {
          if j < |before| {
            assert us[j] == before[j];
          }
        }
      }
    }
  }

  predicate IsNewest(us: seq<Update>, u: Update) {
    u in us && forall v | v in us :: v.occurredAt <= u.occurredAt
  }

  /** All the newest events carry the same state. */
  ghost predicate AgreeAtTop(row: User, us: seq<Update>) {
    forall a, b | IsNewest(us, a) && IsNewest(us, b) && IsNewer(row, a) :: Updated(row, a) == Updated(row, b)
  }

  ghost predicate SameEvents(us: seq<Update>, vs: seq<Update>) {
    forall u :: u in us <==> u in vs
  }

  lemma FoldedIgnoresOrder(row: User, us: seq<Update>, vs: seq<Update>)
    requires SameEvents(us, vs) && AgreeAtTop(row, us)
    ensures Folded(row, us) == Folded(row, vs)
  {
    var i := NewestDecides(row, us);
    var j := NewestDecides(row, vs);
    if AllStale(row, us) {
      forall k | 0 <= k < |vs|
        ensures !IsNewer(row, vs[k])
      {
        assert vs[k] in us;
      }
    } else {
      assert us[i] in vs;
      assert !AllStale(row, vs);
      assert vs[j] in us;
      assert IsNewest(us, us[i]) && IsNewest(us, vs[j]);
    }
  }

  /** Delivery order is irrelevant exactly when the newest events agree. */
  lemma OrderMattersExactlyWhen(row: User, us: seq<Update>)
    ensures (forall vs | multiset(vs) == multiset(us) :: Folded(row, vs) == Folded(row, us)) <==> AgreeAtTop(row, us)
  {
    if AgreeAtTop(row, us) {
      forall vs | multiset(vs) == multiset(us)
        ensures Folded(row, vs) == Folded(row, us)
      {
        SameElements(us, vs);
        FoldedIgnoresOrder(row, us, vs);
      }
    } else {
      var a, b :| IsNewest(us, a) && IsNewest(us, b) && IsNewer(row, a) && Updated(row, a) != Updated(row, b);
      var vs := MovedFirst(us, a);
      var ws := MovedFirst(us, b);
      FirstWins(row, us, vs, a);
      FirstWins(row, us, ws, b);
    }
  }

  lemma SameElements(us: seq<Update>, vs: seq<Update>)
    requires multiset(us) == multiset(vs)
    ensures SameEvents(us, vs)
  {
    forall u
      ensures u in us <==> u in vs
    {
      assert u in us <==> u in multiset(us);
      assert u in vs <==> u in multiset(vs);
    }
  }

  lemma MovedFirst(us: seq<Update>, u: Update) returns (vs: seq<Update>)
    requires u in us
    ensures multiset(vs) == multiset(us) && vs != [] && vs[0] == u
  {
    var i :| 0 <= i < |us| && us[i] == u;
    vs := [u] + us[..i] + us[i + 1..];
    assert us == us[..i] + [u] + us[i + 1..];
  }

  lemma FirstWins(row: User, us: seq<Update>, vs: seq<Update>, u: Update)
    requires multiset(vs) == multiset(us) && vs != [] && vs[0] == u
    requires IsNewest(us, u) && IsNewer(row, u)
    ensures Folded(row, vs) == Updated(row, u)
  {
    SameElements(us, vs);
    var i := NewestDecides(row, vs);
    assert vs[i] in us;
    assert vs[0] == u && i == 0;
  }

  // ---- Convergence ----

  predicate OnePayload(es: seq<Event>) {
    forall i, j |
      && 0 <= i < |es| && 0 <= j < |es| && es[i].Receive? && es[j].Receive?
      && es[i].update.eventId == es[j].update.eventId ::
      es[i].update == es[j].update
  }

  /** Exactly the recorded events count as handled. */
  lemma {:induction false} HandledExactly(db: Tables, es: seq<Event>, u: Update)
    requires OnePayload(es) && u.eventId !in db.events && Receive(u) in es
    ensures u.eventId in Run(db, es).events <==> u in Handled(db, es, u.user)
    decreases |es|
  {
    var before, e := es[..|es| - 1], es[|es| - 1];
    assert es == before + [e];
    if Receive(u) in before {
      HandledExactly(db, before, u);
    } else {
      NeverReceived(db, before, u);
    }
    if e.Receive? && e.update.eventId == u.eventId {
      var i :| 0 <= i < |es| && es[i] == Receive(u);
      assert es[|es| - 1] == e;
      assert e.update == u;
    }
  }

  lemma {:induction false} NeverReceived(db: Tables, es: seq<Event>, u: Update)
    requires u.eventId !in db.events
    requires forall i | 0 <= i < |es| && es[i].Receive? :: es[i].update.eventId != u.eventId
    ensures u.eventId !in Run(db, es).events && u !in Handled(db, es, u.user)
    decreases |es|
  {
    if es == [] {
    } else {
      NeverReceived(db, es[..|es| - 1], u);
    }
  }

  lemma {:induction false} HandledAreReceived(db: Tables, es: seq<Event>, user: nat, u: Update)
    requires u in Handled(db, es, user)
    ensures Receive(u) in es && u.user == user
    decreases |es|
  {
    var before := es[..|es| - 1];
    assert es == before + [es[|es| - 1]];
    if u !in Handled(db, before, user) {
    } else {
      HandledAreReceived(db, before, user, u);
    }
  }

  /** Every event of the user that was delivered has been recorded in this run. */
  predicate AllHandled(db: Tables, es: seq<Event>, user: nat) {
    forall i | 0 <= i < |es| && es[i].Receive? && es[i].update.user == user ::
      es[i].update.eventId !in db.events && es[i].update.eventId in Run(db, es).events
  }

  lemma HandledAreAll(db: Tables, es: seq<Event>, user: nat, u: Update)
    requires OnePayload(es) && AllHandled(db, es, user)
    ensures u in Handled(db, es, user) <==> Receive(u) in es && u.user == user
  {
    if u in Handled(db, es, user) {
      HandledAreReceived(db, es, user, u);
    }
    if Receive(u) in es && u.user == user {
      var i :| 0 <= i < |es| && es[i] == Receive(u);
      assert es[i].update == u;
      HandledExactly(db, es, u);
    }
  }

  /** Once all its events are handled, the row holds the state of the newest one. */
  lemma Converges(db: Tables, es: seq<Event>, u: Update)
    requires OnePayload(es) && AllHandled(db, es, u.user) && Receive(u) in es
    requires forall v | Receive(v) in es && v.user == u.user && v != u :: v.occurredAt < u.occurredAt
    ensures var before, after := RowOf(db, u.user), RowOf(Run(db, es), u.user);
            if before.updatedAt.Some? && before.updatedAt.value >= u.occurredAt then after == before
            else HoldsState(after, before, u)
  {
    var row, us := RowOf(db, u.user), Handled(db, es, u.user);
    RowFollowsHandled(db, es, u.user);
    HandledAreAll(db, es, u.user, u);
    forall v | v in us
      ensures v == u || v.occurredAt < u.occurredAt
    {
      HandledAreReceived(db, es, u.user, v);
    }
    var i := NewestDecides(row, us);
    var k :| 0 <= k < |us| && us[k] == u;
    if !AllStale(row, us) {
      assert us[k].occurredAt <= us[i].occurredAt;
      assert us[i] in us;
    } else {
      assert !IsNewer(row, us[k]);
    }
  }

  /** Two runs that handle the same events leave the same row, if the newest events agree. */
  lemma RunsAgree(db: Tables, es: seq<Event>, fs: seq<Event>, user: nat)
    requires OnePayload(es) && AllHandled(db, es, user)
    requires OnePayload(fs) && AllHandled(db, fs, user)
    requires forall u: Update | u.user == user :: Receive(u) in es <==> Receive(u) in fs
    requires AgreeAtTop(RowOf(db, user), Handled(db, es, user))
    ensures RowOf(Run(db, es), user) == RowOf(Run(db, fs), user)
  {
    RowFollowsHandled(db, es, user);
    RowFollowsHandled(db, fs, user);
    forall u
      ensures u in Handled(db, es, user) <==> u in Handled(db, fs, user)
    {
      HandledAreAll(db, es, user, u);
      HandledAreAll(db, fs, user, u);
    }
    FoldedIgnoresOrder(RowOf(db, user), Handled(db, es, user), Handled(db, fs, user));
  }

  /** Users stay, administrators stay administrators, and the stored time only grows. */
  lemma {:induction false} RunKeeps(db: Tables, es: seq<Event>, user: nat)
    requires user in db.users
    ensures var row, after := db.users[user], RowOf(Run(db, es), user);
            && user in Run(db, es).users && db.events <= Run(db, es).events
            && (row.role == "admin" <==> after.role == "admin")
            && (row.updatedAt.Some? ==> after.updatedAt.Some? && after.updatedAt.value >= row.updatedAt.value)
            && (after != row ==>
                  && after.updatedAt.Some?
                  && (row.updatedAt.Some? ==> after.updatedAt.value > row.updatedAt.value))
    decreases |es|
  {
    if es == [] {
    } else {
      RunKeeps(db, es[..|es| - 1], user);
    }
  }

  // ---- The webhook ----

  datatype Subscription = Subscription(id: string, product: string)

  datatype Config = Config(proProduct: string, coffeeProduct: string)

  /** A verified customer-state event; a deleted customer has no external id. */
  datatype Delivery = Delivery(eventId: string, occurredAt: int, customer: string, external: Option<nat>,
                               subscriptions: seq<Subscription>)

  function FirstOf(subscriptions: seq<Subscription>, product: string): Option<string> {
    if subscriptions == [] then None
    else if subscriptions[0].product == product then Some(subscriptions[0].id)
    else FirstOf(subscriptions[1..], product)
  }

  function Entitlement(subscriptions: seq<Subscription>, config: Config): (Plan, Option<string>) {
    var pro := FirstOf(subscriptions, config.proProduct);
    if pro.Some? then ("pro", pro)
    else
      var coffee := FirstOf(subscriptions, config.coffeeProduct);
      if coffee.Some? then ("coffee", coffee) else ("free", None)
  }

  predicate Has(subscriptions: seq<Subscription>, product: string) {
    exists s | s in subscriptions :: s.product == product
  }

  /** The first subscription to the product has this id. */
  predicate IsFirstTo(subscriptions: seq<Subscription>, product: string, id: string) {
    exists i | 0 <= i < |subscriptions| :: IsFirstAt(subscriptions, product, id, i)
  }

  predicate IsFirstAt(subscriptions: seq<Subscription>, product: string, id: string, i: int) {
    && 0 <= i < |subscriptions| && subscriptions[i] == Subscription(id, product)
    && forall j | 0 <= j < i :: subscriptions[j].product != product
  }

  lemma {:induction false} FirstOfIsFirst(subscriptions: seq<Subscription>, product: string, id: string)
    ensures FirstOf(subscriptions, product).Some? <==> Has(subscriptions, product)
    ensures FirstOf(subscriptions, product) == Some(id) <==> IsFirstTo(subscriptions, product, id)
    decreases |subscriptions|
  {
    if subscriptions == [] {
    } else if subscriptions[0].product == product {
      assert IsFirstAt(subscriptions, product, subscriptions[0].id, 0);
      assert subscriptions[0] in subscriptions;
    } else {
      var rest := subscriptions[1..];
      FirstOfIsFirst(rest, product, id);
      assert subscriptions == [subscriptions[0]] + rest;
      if i :| IsFirstAt(rest, product, id, i) {
        assert forall j | 0 < j < i + 1 :: subscriptions[j] == rest[j - 1];
        assert IsFirstAt(subscriptions, product, id, i + 1);
      }
      if i :| IsFirstAt(subscriptions, product, id, i) {
        assert IsFirstAt(rest, product, id, i - 1);
      }
    }
  }

  /** The role that the products held give: pro before coffee before nothing. */
  function BestRole(subscriptions: seq<Subscription>, config: Config): Plan {
    if Has(subscriptions, config.proProduct) then "pro"
    else if Has(subscriptions, config.coffeeProduct) then "coffee"
    else "free"
  }

  /** The first subscription to the best product held, if any is. */
  predicate IsPaidBy(subscriptions: seq<Subscription>, config: Config, subscription: Option<string>) {
    if Has(subscriptions, config.proProduct) then
      subscription.Some? && IsFirstTo(subscriptions, config.proProduct, subscription.value)
    else if Has(subscriptions, config.coffeeProduct) then
      subscription.Some? && IsFirstTo(subscriptions, config.coffeeProduct, subscription.value)
    else subscription == None
  }

  /** The best product held decides the role, and exactly the first subscription to it is stored. */
  lemma EntitlementIsBest(subscriptions: seq<Subscription>, config: Config, subscription: Option<string>)
    ensures Entitlement(subscriptions, config).0 == BestRole(subscriptions, config)
    ensures Entitlement(subscriptions, config).1 == subscription <==> IsPaidBy(subscriptions, config, subscription)
  {
    var id := if subscription.Some? then subscription.value else "";
    FirstOfIsFirst(subscriptions, config.proProduct, id);
    FirstOfIsFirst(subscriptions, config.coffeeProduct, id);
  }

  ghost predicate IsCustomerOf(users: map<nat, User>, customer: string, id: nat) {
    id in users && users[id].customer == Some(customer)
  }

  ghost predicate HasUniqueCustomers(users: map<nat, User>) {
    forall a, b, customer | IsCustomerOf(users, customer, a) && IsCustomerOf(users, customer, b) :: a == b
  }

  ghost function Owner(users: map<nat, User>, customer: string): (owner: Option<nat>)
    ensures owner.Some? ==> IsCustomerOf(users, customer, owner.value)
    ensures owner.None? ==> forall id :: !IsCustomerOf(users, customer, id)
  {
    if id :| IsCustomerOf(users, customer, id) then Some(id) else None
  }

  ghost function Resolve(users: map<nat, User>, d: Delivery): Option<nat> {
    if Owner(users, d.customer).Some? then Owner(users, d.customer) else d.external
  }

  function UpdateFor(d: Delivery, user: nat, config: Config): Update {
    var (role, subscription) := Entitlement(d.subscriptions, config);
    Update(d.eventId, d.occurredAt, user, d.customer, subscription, role)
  }

  /** The row holds the delivered state: what the customer's products give, but an administrator stays one. */
  predicate HoldsDelivered(row: User, before: User, d: Delivery, config: Config) {
    && row.customer == Some(d.customer) && row.updatedAt == Some(d.occurredAt)
    && row.role == (if before.role == "admin" then "admin" else BestRole(d.subscriptions, config))
    && IsPaidBy(d.subscriptions, config, row.subscription)
  }

  lemma DeliveredIsHeld(row: User, before: User, d: Delivery, user: nat, config: Config)
    ensures HoldsDelivered(row, before, d, config) <==> row == Updated(before, UpdateFor(d, user, config))
  {
    EntitlementIsBest(d.subscriptions, config, row.subscription);
  }

  /** The user whose row knows the customer or, when no row does, the one the delivery names. */
  ghost predicate IsAddressee(users: map<nat, User>, d: Delivery, user: nat) {
    || IsCustomerOf(users, d.customer, user)
    || ((forall id :: !IsCustomerOf(users, d.customer, id)) && d.external == Some(user))
  }

  /** An event without a user is accepted and forgotten. */
  ghost function Deliver(db: Tables, d: Delivery, config: Config): Tables {
    match Resolve(db.users, d)
    case None => db
    case Some(user) => Apply(db, UpdateFor(d, user, config))
  }

  lemma ApplyKeepsUniqueCustomers(db: Tables, u: Update)
    requires HasUniqueCustomers(db.users)
    ensures HasUniqueCustomers(Apply(db, u).users)
  {
    if Decide(db, u) == Applied {
      forall a, b, customer | IsCustomerOf(Apply(db, u).users, customer, a) &&
        IsCustomerOf(Apply(db, u).users, customer, b)
        ensures a == b
      {
        if a != u.user && b != u.user {
          assert IsCustomerOf(db.users, customer, a) && IsCustomerOf(db.users, customer, b);
        }
      }
    }
  }

  // ---- The tables as an object ----

  /** The billing tables as an object. */
  class BillingTables {
    var db: Tables

    constructor (initial: Tables)
      ensures db == initial
    {
      db := initial;
    }

    /** Insert the event, then update the row, in one transaction that rolls back for an unknown user. */
    method ApplyPolarState(u: Update) returns (outcome: Outcome)
      modifies this
      ensures outcome == Decide(old(db), u) && db == Apply(old(db), u)
      ensures outcome == Duplicate <==> u.eventId in old(db).events
      ensures outcome == MissingUser <==> u.eventId !in old(db).events && u.user !in old(db).users
      ensures outcome == Stale <==>
                && u.eventId !in old(db).events && u.user in old(db).users
                && old(db).users[u.user].updatedAt.Some? && old(db).users[u.user].updatedAt.value >= u.occurredAt
      ensures outcome == Conflict ==>
                exists id | id in old(db).users :: id != u.user && old(db).users[id].customer == Some(u.customer)
      ensures outcome == Applied ==>
                && (forall id | id in db.users && db.users[id].customer == Some(u.customer) :: id == u.user)
                && db.users.Keys == old(db).users.Keys && u.user in db.users
                && HoldsState(db.users[u.user], old(db).users[u.user], u)
                && forall id | id in db.users && id != u.user :: db.users[id] == old(db).users[id]
      ensures outcome != Applied ==> db.users == old(db).users
      ensures db.events == old(db).events + if outcome == Applied || outcome == Stale then {u.eventId} else {}
    {
      var saved := db;
      if u.eventId in db.events {
        return Duplicate;
      }
      db := db.(events := db.events + {u.eventId});
      if u.user in db.users && IsNewer(db.users[u.user], u) {
        if IsTaken(db.users, u) {
          db := saved;
          return Conflict;
        }
        db := db.(users := db.users[u.user := Updated(db.users[u.user], u)]);
        return Applied;
      }
      if u.user in db.users {
        return Stale;
      }
      db := saved;
      return MissingUser;
    }

    method FindUserIdByPolarCustomer(customer: string) returns (found: Option<nat>)
      requires HasUniqueCustomers(db.users)
      ensures found == Owner(db.users, customer)
    {
      found := None;
      var left := db.users.Keys;
      while left != {}
        invariant left <= db.users.Keys
        invariant found.Some? ==> IsCustomerOf(db.users, customer, found.value)
        invariant found.None? ==> forall id | id in db.users.Keys - left :: !IsCustomerOf(db.users, customer, id)
        decreases left
      {
        var id :| id in left;
        if db.users[id].customer == Some(customer) {
          found := Some(id);
        }
        left := left - {id};
      }
    }

    method Webhook(d: Delivery, config: Config) returns (outcome: Option<Outcome>)
      requires HasUniqueCustomers(db.users)
      modifies this
      ensures HasUniqueCustomers(db.users)
      ensures db == Deliver(old(db), d, config)
      ensures outcome == match Resolve(old(db).users, d)
                         case None => None
                         case Some(user) => Some(Decide(old(db), UpdateFor(d, user, config)))
      ensures outcome == None <==> forall user :: !IsAddressee(old(db).users, d, user)
      ensures outcome == None ==> db == old(db)
      ensures outcome == Some(Applied) ==> exists user ::
                && IsAddressee(old(db).users, d, user) && user in old(db).users
                && db.users.Keys == old(db).users.Keys
                && HoldsDelivered(db.users[user], old(db).users[user], d, config)
                && forall id | id in db.users && id != user :: db.users[id] == old(db).users[id]
      ensures outcome != Some(Applied) ==> db.users == old(db).users
    {
      var stored := FindUserIdByPolarCustomer(d.customer);
      var user := if stored.Some? then stored else d.external;
      if user.None? {
        return None;
      }
      var (role, subscription) := Entitlement(d.subscriptions, config);
      ApplyKeepsUniqueCustomers(db, UpdateFor(d, user.value, config));
      var applied := ApplyPolarState(Update(d.eventId, d.occurredAt, user.value, d.customer, subscription, role));
      assert IsAddressee(old(db).users, d, user.value);
      if applied == Applied {
        DeliveredIsHeld(db.users[user.value], old(db).users[user.value], d, user.value, config);
      }
      return Some(applied);
    }
  }
}
