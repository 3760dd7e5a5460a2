/** The restaurant side of an order's life:
      Ordered -> Accepted -> Preparing -> Ready -> Delivered,
    with Cancelled reachable from the first three. Five handlers each check
    that the order exists and belongs to the calling restaurant, then that its
    status is one the step starts from, and only then change that one field.
    Also the status badge counts and the grouping of the orders page. */
module OrderWorkflow {
  import opened Text

  const Ordered := "Ordered"
  const Accepted := "Accepted"
  const Preparing := "Preparing"
  const Ready := "Ready"
  const Delivered := "Delivered"
  const Cancelled := "Cancelled"

  /** The six statuses of the workflow. */
  predicate IsCanonical(s: string)
  {
    s == Ordered || s == Accepted || s == Preparing || s == Ready || s == Delivered || s == Cancelled
  }

  /** One row of the Order table as the handlers read it; the status column is
      free text, so legacy spellings can occur. */
  datatype OrderRow = OrderRow(rtrId: int, status: string)

  /** The five handlers. */
  datatype Action = Accept | Reject | Prepare | MarkReady | Deliver

  /** What a handler answers: the new status (200), a refusal with its
      message (400), or an abort with 403 or 404. */
  datatype Outcome = Ok(newStatus: string) | BadRequest(error: string) | Forbidden | NotFound

  function Code(o: Outcome): int
  {
    match o
    case Ok(_) => 200
    case BadRequest(_) => 400
    case Forbidden => 403
    case NotFound => 404
  }

  function Target(a: Action): string
  {
    match a
    case Accept => Accepted
    case Reject => Cancelled
    case Prepare => Preparing
    case MarkReady => Ready
    case Deliver => Delivered
  }

  /** The source statuses each handler accepts. */
  predicate StartsFrom(a: Action, s: string)
  {
    match a
    case Accept => s == Ordered
    case Reject => s == Ordered || s == Accepted || s == Preparing
    case Prepare => s == Accepted
    case MarkReady => s == Preparing
    case Deliver => s == Ready
  }

  function Refusal(a: Action): string
  {
    match a
    case Accept => "Order not in pending state"
    case Reject => "Cannot cancel at this stage"
    case Prepare => "Order must be accepted first"
    case MarkReady => "Order must be preparing first"
    case Deliver => "Order must be ready first"
  }

  /** A handler's answer for the row it looked up (None when there is no such
      order) and the restaurant of the session. Only accept tells a missing
      order (404) apart from another restaurant's (403). */
  function Decide(a: Action, row: Option<OrderRow>, rtrId: int): (o: Outcome)
    ensures o.Ok? <==> row.Some? && row.value.rtrId == rtrId && StartsFrom(a, row.value.status)
    ensures o.Ok? ==> o.newStatus == Target(a)
    ensures o.NotFound? ==> a == Accept && row.None?
  {
    if row.None? then (if a == Accept then NotFound else Forbidden)
    else if row.value.rtrId != rtrId then Forbidden
    else if !StartsFrom(a, row.value.status) then BadRequest(Refusal(a))
    else Ok(Target(a))
  }

  function Lookup(orders: map<nat, OrderRow>, ordId: nat): (r: Option<OrderRow>)
    ensures r.Some? <==> ordId in orders
    ensures r.Some? ==> r.value == orders[ordId]
  {
    if ordId in orders then Some(orders[ordId]) else None
  }

  /** The table after a handler call: on success the addressed order's status
      is the step's target, otherwise nothing changes. */
  function Apply(orders: map<nat, OrderRow>, a: Action, ordId: nat, rtrId: int): (r: map<nat, OrderRow>)
    ensures r.Keys == orders.Keys
  {
    if Decide(a, Lookup(orders, ordId), rtrId).Ok? then orders[ordId := orders[ordId].(status := Target(a))]
    else orders
  }

  /** The transitions of the workflow, written out as pairs. */
  const Edges: set<(string, string)> :=
    {(Ordered, Accepted), (Accepted, Preparing), (Preparing, Ready), (Ready, Delivered),
     (Ordered, Cancelled), (Accepted, Cancelled), (Preparing, Cancelled)}

  /** The orders table, changed in place by the five handlers. */
  class OrderBoard {
    var orders: map<nat, OrderRow>

    constructor(init: map<nat, OrderRow>)
      ensures orders == init
    {
      orders := init;
    }

    /** restaurant_accept_order: 404 when missing, 403 when not ours, 400
        unless Ordered, else Ordered -> Accepted. */
    method AcceptOrder(ordId: nat, rtrId: int) returns (outcome: Outcome)
      modifies this
      ensures outcome == Decide(Accept, Lookup(old(orders), ordId), rtrId)
      ensures orders == Apply(old(orders), Accept, ordId, rtrId)
    {
      if ordId !in orders {
        return NotFound;
      }
      var row := orders[ordId];
      if row.rtrId != rtrId {
        return Forbidden;
      }
      if row.status != Ordered {
        return BadRequest("Order not in pending state");
      }
      orders := orders[ordId := OrderRow(row.rtrId, Accepted)];
      outcome := Ok(Accepted);
    }

    /** restaurant_reject_order: 403 when missing or not ours, 400 unless
        Ordered, Accepted or Preparing, else -> Cancelled. */
    method RejectOrder(ordId: nat, rtrId: int) returns (outcome: Outcome)
      modifies this
      ensures outcome == Decide(Reject, Lookup(old(orders), ordId), rtrId)
      ensures orders == Apply(old(orders), Reject, ordId, rtrId)
    {
      if ordId !in orders || orders[ordId].rtrId != rtrId {
        return Forbidden;
      }
      var row := orders[ordId];
      if !(row.status in [Ordered, Accepted, Preparing]) {
        return BadRequest("Cannot cancel at this stage");
      }
      orders := orders[ordId := OrderRow(row.rtrId, Cancelled)];
      outcome := Ok(Cancelled);
    }

    /** restaurant_prepare_order: Accepted -> Preparing. */
    method PrepareOrder(ordId: nat, rtrId: int) returns (outcome: Outcome)
      modifies this
      ensures outcome == Decide(Prepare, Lookup(old(orders), ordId), rtrId)
      ensures orders == Apply(old(orders), Prepare, ordId, rtrId)
    {
      if ordId !in orders || orders[ordId].rtrId != rtrId {
        return Forbidden;
      }
      var row := orders[ordId];
      if row.status != Accepted {
        return BadRequest("Order must be accepted first");
      }
      orders := orders[ordId := OrderRow(row.rtrId, Preparing)];
      outcome := Ok(Preparing);
    }

    /** restaurant_ready_order: Preparing -> Ready. */
    method ReadyOrder(ordId: nat, rtrId: int) returns (outcome: Outcome)
      modifies this
      ensures outcome == Decide(MarkReady, Lookup(old(orders), ordId), rtrId)
      ensures orders == Apply(old(orders), MarkReady, ordId, rtrId)
    {
      if ordId !in orders || orders[ordId].rtrId != rtrId {
        return Forbidden;
      }
      var row := orders[ordId];
      if row.status != Preparing {
        return BadRequest("Order must be preparing first");
      }
      orders := orders[ordId := OrderRow(row.rtrId, Ready)];
      outcome := Ok(Ready);
    }

    /** restaurant_deliver_order: Ready -> Delivered. */
    method DeliverOrder(ordId: nat, rtrId: int) returns (outcome: Outcome)
      modifies this
      ensures outcome == Decide(Deliver, Lookup(old(orders), ordId), rtrId)
      ensures orders == Apply(old(orders), Deliver, ordId, rtrId)
    {
      if ordId !in orders || orders[ordId].rtrId != rtrId {
        return Forbidden;
      }
      var row := orders[ordId];
      if row.status != Ready {
        return BadRequest("Order must be ready first");
      }
      orders := orders[ordId := OrderRow(row.rtrId, Delivered)];
      outcome := Ok(Delivered);
    }
  }

  // ------------------------------------------------ properties of a step

  /** A handler changes at most the status of the addressed order: the set of
      orders, every other row, and the owner of the addressed one stay. */
  lemma ApplyFrame(orders: map<nat, OrderRow>, a: Action, ordId: nat, rtrId: int)
    ensures Apply(orders, a, ordId, rtrId).Keys == orders.Keys
    ensures forall k :: k in orders && k != ordId ==> Apply(orders, a, ordId, rtrId)[k] == orders[k]
    ensures ordId in orders ==> Apply(orders, a, ordId, rtrId)[ordId].rtrId == orders[ordId].rtrId
  {
  }

  /** Anything but a 200 leaves the table as it was, and a 200 is only given
      for an existing order of the calling restaurant. */
  lemma RefusalChangesNothing(orders: map<nat, OrderRow>, a: Action, ordId: nat, rtrId: int)
    ensures !Decide(a, Lookup(orders, ordId), rtrId).Ok? ==> Apply(orders, a, ordId, rtrId) == orders
    ensures Decide(a, Lookup(orders, ordId), rtrId).Ok? ==> ordId in orders && orders[ordId].rtrId == rtrId
  {
  }

  /** The guards in order: a missing order is 404 for accept and 403 for the
      other four; another restaurant's order is 403; a wrong source status is
      400 with the handler's message. */
  lemma GuardCodes(orders: map<nat, OrderRow>, a: Action, ordId: nat, rtrId: int)
    ensures ordId !in orders ==>
              Code(Decide(a, Lookup(orders, ordId), rtrId)) == (if a == Accept then 404 else 403)
    ensures ordId in orders && orders[ordId].rtrId != rtrId ==>
              Code(Decide(a, Lookup(orders, ordId), rtrId)) == 403
    ensures ordId in orders && orders[ordId].rtrId == rtrId && !StartsFrom(a, orders[ordId].status) ==>
              Decide(a, Lookup(orders, ordId), rtrId) == BadRequest(Refusal(a))
  {
  }

  /** A status change made by any handler is exactly one of the workflow's
      edges, and every edge is made by exactly one handler. */
  lemma StepIsEdge(orders: map<nat, OrderRow>, a: Action, ordId: nat, rtrId: int)
    requires ordId in orders
    ensures var s := orders[ordId].status;
            var t := Apply(orders, a, ordId, rtrId)[ordId].status;
            s != t ==> (s, t) in Edges
  {
    var s := orders[ordId].status;
    if Decide(a, Lookup(orders, ordId), rtrId).Ok? {
      assert StartsFrom(a, s);
      match a
      case Accept => assert (s, Accepted) in Edges;
      case Reject => assert (s, Cancelled) in Edges;
      case Prepare => assert (s, Preparing) in Edges;
      case MarkReady => assert (s, Ready) in Edges;
      case Deliver => assert (s, Delivered) in Edges;
    }
  }

  lemma EdgeHasHandler(s: string, t: string)
    requires (s, t) in Edges
    ensures exists a :: StartsFrom(a, s) && Target(a) == t
  {
    if t == Accepted { assert StartsFrom(Accept, s); }
    else if t == Preparing { assert StartsFrom(Prepare, s); }
    else if t == Ready { assert StartsFrom(MarkReady, s); }
    else if t == Delivered { assert StartsFrom(Deliver, s); }
    else { assert StartsFrom(Reject, s); }
  }

  /** Delivered and Cancelled are terminal: every handler answers 400 and
      nothing changes. */
  lemma Terminal(orders: map<nat, OrderRow>, a: Action, ordId: nat, rtrId: int)
    requires ordId in orders && orders[ordId].rtrId == rtrId
    requires orders[ordId].status == Delivered || orders[ordId].status == Cancelled
    ensures Code(Decide(a, Lookup(orders, ordId), rtrId)) == 400
    ensures Apply(orders, a, ordId, rtrId) == orders
  {
  }

  /** Handlers only ever write one of the six statuses, so a table holding
      only those keeps holding only those. */
  lemma ApplyKeepsCanonical(orders: map<nat, OrderRow>, a: Action, ordId: nat, rtrId: int)
    requires forall k :: k in orders ==> IsCanonical(orders[k].status)
    ensures forall k :: k in Apply(orders, a, ordId, rtrId) ==> IsCanonical(Apply(orders, a, ordId, rtrId)[k].status)
  {
  }

  // --------------------------------------------- many steps, one order

  /** How far along the workflow a status is; legacy spellings are -1. */
  function Rank(s: string): int
  {
    if s == Ordered then 0
    else if s == Accepted then 1
    else if s == Preparing then 2
    else if s == Ready then 3
    else if s == Delivered || s == Cancelled then 4
    else -1
  }

  datatype Request = Request(action: Action, ordId: nat, rtrId: int)

  /** The table after a run of handler calls. */
  function Run(orders: map<nat, OrderRow>, reqs: seq<Request>): map<nat, OrderRow>
  {
    if |reqs| == 0 then orders
    else Run(Apply(orders, reqs[0].action, reqs[0].ordId, reqs[0].rtrId), reqs[1..])
  }

  /** A status that a handler changes moves strictly forward. */
  lemma StepRaisesRank(orders: map<nat, OrderRow>, a: Action, ordId: nat, rtrId: int)
    requires ordId in orders
    ensures var s := orders[ordId].status;
            var t := Apply(orders, a, ordId, rtrId)[ordId].status;
            s == t || Rank(s) < Rank(t)
  {
    StepIsEdge(orders, a, ordId, rtrId);
  }

  /** Over any run of handler calls an order never moves backwards, keeps
      its restaurant, and changes status at most four times, since every
      change raises its rank and ranks run from 0 to 4. */
  lemma {:induction false} RunMonotone(orders: map<nat, OrderRow>, reqs: seq<Request>, ordId: nat)
    requires ordId in orders
    ensures ordId in Run(orders, reqs)
    ensures Run(orders, reqs)[ordId].rtrId == orders[ordId].rtrId
    ensures Rank(orders[ordId].status) <= Rank(Run(orders, reqs)[ordId].status)
    ensures Changes(orders, reqs, ordId) <= 4
    ensures Changes(orders, reqs, ordId) > 0 ==>
              Rank(orders[ordId].status) + Changes(orders, reqs, ordId) <= Rank(Run(orders, reqs)[ordId].status)
  {
    if |reqs| > 0 {
      var r := reqs[0];
      var next := Apply(orders, r.action, r.ordId, r.rtrId);
      ApplyFrame(orders, r.action, r.ordId, r.rtrId);
      if r.ordId == ordId {
        StepRaisesRank(orders, r.action, ordId, r.rtrId);
      }
      RunMonotone(next, reqs[1..], ordId);
    }
  }

  /** How many calls of a run change the status of one order. */
  function Changes(orders: map<nat, OrderRow>, reqs: seq<Request>, ordId: nat): nat
  {
    if |reqs| == 0 then 0
    else
      var next := Apply(orders, reqs[0].action, reqs[0].ordId, reqs[0].rtrId);
      (if ordId in orders && ordId in next && orders[ordId].status != next[ordId].status then 1 else 0)
        + Changes(next, reqs[1..], ordId)
  }

  // ------------------------------------------------ dashboard and orders page

  /** How often s occurs among the statuses. */
  function CountOf(statuses: seq<string>, s: string): nat
  {
    multiset(statuses)[s]
  }

  /** The badge counts of the dashboard: the six statuses as keys, each with
      the number of the restaurant's orders in it; other spellings are not
      counted anywhere. */
  method StatusCounts(statuses: seq<string>) returns (counts: map<string, nat>)
    ensures forall s :: s in counts <==> IsCanonical(s)
    ensures forall s :: s in counts ==> counts[s] == CountOf(statuses, s)
  {
    counts := map[Ordered := 0, Accepted := 0, Preparing := 0, Ready := 0, Delivered := 0, Cancelled := 0];
    var k := 0;
    while k < |statuses|
      invariant 0 <= k <= |statuses|
      invariant forall s :: s in counts <==> IsCanonical(s)
      invariant forall s :: s in counts ==> counts[s] == CountOf(statuses[..k], s)
    {
      var st := statuses[k];
      assert statuses[..k + 1] == statuses[..k] + [st];
      if st in counts {
        counts := counts[st := counts[st] + 1];
      }
      k := k + 1;
    }
    assert statuses[..k] == statuses;
  }

  /** An order as listed on the orders page (the JSON details are left out). */
  datatype OrderView = OrderView(ordId: nat, usrId: nat, status: string)

  /** The group an order is listed under. */
  function GroupOf(status: string): string
  {
    if IsCanonical(status) then status else "Other"
  }

  /** The orders listed under group g, in the order of the query. */
  function InGroup(rows: seq<OrderView>, g: string): seq<OrderView>
  {
    if |rows| == 0 then []
    else
      var r := rows[|rows| - 1];
      InGroup(rows[..|rows| - 1], g) + (if GroupOf(r.status) == g then [r] else [])
  }

  /** The orders page grouping: the six statuses are always keys, "Other" is
      a key exactly when some order has a status outside them, and every key
      lists its orders in query order. */
  method GroupByStatus(rows: seq<OrderView>) returns (groups: map<string, seq<OrderView>>)
    ensures forall g :: g in groups <==> IsCanonical(g) || (g == "Other" && InGroup(rows, "Other") != [])
    ensures forall g :: g in groups ==> groups[g] == InGroup(rows, g)
  {
    groups := map[Ordered := [], Accepted := [], Preparing := [], Ready := [], Delivered := [], Cancelled := []];
    var k := 0;
    while k < |rows|
      invariant 0 <= k <= |rows|
      invariant forall g :: g in groups <==> IsCanonical(g) || (g == "Other" && InGroup(rows[..k], "Other") != [])
      invariant forall g :: g in groups ==> groups[g] == InGroup(rows[..k], g)
    {
      var r := rows[k];
      assert rows[..k + 1][..k] == rows[..k];
      if r.status in groups && r.status != "Other" {
        groups := groups[r.status := groups[r.status] + [r]];
      } else {
        var prev := if "Other" in groups then groups["Other"] else [];
        groups := groups["Other" := prev + [r]];
      }
      k := k + 1;
    }
    assert rows[..k] == rows;
  }

  /** "Other" lists something exactly when some order has a status outside
      the six. */
  lemma {:induction false} OtherNonEmpty(rows: seq<OrderView>)
    ensures InGroup(rows, "Other") != [] <==> exists i :: 0 <= i < |rows| && !IsCanonical(rows[i].status)
  {
    if |rows| > 0 {
      var front := rows[..|rows| - 1];
      OtherNonEmpty(front);
      if exists i :: 0 <= i < |front| && !IsCanonical(front[i].status) {
        var i :| 0 <= i < |front| && !IsCanonical(front[i].status);
        assert rows[i] == front[i];
      }
      if exists i :: 0 <= i < |rows| && !IsCanonical(rows[i].status) {
        var i :| 0 <= i < |rows| && !IsCanonical(rows[i].status);
        if i < |front| {
          assert front[i] == rows[i];
        }
      }
    }
  }

  /** Every order is listed under exactly one group, so the group sizes of
      the page add up to the number of orders. */
  lemma {:induction false} GroupsPartition(rows: seq<OrderView>)
    ensures |InGroup(rows, Ordered)| + |InGroup(rows, Accepted)| + |InGroup(rows, Preparing)|
            + |InGroup(rows, Ready)| + |InGroup(rows, Delivered)| + |InGroup(rows, Cancelled)|
            + |InGroup(rows, "Other")| == |rows|
  {
    if |rows| > 0 {
      GroupsPartition(rows[..|rows| - 1]);
    }
  }
}
