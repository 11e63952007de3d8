/** Which session an order's events go to: the one it was sent for, redirected or moved to, or, for a
    recovered order, the one that registered its guid. */
module RouterLaws {
  import opened RouterModel

  /** Where a later event of a request id goes, after actions that do not name the id. */
  function SlotLater(r: Router, acts: seq<Action>, ev: OrderPod, api: Option<ApiOrder>): Option<nat> {
    SlotOf(Delivers(Steps(r, acts), Event(ev, api))[0])
  }

  /** A callback id as a slot: none when it is negative. */
  function SlotIfAny(c: int): Option<nat> {
    if c < 0 then None else Some(c)
  }

  lemma EntryDecides(r: Router, acts: seq<Action>, ev: OrderPod, api: Option<ApiOrder>)
    requires Consistent(r) && ev.orderReqId in r.reqTo && Unnamed(acts, ev.orderReqId)
    requires r.reqTo[ev.orderReqId] < |r.sessions|
    ensures SlotLater(r, acts, ev, api) == SlotIfAny(r.reqTo[ev.orderReqId])
  {
    StepsConsistent(r, acts);
    EventsFollowEntry(r, acts, ev, api);
  }

  /** A session that sends an order gets all its events; an order sent without a session belongs to the
      order book registered last, or to nobody when there is none. */
  lemma SenderGetsEvents(r: Router, ord: OrderPod, acts: seq<Action>, ev: OrderPod, api: Option<ApiOrder>)
    requires Consistent(r) && ord.callbackid < |r.sessions|
    requires ev.orderReqId == ord.orderReqId && Unnamed(acts, ord.orderReqId)
    ensures SlotLater(Step(r, Send(ord)), acts, ev, api)
         == if ord.callbackid >= 0 then Some(ord.callbackid as nat) else SlotIfAny(LastSlot(r.sessions, "ORDERBOOK"))
  {
    var r1 := Step(r, Send(ord));
    StepConsistent(r, Send(ord));
    EntryDecides(r1, acts, ev, api);
  }

  /** A redirected order's events go to the slot it is redirected to, with -1 for the order book. */
  lemma RedirectedGetsEvents(r: Router, c: int, acts: seq<Action>, ev: OrderPod, api: Option<ApiOrder>)
    requires Consistent(r) && -1 <= c < |r.sessions| && Unnamed(acts, ev.orderReqId)
    ensures SlotLater(Step(r, Redirect(c, ev.orderReqId)), acts, ev, api)
         == SlotIfAny(if c == -1 then LastSlot(r.sessions, "ORDERBOOK") else c)
  {
    StepConsistent(r, Redirect(c, ev.orderReqId));
    EntryDecides(Step(r, Redirect(c, ev.orderReqId)), acts, ev, api);
  }

  /** A moved order's events go to the session it is moved to; a move to a slot without a session
      changes nothing. */
  lemma MovedGetsEvents(r: Router, ord: OrderPod, acts: seq<Action>, ev: OrderPod, api: Option<ApiOrder>)
    requires Consistent(r) && ev.orderReqId == ord.orderReqId && Unnamed(acts, ord.orderReqId)
    ensures 0 <= ord.callbackid < |r.sessions| ==>
      SlotLater(Step(r, Move(ord)), acts, ev, api) == Some(ord.callbackid as nat)
    ensures !(0 <= ord.callbackid < |r.sessions|) ==> Step(r, Move(ord)) == r
  {
    if 0 <= ord.callbackid < |r.sessions| {
      StepConsistent(r, Move(ord));
      EntryDecides(Step(r, Move(ord)), acts, ev, api);
    }
  }

  /** The slot the first event of a recovered order finds: the last one registered for its guid, else
      that of the order book if it is an order-book order. */
  ghost function Owner(sessions: seq<string>, api: ApiOrder): int {
    if LastSlot(sessions, api.guid) >= 0 then LastSlot(sessions, api.guid)
    else if api.orderbook then LastSlot(sessions, "ORDERBOOK")
    else -1
  }

  /** A recovered order goes to its owner, with its first event and all later ones. */
  lemma RecoveredGoesToOwner(r: Router, ord: OrderPod, api: ApiOrder, acts: seq<Action>,
                             ev: OrderPod, api': Option<ApiOrder>)
    requires Consistent(r) && ord.orderReqId !in r.reqTo
    requires ev.orderReqId == ord.orderReqId && Unnamed(acts, ord.orderReqId)
    ensures SlotLater(r, [], ord, Some(api)) == SlotIfAny(Owner(r.sessions, api))
    ensures SlotLater(Step(r, Event(ord, Some(api))), acts, ev, api') == SlotIfAny(Owner(r.sessions, api))
  {
    var r1 := Step(r, Event(ord, Some(api)));
    StepConsistent(r, Event(ord, Some(api)));
    EntryDecides(r1, acts, ev, api');
    assert Steps(r, []) == r;
  }

  /** An order nobody knows goes to recovery and leaves no entry, so its next event asks again. */
  lemma UnknownIsAskedAgain(r: Router, ord: OrderPod)
    requires ord.orderReqId !in r.reqTo
    ensures Step(r, Event(ord, None)) == r
    ensures Delivers(r, Event(ord, None))[0].ToRecovery?
  {
  }

  // ----- what is delivered

  /** An event reaches recovery as it came, but for its callback, and without its fill when it may be
      a retransmission. */
  lemma RecoveryCountsOnce(r: Router, ord: OrderPod, api: Option<ApiOrder>)
    ensures var d := Delivers(r, Event(ord, api))[0];
      d.ToRecovery? ==>
        && d.ord == ord.(callbackid := Resolve(r, ord, api), lastpx := d.ord.lastpx, lastqty := d.ord.lastqty)
        && d.ord.lastqty == (if ord.possRetransmit then 0 else ord.lastqty)
        && d.ord.lastpx == (if ord.possRetransmit then 0 else ord.lastpx)
  {
  }

  /** A session is called for an execution exactly when the order was filled or partially filled, and
      so on; the two sent statuses arrive as SENT_NEW, and nothing else of the order changes. */
  lemma CallsMatch(slot: nat, ord: OrderPod)
    ensures var d := RouteTo(slot, ord);
      && (d.NoCall? <==> ord.status == SENT_NEW || ord.status == OTHER_STATUS)
      && (d.ToSession? ==>
            && (d.call == OrderExecution <==> ord.status == FILLED || ord.status == PARTIALLY_FILLED)
            && (d.call == OrderAck <==> ord.status == NEW)
            && (d.call == OrderModify <==> ord.status == MODIFIED)
            && (d.call == OrderCancel <==> ord.status == OrdStatus.CANCELED)
            && (d.call == OrderReject <==> ord.status == REJECTED)
            && (d.call == CancelReplaceReject <==> ord.status == CXL_REPL_REJECT)
            && (d.call == CancelReject <==> ord.status == CXL_REJECT)
            && (d.call == HedgeOrderSent <==> ord.status == HEDGE_SENT)
            && (d.call == OrderSent <==> ord.status == PASSOUT_SENT))
      && (ord.status == HEDGE_SENT || ord.status == PASSOUT_SENT ==> d.ord == ord.(status := SENT_NEW))
      && (ord.status != HEDGE_SENT && ord.status != PASSOUT_SENT ==> d.ord == ord)
  {
  }

  // ----- the registry's capacity

  /** The guids of the registrations, in order. */
  ghost function Registered(acts: seq<Action>): seq<string> {
    if |acts| == 0 then []
    else
      var a := acts[|acts| - 1];
      Registered(acts[..|acts| - 1]) + if a.Register? then [a.guid] else []
  }

  /** Of any run's registrations the first nineteen get the slots, in order, and no other does. */
  lemma {:induction false} FirstNineteenRegister(acts: seq<Action>)
    ensures var gs := Registered(acts);
      Steps(Fresh, acts).sessions == if |gs| <= 19 then gs else gs[..19]
  {
    if |acts| > 0 {
      FirstNineteenRegister(acts[..|acts| - 1]);
    }
  }
}
