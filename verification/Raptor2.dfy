/** The exchange handler's routing, over its fixed array of session callbacks. */
module Raptor2 {
  import opened RouterModel

  /** A callback pointer: null, or a session with its guid. */
  datatype Callback = Null | Session(guid: string)

  class Raptor2 {
    const cbs: array<Callback>
    var cbCnt: nat
    var orderCbId: int
    var guidToCallbackid: map<string, Byte>
    var reqidToCallbackid: map<nat, Byte>
    /** Order events as the outside sees them. */
    var delivered: seq<Delivery>

    /** Slots below the count hold sessions, later ones are null, and the last slot stays unused. */
    ghost predicate Valid()
      reads this, cbs
    {
      && cbs.Length == MAX_CBS
      && cbCnt < MAX_CBS
      && (forall i :: 0 <= i < cbCnt ==> cbs[i].Session?)
      && (forall i :: cbCnt <= i < MAX_CBS ==> cbs[i].Null?)
    }

    ghost function Guids(n: nat): (gs: seq<string>)
      requires Valid() && n <= cbCnt
      reads this, cbs
      ensures |gs| == n && forall i :: 0 <= i < n ==> gs[i] == cbs[i].guid
    {
      if n == 0 then [] else Guids(n - 1) + [cbs[n - 1].guid]
    }

    ghost function View(): Router
      requires Valid()
      reads this, cbs
    {
      Router(Guids(cbCnt), orderCbId, guidToCallbackid, reqidToCallbackid)
    }

    constructor ()
      ensures Valid() && View() == Fresh && delivered == [] && fresh(cbs)
    {
      cbs := new Callback[MAX_CBS](_ => Null);
      cbCnt, orderCbId := 0, -1;
      guidToCallbackid, reqidToCallbackid, delivered := map[], map[], [];
    }

    method RegisterCallback(guid: string) returns (index: int)
      requires Valid()
      modifies this, cbs
      ensures Valid() && View() == Step(old(View()), Register(guid)) && delivered == old(delivered)
      ensures index == if old(cbCnt) + 1 >= MAX_CBS then -1 else old(cbCnt)
    {
      if cbCnt + 1 >= MAX_CBS {
        return -1;
      }
      index := cbCnt;
      ghost var before := Guids(cbCnt);
      cbs[cbCnt] := Session(guid);
      cbCnt := cbCnt + 1;
      assert Guids(cbCnt) == before + [guid];
      guidToCallbackid := guidToCallbackid[guid := ToInt8(index)];
      if guid == "ORDERBOOK" {
        guidToCallbackid := guidToCallbackid["ORDBOOK" := ToInt8(index)];
        orderCbId := index;
      }
    }

    method SendOrder(ord: OrderPod) returns (sent: OrderPod)
      requires Valid()
      modifies this`reqidToCallbackid
      ensures Valid() && View() == Step(old(View()), Send(ord))
      ensures sent == ord.(callbackid := reqidToCallbackid[ord.orderReqId])
    {
      sent := ord;
      if sent.callbackid < 0 {
        sent := sent.(callbackid := ToInt8(orderCbId));
      }
      reqidToCallbackid := reqidToCallbackid[sent.orderReqId := sent.callbackid];
    }

    /** `callbackid` is what the order itself is told, as a full int. */
    method RedirectOrderCallback(newcallbackid: int, orderReqId: nat) returns (callbackid: int)
      requires Valid()
      modifies this`reqidToCallbackid
      ensures Valid() && View() == Step(old(View()), Redirect(newcallbackid, orderReqId))
      ensures callbackid == if newcallbackid == -1 then orderCbId else newcallbackid
    {
      callbackid := newcallbackid;
      if callbackid == -1 {
        callbackid := orderCbId;
      }
      reqidToCallbackid := reqidToCallbackid[orderReqId := ToInt8(callbackid)];
    }

    method MoveOrderToStrategy(ord: OrderPod)
      requires Valid()
      modifies this`reqidToCallbackid
      ensures Valid() && View() == Step(old(View()), Move(ord))
    {
      if ord.callbackid >= 0 && ord.callbackid < cbCnt && cbs[ord.callbackid] != Null {
        reqidToCallbackid := reqidToCallbackid[ord.orderReqId := ord.callbackid];
      }
    }

    predicate CallbackExists(callbackid: Byte)
      requires Valid()
      reads this, cbs
      ensures CallbackExists(callbackid) <==> HasSession(View(), callbackid)
    {
      callbackid >= 0 && callbackid < ToInt8(cbs.Length) && cbs[callbackid] != Null
    }

    /** The first half of an event: find the order's callback, and remember it unless the
        recovery service does not know the order.  `api` is that service's answer. */
    method AssignCallback(ord0: OrderPod, api: Option<ApiOrder>) returns (ord: OrderPod)
      requires Valid()
      modifies this`reqidToCallbackid
      ensures Valid() && View() == Step(old(View()), Event(ord0, api))
      ensures ord == ord0.(callbackid := Resolve(old(View()), ord0, api))
    {
      ord := ord0;
      if ord.orderReqId in reqidToCallbackid {
        ord := ord.(callbackid := reqidToCallbackid[ord.orderReqId]);
      } else {
        match api {
          case Some(apiord) =>
            if apiord.guid in guidToCallbackid {
              ord := ord.(callbackid := guidToCallbackid[apiord.guid]);
            } else if apiord.orderbook {
              ord := ord.(callbackid := ToInt8(orderCbId));
            } else {
              ord := ord.(callbackid := -1);
            }
            reqidToCallbackid := reqidToCallbackid[ord.orderReqId := ord.callbackid];
          case None =>
            ord := ord.(callbackid := -1);
        }
      }
    }

    method OnExchOrdEvent(ord0: OrderPod, api: Option<ApiOrder>)
      requires Valid()
      modifies this`reqidToCallbackid, this`delivered
      ensures Valid() && View() == Step(old(View()), Event(ord0, api))
      ensures delivered == old(delivered) + Delivers(old(View()), Event(ord0, api))
    {
      var ord := AssignCallback(ord0, api);
      if !CallbackExists(ord.callbackid) {
        if ord.possRetransmit {
          ord := ord.(lastpx := 0, lastqty := 0);
        }
        delivered := delivered + [ToRecovery(ord)];
        return;
      }
      RouteToCallback(ord.callbackid, ord);
    }

    method RouteToCallback(index: nat, ord: OrderPod)
      requires Valid() && index < cbCnt
      modifies this`delivered
      ensures delivered == old(delivered) + [RouteTo(index, ord)]
    {
      var o := ord;
      var call: Option<Call> := None;
      match ord.status {
        case NEW => call := Some(OrderAck);
        case MODIFIED => call := Some(OrderModify);
        case CANCELED => call := Some(OrderCancel);
        case FILLED => call := Some(OrderExecution);
        case PARTIALLY_FILLED => call := Some(OrderExecution);
        case REJECTED => call := Some(OrderReject);
        case CXL_REPL_REJECT => call := Some(CancelReplaceReject);
        case CXL_REJECT => call := Some(CancelReject);
        case HEDGE_SENT =>
          o := o.(status := SENT_NEW);
          call := Some(HedgeOrderSent);
        case PASSOUT_SENT =>
          o := o.(status := SENT_NEW);
          call := Some(OrderSent);
        case _ =>
      }
      delivered := delivered + [if call.Some? then ToSession(index, call.value, o) else NoCall(index, o)];
    }

    /** The search by slot: the first session with the guid, or -1. */
    method GetCbidFromGuid(guid: string) returns (id: int)
      requires Valid()
      ensures id == FirstSlot(View().sessions, guid)
    {
      ghost var gs := View().sessions;
      for i := 0 to cbCnt
        invariant guid !in gs[..i]
      {
        if cbs[i].guid == guid {
          assert gs[i] == guid;
          FirstIs(gs, guid, i);
          return i;
        }
      }
      assert gs[..cbCnt] == gs;
      id := -1;
    }
  }

  lemma FirstIs(gs: seq<string>, guid: string, i: nat)
    requires i < |gs| && gs[i] == guid && guid !in gs[..i]
    ensures FirstSlot(gs, guid) == i
  {
    assert gs[0..] == gs;
    assert forall j :: 0 <= j < i ==> gs[..i][j] == gs[j];
    var k := FirstAt(gs, guid, 0);
  }
}
