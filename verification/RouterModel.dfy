/** Sessions, and the table that says which session an order's events belong to. */
module RouterModel {

  const MAX_CBS: nat := 20

  /** Conversion of an int to a signed byte. */
  function ToInt8(x: int): (r: int)
    ensures -128 <= r < 128
    ensures -128 <= x < 128 ==> r == x
  {
    if x % 256 < 128 then x % 256 else x % 256 - 256
  }

  /** The byte differs from the int by a multiple of 256. */
  lemma ByteIsCongruent(x: int)
    ensures (x - ToInt8(x)) % 256 == 0
  {
    var q, r := x / 256, x % 256;
    assert x == 256 * q + r;
    assert x - ToInt8(x) == 256 * q || x - ToInt8(x) == 256 * (q + 1);
  }

  datatype OrdStatus =
    | NEW | MODIFIED | CANCELED | FILLED | PARTIALLY_FILLED | REJECTED | CXL_REPL_REJECT | CXL_REJECT
    | HEDGE_SENT | PASSOUT_SENT | SENT_NEW | OTHER_STATUS

  datatype Call = OrderAck | OrderModify | OrderCancel | OrderExecution | OrderReject | CancelReplaceReject
                | CancelReject | HedgeOrderSent | OrderSent

  type Byte = x: int | -128 <= x < 128

  datatype OrderPod = OrderPod(callbackid: Byte, orderReqId: nat, exchordid: nat, status: OrdStatus,
                               possRetransmit: bool, lastpx: int, lastqty: nat)

  /** What the recovery service knows about an exchange order. */
  datatype ApiOrder = ApiOrder(guid: string, orderbook: bool)

  datatype Option<T> = None | Some(value: T)

  /** Where an exchange event ends up: with the session in a slot, with the slot's session but
      no call for its status, or with the recovery path. */
  datatype Delivery =
    | ToSession(slot: nat, call: Call, ord: OrderPod)
    | NoCall(slot: nat, ord: OrderPod)
    | ToRecovery(ord: OrderPod)

  /** `sessions` lists the registered guids by slot. */
  datatype Router = Router(sessions: seq<string>, orderCb: int, guidTo: map<string, Byte>, reqTo: map<nat, Byte>)

  datatype Action =
    | Register(guid: string)
    | Send(ord: OrderPod)
    | Redirect(newcallbackid: int, orderReqId: nat)
    | Move(ord: OrderPod)
    | Event(ord: OrderPod, api: Option<ApiOrder>)

  function RegisterGuid(r: Router, guid: string): Router {
    if |r.sessions| + 1 >= MAX_CBS then r
    else
      var index := |r.sessions|;
      var m := r.guidTo[guid := ToInt8(index)];
      if guid == "ORDERBOOK"
      then r.(sessions := r.sessions + [guid], orderCb := index, guidTo := m["ORDBOOK" := ToInt8(index)])
      else r.(sessions := r.sessions + [guid], guidTo := m)
  }

  predicate HasSession(r: Router, c: int) {
    0 <= c < |r.sessions|
  }

  /** The callback an event resolves to; known request ids are not looked up again. */
  function Resolve(r: Router, ord: OrderPod, api: Option<ApiOrder>): Byte {
    if ord.orderReqId in r.reqTo then r.reqTo[ord.orderReqId]
    else if api.None? then -1
    else if api.value.guid in r.guidTo then r.guidTo[api.value.guid]
    else if api.value.orderbook then ToInt8(r.orderCb)
    else -1
  }

  function Remember(r: Router, ord: OrderPod, api: Option<ApiOrder>): Router {
    if ord.orderReqId in r.reqTo || api.None? then r
    else r.(reqTo := r.reqTo[ord.orderReqId := Resolve(r, ord, api)])
  }

  function CallFor(status: OrdStatus): Option<Call> {
    match status
    case NEW => Some(OrderAck)
    case MODIFIED => Some(OrderModify)
    case CANCELED => Some(OrderCancel)
    case FILLED => Some(OrderExecution)
    case PARTIALLY_FILLED => Some(OrderExecution)
    case REJECTED => Some(OrderReject)
    case CXL_REPL_REJECT => Some(CancelReplaceReject)
    case CXL_REJECT => Some(CancelReject)
    case HEDGE_SENT => Some(HedgeOrderSent)
    case PASSOUT_SENT => Some(OrderSent)
    case _ => None
  }

  function RouteTo(slot: nat, ord: OrderPod): Delivery {
    var o := if ord.status == HEDGE_SENT || ord.status == PASSOUT_SENT then ord.(status := SENT_NEW) else ord;
    match CallFor(ord.status)
    case Some(call) => ToSession(slot, call, o)
    case None => NoCall(slot, o)
  }

  /** The recovery path never counts a retransmitted fill twice. */
  function ForRecovery(ord: OrderPod): OrderPod {
    if ord.possRetransmit then ord.(lastpx := 0, lastqty := 0) else ord
  }

  function Deliver(r: Router, ord: OrderPod): Delivery {
    if HasSession(r, ord.callbackid) then RouteTo(ord.callbackid, ord) else ToRecovery(ForRecovery(ord))
  }

  function Step(r: Router, a: Action): Router {
    match a
    case Register(guid) => RegisterGuid(r, guid)
    case Send(ord) =>
      r.(reqTo := r.reqTo[ord.orderReqId := if ord.callbackid < 0 then ToInt8(r.orderCb) else ord.callbackid])
    case Redirect(c, req) => r.(reqTo := r.reqTo[req := ToInt8(if c == -1 then r.orderCb else c)])
    case Move(ord) =>
      if HasSession(r, ord.callbackid) then r.(reqTo := r.reqTo[ord.orderReqId := ord.callbackid]) else r
    case Event(ord, api) => Remember(r, ord, api)
  }

  /** What an action delivers: one delivery for an event, none for anything else. */
  function Delivers(r: Router, a: Action): seq<Delivery> {
    match a
    case Event(ord, api) => [Deliver(Remember(r, ord, api), ord.(callbackid := Resolve(r, ord, api)))]
    case _ => []
  }

  function Steps(r: Router, acts: seq<Action>): Router {
    if |acts| == 0 then r else Step(Steps(r, acts[..|acts| - 1]), acts[|acts| - 1])
  }

  const Fresh := Router([], -1, map[], map[])

  // ----- the registry

  /** The last slot that answers to `guid`; "ORDBOOK" is another name for the order book. */
  ghost function LastSlot(sessions: seq<string>, guid: string): (i: int)
    ensures -1 <= i < |sessions|
  {
    if |sessions| == 0 then -1
    else
      var g := sessions[|sessions| - 1];
      if g == guid || (g == "ORDERBOOK" && guid == "ORDBOOK") then |sessions| - 1
      else LastSlot(sessions[..|sessions| - 1], guid)
  }

  /** Both guid lookups are determined by the slots. */
  ghost predicate Consistent(r: Router) {
    && |r.sessions| < MAX_CBS
    && r.orderCb == LastSlot(r.sessions, "ORDERBOOK")
    && (forall g :: g in r.guidTo <==> LastSlot(r.sessions, g) >= 0)
    && (forall g :: g in r.guidTo ==> r.guidTo[g] == LastSlot(r.sessions, g))
  }

  lemma LastSlotSnoc(sessions: seq<string>, guid: string, g: string)
    ensures LastSlot(sessions + [guid], g)
         == if guid == g || (guid == "ORDERBOOK" && g == "ORDBOOK") then |sessions| else LastSlot(sessions, g)
  {
    assert (sessions + [guid])[..|sessions|] == sessions;
  }

  lemma RegisterConsistent(r: Router, guid: string)
    requires Consistent(r) && |r.sessions| + 1 < MAX_CBS
    ensures Consistent(RegisterGuid(r, guid)) && r.sessions <= RegisterGuid(r, guid).sessions
  {
    forall g
      ensures LastSlot(r.sessions + [guid], g)
           == if guid == g || (guid == "ORDERBOOK" && g == "ORDBOOK") then |r.sessions| else LastSlot(r.sessions, g)
    {
      LastSlotSnoc(r.sessions, guid, g);
    }
  }

  lemma StepConsistent(r: Router, a: Action)
    requires Consistent(r)
    ensures Consistent(Step(r, a)) && r.sessions <= Step(r, a).sessions
  {
    if a.Register? && |r.sessions| + 1 < MAX_CBS {
      RegisterConsistent(r, a.guid);
    }
  }

  /** Over every run: at most 19 sessions, slots are filled in order and never change hands, and
      the guid map and the order-book slot always name the latest registration. */
  lemma {:induction false} StepsConsistent(r: Router, acts: seq<Action>)
    requires Consistent(r)
    ensures Consistent(Steps(r, acts)) && r.sessions <= Steps(r, acts).sessions
  {
    if |acts| > 0 {
      StepsConsistent(r, acts[..|acts| - 1]);
      StepConsistent(Steps(r, acts[..|acts| - 1]), acts[|acts| - 1]);
    }
  }

  // ----- routing is stable

  /** The action assigns request id `req` to a callback by name. */
  predicate Names(a: Action, req: nat) {
    match a
    case Send(ord) => ord.orderReqId == req
    case Redirect(_, q) => q == req
    case Move(ord) => ord.orderReqId == req
    case _ => false
  }

  predicate Unnamed(acts: seq<Action>, req: nat) {
    forall a :: a in acts ==> !Names(a, req)
  }

  /** Once a request id has an entry, it keeps it until Send, Redirect or Move names the id. */
  lemma {:induction false} EntryStays(r: Router, acts: seq<Action>, req: nat)
    requires req in r.reqTo && Unnamed(acts, req)
    ensures req in Steps(r, acts).reqTo && Steps(r, acts).reqTo[req] == r.reqTo[req]
  {
    if |acts| > 0 {
      var rest := acts[..|acts| - 1];
      assert acts[|acts| - 1] in acts;
      EntryStays(r, rest, req);
    }
  }

  /** The slot an event is delivered to, if any. */
  function SlotOf(d: Delivery): Option<nat> {
    match d
    case ToSession(slot, _, _) => Some(slot)
    case NoCall(slot, _) => Some(slot)
    case ToRecovery(_) => None
  }

  /** Every later event of that id resolves to the entry `c`: it goes to the session in slot `c`
      if and only if that slot is filled by then, and otherwise to recovery, once in either case. */
  lemma EventsFollowEntry(r: Router, acts: seq<Action>, ord: OrderPod, api: Option<ApiOrder>)
    requires ord.orderReqId in r.reqTo && Unnamed(acts, ord.orderReqId)
    ensures var c, now := r.reqTo[ord.orderReqId], Steps(r, acts);
      && |Delivers(now, Event(ord, api))| == 1
      && SlotOf(Delivers(now, Event(ord, api))[0]) == (if 0 <= c < |now.sessions| then Some(c) else None)
      && Step(now, Event(ord, api)) == now
  {
    EntryStays(r, acts, ord.orderReqId);
  }

  /** The first event of a recovered order decides for all: if neither its guid is registered
      by then nor it belongs to a registered order book, the cached -1 sends every later event to
      recovery, even after its session registers. */
  lemma EarlyEventStaysRecovered(r: Router, acts: seq<Action>, ord: OrderPod, api: ApiOrder,
                                 later: OrderPod, api': Option<ApiOrder>)
    requires Consistent(r) && ord.orderReqId !in r.reqTo && later.orderReqId == ord.orderReqId
    requires Unnamed(acts, ord.orderReqId)
    ensures var r1 := Step(r, Event(ord, Some(api)));
      Resolve(r, ord, Some(api)) == -1 ==> Delivers(Steps(r1, acts), Event(later, api'))[0].ToRecovery?
    ensures Resolve(r, ord, Some(api)) == -1
       <==> LastSlot(r.sessions, api.guid) < 0 && !(api.orderbook && LastSlot(r.sessions, "ORDERBOOK") >= 0)
  {
    var r1 := Step(r, Event(ord, Some(api)));
    EventsFollowEntry(r1, acts, later, api');
  }

  // ----- two ways to find a session by guid

  ghost function FirstSlot(sessions: seq<string>, guid: string): int {
    if guid in sessions then FirstAt(sessions, guid, 0) else -1
  }

  ghost function FirstAt(sessions: seq<string>, guid: string, i: nat): (k: nat)
    requires i <= |sessions| && guid in sessions[i..]
    ensures i <= k < |sessions| && sessions[k] == guid && forall j :: i <= j < k ==> sessions[j] != guid
    decreases |sessions| - i
  {
    if sessions[i] == guid then i else FirstAt(sessions, guid, i + 1)
  }

  lemma {:induction false} LastSlotIs(sessions: seq<string>, guid: string)
    requires guid != "ORDBOOK"
    ensures var k := LastSlot(sessions, guid);
      (k >= 0 ==> sessions[k] == guid) && forall j :: k < j < |sessions| ==> sessions[j] != guid
  {
    if |sessions| > 0 {
      LastSlotIs(sessions[..|sessions| - 1], guid);
    }
  }

  /** The search by slot and the guid map name the same session if and only if the guid is
      registered once: the search finds the first registration, the map the last. */
  lemma LookupsAgree(r: Router, guid: string)
    requires Consistent(r) && guid in r.sessions && guid != "ORDBOOK"
    ensures guid in r.guidTo
    ensures FirstSlot(r.sessions, guid) == r.guidTo[guid]
       <==> forall i, j :: 0 <= i < j < |r.sessions| && r.sessions[i] == guid ==> r.sessions[j] != guid
  {
    var s := r.sessions;
    LastSlotIs(s, guid);
    var k := LastSlot(s, guid);
    var first := FirstAt(s, guid, 0);
    assert s[0..] == s;
  }
}
