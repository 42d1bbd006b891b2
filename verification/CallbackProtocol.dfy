/** Handler threads of the callback receiver, interleaved in every possible way
    (scripts/fake_platform_callback_server.py:175-329). */
module CallbackProtocol {
  import opened Text
  import opened Callback

  /** The verdict on a body. `NoObject` raises when its fields are read: `[]`, `1` or
      `null`, or text that the parser itself cannot stand; `NoPayloadObject` raises when
      the receipt is built: its "payload" is neither empty nor an object. */
  datatype BodyCheck = BadJson | NoObject | ScopeMismatch | NoPayloadObject | BodyAccepted

  /** A POST: its signed fields, the verdict on its payload, and its delivery header. */
  datatype Request = Request(
    keyId: string, nonce: string, timestamp: int, idempotencyKey: string, bodySha256: string,
    payload: BodyCheck, deliveryHeader: Option<string>, remoteTraceId: string)

  /** What the deployment fixes: the digests that make identifiers, the signature
      check (version, key and HMAC), the time tolerance and whether receipts are logged. */
  datatype Config = Config(
    receiptId: string -> string, deliveryId: string -> string,
    authentic: Request -> bool, tolerance: int, logging: bool)

  /** How a request ended; `ServerError` is an uncaught exception, without a reply. */
  datatype Reply =
    | Unauthorized | BadRequest | BodyConflict
    | Confirmed(receipt: Receipt) | Dropped | ServerError

  /** Where a handler thread is. `checkedAt` is the clock reading of the freshness
      check, `now` the separate reading that `claim` makes before taking the lock. */
  datatype Handler =
    | Arrived(request: Request)
    | Fresh(request: Request, checkedAt: int)
    | Claiming(request: Request, checkedAt: int, now: int)
    | Verified(request: Request)
    | Stored(request: Request, receipt: Receipt)
    | Done(request: Request, reply: Reply)

  /** A successful claim: by which handler and request, when its freshness was checked,
      the time of the claim and its expiry. */
  datatype Claim = Claim(handler: nat, request: Request, checkedAt: int, time: int, expiresAt: int)

  datatype System = System(store: Store, handlers: map<nat, Handler>, clock: int, claims: seq<Claim>)

  datatype Step =
    | Arrive(h: nat, request: Request) | Tick(time: int) | Check(h: nat) | ReadClock(h: nat)
    | TryClaim(h: nat) | Accept(h: nat, writable: bool) | Respond(h: nat) | ArmDrop

  function NonceOf(r: Request): NonceKey { (r.keyId, r.nonce) }

  /** The receipt a handler builds for its request. */
  function ReceiptOf(cfg: Config, r: Request): Receipt {
    Receipt(r.idempotencyKey, cfg.receiptId(r.idempotencyKey), cfg.deliveryId(r.idempotencyKey),
            r.bodySha256, r.remoteTraceId)
  }

  function IsFresh(cfg: Config, r: Request, now: int): bool {
    -cfg.tolerance <= now - r.timestamp <= cfg.tolerance
  }

  /** `X-Auris-Delivery-Id` is absent, empty or the one expected. */
  predicate DeliveryAgrees(cfg: Config, r: Request) {
    || r.deliveryHeader.None? || r.deliveryHeader.value == ""
    || r.deliveryHeader.value == cfg.deliveryId(r.idempotencyKey)
  }

  /** Handling the body raises before the state is asked. */
  predicate Raises(cfg: Config, r: Request) {
    r.payload.NoObject? || (r.payload.NoPayloadObject? && DeliveryAgrees(cfg, r))
  }

  /** The payload and delivery-id checks after the signature. */
  predicate WellAddressed(cfg: Config, r: Request) { r.payload.BodyAccepted? && DeliveryAgrees(cfg, r) }

  predicate In(s: System, h: nat) { h in s.handlers }

  function Put(s: System, h: nat, handler: Handler): System { s.(handlers := s.handlers[h := handler]) }

  function ReplyTo(s: System, h: nat, r: Request, reply: Reply): System { Put(s, h, Done(r, reply)) }

  /** One atomic step. A step that is not possible in the state changes nothing, so
      every sequence of steps is an interleaving. */
  function Apply(cfg: Config, s: System, step: Step): System {
    match step
    case Arrive(h, request) => if In(s, h) then s else Put(s, h, Arrived(request))
    case Tick(time) => if time >= s.clock then s.(clock := time) else s
    case ArmDrop => s.(store := s.store.(dropNext := true))
    case Check(h) =>
      if !In(s, h) || !s.handlers[h].Arrived? then s
      else
        var r := s.handlers[h].request;
        if cfg.authentic(r) && IsFresh(cfg, r, s.clock) then Put(s, h, Fresh(r, s.clock))
        else ReplyTo(s, h, r, Unauthorized)
    case ReadClock(h) =>
      if !In(s, h) || !s.handlers[h].Fresh? then s
      else Put(s, h, Claiming(s.handlers[h].request, s.handlers[h].checkedAt, s.clock))
    case TryClaim(h) =>
      if !In(s, h) || !s.handlers[h].Claiming? then s
      else ClaimStep(cfg, s, h)
    case Accept(h, writable) =>
      if !In(s, h) || !s.handlers[h].Verified? then s
      else AcceptStep(cfg, s, h, writable)
    case Respond(h) =>
      if !In(s, h) || !s.handlers[h].Stored? then s
      else
        var reply := if s.store.dropNext then Dropped else Confirmed(s.handlers[h].receipt);
        ReplyTo(s.(store := s.store.(dropNext := false)), h, s.handlers[h].request, reply)
  }

  function ClaimStep(cfg: Config, s: System, h: nat): System
    requires In(s, h) && s.handlers[h].Claiming?
  {
    var Claiming(r, checkedAt, now) := s.handlers[h];
    var expiresAt := r.timestamp + cfg.tolerance;
    var (store, claimed) := Claimed(s.store, now, NonceOf(r), expiresAt);
    if claimed then
      Put(s.(store := store, claims := s.claims + [Claim(h, r, checkedAt, s.clock, expiresAt)]), h, Verified(r))
    else ReplyTo(s.(store := store), h, r, Unauthorized)
  }

  function AcceptStep(cfg: Config, s: System, h: nat, writable: bool): System
    requires In(s, h) && s.handlers[h].Verified?
  {
    var r := s.handlers[h].request;
    if Raises(cfg, r) then ReplyTo(s, h, r, ServerError)
    else if !WellAddressed(cfg, r) then ReplyTo(s, h, r, BadRequest)
    else
      var (store, acceptance) :=
        Received(s.store, r.idempotencyKey, r.bodySha256, ReceiptOf(cfg, r), cfg.logging, writable);
      var after := s.(store := store);
      if !acceptance.Accepted? then ReplyTo(after, h, r, ServerError)
      else if acceptance.outcome.Conflict? then ReplyTo(after, h, r, BodyConflict)
      else Put(after, h, Stored(r, acceptance.receipt))
  }

  function Start(clock: int): System { System(EMPTY, map[], clock, []) }

  /** The state after an interleaving. */
  function After(cfg: Config, s: System, steps: seq<Step>): System
    decreases |steps|
  {
    if steps == [] then s else Apply(cfg, After(cfg, s, steps[..|steps| - 1]), steps[|steps| - 1])
  }

  // ----- receipts

  /** What an interleaving is taken to keep to: the keys that arrive, and whether
      every write of the log succeeds. */
  datatype Scope = Scope(cfg: Config, keys: set<string>, writable: bool)

  /** The keys of the requests that arrive. */
  function KeysOf(steps: seq<Step>): set<string> {
    set i | 0 <= i < |steps| && steps[i].Arrive? :: steps[i].request.idempotencyKey
  }

  predicate AllWritable(steps: seq<Step>) {
    forall i :: 0 <= i < |steps| && steps[i].Accept? ==> steps[i].writable
  }

  predicate KeepsTo(sc: Scope, step: Step) {
    && (step.Arrive? ==> step.request.idempotencyKey in sc.keys)
    && (step.Accept? && sc.writable ==> step.writable)
  }

  ghost predicate InjectiveOn(f: string -> string, keys: set<string>) {
    forall a, b :: a in keys && b in keys && f(a) == f(b) ==> a == b
  }

  /** No two of the keys share an identifier, and no identifier is empty. */
  ghost predicate DistinctIds(cfg: Config, keys: set<string>) {
    && InjectiveOn(cfg.receiptId, keys) && InjectiveOn(cfg.deliveryId, keys)
    && forall k :: k in keys ==> cfg.receiptId(k) != ""
  }

  /** The store holds one receipt for the key, the one that its binding and its
      delivery id stand for, and that is logged if it could be. */
  ghost predicate KeySettled(sc: Scope, s: Store, k: string)
    requires k in s.bindings
  {
    var id := sc.cfg.receiptId(k);
    && k in sc.keys && s.bindings[k].idempotencyKey == k
    && id in s.receipts && s.receipts[id].idempotencyKey == k
    && s.receipts[id].receiptId == id && s.receipts[id].deliveryId == sc.cfg.deliveryId(k)
    && s.receipts[id].requestSha256 == s.bindings[k].bodySha256
    && sc.cfg.deliveryId(k) in s.byDelivery && s.byDelivery[sc.cfg.deliveryId(k)] == id
    && (sc.cfg.logging && sc.writable ==> s.receipts[id] in s.log)
  }

  /** The receipt on file for a key. */
  function OnFile(cfg: Config, s: Store, k: string): Option<Receipt> {
    if k in s.bindings then Lookup(s.receipts, cfg.receiptId(k)) else None
  }

  ghost predicate LogSettled(cfg: Config, s: Store) {
    && (forall i :: 0 <= i < |s.log| ==> OnFile(cfg, s, s.log[i].idempotencyKey) == Some(s.log[i]))
    && (forall i, j :: 0 <= i < j < |s.log| ==> s.log[i].idempotencyKey != s.log[j].idempotencyKey)
  }

  ghost predicate StoreSettled(sc: Scope, s: Store) {
    (forall k :: k in s.bindings ==> KeySettled(sc, s, k)) && LogSettled(sc.cfg, s)
  }

  /** The key's first body is the request's body. */
  predicate SameBody(s: Store, r: Request) {
    r.idempotencyKey in s.bindings && s.bindings[r.idempotencyKey].bodySha256 == r.bodySha256
  }

  /** A handler that holds or has sent a receipt holds the one on file, for the body
      on file; one that reported a conflict had another body. */
  ghost predicate HandlerSettled(sc: Scope, s: Store, handler: Handler) {
    var r := handler.request;
    && r.idempotencyKey in sc.keys
    && (handler.Stored? ==> OnFile(sc.cfg, s, r.idempotencyKey) == Some(handler.receipt) && SameBody(s, r))
    && (handler.Done? && handler.reply.Confirmed? ==>
          OnFile(sc.cfg, s, r.idempotencyKey) == Some(handler.reply.receipt) && SameBody(s, r))
    && (handler.Done? && handler.reply.BodyConflict? ==> r.idempotencyKey in s.bindings && !SameBody(s, r))
    && (handler.Done? && handler.reply.ServerError? ==> Raises(sc.cfg, r) || (sc.cfg.logging && !sc.writable))
    && (Raises(sc.cfg, r) ==>
          !handler.Stored? && (handler.Done? ==> handler.reply.ServerError? || handler.reply.Unauthorized?))
  }

  ghost predicate Settled(sc: Scope, s: System) {
    StoreSettled(sc, s.store) && forall h :: h in s.handlers ==> HandlerSettled(sc, s.store, s.handlers[h])
  }

  /** Nothing on file is ever changed or removed. */
  ghost predicate Keeps(cfg: Config, s: Store, t: Store) {
    && (forall k :: k in s.bindings ==> k in t.bindings && t.bindings[k] == s.bindings[k])
    && (forall k :: k in s.bindings ==> OnFile(cfg, t, k) == OnFile(cfg, s, k))
    && s.log <= t.log
  }

  lemma KeepsItself(cfg: Config, s: Store)
    ensures Keeps(cfg, s, s)
  {
  }

  function Receive(cfg: Config, s: Store, r: Request, writable: bool): (Store, Acceptance) {
    Received(s, r.idempotencyKey, r.bodySha256, ReceiptOf(cfg, r), cfg.logging, writable)
  }

  lemma ReceiveSettles(sc: Scope, s: Store, r: Request, writable: bool)
    requires DistinctIds(sc.cfg, sc.keys) && StoreSettled(sc, s)
    requires r.idempotencyKey in sc.keys && (sc.writable ==> writable)
    ensures var (t, acceptance) := Receive(sc.cfg, s, r, writable);
      && StoreSettled(sc, t) && Keeps(sc.cfg, s, t)
      && !acceptance.MissingReceipt?
      && (acceptance.LogFailed? ==> sc.cfg.logging && !sc.writable)
      && (acceptance.Accepted? && !acceptance.outcome.Conflict? ==>
            OnFile(sc.cfg, t, r.idempotencyKey) == Some(acceptance.receipt) && SameBody(t, r))
      && (acceptance.Accepted? && acceptance.outcome.Conflict? ==>
            t == s && r.idempotencyKey in s.bindings && !SameBody(s, r))
  {
    var key := r.idempotencyKey;
    if key !in s.bindings {
      NewKeySettles(sc, s, r, writable);
    } else {
      assert KeySettled(sc, s, key);
    }
  }

  /** A new key leaves every other key's receipt on file. */
  lemma OthersStayOnFile(sc: Scope, s: Store, r: Request, writable: bool)
    requires DistinctIds(sc.cfg, sc.keys) && StoreSettled(sc, s)
    requires r.idempotencyKey in sc.keys && r.idempotencyKey !in s.bindings
    ensures var t := Receive(sc.cfg, s, r, writable).0;
      && (forall k :: k in s.bindings ==> k in t.bindings && t.bindings[k] == s.bindings[k])
      && (forall k :: k in s.bindings ==> OnFile(sc.cfg, t, k) == OnFile(sc.cfg, s, k) && OnFile(sc.cfg, s, k).Some?)
  {
    var t := Receive(sc.cfg, s, r, writable).0;
    forall k | k in s.bindings
      ensures OnFile(sc.cfg, t, k) == OnFile(sc.cfg, s, k) && OnFile(sc.cfg, s, k).Some?
    {
      assert KeySettled(sc, s, k);
    }
  }

  lemma NewKeyLogs(sc: Scope, s: Store, r: Request, writable: bool)
    requires DistinctIds(sc.cfg, sc.keys) && StoreSettled(sc, s)
    requires r.idempotencyKey in sc.keys && r.idempotencyKey !in s.bindings
    ensures LogSettled(sc.cfg, Receive(sc.cfg, s, r, writable).0)
  {
    var t := Receive(sc.cfg, s, r, writable).0;
    OthersStayOnFile(sc, s, r, writable);
    forall i | 0 <= i < |t.log| ensures OnFile(sc.cfg, t, t.log[i].idempotencyKey) == Some(t.log[i]) {
      if i < |s.log| {
        assert s.log[i].idempotencyKey in s.bindings;
      }
    }
  }

  lemma NewKeySettles(sc: Scope, s: Store, r: Request, writable: bool)
    requires DistinctIds(sc.cfg, sc.keys) && StoreSettled(sc, s)
    requires r.idempotencyKey in sc.keys && r.idempotencyKey !in s.bindings && (sc.writable ==> writable)
    ensures var t := Receive(sc.cfg, s, r, writable).0;
      StoreSettled(sc, t) && Keeps(sc.cfg, s, t)
  {
    var t := Receive(sc.cfg, s, r, writable).0;
    OthersStayOnFile(sc, s, r, writable);
    NewKeyLogs(sc, s, r, writable);
    forall k | k in t.bindings ensures KeySettled(sc, t, k) {
      if k != r.idempotencyKey {
        assert KeySettled(sc, s, k);
      }
    }
  }

  lemma HandlersStaySettled(sc: Scope, s: Store, t: Store, handler: Handler)
    requires Keeps(sc.cfg, s, t) && HandlerSettled(sc, s, handler)
    ensures HandlerSettled(sc, t, handler)
  {
  }

  lemma SameReceiptsStaySettled(sc: Scope, s: Store, t: Store)
    requires StoreSettled(sc, s)
    requires t == s.(nonces := t.nonces, dropNext := t.dropNext)
    ensures StoreSettled(sc, t) && Keeps(sc.cfg, s, t)
  {
    forall k | k in t.bindings ensures KeySettled(sc, t, k) {
      assert KeySettled(sc, s, k);
    }
    forall k ensures OnFile(sc.cfg, t, k) == OnFile(sc.cfg, s, k) {
    }
  }

  /** Only the handler of the step changes, if any. */
  ghost predicate OthersKept(s: System, t: System, h: nat) {
    forall g :: g in t.handlers && g != h ==> g in s.handlers && t.handlers[g] == s.handlers[g]
  }

  lemma OneHandlerSettles(sc: Scope, s: System, t: System, h: nat)
    requires Settled(sc, s) && StoreSettled(sc, t.store) && Keeps(sc.cfg, s.store, t.store)
    requires OthersKept(s, t, h)
    requires h in t.handlers ==> HandlerSettled(sc, t.store, t.handlers[h])
    ensures Settled(sc, t)
  {
    forall g | g in t.handlers ensures HandlerSettled(sc, t.store, t.handlers[g]) {
      if g != h {
        HandlersStaySettled(sc, s.store, t.store, s.handlers[g]);
      }
    }
  }

  lemma AcceptKeepsSettled(sc: Scope, s: System, h: nat, writable: bool)
    requires DistinctIds(sc.cfg, sc.keys) && Settled(sc, s) && In(s, h) && s.handlers[h].Verified?
    requires sc.writable ==> writable
    ensures var t := AcceptStep(sc.cfg, s, h, writable); Settled(sc, t) && Keeps(sc.cfg, s.store, t.store)
  {
    AcceptedStore(sc, s, h, writable);
    if WellAddressed(sc.cfg, s.handlers[h].request) {
      AcceptedHandler(sc, s, h, writable);
    } else {
      TurnedAwayHandler(sc, s, h, writable);
    }
    AcceptTouchesOneHandler(sc.cfg, s, h, writable);
    OneHandlerSettles(sc, s, AcceptStep(sc.cfg, s, h, writable), h);
  }

  lemma AcceptTouchesOneHandler(cfg: Config, s: System, h: nat, writable: bool)
    requires In(s, h) && s.handlers[h].Verified?
    ensures OthersKept(s, AcceptStep(cfg, s, h, writable), h)
  {
  }

  lemma AcceptedStore(sc: Scope, s: System, h: nat, writable: bool)
    requires DistinctIds(sc.cfg, sc.keys) && Settled(sc, s) && In(s, h) && s.handlers[h].Verified?
    requires sc.writable ==> writable
    ensures var t := AcceptStep(sc.cfg, s, h, writable);
      StoreSettled(sc, t.store) && Keeps(sc.cfg, s.store, t.store)
  {
    assert HandlerSettled(sc, s.store, s.handlers[h]);
    ReceiveSettles(sc, s.store, s.handlers[h].request, writable);
    KeepsItself(sc.cfg, s.store);
  }

  lemma TurnedAwayHandler(sc: Scope, s: System, h: nat, writable: bool)
    requires Settled(sc, s) && In(s, h) && s.handlers[h].Verified? && !WellAddressed(sc.cfg, s.handlers[h].request)
    ensures var t := AcceptStep(sc.cfg, s, h, writable); h in t.handlers && HandlerSettled(sc, t.store, t.handlers[h])
  {
    assert HandlerSettled(sc, s.store, s.handlers[h]);
  }

  lemma AcceptedHandler(sc: Scope, s: System, h: nat, writable: bool)
    requires DistinctIds(sc.cfg, sc.keys) && Settled(sc, s) && In(s, h) && s.handlers[h].Verified?
    requires WellAddressed(sc.cfg, s.handlers[h].request)
    requires sc.writable ==> writable
    ensures var t := AcceptStep(sc.cfg, s, h, writable); h in t.handlers && HandlerSettled(sc, t.store, t.handlers[h])
  {
    assert HandlerSettled(sc, s.store, s.handlers[h]);
    ReceiveSettles(sc, s.store, s.handlers[h].request, writable);
  }

  /** The handler that a step moves, if it moves one. */
  ghost function HandlerOf(step: Step): nat {
    match step
    case Arrive(h, _) => h
    case Tick(_) => 0
    case Check(h) => h
    case ReadClock(h) => h
    case TryClaim(h) => h
    case Accept(h, _) => h
    case Respond(h) => h
    case ArmDrop => 0
  }

  lemma StepTouchesOneHandler(cfg: Config, s: System, step: Step)
    ensures OthersKept(s, Apply(cfg, s, step), HandlerOf(step))
  {
  }

  lemma OtherStepsKeepReceipts(cfg: Config, s: System, step: Step)
    requires !step.Accept?
    ensures var t := Apply(cfg, s, step).store;
      t == s.store.(nonces := t.nonces, dropNext := t.dropNext)
  {
  }

  lemma OtherStepsHandler(sc: Scope, s: System, step: Step)
    requires !step.Accept? && KeepsTo(sc, step)
    requires forall h :: h in s.handlers ==> HandlerSettled(sc, s.store, s.handlers[h])
    ensures var t := Apply(sc.cfg, s, step);
      In(t, HandlerOf(step)) ==> HandlerSettled(sc, s.store, t.handlers[HandlerOf(step)])
  {
    var h := HandlerOf(step);
    if In(s, h) {
      assert HandlerSettled(sc, s.store, s.handlers[h]);
    }
  }

  lemma OtherStepsKeepSettled(sc: Scope, s: System, step: Step)
    requires Settled(sc, s) && !step.Accept? && KeepsTo(sc, step)
    ensures Settled(sc, Apply(sc.cfg, s, step)) && Keeps(sc.cfg, s.store, Apply(sc.cfg, s, step).store)
  {
    var t, h := Apply(sc.cfg, s, step), HandlerOf(step);
    OtherStepsKeepReceipts(sc.cfg, s, step);
    SameReceiptsStaySettled(sc, s.store, t.store);
    StepTouchesOneHandler(sc.cfg, s, step);
    OtherStepsHandler(sc, s, step);
    if In(t, h) {
      HandlersStaySettled(sc, s.store, t.store, t.handlers[h]);
    }
    OneHandlerSettles(sc, s, t, h);
  }

  /** Every step keeps the receipts settled and everything on file unchanged. */
  lemma StepKeepsSettled(sc: Scope, s: System, step: Step)
    requires DistinctIds(sc.cfg, sc.keys) && Settled(sc, s) && KeepsTo(sc, step)
    ensures Settled(sc, Apply(sc.cfg, s, step)) && Keeps(sc.cfg, s.store, Apply(sc.cfg, s, step).store)
  {
    if step.Accept? {
      KeepsItself(sc.cfg, s.store);
      if In(s, step.h) && s.handlers[step.h].Verified? {
        AcceptKeepsSettled(sc, s, step.h, step.writable);
      }
    } else {
      OtherStepsKeepSettled(sc, s, step);
    }
  }

  lemma {:induction false} RunKeepsSettled(sc: Scope, s: System, steps: seq<Step>)
    requires DistinctIds(sc.cfg, sc.keys) && Settled(sc, s)
    requires forall i :: 0 <= i < |steps| ==> KeepsTo(sc, steps[i])
    ensures Settled(sc, After(sc.cfg, s, steps)) && Keeps(sc.cfg, s.store, After(sc.cfg, s, steps).store)
    decreases |steps|
  {
    if steps == [] {
      KeepsItself(sc.cfg, s.store);
    } else {
      var before := After(sc.cfg, s, steps[..|steps| - 1]);
      RunKeepsSettled(sc, s, steps[..|steps| - 1]);
      StepKeepsSettled(sc, before, steps[|steps| - 1]);
    }
  }

  lemma {:induction false} AfterConcat(cfg: Config, s: System, steps: seq<Step>, more: seq<Step>)
    ensures After(cfg, s, steps + more) == After(cfg, After(cfg, s, steps), more)
    decreases |more|
  {
    if more == [] {
      assert steps + more == steps;
    } else {
      var init := more[..|more| - 1];
      AfterConcat(cfg, s, steps, init);
      assert (steps + more)[..|steps + more| - 1] == steps + init;
    }
  }

  /** The scope of a whole interleaving. */
  function ScopeOf(cfg: Config, steps: seq<Step>): Scope { Scope(cfg, KeysOf(steps), AllWritable(steps)) }

  lemma StepsKeepToScope(cfg: Config, steps: seq<Step>, more: seq<Step>)
    ensures forall i :: 0 <= i < |steps| ==> KeepsTo(ScopeOf(cfg, steps + more), steps[i])
    ensures forall i :: 0 <= i < |more| ==> KeepsTo(ScopeOf(cfg, steps + more), more[i])
  {
    var all := steps + more;
    forall i | 0 <= i < |all| ensures KeepsTo(ScopeOf(cfg, all), all[i]) {
    }
    forall i | 0 <= i < |more| ensures more[i] == all[|steps| + i] {
    }
    forall i | 0 <= i < |steps| ensures steps[i] == all[i] {
    }
  }

  /** At most one log line for the key, and that is the given receipt. */
  ghost predicate LoggedOnce(s: Store, key: string, receipt: Receipt) {
    && (forall i :: 0 <= i < |s.log| && s.log[i].idempotencyKey == key ==> s.log[i] == receipt)
    && (forall i, j :: 0 <= i < j < |s.log| ==> !(s.log[i].idempotencyKey == key && s.log[j].idempotencyKey == key))
  }

  /** The handler has answered a request for the key with a receipt. */
  predicate Confirms(handler: Handler, key: string) {
    handler.Done? && handler.reply.Confirmed? && handler.request.idempotencyKey == key
  }

  /** The handler has answered a request for the key with a conflict. */
  predicate Refuses(handler: Handler, key: string) {
    handler.Done? && handler.reply.BodyConflict? && handler.request.idempotencyKey == key
  }

  predicate EndsIn(handler: Handler, reply: Reply) { handler.Done? && handler.reply == reply }

  /** Exactly once, over every interleaving whose keys have distinct identifiers: the
      log never has two lines for a key; once a key is accepted, its binding and
      receipt are final; every confirmation for the key, before or after, and every
      read-back by its delivery id give that first receipt; confirmed are requests
      with the first body, refused those with another. When the log can be written
      the receipt is in it, and only bodies whose handling raises end in an exception;
      these do, whatever the log, unless the signature was refused. */
  lemma ExactlyOnceReceipts(cfg: Config, clock: int, steps: seq<Step>, more: seq<Step>, key: string)
    requires DistinctIds(cfg, KeysOf(steps + more))
    requires key in After(cfg, Start(clock), steps).store.bindings
    ensures var s := After(cfg, Start(clock), steps).store;
      var t := After(cfg, Start(clock), steps + more);
      var first := OnFile(cfg, s, key);
      && first.Some? && first.value.idempotencyKey == key
      && first.value.requestSha256 == s.bindings[key].bodySha256
      && OnFile(cfg, t.store, key) == first
      && key in t.store.bindings && t.store.bindings[key] == s.bindings[key]
      && ForDelivery(t.store, cfg.deliveryId(key)) == first
      && LoggedOnce(t.store, key, first.value)
      && (cfg.logging && AllWritable(steps + more) ==> first.value in t.store.log)
      && (!cfg.logging || AllWritable(steps + more) ==>
            forall h :: h in t.handlers && EndsIn(t.handlers[h], ServerError) ==> Raises(cfg, t.handlers[h].request))
      && (forall h :: h in t.handlers && t.handlers[h].Done? && Raises(cfg, t.handlers[h].request) ==>
            EndsIn(t.handlers[h], ServerError) || EndsIn(t.handlers[h], Unauthorized))
      && (forall h :: h in t.handlers && Confirms(t.handlers[h], key) ==>
            t.handlers[h].reply.receipt == first.value
            && t.handlers[h].request.bodySha256 == first.value.requestSha256)
      && (forall h :: h in t.handlers && Refuses(t.handlers[h], key) ==>
            t.handlers[h].request.bodySha256 != first.value.requestSha256)
  {
    var start, sc := Start(clock), ScopeOf(cfg, steps + more);
    StepsKeepToScope(cfg, steps, more);
    RunKeepsSettled(sc, start, steps);
    var s := After(cfg, start, steps);
    RunKeepsSettled(sc, s, more);
    AfterConcat(cfg, start, steps, more);
    var t := After(cfg, start, steps + more);
    assert KeySettled(sc, s.store, key) && KeySettled(sc, t.store, key);
    forall h | h in t.handlers ensures HandlerSettled(sc, t.store, t.handlers[h]) {
    }
  }

  /** The request that a handler is about to have accepted, in a state that a run reaches. */
  ghost predicate Reaches(cfg: Config, clock: int, steps: seq<Step>, h: nat, r: Request) {
    var s := After(cfg, Start(clock), steps);
    DistinctIds(cfg, KeysOf(steps)) && In(s, h) && s.handlers[h] == Verified(r)
  }

  lemma ReachedIsSettled(cfg: Config, clock: int, steps: seq<Step>, h: nat, r: Request)
    requires Reaches(cfg, clock, steps, h, r)
    ensures var s := After(cfg, Start(clock), steps).store;
      && StoreSettled(Scope(cfg, KeysOf(steps), false), s) && r.idempotencyKey in KeysOf(steps)
      && (r.idempotencyKey in s.bindings ==>
            KeySettled(Scope(cfg, KeysOf(steps), false), s, r.idempotencyKey))
  {
    var sc, s := Scope(cfg, KeysOf(steps), false), After(cfg, Start(clock), steps);
    RunKeepsSettled(sc, Start(clock), steps);
    assert HandlerSettled(sc, s.store, s.handlers[h]);
  }

  /** Over every run: a request that the checks let through is refused as a conflict
      exactly when its key is bound to another body, and then the store stays as it is. */
  lemma ConflictExactly(cfg: Config, clock: int, steps: seq<Step>, h: nat, r: Request, writable: bool)
    requires Reaches(cfg, clock, steps, h, r)
    ensures var s := After(cfg, Start(clock), steps);
      var t := After(cfg, Start(clock), steps + [Accept(h, writable)]);
      && (t.handlers[h] == Done(r, BodyConflict) <==>
            WellAddressed(cfg, r) && r.idempotencyKey in s.store.bindings && !SameBody(s.store, r))
      && (t.handlers[h] == Done(r, BodyConflict) ==> t.store == s.store)
  {
    ReachedIsSettled(cfg, clock, steps, h, r);
    AfterOne(cfg, Start(clock), steps, Accept(h, writable));
  }

  /** Over every run: acceptance ends in an exception exactly when handling the body
      raises, or a new key's log line cannot be written. The first leaves the store as
      it is, the second binds the key and leaves the log as it is. */
  lemma ServerErrorExactly(cfg: Config, clock: int, steps: seq<Step>, h: nat, r: Request, writable: bool)
    requires Reaches(cfg, clock, steps, h, r)
    ensures var s := After(cfg, Start(clock), steps);
      var t := After(cfg, Start(clock), steps + [Accept(h, writable)]);
      && (t.handlers[h] == Done(r, ServerError) <==>
            Raises(cfg, r)
            || (WellAddressed(cfg, r) && cfg.logging && !writable && r.idempotencyKey !in s.store.bindings))
      && (Raises(cfg, r) ==> t.store == s.store)
      && (t.handlers[h] == Done(r, ServerError) && !Raises(cfg, r) ==>
            t.store.log == s.store.log && OnFile(cfg, t.store, r.idempotencyKey) == Some(ReceiptOf(cfg, r)))
  {
    ReachedIsSettled(cfg, clock, steps, h, r);
    AfterOne(cfg, Start(clock), steps, Accept(h, writable));
  }

  lemma AfterOne(cfg: Config, s: System, steps: seq<Step>, step: Step)
    ensures After(cfg, s, steps + [step]) == Apply(cfg, After(cfg, s, steps), step)
  {
    assert (steps + [step])[..|steps + [step]| - 1] == steps;
  }

  // ----- the identifiers must be distinct

  /** Requests accepted one after another, without the rest of the protocol. */
  function AcceptAll(cfg: Config, requests: seq<Request>): Store
    decreases |requests|
  {
    if requests == [] then EMPTY
    else Receive(cfg, AcceptAll(cfg, requests[..|requests| - 1]), requests[|requests| - 1], true).0
  }

  /** Every accepted key can be looked up, by key and by delivery, as itself. */
  ghost predicate Faithful(cfg: Config, s: Store) {
    forall k :: k in s.bindings ==>
      && OnFile(cfg, s, k).Some? && OnFile(cfg, s, k).value.idempotencyKey == k
      && ForDelivery(s, cfg.deliveryId(k)) == OnFile(cfg, s, k)
  }

  ghost predicate KeysAmong(requests: seq<Request>, keys: set<string>) {
    forall i :: 0 <= i < |requests| ==> requests[i].idempotencyKey in keys
  }

  lemma {:induction false} AcceptAllSettled(sc: Scope, requests: seq<Request>)
    requires DistinctIds(sc.cfg, sc.keys) && KeysAmong(requests, sc.keys)
    ensures StoreSettled(sc, AcceptAll(sc.cfg, requests))
    decreases |requests|
  {
    if requests != [] {
      AcceptAllSettled(sc, requests[..|requests| - 1]);
      ReceiveSettles(sc, AcceptAll(sc.cfg, requests[..|requests| - 1]), requests[|requests| - 1], true);
    }
  }

  ghost function Plain(key: string): Request { Request("", "", 0, key, "", BodyAccepted, None, "") }

  lemma OneAccepted(cfg: Config, k: string)
    requires Faithful(cfg, AcceptAll(cfg, [Plain(k)]))
    ensures cfg.receiptId(k) != ""
  {
    var r := Plain(k);
    assert [r][..0] == [];
    assert AcceptAll(cfg, [r]) == Receive(cfg, EMPTY, r, true).0;
    assert k in AcceptAll(cfg, [r]).bindings;
  }

  lemma TwoAccepted(cfg: Config, a: string, b: string)
    requires a != b && Faithful(cfg, AcceptAll(cfg, [Plain(a), Plain(b)]))
    ensures cfg.receiptId(a) != cfg.receiptId(b) && cfg.deliveryId(a) != cfg.deliveryId(b)
  {
    var r, q := Plain(a), Plain(b);
    assert [r, q][..1] == [r] && [r][..0] == [];
    var one := Receive(cfg, EMPTY, r, true).0;
    assert AcceptAll(cfg, [r]) == one;
    var two := AcceptAll(cfg, [r, q]);
    assert two == Receive(cfg, one, q, true).0;
    assert a in two.bindings && b in two.bindings;
  }

  lemma SettledIsFaithful(sc: Scope, s: Store)
    requires DistinctIds(sc.cfg, sc.keys) && StoreSettled(sc, s)
    ensures Faithful(sc.cfg, s)
  {
    forall k | k in s.bindings
      ensures OnFile(sc.cfg, s, k).Some? && OnFile(sc.cfg, s, k).value.idempotencyKey == k
      ensures ForDelivery(s, sc.cfg.deliveryId(k)) == OnFile(sc.cfg, s, k)
    {
      assert KeySettled(sc, s, k);
    }
  }

  /** Receipts stay faithful for all requests with these keys. */
  ghost predicate AlwaysFaithful(cfg: Config, keys: set<string>) {
    forall requests :: KeysAmong(requests, keys) ==> Faithful(cfg, AcceptAll(cfg, requests))
  }

  lemma FaithfulNeedsDistinctIds(cfg: Config, keys: set<string>)
    requires AlwaysFaithful(cfg, keys)
    ensures DistinctIds(cfg, keys)
  {
    forall k | k in keys ensures cfg.receiptId(k) != "" {
      assert KeysAmong([Plain(k)], keys);
      OneAccepted(cfg, k);
    }
    forall a, b | a in keys && b in keys && a != b
      ensures cfg.receiptId(a) != cfg.receiptId(b) && cfg.deliveryId(a) != cfg.deliveryId(b)
    {
      assert KeysAmong([Plain(a), Plain(b)], keys);
      TwoAccepted(cfg, a, b);
    }
  }

  /** Receipts stay faithful for all requests with some keys exactly when the digests
      give different ones of these keys different, non-empty identifiers. */
  lemma FaithfulExactly(cfg: Config, keys: set<string>)
    ensures AlwaysFaithful(cfg, keys) <==> DistinctIds(cfg, keys)
  {
    if DistinctIds(cfg, keys) {
      var sc := Scope(cfg, keys, true);
      forall requests | KeysAmong(requests, keys) ensures Faithful(cfg, AcceptAll(cfg, requests)) {
        AcceptAllSettled(sc, requests);
        SettledIsFaithful(sc, AcceptAll(cfg, requests));
      }
    }
    if AlwaysFaithful(cfg, keys) {
      FaithfulNeedsDistinctIds(cfg, keys);
    }
  }

  // ----- nonces

  /** Readings of the clock lie in the past, and checked requests were in time. */
  ghost predicate FreshInTime(cfg: Config, s: System) {
    && (forall h :: h in s.handlers && s.handlers[h].Claiming? ==> s.handlers[h].now <= s.clock)
    && (forall h :: h in s.handlers && (s.handlers[h].Claiming? || s.handlers[h].Fresh?) ==>
          s.handlers[h].checkedAt <= s.handlers[h].request.timestamp + cfg.tolerance)
  }

  /** A claim is still recorded unless the clock has passed its expiry, and claims
      of one nonce are apart in time. */
  ghost predicate NoncesSettled(cfg: Config, s: System) {
    && FreshInTime(cfg, s)
    && (forall i :: 0 <= i < |s.claims| ==> ClaimSettled(cfg, s, s.claims[i]))
    && (forall i, j :: 0 <= i < j < |s.claims| && NonceOf(s.claims[i].request) == NonceOf(s.claims[j].request) ==>
          s.claims[i].expiresAt < s.claims[j].time)
  }

  ghost predicate ClaimSettled(cfg: Config, s: System, c: Claim) {
    && c.time <= s.clock
    && c.expiresAt == c.request.timestamp + cfg.tolerance
    && c.checkedAt <= c.expiresAt
    && (c.expiresAt < s.clock
        || (NonceOf(c.request) in s.store.nonces && s.store.nonces[NonceOf(c.request)] == c.expiresAt))
  }

  lemma PurgeKeeps(cfg: Config, s: System, c: Claim, now: int)
    requires ClaimSettled(cfg, s, c) && now <= s.clock
    ensures var live := Unexpired(s.store.nonces, now);
      c.expiresAt < s.clock || (NonceOf(c.request) in live && live[NonceOf(c.request)] == c.expiresAt)
  {
  }

  lemma ClaimStepKeepsNonces(cfg: Config, s: System, h: nat)
    requires NoncesSettled(cfg, s) && In(s, h) && s.handlers[h].Claiming?
    ensures NoncesSettled(cfg, ClaimStep(cfg, s, h))
  {
    var t := ClaimStep(cfg, s, h);
    var Claiming(r, checkedAt, now) := s.handlers[h];
    forall i | 0 <= i < |s.claims|
      ensures ClaimSettled(cfg, t, s.claims[i])
      ensures |t.claims| > |s.claims| && NonceOf(s.claims[i].request) == NonceOf(r) ==> s.claims[i].expiresAt < s.clock
    {
      PurgeKeeps(cfg, s, s.claims[i], now);
    }
  }

  lemma StepKeepsNonces(cfg: Config, s: System, step: Step)
    requires NoncesSettled(cfg, s)
    ensures NoncesSettled(cfg, Apply(cfg, s, step))
  {
    if step.TryClaim? {
      if In(s, step.h) && s.handlers[step.h].Claiming? {
        ClaimStepKeepsNonces(cfg, s, step.h);
      }
    } else {
      OtherStepsKeepClaims(cfg, s, step);
      SameClaimsStaySettled(cfg, s, Apply(cfg, s, step));
    }
  }

  lemma OtherStepsKeepClaims(cfg: Config, s: System, step: Step)
    requires NoncesSettled(cfg, s) && !step.TryClaim?
    ensures var t := Apply(cfg, s, step);
      && t.claims == s.claims && t.store.nonces == s.store.nonces && s.clock <= t.clock
      && FreshInTime(cfg, t)
  {
  }

  lemma SameClaimsStaySettled(cfg: Config, s: System, t: System)
    requires NoncesSettled(cfg, s) && FreshInTime(cfg, t)
    requires t.claims == s.claims && t.store.nonces == s.store.nonces && s.clock <= t.clock
    ensures NoncesSettled(cfg, t)
  {
    forall i | 0 <= i < |t.claims| ensures ClaimSettled(cfg, t, t.claims[i]) {
      assert ClaimSettled(cfg, s, s.claims[i]);
    }
  }

  lemma {:induction false} RunKeepsNonces(cfg: Config, clock: int, steps: seq<Step>)
    ensures NoncesSettled(cfg, After(cfg, Start(clock), steps))
    decreases |steps|
  {
    if steps != [] {
      RunKeepsNonces(cfg, clock, steps[..|steps| - 1]);
      StepKeepsNonces(cfg, After(cfg, Start(clock), steps[..|steps| - 1]), steps[|steps| - 1]);
    }
  }

  /** Single use, over every interleaving: the second claim of a nonce happens
      strictly after the first one's expiry, although each claim purges with a
      clock reading made before it took the lock. */
  lemma NonceSingleUse(cfg: Config, clock: int, steps: seq<Step>, i: nat, j: nat)
    requires var claims := After(cfg, Start(clock), steps).claims;
      i < j < |claims| && NonceOf(claims[i].request) == NonceOf(claims[j].request)
    ensures var claims := After(cfg, Start(clock), steps).claims;
      claims[i].expiresAt < claims[j].time
  {
    RunKeepsNonces(cfg, clock, steps);
  }

  /** So one signed request passes twice only if the clock passes its expiry
      between its freshness check and its claim. */
  lemma SameRequestTwice(cfg: Config, clock: int, steps: seq<Step>, i: nat, j: nat)
    requires var claims := After(cfg, Start(clock), steps).claims;
      i < j < |claims| && claims[i].request == claims[j].request
    ensures var claims := After(cfg, Start(clock), steps).claims;
      var expiry := claims[j].request.timestamp + cfg.tolerance;
      claims[j].checkedAt <= expiry < claims[j].time
  {
    RunKeepsNonces(cfg, clock, steps);
    var s := After(cfg, Start(clock), steps);
    assert ClaimSettled(cfg, s, s.claims[i]) && ClaimSettled(cfg, s, s.claims[j]);
  }
}
