/** Who is let through, and with which reply. */
module CallbackReplies {
  // The replies of the callback receiver over whole runs, in terms of the requests
  // (scripts/fake_platform_callback_server.py:69-124, 184-329 and
  // backend/app/core/callback_signature.py:337-384).

  import opened Text
  import opened Callback
  import opened CallbackProtocol

  // ----- who is let through

  /** The clock was within the tolerance of the request's timestamp. */
  ghost predicate InTime(cfg: Config, r: Request, at: int) {
    r.timestamp - cfg.tolerance <= at && at <= r.timestamp + cfg.tolerance
  }

  /** The handler is past the nonce step, and not by a refusal. */
  predicate WentOn(handler: Handler) {
    handler.Verified? || handler.Stored? || (handler.Done? && handler.reply != Unauthorized)
  }

  /** The handler's own successful claim, after a check in time. */
  ghost predicate OwnsClaim(cfg: Config, s: System, h: nat, i: nat) {
    && In(s, h) && i < |s.claims|
    && var c := s.claims[i];
       && c.handler == h && c.request == s.handlers[h].request
       && InTime(cfg, c.request, c.checkedAt)
       && c.expiresAt == c.request.timestamp + cfg.tolerance
  }

  ghost predicate HandlerAdmitted(cfg: Config, s: System, h: nat)
    requires In(s, h)
  {
    var handler := s.handlers[h];
    && (!handler.Arrived? && (handler.Done? ==> WentOn(handler)) ==> cfg.authentic(handler.request))
    && (handler.Fresh? || handler.Claiming? ==> InTime(cfg, handler.request, handler.checkedAt))
    && (WentOn(handler) ==> exists i: nat :: OwnsClaim(cfg, s, h, i))
  }

  /** Claims belong to different handlers, which all went on. */
  ghost predicate ClaimsOwned(s: System) {
    && (forall i :: 0 <= i < |s.claims| ==> In(s, s.claims[i].handler) && WentOn(s.handlers[s.claims[i].handler]))
    && forall i, j :: 0 <= i < j < |s.claims| ==> s.claims[i].handler != s.claims[j].handler
  }

  ghost predicate Admitted(cfg: Config, s: System) {
    (forall h :: h in s.handlers ==> HandlerAdmitted(cfg, s, h)) && ClaimsOwned(s)
  }

  lemma ClaimAdmits(cfg: Config, s: System, h: nat)
    requires Admitted(cfg, s) && In(s, h) && s.handlers[h].Claiming?
    ensures Admitted(cfg, Apply(cfg, s, TryClaim(h)))
  {
    var t := Apply(cfg, s, TryClaim(h));
    assert HandlerAdmitted(cfg, s, h);
    forall g | g in t.handlers ensures HandlerAdmitted(cfg, t, g) {
      if g == h {
        if WentOn(t.handlers[h]) {
          assert OwnsClaim(cfg, t, h, |s.claims|);
        }
      } else {
        assert HandlerAdmitted(cfg, s, g);
        if WentOn(s.handlers[g]) {
          var i: nat :| OwnsClaim(cfg, s, g, i);
          assert OwnsClaim(cfg, t, g, i);
        }
      }
    }
  }

  /** Any other step moves one handler on, and makes no claim. */
  lemma OtherStepsMove(cfg: Config, s: System, step: Step)
    requires !step.TryClaim?
    ensures var (t, h) := (Apply(cfg, s, step), HandlerOf(step));
      && t.claims == s.claims && OthersKept(s, t, h)
      && (forall g :: g in s.handlers ==> g in t.handlers)
      && (In(s, h) ==> t.handlers[h].request == s.handlers[h].request
                       && (WentOn(s.handlers[h]) ==> WentOn(t.handlers[h])))
  {
  }

  lemma OtherStepAdmitsOne(cfg: Config, s: System, step: Step)
    requires Admitted(cfg, s) && !step.TryClaim?
    ensures var (t, h) := (Apply(cfg, s, step), HandlerOf(step));
      In(t, h) ==>
        var handler := t.handlers[h];
        && (!handler.Arrived? && (handler.Done? ==> WentOn(handler)) ==> cfg.authentic(handler.request))
        && (handler.Fresh? || handler.Claiming? ==> InTime(cfg, handler.request, handler.checkedAt))
        && (WentOn(handler) ==> In(s, h) && WentOn(s.handlers[h]))
  {
    if In(s, HandlerOf(step)) {
      assert HandlerAdmitted(cfg, s, HandlerOf(step));
    }
  }

  lemma OtherStepsAdmit(cfg: Config, s: System, step: Step)
    requires Admitted(cfg, s) && !step.TryClaim?
    ensures Admitted(cfg, Apply(cfg, s, step))
  {
    var t, h := Apply(cfg, s, step), HandlerOf(step);
    OtherStepsMove(cfg, s, step);
    OtherStepAdmitsOne(cfg, s, step);
    forall g | g in t.handlers ensures HandlerAdmitted(cfg, t, g) {
      if In(s, g) {
        assert HandlerAdmitted(cfg, s, g);
        if WentOn(s.handlers[g]) {
          var i: nat :| OwnsClaim(cfg, s, g, i);
          assert OwnsClaim(cfg, t, g, i);
        }
      }
    }
  }

  lemma {:induction false} RunAdmits(cfg: Config, clock: int, steps: seq<Step>)
    ensures Admitted(cfg, After(cfg, Start(clock), steps))
    decreases |steps|
  {
    if steps != [] {
      var step, s := steps[|steps| - 1], After(cfg, Start(clock), steps[..|steps| - 1]);
      RunAdmits(cfg, clock, steps[..|steps| - 1]);
      if step.TryClaim? {
        if In(s, step.h) && s.handlers[step.h].Claiming? {
          ClaimAdmits(cfg, s, step.h);
        }
      } else {
        OtherStepsAdmit(cfg, s, step);
      }
    }
  }

  /** Over every run: a handler past the nonce step had an authentic request, was
      checked in time, and owns a claim that no other handler owns. */
  lemma LetThroughOwnsClaim(cfg: Config, clock: int, steps: seq<Step>, h: nat) returns (i: nat)
    requires var s := After(cfg, Start(clock), steps); In(s, h) && WentOn(s.handlers[h])
    ensures var s := After(cfg, Start(clock), steps);
      && cfg.authentic(s.handlers[h].request) && OwnsClaim(cfg, s, h, i)
      && forall g, j: nat :: OwnsClaim(cfg, s, g, j) && g != h ==> j != i
  {
    var s := After(cfg, Start(clock), steps);
    RunAdmits(cfg, clock, steps);
    assert HandlerAdmitted(cfg, s, h);
    i :| OwnsClaim(cfg, s, h, i);
  }

  /** So of two requests with one key and nonce that are both let through, one was
      claimed only after the other had expired. */
  lemma LetThroughOnce(cfg: Config, clock: int, steps: seq<Step>, g: nat, h: nat) returns (i: nat, j: nat)
    requires var s := After(cfg, Start(clock), steps);
      && g != h && In(s, g) && In(s, h) && WentOn(s.handlers[g]) && WentOn(s.handlers[h])
      && s.handlers[g].request.keyId == s.handlers[h].request.keyId
      && s.handlers[g].request.nonce == s.handlers[h].request.nonce
    ensures var s := After(cfg, Start(clock), steps);
      && OwnsClaim(cfg, s, g, i) && OwnsClaim(cfg, s, h, j)
      && (s.handlers[g].request.timestamp + cfg.tolerance < s.claims[j].time
          || s.handlers[h].request.timestamp + cfg.tolerance < s.claims[i].time)
  {
    i := LetThroughOwnsClaim(cfg, clock, steps, g);
    j := LetThroughOwnsClaim(cfg, clock, steps, h);
    if i < j {
      NonceSingleUse(cfg, clock, steps, i, j);
    } else {
      NonceSingleUse(cfg, clock, steps, j, i);
    }
  }

  // ----- who is refused

  /** The step refuses the handler: its request is not authentic or not in time when
      checked, or its nonce is recorded and unexpired when it is claimed. */
  ghost predicate RefusesNow(cfg: Config, s: System, step: Step, h: nat, r: Request) {
    && In(s, h) && s.handlers[h].request == r
    && ((step == Check(h) && s.handlers[h].Arrived? && !(cfg.authentic(r) && InTime(cfg, r, s.clock)))
        || (step == TryClaim(h) && s.handlers[h].Claiming?
            && (r.keyId, r.nonce) in s.store.nonces
            && s.store.nonces[(r.keyId, r.nonce)] >= s.handlers[h].now))
  }

  ghost predicate RefusedAt(cfg: Config, clock: int, steps: seq<Step>, n: nat, h: nat, r: Request) {
    n < |steps| && RefusesNow(cfg, After(cfg, Start(clock), steps[..n]), steps[n], h, r)
  }

  predicate IsRefused(s: System, h: nat, r: Request) { In(s, h) && s.handlers[h] == Done(r, Unauthorized) }

  lemma StepRefusesExactly(cfg: Config, s: System, step: Step, h: nat, r: Request)
    ensures IsRefused(Apply(cfg, s, step), h, r) <==> IsRefused(s, h, r) || RefusesNow(cfg, s, step, h, r)
  {
  }

  /** Over every run: a request is answered with 401 exactly when a step refused it. */
  lemma {:induction false} UnauthorizedExactly(cfg: Config, clock: int, steps: seq<Step>, h: nat, r: Request)
    ensures IsRefused(After(cfg, Start(clock), steps), h, r) <==>
      exists n: nat :: RefusedAt(cfg, clock, steps, n, h, r)
    decreases |steps|
  {
    if steps != [] {
      var last := |steps| - 1;
      var s := After(cfg, Start(clock), steps[..last]);
      UnauthorizedExactly(cfg, clock, steps[..last], h, r);
      StepRefusesExactly(cfg, s, steps[last], h, r);
      if n: nat :| RefusedAt(cfg, clock, steps[..last], n, h, r) {
        assert steps[..last][..n] == steps[..n];
        assert RefusedAt(cfg, clock, steps, n, h, r);
      }
      if RefusesNow(cfg, s, steps[last], h, r) {
        assert RefusedAt(cfg, clock, steps, last, h, r);
      }
      if n: nat :| RefusedAt(cfg, clock, steps, n, h, r) {
        if n < last {
          assert steps[..last][..n] == steps[..n];
          assert RefusedAt(cfg, clock, steps[..last], n, h, r);
        }
      }
    }
  }

  // ----- which reply the others get

  /** The delivery header names another delivery. */
  ghost predicate NamesOtherDelivery(cfg: Config, r: Request) {
    r.deliveryHeader.Some? && r.deliveryHeader.value != "" && r.deliveryHeader.value != cfg.deliveryId(r.idempotencyKey)
  }

  ghost predicate IsFine(cfg: Config, r: Request) { r.payload == BodyAccepted && !NamesOtherDelivery(cfg, r) }

  /** Over every run: what becomes of a request that was let through with a body or a
      delivery that does not pass. */
  lemma TurnedAwayExactly(cfg: Config, clock: int, steps: seq<Step>, h: nat, r: Request, writable: bool)
    requires Reaches(cfg, clock, steps, h, r) && !IsFine(cfg, r)
    ensures var s := After(cfg, Start(clock), steps);
      var t := After(cfg, Start(clock), steps + [Accept(h, writable)]);
      && t.store == s.store
      && (t.handlers[h] == Done(r, BadRequest) <==>
            r.payload == BadJson || r.payload == ScopeMismatch
            || (r.payload != NoObject && NamesOtherDelivery(cfg, r)))
      && (t.handlers[h] == Done(r, ServerError) <==>
            r.payload == NoObject || (r.payload == NoPayloadObject && !NamesOtherDelivery(cfg, r)))
  {
    AfterOne(cfg, Start(clock), steps, Accept(h, writable));
  }

  /** Of any other: with a known key it is stored with the receipt on file, or refused
      as a conflict when the key has another body. */
  lemma KnownKeyExactly(cfg: Config, clock: int, steps: seq<Step>, h: nat, r: Request, writable: bool)
    requires Reaches(cfg, clock, steps, h, r) && IsFine(cfg, r)
    requires r.idempotencyKey in After(cfg, Start(clock), steps).store.bindings
    ensures var s, id := After(cfg, Start(clock), steps).store, cfg.receiptId(r.idempotencyKey);
      var handler := After(cfg, Start(clock), steps + [Accept(h, writable)]).handlers[h];
      && id in s.receipts
      && (s.bindings[r.idempotencyKey].bodySha256 == r.bodySha256 ==> handler == Stored(r, s.receipts[id]))
      && (s.bindings[r.idempotencyKey].bodySha256 != r.bodySha256 ==> handler == Done(r, BodyConflict))
  {
    ReachedIsSettled(cfg, clock, steps, h, r);
    AfterOne(cfg, Start(clock), steps, Accept(h, writable));
  }

  /** With a new key it is stored with its own receipt, or fails when that cannot be logged. */
  lemma NewKeyExactly(cfg: Config, clock: int, steps: seq<Step>, h: nat, r: Request, writable: bool)
    requires Reaches(cfg, clock, steps, h, r) && IsFine(cfg, r)
    requires r.idempotencyKey !in After(cfg, Start(clock), steps).store.bindings
    ensures var key, handler := r.idempotencyKey, After(cfg, Start(clock), steps + [Accept(h, writable)]).handlers[h];
      var receipt := Receipt(key, cfg.receiptId(key), cfg.deliveryId(key), r.bodySha256, r.remoteTraceId);
      && (cfg.logging && !writable ==> handler == Done(r, ServerError))
      && (!cfg.logging || writable ==> handler == Stored(r, receipt))
  {
    AfterOne(cfg, Start(clock), steps, Accept(h, writable));
  }

  /** A stored request is confirmed with its receipt, or its reply is dropped when that
      was armed, which disarms it. */
  lemma RespondExactly(cfg: Config, s: System, h: nat, r: Request, receipt: Receipt)
    requires In(s, h) && s.handlers[h] == Stored(r, receipt)
    ensures var t := Apply(cfg, s, Respond(h));
      && (t.handlers[h] == Done(r, Dropped) <==> s.store.dropNext)
      && (t.handlers[h] == Done(r, Confirmed(receipt)) <==> !s.store.dropNext)
      && t.store == s.store.(dropNext := false)
  {
  }

  // ----- replies dropped

  ghost function DroppedIn(s: System): set<nat> {
    set h | h in s.handlers && s.handlers[h].Done? && s.handlers[h].reply.Dropped?
  }

  ghost function ArmsIn(steps: seq<Step>): nat {
    if steps == [] then 0 else ArmsIn(steps[..|steps| - 1]) + if steps[|steps| - 1].ArmDrop? then 1 else 0
  }

  lemma StepDrops(cfg: Config, s: System, step: Step)
    ensures var t := Apply(cfg, s, step);
      && (step.Respond? && s.store.dropNext && In(s, step.h) && s.handlers[step.h].Stored? ==>
            DroppedIn(t) == DroppedIn(s) + {step.h} && step.h !in DroppedIn(s) && !t.store.dropNext)
      && (!(step.Respond? && s.store.dropNext && In(s, step.h) && s.handlers[step.h].Stored?) ==>
            DroppedIn(t) == DroppedIn(s) && (t.store.dropNext ==> s.store.dropNext || step.ArmDrop?))
  {
  }

  /** Over every run, at most one reply is dropped for every time that was armed. */
  lemma {:induction false} DropsWereArmed(cfg: Config, clock: int, steps: seq<Step>)
    ensures var s := After(cfg, Start(clock), steps);
      |DroppedIn(s)| + (if s.store.dropNext then 1 else 0) <= ArmsIn(steps)
    decreases |steps|
  {
    if steps == [] {
      assert DroppedIn(Start(clock)) == {};
    } else {
      DropsWereArmed(cfg, clock, steps[..|steps| - 1]);
      StepDrops(cfg, After(cfg, Start(clock), steps[..|steps| - 1]), steps[|steps| - 1]);
    }
  }

  // ----- a request on its way

  /** Nothing stands in the way of the request: it is authentic and in time, its nonce is
      not recorded, its body and delivery pass, and its key is new. */
  ghost predicate Unobstructed(cfg: Config, s: System, h: nat, r: Request) {
    && !In(s, h) && cfg.authentic(r) && InTime(cfg, r, s.clock)
    && ((r.keyId, r.nonce) in s.store.nonces ==> s.store.nonces[(r.keyId, r.nonce)] < s.clock)
    && IsFine(cfg, r) && r.idempotencyKey !in s.store.bindings
  }

  function Way(h: nat, r: Request): seq<Step> { [Arrive(h, r), Check(h), ReadClock(h), TryClaim(h)] }

  lemma AfterFour(cfg: Config, s: System, a: Step, b: Step, c: Step, d: Step)
    ensures After(cfg, s, [a, b, c, d]) == Apply(cfg, Apply(cfg, Apply(cfg, Apply(cfg, s, a), b), c), d)
  {
    AfterOne(cfg, s, [a, b, c], d);
    AfterOne(cfg, s, [a, b], c);
    AfterOne(cfg, s, [a], b);
    AfterOne(cfg, s, [], a);
    assert [] + [a] == [a] && [a] + [b] == [a, b] && [a, b] + [c] == [a, b, c] && [a, b, c] + [d] == [a, b, c, d];
  }

  /** Its four steps to the nonce record the nonce until the timestamp plus the tolerance. */
  lemma WayIsOpen(cfg: Config, s: System, h: nat, r: Request)
    requires Unobstructed(cfg, s, h, r)
    ensures var t := After(cfg, s, Way(h, r));
      && In(t, h) && t.handlers[h] == Verified(r) && t.clock == s.clock
      && (r.keyId, r.nonce) in t.store.nonces
      && t.store.nonces[(r.keyId, r.nonce)] == r.timestamp + cfg.tolerance
      && t.store == s.store.(nonces := t.store.nonces)
  {
    AfterFour(cfg, s, Arrive(h, r), Check(h), ReadClock(h), TryClaim(h));
  }

  function OwnReceipt(cfg: Config, r: Request): Receipt {
    var key := r.idempotencyKey;
    Receipt(key, cfg.receiptId(key), cfg.deliveryId(key), r.bodySha256, r.remoteTraceId)
  }

  /** Accepting and answering it then puts its receipt on file, in the log and in the
      reply. */
  lemma UnobstructedIsConfirmed(cfg: Config, s: System, h: nat, r: Request)
    requires In(s, h) && s.handlers[h] == Verified(r) && IsFine(cfg, r) && r.idempotencyKey !in s.store.bindings
    ensures var key, receipt, t := r.idempotencyKey, OwnReceipt(cfg, r), Apply(cfg, s, Accept(h, true));
      && t.handlers[h] == Stored(r, receipt)
      && t.store.bindings == s.store.bindings[key := Binding(key, r.bodySha256)]
      && t.store.receipts == s.store.receipts[receipt.receiptId := receipt]
      && t.store.byDelivery == s.store.byDelivery[receipt.deliveryId := receipt.receiptId]
      && t.store.log == (if cfg.logging then s.store.log + [receipt] else s.store.log)
      && t.store.nonces == s.store.nonces && t.clock == s.clock && t.store.dropNext == s.store.dropNext
  {
  }

  /** The same request again, before its nonce expires, is refused. */
  lemma ReplayIsRefused(cfg: Config, s: System, h: nat, r: Request)
    requires !In(s, h) && (r.keyId, r.nonce) in s.store.nonces && s.store.nonces[(r.keyId, r.nonce)] >= s.clock
    ensures var t := After(cfg, s, Way(h, r)); In(t, h) && t.handlers[h] == Done(r, Unauthorized)
  {
    AfterFour(cfg, s, Arrive(h, r), Check(h), ReadClock(h), TryClaim(h));
  }

  /** Arming drops the next reply, and the clock goes to any later time, never back. */
  lemma ArmingAndTime(cfg: Config, s: System, h: nat, r: Request, receipt: Receipt, time: int)
    requires In(s, h) && s.handlers[h] == Stored(r, receipt)
    ensures var t := After(cfg, s, [ArmDrop, Respond(h)]);
      In(t, h) && t.handlers[h] == Done(r, Dropped) && !t.store.dropNext
    ensures Apply(cfg, s, Tick(time)) == s.(clock := if time > s.clock then time else s.clock)
  {
    AfterOne(cfg, s, [ArmDrop], Respond(h));
    AfterOne(cfg, s, [], ArmDrop);
    assert [] + [ArmDrop] == [ArmDrop] && [ArmDrop] + [Respond(h)] == [ArmDrop, Respond(h)];
  }
}
