/** The callback receiver's state. */
module Callback {
  // Nonce claims, idempotent receipts and read-back
  // (scripts/fake_platform_callback_server.py:42-124, with the binding decision of
  // backend/app/core/callback_signature.py:388-425).

  import opened Text

  /** A key and the digest of the first body accepted under it. */
  datatype Binding = Binding(idempotencyKey: string, bodySha256: string)

  datatype Outcome = New | ReplayAllowed | Conflict

  /** The parts of a receipt that replies, lookups and the log depend on. */
  datatype Receipt = Receipt(
    idempotencyKey: string, receiptId: string, deliveryId: string, requestSha256: string, remoteTraceId: string)

  /** A key id and a nonce. */
  type NonceKey = (string, string)

  /** The fields of `CallbackState`, as a value. */
  datatype Store = Store(
    nonces: map<NonceKey, int>,
    bindings: map<string, Binding>,
    receipts: map<string, Receipt>,
    byDelivery: map<string, string>,
    log: seq<Receipt>,
    dropNext: bool)

  const EMPTY := Store(map[], map[], map[], map[], [], false)

  /** `decide_callback_idempotency`. */
  function Decide(existing: Option<Binding>, candidate: Binding): Outcome {
    if existing.None? || existing.value.idempotencyKey != candidate.idempotencyKey then New
    else if existing.value.bodySha256 == candidate.bodySha256 then ReplayAllowed
    else Conflict
  }

  function Unexpired(nonces: map<NonceKey, int>, now: int): map<NonceKey, int> {
    map k | k in nonces && nonces[k] >= now :: nonces[k]
  }

  /** The effect of `claim` on the store, and its result. */
  function Claimed(s: Store, now: int, nonce: NonceKey, expiresAt: int): (Store, bool) {
    var live := Unexpired(s.nonces, now);
    if nonce in live then (s.(nonces := live), false)
    else (s.(nonces := live[nonce := expiresAt]), true)
  }

  /** What `accept_idempotent_receipt` returns. A missing receipt is a KeyError, a
      failed write of the log an OSError. */
  datatype Acceptance = Accepted(outcome: Outcome, receipt: Receipt) | MissingReceipt | LogFailed

  /** The effect of `accept_idempotent_receipt` on the store, and its result. The log
      is written last: when that fails, the rest has already changed. */
  function Received(s: Store, key: string, bodySha256: string, receipt: Receipt, logging: bool,
      writable: bool): (Store, Acceptance)
  {
    var candidate := Binding(key, bodySha256);
    match Decide(Lookup(s.bindings, key), candidate)
    case Conflict => (s, Accepted(Conflict, receipt))
    case ReplayAllowed =>
      if receipt.receiptId in s.receipts then (s, Accepted(ReplayAllowed, s.receipts[receipt.receiptId]))
      else (s, MissingReceipt)
    case New =>
      (s.(bindings := s.bindings[key := candidate],
          receipts := s.receipts[receipt.receiptId := receipt],
          byDelivery := s.byDelivery[receipt.deliveryId := receipt.receiptId],
          log := if logging && writable then s.log + [receipt] else s.log),
       if logging && !writable then LogFailed else Accepted(New, receipt))
  }

  /** `receipt_for_delivery`; an empty receipt id counts as none. */
  function ForDelivery(s: Store, deliveryId: string): Option<Receipt> {
    if deliveryId in s.byDelivery && s.byDelivery[deliveryId] != "" then Lookup(s.receipts, s.byDelivery[deliveryId])
    else None
  }

  /** The object that the handler threads share. Each method is one critical
      section of its lock. */
  class CallbackState {
    const logging: bool
    var nonceExpirations: map<NonceKey, int>
    var idempotency: map<string, Binding>
    var receipts: map<string, Receipt>
    var receiptsByDelivery: map<string, string>
    var receiptLog: seq<Receipt>
    var dropNextResponse: bool

    ghost function View(): Store
      reads this
    {
      Store(nonceExpirations, idempotency, receipts, receiptsByDelivery, receiptLog, dropNextResponse)
    }

    constructor (logging: bool)
      ensures View() == EMPTY && this.logging == logging
    {
      this.logging := logging;
      nonceExpirations, idempotency, receipts, receiptsByDelivery := map[], map[], map[], map[];
      receiptLog, dropNextResponse := [], false;
    }

    /** `claim`: purge what has expired, then claim the nonce if it is free. */
    method Claim(now: int, keyId: string, nonce: string, expiresAt: int) returns (claimed: bool)
      modifies this`nonceExpirations
      ensures (View(), claimed) == Claimed(old(View()), now, (keyId, nonce), expiresAt)
    {
      ghost var before := nonceExpirations;
      var expired := set k | k in nonceExpirations && nonceExpirations[k] < now;
      ghost var gone: set<NonceKey> := {};
      while expired != {}
        invariant gone + expired == set k | k in before && before[k] < now
        invariant gone !! expired
        invariant nonceExpirations == before - gone
        decreases expired
      {
        var k :| k in expired;
        nonceExpirations := nonceExpirations - {k};
        expired, gone := expired - {k}, gone + {k};
      }
      assert nonceExpirations == Unexpired(before, now);
      if (keyId, nonce) in nonceExpirations {
        return false;
      }
      nonceExpirations := nonceExpirations[(keyId, nonce) := expiresAt];
      return true;
    }

    /** `accept_idempotent_receipt`; `writable` says whether the log can be written. */
    method AcceptIdempotentReceipt(key: string, bodySha256: string, receipt: Receipt, writable: bool)
      returns (r: Acceptance)
      modifies this`idempotency, this`receipts, this`receiptsByDelivery, this`receiptLog
      ensures (View(), r) == Received(old(View()), key, bodySha256, receipt, logging, writable)
    {
      var candidate := Binding(key, bodySha256);
      var outcome := Decide(Lookup(idempotency, key), candidate);
      if outcome == Conflict {
        return Accepted(outcome, receipt);
      }
      if outcome == ReplayAllowed {
        if receipt.receiptId !in receipts {
          return MissingReceipt;
        }
        return Accepted(outcome, receipts[receipt.receiptId]);
      }
      idempotency := idempotency[key := candidate];
      receipts := receipts[receipt.receiptId := receipt];
      receiptsByDelivery := receiptsByDelivery[receipt.deliveryId := receipt.receiptId];
      if logging {
        if !writable {
          return LogFailed;
        }
        receiptLog := receiptLog + [receipt];
      }
      return Accepted(outcome, receipt);
    }

    /** `receipt_for_delivery`. */
    method ReceiptForDelivery(deliveryId: string) returns (r: Option<Receipt>)
      ensures r == ForDelivery(View(), deliveryId)
    {
      if deliveryId !in receiptsByDelivery || receiptsByDelivery[deliveryId] == "" {
        return None;
      }
      return Lookup(receipts, receiptsByDelivery[deliveryId]);
    }

    /** The critical section before a reply: take and clear the drop flag. */
    method TakeDropFlag() returns (drop: bool)
      modifies this`dropNextResponse
      ensures drop == old(View()).dropNext && View() == old(View()).(dropNext := false)
    {
      drop := dropNextResponse;
      dropNextResponse := false;
    }
  }

  /** After a failed write of the log, a retry of the same body is confirmed, and the
      key still has no line in the log. */
  lemma RetryAfterFailedWrite(s: Store, key: string, bodySha256: string, receipt: Receipt, writable: bool)
    requires key !in s.bindings
    ensures var (t, failed) := Received(s, key, bodySha256, receipt, true, false);
      && failed == LogFailed && t.log == s.log
      && Received(t, key, bodySha256, receipt, true, writable) == (t, Accepted(ReplayAllowed, receipt))
  {
  }
}
