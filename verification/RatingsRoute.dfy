/** Submitting a rating: message, signature, one-time nonce, one rating per wallet and product
    (`POST` in frontend/app/api/ratings/route.ts over frontend/lib/api/ratingsProtocol.ts).

    Consumed nonces are forgotten after ten minutes and rated products after a year. `Outcome`
    below is decided from logs that forget nothing, and the code agrees with it in every run. */
module RatingsRoute {
  import opened Options
  import opened KeyValue
  import opened RatingMessage

  /** What the store remembers: consumed nonces, and products a wallet has rated. */
  datatype Kind = Nonce | Product

  function TtlSeconds(kind: Kind): nat {
    match kind
    case Nonce => 600
    case Product => 365 * 24 * 3600
  }

  datatype Acceptance = Acceptance(wallet: string, message: string, productId: string, stars: int, at: int)

  function NonceOf(message: string): string {
    var parts := Split(message);
    if |parts| > 4 then parts[4] else ""
  }

  function IdOf(kind: Kind, a: Acceptance): string {
    match kind
    case Nonce => NonceOf(a.message)
    case Product => a.productId
  }

  predicate Passes(a: Acceptance) {
    ParseAndValidate(a.message, a.productId, a.stars, a.at) == Passed
  }

  /** When the wallet last used the identifier. */
  function LastUse(kind: Kind, log: seq<Acceptance>, wallet: string, id: string): Option<int> {
    if log == [] then None
    else
      var a := log[|log| - 1];
      if a.wallet == wallet && IdOf(kind, a) == id then Some(a.at)
      else LastUse(kind, log[..|log| - 1], wallet, id)
  }

  /** Its last use was less than `retentionMs` ago. */
  predicate Held(
    backend: Backend, retentionMs: int, kind: Kind, log: seq<Acceptance>, wallet: string, id: string, now: int)
  {
    var last := LastUse(kind, log, wallet, id);
    last.Some? && Readable(backend, Entry((), last.value + retentionMs), now)
  }

  predicate Before(log: seq<Acceptance>, now: int) {
    forall i :: 0 <= i < |log| ==> log[i].at <= now
  }

  /** The logs of consumed nonces, or of stored ratings, that a run can produce when they are
      remembered for `retentionMs`. */
  predicate Produced(backend: Backend, retentionMs: int, kind: Kind, log: seq<Acceptance>) {
    log == [] ||
    var past, a := log[..|log| - 1], log[|log| - 1];
    && Produced(backend, retentionMs, kind, past)
    && Before(past, a.at)
    && Passes(a)
    && !Held(backend, retentionMs, kind, past, a.wallet, IdOf(kind, a), a.at)
  }

  datatype Outcome = InvalidMessage(reason: Reason) | InvalidSignature | NonceUsed | AlreadyRated | Stored

  /** Decided from all acceptances and all stored ratings there ever were. */
  function Decide(
    backend: Backend, accepted: seq<Acceptance>, rated: seq<Acceptance>, request: Acceptance, signatureValid: bool)
    : Outcome
  {
    var validation := ParseAndValidate(request.message, request.productId, request.stars, request.at);
    if validation.Rejected? then InvalidMessage(validation.reason)
    else if !signatureValid then InvalidSignature
    else Redeemed(backend, accepted, rated, request)
  }

  function Redeemed(backend: Backend, accepted: seq<Acceptance>, rated: seq<Acceptance>, request: Acceptance): (o: Outcome)
    ensures o in {NonceUsed, AlreadyRated, Stored}
  {
    if Held(backend, 1000 * TtlSeconds(Nonce), Nonce, accepted, request.wallet, NonceOf(request.message), request.at)
    then NonceUsed
    else if Held(backend, 1000 * TtlSeconds(Product), Product, rated, request.wallet, request.productId, request.at)
    then AlreadyRated
    else Stored
  }

  lemma LastUseAppend(kind: Kind, log: seq<Acceptance>, a: Acceptance, wallet: string, id: string)
    ensures LastUse(kind, log + [a], wallet, id)
         == if a.wallet == wallet && IdOf(kind, a) == id then Some(a.at) else LastUse(kind, log, wallet, id)
  {
    assert (log + [a])[..|log|] == log;
  }

  // ── The code ──────────────────────────────────────────────────────────────────────────────

  function Key(kind: Kind, wallet: string, id: string): string {
    (match kind
     case Nonce => "nonce:rate:"
     case Product => "rating:dup:") + (wallet + ":" + id)
  }

  lemma EarlierColon(w: string, n: string, w': string, n': string)
    requires w + ":" + n == w' + ":" + n' && |w| < |w'|
    ensures !ColonFree(n)
  {
    assert n[|w'| - |w| - 1] == (w + ":" + n)[|w'|] == (w' + ":" + n')[|w'|] == ':';
  }

  /** The last colon separates wallet and identifier, so keys of colon-free identifiers are apart. */
  lemma LastColonSplits(w: string, n: string, w': string, n': string)
    requires ColonFree(n) && ColonFree(n') && w + ":" + n == w' + ":" + n'
    ensures w == w' && n == n'
  {
    if |w| < |w'| {
      EarlierColon(w, n, w', n');
      assert false;
    } else if |w'| < |w| {
      EarlierColon(w', n', w, n);
      assert false;
    }
    var s := w + ":" + n;
    assert w == s[..|w|] == w' && n == s[|w| + 1..] == n';
  }

  lemma KeyInjective(kind: Kind, w: string, n: string, kind': Kind, w': string, n': string)
    requires ColonFree(n) && ColonFree(n') && Key(kind, w, n) == Key(kind', w', n')
    ensures kind == kind' && w == w' && n == n'
  {
    var key := Key(kind, w, n);
    assert key[0] == if kind == Nonce then 'n' else 'r';
    assert key[0] == if kind' == Nonce then 'n' else 'r';
    assert key[11..] == w + ":" + n && key[11..] == w' + ":" + n';
    LastColonSplits(w, n, w', n');
  }

  lemma PassedParts(a: Acceptance, kind: Kind)
    requires Passes(a)
    ensures ColonFree(IdOf(kind, a))
  {
    JoinOfSplit(a.message);
  }

  // What the store remembers of any uses at all, in terms of its keys.

  /** A nonce consumed, or a product rated. */
  datatype Use = Use(wallet: string, id: string, at: int)

  /** When the key was last written. */
  function LastWrite(kind: Kind, uses: seq<Use>, key: string): Option<int> {
    if uses == [] then None
    else
      var u := uses[|uses| - 1];
      if Key(kind, u.wallet, u.id) == key then Some(u.at) else LastWrite(kind, uses[..|uses| - 1], key)
  }

  /** Its last write was less than its lifetime ago. */
  predicate Remembered(backend: Backend, kind: Kind, uses: seq<Use>, wallet: string, id: string, now: int) {
    var last := LastWrite(kind, uses, Key(kind, wallet, id));
    last.Some? && Readable(backend, Entry((), last.value + 1000 * TtlSeconds(kind)), now)
  }

  /** The store knows the last write of the key. */
  predicate Tracked(kv: Store<string>, kind: Kind, uses: seq<Use>, wallet: string, id: string) {
    var key := Key(kind, wallet, id);
    match LastWrite(kind, uses, key)
    case None => key !in kv
    case Some(at) => key in kv && kv[key].expiresAt == at + 1000 * TtlSeconds(kind)
  }

  ghost predicate AllTracked(kv: Store<string>, kind: Kind, uses: seq<Use>) {
    forall wallet, id :: Tracked(kv, kind, uses, wallet, id)
  }

  lemma Lookup(
    backend: Backend, kv: Store<string>, kind: Kind, uses: seq<Use>, wallet: string, id: string, now: int)
    requires AllTracked(kv, kind, uses)
    ensures Get(backend, kv, Key(kind, wallet, id), now).Some? <==> Remembered(backend, kind, uses, wallet, id, now)
  {
    assert Tracked(kv, kind, uses, wallet, id);
  }

  lemma LastWriteAppend(kind: Kind, uses: seq<Use>, u: Use, key: string)
    ensures LastWrite(kind, uses + [u], key)
         == if Key(kind, u.wallet, u.id) == key then Some(u.at) else LastWrite(kind, uses, key)
  {
    assert (uses + [u])[..|uses|] == uses;
  }

  lemma KindsApart(kind: Kind, w: string, n: string, other: Kind, w': string, n': string)
    requires kind != other
    ensures Key(kind, w, n) != Key(other, w', n')
  {
    assert Key(kind, w, n)[0] == if kind == Nonce then 'n' else 'r';
    assert Key(other, w', n')[0] == if other == Nonce then 'n' else 'r';
  }

  /** Writing one use records it and disturbs no other key of either kind. */
  lemma UseTracked(
    kv: Store<string>, kind: Kind, uses: seq<Use>, other: Kind, others: seq<Use>, u: Use)
    requires AllTracked(kv, kind, uses) && AllTracked(kv, other, others) && kind != other
    ensures var kv' := Put(kv, Key(kind, u.wallet, u.id), "1", TtlSeconds(kind), u.at);
            AllTracked(kv', kind, uses + [u]) && AllTracked(kv', other, others)
  {
    var kv' := Put(kv, Key(kind, u.wallet, u.id), "1", TtlSeconds(kind), u.at);
    forall wallet, id
      ensures Tracked(kv', kind, uses + [u], wallet, id)
    {
      assert Tracked(kv, kind, uses, wallet, id);
      LastWriteAppend(kind, uses, u, Key(kind, wallet, id));
    }
    forall wallet, id
      ensures Tracked(kv', other, others, wallet, id)
    {
      assert Tracked(kv, other, others, wallet, id);
      KindsApart(kind, u.wallet, u.id, other, wallet, id);
    }
  }

  // What it remembers of the requests that went through the whole route.

  function UseOf(kind: Kind, a: Acceptance): Use { Use(a.wallet, IdOf(kind, a), a.at) }

  function UsesOf(kind: Kind, log: seq<Acceptance>): seq<Use> {
    if log == [] then [] else UsesOf(kind, log[..|log| - 1]) + [UseOf(kind, log[|log| - 1])]
  }

  lemma UsesOfAppend(kind: Kind, log: seq<Acceptance>, a: Acceptance)
    ensures UsesOf(kind, log + [a]) == UsesOf(kind, log) + [UseOf(kind, a)]
  {
    assert (log + [a])[..|log|] == log;
  }

  /** Validated messages have no colons in their fields, so there the keys tell all apart, and to be
      remembered is to be held. */
  lemma {:induction false} LastWriteIsLastUse(
    backend: Backend, retentionMs: int, kind: Kind, log: seq<Acceptance>, wallet: string, id: string)
    requires Produced(backend, retentionMs, kind, log) && ColonFree(id)
    ensures LastWrite(kind, UsesOf(kind, log), Key(kind, wallet, id)) == LastUse(kind, log, wallet, id)
  {
    if log != [] {
      var past, a := log[..|log| - 1], log[|log| - 1];
      LastWriteIsLastUse(backend, retentionMs, kind, past, wallet, id);
      LastWriteAppend(kind, UsesOf(kind, past), UseOf(kind, a), Key(kind, wallet, id));
      PassedParts(a, kind);
      if Key(kind, a.wallet, IdOf(kind, a)) == Key(kind, wallet, id) {
        KeyInjective(kind, a.wallet, IdOf(kind, a), kind, wallet, id);
      }
    }
  }

  lemma ProducedGrows(
    backend: Backend, retentionMs: int, kind: Kind, log: seq<Acceptance>, a: Acceptance)
    requires Produced(backend, retentionMs, kind, log) && Before(log, a.at) && Passes(a)
    requires !Held(backend, retentionMs, kind, log, a.wallet, IdOf(kind, a), a.at)
    ensures Produced(backend, retentionMs, kind, log + [a])
  {
    assert (log + [a])[..|log|] == log;
  }

  /** The uses are those of whole requests, accepted as the log that forgets nothing demands. */
  ghost predicate Routed(backend: Backend, kind: Kind, uses: seq<Use>, log: seq<Acceptance>, clock: int) {
    uses == UsesOf(kind, log) && Produced(backend, 1000 * TtlSeconds(kind), kind, log) && Before(log, clock)
  }

  lemma RememberedIsHeld(
    backend: Backend, kind: Kind, uses: seq<Use>, log: seq<Acceptance>, clock: int, a: Acceptance)
    requires Routed(backend, kind, uses, log, clock) && clock <= a.at && Passes(a)
    ensures Routed(backend, kind, uses, log, a.at)
    ensures Remembered(backend, kind, uses, a.wallet, IdOf(kind, a), a.at)
       <==> Held(backend, 1000 * TtlSeconds(kind), kind, log, a.wallet, IdOf(kind, a), a.at)
  {
    PassedParts(a, kind);
    LastWriteIsLastUse(backend, 1000 * TtlSeconds(kind), kind, log, a.wallet, IdOf(kind, a));
  }

  lemma RoutedGrows(
    backend: Backend, kind: Kind, uses: seq<Use>, log: seq<Acceptance>, a: Acceptance)
    requires Routed(backend, kind, uses, log, a.at) && Passes(a)
    requires !Held(backend, 1000 * TtlSeconds(kind), kind, log, a.wallet, IdOf(kind, a), a.at)
    ensures Routed(backend, kind, uses + [UseOf(kind, a)], log + [a], a.at)
  {
    UsesOfAppend(kind, log, a);
    ProducedGrows(backend, 1000 * TtlSeconds(kind), kind, log, a);
  }

  class RatingsService {
    const backend: Backend
    var kv: Store<string>
    /** All uses there ever were, and the requests they came with as far as they came with one. */
    ghost var nonces: seq<Use>
    ghost var products: seq<Use>
    ghost var accepted: seq<Acceptance>
    ghost var rated: seq<Acceptance>
    ghost var clock: int

    ghost predicate Valid()
      reads this
    {
      AllTracked(kv, Nonce, nonces) && AllTracked(kv, Product, products)
    }

    /** The service has been used through `Submit` only. */
    ghost predicate RoutedOnly()
      reads this
    {
      && Routed(backend, Nonce, nonces, accepted, clock)
      && Routed(backend, Product, products, rated, clock)
    }

    constructor (backend: Backend, now: int)
      ensures Valid() && RoutedOnly() && this.backend == backend && clock == now && accepted == rated == []
    {
      this.backend := backend;
      kv, nonces, products, accepted, rated, clock := map[], [], [], [], [], now;
    }

    /** False means a replay. */
    method ConsumeNonce(wallet: string, nonce: string, now: int) returns (consumed: bool)
      requires Valid()
      modifies this`kv, this`nonces
      ensures Valid()
      ensures consumed == !Remembered(backend, Nonce, old(nonces), wallet, nonce, now)
      ensures nonces == if consumed then old(nonces) + [Use(wallet, nonce, now)] else old(nonces)
    {
      Lookup(backend, kv, Nonce, nonces, wallet, nonce, now);
      if Get(backend, kv, Key(Nonce, wallet, nonce), now).Some? {
        return false;
      }
      UseTracked(kv, Nonce, nonces, Product, products, Use(wallet, nonce, now));
      kv := Put(kv, Key(Nonce, wallet, nonce), "1", TtlSeconds(Nonce), now);
      nonces := nonces + [Use(wallet, nonce, now)];
      return true;
    }

    method HasDuplicateRating(wallet: string, productId: string, now: int) returns (duplicate: bool)
      requires Valid()
      ensures duplicate == Remembered(backend, Product, products, wallet, productId, now)
    {
      Lookup(backend, kv, Product, products, wallet, productId, now);
      duplicate := Get(backend, kv, Key(Product, wallet, productId), now).Some?;
    }

    /** Remembers the rating, for another whole lifetime if it was remembered already. */
    method RecordRating(wallet: string, productId: string, now: int)
      requires Valid()
      modifies this`kv, this`products
      ensures Valid() && products == old(products) + [Use(wallet, productId, now)]
    {
      UseTracked(kv, Product, products, Nonce, nonces, Use(wallet, productId, now));
      kv := Put(kv, Key(Product, wallet, productId), "1", TtlSeconds(Product), now);
      products := products + [Use(wallet, productId, now)];
    }

    /** One request, from validation to the stored rating. */
    method Submit(request: Acceptance, signatureValid: bool) returns (outcome: Outcome)
      requires Valid() && RoutedOnly() && clock <= request.at
      modifies this
      ensures Valid() && RoutedOnly() && clock == request.at
      ensures outcome == Decide(backend, old(accepted), old(rated), request, signatureValid)
      ensures accepted == if outcome == AlreadyRated || outcome == Stored then old(accepted) + [request] else old(accepted)
      ensures rated == if outcome == Stored then old(rated) + [request] else old(rated)
    {
      var validation := ParseAndValidate(request.message, request.productId, request.stars, request.at);
      if validation.Rejected? {
        clock := request.at;
        return InvalidMessage(validation.reason);
      }
      if !signatureValid {
        clock := request.at;
        return InvalidSignature;
      }
      outcome := Redeem(request);
    }

    /** What happens once message and signature are found valid. A nonce is consumed even if the
        rating then turns out to be a duplicate. */
    method Redeem(request: Acceptance) returns (outcome: Outcome)
      requires Valid() && RoutedOnly() && clock <= request.at && Passes(request)
      modifies this
      ensures Valid() && RoutedOnly() && clock == request.at
      ensures outcome == Redeemed(backend, old(accepted), old(rated), request)
      ensures accepted == if outcome == NonceUsed then old(accepted) else old(accepted) + [request]
      ensures rated == if outcome == Stored then old(rated) + [request] else old(rated)
    {
      RememberedIsHeld(backend, Product, products, rated, clock, request);
      var replayed := UseNonce(request);
      outcome := NonceUsed;
      if !replayed {
        var duplicate := RateOnce(request);
        outcome := if duplicate then AlreadyRated else Stored;
      }
    }

    method UseNonce(request: Acceptance) returns (replayed: bool)
      requires Valid() && Routed(backend, Nonce, nonces, accepted, clock) && clock <= request.at && Passes(request)
      modifies this`kv, this`nonces, this`accepted, this`clock
      ensures Valid() && Routed(backend, Nonce, nonces, accepted, clock) && clock == request.at
      ensures replayed == Held(backend, 1000 * TtlSeconds(Nonce), Nonce, old(accepted),
                               request.wallet, NonceOf(request.message), request.at)
      ensures accepted == if replayed then old(accepted) else old(accepted) + [request]
    {
      RememberedIsHeld(backend, Nonce, nonces, accepted, clock, request);
      clock := request.at;
      var consumed := ConsumeNonce(request.wallet, NonceOf(request.message), request.at);
      if consumed {
        RoutedGrows(backend, Nonce, old(nonces), accepted, request);
        accepted := accepted + [request];
      }
      return !consumed;
    }

    method RateOnce(request: Acceptance) returns (duplicate: bool)
      requires Valid() && Routed(backend, Product, products, rated, request.at) && Passes(request)
      modifies this`kv, this`products, this`rated
      ensures Valid() && Routed(backend, Product, products, rated, request.at)
      ensures duplicate == Held(backend, 1000 * TtlSeconds(Product), Product, old(rated),
                                request.wallet, request.productId, request.at)
      ensures rated == if duplicate then old(rated) else old(rated) + [request]
    {
      RememberedIsHeld(backend, Product, products, rated, request.at, request);
      duplicate := HasDuplicateRating(request.wallet, request.productId, request.at);
      if !duplicate {
        RecordRating(request.wallet, request.productId, request.at);
        RoutedGrows(backend, Product, old(products), rated, request);
        rated := rated + [request];
      }
    }
  }

  // ── No replay ─────────────────────────────────────────────────────────────────────────────

  predicate InOrder(log: seq<Acceptance>) {
    forall i, j :: 0 <= i < j < |log| ==> log[i].at <= log[j].at
  }

  lemma {:induction false} ProducedInOrder(backend: Backend, retentionMs: int, kind: Kind, log: seq<Acceptance>)
    requires Produced(backend, retentionMs, kind, log)
    ensures InOrder(log)
  {
    if log != [] {
      var past := log[..|log| - 1];
      ProducedInOrder(backend, retentionMs, kind, past);
      assert forall i :: 0 <= i < |past| ==> past[i] == log[i];
    }
  }

  lemma {:induction false} ProducedPasses(backend: Backend, retentionMs: int, kind: Kind, log: seq<Acceptance>, i: nat)
    requires Produced(backend, retentionMs, kind, log) && i < |log|
    ensures Passes(log[i])
  {
    if i < |log| - 1 { ProducedPasses(backend, retentionMs, kind, log[..|log| - 1], i); }
  }

  lemma {:induction false} LastUseCovers(kind: Kind, log: seq<Acceptance>, i: nat)
    requires i < |log| && InOrder(log)
    ensures var last := LastUse(kind, log, log[i].wallet, IdOf(kind, log[i])); last.Some? && log[i].at <= last.value
  {
    if i < |log| - 1 { LastUseCovers(kind, log[..|log| - 1], i); }
  }

  /** Whoever uses an identifier again does so only after the retention has run out. */
  lemma {:induction false} UsesApart(backend: Backend, retentionMs: int, kind: Kind, log: seq<Acceptance>, i: nat, j: nat)
    requires Produced(backend, retentionMs, kind, log) && i < j < |log|
    requires log[i].wallet == log[j].wallet && IdOf(kind, log[i]) == IdOf(kind, log[j])
    ensures !Readable(backend, Entry((), log[i].at + retentionMs), log[j].at)
    decreases |log|
  {
    var past := log[..|log| - 1];
    if j < |log| - 1 {
      UsesApart(backend, retentionMs, kind, past, i, j);
    } else {
      ProducedInOrder(backend, retentionMs, kind, past);
      LastUseCovers(kind, past, i);
    }
  }

  ghost predicate NoReplay(log: seq<Acceptance>) {
    forall i, j :: 0 <= i < j < |log| ==> log[i].wallet != log[j].wallet || log[i].message != log[j].message
  }

  /** One message passes, whatever product and stars it is sent with, only within the window that
      ends at its expiry. */
  lemma LifeOfMessage(a: Acceptance, b: Acceptance)
    requires Passes(a) && Passes(b) && a.message == b.message && a.at <= b.at
    ensures b.at - a.at < 300_000
  {
  }

  lemma RememberedNoReplay(backend: Backend, retentionMs: int, log: seq<Acceptance>)
    requires Readable(backend, Entry((), retentionMs), EXPIRY_WINDOW_MS - 1) && Produced(backend, retentionMs, Nonce, log)
    ensures NoReplay(log)
  {
    ProducedInOrder(backend, retentionMs, Nonce, log);
    forall i, j | 0 <= i < j < |log|
      ensures log[i].wallet != log[j].wallet || log[i].message != log[j].message
    {
      if log[i].wallet == log[j].wallet && log[i].message == log[j].message {
        UsesApart(backend, retentionMs, Nonce, log, i, j);
        ProducedPasses(backend, retentionMs, Nonce, log, i);
        ProducedPasses(backend, retentionMs, Nonce, log, j);
        LifeOfMessage(log[i], log[j]);
        assert false;
      }
    }
  }

  /** Someone who signs for product `p` at `at`, for as long as a message may live. */
  function Signed(nonce: string, at: int): Acceptance {
    Acceptance("w", Build(RatingSigningPayload("p", 5, nonce, at + EXPIRY_WINDOW_MS)), "p", 5, at)
  }

  lemma SignedPasses(nonce: string, at: int, later: int)
    requires ColonFree(nonce) && at <= later < at + EXPIRY_WINDOW_MS
    ensures Passes(Signed(nonce, at).(at := later)) && NonceOf(Signed(nonce, at).message) == nonce
  {
    var p := RatingSigningPayload("p", 5, nonce, at + EXPIRY_WINDOW_MS);
    assert ColonFree(p.productId);
    RoundTrip(p, later);
    BuildIsSpelled(p);
    SplitSpelled(p.productId, IntToString(p.stars), p.nonce, IntToString(p.expiresAt));
  }

  /** A log of two uses, the second after the first has been forgotten. */
  lemma TwoUses(backend: Backend, retentionMs: int, kind: Kind, a: Acceptance, b: Acceptance)
    requires Passes(a) && Passes(b) && a.at <= b.at && !Readable(backend, Entry((), a.at + retentionMs), b.at)
    ensures Produced(backend, retentionMs, kind, [a, b])
  {
    ProducedGrows(backend, retentionMs, kind, [], a);
    LastUseAppend(kind, [], a, b.wallet, IdOf(kind, b));
    assert [] + [a] == [a] && [a] + [b] == [a, b];
    ProducedGrows(backend, retentionMs, kind, [a], b);
  }

  lemma ReplayWhenForgotten(backend: Backend, retentionMs: int) returns (log: seq<Acceptance>)
    requires !Readable(backend, Entry((), retentionMs), EXPIRY_WINDOW_MS - 1)
    ensures Produced(backend, retentionMs, Nonce, log) && !NoReplay(log)
  {
    var first := Signed("n", 0);
    var again := first.(at := EXPIRY_WINDOW_MS - 1);
    SignedPasses("n", 0, 0);
    SignedPasses("n", 0, EXPIRY_WINDOW_MS - 1);
    TwoUses(backend, retentionMs, Nonce, first, again);
    log := [first, again];
    assert log[0].wallet == log[1].wallet && log[0].message == log[1].message;
  }

  /** Over every run, no wallet gets the same message accepted twice, if and only if a nonce is
      still remembered at the last moment at which the message it came with can pass again. */
  lemma NoReplayIffRemembered(backend: Backend, retentionMs: int)
    ensures (forall log: seq<Acceptance> :: Produced(backend, retentionMs, Nonce, log) ==> NoReplay(log))
       <==> Readable(backend, Entry((), retentionMs), 299_999)
  {
    if Readable(backend, Entry((), retentionMs), EXPIRY_WINDOW_MS - 1) {
      forall log: seq<Acceptance> | Produced(backend, retentionMs, Nonce, log)
        ensures NoReplay(log)
      {
        RememberedNoReplay(backend, retentionMs, log);
      }
    } else {
      var log := ReplayWhenForgotten(backend, retentionMs);
      assert Produced(backend, retentionMs, Nonce, log) && !NoReplay(log);
    }
  }

  /** The shipped retention is enough: no replay, consecutive uses of one nonce are ten minutes
      apart, and ratings of one product by one wallet are a year apart. The design allows one
      rating per wallet and product; the code allows one a year. */
  lemma ShippedRetention(backend: Backend, kind: Kind, log: seq<Acceptance>)
    requires Produced(backend, 1000 * TtlSeconds(kind), kind, log)
    ensures kind == Nonce ==> NoReplay(log)
    ensures forall i, j :: 0 <= i < j < |log| && log[i].wallet == log[j].wallet
                           && IdOf(kind, log[i]) == IdOf(kind, log[j]) ==>
              log[j].at - log[i].at >= if kind == Nonce then 600_000 else 31_536_000_000
  {
    if kind == Nonce { RememberedNoReplay(backend, 1000 * TtlSeconds(Nonce), log); }
    forall i, j | 0 <= i < j < |log| && log[i].wallet == log[j].wallet && IdOf(kind, log[i]) == IdOf(kind, log[j])
      ensures log[j].at - log[i].at >= if kind == Nonce then 600_000 else 31_536_000_000
    {
      UsesApart(backend, 1000 * TtlSeconds(kind), kind, log, i, j);
    }
  }

  // ── One rating per wallet and product ─────────────────────────────────────────────────────

  /** The wallet uses the identifier at `i` and next at `j`, `distance` later. */
  predicate UsedAgain(kind: Kind, log: seq<Acceptance>, i: nat, j: nat, distance: int) {
    && i < j < |log| && log[j].at - log[i].at == distance
    && log[i].wallet == log[j].wallet && IdOf(kind, log[i]) == IdOf(kind, log[j])
    && forall k :: i < k < j ==> log[k].wallet != log[i].wallet || IdOf(kind, log[k]) != IdOf(kind, log[i])
  }

  lemma DecideWhenPassed(
    backend: Backend, accepted: seq<Acceptance>, rated: seq<Acceptance>, request: Acceptance)
    requires Passes(request)
    ensures Decide(backend, accepted, rated, request, true) == Redeemed(backend, accepted, rated, request)
  {
  }

  lemma HeldAfterOne(backend: Backend, kind: Kind, a: Acceptance, id: string, now: int)
    ensures Held(backend, 1000 * TtlSeconds(kind), kind, [a], a.wallet, id, now)
       <==> IdOf(kind, a) == id && Readable(backend, Entry((), a.at + 1000 * TtlSeconds(kind)), now)
  {
    LastUseAppend(kind, [], a, a.wallet, id);
    assert [] + [a] == [a];
  }

  /** The design allows one rating per wallet and product. The code accepts a second one, and stores
      it, at every distance after which the first is forgotten. */
  lemma SecondRatingStored(backend: Backend, distance: nat) returns (first: Acceptance, second: Acceptance)
    requires !Readable(backend, Entry((), 1000 * TtlSeconds(Product)), distance)
    ensures Decide(backend, [], [], first, true) == Stored
    ensures Decide(backend, [first], [first], second, true) == Stored
    ensures Produced(backend, 1000 * TtlSeconds(Product), Product, [first, second])
    ensures UsedAgain(Product, [first, second], 0, 1, distance)
  {
    first, second := Signed("n", 0), Signed("m", distance);
    SignedPasses("n", 0, 0);
    SignedPasses("m", distance, distance);
    HeldAfterOne(backend, Nonce, first, "m", distance);
    HeldAfterOne(backend, Product, first, "p", distance);
    DecideWhenPassed(backend, [], [], first);
    DecideWhenPassed(backend, [first], [first], second);
    TwoUses(backend, 1000 * TtlSeconds(Product), Product, first, second);
  }

  /** Over every run, a wallet's next rating of a product can come at exactly those distances at
      which the one before, remembered for a year, is forgotten. */
  lemma RatedAgainIffForgotten(backend: Backend, distance: nat)
    ensures (exists log, i, j :: Produced(backend, 1000 * TtlSeconds(Product), Product, log)
                                 && UsedAgain(Product, log, i, j, distance))
       <==> distance > 31_536_000_000 || (backend == Exclusive && distance == 31_536_000_000)
  {
    if log, i, j :| Produced(backend, 1000 * TtlSeconds(Product), Product, log) && UsedAgain(Product, log, i, j, distance) {
      UsesApart(backend, 1000 * TtlSeconds(Product), Product, log, i, j);
    }
    if !Readable(backend, Entry((), 1000 * TtlSeconds(Product)), distance) {
      var first, second := SecondRatingStored(backend, distance);
      assert UsedAgain(Product, [first, second], 0, 1, distance);
    }
  }

  // ── Every answer, from the fields of the message and the logs ─────────────────────────────

  /** Used less than its lifetime ago: ten minutes for a nonce, a year for a rated product. */
  ghost predicate UsedWithin(backend: Backend, kind: Kind, log: seq<Acceptance>, wallet: string, id: string, now: int) {
    var lifetime := if kind == Nonce then 600_000 else 31_536_000_000;
    exists i :: 0 <= i < |log| && log[i].wallet == wallet && IdOf(kind, log[i]) == id
      && (now < log[i].at + lifetime || (backend == Inclusive && now == log[i].at + lifetime))
  }

  lemma {:induction false} LastUseIndex(kind: Kind, log: seq<Acceptance>, wallet: string, id: string) returns (i: nat)
    requires LastUse(kind, log, wallet, id).Some?
    ensures i < |log| && log[i].wallet == wallet && IdOf(kind, log[i]) == id
    ensures LastUse(kind, log, wallet, id) == Some(log[i].at)
  {
    var a := log[|log| - 1];
    if a.wallet == wallet && IdOf(kind, a) == id {
      i := |log| - 1;
    } else {
      i := LastUseIndex(kind, log[..|log| - 1], wallet, id);
    }
  }

  lemma HeldIff(backend: Backend, kind: Kind, log: seq<Acceptance>, wallet: string, id: string, now: int)
    requires Produced(backend, 1000 * TtlSeconds(kind), kind, log)
    ensures Held(backend, 1000 * TtlSeconds(kind), kind, log, wallet, id, now)
       <==> UsedWithin(backend, kind, log, wallet, id, now)
  {
    ProducedInOrder(backend, 1000 * TtlSeconds(kind), kind, log);
    if LastUse(kind, log, wallet, id).Some? {
      var i := LastUseIndex(kind, log, wallet, id);
    }
    var lifetime := if kind == Nonce then 600_000 else 31_536_000_000;
    if i :| 0 <= i < |log| && log[i].wallet == wallet && IdOf(kind, log[i]) == id
            && (now < log[i].at + lifetime || (backend == Inclusive && now == log[i].at + lifetime)) {
      LastUseCovers(kind, log, i);
    }
  }

  /** A message without the six fields is refused for its format. */
  lemma UnreadableRefused(
    backend: Backend, accepted: seq<Acceptance>, rated: seq<Acceptance>, request: Acceptance, signatureValid: bool)
    ensures Decide(backend, accepted, rated, request, signatureValid) == InvalidMessage(InvalidFormat)
       <==> !exists p, s, n, e :: HasFields(request.message, p, s, n, e)
  {
    FormatRefusedIff(request.message, request.productId, request.stars, request.at);
  }

  /** One with them is answered for its first fault: product, stars, expiry, signature, nonce, product
      already rated. */
  lemma AnsweredFor(
    backend: Backend, accepted: seq<Acceptance>, rated: seq<Acceptance>, request: Acceptance, signatureValid: bool,
    p: string, s: string, n: string, e: string)
    requires HasFields(request.message, p, s, n, e)
    requires Produced(backend, 1000 * TtlSeconds(Nonce), Nonce, accepted)
    requires Produced(backend, 1000 * TtlSeconds(Product), Product, rated)
    ensures var outcome := Decide(backend, accepted, rated, request, signatureValid);
            var ours, now := p == request.productId && ParseInt(s) == Some(request.stars), request.at;
            var timely := ours && ParseInt(e).Some? && now < ParseInt(e).value <= now + 300_000;
            var used := UsedWithin(backend, Nonce, accepted, request.wallet, n, now);
            var repeated := UsedWithin(backend, Product, rated, request.wallet, p, now);
            && (outcome == InvalidMessage(ProductIdMismatch) <==> p != request.productId)
            && (outcome == InvalidMessage(StarsMismatch) <==>
                  p == request.productId && ParseInt(s) != Some(request.stars))
            && (outcome == InvalidMessage(InvalidExpiry) <==> ours && ParseInt(e) == None)
            && (outcome == InvalidMessage(Expired) <==> ours && ParseInt(e).Some? && ParseInt(e).value <= now)
            && (outcome == InvalidMessage(ExpiryTooFar) <==>
                  ours && ParseInt(e).Some? && ParseInt(e).value > now + 300_000)
            && (outcome == InvalidSignature <==> timely && !signatureValid)
            && (outcome == NonceUsed <==> timely && signatureValid && used)
            && (outcome == AlreadyRated <==> timely && signatureValid && !used && repeated)
            && (outcome == Stored <==> timely && signatureValid && !used && !repeated)
  {
    ReasonIff(request.message, p, s, n, e, request.productId, request.stars, request.at);
    SplitFields(request.message, p, s, n, e);
    HeldIff(backend, Nonce, accepted, request.wallet, n, request.at);
    HeldIff(backend, Product, rated, request.wallet, request.productId, request.at);
  }
}
