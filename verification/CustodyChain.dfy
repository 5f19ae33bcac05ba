/** The custody hash chain: the server's ledger pages
    (frontend/app/api/v1/events/signature-ledger/route.ts) and the client's check of them
    (`validateChain` in frontend/components/products/CustodyAuditViewer.tsx).

    `hash` stands for SHA-256 in hexadecimal. Nothing is assumed of it but, where needed, that its
    results are 64 characters long: results say "these agree, or here is a collision". */
module CustodyChain {
  type Hash = string -> string

  datatype CustodyEntry = CustodyEntry(eventIndex: nat, eventHash: string, prevHash: string, chainAnchor: string)

  const GENESIS: string := seq(64, _ => '0')

  /** The value the anchor of entry `i` is chained to. Only the first entry's own field is used. */
  function PrevOf(entries: seq<CustodyEntry>, i: nat): string
    requires i < |entries|
  {
    if i == 0 then entries[0].prevHash else entries[i - 1].chainAnchor
  }

  /** What the anchor of entry `i` should be the hash of. */
  function LinkInput(entries: seq<CustodyEntry>, i: nat): string
    requires i < |entries|
  {
    entries[i].eventHash + PrevOf(entries, i)
  }

  predicate Linked(hash: Hash, entries: seq<CustodyEntry>, i: nat)
    requires i < |entries|
  {
    entries[i].chainAnchor == hash(LinkInput(entries, i))
  }

  predicate Accepted(hash: Hash, entries: seq<CustodyEntry>) {
    forall i :: 0 <= i < |entries| ==> Linked(hash, entries, i)
  }

  /** Said of every entry: its anchor is the hash of its event hash and the anchor before it. */
  lemma AcceptedIff(hash: Hash, entries: seq<CustodyEntry>)
    ensures Accepted(hash, entries) <==>
              forall i :: 0 <= i < |entries| ==>
                entries[i].chainAnchor ==
                  hash(entries[i].eventHash + if i == 0 then entries[0].prevHash else entries[i - 1].chainAnchor)
  {
    if forall i :: 0 <= i < |entries| ==>
         entries[i].chainAnchor ==
           hash(entries[i].eventHash + if i == 0 then entries[0].prevHash else entries[i - 1].chainAnchor)
    {
      forall i | 0 <= i < |entries|
        ensures Linked(hash, entries, i)
      {
        assert entries[i].chainAnchor ==
                 hash(entries[i].eventHash + if i == 0 then entries[0].prevHash else entries[i - 1].chainAnchor);
      }
    }
    if Accepted(hash, entries) {
      forall i | 0 <= i < |entries|
        ensures entries[i].chainAnchor ==
                  hash(entries[i].eventHash + if i == 0 then entries[0].prevHash else entries[i - 1].chainAnchor)
      {
        assert Linked(hash, entries, i);
      }
    }
  }

  method ValidateChain(hash: Hash, entries: seq<CustodyEntry>) returns (brokenAt: int)
    ensures brokenAt == -1 <==> Accepted(hash, entries)
    ensures brokenAt != -1 ==>
              && 0 <= brokenAt < |entries| && !Linked(hash, entries, brokenAt)
              && forall i :: 0 <= i < brokenAt ==> Linked(hash, entries, i)
  {
    var prevHash := if |entries| > 0 then entries[0].prevHash else GENESIS;
    for i := 0 to |entries|
      invariant i < |entries| ==> prevHash == PrevOf(entries, i)
      invariant forall k :: 0 <= k < i ==> Linked(hash, entries, k)
    {
      var e := entries[i];
      var expectedAnchor := hash(e.eventHash + prevHash);
      if expectedAnchor != e.chainAnchor {
        assert !Linked(hash, entries, i);
        return i;
      }
      prevHash := e.chainAnchor;
    }
    return -1;
  }

  // ── What the check alone accepts ──────────────────────────────────────────────────────────

  /** The chain recomputed over any event hashes, from any starting value. */
  function Rechain(hash: Hash, first: string, eventHashes: seq<string>): seq<CustodyEntry> {
    if eventHashes == [] then []
    else
      var n := |eventHashes| - 1;
      var front := Rechain(hash, first, eventHashes[..n]);
      var prevHash := if front == [] then first else front[|front| - 1].chainAnchor;
      front + [CustodyEntry(n, eventHashes[n], prevHash, hash(eventHashes[n] + prevHash))]
  }

  /** Whatever is altered, a chain recomputed over it passes. */
  lemma {:induction false} RechainAccepted(hash: Hash, first: string, eventHashes: seq<string>)
    ensures var chain := Rechain(hash, first, eventHashes);
            && |chain| == |eventHashes| && Accepted(hash, chain)
            && (chain != [] ==> chain[0].prevHash == first)
            && forall i :: 0 <= i < |chain| ==> chain[i].eventHash == eventHashes[i]
  {
    if eventHashes != [] {
      var n := |eventHashes| - 1;
      var front, chain := Rechain(hash, first, eventHashes[..n]), Rechain(hash, first, eventHashes);
      RechainAccepted(hash, first, eventHashes[..n]);
      forall i | 0 <= i < |chain|
        ensures Linked(hash, chain, i)
      {
        if i < n { assert Linked(hash, front, i); }
      }
    }
  }

  function EventHashes(entries: seq<CustodyEntry>): seq<string> {
    seq(|entries|, i requires 0 <= i < |entries| => entries[i].eventHash)
  }

  /** And nothing else passes: the check accepts exactly the chains whose anchors are those of the
      chain recomputed from their own first value over their own event hashes. */
  lemma AcceptedIffRechained(hash: Hash, entries: seq<CustodyEntry>)
    requires entries != []
    ensures var chain := Rechain(hash, entries[0].prevHash, EventHashes(entries));
            && |chain| == |entries|
            && (Accepted(hash, entries) <==>
                  forall i :: 0 <= i < |entries| ==> entries[i].chainAnchor == chain[i].chainAnchor)
  {
    var chain := Rechain(hash, entries[0].prevHash, EventHashes(entries));
    RechainAccepted(hash, entries[0].prevHash, EventHashes(entries));
    if Accepted(hash, entries) {
      for i := 0 to |entries|
        invariant forall k :: 0 <= k < i ==> entries[k].chainAnchor == chain[k].chainAnchor
      {
        assert Linked(hash, entries, i) && Linked(hash, chain, i);
      }
    }
    if forall i :: 0 <= i < |entries| ==> entries[i].chainAnchor == chain[i].chainAnchor {
      forall i | 0 <= i < |entries|
        ensures Linked(hash, entries, i)
      {
        assert Linked(hash, chain, i);
      }
    }
  }

  // ── Tamper evidence ───────────────────────────────────────────────────────────────────────

  /** The `d`-th entries from the end have the same event and the same anchor. */
  predicate SameFromEnd(a: seq<CustodyEntry>, b: seq<CustodyEntry>, d: nat)
    requires 1 <= d <= |a| && d <= |b|
  {
    a[|a| - d].eventHash == b[|b| - d].eventHash && a[|a| - d].chainAnchor == b[|b| - d].chainAnchor
  }

  /** The last `n` entries have the same events and anchors, and the values they are chained to are
      the same. */
  predicate AgreeBack(a: seq<CustodyEntry>, b: seq<CustodyEntry>, n: nat) {
    && n <= |a| && n <= |b|
    && (forall d :: 1 <= d <= n ==> SameFromEnd(a, b, d))
    && (1 <= n ==> PrevOf(a, |a| - n) == PrevOf(b, |b| - n))
  }

  /** What comparing two chains from their ends turns up: nothing; that they part before their last
      `n` entries, by a collision; or that the longer one reaches the genesis value again. */
  datatype Finding = Same | Collision(n: nat) | GenesisPreimage

  predicate Agree(a: seq<CustodyEntry>, b: seq<CustodyEntry>) {
    && |a| == |b|
    && (a != [] ==> a[0].prevHash == b[0].prevHash)
    && forall i :: 0 <= i < |a| ==> a[i].eventHash == b[i].eventHash && a[i].chainAnchor == b[i].chainAnchor
  }

  /** The chains agree in their last `n` entries, and the entries before those have different link
      inputs but the same anchor, the hash of both. */
  predicate CollisionBefore(hash: Hash, a: seq<CustodyEntry>, b: seq<CustodyEntry>, n: nat) {
    && AgreeBack(a, b, n) && n < |a| && n < |b|
    && var x, y := LinkInput(a, |a| - n - 1), LinkInput(b, |b| - n - 1);
       x != y && hash(x) == a[|a| - n - 1].chainAnchor == b[|b| - n - 1].chainAnchor == hash(y)
  }

  /** The longer chain ends in all of the shorter one, and the link input of its entry before that
      hashes to the genesis value. */
  predicate ReachesGenesis(hash: Hash, long: seq<CustodyEntry>, short: seq<CustodyEntry>) {
    && AgreeBack(long, short, |short|) && |short| < |long|
    && hash(LinkInput(long, |long| - |short| - 1)) == GENESIS
  }

  predicate Evidence(hash: Hash, finding: Finding, a: seq<CustodyEntry>, b: seq<CustodyEntry>) {
    match finding
    case Same => Agree(a, b)
    case Collision(n) => CollisionBefore(hash, a, b, n)
    case GenesisPreimage => if |a| > |b| then ReachesGenesis(hash, a, b) else ReachesGenesis(hash, b, a)
  }

  /** Both chains pass the check, start from values as long as a hash, and end in the same anchor. */
  ghost predicate Comparable(hash: Hash, a: seq<CustodyEntry>, b: seq<CustodyEntry>) {
    && (forall s :: |hash(s)| == 64)
    && Accepted(hash, a) && Accepted(hash, b) && a != [] && b != []
    && |a[0].prevHash| == |b[0].prevHash| == 64
    && a[|a| - 1].chainAnchor == b[|b| - 1].chainAnchor
  }

  lemma SplitAtSuffix(s: string, t: string, u: string, v: string)
    requires s + t == u + v && |t| == |v|
    ensures s == u && t == v
  {
    assert s == (s + t)[..|s|] && t == (s + t)[|s|..];
    assert u == (u + v)[..|u|] && v == (u + v)[|u|..];
  }

  /** In a chain that passes the check and starts from a hash, every entry is chained to a hash. */
  lemma PrevIsHash(hash: Hash, entries: seq<CustodyEntry>, i: nat)
    requires forall s :: |hash(s)| == 64
    requires Accepted(hash, entries) && i < |entries| && |entries[0].prevHash| == 64
    ensures |PrevOf(entries, i)| == 64
  {
    if i > 0 { assert Linked(hash, entries, i - 1); }
  }

  lemma SameAnchorBefore(hash: Hash, a: seq<CustodyEntry>, b: seq<CustodyEntry>, n: nat)
    requires Comparable(hash, a, b) && AgreeBack(a, b, n) && n < |a| && n < |b|
    ensures a[|a| - n - 1].chainAnchor == b[|b| - n - 1].chainAnchor
  {
  }

  /** Equal link inputs split into equal events and equal values they are chained to. */
  lemma SameLink(hash: Hash, a: seq<CustodyEntry>, b: seq<CustodyEntry>, n: nat)
    requires Comparable(hash, a, b) && AgreeBack(a, b, n) && n < |a| && n < |b|
    requires LinkInput(a, |a| - n - 1) == LinkInput(b, |b| - n - 1)
    ensures AgreeBack(a, b, n + 1)
  {
    var i, j := |a| - n - 1, |b| - n - 1;
    SameAnchorBefore(hash, a, b, n);
    PrevIsHash(hash, a, i);
    PrevIsHash(hash, b, j);
    SplitAtSuffix(a[i].eventHash, PrevOf(a, i), b[j].eventHash, PrevOf(b, j));
    assert SameFromEnd(a, b, n + 1);
  }

  /** How far two chains agree, walking back from their ends until they part or one of them ends. */
  lemma WalkBack(hash: Hash, a: seq<CustodyEntry>, b: seq<CustodyEntry>) returns (n: nat)
    requires Comparable(hash, a, b)
    ensures AgreeBack(a, b, n) && (n < |a| && n < |b| ==> CollisionBefore(hash, a, b, n))
  {
    n := 0;
    while n < |a| && n < |b| && LinkInput(a, |a| - n - 1) == LinkInput(b, |b| - n - 1)
      invariant AgreeBack(a, b, n)
    {
      SameLink(hash, a, b, n);
      n := n + 1;
    }
    if n < |a| && n < |b| {
      SameAnchorBefore(hash, a, b, n);
      assert Linked(hash, a, |a| - n - 1) && Linked(hash, b, |b| - n - 1);
    }
  }

  lemma AgreeThroughout(a: seq<CustodyEntry>, b: seq<CustodyEntry>)
    requires |a| == |b| && AgreeBack(a, b, |a|)
    ensures Agree(a, b)
  {
    forall i | 0 <= i < |a|
      ensures a[i].eventHash == b[i].eventHash && a[i].chainAnchor == b[i].chainAnchor
    {
      assert SameFromEnd(a, b, |a| - i);
    }
  }

  lemma OneInsideTheOther(hash: Hash, long: seq<CustodyEntry>, short: seq<CustodyEntry>)
    requires Accepted(hash, long) && 0 < |short| < |long| && AgreeBack(long, short, |short|)
    requires short[0].prevHash == GENESIS
    ensures ReachesGenesis(hash, long, short)
  {
    assert Linked(hash, long, |long| - |short| - 1);
  }

  lemma AgreeBackSymmetric(a: seq<CustodyEntry>, b: seq<CustodyEntry>, n: nat)
    requires AgreeBack(a, b, n)
    ensures AgreeBack(b, a, n)
  {
    forall d | 1 <= d <= n
      ensures SameFromEnd(b, a, d)
    {
      assert SameFromEnd(a, b, d);
    }
  }

  /** Two accepted chains of equal length that end in the same anchor agree in every event and
      every anchor, or part at an entry where two distinct inputs have the same hash. */
  lemma SameAnchorSameChain(hash: Hash, a: seq<CustodyEntry>, b: seq<CustodyEntry>)
    returns (finding: Finding)
    requires Comparable(hash, a, b) && |a| == |b|
    ensures !finding.GenesisPreimage? && Evidence(hash, finding, a, b)
  {
    var n := WalkBack(hash, a, b);
    if n < |a| {
      finding := Collision(n);
    } else {
      AgreeThroughout(a, b);
      finding := Same;
    }
  }

  /** Without knowing the lengths: two accepted chains from the genesis value that end in the same
      anchor are the same chain, or part at a collision, or the longer one ends in all of the shorter
      one after an entry that hashes to the genesis value. */
  lemma SameAnchorFromGenesis(hash: Hash, a: seq<CustodyEntry>, b: seq<CustodyEntry>)
    returns (finding: Finding)
    requires Comparable(hash, a, b) && a[0].prevHash == b[0].prevHash == GENESIS
    ensures Evidence(hash, finding, a, b)
    ensures finding.GenesisPreimage? ==> |a| != |b|
  {
    var n := WalkBack(hash, a, b);
    if n < |a| && n < |b| {
      finding := Collision(n);
    } else if |a| == |b| {
      AgreeThroughout(a, b);
      finding := Same;
    } else if |a| > |b| {
      OneInsideTheOther(hash, a, b);
      finding := GenesisPreimage;
    } else {
      AgreeBackSymmetric(a, b, n);
      OneInsideTheOther(hash, b, a);
      finding := GenesisPreimage;
    }
  }

  // ── The ledger the server exports ─────────────────────────────────────────────────────────

  /** The anchor after the first `n` events. */
  function AnchorAfter(hash: Hash, events: seq<string>, n: nat): string
    requires n <= |events|
  {
    if n == 0 then GENESIS else hash(hash(events[n - 1]) + AnchorAfter(hash, events, n - 1))
  }

  function LedgerEntry(hash: Hash, events: seq<string>, i: nat): CustodyEntry
    requires i < |events|
  {
    CustodyEntry(i, hash(events[i]), AnchorAfter(hash, events, i), AnchorAfter(hash, events, i + 1))
  }

  /** The whole ledger at once: entry `i` hashes event `i` and chains it to everything before. */
  function Ledger(hash: Hash, events: seq<string>): seq<CustodyEntry> {
    seq(|events|, i requires 0 <= i < |events| => LedgerEntry(hash, events, i))
  }

  /** What the ledger says of event `i`, and what it chains it to. */
  lemma LedgerMeaning(hash: Hash, events: seq<string>, i: nat)
    requires i < |events|
    ensures var ledger := Ledger(hash, events);
            && |ledger| == |events| && ledger[i].eventIndex == i && ledger[i].eventHash == hash(events[i])
            && ledger[i].prevHash == (if i == 0 then seq(64, _ => '0') else ledger[i - 1].chainAnchor)
            && ledger[i].chainAnchor == hash(hash(events[i]) + ledger[i].prevHash)
  {
  }

  function Min(a: nat, b: nat): nat { if a < b then a else b }

  lemma LedgerSlice(hash: Hash, events: seq<string>, lo: nat, k: nat)
    requires lo <= k < |events|
    ensures Ledger(hash, events)[lo..k + 1] == Ledger(hash, events)[lo..k] + [LedgerEntry(hash, events, k)]
  {
  }

  /** The anchor the page that begins at `offset` continues from. */
  method AnchorAt(hash: Hash, events: seq<string>, offset: nat) returns (prevHash: string)
    ensures prevHash == AnchorAfter(hash, events, Min(offset, |events|))
  {
    prevHash := GENESIS;
    if offset > 0 {
      var i := 0;
      while i < offset && i < |events|
        invariant 0 <= i <= Min(offset, |events|) && prevHash == AnchorAfter(hash, events, i)
      {
        prevHash := hash(hash(events[i]) + prevHash);
        i := i + 1;
      }
    }
  }

  /** A page, built by recomputing the chain up to its start, is that part of the whole ledger. */
  method BuildPage(hash: Hash, events: seq<string>, offset: nat, limit: nat) returns (entries: seq<CustodyEntry>)
    ensures entries == Ledger(hash, events)[Min(offset, |events|)..Min(offset + limit, |events|)]
    ensures |entries| == if offset >= |events| then 0 else if offset + limit <= |events| then limit else |events| - offset
    ensures forall k :: 0 <= k < |entries| ==> entries[k].eventIndex == offset + k
  {
    var prevHash := AnchorAt(hash, events, offset);
    var start, end := Min(offset, |events|), Min(offset + limit, |events|);
    entries := [];
    for k := start to end
      invariant prevHash == AnchorAfter(hash, events, k)
      invariant entries == Ledger(hash, events)[start..k]
    {
      LedgerSlice(hash, events, start, k);
      var eventHash := hash(events[k]);
      var chainAnchor := hash(eventHash + prevHash);
      entries := entries + [CustodyEntry(offset + (k - start), eventHash, prevHash, chainAnchor)];
      prevHash := chainAnchor;
    }
  }

  /** Every page passes the client's check, and starts from the anchor its predecessor ended in. */
  lemma PagesAccepted(hash: Hash, events: seq<string>, lo: nat, hi: nat)
    requires lo <= hi <= |events|
    ensures Accepted(hash, Ledger(hash, events)[lo..hi])
    ensures lo < hi ==> Ledger(hash, events)[lo].prevHash ==
                          if lo == 0 then GENESIS else Ledger(hash, events)[lo - 1].chainAnchor
  {
    var page := Ledger(hash, events)[lo..hi];
    forall i | 0 <= i < |page|
      ensures Linked(hash, page, i)
    {
      assert page[i] == Ledger(hash, events)[lo + i];
      if i > 0 { assert page[i - 1] == Ledger(hash, events)[lo + i - 1]; }
    }
  }

  /** Checking page by page is checking the whole, if each page is also compared with the anchor
      the page before it ended in. */
  lemma PageByPage(hash: Hash, p: seq<CustodyEntry>, q: seq<CustodyEntry>)
    requires p != [] && q != [] && q[0].prevHash == p[|p| - 1].chainAnchor
    ensures Accepted(hash, p + q) <==> Accepted(hash, p) && Accepted(hash, q)
  {
    forall i | 0 <= i < |p + q|
      ensures Linked(hash, p + q, i) <==> if i < |p| then Linked(hash, p, i) else Linked(hash, q, i - |p|)
    {
      assert PrevOf(p + q, i) == if i < |p| then PrevOf(p, i) else PrevOf(q, i - |p|);
    }
    if Accepted(hash, p + q) {
      assert forall i :: 0 <= i < |p| ==> Linked(hash, p + q, i);
      forall i | 0 <= i < |q|
        ensures Linked(hash, q, i)
      {
        assert Linked(hash, p + q, |p| + i);
      }
    }
  }

  /** A ledger that was altered anywhere and still ends in the published anchor betrays a weakness
      of the hash, at a definite entry: the finding is `Same` only for the true events and anchors. */
  lemma TamperedLedgerDetected(hash: Hash, events: seq<string>, shown: seq<CustodyEntry>) returns (finding: Finding)
    requires forall s :: |hash(s)| == 64
    requires events != [] && shown != [] && Accepted(hash, shown) && shown[0].prevHash == GENESIS
    requires shown[|shown| - 1].chainAnchor == AnchorAfter(hash, events, |events|)
    ensures Evidence(hash, finding, shown, Ledger(hash, events))
    ensures finding == Same <==> Agree(shown, Ledger(hash, events))
  {
    var ledger := Ledger(hash, events);
    PagesAccepted(hash, events, 0, |events|);
    assert ledger[0..|events|] == ledger;
    finding := SameAnchorFromGenesis(hash, shown, ledger);
  }
}
