/** The test server that hands webhook requests to waiting tests
    (frontend/e2e/support/webhook-sink.ts). Arrivals, waits, timeouts, `clear` and `stop` are
    separate steps and may interleave in any order. */
module WebhookSink {
  import opened Options

  /** A captured request; `serial`, its place in the order of arrival, stands for its identity. */
  datatype Captured = Captured(serial: nat, rawBody: string, respondedWith: int)

  /** Wait number `waiter`, in the order of the calls, was resolved with request number `request`. */
  datatype Delivery = Delivery(waiter: nat, request: nat)

  ghost function Below(n: nat): (below: set<nat>)
    ensures forall k :: k in below <==> 0 <= k < n
  {
    if n == 0 then {} else Below(n - 1) + {n - 1}
  }

  ghost function Serials(captured: seq<Captured>): set<nat> { set c | c in captured :: c.serial }

  ghost function Requests(delivered: seq<Delivery>): set<nat> { set d | d in delivered :: d.request }

  ghost function Waiters(delivered: seq<Delivery>): set<nat> { set d | d in delivered :: d.waiter }

  ghost function Pending(waiters: seq<nat>): set<nat> { set w | w in waiters }

  predicate Ascending(ns: seq<nat>) {
    forall i, j :: 0 <= i < j < |ns| ==> ns[i] < ns[j]
  }

  /** Deliveries run in the order of arrival and, at the same time, in the order of the waits. */
  predicate InOrder(delivered: seq<Delivery>) {
    forall i, j :: 0 <= i < j < |delivered| ==>
      delivered[i].request < delivered[j].request && delivered[i].waiter < delivered[j].waiter
  }

  /** Each of the `arrivals` requests is in exactly one place: delivered, buffered or cleared. The
      buffer is in order of arrival, after everything delivered. */
  ghost predicate RequestsInv(arrivals: nat, captured: seq<Captured>, delivered: seq<Delivery>, cleared: set<nat>) {
    && Requests(delivered) + Serials(captured) + cleared == Below(arrivals)
    && Requests(delivered) !! Serials(captured) !! cleared
    && (forall i, j :: 0 <= i < j < |captured| ==> captured[i].serial < captured[j].serial)
    && (forall d, c :: d in delivered && c in captured ==> d.request < c.serial)
  }

  /** Each of the `waits` calls is pending, resolved or rejected, and exactly one of these. The
      queue is in order of the calls, after every call resolved. */
  ghost predicate WaitersInv(waits: nat, waiters: seq<nat>, delivered: seq<Delivery>, rejected: set<nat>) {
    && Waiters(delivered) + Pending(waiters) + rejected == Below(waits)
    && Waiters(delivered) !! Pending(waiters) !! rejected
    && Ascending(waiters)
    && (forall d, w :: d in delivered && w in waiters ==> d.waiter < w)
  }

  // ── One step at a time ────────────────────────────────────────────────────────────────────

  lemma DeliveredGrows(delivered: seq<Delivery>, d: Delivery)
    ensures Requests(delivered + [d]) == Requests(delivered) + {d.request}
    ensures Waiters(delivered + [d]) == Waiters(delivered) + {d.waiter}
  {
    assert forall x :: x in delivered + [d] <==> x in delivered || x == d;
  }

  lemma BufferGrows(captured: seq<Captured>, c: Captured)
    ensures Serials(captured + [c]) == Serials(captured) + {c.serial}
  {
    assert forall x :: x in captured + [c] <==> x in captured || x == c;
  }

  lemma BufferShrinks(captured: seq<Captured>)
    requires captured != [] && forall i, j :: 0 <= i < j < |captured| ==> captured[i].serial < captured[j].serial
    ensures Serials(captured[1..]) == Serials(captured) - {captured[0].serial}
  {
    assert captured == [captured[0]] + captured[1..];
    assert forall c :: c in captured <==> c == captured[0] || c in captured[1..];
    forall c | c in captured[1..]
      ensures c.serial != captured[0].serial
    {
      var i :| 0 <= i < |captured[1..]| && captured[1..][i] == c;
      assert captured[i + 1] == c;
    }
  }

  lemma RequestArrives(
    arrivals: nat, captured: seq<Captured>, delivered: seq<Delivery>, cleared: set<nat>, request: Captured)
    requires RequestsInv(arrivals, captured, delivered, cleared) && request.serial == arrivals
    ensures RequestsInv(arrivals + 1, captured + [request], delivered, cleared)
  {
    BufferGrows(captured, request);
    forall i | 0 <= i < |captured|
      ensures captured[i].serial < arrivals
    {
      assert captured[i].serial in Serials(captured);
    }
    forall d | d in delivered
      ensures d.request < arrivals
    {
      assert d.request in Requests(delivered);
    }
  }

  lemma RequestDelivered(
    arrivals: nat, captured: seq<Captured>, delivered: seq<Delivery>, cleared: set<nat>, waiter: nat)
    requires RequestsInv(arrivals, captured, delivered, cleared) && captured != []
    ensures RequestsInv(arrivals, captured[1..], delivered + [Delivery(waiter, captured[0].serial)], cleared)
    ensures forall d :: d in delivered ==> d.request < captured[0].serial
  {
    var rest := captured[1..];
    BufferShrinks(captured);
    DeliveredGrows(delivered, Delivery(waiter, captured[0].serial));
    assert captured[0].serial in Serials(captured);
    assert forall i :: 0 <= i < |rest| ==> rest[i] == captured[i + 1];
    assert forall c :: c in rest ==> c in captured && captured[0].serial < c.serial;
  }

  lemma RequestsCleared(arrivals: nat, captured: seq<Captured>, delivered: seq<Delivery>, cleared: set<nat>)
    requires RequestsInv(arrivals, captured, delivered, cleared)
    ensures RequestsInv(arrivals, [], delivered, cleared + Serials(captured))
  {
    assert Serials([]) == {};
  }

  lemma CallQueued(waits: nat, waiters: seq<nat>, delivered: seq<Delivery>, rejected: set<nat>)
    requires WaitersInv(waits, waiters, delivered, rejected)
    ensures WaitersInv(waits + 1, waiters + [waits], delivered, rejected)
  {
    assert Below(waits + 1) == Below(waits) + {waits};
    assert Pending(waiters + [waits]) == Pending(waiters) + {waits};
    forall i | 0 <= i < |waiters|
      ensures waiters[i] < waits
    {
      assert waiters[i] in Pending(waiters);
    }
    forall d | d in delivered
      ensures d.waiter < waits
    {
      assert d.waiter in Waiters(delivered);
    }
  }

  function Without(ns: seq<nat>, i: nat): seq<nat>
    requires i < |ns|
  {
    ns[..i] + ns[i + 1..]
  }

  /** Taking one waiter out of the queue, wherever it stands. */
  lemma QueueWithout(waiters: seq<nat>, i: nat)
    requires i < |waiters| && Ascending(waiters)
    ensures Pending(Without(waiters, i)) == Pending(waiters) - {waiters[i]} && Ascending(Without(waiters, i))
  {
    var rest := Without(waiters, i);
    assert forall k :: 0 <= k < |rest| ==> rest[k] == waiters[if k < i then k else k + 1];
    forall w | w in waiters && w != waiters[i]
      ensures w in rest
    {
      var k :| 0 <= k < |waiters| && waiters[k] == w;
      assert rest[if k < i then k else k - 1] == w;
    }
  }

  lemma CallRejected(waits: nat, waiters: seq<nat>, delivered: seq<Delivery>, rejected: set<nat>, i: nat)
    requires WaitersInv(waits, waiters, delivered, rejected) && i < |waiters|
    ensures WaitersInv(waits, Without(waiters, i), delivered, rejected + {waiters[i]})
    ensures waiters[i] !in rejected && waiters[i] in Pending(waiters)
  {
    QueueWithout(waiters, i);
    assert waiters[i] in Pending(waiters);
    assert forall w :: w in Without(waiters, i) ==> w in waiters;
  }

  lemma CallResolved(waits: nat, waiters: seq<nat>, delivered: seq<Delivery>, rejected: set<nat>, request: nat)
    requires WaitersInv(waits, waiters, delivered, rejected) && waiters != []
    ensures WaitersInv(waits, waiters[1..], delivered + [Delivery(waiters[0], request)], rejected)
    ensures forall d :: d in delivered ==> d.waiter < waiters[0]
  {
    QueueWithout(waiters, 0);
    assert Without(waiters, 0) == waiters[1..];
    DeliveredGrows(delivered, Delivery(waiters[0], request));
    assert waiters[0] in Pending(waiters);
    var rest := waiters[1..];
    assert forall i :: 0 <= i < |rest| ==> rest[i] == waiters[i + 1];
    assert forall w :: w in rest ==> w in waiters && waiters[0] < w;
  }

  /** All that holds between steps: in particular, never both a buffered request and a pending
      call, and no settled call in the queue. */
  ghost predicate SinkInv(
    arrivals: nat, captured: seq<Captured>, cleared: set<nat>, waits: nat, waiters: seq<nat>, settled: set<nat>,
    rejected: set<nat>, delivered: seq<Delivery>)
  {
    && (captured == [] || waiters == [])
    && InOrder(delivered)
    && RequestsInv(arrivals, captured, delivered, cleared)
    && WaitersInv(waits, waiters, delivered, rejected)
    && settled == Waiters(delivered) + rejected
  }

  lemma ArrivalBuffered(
    arrivals: nat, captured: seq<Captured>, cleared: set<nat>, waits: nat, settled: set<nat>, rejected: set<nat>,
    delivered: seq<Delivery>, request: Captured)
    requires SinkInv(arrivals, captured, cleared, waits, [], settled, rejected, delivered)
    requires request.serial == arrivals
    ensures SinkInv(arrivals + 1, captured + [request], cleared, waits, [], settled, rejected, delivered)
  {
    RequestArrives(arrivals, captured, delivered, cleared, request);
  }

  /** The oldest request goes to the oldest call. */
  lemma HandOver(
    arrivals: nat, captured: seq<Captured>, cleared: set<nat>, waits: nat, waiters: seq<nat>, settled: set<nat>,
    rejected: set<nat>, delivered: seq<Delivery>)
    requires RequestsInv(arrivals, captured, delivered, cleared) && WaitersInv(waits, waiters, delivered, rejected)
    requires InOrder(delivered) && captured != [] && waiters != [] && (|captured| == 1 || |waiters| == 1)
    requires settled == Waiters(delivered) + rejected
    ensures SinkInv(arrivals, captured[1..], cleared, waits, waiters[1..], settled + {waiters[0]}, rejected,
                    delivered + [Delivery(waiters[0], captured[0].serial)])
  {
    RequestDelivered(arrivals, captured, delivered, cleared, waiters[0]);
    CallResolved(waits, waiters, delivered, rejected, captured[0].serial);
    DeliveredGrows(delivered, Delivery(waiters[0], captured[0].serial));
  }

  lemma ArrivalHandedOver(
    arrivals: nat, cleared: set<nat>, waits: nat, waiters: seq<nat>, settled: set<nat>, rejected: set<nat>,
    delivered: seq<Delivery>, request: Captured)
    requires SinkInv(arrivals, [], cleared, waits, waiters, settled, rejected, delivered)
    requires waiters != [] && request.serial == arrivals
    ensures SinkInv(arrivals + 1, [], cleared, waits, waiters[1..], settled + {waiters[0]}, rejected,
                    delivered + [Delivery(waiters[0], arrivals)])
  {
    var one := [request];
    assert RequestsInv(arrivals + 1, one, delivered, cleared) by {
      RequestArrives(arrivals, [], delivered, cleared, request);
      assert [] + [request] == one;
    }
    HandOver(arrivals + 1, one, cleared, waits, waiters, settled, rejected, delivered);
    assert one[1..] == [];
  }

  class WebhookSink {
    const maxCaptures: Option<nat>
    var responseStatus: int
    var captured: seq<Captured>
    var waiters: seq<nat>
    var settled: set<nat>
    var arrivals: nat  // numbers requests and calls, standing for object identity
    var waits: nat
    ghost var delivered: seq<Delivery>
    ghost var cleared: set<nat>
    ghost var rejected: set<nat>

    ghost predicate Valid()
      reads this
    {
      SinkInv(arrivals, captured, cleared, waits, waiters, settled, rejected, delivered)
    }

    constructor (responseStatus: int, maxCaptures: Option<nat>)
      ensures Valid() && captured == [] && waiters == [] && arrivals == waits == 0 && delivered == []
      ensures cleared == {} && rejected == {} && this.maxCaptures == maxCaptures && this.responseStatus == responseStatus
    {
      this.responseStatus, this.maxCaptures := responseStatus, maxCaptures;
      captured, waiters, settled := [], [], {};
      arrivals, waits, delivered, cleared, rejected := 0, 0, [], {}, {};
    }

    /** A POST has been read: the oldest waiter gets it, or it is buffered. */
    method Capture(rawBody: string) returns (handedOver: Option<(nat, Captured)>)
      requires Valid()
      modifies this`captured, this`waiters, this`settled, this`arrivals, this`delivered
      ensures Valid() && arrivals == old(arrivals) + 1
      ensures handedOver == if old(waiters) != [] then
                              Some((old(waiters)[0], Captured(old(arrivals), rawBody, responseStatus)))
                            else None
      ensures if old(waiters) != [] then
                && delivered == old(delivered) + [Delivery(old(waiters)[0], old(arrivals))]
                && captured == old(captured) == [] && waiters == old(waiters)[1..]
              else
                && delivered == old(delivered) && waiters == []
                && captured == old(captured) + [Captured(old(arrivals), rawBody, responseStatus)]
    {
      var request := Captured(arrivals, rawBody, responseStatus);
      captured := captured + [request];
      if |waiters| > 0 {
        var waiter := waiters[0];
        ArrivalHandedOver(arrivals, cleared, waits, waiters, settled, rejected, delivered, request);
        waiters := waiters[1..];
        captured := captured[..|captured| - 1];
        settled := settled + {waiter};
        delivered := delivered + [Delivery(waiter, arrivals)];
        handedOver := Some((waiter, request));
      } else {
        handedOver := None;
        ArrivalBuffered(arrivals, old(captured), cleared, waits, settled, rejected, delivered, request);
      }
      arrivals := arrivals + 1;
    }

    /** The answer has the configured status and counts what is still buffered; a full sink stops itself. */
    method Arrive(rawBody: string) returns (status: int, count: nat, handedOver: Option<(nat, Captured)>)
      requires Valid()
      modifies this`captured, this`waiters, this`settled, this`arrivals, this`delivered, this`rejected
      ensures status == responseStatus
      ensures handedOver == if old(waiters) != [] then
                              Some((old(waiters)[0], Captured(old(arrivals), rawBody, responseStatus)))
                            else None
      ensures Valid() && arrivals == old(arrivals) + 1 && waits == old(waits) && cleared == old(cleared)
      ensures captured == if old(waiters) != [] then []
                          else old(captured) + [Captured(old(arrivals), rawBody, old(responseStatus))]
      ensures delivered == old(delivered) +
                if old(waiters) != [] then [Delivery(old(waiters)[0], old(arrivals))] else []
      ensures count == |captured|
      ensures var queued := if old(waiters) != [] then old(waiters)[1..] else [];
              if maxCaptures.Some? && count >= maxCaptures.value then
                waiters == [] && rejected == old(rejected) + Pending(queued)
              else waiters == queued && rejected == old(rejected)
    {
      handedOver := Capture(rawBody);
      status, count := responseStatus, |captured|;
      if maxCaptures.Some? && |captured| >= maxCaptures.value {
        Stop();
      }
    }

    /** A buffered request is handed over at once; otherwise the call is queued. */
    method WaitForRequest() returns (waiter: nat, request: Option<Captured>)
      requires Valid()
      modifies this`captured, this`waiters, this`settled, this`waits, this`delivered
      ensures Valid() && waiter == old(waits) && waits == old(waits) + 1 && arrivals == old(arrivals)
      ensures cleared == old(cleared) && rejected == old(rejected)
      ensures if old(captured) != [] then
                && request == Some(old(captured)[0]) && captured == old(captured)[1..] && waiters == []
                && delivered == old(delivered) + [Delivery(waiter, old(captured)[0].serial)]
              else
                && request == None && captured == [] && waiters == old(waiters) + [waiter]
                && delivered == old(delivered)
    {
      waiter := waits;
      CallQueued(waits, waiters, delivered, rejected);
      waits := waits + 1;
      if |captured| > 0 {
        var first := captured[0];
        request := Some(first);
        HandOver(arrivals, captured, cleared, waits, [waiter], settled, rejected, delivered);
        captured := captured[1..];
        settled := settled + {waiter};
        delivered := delivered + [Delivery(waiter, first.serial)];
      } else {
        request := None;
        waiters := waiters + [waiter];
      }
    }

    /** The timer of a queued call fires; it may have been settled long before. */
    method Timeout(waiter: nat)
      requires Valid() && waiter < waits
      modifies this`waiters, this`settled, this`rejected
      ensures Valid()
      ensures waiter in old(settled) ==> waiters == old(waiters) && rejected == old(rejected)
      ensures waiter !in old(settled) ==>
                && rejected == old(rejected) + {waiter}
                && Pending(waiters) == Pending(old(waiters)) - {waiter}
    {
      if waiter in settled {
        return;
      }
      assert waiter in Below(waits);
      settled := settled + {waiter};
      var idx := 0;
      while idx < |waiters| && waiters[idx] != waiter
        invariant 0 <= idx <= |waiters| && forall k :: 0 <= k < idx ==> waiters[k] != waiter
      {
        idx := idx + 1;
      }
      assert waiter in Pending(waiters);
      CallRejected(waits, waiters, delivered, rejected, idx);
      QueueWithout(waiters, idx);
      waiters := Without(waiters, idx);
      rejected := rejected + {waiter};
    }

    /** What is buffered, without taking it. */
    method Requests() returns (buffered: seq<Captured>)
      ensures buffered == captured
    {
      buffered := captured;
    }

    method SetResponseStatus(status: int)
      modifies this`responseStatus
      ensures responseStatus == status
    {
      responseStatus := status;
    }

    method Clear()
      requires Valid()
      modifies this`captured, this`cleared
      ensures Valid() && captured == [] && cleared == old(cleared) + Serials(old(captured))
    {
      RequestsCleared(arrivals, captured, delivered, cleared);
      cleared := cleared + Serials(captured);
      captured := [];
    }

    /** Rejects every pending call; safe to call again. */
    method Stop()
      requires Valid()
      modifies this`waiters, this`settled, this`rejected
      ensures Valid() && waiters == [] && rejected == old(rejected) + Pending(old(waiters))
    {
      while |waiters| > 0
        invariant Valid() && rejected + Pending(waiters) == old(rejected) + Pending(old(waiters))
        decreases |waiters|
      {
        var waiter := waiters[0];
        CallRejected(waits, waiters, delivered, rejected, 0);
        QueueWithout(waiters, 0);
        assert Without(waiters, 0) == waiters[1..];
        waiters := waiters[1..];
        settled := settled + {waiter};
        rejected := rejected + {waiter};
      }
    }
  }

  // ── What waiting tests rely on ────────────────────────────────────────────────────────────

  ghost predicate DownwardClosed(ns: seq<nat>) {
    forall n: nat, k: nat :: n in ns && k < n ==> k in ns
  }

  lemma {:induction false} AscendingAt(ns: seq<nat>, i: nat)
    requires Ascending(ns) && DownwardClosed(ns) && i < |ns|
    ensures ns[i] == i
  {
    if i > 0 { AscendingAt(ns, i - 1); }
    if ns[i] > i {
      assert ns[i] in ns && i in ns;
      var j :| 0 <= j < |ns| && ns[j] == i;
      if j < i { AscendingAt(ns, j); }
      assert false;
    }
  }

  function RequestsOf(delivered: seq<Delivery>): seq<nat> {
    seq(|delivered|, i requires 0 <= i < |delivered| => delivered[i].request)
  }

  function WaitersOf(delivered: seq<Delivery>): seq<nat> {
    seq(|delivered|, i requires 0 <= i < |delivered| => delivered[i].waiter)
  }

  lemma DeliveredBeforeBuffered(captured: seq<Captured>, delivered: seq<Delivery>, n: nat, k: nat)
    requires forall d, c :: d in delivered && c in captured ==> d.request < c.serial
    requires n in Requests(delivered) && k in Serials(captured)
    ensures n < k
  {
  }

  lemma ResolvedBeforePending(waiters: seq<nat>, delivered: seq<Delivery>, n: nat, k: nat)
    requires forall d, w :: d in delivered && w in waiters ==> d.waiter < w
    requires n in Waiters(delivered) && k in Pending(waiters)
    ensures n < k
  {
  }

  lemma SameRequests(delivered: seq<Delivery>)
    ensures forall n :: n in RequestsOf(delivered) <==> n in Requests(delivered)
    ensures forall n :: n in WaitersOf(delivered) <==> n in Waiters(delivered)
  {
    forall d | d in delivered
      ensures d.request in RequestsOf(delivered) && d.waiter in WaitersOf(delivered)
    {
      var i :| 0 <= i < |delivered| && delivered[i] == d;
      assert RequestsOf(delivered)[i] == d.request && WaitersOf(delivered)[i] == d.waiter;
    }
  }

  /** Unless the buffer was cleared, the requests delivered so far are the first to have arrived. */
  lemma FirstArrivalsFirst(arrivals: nat, captured: seq<Captured>, delivered: seq<Delivery>, i: nat)
    requires RequestsInv(arrivals, captured, delivered, {}) && InOrder(delivered) && i < |delivered|
    ensures delivered[i].request == i
  {
    var ns := RequestsOf(delivered);
    SameRequests(delivered);
    forall n: nat, k: nat | n in ns && k < n
      ensures k in ns
    {
      assert k in Below(arrivals);
      if k in Serials(captured) {
        DeliveredBeforeBuffered(captured, delivered, n, k);
        assert false;
      }
    }
    AscendingAt(ns, i);
  }

  /** Unless calls timed out or were stopped, the calls resolved so far are the first to be made. */
  lemma FirstCallsFirst(waits: nat, waiters: seq<nat>, delivered: seq<Delivery>, i: nat)
    requires WaitersInv(waits, waiters, delivered, {}) && InOrder(delivered) && i < |delivered|
    ensures delivered[i].waiter == i
  {
    var ns := WaitersOf(delivered);
    SameRequests(delivered);
    forall n: nat, k: nat | n in ns && k < n
      ensures k in ns
    {
      assert k in Below(waits);
      if k in Pending(waiters) {
        ResolvedBeforePending(waiters, delivered, n, k);
        assert false;
      }
    }
    AscendingAt(ns, i);
  }

  /** With neither, the k-th call gets the k-th request, as soon as there are both: the sink never
      leaves a request unused while a call waits. */
  lemma KthCallGetsKthRequest(
    arrivals: nat, captured: seq<Captured>, waits: nat, waiters: seq<nat>, delivered: seq<Delivery>)
    requires captured == [] || waiters == []
    requires RequestsInv(arrivals, captured, delivered, {}) && WaitersInv(waits, waiters, delivered, {})
    requires InOrder(delivered)
    ensures forall i :: 0 <= i < |delivered| ==> delivered[i] == Delivery(i, i)
    ensures |delivered| == if arrivals < waits then arrivals else waits
  {
    forall i | 0 <= i < |delivered|
      ensures delivered[i] == Delivery(i, i) && i < arrivals && i < waits
    {
      FirstArrivalsFirst(arrivals, captured, delivered, i);
      FirstCallsFirst(waits, waiters, delivered, i);
      assert delivered[i].request in Requests(delivered) && delivered[i].waiter in Waiters(delivered);
    }
    var n := |delivered|;
    assert n < arrivals ==> n in Below(arrivals);
    assert n < waits ==> n in Below(waits);
    assert n > 0 ==> delivered[n - 1] == Delivery(n - 1, n - 1);
  }
}
