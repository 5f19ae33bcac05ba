/** The offline queue and its replay (frontend/lib/offlineQueue.ts, `handleSync` in
    frontend/components/ui/SyncStatusBanner.tsx). */
module OfflineQueue {
  datatype Operation = Operation(id: string, kind: string, payload: string, queuedAt: int)

  predicate Absent(ops: seq<Operation>, id: string) {
    forall i :: 0 <= i < |ops| ==> ops[i].id != id
  }

  predicate UniqueIds(ops: seq<Operation>) {
    ops == [] || (UniqueIds(ops[..|ops| - 1]) && Absent(ops[..|ops| - 1], ops[|ops| - 1].id))
  }

  lemma {:induction false} UniqueAt(ops: seq<Operation>, i: nat, j: nat)
    requires UniqueIds(ops) && i < j < |ops|
    ensures ops[i].id != ops[j].id
  {
    var front := ops[..|ops| - 1];
    if j < |front| { UniqueAt(front, i, j); } else { assert front[i] == ops[i]; }
  }

  function WithoutId(ops: seq<Operation>, id: string): seq<Operation> {
    if ops == [] then []
    else WithoutId(ops[..|ops| - 1], id) + (if ops[|ops| - 1].id != id then [ops[|ops| - 1]] else [])
  }

  lemma {:induction false} WithoutAbsent(ops: seq<Operation>, id: string)
    requires Absent(ops, id)
    ensures WithoutId(ops, id) == ops
  {
    if ops != [] {
      WithoutAbsent(ops[..|ops| - 1], id);
      assert ops == ops[..|ops| - 1] + [ops[|ops| - 1]];
    }
  }

  lemma {:induction false} WithoutConcat(a: seq<Operation>, b: seq<Operation>, id: string)
    ensures WithoutId(a + b, id) == WithoutId(a, id) + WithoutId(b, id)
  {
    if b == [] {
      assert a + b == a;
    } else {
      assert (a + b)[..|a + b| - 1] == a + b[..|b| - 1];
      WithoutConcat(a, b[..|b| - 1], id);
    }
  }

  lemma WithoutOne(before: seq<Operation>, op: Operation, after: seq<Operation>)
    requires Absent(before, op.id) && Absent(after, op.id)
    ensures WithoutId(before + [op] + after, op.id) == before + after
  {
    WithoutAbsent(before, op.id);
    WithoutAbsent(after, op.id);
    WithoutConcat(before + [op], after, op.id);
    assert WithoutId(before + [op], op.id) == before by {
      WithoutConcat(before, [op], op.id);
      assert WithoutId([op], op.id) == [] by { assert [op][..0] == []; }
      assert before + [] == before;
    }
  }

  /** `part` is what `all` holds at the positions `kept`, in the same order. */
  ghost predicate KeptFrom(all: seq<Operation>, part: seq<Operation>, kept: seq<nat>) {
    && |part| == |kept|
    && (forall k :: 0 <= k < |kept| ==> kept[k] < |all| && part[k] == all[kept[k]])
    && (forall k, m :: 0 <= k < m < |kept| ==> kept[k] < kept[m])
  }

  lemma KeepsLast(front: seq<Operation>, part: seq<Operation>, kept: seq<nat>, op: Operation)
    requires KeptFrom(front, part, kept)
    ensures KeptFrom(front + [op], part, kept)
    ensures KeptFrom(front + [op], part + [op], kept + [|front|])
  {
  }

  lemma {:induction false} WithoutIdKeeps(ops: seq<Operation>, id: string) returns (kept: seq<nat>)
    ensures KeptFrom(ops, WithoutId(ops, id), kept)
    ensures forall i :: 0 <= i < |ops| ==> (i in kept <==> ops[i].id != id)
  {
    if ops == [] {
      kept := [];
    } else {
      var front, last := ops[..|ops| - 1], ops[|ops| - 1];
      assert ops == front + [last];
      kept := WithoutIdKeeps(front, id);
      KeepsLast(front, WithoutId(front, id), kept, last);
      if last.id != id { kept := kept + [|front|]; }
    }
  }

  /** What happens while one operation is dispatched: whether it succeeds, and what is enqueued
      in the meantime. */
  datatype Dispatch = Dispatch(succeeds: bool, arrivals: seq<Operation>)

  /** Those of the first `n` operations whose dispatch failed, in order. */
  function Failed(queue: seq<Operation>, pass: seq<Dispatch>, n: nat): seq<Operation>
    requires n <= |queue| == |pass|
  {
    if n == 0 then []
    else Failed(queue, pass, n - 1) + (if pass[n - 1].succeeds then [] else [queue[n - 1]])
  }

  function Succeeded(queue: seq<Operation>, pass: seq<Dispatch>, n: nat): seq<Operation>
    requires n <= |queue| == |pass|
  {
    if n == 0 then []
    else Succeeded(queue, pass, n - 1) + (if pass[n - 1].succeeds then [queue[n - 1]] else [])
  }

  /** What is enqueued while the first `n` operations are being dispatched. */
  function Arrived(pass: seq<Dispatch>, n: nat): seq<Operation>
    requires n <= |pass|
  {
    if n == 0 then [] else Arrived(pass, n - 1) + pass[n - 1].arrivals
  }

  /** The two lists share out the third. */
  ghost predicate Shared(failed: seq<Operation>, succeeded: seq<Operation>, all: seq<Operation>) {
    multiset(failed) + multiset(succeeded) == multiset(all)
  }

  lemma Deal(
    failed: seq<Operation>, succeeded: seq<Operation>, all: seq<Operation>, op: Operation, succeeds: bool)
    requires Shared(failed, succeeded, all)
    ensures Shared(failed + (if succeeds then [] else [op]), succeeded + (if succeeds then [op] else []), all + [op])
  {
    assert failed + [] == failed && succeeded + [] == succeeded;
  }

  lemma TakeOneMore(ops: seq<Operation>, n: nat)
    requires 0 < n <= |ops|
    ensures ops[..n] == ops[..n - 1] + [ops[n - 1]]
  {
  }

  lemma {:induction false} FailedWithin(queue: seq<Operation>, pass: seq<Dispatch>, n: nat)
    requires n <= |queue| == |pass|
    ensures Shared(Failed(queue, pass, n), Succeeded(queue, pass, n), queue[..n])
  {
    if n > 0 {
      FailedWithin(queue, pass, n - 1);
      var failed, succeeded := Failed(queue, pass, n - 1), Succeeded(queue, pass, n - 1);
      Deal(failed, succeeded, queue[..n - 1], queue[n - 1], pass[n - 1].succeeds);
      TakeOneMore(queue, n);
    }
  }

  /** No id of `ops` repeats, seen as a property of the collection and not of its order. */
  ghost predicate DistinctIds(ops: multiset<Operation>) {
    && (forall o :: o in ops ==> ops[o] == 1)
    && (forall o, p :: o in ops && p in ops && o.id == p.id ==> o == p)
  }

  lemma CountsBoth(ops: seq<Operation>, i: nat, j: nat)
    requires i < j < |ops|
    ensures ops[i] == ops[j] ==> multiset(ops)[ops[i]] >= 2
  {
    assert ops == ops[..j] + ops[j..] && ops[i] in ops[..j] && ops[j] in ops[j..];
    assert multiset(ops) == multiset(ops[..j]) + multiset(ops[j..]);
  }

  lemma PartDistinct(part: multiset<Operation>, all: multiset<Operation>)
    requires part <= all && DistinctIds(all)
    ensures DistinctIds(part)
  {
    forall o | o in part
      ensures o in all && part[o] == 1
    {
      assert part[o] <= all[o];
    }
  }

  lemma {:induction false} DistinctIsUnique(ops: seq<Operation>)
    requires DistinctIds(multiset(ops))
    ensures UniqueIds(ops)
  {
    if ops != [] {
      var front, last := ops[..|ops| - 1], ops[|ops| - 1];
      assert ops == front + [last];
      PartDistinct(multiset(front), multiset(ops));
      DistinctIsUnique(front);
      forall i | 0 <= i < |front|
        ensures front[i].id != last.id
      {
        CountsBoth(ops, i, |ops| - 1);
        assert ops[i] in multiset(ops) && last in multiset(ops);
      }
    }
  }

  lemma {:induction false} AbsentFromFailed(queue: seq<Operation>, pass: seq<Dispatch>, n: nat, id: string)
    requires n <= |queue| == |pass| && Absent(queue[..n], id)
    ensures Absent(Failed(queue, pass, n), id)
  {
    if n > 0 {
      assert queue[..n] == queue[..n - 1] + [queue[n - 1]];
      assert forall i :: 0 <= i < n - 1 ==> queue[..n - 1][i] == queue[..n][i];
      assert queue[..n][n - 1].id != id;
      AbsentFromFailed(queue, pass, n - 1, id);
    }
  }

  lemma {:induction false} AbsentFromArrived(pass: seq<Dispatch>, i: nat, n: nat, id: string)
    requires i <= n <= |pass| && Absent(Arrived(pass, n), id)
    ensures Absent(Arrived(pass, i), id)
  {
    if i < n {
      var earlier := Arrived(pass, n - 1);
      assert forall k :: 0 <= k < |earlier| ==> earlier[k] == Arrived(pass, n)[k];
      AbsentFromArrived(pass, i, n - 1, id);
    }
  }

  lemma OthersDiffer(before: seq<Operation>, op: Operation, after: seq<Operation>)
    requires UniqueIds(before + [op] + after)
    ensures Absent(before, op.id) && Absent(after, op.id)
  {
    var all := before + [op] + after;
    var i := |before|;
    forall k | 0 <= k < i
      ensures before[k].id != op.id
    {
      UniqueAt(all, k, i);
    }
    forall k | 0 <= k < |after|
      ensures after[k].id != op.id
    {
      UniqueAt(all, i, i + 1 + k);
      assert all[i + 1 + k] == after[k];
    }
  }

  lemma AbsentFromBoth(a: seq<Operation>, b: seq<Operation>, id: string)
    ensures Absent(a + b, id) <==> Absent(a, id) && Absent(b, id)
  {
    if Absent(a + b, id) {
      assert forall i :: 0 <= i < |a| ==> (a + b)[i] == a[i];
      assert forall i :: 0 <= i < |b| ==> (a + b)[|a| + i] == b[i];
    }
  }

  /** In the middle of a pass the id being dispatched is stored once. */
  lemma {:induction false} StoredOnce(queue: seq<Operation>, pass: seq<Dispatch>, i: nat)
    requires i < |queue| == |pass| && UniqueIds(queue + Arrived(pass, |queue|))
    ensures Absent(Failed(queue, pass, i), queue[i].id)
    ensures Absent(queue[i + 1..] + Arrived(pass, i + 1), queue[i].id)
  {
    var op, after, arrived := queue[i], queue[i + 1..], Arrived(pass, |queue|);
    assert queue + arrived == queue[..i] + [op] + (after + arrived);
    OthersDiffer(queue[..i], op, after + arrived);
    AbsentFromBoth(after, arrived, op.id);
    AbsentFromFailed(queue, pass, i, op.id);
    AbsentFromArrived(pass, i + 1, |queue|, op.id);
    AbsentFromBoth(after, Arrived(pass, i + 1), op.id);
  }

  /** What stays and what has gone, by places: the failed operations are those whose dispatch failed, in
      order, and so with the succeeded ones; everything enqueued arrives, in order. */
  lemma {:induction false} FailedPlaces(queue: seq<Operation>, pass: seq<Dispatch>, n: nat) returns (kept: seq<nat>)
    requires n <= |queue| == |pass|
    ensures KeptFrom(queue[..n], Failed(queue, pass, n), kept)
    ensures forall i :: 0 <= i < n ==> (i in kept <==> !pass[i].succeeds)
  {
    if n == 0 {
      kept := [];
    } else {
      kept := FailedPlaces(queue, pass, n - 1);
      KeepsLast(queue[..n - 1], Failed(queue, pass, n - 1), kept, queue[n - 1]);
      TakeOneMore(queue, n);
      if !pass[n - 1].succeeds { kept := kept + [n - 1]; }
    }
  }

  lemma {:induction false} SucceededPlaces(queue: seq<Operation>, pass: seq<Dispatch>, n: nat) returns (done: seq<nat>)
    requires n <= |queue| == |pass|
    ensures KeptFrom(queue[..n], Succeeded(queue, pass, n), done)
    ensures forall i :: 0 <= i < n ==> (i in done <==> pass[i].succeeds)
  {
    if n == 0 {
      done := [];
    } else {
      done := SucceededPlaces(queue, pass, n - 1);
      KeepsLast(queue[..n - 1], Succeeded(queue, pass, n - 1), done, queue[n - 1]);
      TakeOneMore(queue, n);
      if pass[n - 1].succeeds { done := done + [n - 1]; }
    }
  }

  /** What is enqueued during dispatch `i` comes after what was enqueued before. */
  lemma {:induction false} ArrivedPlaces(pass: seq<Dispatch>, n: nat, i: nat, j: nat)
    requires i < n <= |pass| && j < |pass[i].arrivals|
    ensures |Arrived(pass, i)| + j < |Arrived(pass, n)|
    ensures Arrived(pass, n)[|Arrived(pass, i)| + j] == pass[i].arrivals[j]
  {
    if i < n - 1 { ArrivedPlaces(pass, n - 1, i, j); }
  }

  /** And nothing else is. */
  lemma ArrivedLength(pass: seq<Dispatch>, n: nat)
    requires n <= |pass|
    ensures |Arrived(pass, n)| == if n == 0 then 0 else |Arrived(pass, n - 1)| + |pass[n - 1].arrivals|
  {
  }

  /** What a whole pass leaves, said without counting through it. */
  lemma PassLeaves(queue: seq<Operation>, pass: seq<Dispatch>) returns (kept: seq<nat>)
    requires |queue| == |pass|
    ensures |kept| == |Failed(queue, pass, |queue|)| && |kept| <= |AfterPass(queue, pass)|
    ensures KeptFrom(queue, AfterPass(queue, pass)[..|kept|], kept)
    ensures forall i :: 0 <= i < |queue| ==> (i in kept <==> !pass[i].succeeds)
    ensures AfterPass(queue, pass)[|kept|..] == Arrived(pass, |pass|)
  {
    kept := FailedPlaces(queue, pass, |queue|);
    assert queue[..|queue|] == queue;
    assert AfterPass(queue, pass)[..|kept|] == Failed(queue, pass, |queue|);
  }

  /** The stored queue while operation `i` is about to be dispatched. */
  function During(queue: seq<Operation>, pass: seq<Dispatch>, i: nat): seq<Operation>
    requires i <= |queue| == |pass|
  {
    Failed(queue, pass, i) + queue[i..] + Arrived(pass, i)
  }

  /** What a whole pass leaves: the failed operations in their order, then the new ones in theirs. */
  function AfterPass(queue: seq<Operation>, pass: seq<Dispatch>): seq<Operation>
    requires |queue| == |pass|
  {
    Failed(queue, pass, |queue|) + Arrived(pass, |queue|)
  }

  lemma DuringEnds(queue: seq<Operation>, pass: seq<Dispatch>)
    requires |queue| == |pass|
    ensures During(queue, pass, 0) == queue
    ensures During(queue, pass, |queue|) == AfterPass(queue, pass)
  {
    assert queue[0..] == queue && queue[|queue|..] == [];
  }

  lemma DuringStep(queue: seq<Operation>, pass: seq<Dispatch>, i: nat)
    requires i < |queue| == |pass| && UniqueIds(queue + Arrived(pass, |queue|))
    ensures var stored := During(queue, pass, i) + pass[i].arrivals;
            During(queue, pass, i + 1) ==
              if pass[i].succeeds then WithoutId(stored, queue[i].id) else stored
  {
    var failed, next, arrived := Failed(queue, pass, i), queue[i + 1..], Arrived(pass, i + 1);
    DuringSplit(queue, pass, i);
    if pass[i].succeeds {
      assert Failed(queue, pass, i + 1) == failed;
      StoredOnce(queue, pass, i);
      WithoutOne(failed, queue[i], next + arrived);
      Regroup(failed, next, arrived);
    } else {
      Regroup(failed + [queue[i]], next, arrived);
    }
  }

  lemma Regroup(a: seq<Operation>, b: seq<Operation>, c: seq<Operation>)
    ensures a + b + c == a + (b + c)
  {
  }

  lemma DuringSplit(queue: seq<Operation>, pass: seq<Dispatch>, i: nat)
    requires i < |queue| == |pass|
    ensures During(queue, pass, i) + pass[i].arrivals
         == Failed(queue, pass, i) + [queue[i]] + (queue[i + 1..] + Arrived(pass, i + 1))
  {
    SplitMiddle(Failed(queue, pass, i), queue[i], queue[i + 1..], Arrived(pass, i), pass[i].arrivals);
    assert queue[i..] == [queue[i]] + queue[i + 1..];
  }

  lemma SplitMiddle(f: seq<Operation>, q: Operation, r: seq<Operation>, x: seq<Operation>, a: seq<Operation>)
    ensures f + ([q] + r) + x + a == f + [q] + (r + (x + a))
  {
  }

  // ── Whole runs ────────────────────────────────────────────────────────────────────────────

  datatype Action = Enqueued(op: Operation) | Synced(pass: seq<Dispatch>) | Cleared

  /** The stored queue, and all operations ever enqueued, dispatched with success, or cleared away. */
  datatype Run = Run(ops: seq<Operation>, entered: seq<Operation>, dispatched: seq<Operation>, discarded: seq<Operation>)

  /** A pass dispatches each queued operation once. */
  predicate Possible(run: Run, action: Action) {
    action.Synced? ==> |action.pass| == |run.ops|
  }

  predicate Actions(actions: seq<Action>)
    decreases |actions|, 0
  {
    actions == [] ||
    (Actions(actions[..|actions| - 1]) && Possible(After(actions[..|actions| - 1]), actions[|actions| - 1]))
  }

  function After(actions: seq<Action>): Run
    requires Actions(actions)
    decreases |actions|, 1
  {
    if actions == [] then Run([], [], [], [])
    else Step(After(actions[..|actions| - 1]), actions[|actions| - 1])
  }

  function Step(run: Run, action: Action): Run
    requires Possible(run, action)
  {
    match action
    case Enqueued(op) => run.(ops := run.ops + [op], entered := run.entered + [op])
    case Cleared => run.(ops := [], discarded := run.discarded + run.ops)
    case Synced(pass) =>
      run.(
        ops := AfterPass(run.ops, pass),
        entered := run.entered + Arrived(pass, |run.ops|),
        dispatched := run.dispatched + Succeeded(run.ops, pass, |run.ops|))
  }

  ghost predicate Conserved(run: Run) {
    multiset(run.entered) == multiset(run.ops) + multiset(run.dispatched) + multiset(run.discarded)
  }

  lemma PassConserves(run: Run, pass: seq<Dispatch>)
    requires |pass| == |run.ops| && Conserved(run)
    ensures Conserved(Step(run, Synced(pass)))
  {
    FailedWithin(run.ops, pass, |run.ops|);
    assert run.ops[..|run.ops|] == run.ops;
  }

  lemma StepConserves(run: Run, action: Action)
    requires Possible(run, action) && Conserved(run)
    ensures Conserved(Step(run, action))
  {
    if action.Synced? { PassConserves(run, action.pass); }
  }

  /** Through any mix of enqueueing, passes and clearing, nothing is lost or duplicated. */
  lemma {:induction false} RunConserves(actions: seq<Action>)
    requires Actions(actions)
    ensures Conserved(After(actions))
  {
    if actions != [] {
      RunConserves(actions[..|actions| - 1]);
      StepConserves(After(actions[..|actions| - 1]), actions[|actions| - 1]);
    }
  }

  lemma {:induction false} UniqueIsDistinct(ops: seq<Operation>)
    requires UniqueIds(ops)
    ensures DistinctIds(multiset(ops))
  {
    if ops != [] {
      var front, last := ops[..|ops| - 1], ops[|ops| - 1];
      assert ops == front + [last];
      UniqueIsDistinct(front);
      assert forall o :: o in multiset(front) ==> o in front && o.id != last.id;
    }
  }

  /** If no id is ever reused, a pass always finds the unique ids it relies on. */
  lemma PassFindsUniqueIds(actions: seq<Action>, arrived: seq<Operation>)
    requires Actions(actions) && UniqueIds(After(actions).entered + arrived)
    ensures UniqueIds(After(actions).ops + arrived)
  {
    var run := After(actions);
    RunConserves(actions);
    UniqueIsDistinct(run.entered + arrived);
    PartDistinct(multiset(run.ops + arrived), multiset(run.entered + arrived));
    DistinctIsUnique(run.ops + arrived);
  }

  /** Operations shared out among three lists: in at least one of them, and with unique ids in
      only one. */
  lemma InOneOfThree(all: seq<Operation>, a: seq<Operation>, b: seq<Operation>, c: seq<Operation>)
    requires multiset(all) == multiset(a) + multiset(b) + multiset(c) && DistinctIds(multiset(all))
    ensures forall o :: o in all ==> o in a || o in b || o in c
    ensures forall o, p :: o in a && p in b ==> o.id != p.id
  {
    forall o | o in all
      ensures o in a || o in b || o in c
    {
      assert multiset(all)[o] == multiset(a)[o] + multiset(b)[o] + multiset(c)[o];
    }
    forall o, p | o in a && p in b
      ensures o.id != p.id
    {
      assert multiset(all)[o] == multiset(a)[o] + multiset(b)[o] + multiset(c)[o];
      assert multiset(all)[p] == multiset(a)[p] + multiset(b)[p] + multiset(c)[p];
      assert multiset(a)[o] > 0 && multiset(b)[p] > 0;
    }
  }

  /** If no id is ever reused, over all passes of a run every operation succeeds at most once and is
      then no longer queued, and one that neither succeeded nor was cleared away is still queued. */
  lemma SucceedsAtMostOnce(actions: seq<Action>)
    requires Actions(actions) && UniqueIds(After(actions).entered)
    ensures UniqueIds(After(actions).dispatched)
    ensures forall o, p :: o in After(actions).ops && p in After(actions).dispatched ==> o.id != p.id
    ensures forall o :: o in After(actions).entered ==>
              o in After(actions).ops || o in After(actions).dispatched || o in After(actions).discarded
  {
    var run := After(actions);
    RunConserves(actions);
    UniqueIsDistinct(run.entered);
    PartDistinct(multiset(run.dispatched), multiset(run.entered));
    DistinctIsUnique(run.dispatched);
    InOneOfThree(run.entered, run.ops, run.dispatched, run.discarded);
  }

  lemma ActionsAppend(actions: seq<Action>, action: Action)
    requires Actions(actions) && Possible(After(actions), action)
    ensures Actions(actions + [action]) && After(actions + [action]) == Step(After(actions), action)
  {
    assert (actions + [action])[..|actions|] == actions;
  }

  lemma UniqueAppend(ops: seq<Operation>, op: Operation)
    requires UniqueIds(ops) && Absent(ops, op.id)
    ensures UniqueIds(ops + [op])
  {
    assert (ops + [op])[..|ops|] == ops;
  }

  // ── The code ──────────────────────────────────────────────────────────────────────────────

  datatype SyncState = Idle | Success | Error

  class Queue {
    var ops: seq<Operation>
    var conflictCount: nat
    var syncState: SyncState
    /** All that was ever done. */
    ghost var actions: seq<Action>

    /** The stored queue is what the run has left, and no id was ever reused. */
    ghost predicate Valid()
      reads this
    {
      Actions(actions) && After(actions).ops == ops && UniqueIds(After(actions).entered)
    }

    constructor ()
      ensures Valid() && ops == [] && actions == []
    {
      ops, conflictCount, syncState, actions := [], 0, Idle, [];
    }

    /** `op` carries a random id, one never used before. */
    method Enqueue(op: Operation)
      requires Valid() && Absent(After(actions).entered, op.id)
      modifies this`ops, this`actions
      ensures Valid() && ops == old(ops) + [op] && actions == old(actions) + [Enqueued(op)]
    {
      ActionsAppend(actions, Enqueued(op));
      UniqueAppend(After(actions).entered, op);
      ops, actions := ops + [op], actions + [Enqueued(op)];
    }

    method Clear()
      requires Valid()
      modifies this`ops, this`actions
      ensures Valid() && ops == [] && actions == old(actions) + [Cleared]
    {
      ActionsAppend(actions, Cleared);
      ops, actions := [], actions + [Cleared];
    }

    /** A step of a pass, the only caller. Keeps exactly the operations without the id, at positions
        `kept`, in the order they had. */
    method Dequeue(id: string) returns (ghost kept: seq<nat>)
      modifies this`ops
      ensures KeptFrom(old(ops), ops, kept)
      ensures forall i :: 0 <= i < |old(ops)| ==> (i in kept <==> old(ops)[i].id != id)
      ensures ops == WithoutId(old(ops), id)
    {
      kept := WithoutIdKeeps(ops, id);
      ops := WithoutId(ops, id);
    }

    /** One pass over a fresh copy of the queue, operation `i` being dispatched as `pass[i]` says. What
        is enqueued meanwhile carries new ids. */
    method HandleSync(isOnline: bool, pass: seq<Dispatch>)
      requires Valid() && |pass| == |ops| && UniqueIds(After(actions).entered + Arrived(pass, |ops|))
      modifies this
      ensures Valid()
      ensures !isOnline || old(ops) == [] ==>
                ops == old(ops) && conflictCount == old(conflictCount) && syncState == old(syncState)
                && actions == old(actions)
      ensures isOnline && old(ops) != [] ==>
                && ops == AfterPass(old(ops), pass)
                && conflictCount == |Failed(old(ops), pass, |old(ops)|)|
                && syncState == (if conflictCount > 0 then Error else Success)
                && actions == old(actions) + [Synced(pass)]
    {
      if isOnline && ops != [] {
        PassFindsUniqueIds(actions, Arrived(pass, |ops|));
        ActionsAppend(actions, Synced(pass));
        var conflicts := ReplayAll(ops, pass);
        actions := actions + [Synced(pass)];
        conflictCount := conflicts;
        syncState := if conflicts > 0 then Error else Success;
      }
    }

    method ReplayAll(queue: seq<Operation>, pass: seq<Dispatch>)
      returns (conflicts: nat)
      requires queue == ops && |pass| == |queue| && UniqueIds(queue + Arrived(pass, |queue|))
      modifies this`ops
      ensures ops == AfterPass(queue, pass)
      ensures conflicts == |Failed(queue, pass, |queue|)|
    {
      conflicts := 0;
      DuringEnds(queue, pass);
      for i := 0 to |queue|
        invariant ops == During(queue, pass, i)
        invariant conflicts == |Failed(queue, pass, i)|
      {
        DuringStep(queue, pass, i);
        ops := ops + pass[i].arrivals;
        if pass[i].succeeds {
          var _ := Dequeue(queue[i].id);
        } else {
          conflicts := conflicts + 1;
        }
      }
    }
  }
}
