/** The worker pool's sizing rules, its claim step and the listener's admission
    test (server.py, classes Pool, Worker and Server), stated as functions over
    plain values. The Pool class in module WorkerPool runs the resize and
    claim rules step by step and is proved to compute these functions. */
module PoolPolicy {
  import opened Wrappers

  /** Fewest workers at start and at any point. */
  const MIN_THREADS: nat := 4
  /** Most workers the pool ever spawns. */
  const MAX_THREADS: nat := 32
  /** Smallest gap between queue length and worker count that triggers a resize. */
  const TOLERANCE: nat := 4

  /** An accepted socket, known by its descriptor. */
  datatype Conn = Conn(fd: nat)

  /** A worker thread as the pool sees it: its number, the connection it is
      serving (None while idle) and whether it has been told to exit. */
  datatype Worker = Worker(id: nat, conn: Option<Conn>, useless: bool)

  function NewWorker(id: nat): (w: Worker)
  {
    Worker(id, None, false)
  }

  function Abs(x: int): (r: nat)
  {
    if x < 0 then -x else x
  }

  function Min(a: int, b: int): (m: int)
  {
    if a <= b then a else b
  }

  function Max(a: int, b: int): (m: int)
  {
    if a <= b then b else a
  }

  predicate IdsIncreasing(ws: seq<Worker>)
  {
    forall i, j :: 0 <= i < j < |ws| ==> ws[i].id < ws[j].id
  }

  predicate IdsBelow(ws: seq<Worker>, counter: nat)
  {
    forall i :: 0 <= i < |ws| ==> ws[i].id < counter
  }

  /** What holds of the pool's worker list between two locked sections: the
      size stays within bounds, ids are unique and in spawn order, every id was
      handed out by the counter, and no listed worker has been told to exit. */
  predicate Registry(ws: seq<Worker>, counter: nat)
  {
    && MIN_THREADS <= |ws| <= MAX_THREADS
    && IdsIncreasing(ws)
    && IdsBelow(ws, counter)
    && forall i :: 0 <= i < |ws| ==> !ws[i].useless
  }

  /** `a` is `b` with some elements deleted, the rest in their original order. */
  predicate Sub<T(==)>(a: seq<T>, b: seq<T>)
    decreases |b|
  {
    if b == [] then a == []
    else (a != [] && a[0] == b[0] && Sub(a[1..], b[1..])) || Sub(a, b[1..])
  }

  lemma {:induction false} SubKeepsOrder(a: seq<Worker>, b: seq<Worker>)
    requires Sub(a, b) && IdsIncreasing(b)
    ensures IdsIncreasing(a)
    ensures forall x :: x in a ==> x in b
    decreases |b|
  {
    if b != [] {
      if a != [] && a[0] == b[0] && Sub(a[1..], b[1..]) {
        SubKeepsOrder(a[1..], b[1..]);
        forall x | x in a ensures x in b {
          if x != a[0] { assert x in a[1..]; }
        }
        forall i, j | 0 <= i < j < |a| ensures a[i].id < a[j].id {
          if i > 0 {
            assert a[i] == a[1..][i - 1] && a[j] == a[1..][j - 1];
          } else {
            assert a[j] in b[1..] by { assert a[j] == a[1..][j - 1]; }
          }
        }
      } else {
        SubKeepsOrder(a, b[1..]);
      }
    }
  }

  // ---------------------------------------------------------------- growing

  /** The spawning loop of assignClient: up to `n` rounds, each appending a
      fresh idle worker numbered by the counter, stopping once the list holds
      MAX_THREADS workers. Returns the new list and the new counter. */
  function Spawn(ws: seq<Worker>, counter: nat, n: nat): (r: (seq<Worker>, nat))
    ensures |ws| <= |r.0| && r.0[..|ws|] == ws
    ensures |r.0| == if |ws| >= MAX_THREADS then |ws| else Min(|ws| + n, MAX_THREADS)
    ensures r.1 == counter + (|r.0| - |ws|)
    ensures forall j :: |ws| <= j < |r.0| ==> r.0[j] == NewWorker(counter + (j - |ws|))
    decreases n
  {
    if n == 0 || |ws| >= MAX_THREADS then (ws, counter)
    else
      var r := Spawn(ws + [NewWorker(counter)], counter + 1, n - 1);
      assert r.0[..|ws|] == r.0[..|ws| + 1][..|ws|];
      r
  }

  // -------------------------------------------------------------- shrinking

  /** killWorker's test for one worker: the list as it was before the
      comprehension (`oldLen`) minus those already retired must stay above
      MIN_THREADS, fewer than `maxKill` may have been retired, and the worker
      must be idle. */
  predicate MayRetire(oldLen: nat, maxKill: nat, killed: nat, w: Worker)
  {
    oldLen - killed > MIN_THREADS && killed < maxKill && w.conn == None
  }

  /** The comprehension `[w for w in workers if not killWorker(w)]`, walked
      left to right with `killed` retirements so far. Returns the kept workers
      and the removed ones, both as they were before removal. */
  function Cull(ws: seq<Worker>, oldLen: nat, maxKill: nat, killed: nat): (r: (seq<Worker>, seq<Worker>))
    decreases |ws|
  {
    if ws == [] then ([], [])
    else if MayRetire(oldLen, maxKill, killed, ws[0]) then
      var r := Cull(ws[1..], oldLen, maxKill, killed + 1);
      (r.0, [ws[0]] + r.1)
    else
      var r := Cull(ws[1..], oldLen, maxKill, killed);
      ([ws[0]] + r.0, r.1)
  }

  /** The comprehension splits the list in two order-preserving parts; it
      removes only idle workers, at most the budget left, and never takes the
      list (as measured before the filter) below MIN_THREADS. */
  lemma {:induction false} CullSplits(ws: seq<Worker>, oldLen: nat, maxKill: nat, killed: nat)
    ensures var r := Cull(ws, oldLen, maxKill, killed);
      && |r.0| + |r.1| == |ws|
      && multiset(r.0) + multiset(r.1) == multiset(ws)
      && Sub(r.0, ws) && Sub(r.1, ws)
      && (forall w :: w in r.1 ==> w.conn == None)
      && (killed <= maxKill ==> killed + |r.1| <= maxKill)
      && (|r.1| > 0 ==> killed + |r.1| + MIN_THREADS <= oldLen)
    decreases |ws|
  {
    if ws != [] {
      assert ws == [ws[0]] + ws[1..];
      if MayRetire(oldLen, maxKill, killed, ws[0]) {
        CullSplits(ws[1..], oldLen, maxKill, killed + 1);
        var r := Cull(ws[1..], oldLen, maxKill, killed + 1);
        assert ([ws[0]] + r.1)[1..] == r.1;
      } else {
        CullSplits(ws[1..], oldLen, maxKill, killed);
        var r := Cull(ws[1..], oldLen, maxKill, killed);
        assert ([ws[0]] + r.0)[1..] == r.0;
      }
    }
  }

  /** One step of the comprehension, taken at position `i` of the list. */
  lemma CullUnfold(ws: seq<Worker>, i: nat, oldLen: nat, maxKill: nat, killed: nat)
    requires i < |ws|
    ensures Cull(ws[i..], oldLen, maxKill, killed)
         == if MayRetire(oldLen, maxKill, killed, ws[i])
            then (Cull(ws[i + 1..], oldLen, maxKill, killed + 1).0,
                  [ws[i]] + Cull(ws[i + 1..], oldLen, maxKill, killed + 1).1)
            else ([ws[i]] + Cull(ws[i + 1..], oldLen, maxKill, killed).0,
                  Cull(ws[i + 1..], oldLen, maxKill, killed).1)
  {
    assert ws[i..][1..] == ws[i + 1..];
  }

  /** A busy worker is never removed. */
  lemma CullKeepsBusy(ws: seq<Worker>, oldLen: nat, maxKill: nat, killed: nat, w: Worker)
    requires w in ws && w.conn != None
    ensures w in Cull(ws, oldLen, maxKill, killed).0
  {
    var r := Cull(ws, oldLen, maxKill, killed);
    CullSplits(ws, oldLen, maxKill, killed);
    assert w !in r.1;
    assert multiset(ws)[w] > 0;
  }

  function IdleCount(ws: seq<Worker>): (n: nat)
    ensures n <= |ws|
  {
    if ws == [] then 0 else (if ws[0].conn == None then 1 else 0) + IdleCount(ws[1..])
  }

  /** Retirements still allowed: limited by maxKill and by the floor MIN_THREADS. */
  function Quota(oldLen: nat, maxKill: nat, killed: nat): (q: nat)
  {
    Max(0, Min(maxKill - killed, oldLen - killed - MIN_THREADS))
  }

  /** The comprehension is greedy: it retires as many idle workers as the
      quota allows, no fewer. */
  lemma {:induction false} CullRetiresGreedily(ws: seq<Worker>, oldLen: nat, maxKill: nat, killed: nat)
    ensures |Cull(ws, oldLen, maxKill, killed).1| == Min(IdleCount(ws), Quota(oldLen, maxKill, killed))
    decreases |ws|
  {
    if ws != [] {
      if MayRetire(oldLen, maxKill, killed, ws[0]) {
        CullRetiresGreedily(ws[1..], oldLen, maxKill, killed + 1);
      } else {
        CullRetiresGreedily(ws[1..], oldLen, maxKill, killed);
      }
    }
  }

  /** killWorker sets `useless` on every worker it removes. */
  function MarkUseless(ws: seq<Worker>): (r: seq<Worker>)
    ensures |r| == |ws|
    ensures forall i :: 0 <= i < |ws| ==> r[i] == ws[i].(useless := true)
  {
    seq(|ws|, i requires 0 <= i < |ws| => ws[i].(useless := true))
  }

  // ---------------------------------------------------------------- resizing

  /** The worker list, counter and retired workers after assignClient. */
  datatype Resized = Resized(workers: seq<Worker>, counter: nat, retired: seq<Worker>)

  /** The growing branch of assignClient: spawn up to `difference` workers. */
  function Grow(ws: seq<Worker>, counter: nat, difference: nat): (r: Resized)
    ensures |ws| <= |r.workers| && r.workers[..|ws|] == ws && r.retired == []
    ensures |r.workers| == (if |ws| >= MAX_THREADS then |ws| else Min(|ws| + difference, MAX_THREADS))
    ensures r.counter == counter + (|r.workers| - |ws|)
    ensures forall w :: w in ws ==> w in r.workers
  {
    var (grown, counter') := Spawn(ws, counter, difference);
    forall w | w in ws ensures w in grown {
      var k :| 0 <= k < |ws| && ws[k] == w;
      assert grown[k] == grown[..|ws|][k];
    }
    Resized(grown, counter', [])
  }

  /** The shrinking branch of assignClient: retire up to `maxKill` idle workers,
      each marked useless, judging the floor against the list as it was. */
  function Shrink(ws: seq<Worker>, counter: nat, maxKill: nat): (r: Resized)
    ensures r.counter == counter
    ensures |r.workers| + |r.retired| == |ws|
    ensures |r.retired| <= maxKill
    ensures r.retired != [] ==> |r.workers| >= MIN_THREADS
    ensures Sub(r.workers, ws)
    ensures forall w :: w in r.retired ==> w.useless && w.conn == None
    ensures forall w :: w in ws && w.conn != None ==> w in r.workers
  {
    var (kept, removed) := Cull(ws, |ws|, maxKill, 0);
    CullSplits(ws, |ws|, maxKill, 0);
    forall w | w in ws && w.conn != None ensures w in kept {
      CullKeepsBusy(ws, |ws|, maxKill, 0, w);
    }
    var retired := MarkUseless(removed);
    forall w | w in retired ensures w.useless && w.conn == None {
      var k :| 0 <= k < |retired| && retired[k] == w;
      assert removed[k] in removed;
    }
    Resized(kept, counter, retired)
  }

  /** With strictly increasing ids, no worker occurs twice in the list. */
  lemma {:induction false} IdsIncreasingOnce(ws: seq<Worker>, x: Worker)
    requires IdsIncreasing(ws)
    ensures multiset(ws)[x] <= 1
    decreases |ws|
  {
    if ws != [] {
      assert ws == [ws[0]] + ws[1..];
      assert IdsIncreasing(ws[1..]) by {
        forall i, j | 0 <= i < j < |ws[1..]| ensures ws[1..][i].id < ws[1..][j].id {
          assert ws[1..][i] == ws[i + 1] && ws[1..][j] == ws[j + 1];
        }
      }
      IdsIncreasingOnce(ws[1..], x);
      if x == ws[0] {
        forall k | 0 <= k < |ws[1..]| ensures ws[1..][k] != x {
          assert ws[1..][k] == ws[k + 1];
        }
        assert x !in ws[1..];
      }
    }
  }

  /** The retired workers are exactly the workers the filter took out of the
      list, each with its `useless` flag set: every retired worker, unmarked,
      was listed and is no longer, and every listed worker either stays or
      comes back among the retired with the flag set. */
  lemma ShrinkRetiresFromList(ws: seq<Worker>, counter: nat, maxKill: nat)
    requires IdsIncreasing(ws)
    requires forall i :: 0 <= i < |ws| ==> !ws[i].useless
    ensures forall w :: w in Shrink(ws, counter, maxKill).retired ==>
              w.(useless := false) in ws && w.(useless := false) !in Shrink(ws, counter, maxKill).workers
    ensures forall v :: v in ws ==>
              v in Shrink(ws, counter, maxKill).workers || v.(useless := true) in Shrink(ws, counter, maxKill).retired
  {
    var c := Cull(ws, |ws|, maxKill, 0);
    CullSplits(ws, |ws|, maxKill, 0);
    PartitionOfDistinct(ws, c.0, c.1);
    var r := Shrink(ws, counter, maxKill);
    assert r.workers == c.0 && r.retired == MarkUseless(c.1);
    forall w | w in r.retired ensures w.(useless := false) in ws && w.(useless := false) !in r.workers {
      var k :| 0 <= k < |r.retired| && r.retired[k] == w;
      assert w.(useless := false) == c.1[k];
    }
    forall v | v in ws ensures v in r.workers || v.(useless := true) in r.retired {
      if v !in c.0 {
        var k :| 0 <= k < |c.1| && c.1[k] == v;
        assert r.retired[k] == v.(useless := true);
      }
    }
  }

  /** Splitting a list of distinct, unflagged workers into two parts whose
      multisets add up: each removed worker is unflagged, came from the list
      and is not among the kept, and each listed worker lands in one part. */
  lemma PartitionOfDistinct(ws: seq<Worker>, kept: seq<Worker>, removed: seq<Worker>)
    requires IdsIncreasing(ws)
    requires forall i :: 0 <= i < |ws| ==> !ws[i].useless
    requires multiset(kept) + multiset(removed) == multiset(ws)
    ensures forall k :: 0 <= k < |removed| ==> !removed[k].useless && removed[k] in ws && removed[k] !in kept
    ensures forall v :: v in ws ==> v in kept || v in removed
  {
    forall k | 0 <= k < |removed| ensures !removed[k].useless && removed[k] in ws && removed[k] !in kept {
      var v := removed[k];
      assert v in multiset(removed);
      assert multiset(ws)[v] == multiset(kept)[v] + multiset(removed)[v];
      assert v in multiset(ws);
      assert v in ws;
      IdsIncreasingOnce(ws, v);
    }
    forall v | v in ws ensures v in kept || v in removed {
      assert multiset(ws)[v] > 0;
    }
  }

  /** assignClient's resize, given the queue length after the append. */
  function Rebalance(queueLen: nat, ws: seq<Worker>, counter: nat): (r: Resized)
    // hysteresis: a gap of at most TOLERANCE changes nothing
    ensures Abs(queueLen - |ws|) <= TOLERANCE ==> r == Resized(ws, counter, [])
    // growing keeps every worker, adds at most the gap, never passes MAX_THREADS
    ensures queueLen > |ws| + TOLERANCE ==>
              && |ws| <= |r.workers| && r.workers[..|ws|] == ws && r.retired == []
              && |r.workers| == (if |ws| >= MAX_THREADS then |ws| else Min(queueLen, MAX_THREADS))
              && r.counter == counter + (|r.workers| - |ws|)
    // shrinking removes at most the gap, never below MIN_THREADS, only idle workers
    ensures queueLen + TOLERANCE < |ws| ==>
              && r.counter == counter
              && |r.workers| + |r.retired| == |ws|
              && |r.retired| <= |ws| - queueLen
              && (r.retired != [] ==> |r.workers| >= MIN_THREADS)
              && Sub(r.workers, ws)
    ensures forall w :: w in r.retired ==> w.useless && w.conn == None
    ensures forall w :: w in ws && w.conn != None ==> w in r.workers
  {
    var difference := queueLen - |ws|;
    if Abs(difference) <= TOLERANCE then Resized(ws, counter, [])
    else if difference > 0 then Grow(ws, counter, difference)
    else Shrink(ws, counter, -difference)
  }

  /** On a well-formed registry, every resize retires only workers taken out
      of the list, and no listed worker disappears without being retired. */
  lemma RebalanceRetiresFromList(queueLen: nat, ws: seq<Worker>, counter: nat)
    requires Registry(ws, counter)
    ensures forall w :: w in Rebalance(queueLen, ws, counter).retired ==>
              w.(useless := false) in ws && w.(useless := false) !in Rebalance(queueLen, ws, counter).workers
    ensures forall v :: v in ws ==>
              v in Rebalance(queueLen, ws, counter).workers
              || v.(useless := true) in Rebalance(queueLen, ws, counter).retired
  {
    if queueLen + TOLERANCE < |ws| {
      ShrinkRetiresFromList(ws, counter, |ws| - queueLen);
    }
  }

  /** Shrinking retires exactly min(idle workers, gap, workers above the floor). */
  lemma ShrinkCount(queueLen: nat, ws: seq<Worker>, counter: nat)
    requires queueLen + TOLERANCE < |ws|
    ensures |Rebalance(queueLen, ws, counter).retired|
         == Min(IdleCount(ws), Min(|ws| - queueLen, |ws| - MIN_THREADS))
  {
    CullRetiresGreedily(ws, |ws|, |ws| - queueLen, 0);
    assert Rebalance(queueLen, ws, counter).retired == MarkUseless(Cull(ws, |ws|, |ws| - queueLen, 0).1);
  }

  /** Every resize keeps the registry well formed: between MIN_THREADS and
      MAX_THREADS workers, unique ids in spawn order, all below the counter. */
  lemma RebalanceKeepsRegistry(queueLen: nat, ws: seq<Worker>, counter: nat)
    requires Registry(ws, counter)
    ensures Registry(Rebalance(queueLen, ws, counter).workers, Rebalance(queueLen, ws, counter).counter)
  {
    var r := Rebalance(queueLen, ws, counter);
    var difference := queueLen - |ws|;
    if Abs(difference) <= TOLERANCE {
    } else if difference > 0 {
      var g := r.workers;
      forall i, j | 0 <= i < j < |g| ensures g[i].id < g[j].id {
        if j < |ws| {
          assert g[i] == ws[i] && g[j] == ws[j] by { assert g[..|ws|] == ws; }
        } else if i < |ws| {
          assert g[i] == g[..|ws|][i];
        }
      }
      forall i | 0 <= i < |g| ensures g[i].id < r.counter && !g[i].useless {
        if i < |ws| { assert g[i] == g[..|ws|][i]; }
      }
    } else {
      SubKeepsOrder(r.workers, ws);
      forall i | 0 <= i < |r.workers| ensures r.workers[i].id < counter && !r.workers[i].useless {
        assert r.workers[i] in ws;
      }
    }
  }

  // ------------------------------------------------------------ claim step

  /** The guard of the claim step: a queued connection exists and neither the
      pool nor this worker has been asked to stop. */
  predicate CanClaim(queue: seq<Conn>, w: Worker, killRequested: bool)
  {
    |queue| > 0 && !(killRequested || w.useless)
  }

  /** One claim attempt: pop the oldest queued connection into the worker. */
  function ClaimStep(queue: seq<Conn>, w: Worker, killRequested: bool): (r: (seq<Conn>, Worker))
    ensures r.1.id == w.id && r.1.useless == w.useless
    ensures CanClaim(queue, w, killRequested) ==> [queue[0]] + r.0 == queue && r.1.conn == Some(queue[0])
    ensures !CanClaim(queue, w, killRequested) ==> r == (queue, w)
  {
    if CanClaim(queue, w, killRequested) then (queue[1..], w.(conn := Some(queue[0]))) else (queue, w)
  }

  /** Workers, in the order given, each running one claim attempt. */
  function ClaimInTurn(queue: seq<Conn>, ws: seq<Worker>, killRequested: bool): (r: (seq<Conn>, seq<Worker>))
    decreases |ws|
  {
    if ws == [] then (queue, [])
    else
      var (q, w) := ClaimStep(queue, ws[0], killRequested);
      var (q', rest) := ClaimInTurn(q, ws[1..], killRequested);
      (q', [w] + rest)
  }

  /** FIFO: the k-th successful claim gets the k-th queued connection, and the
      queue loses exactly its first k entries. */
  lemma {:induction false} ClaimsFollowArrivalOrder(queue: seq<Conn>, ws: seq<Worker>)
    requires |ws| <= |queue|
    requires forall i :: 0 <= i < |ws| ==> !ws[i].useless
    ensures ClaimInTurn(queue, ws, false).0 == queue[|ws|..]
    ensures |ClaimInTurn(queue, ws, false).1| == |ws|
    ensures forall i :: 0 <= i < |ws| ==> ClaimInTurn(queue, ws, false).1[i] == ws[i].(conn := Some(queue[i]))
    decreases |ws|
  {
    if ws != [] {
      var (q, w) := ClaimStep(queue, ws[0], false);
      assert q == queue[1..];
      ClaimsFollowArrivalOrder(q, ws[1..]);
      var r := ClaimInTurn(queue, ws, false);
      forall i | 0 <= i < |ws| ensures r.1[i] == ws[i].(conn := Some(queue[i])) {
        if i > 0 {
          assert r.1[i] == ClaimInTurn(q, ws[1..], false).1[i - 1];
          assert ws[1..][i - 1] == ws[i] && q[i - 1] == queue[i];
        }
      }
    }
  }

  /** Once a stop is requested, no claim takes anything. */
  lemma {:induction false} NoClaimAfterKill(queue: seq<Conn>, ws: seq<Worker>)
    ensures ClaimInTurn(queue, ws, true) == (queue, ws)
    decreases |ws|
  {
    if ws != [] {
      NoClaimAfterKill(queue, ws[1..]);
      assert [ws[0]] + ws[1..] == ws;
    }
  }

  // -------------------------------------------------------------- admission

  /** The listener's overload test: a new connection is closed when more than
      MAX_THREADS connections are already waiting. */
  predicate Admits(queueLen: nat)
  {
    queueLen <= MAX_THREADS
  }

  /** The queue after a burst of arrivals with no worker claiming in between. */
  function AdmitAll(queue: seq<Conn>, arrivals: seq<Conn>): (q: seq<Conn>)
    decreases |arrivals|
  {
    if arrivals == [] then queue
    else AdmitAll(if Admits(|queue|) then queue + [arrivals[0]] else queue, arrivals[1..])
  }

  /** Admission caps the queue at MAX_THREADS + 1: the earliest arrivals are
      queued in order, the rest are turned away. */
  lemma {:induction false} AdmissionCapsQueue(queue: seq<Conn>, arrivals: seq<Conn>)
    requires |queue| <= MAX_THREADS + 1
    ensures |AdmitAll(queue, arrivals)| == Min(|queue| + |arrivals|, MAX_THREADS + 1)
    ensures AdmitAll(queue, arrivals) == queue + arrivals[..|AdmitAll(queue, arrivals)| - |queue|]
    decreases |arrivals|
  {
    if arrivals != [] {
      var q := if Admits(|queue|) then queue + [arrivals[0]] else queue;
      AdmissionCapsQueue(q, arrivals[1..]);
      var r := AdmitAll(queue, arrivals);
      if Admits(|queue|) {
        assert arrivals[..|r| - |queue|] == [arrivals[0]] + arrivals[1..][..|r| - |q|];
      } else {
        assert arrivals[..0] == [];
      }
    }
  }
}
