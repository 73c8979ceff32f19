/** The shared pool object of server.py: the connection queue, the worker list
    and the spawn counter, updated in place under the pool lock. Every method
    is one locked section of the source, run without interleaving. The resize,
    claim and admission methods are proved to compute the matching functions
    of module PoolPolicy, and Serve the function Respond of module Protocol. */
module WorkerPool {
  import opened Wrappers
  import opened PoolPolicy
  import opened Protocol

  class Pool {
    /** Accepted connections not yet claimed, oldest first. */
    var clients: seq<Conn>
    /** The registered worker threads. */
    var workers: seq<Worker>
    /** The id the next spawned worker gets. */
    var threadCounter: nat
    /** Set by KILL_SERVICE; every loop of the server stops on it. */
    var killRequested: bool
    /** Retirement budget of the current shrink. */
    var maxKill: nat
    /** Retirements made so far in the current shrink. */
    var killedSoFar: nat

    ghost predicate Valid()
      reads this
    {
      Registry(workers, threadCounter)
    }

    /** Pool.__init__: an empty queue and MIN_THREADS idle workers numbered
        from zero. */
    constructor ()
      ensures Valid()
      ensures clients == [] && !killRequested
      ensures |workers| == MIN_THREADS && threadCounter == MIN_THREADS
      ensures forall i :: 0 <= i < |workers| ==> workers[i] == NewWorker(i)
    {
      clients := [];
      workers := [];
      threadCounter := 0;
      killRequested := false;
      maxKill, killedSoFar := 0, 0;
      new;
      var counter := 0;
      while counter < MIN_THREADS
        invariant counter <= MIN_THREADS
        invariant clients == [] && !killRequested
        invariant |workers| == counter && threadCounter == counter
        invariant forall i :: 0 <= i < counter ==> workers[i] == NewWorker(i)
      {
        workers := workers + [NewWorker(threadCounter)];
        threadCounter := threadCounter + 1;
        counter := counter + 1;
      }
    }

    /** Pool.killWorker: the filter's test for one worker, which retires it
        (marks it useless and counts it) when MayRetire allows. It measures
        the list as it stood before the filter began. */
    method KillWorker(w: Worker) returns (retire: bool, marked: Worker)
      modifies this`killedSoFar
      ensures retire == MayRetire(|workers|, maxKill, old(killedSoFar), w)
      ensures killedSoFar == if retire then old(killedSoFar) + 1 else old(killedSoFar)
      ensures marked == if retire then w.(useless := true) else w
    {
      if |workers| - killedSoFar <= MIN_THREADS {
        return false, w;
      }
      if killedSoFar >= maxKill {
        return false, w;
      }
      if w.conn == None {
        killedSoFar := killedSoFar + 1;
        return true, w.(useless := true);
      }
      return false, w;
    }

    /** Pool.assignClient: queue the connection at the back, then resize the
        worker list when the gap to the queue length exceeds TOLERANCE.
        Returns the workers told to exit; they leave the list but their
        threads run on until they next look at their flag. */
    method AssignClient(conn: Conn) returns (retired: seq<Worker>)
      requires Valid()
      modifies this
      ensures Valid()
      ensures clients == old(clients) + [conn]
      ensures killRequested == old(killRequested)
      ensures Resized(workers, threadCounter, retired) == Rebalance(|clients|, old(workers), old(threadCounter))
    {
      clients := clients + [conn];
      retired := [];
      var difference := |clients| - |workers|;
      RebalanceKeepsRegistry(|clients|, workers, threadCounter);
      if Abs(difference) > TOLERANCE {
        if difference > 0 {
          SpawnWorkers(difference);
        } else {
          retired := RetireIdleWorkers(Abs(difference));
        }
      }
    }

    /** The spawning loop of assignClient: up to `difference` rounds, each
        appending a fresh worker, leaving the loop once MAX_THREADS are listed. */
    method SpawnWorkers(difference: nat)
      modifies this`workers, this`threadCounter
      ensures Resized(workers, threadCounter, []) == Grow(old(workers), old(threadCounter), difference)
    {
      var counter := 0;
      while counter < difference
        invariant 0 <= counter <= difference
        invariant Spawn(workers, threadCounter, difference - counter)
               == Spawn(old(workers), old(threadCounter), difference)
      {
        if |workers| >= MAX_THREADS {
          break;
        }
        workers := workers + [NewWorker(threadCounter)];
        threadCounter := threadCounter + 1;
        counter := counter + 1;
      }
    }

    /** The shrinking branch of assignClient: set the budget, then filter the
        list through KillWorker, keeping the workers it refuses. The list is
        replaced only after the filter has seen every worker. */
    method RetireIdleWorkers(budget: nat) returns (retired: seq<Worker>)
      modifies this`workers, this`maxKill, this`killedSoFar
      ensures Resized(workers, threadCounter, retired) == Shrink(old(workers), threadCounter, budget)
    {
      maxKill := budget;
      killedSoFar := 0;
      retired := [];
      var kept: seq<Worker> := [];
      ghost var removed: seq<Worker> := [];
      var i := 0;
      assert workers[i..] == workers;
      ghost var whole := Cull(workers, |workers|, maxKill, 0);
      assert kept + whole.0 == whole.0 && removed + whole.1 == whole.1;
      while i < |workers|
        invariant 0 <= i <= |workers|
        invariant workers == old(workers) && maxKill == budget
        invariant retired == MarkUseless(removed)
        invariant whole.0 == kept + Cull(workers[i..], |workers|, maxKill, killedSoFar).0
        invariant whole.1 == removed + Cull(workers[i..], |workers|, maxKill, killedSoFar).1
      {
        CullUnfold(workers, i, |workers|, maxKill, killedSoFar);
        var retire, marked := KillWorker(workers[i]);
        ghost var tail := Cull(workers[i + 1..], |workers|, maxKill, killedSoFar);
        if retire {
          assert MarkUseless(removed + [workers[i]]) == retired + [marked];
          assert removed + ([workers[i]] + tail.1) == (removed + [workers[i]]) + tail.1;
          retired := retired + [marked];
          removed := removed + [workers[i]];
        } else {
          assert kept + ([workers[i]] + tail.0) == (kept + [workers[i]]) + tail.0;
          kept := kept + [workers[i]];
        }
        i := i + 1;
      }
      assert workers[i..] == [];
      workers := kept;
    }

    /** Server.run's admission test: close the connection when more than
        MAX_THREADS are already queued, otherwise hand it to AssignClient. */
    method Accept(conn: Conn) returns (admitted: bool, retired: seq<Worker>)
      requires Valid()
      modifies this
      ensures Valid()
      ensures admitted == Admits(|old(clients)|)
      ensures killRequested == old(killRequested)
      ensures !admitted ==> clients == old(clients) && workers == old(workers)
                            && threadCounter == old(threadCounter) && retired == []
      ensures admitted ==> clients == old(clients) + [conn]
                           && Resized(workers, threadCounter, retired)
                              == Rebalance(|clients|, old(workers), old(threadCounter))
      ensures |old(clients)| <= MAX_THREADS + 1 ==> |clients| <= MAX_THREADS + 1
    {
      if |clients| > MAX_THREADS {
        return false, [];
      }
      admitted := true;
      retired := AssignClient(conn);
    }

    /** The claim step of Worker.run for worker `i`, which is idle whenever
        its loop reaches this point: take the oldest queued connection unless
        the queue is empty or a stop was requested. */
    method Claim(i: nat) returns (claimed: bool)
      requires Valid() && i < |workers| && workers[i].conn == None
      modifies this
      ensures Valid() && |workers| == |old(workers)|
      ensures claimed == CanClaim(old(clients), old(workers[i]), killRequested)
      ensures (clients, workers[i]) == ClaimStep(old(clients), old(workers[i]), killRequested)
      ensures workers == old(workers)[i := workers[i]]
      ensures threadCounter == old(threadCounter) && killRequested == old(killRequested)
    {
      claimed := |clients| > 0 && !(killRequested || workers[i].useless);
      if claimed {
        workers := workers[i := workers[i].(conn := Some(clients[0]))];
        clients := clients[1..];
      }
    }

    /** Pool.kill. */
    method Kill()
      modifies this`killRequested
      ensures killRequested
    {
      killRequested := true;
    }

    /** One round of the serving loop of Worker.run for busy worker `i`:
        act on what `recv` produced. KILL_SERVICE stops the pool; the session
        ends on KILL_SERVICE, an empty read or a reset, and then the worker
        drops its connection and is idle again. */
    method Serve(i: nat, received: Received, ip: string, port: nat) returns (a: Action)
      requires Valid() && i < |workers| && workers[i].conn != None
      modifies this
      ensures Valid()
      ensures a == Respond(received, ip, port)
      ensures killRequested == (old(killRequested) || a == Shutdown)
      ensures clients == old(clients) && threadCounter == old(threadCounter)
      ensures workers == if a == Shutdown || a == EndSession
                         then old(workers)[i := old(workers[i]).(conn := None)]
                         else old(workers)
    {
      a := Respond(received, ip, port);
      if a == Shutdown {
        Kill();
      }
      if a == Shutdown || a == EndSession {
        workers := workers[i := workers[i].(conn := None)];
      }
    }
  }
}
