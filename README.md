# tomato-chat server: worker pool and HELO protocol, modelled in Dafny

This project models the sequential logic of `server.py`, a TCP server that
serves clients from a self-sizing pool of worker threads. It covers four parts:

- **The pool** (`Pool.__init__`, `Pool.assignClient`, `Pool.killWorker`,
  `Pool.kill`). The pool has a FIFO queue of accepted connections, a list of
  workers and a spawn counter. Each new connection goes to the back of the
  queue. The pool then compares the queue length with the worker count and
  resizes only when the gap exceeds `TOLERANCE` (4). It grows toward the queue
  length, never past `MAX_THREADS` (32). It shrinks by retiring idle workers:
  at most the gap, and never below `MIN_THREADS` (4).
- **The worker's claim step**, in `Worker.run`. An idle worker pops the oldest
  queued connection, unless a stop was requested or the worker was retired.
- **The worker's serving step**, in `Worker.run` and `Worker.constructReply`.
  Exactly `KILL_SERVICE\n` stops the pool. Text that starts with `HELO ` gets
  a four-line acknowledgement. An empty read or a reset ends the session.
  Anything else is ignored.
- **The listener's admission test**, in `Server.run`. A new connection is
  closed when more than `MAX_THREADS` connections are already waiting.

Layout:

- `wrappers.dfy`: `Option`.
- `text.dfy` (module `Text`): Python 2's `rstrip()`, decimal rendering with its
  parser, and a newline splitter.
- `protocol.dfy` (module `Protocol`): frame classification, the HELO reply and
  one round of the serving loop, all as functions.
- `pool_policy.dfy` (module `PoolPolicy`): the pool rules as functions over
  plain values. A worker is the record `Worker(id, conn, useless)`. `Spawn` is
  the growing loop. `Cull` is the filtering comprehension driven by
  `killWorker`. `Rebalance` is the whole resize. `ClaimStep` is the claim step
  and `AdmitAll` is admission. The lemmas about these functions state the
  properties.
- `pool.dfy` (module `WorkerPool`): the `Pool` class. Its fields are updated
  in place. The resize, claim and admission methods are proved to compute the
  matching `PoolPolicy` functions, and `Serve` computes `Protocol.Respond`.
  The class invariant `Valid()` is `Registry`:
  - the list holds between `MIN_THREADS` and `MAX_THREADS` workers;
  - ids are strictly increasing and below the counter;
  - no listed worker is marked useless.

One detail of the source is kept on purpose. Inside the comprehension at
server.py:57, `len(self.workers)` in `killWorker` still measures the list as it
was before the filter, because the new list is bound only afterwards. So
`Cull` takes that old length as a parameter. `Pool.RetireIdleWorkers` leaves
`workers` untouched until its loop has finished.

Two further facts about `server.py` shape the model:

- A shrink removes the retired workers from the list inside the same locked
  section. They are not kept in the list with a retiring mark.
- `server.py` has no chat rooms, client ids or JOIN/LEAVE/CHAT/DISCONNECT
  frames, so the model has none either.

## Model

| member | source | states |
|---|---|---|
| `WorkerPool.Pool.constructor` | server.py:15-24 | The queue starts empty and no stop is requested. There are exactly `MIN_THREADS` idle workers with ids 0..3, and the counter stands at `MIN_THREADS`. The registry invariant holds. |
| `WorkerPool.Pool.KillWorker` | server.py:26-35 | The worker is retired exactly when `MayRetire` holds. `MayRetire` means: the old list length minus retirements so far is above `MIN_THREADS`, fewer than `maxKill` have been retired, and the worker is idle. A retired worker comes back marked useless, and `killedSoFar` rises by one exactly then. |
| `WorkerPool.Pool.AssignClient` | server.py:37-59 | The queue becomes the old queue with `conn` appended at the back, and `killRequested` is unchanged. The worker list, counter and retired workers equal `Rebalance` of the new queue length, the old list and the old counter. The registry invariant is preserved. |
| `WorkerPool.Pool.SpawnWorkers` | server.py:47-52 | The loop's result equals `Grow`, the function form of the loop. |
| `WorkerPool.Pool.RetireIdleWorkers` | server.py:55-57 | The filter's kept list and retired workers equal `Shrink` on the old list. The loop leaves the list untouched until the end. |
| `WorkerPool.Pool.Kill` | server.py:61-62 | Sets `killRequested`. |
| `WorkerPool.Pool.Accept` | server.py:79-84 | A connection is admitted exactly when at most `MAX_THREADS` connections were already queued. `killRequested` never changes. A rejected connection leaves the queue, the workers and the counter as they were. An admitted one is handed to `AssignClient`, with the same result. A queue of at most `MAX_THREADS + 1` stays within that bound. |
| `WorkerPool.Pool.Claim` | server.py:101-104 | An idle listed worker takes the head of the queue exactly when the queue is non-empty and neither the stop flag nor its own flag is set. The rest of the queue keeps its order. Otherwise nothing changes. No other worker changes. |
| `WorkerPool.Pool.Serve` | server.py:113-135 | The action taken is `Respond` of what `recv` produced. `killRequested` becomes set exactly on `KILL_SERVICE\n`. On a stop, an empty read or a reset, the worker drops its connection. Otherwise the worker list is unchanged, and the queue never changes. |
| `PoolPolicy.Spawn` | server.py:47-52 | The old list is kept as a prefix. The new length is the old length if that was already at `MAX_THREADS`, else min(old + n, `MAX_THREADS`). The j-th new worker is idle, not useless, and numbered counter + j. The counter rises by exactly the number spawned. |
| `PoolPolicy.Grow` | server.py:45-52 | Growing keeps every existing worker and retires none. It reaches min(old + difference, `MAX_THREADS`) unless the list was already full. The counter rises by the number added. |
| `PoolPolicy.CullSplits` | server.py:27-35 | The comprehension splits the list into kept and removed parts. Their sizes add up, their multisets add up to the original, and each keeps the original order. Only idle workers are removed, and at most the remaining budget. When any are removed, at least `MIN_THREADS` of the old list remain. |
| `PoolPolicy.CullKeepsBusy` | server.py:31-35 | A worker holding a connection is never removed. |
| `PoolPolicy.CullRetiresGreedily` | server.py:27-35 | The number removed is exactly min(idle workers, budget left, old length minus retirements minus `MIN_THREADS`), so no idle worker the limits allow to go is kept. |
| `PoolPolicy.Shrink` | server.py:53-57 | Shrinking keeps the counter, removes at most `maxKill` workers, and never leaves fewer than `MIN_THREADS` when it removes any. Survivors keep their relative order. Every removed worker was idle and is marked useless. Every busy worker survives. `ShrinkRetiresFromList` adds that the retired workers are exactly the ones dropped from the list. |
| `PoolPolicy.Rebalance` | server.py:43-57 | If the gap is at most `TOLERANCE`, the list and counter are unchanged and nobody is retired. If the queue is more than `TOLERANCE` ahead, the pool grows to min(queue length, `MAX_THREADS`) without dropping anyone. If the queue is more than `TOLERANCE` behind, the pool retires at most the gap, stays at `MIN_THREADS` or more, and keeps order and the counter. In every case only idle workers are retired, each marked useless, and busy workers are kept. `RebalanceRetiresFromList` adds that the retired workers are exactly the ones dropped from the list. |
| `PoolPolicy.ShrinkRetiresFromList` | server.py:55-57 | On a list of distinct workers not yet marked, each retired worker with its mark undone was in the list and is no longer in it. Every listed worker either stays or appears among the retired with `useless` set. So the marked workers are exactly the ones the filter drops. |
| `PoolPolicy.RebalanceRetiresFromList` | server.py:43-57 | For every resize of a well-formed registry, each retired worker with its mark undone was listed and is no longer listed. No listed worker disappears without being retired. |
| `PoolPolicy.ShrinkCount` | server.py:53-57 | A shrink retires exactly min(idle workers, gap, workers above `MIN_THREADS`). |
| `PoolPolicy.RebalanceKeepsRegistry` | server.py:43-57 | Every resize preserves the registry invariant: `MIN_THREADS` to `MAX_THREADS` workers, strictly increasing ids below the counter, none marked useless. |
| `PoolPolicy.SubKeepsOrder` | server.py:57 | Deleting elements from a list whose ids increase gives a list whose ids increase, and whose elements all come from the original. |
| `PoolPolicy.ClaimStep` | server.py:101-104 | A claim keeps the worker's id and flag. When allowed, it moves exactly the head of the queue into the worker, and the head followed by the new queue is the old queue. Otherwise nothing changes. |
| `PoolPolicy.ClaimsFollowArrivalOrder` | server.py:101-103 | FIFO: if k workers that are not useless claim in turn from a queue of at least k, the i-th gets the i-th queued connection, and the queue loses exactly its first k entries. |
| `PoolPolicy.NoClaimAfterKill` | server.py:102 | Once a stop is requested, claims change neither the queue nor any worker. |
| `PoolPolicy.AdmissionCapsQueue` | server.py:79-84 | In a burst of arrivals with no claims, the queue grows to min(old + arrivals, `MAX_THREADS + 1`). The admitted connections are the earliest arrivals, in order. |
| `Protocol.Classify` | server.py:117-128 | Text is `Kill` exactly when it equals `KILL_SERVICE\n`. It is `Helo` exactly when it starts with `HELO `, and then the payload is the rest right-stripped. It is `Closed` exactly when it is empty. |
| `Protocol.Respond` | server.py:114-131 | The worker stops the pool exactly on `KILL_SERVICE\n`. It sends the HELO reply exactly on text starting with `HELO `. The session ends exactly on an empty read or a reset. It keeps serving exactly on other socket errors and unrecognised text. |
| `Protocol.HeloReplyLines` | server.py:94-96 | If the payload and address hold no newline, the reply splits into exactly `HELO <payload>`, `IP:<ip>`, `Port:<port in decimal>` and `StudentID:16336617`, followed by an empty final piece. |
| `Protocol.HeloEchoesStrippedPayload` | server.py:119-122 | Text made of `HELO `, a payload not ending in whitespace, and any run of whitespace gets exactly the reply that echoes that payload. |
| `Protocol.TestClientHelo` | client.py:21-22 | The test client's `HELO IMPRESSIVE_TEST\n` is answered with the reply echoing `IMPRESSIVE_TEST`. |
| `Text.RStrip` | server.py:122 | The result is a prefix of the input. It does not end in whitespace (Python 2's space, tab, newline, carriage return, vertical tab, form feed). Everything cut off is whitespace. |
| `Text.RightStripUnique` | server.py:122 | Only one string has the three properties of `RStrip`, so any other definition of right-stripping agrees with it. |
| `Text.RStripIdempotent` | server.py:122 | Stripping twice gives the same result as stripping once. |
| `Text.Decimal` | server.py:95 | The port is rendered as at least one decimal digit, with no leading zero unless it is 0. |
| `Text.DecimalRoundTrip` | server.py:95 | Parsing the rendered digits gives back the number. |
| `Text.DecimalInjective` | server.py:95 | Different ports render differently. |

## Left out

- Threads and locking are not modelled. This covers `Thread.start`/`join`,
  the `lockClients` acquire/release, the daemon listener thread and the main
  thread's join loop (server.py:64-78, 153-157). Each locked section becomes
  one method that runs without interleaving. The listener's unlocked read of
  the queue length is taken as exact.
- Worker.run's two loops are not modelled as loops. Their bodies are the
  methods `Pool.Claim` and `Pool.Serve`. The busy-wait repetition and the
  exit test on `killRequested`/`useless` are left out.
- When one worker receives `KILL_SERVICE`, the other workers stop at their
  next loop check and close their own connections. That is scheduling, and
  only the receiving worker's step is modelled.
- Socket I/O is not modelled: `recv`, `send`, `close`, `setblocking`, `bind`,
  `listen` and `accept`. A `recv` becomes its outcome: text, a reset, or any
  other socket error.
- Serve: a reply counts as sent. The send-retry loop (server.py:120-126) and
  its reset handling are left out.
- The server's address from `gethostbyname(gethostname())` and the
  listening port are parameters of the reply.
- Argument parsing, the SIGINT handler and the printed banners and logs are
  left out (server.py:4-6, 139-151).
- AssignClient: the source keeps no reference to retired workers. The model
  returns them so that their `useless` mark is visible.
- client.py is left out except for the one HELO exchange it performs.
- Chat rooms and message broadcast are not part of this source and are not
  modelled.
