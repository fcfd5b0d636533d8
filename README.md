# NodeMonitorLite core, modelled in Dafny

NodeMonitorLite is a node-monitoring pair. A client samples its host and
reports to a daemon over gRPC. The daemon serves that RPC service and a
small plaintext control socket. This project models the sequential logic
under the async plumbing and proves what it promises:

- **Task registry** (`tasks.dfy`, module `Tasks`). `Task` is a class with
  an `enabled` flag and a one-way cancellation token. `TaskLoop` is the
  loop spawned by `Task::start`, which its join handle refers to.
  `TaskManager` is a class holding the two maps `tasks` and `handles`.
  One iteration of the loop is the pure step function `LoopStep`.
- **Line input** (`line_io.dfy`, module `LineIo`). This covers `str::trim`
  over Unicode White_Space and `read_line` on a buffered reader. The reader
  works over a peer's byte stream that ends either closed or broken.
- **Daemon control socket** (`daemon.dfy`, module `Daemon`):
  - the reply to each command;
  - the shutdown watch channel (class `ShutdownSignal`: its value plus a
    version counter);
  - the per-connection handler, as a loop proved against the session
    function `ConnectionSession`;
  - the biased `select!` step of the accept loop, and that loop run over a
    sequence of arrivals.
- **Older standalone daemon** (`svc_daemon.dfy`, module `SvcDaemon`). Its
  commands are `status` and `reload`. A read or write error panics the
  connection's task.
- **Registration** (`machine_service.dfy`, `uuid.dfy`). `register_machine`
  is textually the same in both daemons and is modelled once. The fresh
  identifier `Uuid::new_v4().to_string()` is built from 16 random bytes,
  which are an input.
- **Sampling** (`sampling.dfy`, module `Sampling`). This covers the
  saturating KiB-to-bytes conversion, the disk-size sum, the core-count
  fallback and the CPU-usage map. The host readings are inputs.
- **Messages** (`proto.dfy`) and shared `Option`/`u64` (`common.dfy`).

Four behaviours of the code are worth knowing. The model follows the code:

- `add_and_start_task` replaces a task filed under the same name instead of
  rejecting it. The replaced loop is never cancelled and keeps running.
- `remove_task` on a paused task never returns. The loop checks `enabled`
  before the cancellation token, so it never notices the cancel.
- Read errors on the daemon's control socket count as end of input.
- In the older daemon, `stop` is an unknown command.
- `collect_static_info` multiplies `total_memory()` and `total_swap()` by 1024, taking them to be KiB. The sysinfo releases that offer `Disks::new_with_refreshed_list`, which the same function calls, may already report bytes, and then the figures are 1024 times too large. This has not been confirmed; the model computes what the code writes.

## Model

| member | source | states |
|---|---|---|
| `Tasks.LoopStep` | client/src/task.rs:37-53 | Invokes the unit of work iff enabled and not cancelled. Exits iff enabled and cancelled. Is paused iff not enabled, and then sleeps 100 ms. After an invocation it waits for the interval, or yields when there is none. |
| `Tasks.PausedNeverExits` | client/src/task.rs:39-45 | A paused loop runs nothing and never ends, over any number of iterations, even when cancelled. |
| `Tasks.CancelledExitsAtOnce` | client/src/task.rs:43-45 | An enabled, cancelled loop ends on its next iteration without running the unit of work. |
| `Tasks.RunningInvokesEachIteration` | client/src/task.rs:47-52 | An enabled, uncancelled loop runs the unit of work exactly once per iteration and does not end. |
| `Tasks.Task.constructor` | client/src/task.rs:15-27 | A new task has the given name, metadata, interval and flag, and an uncancelled token. |
| `Tasks.Task.Pause` | client/src/task.rs:57-59 | Clears `enabled` and leaves the token as it was. |
| `Tasks.Task.Resume` | client/src/task.rs:61-63 | Sets `enabled` and leaves the token as it was. |
| `Tasks.Task.Remove` | client/src/task.rs:65-67 | Cancels the token and leaves `enabled` as it was. No operation clears the token. |
| `Tasks.TaskLoop.constructor` | client/src/task.rs:31-36 | A started loop has not finished and has run nothing. |
| `Tasks.TaskLoop.Step` | client/src/task.rs:37-53 | One iteration reads the task's current flags and does what `LoopStep` says. The loop is finished iff it exited. The invocation count grows by one iff it invoked. |
| `Tasks.TaskLoop.Join` | client/src/task.rs:116 | Awaiting a cancelled loop completes iff the loop had already finished or the task is enabled, without another invocation. Otherwise no number of iterations ever ends it. |
| `Tasks.SetFlagIdempotent` | client/src/task.rs:99-103 | Pausing (or resuming) a task twice is the same as doing it once. |
| `Tasks.ResumeAfterPause` | client/src/task.rs:105-109 | Resume after pause gives the named task's flag back as true, and the key set is unchanged. |
| `Tasks.TaskManager.constructor` | client/src/task.rs:78-83 | A new manager has both maps empty. |
| `Tasks.TaskManager.QueryTaskStatus` | client/src/task.rs:85-90 | None iff the name is not registered. Otherwise, Some of that task's `enabled` flag. |
| `Tasks.TaskManager.AddAndStartTask` | client/src/task.rs:92-97 | Files the task, and a fresh unstarted loop for it, under its name. Both maps keep the same key set. An earlier entry under that name is replaced: its loop drops out of `handles` and its task is not touched. All other entries are unchanged. |
| `Tasks.TaskManager.PauseTask` | client/src/task.rs:99-103 | Sets only the named task's flag to false, with both maps unchanged. It is a no-op for an unknown name. Every other task's status is unchanged, and so are all cancellation tokens. |
| `Tasks.TaskManager.ResumeTask` | client/src/task.rs:105-109 | Sets only the named task's flag to true, with both maps unchanged. It is a no-op for an unknown name. Every other task's status is unchanged. |
| `Tasks.TaskManager.RemoveTask` | client/src/task.rs:111-119 | The named task's token is cancelled. The call returns iff the name is unknown, the task is enabled, or its loop had finished. On return, the name is gone from both maps, the invariant holds and all other entries are unchanged. Otherwise the handle is gone and the task stays filed. |
| `LineIo.TrimIsSlice` | server/src/deamon.rs:88 | The trimmed line is a slice of the line with only whitespace around it, and it neither starts nor ends with whitespace. |
| `LineIo.TrimPadded` | server/svc-deamon/src/main.rs:70 | A word that neither starts nor ends with whitespace trims back to itself from under any whitespace padding, for example `" stop \r\n"` to `stop`. |
| `LineIo.ReadLine` | server/src/deamon.rs:87 | A delivered chunk is non-empty, and the chunk followed by the rest is the unread input. |
| `LineIo.ReadLineDelivers` | server/svc-deamon/src/main.rs:69 | A chunk has no newline before its end. It ends in a newline unless it is the last chunk of a closed stream. 0 bytes come exactly at the end of a closed stream. An error comes exactly when a broken stream has no complete line left. |
| `LineIo.LinesClosedRoundTrip` | server/src/deamon.rs:87 | A peer that closes has every byte it sent delivered, in order. |
| `LineIo.LinesBrokenPrefix` | server/svc-deamon/src/main.rs:69 | On a broken connection, the delivered chunks, joined, are a prefix of the input, and what is lost after them contains no newline. |
| `LineIo.OneLine` | server/src/deamon.rs:85-87 | A peer that sends one newline-terminated line has exactly that line delivered. |
| `Uuid.Stamp` | server/src/deamon.rs:28 | Sets the version nibble to 4 and the variant bits to binary 10. The rest of those two bytes and all other bytes stay random. |
| `Uuid.ParseHyphenatedRoundTrip` | server/src/deamon.rs:28 | The hyphenated lowercase text gives the 16 bytes back. |
| `Uuid.NewV4Shape` | server/src/deamon.rs:28 | A minted identifier is 36 characters long with hyphens at 8, 13, 18 and 23. The version digit at 14 is `4`, the variant digit at 19 is one of `89ab`, and every other character is a lowercase hexadecimal digit. |
| `Uuid.NewV4Injective` | server/src/deamon.rs:28 | Two draws give the same identifier iff they agree outside the version and variant bits. |
| `MachineService.RegisterMachine` | server/src/deamon.rs:22-30 | A supplied identifier is returned unchanged. Without one, the reply is the version-4 identifier minted from the random draw. |
| `MachineService.ReRegistrationEchoes` | server/svc-deamon/src/main.rs:22-25 | Registering again with the identifier received returns that identifier, whatever else the request holds. |
| `MachineService.FreshRegistrationsDiffer` | server/svc-deamon/src/main.rs:27-28 | Two registrations without an identifier get different identifiers iff their random draws differ outside the stamped bits. |
| `Daemon.ReplyCases` | server/src/deamon.rs:89-96 | `status` gets the running reply, `stop` the stopping reply, and anything else the unknown-command reply, each as an iff. The three reply texts are distinct. |
| `Daemon.ShutdownSignal.constructor` | server/src/deamon.rs:43 | The channel starts at false, with no sends. |
| `Daemon.ShutdownSignal.SendTrue` | server/src/deamon.rs:92 | After a send the value is true and the version has grown by one. So the value never goes back to false. |
| `Daemon.Respond` | server/src/deamon.rs:88-96 | The reply is that of the trimmed line. The signal is sent true exactly once for `stop` and is left alone otherwise. |
| `Daemon.HandleConnection` | server/src/deamon.rs:82-101 | Writes the replies of the whole session and ends as the session does. The signal gets one send per `stop` acted on, and reads true afterwards iff it did before or a `stop` was acted on. |
| `Daemon.SessionAnswersHandled` | server/src/deamon.rs:85-100 | Exactly one reply per handled line, in order, each the reply to that trimmed line. Only the reply whose write failed is missing. |
| `Daemon.HandledStopCounted` | server/src/deamon.rs:91-92 | A handled `stop` line raises the signal. |
| `Daemon.CountedStopHandled` | server/src/deamon.rs:91-93 | The signal is raised only for a handled `stop` line, which the lemma finds. |
| `Daemon.SessionStopsHandled` | server/src/deamon.rs:87-101 | A connection asks the daemon to stop (its session raises the signal) iff one of the lines its handler acts on trims to `stop`. |
| `Daemon.HandledPrefix` | server/src/deamon.rs:87-99 | The handled lines are a prefix of the delivered lines. The handler stops on write failure iff the failing write falls within the session, and then right after that line. Otherwise it handles every line and ends as the stream does, a read error counting as the end. |
| `Daemon.CommandSession` | server/src/deamon.rs:85-101 | A peer that sends one padded command line gets exactly the reply to that command. Only `stop` raises the signal, and only once. |
| `Daemon.AcceptStep` | server/src/deamon.rs:74-80 | Under `biased`, the loop exits iff a change is pending and the signal reads true. It accepts (or fails on an accept error) only when no change is pending. |
| `Daemon.PendingChangeExits` | server/src/deamon.rs:76-77 | A receiver behind the latest version always reads true, so a pending change always means exit. |
| `Daemon.ServeStopsAfterFirstStop` | server/src/deamon.rs:73-80 | With each connection handled before the next accept, the loop takes no connection after the first one that asked to stop. It shuts down iff the last connection it took asked to. It fails only on an accept error. |
| `Daemon.AnsweredSessions` | server/src/deamon.rs:79-102 | The replies recorded for the first n arrivals are one entry per arrival, and each accepted connection's entry is the replies of its whole session. |
| `Daemon.ServeControl` | server/src/deamon.rs:72-107 | Takes the arrivals `Serve` says, all of them connections, and records for each the replies `Answered` gives, that is its whole session's. It ends as `Serve` says, and the signal reads true iff the loop shut down. |
| `SvcDaemon.ReplyCases` | server/svc-deamon/src/main.rs:70-78 | `status` gets the running reply, `reload` the reloaded reply, and anything else the unknown-command reply, each as an iff. `stop` is unknown. The three reply texts are distinct. |
| `SvcDaemon.SessionEnds` | server/svc-deamon/src/main.rs:67-81 | The task panics on a failed write iff that write falls within the session, with exactly the earlier replies written. Otherwise it writes one reply per delivered line and then either finishes (closed peer) or panics on the read error (broken stream). |
| `SvcDaemon.SessionAnswersLines` | server/svc-deamon/src/main.rs:69-79 | Each reply written is the reply to the trimmed delivered line in its place, in order, and there are never more replies than lines. |
| `SvcDaemon.HandleConnection` | server/svc-deamon/src/main.rs:64-81 | The spawned handler writes the session's replies and ends as the session does. |
| `Sampling.KibToBytes` | client/src/sampling.rs:33 | Gives the exact product iff KiB ≤ u64::MAX / 1024. Otherwise it saturates at u64::MAX. |
| `Sampling.KibToBytesOrder` | client/src/sampling.rs:33-34 | The conversion is monotone, and it loses nothing when it does not saturate. |
| `Sampling.SumAppend` | client/src/sampling.rs:39-42 | The disk sum of two lists one after the other is the sum of the two sums. |
| `Sampling.SumPrefix` | client/src/sampling.rs:40-41 | A running total never exceeds the sum of the whole list. |
| `Sampling.TotalDiskSpace` | client/src/sampling.rs:38-42 | The loop gives the sum of the disk sizes iff it fits a u64, and reports the overflow otherwise. |
| `Sampling.CollectStaticInfo` | client/src/sampling.rs:20-55 | Panics (None) iff the disk sum overflows or a host string is missing. Otherwise: the uuid is passed through; `ip_address` is empty; the cores are the physical count, or the CPU count when unknown; memory and swap are the saturating byte conversions; the disk total is the sum. |
| `Sampling.UsageMapKeys` | client/src/sampling.rs:8-13 | The usage map's keys are exactly the CPU names. |
| `Sampling.UsageMapLastWins` | client/src/sampling.rs:8-13 | A name maps to the usage of the last CPU listed under that name. |
| `Sampling.CollectDynamicInfo` | client/src/sampling.rs:5-18 | The report carries the uuid unchanged and the map built by inserting every CPU in order. |

## Left out

- Tokio scheduling, `spawn`, sleeps, `yield_now` and real time. The loop step says what one iteration does; the 100 ms poll of a paused loop and the interval after an invocation are only recorded as `Delay` values.
- The unit of work's body and its result. An invocation is counted; an error it returns is discarded, as in the code.
- `machine_register_task` and `start_all_tasks` (client/src/task.rs:122-174). These are network calls plus a spawned perpetual sampler.
- Concurrency between a task's loop and the manager. The flags are plain fields, and each `Step` reads them as they are at that moment.
- Tasks.TaskManager.AddAndStartTask: the replaced task's loop is not modelled as still running. The model only states that its handle is dropped and its token left uncancelled.
- The tonic gRPC server, `serve_with_shutdown`, `try_join!` and the wake-up mechanics of the watch channel. The signal is its value plus a send counter, and the gRPC half's shutdown is not modelled.
- Daemon.ServeControl: each accepted connection's handler runs to completion before the next accept. A spawned handler that runs alongside the accept loop is not modelled, so a `stop` only takes effect at the next turn of the loop.
- Daemon.ServeStopsAfterFirstStop: holds for the turns of the loop with each connection handled before the next accept. With handlers spawned alongside the loop, a connection accepted while the stopping one is still open can come after it.
- Daemon.ServeControl: its `Recheck` branch (a change that reads false) cannot happen, because the channel only ever sends true.
- The accept loop of the older daemon. Its accept errors end `main` through `?`, like the current daemon's.
- `println!` output, including the older daemon's `reload requested`, and the reported `report_dynamic_info` call that only prints.
- Replies are recorded as `Reply` values. `ReplyText` gives their bytes and `ReplyCases` proves the texts distinct.
- Byte-level UTF-8 handling of `read_line`. Input is a sequence of characters.
- UUID randomness. The 16 random bytes are an input, so global uniqueness is not claimed, only injectivity on the random bits.
- sysinfo and `Disks` queries. Their results are inputs.
- CPU usage values are `f32` in the message. The model carries them as `real` and never computes with them.
- Sampling.TotalDiskSpace: an overflowing `+=` is modelled as a panic (as in a debug build). A release build wraps around instead, and that wrapped value is not modelled.
- `usize` to `u64` casts. They are taken as lossless, as on 64-bit targets.
- client/src/net.rs, client/src/main.rs, client/src/config.rs, server/src/cli.rs, server/src/main.rs and common/build.rs. These are I/O wrappers, configuration, process detachment and code generation.
