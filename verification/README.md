# Caelix: verified core

Caelix is a backend framework: it discovers an application's modules, constructs and starts their
providers, delivers durable events and commands over Redis Streams or NATS JetStream, throttles
requests, and speaks WebSocket. This project models the parts of it whose behaviour is hardest to
see from one function, and proves what they guarantee.

**Delivery.** `Delivery` is an at-least-once machine that says nothing about brokers; `Protocol`
holds what the transports share. `RedisEvents` and `JetStreamEvents` model the two transports as
state machines in which every await is a step of its own: any step may fail with its effect applied
or not, replies may be lost, replicas may crash. Both are shown to refine the machine, so no event is
lost in any run. `RedisTiming` and `JetStreamTiming` add time: with heartbeats or progress messages
sent on time one delivery at a time is handled, attempt numbers only go up, retries are bounded.
`RedisConcurrency` bounds what a replica has in flight, which follows from the capacity guard of its
loop. `RedisCommands` does the same for commands, and `RedisReruns` says exactly when the handler of
a command can run again after it has returned. Replica actions other than a broker round trip
(decoding, choosing what to do next) take no time of their own.

**Startup.** `ModuleDiscovery` lists the modules a root imports, imported modules first.
`ProviderGraph` and `MessageOwners` hold the checks made on that list, `ProviderSchedule` the order
of construction, `Preflight` all of it together. `Lifecycle` and `Startup` construct, initialize,
validate again, bootstrap and take back; `StartupFacts` draws the consequences, and `OverrideFacts`
those for overrides. Types are numbers; constructors and hooks are oracles that succeed or fail; a
run is the sequence of calls it makes.

**Subjects.** `Subjects` defines what a pattern denotes and shows the three token loops (matching,
overlap, coverage) to be exactly membership, non-empty intersection and inclusion.

**Throttling.** `FixedWindow` is the counter as a plain list; `ThrottleStore` is the indexed store,
shown to answer as the list does for any clock readings; `Throttle` has the keys and the decision.

**WebSocket.** `WebSocketConnection` is the connection loop with its fragment slot;
`WebSocketMessages` says what a sequence of frames means and which sequences mean nothing, and shows
the loop to deliver the one and refuse the other. `CloseFrame` is the check of raw close frames,
`Utf8` the text it is about.

**Log timestamps.** `Calendar` and `Timestamps`.

Three points where the code does something its documentation or comments do not say:

- A command's handler can run again after it has returned, when the removal of its entry does not
  reach the broker or the replica dies before it (`RedisReruns.PromiseFails` gives such a run, on time
  throughout); the comment at `crates/caelix-microservices/src/redis_transport.rs:697` says it never
  does. After a timely run it can exactly when the entry is left pending, no task is on the way to
  removing it, and its deadline comes after the next delivery (`RedisReruns.RerunExactly`). A command
  that has lost no completion of its own is safe, whatever becomes of its replies and of other
  commands (`RedisCommands.ReturnedCommandIsComplete`, `RedisReruns.KeptIsNotRerunnable`).
- An override is used up when its provider is constructed, so the second validation reads the
  replaced definition: an override can neither stand in for a provider whose own dependencies are
  missing nor break a circle its provider is part of (`OverrideFacts.OverrideCannotRescue`,
  `OverrideFacts.OverrideCannotBreakCycle`). A build with overrides succeeds exactly when, besides
  what the first validation asks, every override is for a type that will be constructed and the
  definitions as written have their dependencies and run in no circle
  (`OverrideFacts.BuildableWithOverrides`).
- A throttle limit of the largest 64-bit number limits nothing, because the counter stops there: any
  number of calls is let through in one window (`FixedWindow.SaturatedLimitIsNoBound`); the rate
  bound holds for every smaller limit.

## Model

| member | source | states |
|---|---|---|
| Delivery.NoEventLost | crates/caelix-microservices/src/redis_transport.rs:764-859 | in every reachable state of the abstract machine each event is undelivered, outstanding, or was forgotten for a stated reason, and dead letters are only written at the delivery limit |
| RedisEvents.ActMovesEvent | crates/caelix-microservices/src/redis_transport.rs:764-859 | whatever one step does to an entry, applied or not, is a step of the at-least-once machine |
| RedisEvents.ActKeepsInv | crates/caelix-microservices/src/redis_transport.rs:764-859 | every step keeps what each task's stage claims about its entry, in particular that an acknowledgement is only ever on its way for a reason |
| RedisEvents.StepRefines | crates/caelix-microservices/src/redis_transport.rs:703-762 | reads, reclaims, appends, crashes and time passing keep the invariant of the whole group and refine one step of the machine |
| RedisEvents.RunRefines | crates/caelix-microservices/src/redis_transport.rs:703-762 | every run refines the at-least-once machine |
| RedisEvents.NoRedisEventLost | crates/caelix-microservices/src/redis_transport.rs:764-859 | in every interleaving of replicas, crashes, reclaims and failed dead-letter writes, an event some handler takes is unread, pending, handled, rejected by a client error, or given up after the configured deliveries with its dead letter written |
| RedisPending.RefreshedIsNotReclaimable | crates/caelix-microservices/src/redis_transport.rs:888-943 | a record refreshed within half the delay plus a slack cannot be reclaimed, by the broker's millisecond clock |
| RedisTiming.ActExclusive | crates/caelix-microservices/src/redis_transport.rs:810-820 | every step keeps a live task the owner of the latest delivery of its entry |
| RedisTiming.HeartbeatsExclude | crates/caelix-microservices/src/redis_transport.rs:810-820 | in a timely run at most one task is live per entry, the entry is not reclaimable meanwhile, and every invocation sees a larger attempt number than those before |
| RedisTiming.FailingHandlerIsBounded | crates/caelix-microservices/src/redis_transport.rs:821-858 | in a timely run without crash or broker error a handler runs at most the configured number of deliveries per event, and at most one dead letter is written |
| RedisTiming.PendingCanSettle | crates/caelix-microservices/src/redis_transport.rs:888-913 | from every reachable state any replica with room can reclaim a pending event and settle it |
| RedisConcurrency.StepSpawns | crates/caelix-microservices/src/redis_transport.rs:720-762 | a step gives a replica no tasks but one for each entry it is handed |
| RedisConcurrency.ConcurrencyBounded | crates/caelix-microservices/src/redis_transport.rs:720-762 | as a consequence of the capacity guard of the loop, in every run a replica has at most the configured number of entries in flight |
| RedisCommands.ActAnswered | crates/caelix-microservices/src/redis_transport.rs:544-701 | every step keeps that a removed command was answered or could not be |
| RedisCommands.NoCommandDropped | crates/caelix-microservices/src/redis_transport.rs:655-701 | in every run a command that can be answered is unread, pending, or was removed after a reply had been attempted |
| RedisCommands.ReturnedCommandIsComplete | crates/caelix-microservices/src/redis_transport.rs:697-700 | in a timely run that loses no completion of this command, whatever happens to others, its handler is never started again once it has returned and at most one reply is sent, even when replies fail |
| RedisCommands.LossOrphans | crates/caelix-microservices/src/redis_transport.rs:979-1001 | a lost completion leaves the entry pending with nobody working on it |
| RedisReruns.RerunExactly | crates/caelix-microservices/src/redis_transport.rs:655-701 | after any timely run, a timely continuation without loss can start the handler of a returned command again if and only if its entry is pending, no task is on the way to removing it, and the deadline comes after the next delivery can be decoded |
| RedisReruns.KeptIsNotRerunnable | crates/caelix-microservices/src/redis_transport.rs:697-700 | after a timely run that lost no completion of the command there is no such continuation |
| RedisReruns.PromiseFails | crates/caelix-microservices/src/redis_transport.rs:979-1001 | an explicit timely run in which the handler has returned, its reply is published, the removal is lost, and the handler can be started again |
| JetStreamEvents.StepRefines | crates/caelix-microservices/src/lib.rs:998-1023 | every step of the JetStream consumer keeps its invariant and refines one step of the same machine |
| JetStreamEvents.RunRefines | crates/caelix-microservices/src/lib.rs:1025-1126 | every run refines the at-least-once machine |
| JetStreamEvents.NoJetStreamEventLost | crates/caelix-microservices/src/lib.rs:1065-1124 | in every run a settled event was handled, rejected by a client error, or terminated at the delivery limit with its dead letter confirmed |
| JetStreamTiming.ActExclusive | crates/caelix-microservices/src/lib.rs:1065-1080 | every step keeps a live task the owner of the latest delivery, ahead of the acknowledgement deadline its progress messages move |
| JetStreamTiming.ProgressExcludes | crates/caelix-microservices/src/lib.rs:1065-1080 | in a timely run at most one task is live per message, the message is not delivered again meanwhile, and every invocation sees a larger attempt number than those before |
| JetStreamTiming.FailingHandlerIsBounded | crates/caelix-microservices/src/lib.rs:1090-1124 | in a timely run without crash or broker error a handler runs at most the configured number of deliveries per event |
| Subjects.NatsPatternMatches | crates/caelix-microservices/src/lib.rs:1160-1174 | the loop decides membership in what the pattern denotes |
| Subjects.MicroservicePatternsIntersect | crates/caelix-core/src/module.rs:1097-1113 | the loop decides whether two patterns can meet token by token |
| Subjects.NatsPatternCovers | crates/caelix-microservices/src/lib.rs:1176-1192 | the loop decides token-by-token coverage |
| Subjects.OverlapWitness | crates/caelix-core/src/module.rs:1097-1113 | for valid patterns that can meet, a concrete valid subject both match |
| Subjects.OverlapExact | crates/caelix-core/src/module.rs:1097-1113 | valid patterns overlap in the code's sense if and only if some valid subject matches both |
| Subjects.EscapeWitness | crates/caelix-microservices/src/lib.rs:1176-1192 | for valid patterns not covered, a concrete subject that shows it |
| Subjects.CoverageExact | crates/caelix-microservices/src/lib.rs:1176-1192 | coverage in the code's sense if and only if every subject matching the declared pattern matches the configured one |
| Subjects.CoverageOrder | crates/caelix-microservices/src/lib.rs:1176-1192 | coverage is reflexive and transitive, and overlap is monotone along it |
| MessageOwners.CheckMessageOwners | crates/caelix-core/src/module.rs:757-817 | accepts exactly the graphs whose patterns are valid and leave every subject at most one handler, and otherwise names a conflict that exists, in the modules named |
| MessageOwners.RegisterSubject | crates/caelix-core/src/module.rs:761-800 | one handler is registered, or refused for a reason that makes the whole graph unacceptable |
| MessageOwners.FirstMatchIgnoresOrder | crates/caelix-microservices/src/redis_transport.rs:790-794 | once accepted, the first-match search finds the same handler in any order of the handlers |
| ModuleDiscovery.Discovery.Visit | crates/caelix-core/src/module.rs:524-568 | the depth-first walk keeps every finished module's imports resolved to positions, and fails only with a path that runs into itself or a module with invalid routes |
| ModuleDiscovery.Ordering.Order | crates/caelix-core/src/module.rs:575-589 | the second walk lists each position once, after everything it imports |
| ModuleDiscovery.Renumber | crates/caelix-core/src/module.rs:590-602 | re-indexing keeps every import pointing at the same module, now earlier in the list |
| ModuleDiscovery.DiscoverFrom | crates/caelix-core/src/module.rs:523-605 | succeeds exactly when the imports reachable from the root have no cycle and all routes are valid; lists each reachable module once, imports strictly before importers, the root last; a failure shows its cycle |
| ModuleDiscovery.SortedIsAcyclic | crates/caelix-core/src/module.rs:523-605 | only graphs without import cycles have such a list |
| ProviderGraph.IndexByType | crates/caelix-core/src/module.rs:666-683 | accepts exactly when only overridden types are registered twice, and otherwise names two registrations of one type |
| ProviderGraph.CheckExports | crates/caelix-core/src/module.rs:684-702 | accepts exactly when every export is declared locally or exported by a direct import, and otherwise names one that is neither |
| ProviderGraph.ExportHasChain | crates/caelix-core/src/module.rs:684-702 | with sound exports, every export traces through a chain of imports to a module declaring it |
| ProviderGraph.VisibleIsDeclared | crates/caelix-core/src/module.rs:703-716 | whatever is visible in a module is declared there or at the end of a chain of exports starting at a direct import or a global module |
| ProviderGraph.CheckDependencies | crates/caelix-core/src/module.rs:717-745 | accepts exactly when every effective dependency is the logger, visible, or already a service, and otherwise names one that is not |
| ProviderGraph.CheckEventHandlers | crates/caelix-core/src/module.rs:746-756 | accepts exactly when every event handler is declared in its module and the event bus is visible there |
| ProviderSchedule.Scheduler.Run | crates/caelix-core/src/module.rs:818-869 | the stateful walk computes the schedule whose properties follow |
| ProviderSchedule.WalkSound | crates/caelix-core/src/module.rs:821-857 | scheduling one provider extends a list in which every type comes after its declared dependencies, or returns a cycle of dependencies |
| ProviderSchedule.ScheduleSound | crates/caelix-core/src/module.rs:818-869 | a schedule lists every declared type exactly once, after the declared types it effectively depends on; a failure is a cycle in the effective dependency graph |
| ProviderSchedule.ScheduleExact | crates/caelix-core/src/module.rs:818-869 | when registrations of a type agree, scheduling fails if and only if declared types depend on each other in a circle |
| ProviderSchedule.UniformBeforeOverridesApply | crates/caelix-core/src/module.rs:666-683 | before an override has been applied, registrations of a type agree |
| Preflight.Preflight | crates/caelix-core/src/module.rs:665-870 | succeeds exactly on startable graphs with the schedule as result; a refusal names something that is indeed wrong |
| Preflight.StartableExactly | crates/caelix-core/src/module.rs:665-870 | before overrides apply, startable means: no duplicates, sound exports, dependencies, handlers and owners, and no circle of dependencies |
| Preflight.MoreServicesKeepStartable | crates/caelix-core/src/module.rs:736-743 | without overrides, what is startable stays so with more services |
| Preflight.CheckGatewayPaths | crates/caelix-core/src/module.rs:1064-1083 | accepts exactly absolute gateway paths with at most one gateway of each kind on each |
| Preflight.ValidateModule | crates/caelix-core/src/module.rs:1139-1143 | metadata-only validation holds exactly for graphs startable without a container and with sound gateways |
| Lifecycle.Container.Construct | crates/caelix-core/src/module.rs:888-917 | the whole new state and calls of constructing one provider, by its own definition or its override, whichever hook fails |
| Lifecycle.RollbackGraph | crates/caelix-core/src/module.rs:950-958 | nothing stays initialized; shutdown hooks run as `StopsInReverse` says |
| Lifecycle.ShutdownModule | crates/caelix-core/src/module.rs:971-987 | every hook runs whatever the others do, and the failure reported is that of the first provider stopped that failed |
| Lifecycle.StopsInReverse | crates/caelix-core/src/module.rs:950-958 | every initialized provider is stopped exactly once, last initialized first |
| Startup.ConstructAll | crates/caelix-core/src/module.rs:881-917 | succeeds exactly when no effective constructor or init hook fails; what was initialized is recorded, and every constructor finds what it declared |
| Startup.InitializeGraph | crates/caelix-core/src/module.rs:879-927 | succeeds exactly when the graph is startable, the hooks succeed and the handlers register; a refusal touches nothing; a later failure stops everything initialized |
| Startup.BootstrapGraph | crates/caelix-core/src/module.rs:929-948 | bootstraps each initialized, not overridden provider once in schedule order, or stops everything |
| Startup.Validate | crates/caelix-core/src/module.rs:1023-1027 | the checks between initialization and bootstrap hold exactly when no override is left, the graph is startable as it now is, everything declared is registered and the gateways are sound |
| Startup.BuildContainer | crates/caelix-core/src/module.rs:994-1036 | succeeds exactly under `Buildable`; then every provider with hooks of its own was initialized and bootstrapped once, dependencies first; otherwise everything that finished initializing was shut down once in reverse order; phases never mix; constructors resolve what they declared and the logger and nothing else |
| Startup.StartableProvides | crates/caelix-core/src/module.rs:717-745 | in a startable graph every dependency is a service, or constructed earlier, when its dependent is constructed |
| Startup.DeclaredBefore | crates/caelix-core/src/module.rs:849-856 | in a construction order a provider's own dependencies come first, whatever is left out of it |
| StartupFacts.DependentsStopFirst | crates/caelix-core/src/module.rs:971-987 | where dependencies were initialized first, as a build guarantees, each provider is shut down before the providers it depends on |
| StartupFacts.WithoutOverrides | crates/caelix-core/src/module.rs:994-1013 | without overrides a build succeeds exactly when the graph is startable, the application's functions succeed and the gateways are sound, and providers are bootstrapped in initialization order |
| StartupFacts.ValidatedModuleBuilds | crates/caelix-core/src/module.rs:1139-1143 | after metadata-only validation only the application's own functions can make a build without overrides fail |
| OverrideFacts.OverridesMustApply | crates/caelix-core/src/container.rs:208-224 | no override is left over exactly when all are for types that will be constructed; an override for a type that is not declared, or supplied beforehand, makes the build fail |
| OverrideFacts.SecondValidationExact | crates/caelix-core/src/module.rs:1023-1027 | where no type is registered twice and every override applies, the second validation accepts what the first accepted if and only if the definitions as written have their dependencies and run in no circle |
| OverrideFacts.BuildableWithOverrides | crates/caelix-core/src/module.rs:1015-1036 | without double registrations a build succeeds exactly under conditions known before it: first validation, overrides that apply, the definitions' own dependencies and freedom from circles, sound gateways and the application's functions |
| OverrideFacts.OverrideCannotRescue | crates/caelix-core/src/module.rs:720-722 | a graph whose override satisfies the first validation but whose replaced definition misses a dependency, so that the build fails |
| OverrideFacts.OverrideCannotBreakCycle | crates/caelix-core/src/module.rs:818-869 | a graph in which an override takes its provider out of a circle for the first validation and the build fails all the same |
| FixedWindow.RateBound | crates/caelix-core/src/throttle.rs:367-396 | for a fixed policy, a clock that does not run back and no eviction of the key, any half-open span of one window lets at most twice the limit through |
| FixedWindow.RetryAfterIsLeast | crates/caelix-core/src/throttle.rs:388-393 | after any calls and a rejection, waiting a whole number of seconds suffices exactly when it reaches the advertised Retry-After |
| FixedWindow.SaturatedLimitNeverRejects | crates/caelix-core/src/throttle.rs:186-186 | the largest limit rejects nothing |
| FixedWindow.SaturatedLimitIsNoBound | crates/caelix-core/src/throttle.rs:186-186 | for every number there is a run that gets so many calls through in one window under the largest limit |
| ThrottleStore.MemoryThrottleStore.Increment | crates/caelix-core/src/throttle.rs:100-191 | for any clock reading, the indexed store answers as the plain list does and keeps at most its capacity of buckets and twice that of entries in each index |
| ThrottleStore.MemoryThrottleStore.PurgeExpired | crates/caelix-core/src/throttle.rs:113-125 | the lazy heap removes exactly what has expired |
| ThrottleStore.MemoryThrottleStore.EvictOldest | crates/caelix-core/src/throttle.rs:133-144 | the lazy queue removes exactly the oldest insertion |
| ThrottleStore.MemoryThrottleStore.CompactInsertionOrder | crates/caelix-core/src/throttle.rs:175-183 | rebuilding the queue keeps it an index of the live buckets in insertion order |
| Throttle.KeyRoundTrip | crates/caelix-core/src/throttle.rs:376-381 | a decoder inverts the bucket key for all strings |
| Throttle.KeysDistinct | crates/caelix-core/src/throttle.rs:376-381 | two requests share a bucket exactly when client, method and route agree |
| Throttle.Check | crates/caelix-core/src/throttle.rs:367-396 | a refused policy leaves the store alone; otherwise the request is counted under its key and let through exactly within the limit |
| Utf8.CutsAtBoundaries | crates/caelix-actix/src/actix_ws/session.rs:182-186 | a prefix of valid text is valid exactly when it ends at a character boundary |
| Utf8.Truncate | crates/caelix-actix/src/actix_ws/session.rs:181-187 | the longest valid prefix within the limit, losing at most three bytes of room |
| CloseFrame.ValidateRawCloseReason | crates/caelix-actix/src/actix_ws/stream.rs:304-362 | the byte-level check computes the verdict whose properties follow |
| CloseFrame.CompleteFrameJudged | crates/caelix-actix/src/actix_ws/stream.rs:304-362 | for every mask, length form, payload and trailing bytes, a complete frame is refused exactly for a one-byte payload or a reason that is not UTF-8 |
| CloseFrame.StrictPrefixAccepted | crates/caelix-actix/src/actix_ws/stream.rs:304-348 | every strict prefix of a frame is accepted |
| CloseFrame.RefusalDeserved | crates/caelix-actix/src/actix_ws/stream.rs:304-362 | whatever is refused is an impossible length or starts with an encoded frame that deserves it |
| CloseFrame.MaskedTwice | crates/caelix-actix/src/actix_ws/stream.rs:353-358 | unmasking undoes masking |
| CloseFrame.SentReason | crates/caelix-actix/src/actix_ws/stream.rs:161-172 | the sender's reason is the longest valid prefix of at most 123 bytes |
| CloseFrame.ShortenedReasonPasses | crates/caelix-actix/src/actix_ws/session.rs:174-189 | a shortened reason always passes the receiver's check |
| WebSocketConnection.FragmentSlot.Append | crates/caelix-actix/src/websocket.rs:419-434 | a continuation is added unless none was begun or the limit would be passed; a refusal changes nothing |
| WebSocketConnection.RunConnection | crates/caelix-actix/src/websocket.rs:225-394 | the loop produces the run whose properties follow |
| WebSocketConnection.ConnectionClosesOnce | crates/caelix-actix/src/websocket.rs:391-393 | a finished connection reports its close exactly once and last |
| WebSocketConnection.BufferBounded | crates/caelix-actix/src/websocket.rs:396-434 | the fragment buffer never exceeds the limit, after any steps |
| WebSocketMessages.ShapeIsUnique | crates/caelix-actix/src/websocket.rs:304-366 | a sequence of frames can be read as messages and at most one begun message in one way only |
| WebSocketMessages.RunExplained | crates/caelix-actix/src/websocket.rs:239-378 | as long as a connection goes on, whatever arrives, its data frames are those of messages within the limits, delivered once, unchanged and in order, and of at most one begun, which is what is held |
| WebSocketMessages.DeliveredFromPrefix | crates/caelix-actix/src/websocket.rs:239-378 | in every run, finished or not, what was delivered is exactly the messages of a first part of what arrived, whose frames are legal |
| WebSocketMessages.RunAccepts | crates/caelix-actix/src/websocket.rs:304-366 | legal frames, whatever control frames come between, never end the connection |
| WebSocketMessages.MessagesReassembled | crates/caelix-actix/src/websocket.rs:304-366 | the same of a whole connection: each message is delivered once, unchanged and in order |
| WebSocketMessages.RefusedExactly | crates/caelix-actix/src/websocket.rs:396-434 | the next frame is refused if and only if no messages could have been cut into the frames up to it; the code is for a wrong order, else for size, else for text that is not UTF-8 |
| WebSocketMessages.FirstViolationEnds | crates/caelix-actix/src/websocket.rs:239-378 | the first frame that leaves nothing legal ends the connection with the code for it; exactly the messages ended before it have been delivered, whatever follows |
| Calendar.CivilIsFromMarch | crates/caelix-core/src/logging.rs:242-255 | the closed formulas find the year a day belongs to and give a valid date |
| Calendar.EpochDate | crates/caelix-core/src/logging.rs:242-255 | day zero is the first of January 1970 |
| Calendar.CivilNext | crates/caelix-core/src/logging.rs:242-255 | each next day is the Gregorian successor date |
| Calendar.CivilCounted | crates/caelix-core/src/logging.rs:242-255 | counting days along the calendar undoes the conversion, before and after 1970 |
| Calendar.CountedCivil | crates/caelix-core/src/logging.rs:242-255 | the conversion undoes the count on every valid date |
| Timestamps.TimestampsSort | crates/caelix-core/src/logging.rs:224-240 | for years up to 9999 timestamps sort as text in the order of time, and differ when the times do |

## Left out

- ThrottleStore.MemoryThrottleStore.Increment: requires that fewer than 2^64 buckets were ever opened; after the generation counter wraps, old and new buckets can no longer be told apart. Mutexes, hash maps, the binary heap and sorting are taken as their documentation describes them.
- Throttle.Check: requires the same of the store it counts in.
- FixedWindow.RateBound: excludes the largest 64-bit limit (which limits nothing), keys dropped for capacity and clocks that run back, for all of which the bound is not promised.
- RedisTiming.HeartbeatsExclude: assumes that a live task reaches the broker again within half the delay and a slack, which is the promise the heartbeat makes and not one the runtime can give unconditionally.
- RedisEvents.StepRefines: a replica may read and reclaim in any order, while the code reclaims first and reads only when that yields nothing; every run of the code is a run of the model.
- RedisEvents.NoRedisEventLost: approximate trimming of the stream is not modelled; it may remove pending entries.
- RedisReruns.RerunExactly: is about timely runs, as `RedisTiming.HeartbeatsExclude` has them, and about continuations that lose no further completion of the command; a late task can be overtaken by a second delivery whatever its completion does.
- JetStreamTiming.ProgressExcludes: assumes that a live task reaches the broker again within half the acknowledgement wait and a slack, as for Redis.
- CloseFrame.StrictPrefixAccepted: for frames whose length fits a machine word; a longer announced length is refused as soon as it has been read.
- ProviderSchedule.ScheduleExact: asks that registrations of a type agree, which only applied overrides can change; for types registered more than once with different dependencies the walk follows whichever registration it meets, and `ProviderSchedule.ScheduleSound` says what holds of a schedule and of a failure separately. `OverrideFacts.SecondValidationExact` and `OverrideFacts.BuildableWithOverrides` leave out double registrations for the same reason.
- Startup.BuildContainer: discovery is run once and its list passed on, while the code runs it anew for every phase with the same result; a build for instances set up beforehand and a build for overrides are one method with both. Event handlers registered with the bus are not unregistered by a rollback, in the code as in the model.
- ModuleDiscovery.DiscoverFrom: requires a finite universe of module types that is closed under imports, which a compiled program has.
- Broker, socket and HTTP input and output, connection managers, stable names and JSON are library behaviour: payloads are decoded or not, and carry their sizes.
- The frame codec, the outgoing message queue and the closed flag shared by clones of a WebSocket session: the connection model starts from decoded messages, and the rest would add only easy members.
- Request and reply clients, runtime start and stop, the Axum socket loop, Socket.IO, macros, the command line, OpenAPI, uploads, configuration, log formatting other than timestamps: plumbing.
- The container's set of declared provider types, which is written and never read.
- The memory cache store: a simpler relative of the throttle store.
