# libsel4prof: a verified model of the function-level cycle profiler

This project models the core of `libsel4prof`, a small cycle profiler that uses no heap. GCC's
`-finstrument-functions` inserts calls to two hooks:

- `__cyg_profile_func_enter` runs on every function entry;
- `__cyg_profile_func_exit` runs on every function return.

The model follows the profiler's state for one execution context. Each function's profile node
(`prof_node_t`) lives in a slot just below the function's entry address. `node_from_fn` derives
that slot from the entry address alone.

The first entry of a function claims its slot. A slot is unclaimed while its `magic` is not
`PROFILE_MAGIC`. Claiming a slot initialises the node and appends it to the list rooted at
`prof_list`, through the tail pointer `prof_list_tail`.

A 128-entry shadow stack mirrors the calls. A logical depth counter may exceed 128. Beyond that
depth every frame shares the last physical entry.

Between two hook calls, the cycles elapsed since the time cursor `previous_cycles` are charged to
the frame on top of the shadow stack. The subtraction wraps modulo 2^64 and the addition saturates
(`clamped_add`).

`prof_dump` walks the list. For each node it emits a `[fn, cycle_count]` entry through the encoder
and then zeroes the node's count. It stops at the first encoder error.

The project is split into five files:

- `arith.dfy` (module `Arith`): 64-bit unsigned arithmetic. The saturating add and the wrapping
  subtraction of two counter readings.
- `slot.dfy` (module `Slot`): `node_from_fn` and what its arithmetic guarantees about slot
  placement.
- `model.dfy` (module `ProfileModel`): the profiler state as a value (`Profile`) and its invariant
  `WellFormed`. It defines each hook as a function on that value: `EnterStep`, `ExitStep` and
  `DumpOutcome`.
- `profiler.dfy` (module `Profiler`): the imperative profiler, a class. Node memory is a map field
  keyed by slot address; `head` and `tail` are `prof_list` and `prof_list_tail`; the shadow stack is
  an `array<int>` of 128 entries, with the depth and the cursor as fields. Each hook is a method that
  updates these fields in place: the exchange loop of the append, and the walk of the dump. Each
  method is proved to take the state exactly to the model function's result and to keep the
  invariant.
- `properties.dfy` (module `ProfileProperties`): what the profiler promises. Every registered
  function is listed exactly once, in first-entry order. The shadow-stack rules hold. Each time slice
  is charged to one specific frame. No cycles are lost or double-counted inside a top-level
  call. The cycles spent at depth 0 between top-level calls are charged to no node. A dump resets
  the counts. It also includes the caller/callee example: A runs 100 cycles, calls B for 50,
  then runs 30 more, and A is credited 130 and B 50.

Several things in the source become inputs to the model:

- The hardware cycle counter (`sel4bench_get_cycle_count`) and the runtime's TLS probe
  (`sel4runtime_get_tls_base`) are parameters of `Enter` and `Exit`.
- The encoder and the output stream are a `Stream` value. It names the one call that fails
  (`failAt`) and the nonzero code that call returns (`err`). A `failAt` past the last call describes
  a stream that never fails.
- The dump returns, in order, the stream calls it made: the banner, the outer array start, three
  calls per node, the array end, the stream termination and the newline.

Two details of the code fix the model's behaviour:

- A dump also returns -1 when the final `fputc('\n')` fails (`libsel4prof/src/lib.c:193-197`).
- The append is the exchange loop at `libsel4prof/src/lib.c:85-90`. It exchanges the word
  `prof_list_tail` points to, sets the tail to `&node->next`, and re-inserts any node the
  exchange displaced.

## Model

| member | source | states |
|---|---|---|
| Arith.ClampedAdd | libsel4prof/src/lib.c:49-56 | the result is a 64-bit value equal to min(a + b, UINT64_MAX), and it is at least `a` and at least `b` |
| Arith.WrappingSub | libsel4prof/src/lib.c:100 | `counter - previous_cycles` on `uint64_t`: a 64-bit value congruent to a - b modulo 2^64; it is a - b when a >= b and a - b + 2^64 otherwise |
| Arith.WrappingAdd | libsel4prof/src/lib.c:52 | a plain `uint64_t` sum: a 64-bit value congruent to a + b modulo 2^64 |
| Arith.ClampedAddNeverWraps | libsel4prof/src/lib.c:51-55 | where the plain sum would wrap below `a`, the clamped add returns UINT64_MAX |
| Arith.SaturationIsSticky | libsel4prof/src/lib.c:54 | a count at UINT64_MAX stays there whatever is added |
| Slot.NodeFromFn | libsel4prof/src/lib.c:41-46 | the slot is a 64-bit multiple of the 32-byte node size; for fn >= 32 it lies in (fn - 64, fn - 32] |
| Slot.SlotPrecedesEntry | libsel4prof/src/lib.c:43-44 | for fn >= 64 the slot is non-NULL and the whole node ends at or before the entry address |
| Slot.SharedSlotIff | libsel4prof/src/lib.c:43-44 | two entries share a slot if and only if (fn - 32) / 32 is the same for both |
| Slot.DisjointSlots | libsel4prof/src/lib.c:43-44 | entries at least one node size apart get non-overlapping slots, in the same order |
| ProfileModel.Initial | libsel4prof/src/lib.c:30-38 | the statically initialised state (empty list, depth 0, cursor 0) satisfies the invariant |
| ProfileModel.TopIndex | libsel4prof/src/lib.c:95-99 | the physical index of the top frame is min(depth, 128) - 1 |
| ProfileModel.SameShapeKeepsWellFormed | libsel4prof/src/lib.c:101 | changing only counts (to 64-bit values) keeps the invariant |
| ProfileModel.SetCount | libsel4prof/src/lib.c:101 | storing one node's count changes that count and nothing else, and keeps the invariant |
| ProfileModel.AppendKeepsWellFormed | libsel4prof/src/lib.c:79-90 | initialising an unclaimed slot and linking it after the last node keeps the invariant, with the slot appended to the list order |
| ProfileModel.AppendDistinct | libsel4prof/src/lib.c:78-90 | appending a slot that held no node keeps the list free of repetitions |
| ProfileModel.AppendListed | libsel4prof/src/lib.c:79-84 | after the append every listed slot holds a node, and every node is listed and carries the magic |
| ProfileModel.AppendLinks | libsel4prof/src/lib.c:85-90 | after the append every node's `next` is the following listed slot, NULL after the new last node |
| ProfileModel.AppendLinkAt | libsel4prof/src/lib.c:87-88 | the same `next` property for one list position |
| ProfileModel.Append | libsel4prof/src/lib.c:79-90 | the list order gains exactly the new slot at the end; the stack, depth and cursor are unchanged; the invariant holds |
| ProfileModel.Register | libsel4prof/src/lib.c:78-91 | the guarded first-touch registration keeps the invariant, leaves the stack, depth and cursor alone, and keeps every stored node with the function it records |
| ProfileModel.Charge | libsel4prof/src/lib.c:93-105 | the charge keeps the invariant, touches neither the list nor the stack nor the depth, changes no node field other than the counts, and sets the cursor to the new reading |
| ProfileModel.Push | libsel4prof/src/lib.c:107-111 | the push keeps the invariant |
| ProfileModel.EnterStep | libsel4prof/src/lib.c:66-112 | the enter hook keeps the invariant |
| ProfileModel.ExitStep | libsel4prof/src/lib.c:122-144 | the exit hook, including the ignored exit at depth 0, keeps the invariant |
| ProfileModel.Report | libsel4prof/src/lib.c:162-181 | one `(fn, cycle_count)` pair per listed node, in list order |
| ProfileModel.Entries | libsel4prof/src/lib.c:164-177 | three encoder calls per pair |
| ProfileModel.EntriesAt | libsel4prof/src/lib.c:164-177 | the j-th pair's header, address and count are calls 3j, 3j+1 and 3j+2 of the entries |
| ProfileModel.Planned | libsel4prof/src/lib.c:157-193 | a complete dump makes 3n + 4 stream calls: array start first; array end, terminate and newline last |
| ProfileModel.PlannedAt | libsel4prof/src/lib.c:157-177 | node j's three calls are calls 3j+1 to 3j+3 of the complete dump |
| ProfileModel.PlannedEntry | libsel4prof/src/lib.c:164-177 | an entry cut short after its k-th call is the matching stretch of the complete dump |
| ProfileModel.PlannedTrailer | libsel4prof/src/lib.c:183-193 | a trailer cut short after its k-th call is the last stretch of the complete dump |
| ProfileModel.Reply | libsel4prof/src/lib.c:157-191 | a stream call succeeds (returns 0) exactly when it is not the failing call |
| ProfileModel.Visited | libsel4prof/src/lib.c:163-181 | the number of nodes whose three calls all came before the failing call: at most n, and each of them ends before the failure |
| ProfileModel.VisitedAt | libsel4prof/src/lib.c:164-176 | a failure at any of node j's three calls leaves exactly j nodes visited |
| ProfileModel.Zeroed | libsel4prof/src/lib.c:179 | zeroing counts keeps the set of slots |
| ProfileModel.ZeroedAt | libsel4prof/src/lib.c:179 | a node's count is 0 exactly when its slot was zeroed; no other field of any node changes |
| ProfileModel.WellFormedWalkable | libsel4prof/src/lib.c:162-180 | in a well-formed state the walk from `prof_list` along `next` visits the listed slots in order, each a real address, and ends at NULL |
| ProfileModel.ResetFirstWellFormed | libsel4prof/src/lib.c:179 | zeroing the first k nodes keeps the invariant and changes nothing but counts |
| ProfileModel.ResetFirstCounts | libsel4prof/src/lib.c:162-181 | exactly the first k listed nodes are zeroed; later nodes keep their counts |
| ProfileModel.ResetFirstStep | libsel4prof/src/lib.c:179-180 | zeroing node k is one store update on top of zeroing the first k |
| ProfileModel.DumpOutcome | libsel4prof/src/lib.c:150-198 | the status is 0 exactly when no stream call fails, and the output holds the banner plus every call made, up to and including the failing one |
| ProfileModel.DumpKeepsWellFormed | libsel4prof/src/lib.c:150-198 | a dump keeps the invariant however far it gets |
| Profiler.TailIsNull | libsel4prof/src/lib.c:87-89 | the word the tail points to holds NULL, so one exchange stores the new node and leaves no displaced node to re-insert |
| Profiler.DumpEnds | libsel4prof/src/lib.c:158-197 | every exit of the imperative dump, whether it succeeded or hit a failing call, gives the outcome the model function specifies |
| Profiler.EmitPair | libsel4prof/src/lib.c:164-177 | emits the header, the address and the count, stops after the first failing call, and returns that call's code; it succeeds exactly when all three calls come before the failing one |
| Profiler.EmitTrailer | libsel4prof/src/lib.c:183-197 | closes the array, terminates and writes the newline, stopping at the first failure; the encoder's code, or -1 for the newline |
| Profiler.Profiler.constructor | libsel4prof/src/lib.c:30-38 | the object starts in the initial state with the tail at `&prof_list`, and its shadow stack is a freshly allocated array, so the hooks can be called on it straight away |
| Profiler.Profiler.Exchange | libsel4prof/src/lib.c:87 | stores the value into the word the tail points to (`prof_list` or a node's `next`) and returns what was there |
| Profiler.Profiler.Insert | libsel4prof/src/lib.c:79-90 | the exchange loop initialises the node and appends it, with the tail ending at its `next` |
| Profiler.Profiler.Claim | libsel4prof/src/lib.c:78-91 | the guarded registration takes the state to `Register` of the old state |
| Profiler.Profiler.ChargeTop | libsel4prof/src/lib.c:93-105 | charging the top frame takes the state to `Charge` of the old state |
| Profiler.Profiler.PushFrame | libsel4prof/src/lib.c:107-111 | writes the stack array only when depth < 128 and takes the state to `Push` of the old state |
| Profiler.Profiler.Enter | libsel4prof/src/lib.c:66-112 | when the TLS base is 0 nothing changes; otherwise the new state is `EnterStep` of the old, and the invariant holds |
| Profiler.Profiler.Exit | libsel4prof/src/lib.c:122-144 | when the TLS base is 0 nothing changes; otherwise the new state is `ExitStep` of the old, and the invariant holds |
| Profiler.Profiler.Dump | libsel4prof/src/lib.c:150-198 | the status, the emitted calls and the new node store are those of `DumpOutcome`; the invariant holds |
| Profiler.Profiler.DumpList | libsel4prof/src/lib.c:162-197 | the walk and the trailer together produce `DumpOutcome` |
| Profiler.Profiler.Walk | libsel4prof/src/lib.c:157-181 | the list walk emits the planned calls in order and zeroes exactly the nodes whose three calls succeeded; it stops at the first failing call with that call's code |
| Profiler.Profiler.WalkList | libsel4prof/src/lib.c:162-181 | once the outer array header is accepted, the loop from `prof_list` along `next` emits each node's entry in list order and zeroes the nodes whose three calls succeeded; it stops at the first failing call with that call's code |
| Profiler.Profiler.VisitNode | libsel4prof/src/lib.c:163-180 | one loop turn: emit the node's entry; on success zero its count and follow `next`, on failure change nothing |
| ProfileProperties.FirstEnterAppends | libsel4prof/src/lib.c:78-91 | entering an unclaimed function initialises its node (`next` NULL, the magic, count 0, `fn`) and makes it the last list element; every node already stored keeps its `fn` |
| ProfileProperties.RepeatEnterKeepsList | libsel4prof/src/lib.c:78 | entering a claimed function leaves the list alone and changes only counts |
| ProfileProperties.EnterRegistersOnce | libsel4prof/src/lib.c:78-91 | after an Enter the function's slot occurs exactly once in the list, and a second Enter leaves the list unchanged |
| ProfileProperties.DistinctOnce | libsel4prof/src/lib.c:30-31 | a listed slot occurs exactly once in a list without repetitions |
| ProfileProperties.EnterPushes | libsel4prof/src/lib.c:107-111 | Enter increments the depth by exactly one, writes the new slot at index depth only when depth < 128, and leaves every other entry unchanged |
| ProfileProperties.ExitPops | libsel4prof/src/lib.c:124-143 | Exit never writes the stack or the list; at depth 0 it changes nothing, otherwise it decrements the depth and sets the cursor |
| ProfileProperties.RegisterKeepsCounts | libsel4prof/src/lib.c:78-91 | registration stores the entered function's slot and changes no existing node's count |
| ProfileProperties.ChargeTopFrame | libsel4prof/src/lib.c:93-102 | a charge above depth 0 adds `counter - previous_cycles` (mod 2^64, saturating) to the node at index min(depth, 128) - 1 and to no other node |
| ProfileProperties.EnterCharges | libsel4prof/src/lib.c:93-105 | above depth 0, Enter adds `counter - previous_cycles` (mod 2^64, saturating) to the node at index min(depth, 128) - 1 and to no other node; at depth 0 no count changes; every stored node keeps its `fn`; the cursor becomes `counter` |
| ProfileProperties.ExitCharges | libsel4prof/src/lib.c:126-142 | Exit adds `counter - previous_cycles` (mod 2^64, saturating) to the node at index min(depth, 128) - 1 and to no other node; no field other than a count changes; the cursor becomes `counter` |
| ProfileProperties.Step | libsel4prof/src/lib.c:66-144 | either hook keeps the invariant |
| ProfileProperties.Run | libsel4prof/src/lib.c:66-144 | any sequence of hook calls keeps the invariant |
| ProfileProperties.RunKeepsFn | libsel4prof/src/lib.c:66-144 | no sequence of hook calls rewrites the `fn` of a node already stored, so the dump reports each node under the function that first set it up |
| ProfileProperties.CountBelowTotal | libsel4prof/src/lib.c:100-101 | no node's count exceeds the sum of all counts |
| ProfileProperties.TotalNonNegative | libsel4prof/src/lib.c:100-101 | the sum of the counts is non-negative |
| ProfileProperties.TotalUpdate | libsel4prof/src/lib.c:101 | changing one listed node's count by delta changes the sum by delta |
| ProfileProperties.TotalSame | libsel4prof/src/lib.c:78-91 | stores that agree on the listed counts have the same sum |
| ProfileProperties.TotalSingle | libsel4prof/src/lib.c:100-101 | the sum over a one-node list is that node's count |
| ProfileProperties.TotalAppendZero | libsel4prof/src/lib.c:79-84 | appending a node with count 0 leaves the sum unchanged |
| ProfileProperties.RegisterKeepsTotal | libsel4prof/src/lib.c:78-91 | registration leaves the sum of the counts unchanged |
| ProfileProperties.ChargeAddsElapsed | libsel4prof/src/lib.c:100-105 | inside an open frame, when the counter has not gone back and the count of the frame on top of the stack plus the elapsed cycles stays within UINT64_MAX (so that the clamped add does not saturate), a charge adds exactly the elapsed cycles to the sum |
| ProfileProperties.TopBelowTotal | libsel4prof/src/lib.c:100-101 | the count of the frame on top of the stack is at most the sum of all counts |
| ProfileProperties.StepAddsElapsed | libsel4prof/src/lib.c:93-143 | inside an open frame, when the counter has not gone back and the count of the frame on top of the stack plus the elapsed cycles stays within UINT64_MAX, one hook call adds exactly the elapsed cycles to the sum and moves the cursor to its reading |
| ProfileProperties.NestedRunConserves | libsel4prof/src/lib.c:93-143 | over a run in which every event happens inside an open frame, with ascending counter readings and the sum of all counts plus the elapsed cycles within UINT64_MAX, the sum grows by exactly the last reading minus the starting cursor |
| ProfileProperties.AscendingBound | libsel4prof/src/lib.c:100 | the last reading of an ascending run is at or above its start |
| ProfileProperties.OutermostCallConserves | libsel4prof/src/lib.c:93-143 | one top-level call (an Enter at depth 0 followed by a run nested inside it) credits, in total, exactly the cycles from its entry reading to the last reading, under the same sum bound |
| ProfileProperties.IdleEnterChargesNothing | libsel4prof/src/lib.c:93-105 | an Enter at depth 0 leaves the sum of the counts unchanged: the cycles spent outside every frame are credited to no node |
| ProfileProperties.TwoTopLevelCalls | libsel4prof/src/lib.c:66-144 | a function called twice from depth 0, from c0 to c1 and from c2 to c3, is credited (c1 - c0) + (c3 - c2); the sum of the counts is (c3 - c0) - (c2 - c1), so the gap between the calls is not charged |
| ProfileProperties.GapBetweenCallsUncharged | libsel4prof/src/lib.c:66-144 | calls from 0 to 10 and from 100 to 110 leave a sum of 20, less than the 110 cycles from the first reading to the last |
| ProfileProperties.LoneCall | libsel4prof/src/lib.c:66-144 | a top-level call of the only listed function adds exactly its own duration to that function's count and to the sum |
| ProfileProperties.FirstCall | libsel4prof/src/lib.c:66-144 | the first top-level call from the initial state appends the function and credits it the call's duration, with the stack empty afterwards |
| ProfileProperties.CallerCallee | libsel4prof/src/lib.c:66-144 | A calls B from depth 0: both are appended in that order, A is credited (c1 - c0) + (c3 - c2), B is credited c2 - c1, and the depth is back to 0 |
| ProfileProperties.EnterCallee | libsel4prof/src/lib.c:66-112 | the two Enters of the call append A then B, stack A below B, and credit A the cycles before the call |
| ProfileProperties.EnterFromIdle | libsel4prof/src/lib.c:66-112 | an outermost first Enter appends the slot with count 0 as the only frame and claims no other slot |
| ProfileProperties.ExitCallee | libsel4prof/src/lib.c:122-144 | the two Exits credit B its own time and then A the cycles after the call, and empty the stack |
| ProfileProperties.CallerCalleeExample | libsel4prof/src/lib.c:66-144 | A runs 100 cycles, calls B, B runs 50, A runs 30 more: A's node holds 130 and B's 50 |
| Profiler.OneCallThenDump | libsel4prof/src/lib.c:30-198 | on a newly built profiler, one call from cycle 100 to cycle 150 and then a dump on a stream that never fails: status 0 and the output is exactly the banner, `[[fn, 50]]` and the trailer |
| Profiler.OneCallState | libsel4prof/src/lib.c:66-144 | after one call from cycle 100 to cycle 150 from the initial state, the list holds that function's slot alone, with count 50 |
| Profiler.OneCallReport | libsel4prof/src/lib.c:150-198 | a successful dump of a one-node list emits exactly the banner, that node's entry and the trailer |
| ProfileProperties.DumpResets | libsel4prof/src/lib.c:162-181 | after a dump, node i is zeroed exactly when its three calls all succeeded; nodes not yet visited keep their counts; nothing else changes |
| ProfileProperties.DumpSucceeds | libsel4prof/src/lib.c:150-198 | with no failing call the status is 0 and the output is the banner plus one `[fn, cycle_count]` entry per node in list order, then the trailer |
| ProfileProperties.DumpFails | libsel4prof/src/lib.c:157-197 | with a failing call the status is that call's code, or -1 when only the newline failed, and the output stops after the failing call |
| ProfileProperties.DumpZeroesAll | libsel4prof/src/lib.c:162-181 | a successful dump zeroes every node and changes nothing else |
| ProfileProperties.SecondDumpReportsZero | libsel4prof/src/lib.c:162-181 | after a successful dump, a second one reports every function with count 0 and leaves the state unchanged |

## Left out

- Concurrent registration is not modelled. The model does not cover the atomic-exchange races between execution contexts, or the re-insertion of a node displaced by another context's append. The exchange loop is modelled for one context, where it always runs exactly once.
- Thread-local storage and multiple contexts are not modelled. The model holds the list plus one context's shadow stack, depth and cursor. The unsynchronised read-then-reset race between `prof_dump` and a concurrent hook is out of scope.
- The cbor64 encoder, the base64 streamer and stderr are not modelled. They are foreign code and I/O. They are reduced to the sequence of calls made on them and a `Stream` whose one failing call and error code are parameters. The `fputs` banner is recorded, and its result is ignored, as in the source. The bytes written are not modelled.
- `sel4bench_get_cycle_count` and `sel4runtime_get_tls_base` are hardware and runtime reads. They become parameters of `Enter` and `Exit`.
- Code padding is not modelled as real memory. Node memory is an abstract store keyed by slot address, and a slot the profiler never wrote is absent from it. The model therefore does not capture a slot in the padding whose bytes happen to equal `PROFILE_MAGIC` before the function is first entered.
- Profiler.Profiler.Enter: requires a non-NULL slot (`HasSlot`). Following the layout contract, a real function's padding never sits at address 0. The source makes no such check.
- Profiler.Profiler.Enter: requires the invariant `Valid()`. The constructor establishes it and every method keeps it.
- Profiler.Profiler.Exit: requires the invariant `Valid()`. The constructor establishes it and every method keeps it.
- Profiler.Profiler.Dump: requires the invariant `Valid()`. The constructor establishes it and every method keeps it.
- Profiler.Profiler.Dump: requires the stream's error code to be nonzero, since an encoder reports failure with a nonzero code.
- The depth is a `nat`. A `size_t` wrap of `call_stack_depth` would take 2^64 nested calls and is not modelled.
- ProfileProperties.NestedRunConserves: requires the sum of all counts plus the elapsed cycles to stay within UINT64_MAX. That is stronger than "no single count saturates". It also requires ascending counter readings. With a saturated count or a counter that wraps, the sum is not conserved. `EnterCharges` and `ExitCharges` state the exact per-event update in those cases. The per-step lemmas `ChargeAddsElapsed` and `StepAddsElapsed` need only the weaker bound on the charged node's count.
- ProfileProperties.OutermostCallConserves: covers one top-level call only. Across several top-level calls in a row, the cycles spent at depth 0 between them are charged to no node, so the sum falls short of the last reading minus the first. `TwoTopLevelCalls` and `GapBetweenCallsUncharged` prove this. The lemma also carries the same bound on the sum of all counts as `NestedRunConserves`.
- The call site argument of both hooks is not modelled, because the source never reads it.
- The function address of the exit hook is not modelled, because the source never reads it.
- `libsel4debug/src/logbuffer.c` is not part of this model. It is serialisation through the external encoder, with no logic of its own.
- `libsel4vka/sel4_arch_include/aarch64/vka/sel4_arch/kobject_t.h` is not part of this model. It is a lookup of kernel constants defined elsewhere.
- `libsel4prof/include/sel4prof.h` is not part of this model. It contains only declarations and the no-instrument attribute.
- The target is 64-bit, so `sizeof(prof_node_t)` is 32 bytes: four 8-byte fields.
