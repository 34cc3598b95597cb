/** What the profiler promises, stated over the value model of one
    execution context: exactly-once registration, the shadow-stack
    discipline, which frame each time slice is charged to, conservation of
    cycles over a nested run, and the reset performed by the dump. */
module ProfileProperties {
  import opened Arith
  import opened Slot
  import opened ProfileModel

  // ---------------------------------------------------------------------
  // Registration

  /** The first Enter of a function initialises its slot (`next` NULL, the
      magic, count 0, the function's address) and appends it as the last
      element of the list. */
  lemma FirstEnterAppends(p: Profile, fn: int, counter: int)
    requires WellFormed(p) && HasSlot(fn) && IsU64(counter)
    requires !Claimed(p, NodeFromFn(fn))
    ensures var r := EnterStep(p, fn, counter);
            var a := NodeFromFn(fn);
            && r.registry == p.registry + [a]
            && r.nodes[a] == ProfNode(Null, ProfileMagic, 0, fn)
            && KeepsFn(p.nodes, r.nodes)
  {
    var a := NodeFromFn(fn);
    assert a !in p.nodes;
    var q := Register(p, fn);
    assert q.nodes[a] == ProfNode(Null, ProfileMagic, 0, fn);
    if p.depth > 0 {
      var top := p.stack[TopIndex(p.depth)];
      assert top in p.nodes;
    }
  }

  /** An Enter of a function whose slot is already claimed registers
      nothing: the list and every node other than the charged count stay
      as they were. */
  lemma RepeatEnterKeepsList(p: Profile, fn: int, counter: int)
    requires WellFormed(p) && HasSlot(fn) && IsU64(counter)
    requires Claimed(p, NodeFromFn(fn))
    ensures var r := EnterStep(p, fn, counter);
            && r.registry == p.registry
            && SameShape(p.nodes, r.nodes)
  {
    var r := EnterStep(p, fn, counter);
    assert Register(p, fn) == p;
    if p.depth > 0 {
      var top := p.stack[TopIndex(p.depth)];
      assert top in p.nodes;
    }
  }

  /** However often a function is entered, its slot appears in the list
      exactly once: after one Enter it is listed once, and a second Enter
      leaves the list unchanged. */
  lemma {:induction false} EnterRegistersOnce(p: Profile, fn: int, c1: int, c2: int)
    requires WellFormed(p) && HasSlot(fn) && IsU64(c1) && IsU64(c2)
    ensures var q := EnterStep(p, fn, c1);
            && multiset(q.registry)[NodeFromFn(fn)] == 1
            && EnterStep(q, fn, c2).registry == q.registry
  {
    var a := NodeFromFn(fn);
    var q := EnterStep(p, fn, c1);
    if Claimed(p, a) {
      RepeatEnterKeepsList(p, fn, c1);
    } else {
      FirstEnterAppends(p, fn, c1);
    }
    assert a in q.nodes;
    assert Claimed(q, a);
    RepeatEnterKeepsList(q, fn, c2);
    DistinctOnce(q.registry, a);
  }

  /** In a list without repetitions, a listed element occurs once. */
  lemma {:induction false} DistinctOnce(s: seq<int>, x: int)
    requires Distinct(s) && x in s
    ensures multiset(s)[x] == 1
  {
    if s[0] == x {
      assert x !in s[1..];
    } else {
      assert Distinct(s[1..]);
      DistinctOnce(s[1..], x);
    }
    assert s == [s[0]] + s[1..];
  }

  // ---------------------------------------------------------------------
  // Shadow stack

  /** Enter counts one more frame in the logical depth; it writes the new
      frame's slot into the physical stack at index `depth` when there is
      room and leaves every other entry, and the whole stack beyond the
      capacity, unchanged. */
  lemma EnterPushes(p: Profile, fn: int, counter: int)
    requires WellFormed(p) && HasSlot(fn) && IsU64(counter)
    ensures var r := EnterStep(p, fn, counter);
            && r.depth == p.depth + 1
            && |r.stack| == EntryStackSize
            && (p.depth < EntryStackSize ==> r.stack[p.depth] == NodeFromFn(fn))
            && (forall i :: 0 <= i < EntryStackSize && i != p.depth ==> r.stack[i] == p.stack[i])
  {
  }

  /** Exit never writes the physical stack; it removes one frame from the
      logical depth, and at depth 0 it changes nothing at all. */
  lemma ExitPops(p: Profile, counter: int)
    requires WellFormed(p) && IsU64(counter)
    ensures var r := ExitStep(p, counter);
            && r.stack == p.stack
            && r.registry == p.registry
            && (p.depth == 0 ==> r == p)
            && (p.depth > 0 ==> r.depth == p.depth - 1 && r.previous == counter)
  {
  }

  // ---------------------------------------------------------------------
  // Charging

  /** The count of the node `addr` in a store. */
  function CountOf(p: Profile, addr: int): (count: int)
    requires addr in p.nodes
  {
    p.nodes[addr].cycleCount
  }

  /** Registration never changes a count: every node already stored is
      still stored with the same count. */
  lemma RegisterKeepsCounts(p: Profile, fn: int)
    requires WellFormed(p) && HasSlot(fn)
    ensures var q := Register(p, fn);
            && NodeFromFn(fn) in q.nodes
            && forall b :: b in p.nodes ==> b in q.nodes && CountOf(q, b) == CountOf(p, b)
  {
    if !Claimed(p, NodeFromFn(fn)) {
      assert NodeFromFn(fn) !in p.nodes;
    }
  }

  /** A charge above depth 0 adds `counter - previous_cycles` (modulo 2^64,
      saturating) to the frame at physical index min(depth, 128) - 1 and
      changes no other count. */
  lemma ChargeTopFrame(p: Profile, counter: int)
    requires WellFormed(p) && IsU64(counter) && p.depth > 0
    ensures var r := Charge(p, counter);
            var top := p.stack[Min(p.depth, EntryStackSize) - 1];
            && top in p.nodes && top in r.nodes
            && CountOf(r, top) == ClampedAdd(CountOf(p, top), WrappingSub(counter, p.previous))
            && (forall b :: b in p.nodes && b != top ==> b in r.nodes && CountOf(r, b) == CountOf(p, b))
  {
    var top := p.stack[TopIndex(p.depth)];
    assert top in p.nodes;
  }

  /** An Enter above depth 0 charges the cycles since the previous event
      (`counter - previous_cycles` modulo 2^64) to the frame at physical
      index min(depth, 128) - 1, saturating, and no other count changes;
      at depth 0 no count changes.  The time cursor becomes `counter`. */
  lemma EnterCharges(p: Profile, fn: int, counter: int)
    requires WellFormed(p) && HasSlot(fn) && IsU64(counter)
    ensures var r := EnterStep(p, fn, counter);
            && r.previous == counter
            && (forall b :: b in p.nodes && (p.depth == 0 || b != p.stack[Min(p.depth, EntryStackSize) - 1]) ==>
                  b in r.nodes && CountOf(r, b) == CountOf(p, b))
            && (p.depth > 0 ==>
                  var top := p.stack[Min(p.depth, EntryStackSize) - 1];
                  top in p.nodes && top in r.nodes
                  && CountOf(r, top) == ClampedAdd(CountOf(p, top), WrappingSub(counter, p.previous)))
            && KeepsFn(p.nodes, r.nodes)
  {
    var q := Register(p, fn);
    RegisterKeepsCounts(p, fn);
    var c := Charge(q, counter);
    assert EnterStep(p, fn, counter).nodes == c.nodes;
    if p.depth > 0 {
      ChargeTopFrame(q, counter);
    }
  }

  /** An Exit above depth 0 charges the cycles since the previous event to
      the frame being exited, at physical index min(depth, 128) - 1,
      saturating, and no other count changes. */
  lemma ExitCharges(p: Profile, counter: int)
    requires WellFormed(p) && IsU64(counter) && p.depth > 0
    ensures var r := ExitStep(p, counter);
            var top := p.stack[Min(p.depth, EntryStackSize) - 1];
            && top in p.nodes && top in r.nodes
            && CountOf(r, top) == ClampedAdd(CountOf(p, top), WrappingSub(counter, p.previous))
            && (forall b :: b in p.nodes && b != top ==> b in r.nodes && CountOf(r, b) == CountOf(p, b))
            && r.previous == counter
            && SameShape(p.nodes, r.nodes)
  {
    ChargeTopFrame(p, counter);
  }

  // ---------------------------------------------------------------------
  // Conservation of cycles

  /** One call of a hook, with what it reads from its environment. */
  datatype Event = EnterEvent(fn: int, counter: int) | ExitEvent(counter: int)

  predicate EventOk(e: Event) {
    IsU64(e.counter) && (e.EnterEvent? ==> HasSlot(e.fn))
  }

  predicate EventsOk(evs: seq<Event>) {
    forall i :: 0 <= i < |evs| ==> EventOk(evs[i])
  }

  function Step(p: Profile, e: Event): (r: Profile)
    requires WellFormed(p) && EventOk(e)
    ensures WellFormed(r)
  {
    match e
    case EnterEvent(fn, counter) => EnterStep(p, fn, counter)
    case ExitEvent(counter) => ExitStep(p, counter)
  }

  /** The state after a sequence of hook calls on one context. */
  function Run(p: Profile, evs: seq<Event>): (r: Profile)
    requires WellFormed(p) && EventsOk(evs)
    ensures WellFormed(r)
    decreases |evs|
  {
    if evs == [] then p else Run(Step(p, evs[0]), evs[1..])
  }

  /** No sequence of hook calls rewrites the function a stored node
      records: the source writes `fn` only when it first sets a node up. */
  lemma {:induction false} RunKeepsFn(p: Profile, evs: seq<Event>)
    requires WellFormed(p) && EventsOk(evs)
    ensures KeepsFn(p.nodes, Run(p, evs).nodes)
    decreases |evs|
  {
    if evs != [] {
      var q := Step(p, evs[0]);
      assert KeepsFn(p.nodes, q.nodes) by {
        match evs[0]
        case EnterEvent(fn, counter) =>
          assert KeepsFn(Register(p, fn).nodes, q.nodes);
        case ExitEvent(counter) =>
      }
      assert EventsOk(evs[1..]) by {
        forall i | 0 <= i < |evs[1..]| ensures EventOk(evs[1..][i]) { assert evs[1..][i] == evs[i + 1]; }
      }
      RunKeepsFn(q, evs[1..]);
    }
  }

  /** The sum of the counts of the listed nodes. */
  function Total(nodes: map<int, ProfNode>, registry: seq<int>): (t: int)
    requires forall i :: 0 <= i < |registry| ==> registry[i] in nodes
    decreases |registry|
  {
    if registry == [] then 0
    else nodes[registry[0]].cycleCount + Total(nodes, registry[1..])
  }

  function TotalOf(p: Profile): (t: int)
    requires WellFormed(p)
  {
    Total(p.nodes, p.registry)
  }

  /** The cycle counter read at each event never goes down, starting from
      the time cursor `previous`. */
  predicate Ascending(previous: int, evs: seq<Event>)
    decreases |evs|
  {
    evs == [] || (previous <= evs[0].counter && Ascending(evs[0].counter, evs[1..]))
  }

  /** The last counter reading of the run (the cursor if there is none). */
  function LastReading(previous: int, evs: seq<Event>): (last: int) {
    if evs == [] then previous else evs[|evs| - 1].counter
  }

  /** Every event of the run happens inside at least one open frame: the
      run stays within one outermost call. */
  ghost predicate Nested(p: Profile, evs: seq<Event>)
    requires WellFormed(p) && EventsOk(evs)
    decreases |evs|
  {
    evs == [] || (p.depth > 0 && Nested(Step(p, evs[0]), evs[1..]))
  }

  /** No count exceeds the sum of the counts. */
  lemma {:induction false} CountBelowTotal(nodes: map<int, ProfNode>, registry: seq<int>, i: int)
    requires forall k :: 0 <= k < |registry| ==> registry[k] in nodes && nodes[registry[k]].cycleCount >= 0
    requires 0 <= i < |registry|
    ensures 0 <= nodes[registry[i]].cycleCount <= Total(nodes, registry)
    decreases |registry|
  {
    TotalNonNegative(nodes, registry[1..]);
    if i > 0 {
      CountBelowTotal(nodes, registry[1..], i - 1);
    }
  }

  lemma {:induction false} TotalNonNegative(nodes: map<int, ProfNode>, registry: seq<int>)
    requires forall k :: 0 <= k < |registry| ==> registry[k] in nodes && nodes[registry[k]].cycleCount >= 0
    ensures Total(nodes, registry) >= 0
    decreases |registry|
  {
    if registry != [] {
      TotalNonNegative(nodes, registry[1..]);
    }
  }

  /** Changing the count of one listed node by `delta` changes the sum by
      `delta`, when the list has no repetitions. */
  lemma {:induction false} TotalUpdate(nodes: map<int, ProfNode>, m: map<int, ProfNode>, registry: seq<int>, a: int, delta: int)
    requires Distinct(registry) && a in registry
    requires forall k :: 0 <= k < |registry| ==> registry[k] in nodes && registry[k] in m
    requires m[a].cycleCount == nodes[a].cycleCount + delta
    requires forall k :: 0 <= k < |registry| && registry[k] != a ==> m[registry[k]].cycleCount == nodes[registry[k]].cycleCount
    ensures Total(m, registry) == Total(nodes, registry) + delta
    decreases |registry|
  {
    if registry[0] == a {
      assert a !in registry[1..];
      TotalSame(nodes, m, registry[1..]);
    } else {
      TotalUpdate(nodes, m, registry[1..], a, delta);
    }
  }

  /** Stores that agree on the counts of the listed nodes have the same
      sum. */
  lemma {:induction false} TotalSame(nodes: map<int, ProfNode>, m: map<int, ProfNode>, registry: seq<int>)
    requires forall k :: 0 <= k < |registry| ==> registry[k] in nodes && registry[k] in m
    requires forall k :: 0 <= k < |registry| ==> m[registry[k]].cycleCount == nodes[registry[k]].cycleCount
    ensures Total(m, registry) == Total(nodes, registry)
    decreases |registry|
  {
    if registry != [] {
      TotalSame(nodes, m, registry[1..]);
    }
  }

  /** The sum over a one-node list is that node's count. */
  lemma TotalSingle(nodes: map<int, ProfNode>, a: int)
    requires a in nodes
    ensures Total(nodes, [a]) == nodes[a].cycleCount
  {
    assert [a][1..] == [];
  }

  /** A node appended with count 0 adds nothing to the sum. */
  lemma {:induction false} TotalAppendZero(nodes: map<int, ProfNode>, m: map<int, ProfNode>, registry: seq<int>, a: int)
    requires forall k :: 0 <= k < |registry| ==> registry[k] in nodes && registry[k] in m
    requires forall k :: 0 <= k < |registry| ==> m[registry[k]].cycleCount == nodes[registry[k]].cycleCount
    requires a in m && m[a].cycleCount == 0
    ensures Total(m, registry + [a]) == Total(nodes, registry)
    decreases |registry|
  {
    if registry == [] {
      assert registry + [a] == [a];
    } else {
      assert (registry + [a])[1..] == registry[1..] + [a];
      TotalAppendZero(nodes, m, registry[1..], a);
    }
  }

  /** Registering a node leaves the sum of the counts unchanged. */
  lemma RegisterKeepsTotal(p: Profile, fn: int)
    requires WellFormed(p) && HasSlot(fn)
    ensures TotalOf(Register(p, fn)) == TotalOf(p)
  {
    var a := NodeFromFn(fn);
    if !Claimed(p, a) {
      assert a !in p.nodes;
      var q := Register(p, fn);
      forall k | 0 <= k < |p.registry| ensures p.registry[k] in q.nodes && q.nodes[p.registry[k]].cycleCount == p.nodes[p.registry[k]].cycleCount {
        assert p.registry[k] in p.nodes;
      }
      TotalAppendZero(p.nodes, q.nodes, p.registry, a);
    }
  }

  /** Charging inside an open frame, when the charged node does not
      saturate and the counter has not gone down, adds exactly the elapsed
      cycles to the sum. */
  lemma ChargeAddsElapsed(p: Profile, counter: int)
    requires WellFormed(p) && IsU64(counter) && p.depth > 0
    requires p.previous <= counter
    requires CountOf(p, p.stack[Min(p.depth, EntryStackSize) - 1]) + (counter - p.previous) <= U64Max
    ensures TotalOf(Charge(p, counter)) == TotalOf(p) + (counter - p.previous)
  {
    var top := p.stack[TopIndex(p.depth)];
    var r := Charge(p, counter);
    ChargeTopFrame(p, counter);
    assert top in p.registry;
    assert CountOf(r, top) == CountOf(p, top) + (counter - p.previous);
    forall i | 0 <= i < |p.registry| ensures p.registry[i] in p.nodes && p.registry[i] in r.nodes {
      assert p.registry[i] in p.nodes;
    }
    TotalUpdate(p.nodes, r.nodes, p.registry, top, counter - p.previous);
  }

  /** The count of the frame on top of the stack is part of the sum. */
  lemma TopBelowTotal(p: Profile)
    requires WellFormed(p) && p.depth > 0
    ensures CountOf(p, p.stack[Min(p.depth, EntryStackSize) - 1]) <= TotalOf(p)
  {
    var top := p.stack[TopIndex(p.depth)];
    assert top in p.nodes && top in p.registry;
    var k :| 0 <= k < |p.registry| && p.registry[k] == top;
    forall i | 0 <= i < |p.registry| ensures p.registry[i] in p.nodes && p.nodes[p.registry[i]].cycleCount >= 0 {
      assert p.registry[i] in p.nodes;
    }
    CountBelowTotal(p.nodes, p.registry, k);
  }

  /** One event inside an open frame, when the frame it charges does not
      saturate and the counter has not gone down, adds exactly the elapsed
      cycles to the sum of the counts. */
  lemma StepAddsElapsed(p: Profile, e: Event)
    requires WellFormed(p) && EventOk(e) && p.depth > 0
    requires p.previous <= e.counter
    requires CountOf(p, p.stack[Min(p.depth, EntryStackSize) - 1]) + (e.counter - p.previous) <= U64Max
    ensures TotalOf(Step(p, e)) == TotalOf(p) + (e.counter - p.previous)
    ensures Step(p, e).previous == e.counter
  {
    match e
    case EnterEvent(fn, counter) =>
      var q := Register(p, fn);
      RegisterKeepsTotal(p, fn);
      RegisterKeepsCounts(p, fn);
      ChargeAddsElapsed(q, counter);
      var c := Charge(q, counter);
      assert EnterStep(p, fn, counter) == Push(c, NodeFromFn(fn));
    case ExitEvent(counter) =>
      ChargeAddsElapsed(p, counter);
  }

  /** Conservation: over a run that stays inside an open frame, with a
      counter that never goes down and the sum of the counts plus the
      elapsed cycles within the 64-bit maximum (so that no count
      saturates), the counts grow in sum by exactly the cycles elapsed from
      the time cursor to the last reading; every cycle is charged to
      exactly one frame. */
  lemma {:induction false} NestedRunConserves(p: Profile, evs: seq<Event>)
    requires WellFormed(p) && EventsOk(evs)
    requires Nested(p, evs) && Ascending(p.previous, evs)
    requires TotalOf(p) + (LastReading(p.previous, evs) - p.previous) <= U64Max
    ensures TotalOf(Run(p, evs)) == TotalOf(p) + (LastReading(p.previous, evs) - p.previous)
    decreases |evs|
  {
    if evs != [] {
      var e := evs[0];
      AscendingBound(e.counter, evs[1..]);
      TopBelowTotal(p);
      StepAddsElapsed(p, e);
      assert EventsOk(evs[1..]) by {
        forall i | 0 <= i < |evs[1..]| ensures EventOk(evs[1..][i]) { assert evs[1..][i] == evs[i + 1]; }
      }
      var q := Step(p, e);
      if evs[1..] == [] {
        assert LastReading(p.previous, evs) == e.counter;
      } else {
        assert LastReading(q.previous, evs[1..]) == LastReading(p.previous, evs);
      }
      NestedRunConserves(q, evs[1..]);
    }
  }

  /** The readings of an ascending run stay at or above its start. */
  lemma {:induction false} AscendingBound(previous: int, evs: seq<Event>)
    requires Ascending(previous, evs)
    ensures previous <= LastReading(previous, evs)
    decreases |evs|
  {
    if evs != [] && evs[1..] != [] {
      AscendingBound(evs[0].counter, evs[1..]);
      assert LastReading(evs[0].counter, evs[1..]) == LastReading(previous, evs);
    }
  }

  /** A single outermost call: its Enter at depth 0 charges nothing and
      starts the time window, and from then on every cycle up to the last
      reading of the run is charged to some frame. */
  lemma OutermostCallConserves(p: Profile, fn: int, c0: int, evs: seq<Event>)
    requires WellFormed(p) && p.depth == 0 && EventOk(EnterEvent(fn, c0)) && EventsOk(evs)
    requires Nested(EnterStep(p, fn, c0), evs) && Ascending(c0, evs)
    requires TotalOf(p) + (LastReading(c0, evs) - c0) <= U64Max
    ensures EventsOk([EnterEvent(fn, c0)] + evs)
    ensures TotalOf(Run(p, [EnterEvent(fn, c0)] + evs)) == TotalOf(p) + (LastReading(c0, evs) - c0)
  {
    var all := [EnterEvent(fn, c0)] + evs;
    assert all[1..] == evs;
    assert EventsOk(all) by {
      forall i | 0 <= i < |all| ensures EventOk(all[i]) {
        if i > 0 { assert all[i] == evs[i - 1]; }
      }
    }
    var q := EnterStep(p, fn, c0);
    assert Step(p, all[0]) == q;
    var r := Register(p, fn);
    RegisterKeepsTotal(p, fn);
    assert TotalOf(Charge(r, c0)) == TotalOf(r);
    assert TotalOf(q) == TotalOf(p);
    NestedRunConserves(q, evs);
    assert Run(p, all) == Run(q, evs);
  }

  /** An Enter at depth 0 charges nothing: the cycles since the previous
      event fall outside every frame and are credited to no node. */
  lemma IdleEnterChargesNothing(p: Profile, fn: int, counter: int)
    requires WellFormed(p) && p.depth == 0 && HasSlot(fn) && IsU64(counter)
    ensures TotalOf(EnterStep(p, fn, counter)) == TotalOf(p)
    ensures EnterStep(p, fn, counter).previous == counter
  {
    var q := Register(p, fn);
    RegisterKeepsTotal(p, fn);
    assert EnterStep(p, fn, counter).nodes == q.nodes;
  }

  /** Conservation does not extend across top-level calls: a function
      called twice from depth 0, first from `c0` to `c1`, then from `c2` to
      `c3`, is credited both calls, and the `c2 - c1` cycles between them,
      spent at depth 0, are charged to no node. */
  lemma TwoTopLevelCalls(fn: int, c0: int, c1: int, c2: int, c3: int)
    requires HasSlot(fn) && IsU64(c0) && IsU64(c1) && IsU64(c2) && IsU64(c3)
    requires c0 <= c1 <= c2 <= c3 && (c1 - c0) + (c3 - c2) <= U64Max
    ensures var r := ExitStep(EnterStep(ExitStep(EnterStep(Initial(), fn, c0), c1), fn, c2), c3);
            var sa := NodeFromFn(fn);
            && r.registry == [sa]
            && sa in r.nodes && CountOf(r, sa) == (c1 - c0) + (c3 - c2)
            && TotalOf(r) == (c3 - c0) - (c2 - c1)
  {
    var p2 := ExitStep(EnterStep(Initial(), fn, c0), c1);
    FirstCall(fn, c0, c1);
    TotalSingle(p2.nodes, NodeFromFn(fn));
    LoneCall(p2, fn, c2, c3);
  }

  /** The example: a function runs from 0 to 10 and again from 100 to
      110.  The sum of the counts is 20, not the 110 cycles from the first
      reading to the last. */
  lemma GapBetweenCallsUncharged(fn: int)
    requires HasSlot(fn)
    ensures var r := ExitStep(EnterStep(ExitStep(EnterStep(Initial(), fn, 0), 10), fn, 100), 110);
            && TotalOf(r) == 20 && TotalOf(r) < 110 - 0
  {
    TwoTopLevelCalls(fn, 0, 10, 100, 110);
  }

  /** A top-level call of the only listed function, from `c2` to `c3`:
      its count, and so the sum of the counts, grows by `c3 - c2`; what
      came before `c2` is not charged. */
  lemma LoneCall(p: Profile, fn: int, c2: int, c3: int)
    requires WellFormed(p) && p.depth == 0 && HasSlot(fn)
    requires p.registry == [NodeFromFn(fn)]
    requires IsU64(c2) && IsU64(c3) && c2 <= c3
    requires NodeFromFn(fn) in p.nodes && CountOf(p, NodeFromFn(fn)) + (c3 - c2) <= U64Max
    ensures var r := ExitStep(EnterStep(p, fn, c2), c3);
            var sa := NodeFromFn(fn);
            && r.registry == [sa]
            && sa in r.nodes && CountOf(r, sa) == CountOf(p, sa) + (c3 - c2)
            && TotalOf(r) == TotalOf(p) + (c3 - c2)
  {
    var sa := NodeFromFn(fn);
    assert sa in p.nodes;
    var p3 := EnterStep(p, fn, c2);
    RepeatEnterKeepsList(p, fn, c2);
    EnterCharges(p, fn, c2);
    EnterPushes(p, fn, c2);
    var r := ExitStep(p3, c3);
    ExitCharges(p3, c3);
    ExitPops(p3, c3);
    assert p3.depth == 1 && p3.stack[0] == sa && p3.previous == c2;
    TotalSingle(p.nodes, sa);
    TotalSingle(r.nodes, sa);
  }

  /** The first of the two calls: the function's node is appended and
      charged the cycles of the call, and the stack is empty again. */
  lemma FirstCall(fn: int, c0: int, c1: int)
    requires HasSlot(fn) && IsU64(c0) && IsU64(c1) && c0 <= c1
    ensures var r := ExitStep(EnterStep(Initial(), fn, c0), c1);
            var sa := NodeFromFn(fn);
            && r.registry == [sa] && r.depth == 0 && r.previous == c1
            && sa in r.nodes && CountOf(r, sa) == c1 - c0
  {
    var p0 := Initial();
    EnterFromIdle(p0, fn, c0, Null);
    var p1 := EnterStep(p0, fn, c0);
    ExitCharges(p1, c1);
    ExitPops(p1, c1);
  }

  /** A calls B: A is entered at `c0`, B at `c1`, B returns at `c2` and A
      at `c3`, from depth 0 and with neither slot claimed before.  A is
      charged its own time on both sides of the call, B the time between
      its enter and exit, and both are appended to the list in that
      order. */
  lemma CallerCallee(p: Profile, a: int, b: int, c0: int, c1: int, c2: int, c3: int)
    requires WellFormed(p) && p.depth == 0 && HasSlot(a) && HasSlot(b)
    requires NodeFromFn(a) != NodeFromFn(b)
    requires !Claimed(p, NodeFromFn(a)) && !Claimed(p, NodeFromFn(b))
    requires IsU64(c0) && IsU64(c1) && IsU64(c2) && IsU64(c3)
    requires c0 <= c1 <= c2 <= c3
    ensures var r := ExitStep(ExitStep(EnterStep(EnterStep(p, a, c0), b, c1), c2), c3);
            var sa, sb := NodeFromFn(a), NodeFromFn(b);
            && r.registry == p.registry + [sa, sb]
            && sa in r.nodes && sb in r.nodes
            && CountOf(r, sa) == (c1 - c0) + (c3 - c2)
            && CountOf(r, sb) == c2 - c1
            && r.depth == 0 && r.previous == c3
  {
    var p2 := EnterStep(EnterStep(p, a, c0), b, c1);
    EnterCallee(p, a, b, c0, c1);
    ExitCallee(p2, NodeFromFn(a), NodeFromFn(b), c2, c3);
  }

  /** The two Enters of the call: A's slot then B's is appended, the stack
      holds A below B, and A is charged the cycles before the call. */
  lemma EnterCallee(p: Profile, a: int, b: int, c0: int, c1: int)
    requires WellFormed(p) && p.depth == 0 && HasSlot(a) && HasSlot(b)
    requires NodeFromFn(a) != NodeFromFn(b)
    requires !Claimed(p, NodeFromFn(a)) && !Claimed(p, NodeFromFn(b))
    requires IsU64(c0) && IsU64(c1) && c0 <= c1
    ensures var r := EnterStep(EnterStep(p, a, c0), b, c1);
            var sa, sb := NodeFromFn(a), NodeFromFn(b);
            && r.registry == p.registry + [sa, sb]
            && r.depth == 2 && r.stack[0] == sa && r.stack[1] == sb && r.previous == c1
            && sa in r.nodes && sb in r.nodes
            && CountOf(r, sa) == c1 - c0 && CountOf(r, sb) == 0
  {
    var sa, sb := NodeFromFn(a), NodeFromFn(b);
    var p1 := EnterStep(p, a, c0);
    EnterFromIdle(p, a, c0, sb);
    FirstEnterAppends(p1, b, c1);
    EnterPushes(p1, b, c1);
    EnterCharges(p1, b, c1);
    assert p.registry + [sa] + [sb] == p.registry + [sa, sb];
  }

  /** An outermost Enter of a function never entered before: its slot is
      appended with count 0 and becomes the only frame, and no other slot
      is claimed by it. */
  lemma EnterFromIdle(p: Profile, a: int, c0: int, other: int)
    requires WellFormed(p) && p.depth == 0 && HasSlot(a) && IsU64(c0)
    requires !Claimed(p, NodeFromFn(a)) && !Claimed(p, other) && other != NodeFromFn(a)
    ensures var r := EnterStep(p, a, c0);
            var sa := NodeFromFn(a);
            && r.registry == p.registry + [sa]
            && r.depth == 1 && r.stack[0] == sa && r.previous == c0
            && sa in r.nodes && CountOf(r, sa) == 0
            && !Claimed(r, other)
  {
    FirstEnterAppends(p, a, c0);
    EnterPushes(p, a, c0);
    assert other !in p.nodes;
  }

  /** The two Exits of the call: B is charged its own time, then A the
      cycles after the call, and the stack is empty again. */
  lemma ExitCallee(p: Profile, sa: int, sb: int, c2: int, c3: int)
    requires WellFormed(p) && p.depth == 2 && p.stack[0] == sa && p.stack[1] == sb && sa != sb
    requires IsU64(c2) && IsU64(c3) && p.previous <= c2 <= c3
    requires sa in p.nodes && sb in p.nodes
    requires CountOf(p, sa) + (c3 - c2) <= U64Max && CountOf(p, sb) + (c2 - p.previous) <= U64Max
    ensures var r := ExitStep(ExitStep(p, c2), c3);
            && r.registry == p.registry
            && sa in r.nodes && sb in r.nodes
            && CountOf(r, sa) == CountOf(p, sa) + (c3 - c2)
            && CountOf(r, sb) == CountOf(p, sb) + (c2 - p.previous)
            && r.depth == 0 && r.previous == c3
  {
    var p3 := ExitStep(p, c2);
    ExitCharges(p, c2);
    ExitPops(p, c2);
    ExitCharges(p3, c3);
    ExitPops(p3, c3);
  }

  /** The worked example: A runs 100 cycles, calls B, B runs 50 cycles and
      returns, A runs 30 more cycles and returns.  From the initial state
      A's node holds 130 and B's 50. */
  lemma CallerCalleeExample()
    ensures var r := ExitStep(ExitStep(EnterStep(EnterStep(Initial(), 0x1000, 1000), 0x2000, 1100), 1150), 1180);
            && r.registry == [NodeFromFn(0x1000), NodeFromFn(0x2000)]
            && NodeFromFn(0x1000) in r.nodes && NodeFromFn(0x2000) in r.nodes
            && CountOf(r, NodeFromFn(0x1000)) == 130 && CountOf(r, NodeFromFn(0x2000)) == 50
  {
    assert NodeFromFn(0x1000) == 0x1000 - NodeSize && NodeFromFn(0x2000) == 0x2000 - NodeSize;
    CallerCallee(Initial(), 0x1000, 0x2000, 1000, 1100, 1150, 1180);
  }

  // ---------------------------------------------------------------------
  // Dump

  /** After a dump, the i-th listed node's count is zero when all three of
      its stream calls (3i+1 .. 3i+3) succeeded and is unchanged
      otherwise; the list, the stack, the depth and the cursor are
      untouched, as is every other field of every node. */
  lemma DumpResets(p: Profile, s: Stream, i: nat)
    requires WellFormed(p) && s.err != 0 && i < |p.registry|
    ensures var d := DumpOutcome(p, s);
            var a := p.registry[i];
            && d.after.registry == p.registry && d.after.stack == p.stack
            && d.after.depth == p.depth && d.after.previous == p.previous
            && a in d.after.nodes
            && d.after.nodes[a] == p.nodes[a].(cycleCount := if 3 * i + 3 < s.failAt then 0 else p.nodes[a].cycleCount)
  {
    var n := |p.registry|;
    var k := Visited(s.failAt, n);
    ResetFirstCounts(p, k, i);
    assert i < k <==> 3 * i + 3 < s.failAt;
  }

  /** A dump whose stream never fails reports status 0 and emits the
      banner, the array header, one `[fn, cycle_count]` entry per listed
      node in list order, and the trailer. */
  lemma DumpSucceeds(p: Profile, s: Stream)
    requires WellFormed(p) && s.err != 0 && s.failAt >= 3 * |p.registry| + 4
    ensures var d := DumpOutcome(p, s);
            && d.status == 0
            && d.output == [Banner] + Planned(Report(p.nodes, p.registry))
  {
  }

  /** A failing dump reports the failing call's error code, or -1 when only
      the final newline failed, and its output is the banner followed by
      the calls made up to and including the failing one. */
  lemma DumpFails(p: Profile, s: Stream)
    requires WellFormed(p) && s.err != 0 && s.failAt < 3 * |p.registry| + 4
    ensures var d := DumpOutcome(p, s);
            && d.status == (if s.failAt == 3 * |p.registry| + 3 then -1 else s.err)
            && d.status != 0
            && d.output == [Banner] + Planned(Report(p.nodes, p.registry))[..s.failAt + 1]
  {
  }

  /** A dump whose stream never fails zeroes every node and changes
      nothing else. */
  lemma DumpZeroesAll(p: Profile, s: Stream)
    requires WellFormed(p) && s.err != 0 && s.failAt >= 3 * |p.registry| + 4
    ensures var q := DumpOutcome(p, s).after;
            && WellFormed(q)
            && q.registry == p.registry && q.stack == p.stack
            && q.depth == p.depth && q.previous == p.previous
            && (forall a :: a in p.nodes <==> a in q.nodes)
            && (forall a :: a in p.nodes ==> q.nodes[a] == p.nodes[a].(cycleCount := 0))
  {
    var q := DumpOutcome(p, s).after;
    DumpKeepsWellFormed(p, s);
    forall a | a in p.nodes ensures a in q.nodes && q.nodes[a] == p.nodes[a].(cycleCount := 0) {
      assert a in p.registry;
      var i :| 0 <= i < |p.registry| && p.registry[i] == a;
      DumpResets(p, s, i);
    }
  }

  /** A second successful dump with no hook call in between reports every
      listed function with a count of zero, and leaves the state as the
      first dump left it. */
  lemma SecondDumpReportsZero(p: Profile, s1: Stream, s2: Stream)
    requires WellFormed(p) && s1.err != 0 && s2.err != 0
    requires s1.failAt >= 3 * |p.registry| + 4 && s2.failAt >= 3 * |p.registry| + 4
    ensures var q := DumpOutcome(p, s1).after;
            var pairs := Report(q.nodes, q.registry);
            && |pairs| == |p.registry|
            && (forall i :: 0 <= i < |pairs| ==> pairs[i] == (p.nodes[p.registry[i]].fn, 0))
            && DumpOutcome(q, s2).after == q
  {
    var q := DumpOutcome(p, s1).after;
    DumpZeroesAll(p, s1);
    forall i | 0 <= i < |p.registry| ensures p.registry[i] in p.nodes {
      assert p.registry[i] in q.nodes;
    }
    var q2 := DumpOutcome(q, s2).after;
    DumpZeroesAll(q, s2);
    forall a | a in q.nodes ensures q2.nodes[a] == q.nodes[a] {
      assert q.nodes[a].cycleCount == 0;
    }
    assert q2.nodes == q.nodes;
  }
}
