/** The profiler's global and thread-local state as one object, for a
    single execution context, with the two instrumentation hooks and the
    dump as methods that update it in place. */
module Profiler {
  import opened Arith
  import opened Slot
  import opened ProfileModel

  /** `prof_list_tail`: the word the next registered node is stored into,
      either `prof_list` itself or the `next` field of the node at `owner`. */
  datatype TailRef = ListHead | NextOf(owner: int)

  /** In a well-formed state the word the tail points to holds NULL (the
      head of an empty list, or the last node's `next`), and storing a new
      node there after initialising it gives the appended store. */
  lemma TailIsNull(p: Profile, addr: int, fn: int)
    requires WellFormed(p) && addr !in p.nodes
    ensures p.registry != [] ==>
              var last := p.registry[|p.registry| - 1];
              && last in p.nodes && last != addr && p.nodes[last].next == Null
              && p.nodes[addr := ProfNode(Null, ProfileMagic, 0, fn)][last := p.nodes[last].(next := addr)]
                 == Appended(p, addr, fn)
  {
    if p.registry != [] {
      var last := p.registry[|p.registry| - 1];
      assert last in p.nodes;
      assert p.nodes[last].next == Successor(p.registry, |p.registry| - 1);
    }
  }

  /** The single exit of the dump: `call` stream calls were made and
      `output` records them; either all of them succeeded and the last was
      the final newline, or the last one failed after `j` nodes were
      visited.  Either way the store holds the first `j` nodes zeroed. */
  lemma DumpEnds(p: Profile, s: Stream, call: nat, j: nat, status: int,
                 output: seq<Emit>, nodes: map<int, ProfNode>)
    requires Listed(p) && s.err != 0 && j <= |p.registry|
    requires var n := |p.registry|;
             && 1 <= call <= 3 * n + 4
             && (status == 0 ==> call == 3 * n + 4 && s.failAt >= 3 * n + 4 && j == n)
             && (status != 0 ==> call - 1 == s.failAt && j == Visited(s.failAt, n)
                                 && status == (if s.failAt == 3 * n + 3 then -1 else s.err))
    requires output == [Banner] + Planned(Report(p.nodes, p.registry))[..call]
    requires nodes == ResetFirst(p, j).nodes
    ensures DumpOutcome(p, s) == DumpResult(status, output, p.(nodes := nodes))
  {
    var n := |p.registry|;
    if status == 0 {
      assert Visited(s.failAt, n) == n by { assert (s.failAt - 1) / 3 >= n; }
    }
  }

  /** One `(fn, cycle_count)` entry of the dump: the array header and the
      two unsigned integers, each a stream call starting at call number
      `call`; stops after the first call that fails. */
  method EmitPair(fn: int, count: int, s: Stream, call: nat)
    returns (status: int, emitted: seq<Emit>, calls: nat)
    requires s.err != 0 && call <= s.failAt
    ensures 1 <= calls <= 3
    ensures emitted == [ArrayLength(2), UInt(fn), UInt(count)][..calls]
    ensures call + calls - 1 <= s.failAt
    ensures status == Reply(s, call + calls - 1)
    ensures status == 0 <==> call + 2 < s.failAt
    ensures status == 0 ==> calls == 3
  {
    emitted := [ArrayLength(2)];
    status := Reply(s, call);
    calls := 1;
    if status == 0 {
      emitted := emitted + [UInt(fn)];
      status := Reply(s, call + 1);
      calls := 2;
    }
    if status == 0 {
      emitted := emitted + [UInt(count)];
      status := Reply(s, call + 2);
      calls := 3;
    }
  }

  /** The end of the dump: close the outer array, terminate the text
      stream, write the newline; a failing newline reports -1. */
  method EmitTrailer(s: Stream, call: nat)
    returns (status: int, emitted: seq<Emit>, calls: nat)
    requires s.err != 0 && call <= s.failAt
    ensures 1 <= calls <= 3
    ensures emitted == [ArrayEnd, Terminate, Newline][..calls]
    ensures call + calls - 1 <= s.failAt
    ensures status == 0 <==> call + 2 < s.failAt
    ensures status == 0 ==> calls == 3
    ensures status != 0 ==> call + calls - 1 == s.failAt
    ensures status != 0 ==> status == if calls == 3 then -1 else s.err
  {
    emitted := [ArrayEnd];
    status := Reply(s, call);
    calls := 1;
    if status == 0 {
      emitted := emitted + [Terminate];
      status := Reply(s, call + 1);
      calls := 2;
    }
    if status == 0 {
      emitted := emitted + [Newline];
      status := if Reply(s, call + 2) == 0 then 0 else -1;
      calls := 3;
    }
  }

  class Profiler {
    /** The profile nodes, keyed by slot address. */
    var nodes: map<int, ProfNode>
    /** `prof_list`. */
    var head: int
    /** `prof_list_tail`. */
    var tail: TailRef
    /** The list order that `head` and the `next` links spell out. */
    ghost var registry: seq<int>
    /** `previous_cycles`, the time cursor. */
    var previousCycles: int
    /** `call_stack_depth`, the logical depth; may exceed the capacity. */
    var callStackDepth: nat
    /** `call_stack`, the physical shadow stack of slot addresses. */
    const callStack: array<int>

    ghost function State(): Profile
      reads this, callStack
    {
      Profile(nodes, registry, callStack[..], callStackDepth, previousCycles)
    }

    /** `prof_list` and `prof_list_tail` agree with the registry order: the
        head is its first node and the tail is the last node's `next`
        field, or `&prof_list` for an empty list. */
    ghost predicate Linked()
      reads this`head, this`tail, this`registry
    {
      && head == (if registry == [] then Null else registry[0])
      && tail == (if registry == [] then ListHead else NextOf(registry[|registry| - 1]))
    }

    ghost predicate Valid()
      reads this, callStack
    {
      WellFormed(State()) && Linked()
    }

    /** Static initialisation: an empty list whose tail is `&prof_list`,
        and zeroed thread-locals. */
    constructor ()
      ensures Valid() && State() == Initial()
      ensures fresh(callStack)
    {
      nodes, head, tail, registry := map[], Null, ListHead, [];
      previousCycles, callStackDepth := 0, 0;
      callStack := new int[EntryStackSize](_ => Null);
      new;
      assert callStack[..] == seq(EntryStackSize, _ => Null);
    }

    /** The word `prof_list_tail` points to. */
    function TailTarget(): (word: int)
      reads this
      requires tail.NextOf? ==> tail.owner in nodes
    {
      if tail.ListHead? then head else nodes[tail.owner].next
    }

    /** `__atomic_exchange_n(prof_list_tail, value, ...)`: store `value`
        into the word the tail points to and return what was there. */
    method Exchange(value: int) returns (previous: int)
      requires tail.NextOf? ==> tail.owner in nodes
      modifies this`head, this`nodes
      ensures previous == old(TailTarget())
      ensures tail.ListHead? ==> head == value && nodes == old(nodes)
      ensures tail.NextOf? ==>
                (head == old(head) && nodes == old(nodes)[tail.owner := old(nodes)[tail.owner].(next := value)])
    {
      previous := TailTarget();
      if tail.ListHead? {
        head := value;
      } else {
        nodes := nodes[tail.owner := nodes[tail.owner].(next := value)];
      }
    }

    /** First touch of a slot (`magic != PROFILE_MAGIC`): initialise the
        node and append it with the exchange loop, which runs once when a
        single context registers. */
    method Claim(thisFn: int)
      requires Valid() && HasSlot(thisFn)
      modifies this`nodes, this`head, this`tail, this`registry
      ensures Valid()
      ensures State() == Register(old(State()), thisFn)
    {
      var node := NodeFromFn(thisFn);
      if node !in nodes || nodes[node].magic != ProfileMagic {
        ghost var before := State();
        Insert(node, thisFn);
        assert State() == Append(before, thisFn);
        assert WellFormed(State()) && Linked();
      }
    }

    /** Initialise the node at `node` and store it into the word the tail
        points to, until no displaced node is left to re-insert; then the
        tail is the new node's `next` field. */
    method Insert(node: int, thisFn: int)
      requires Valid() && node != Null && node !in nodes && IsU64(thisFn)
      modifies this`nodes, this`head, this`tail, this`registry
      ensures nodes == Appended(old(State()), node, thisFn)
      ensures registry == old(registry) + [node]
      ensures Linked()
    {
      ghost var before := State();
      ghost var target := Appended(before, node, thisFn);
      var init := ProfNode(Null, ProfileMagic, 0, thisFn);
      TailIsNull(before, node, thisFn);
      nodes := nodes[node := init];
      var insert := node;
      while insert != Null
        invariant insert == node || insert == Null
        invariant registry == before.registry
        invariant insert == node ==>
                    nodes == before.nodes[node := init] && head == old(head) && tail == old(tail)
        invariant insert == Null ==>
                    nodes == target && head == (if registry == [] then node else old(head)) && tail == NextOf(node)
        decreases if insert == Null then 0 else 1
      {
        var displaced := Exchange(insert);
        tail := NextOf(node);
        insert := displaced;
      }
      registry := registry + [node];
    }

    /** Charge the cycles since the time cursor to the top of the shadow
        stack (the last physical slot beyond the capacity) and advance the
        cursor; the shared first half of both hooks. */
    method ChargeTop(counter: int)
      requires Valid() && IsU64(counter)
      modifies this`nodes, this`previousCycles
      ensures Valid()
      ensures State() == Charge(old(State()), counter)
    {
      ghost var s0 := State();
      if callStackDepth > 0 {
        var current;
        if callStackDepth <= EntryStackSize {
          current := callStack[callStackDepth - 1];
        } else {
          current := callStack[EntryStackSize - 1];
        }
        assert current == State().stack[TopIndex(callStackDepth)];
        var cycles := WrappingSub(counter, previousCycles);
        nodes := nodes[current := nodes[current].(cycleCount := ClampedAdd(nodes[current].cycleCount, cycles))];
      }
      previousCycles := counter;
      assert State() == Charge(s0, counter);
      assert WellFormed(State()) && Linked();
    }

    /** Record `node` in the physical stack when there is room, and count
        the frame in the logical depth either way. */
    method PushFrame(node: int)
      requires Valid() && node in nodes
      modifies this`callStackDepth, callStack
      ensures Valid()
      ensures State() == Push(old(State()), node)
    {
      ghost var s0 := State();
      if callStackDepth < EntryStackSize {
        callStack[callStackDepth] := node;
        assert callStack[..] == s0.stack[callStackDepth := node];
      }
      callStackDepth := callStackDepth + 1;
      assert State() == Push(s0, node);
      assert WellFormed(State()) && Linked();
    }

    /** `__cyg_profile_func_enter`.  `tlsBase` is what
        `sel4runtime_get_tls_base` returns and `counter` what
        `sel4bench_get_cycle_count` returns. */
    method Enter(thisFn: int, tlsBase: int, counter: int)
      requires Valid() && HasSlot(thisFn) && IsU64(counter)
      modifies this, callStack
      ensures Valid()
      ensures tlsBase == 0 ==> unchanged(this) && unchanged(callStack)
      ensures tlsBase != 0 ==> State() == EnterStep(old(State()), thisFn, counter)
    {
      if tlsBase == 0 {
        return;
      }
      ghost var s0 := State();
      var node := NodeFromFn(thisFn);
      Claim(thisFn);
      ChargeTop(counter);
      PushFrame(node);
      assert State() == Push(Charge(Register(s0, thisFn), counter), node);
      assert WellFormed(State()) && Linked();
    }

    /** `__cyg_profile_func_exit`; the exiting function's address is not
        used, only the shadow stack. */
    method Exit(thisFn: int, tlsBase: int, counter: int)
      requires Valid() && IsU64(counter)
      modifies this
      ensures Valid()
      ensures tlsBase == 0 ==> unchanged(this)
      ensures tlsBase != 0 ==> State() == ExitStep(old(State()), counter)
    {
      if tlsBase == 0 || callStackDepth == 0 {
        return;
      }
      ghost var s0 := State();
      ChargeTop(counter);
      ghost var charged := State();
      callStackDepth := callStackDepth - 1;
      assert State() == charged.(depth := charged.depth - 1);
      assert State() == ExitStep(s0, counter);
      assert WellFormed(State()) && Linked();
    }

    /** `prof_dump`.  The encoder's output stream is `s`; the calls made
        on it are returned in `output` in order.  The first failing call
        ends the dump, as each `return err` does in the source. */
    method Dump(s: Stream) returns (status: int, output: seq<Emit>)
      requires Valid() && s.err != 0
      modifies this`nodes
      ensures Valid()
      ensures var d := DumpOutcome(old(State()), s);
              status == d.status && output == d.output && State() == d.after
    {
      ghost var p := State();
      WellFormedWalkable(p);
      status, output := DumpList(p, s);
      DumpKeepsWellFormed(p, s);
      assert State() == p.(nodes := nodes);
    }

    /** The whole of `prof_dump` over the node store: the list walk, then
        the end of the outer array, the stream's termination and the final
        newline. */
    method DumpList(ghost p: Profile, s: Stream) returns (status: int, output: seq<Emit>)
      requires Walkable(p) && nodes == p.nodes && s.err != 0
      requires head == (if p.registry == [] then Null else p.registry[0])
      modifies this`nodes
      ensures DumpOutcome(p, s) == DumpResult(status, output, p.(nodes := nodes))
    {
      ghost var plan := Planned(Report(p.nodes, p.registry));
      var call;
      ghost var j;
      status, output, call, j := Walk(p, s);
      if status == 0 {
        var emitted, calls;
        status, emitted, calls := EmitTrailer(s, call);
        PlannedTrailer(Report(p.nodes, p.registry), calls);
        PrefixGrows(Banner, plan, call, calls);
        output := output + emitted;
        call := call + calls;
      }
      DumpEnds(p, s, call, j, status, output, nodes);
    }

    /** The body of `prof_dump` up to the end of the list walk: the banner,
        the outer array header and one entry per node. */
    method Walk(ghost p: Profile, s: Stream)
      returns (status: int, output: seq<Emit>, call: nat, ghost j: nat)
      requires Walkable(p) && nodes == p.nodes && s.err != 0
      requires head == (if p.registry == [] then Null else p.registry[0])
      modifies this`nodes
      ensures j <= |p.registry| && 1 <= call <= 3 * |p.registry| + 1
      ensures call - 1 <= s.failAt
      ensures status == 0 ==> call == 3 * |p.registry| + 1 && call <= s.failAt && j == |p.registry|
      ensures status != 0 ==> call - 1 == s.failAt && status == s.err && j == Visited(call - 1, |p.registry|)
      ensures output == [Banner] + Planned(Report(p.nodes, p.registry))[..call]
      ensures nodes == ResetFirst(p, j).nodes
    {
      output := [Banner, ArrayStart];
      status := Reply(s, 0);
      call := 1;
      j := 0;
      if status != 0 {
        return;
      }
      status, output, call, j := WalkList(p, s);
    }

    /** The list walk itself, once the outer array header has been
        accepted: one entry per node from the head, zeroing each count
        after its entry. */
    method WalkList(ghost p: Profile, s: Stream)
      returns (status: int, output: seq<Emit>, call: nat, ghost j: nat)
      requires Walkable(p) && nodes == p.nodes && s.err != 0 && 1 <= s.failAt
      requires head == (if p.registry == [] then Null else p.registry[0])
      modifies this`nodes
      ensures j <= |p.registry| && 1 <= call <= 3 * |p.registry| + 1
      ensures call - 1 <= s.failAt
      ensures status == 0 ==> call == 3 * |p.registry| + 1 && call <= s.failAt && j == |p.registry|
      ensures status != 0 ==> call - 1 == s.failAt && status == s.err && j == Visited(call - 1, |p.registry|)
      ensures output == [Banner] + Planned(Report(p.nodes, p.registry))[..call]
      ensures nodes == ResetFirst(p, j).nodes
    {
      ghost var n := |p.registry|;
      ghost var plan := Planned(Report(p.nodes, p.registry));
      output := [Banner, ArrayStart];
      status := 0;
      call := 1;
      j := 0;
      var current := head;
      while current != Null
        invariant j <= n && call == 3 * j + 1 && call <= s.failAt && status == 0
        invariant current == (if j < n then p.registry[j] else Null)
        invariant output == [Banner] + plan[..call]
        invariant nodes == ResetFirst(p, j).nodes
        decreases n - j
      {
        var emitted, calls;
        status, emitted, calls, current := VisitNode(p, j, current, s, call);
        PrefixGrows(Banner, plan, call, calls);
        output := output + emitted;
        call := call + calls;
        if status != 0 {
          return;
        }
        j := j + 1;
      }
    }

    /** One turn of the dump loop at the j-th listed node, whose address is
        `current`: emit its entry, and once all three calls succeeded, zero
        its count and step to its `next`. */
    method VisitNode(ghost p: Profile, ghost j: nat, current: int, s: Stream, call: nat)
      returns (status: int, emitted: seq<Emit>, calls: nat, next: int)
      requires Walkable(p) && j < |p.registry| && current == p.registry[j]
      requires s.err != 0 && call == 3 * j + 1 && call <= s.failAt
      requires nodes == ResetFirst(p, j).nodes
      modifies this`nodes
      ensures 1 <= calls <= 3 && call + calls - 1 <= s.failAt
      ensures emitted == Planned(Report(p.nodes, p.registry))[call..call + calls]
      ensures status == 0 ==> calls == 3 && call + 3 <= s.failAt
      ensures status == 0 ==> nodes == ResetFirst(p, j + 1).nodes && next == Successor(p.registry, j)
      ensures status != 0 ==> status == s.err && call + calls - 1 == s.failAt && next == current
      ensures status != 0 ==> nodes == old(nodes) && Visited(call + calls - 1, |p.registry|) == j
    {
      ResetFirstCounts(p, j, j);
      status, emitted, calls := EmitPair(nodes[current].fn, nodes[current].cycleCount, s, call);
      PlannedEntry(Report(p.nodes, p.registry), j, calls);
      next := current;
      if status == 0 {
        ResetFirstStep(p, j);
        nodes := nodes[current := nodes[current].(cycleCount := 0)];
        next := nodes[current].next;
      } else {
        VisitedAt(j, |p.registry|, call + calls - 1);
      }
    }
  }

  /** A profiler built from scratch, one call of a function from cycle 100
      to cycle 150, then a dump on a stream that never fails: the dump
      reports that function with 50 cycles and succeeds. */
  method OneCallThenDump(fn: int) returns (status: int, output: seq<Emit>)
    requires HasSlot(fn)
    ensures status == 0
    ensures output == [Banner, ArrayStart, ArrayLength(2), UInt(fn), UInt(50), ArrayEnd, Terminate, Newline]
  {
    var pr := new Profiler();
    pr.Enter(fn, 1, 100);
    pr.Exit(fn, 1, 150);
    ghost var p := pr.State();
    OneCallState(fn);
    status, output := pr.Dump(Stream(7, 1));
    OneCallReport(p, fn);
  }

  /** The state after one call of `fn` from cycle 100 to cycle 150. */
  lemma OneCallState(fn: int)
    requires HasSlot(fn)
    ensures var p := ExitStep(EnterStep(Initial(), fn, 100), 150);
            && p.registry == [NodeFromFn(fn)] && NodeFromFn(fn) in p.nodes
            && p.nodes[NodeFromFn(fn)].fn == fn && p.nodes[NodeFromFn(fn)].cycleCount == 50
  {
    var p0 := Initial();
    var p1 := EnterStep(p0, fn, 100);
    var a := NodeFromFn(fn);
    assert Register(p0, fn) == Append(p0, fn);
    assert p1.registry == [a] && p1.nodes[a] == ProfNode(Null, ProfileMagic, 0, fn);
    assert p1.depth == 1 && p1.stack[0] == a && p1.previous == 100;
  }

  /** The complete dump of a one-node list. */
  lemma OneCallReport(p: Profile, fn: int)
    requires HasSlot(fn)
    requires p.registry == [NodeFromFn(fn)] && NodeFromFn(fn) in p.nodes
    requires p.nodes[NodeFromFn(fn)].fn == fn && p.nodes[NodeFromFn(fn)].cycleCount == 50
    ensures var d := DumpOutcome(p, Stream(7, 1));
            && d.status == 0
            && d.output == [Banner, ArrayStart, ArrayLength(2), UInt(fn), UInt(50), ArrayEnd, Terminate, Newline]
  {
    var pairs := Report(p.nodes, p.registry);
    assert pairs == [(fn, 50)];
    assert Entries(pairs[1..]) == [];
    assert Entries(pairs) == [ArrayLength(2), UInt(fn), UInt(50)];
  }
}
