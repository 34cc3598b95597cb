/** The state of the profiler as seen from one execution context, as a
    value, and the effect of each hook on it.  The class in profiler.dfy is
    proved to follow these functions step by step; the lemmas in
    properties.dfy are stated over them. */
module ProfileModel {
  import opened Arith
  import opened Slot

  const ProfileMagic: int := 0x970F17E3
  /** ENTRY_STACK_SIZE: the physical capacity of the shadow stack. */
  const EntryStackSize: int := 128
  const Null: int := 0

  /** `prof_node_t`, stored at its slot address. */
  datatype ProfNode = ProfNode(next: int, magic: int, cycleCount: int, fn: int)

  /** Node memory (keyed by slot address; an address that is absent is
      padding the profiler never wrote), the registry in list order, the
      128 entries of `call_stack`, `call_stack_depth` and `previous_cycles`. */
  datatype Profile = Profile(
    nodes: map<int, ProfNode>,
    registry: seq<int>,
    stack: seq<int>,
    depth: nat,
    previous: int)

  predicate Distinct(s: seq<int>) {
    forall i, j :: 0 <= i < j < |s| ==> s[i] != s[j]
  }

  /** The `next` link the i-th registered node must hold. */
  function Successor(registry: seq<int>, i: int): (next: int)
    requires 0 <= i < |registry|
  {
    if i + 1 < |registry| then registry[i + 1] else Null
  }

  predicate NodeOk(addr: int, n: ProfNode) {
    addr != Null && n.magic == ProfileMagic && IsU64(n.cycleCount) && IsU64(n.fn)
  }

  /** The invariant every hook keeps: the registry lists every initialised
      slot exactly once and its `next` links spell out that order, NULL at
      the end; every live shadow-stack entry is a registered node; all
      counters are 64-bit values. */
  ghost predicate WellFormed(p: Profile) {
    && |p.stack| == EntryStackSize
    && IsU64(p.previous)
    && Distinct(p.registry)
    && (forall i :: 0 <= i < |p.registry| ==> p.registry[i] in p.nodes)
    && (forall a :: a in p.nodes ==> a in p.registry)
    && (forall a :: a in p.nodes ==> NodeOk(a, p.nodes[a]))
    && (forall i {:trigger p.nodes[p.registry[i]]} :: 0 <= i < |p.registry| ==>
          p.nodes[p.registry[i]].next == Successor(p.registry, i))
    && (forall i :: 0 <= i < Min(p.depth, EntryStackSize) ==> p.stack[i] in p.nodes)
  }

  /** The state before the first hook runs: empty list, zeroed thread-locals. */
  function Initial(): (p: Profile)
    ensures WellFormed(p)
  {
    Profile(map[], [], seq(EntryStackSize, _ => Null), 0, 0)
  }

  /** The physical index of the top of the shadow stack; every logical
      depth beyond the capacity aliases the last slot. */
  function TopIndex(depth: nat): (i: nat)
    requires depth > 0
    ensures i == Min(depth, EntryStackSize) - 1
  {
    if depth <= EntryStackSize then depth - 1 else EntryStackSize - 1
  }

  /** A slot the profiler has claimed: its `magic` is PROFILE_MAGIC. */
  predicate Claimed(p: Profile, addr: int) {
    addr in p.nodes && p.nodes[addr].magic == ProfileMagic
  }

  /** Two node stores that differ at most in the counts. */
  ghost predicate SameShape(m1: map<int, ProfNode>, m2: map<int, ProfNode>) {
    && (forall b :: b in m1 <==> b in m2)
    && (forall b :: b in m1 ==> m2[b] == m1[b].(cycleCount := m2[b].cycleCount))
  }

  /** Every node stored in `m1` is still stored in `m2` and still records
      the same function: the identity a dump reports is never rewritten. */
  ghost predicate KeepsFn(m1: map<int, ProfNode>, m2: map<int, ProfNode>) {
    forall b :: b in m1 ==> b in m2 && m2[b].fn == m1[b].fn
  }

  lemma SameShapeKeepsWellFormed(p: Profile, m: map<int, ProfNode>)
    requires WellFormed(p) && SameShape(p.nodes, m)
    requires forall b :: b in m ==> IsU64(m[b].cycleCount)
    ensures WellFormed(p.(nodes := m))
  {
    var r := p.(nodes := m);
    forall i | 0 <= i < |r.registry| ensures r.registry[i] in r.nodes {
      assert p.registry[i] in p.nodes;
    }
    forall b | b in r.nodes ensures b in r.registry && NodeOk(b, r.nodes[b]) {
      assert b in p.nodes;
    }
    forall i | 0 <= i < |r.registry| ensures r.nodes[r.registry[i]].next == Successor(r.registry, i) {
      assert p.registry[i] in p.nodes;
      assert p.nodes[p.registry[i]].next == Successor(p.registry, i);
    }
    forall i | 0 <= i < Min(r.depth, EntryStackSize) ensures r.stack[i] in r.nodes {
      var b := p.stack[i];
      assert b in p.nodes;
      assert b in m;
    }
  }

  /** The node at `addr` with its count replaced by `count`. */
  function SetCount(p: Profile, addr: int, count: int): (r: Profile)
    requires WellFormed(p) && addr in p.nodes && IsU64(count)
    ensures WellFormed(r)
    ensures r.registry == p.registry && r.stack == p.stack && r.depth == p.depth && r.previous == p.previous
    ensures SameShape(p.nodes, r.nodes)
    ensures r.nodes[addr].cycleCount == count
    ensures forall b :: b in p.nodes && b != addr ==> r.nodes[b] == p.nodes[b]
  {
    var m := p.nodes[addr := p.nodes[addr].(cycleCount := count)];
    SameShapeKeepsWellFormed(p, m);
    p.(nodes := m)
  }

  /** The store after `fn`'s node is initialised (`next = NULL`, the
      magic, count 0, `fn`) at `addr` and linked after the previous last
      node, or made the list head. */
  function Appended(p: Profile, addr: int, fn: int): (m: map<int, ProfNode>)
    requires forall i :: 0 <= i < |p.registry| ==> p.registry[i] in p.nodes
  {
    var n := |p.registry|;
    var linked :=
      if n == 0 then p.nodes
      else p.nodes[p.registry[n - 1] := p.nodes[p.registry[n - 1]].(next := addr)];
    linked[addr := ProfNode(Null, ProfileMagic, 0, fn)]
  }

  lemma AppendKeepsWellFormed(p: Profile, addr: int, fn: int)
    requires WellFormed(p) && IsU64(fn) && addr != Null && addr !in p.nodes
    ensures WellFormed(p.(nodes := Appended(p, addr, fn), registry := p.registry + [addr]))
  {
    var r := p.(nodes := Appended(p, addr, fn), registry := p.registry + [addr]);
    AppendDistinct(p.registry, p.nodes, addr);
    AppendListed(p, addr, fn);
    AppendLinks(p, addr, fn);
    forall i | 0 <= i < Min(r.depth, EntryStackSize) ensures r.stack[i] in r.nodes {
      assert p.stack[i] in p.nodes;
    }
  }

  lemma AppendDistinct(registry: seq<int>, nodes: map<int, ProfNode>, addr: int)
    requires Distinct(registry) && addr !in nodes
    requires forall i :: 0 <= i < |registry| ==> registry[i] in nodes
    ensures Distinct(registry + [addr])
  {
    var r := registry + [addr];
    forall i, j | 0 <= i < j < |r| ensures r[i] != r[j] {
      assert r[i] == registry[i] && registry[i] in nodes;
      if j < |registry| {
        assert r[j] == registry[j];
      }
    }
  }

  lemma AppendListed(p: Profile, addr: int, fn: int)
    requires WellFormed(p) && IsU64(fn) && addr != Null && addr !in p.nodes
    ensures var m := Appended(p, addr, fn);
            var r := p.registry + [addr];
            && (forall i :: 0 <= i < |r| ==> r[i] in m)
            && (forall b :: b in m ==> b in r && NodeOk(b, m[b]))
  {
    var m := Appended(p, addr, fn);
    var r := p.registry + [addr];
    var n := |p.registry|;
    forall i | 0 <= i < |r| ensures r[i] in m {
      if i < n {
        assert r[i] == p.registry[i] && p.registry[i] in p.nodes;
      }
    }
    forall b | b in m ensures b in r && NodeOk(b, m[b]) {
      if b != addr {
        assert b in p.nodes && b in p.registry;
        assert m[b] == p.nodes[b].(next := m[b].next);
      } else {
        assert r[n] == addr;
      }
    }
  }

  lemma AppendLinks(p: Profile, addr: int, fn: int)
    requires WellFormed(p) && IsU64(fn) && addr != Null && addr !in p.nodes
    ensures var m := Appended(p, addr, fn);
            var r := p.registry + [addr];
            forall i :: 0 <= i < |r| ==> r[i] in m && m[r[i]].next == Successor(r, i)
  {
    var m := Appended(p, addr, fn);
    var r := p.registry + [addr];
    forall i | 0 <= i < |r| ensures r[i] in m && m[r[i]].next == Successor(r, i) {
      AppendLinkAt(p, addr, fn, i);
    }
  }

  lemma AppendLinkAt(p: Profile, addr: int, fn: int, i: int)
    requires WellFormed(p) && IsU64(fn) && addr != Null && addr !in p.nodes
    requires 0 <= i <= |p.registry|
    ensures var m := Appended(p, addr, fn);
            var r := p.registry + [addr];
            r[i] in m && m[r[i]].next == Successor(r, i)
  {
    var r := p.registry + [addr];
    var n := |p.registry|;
    if i < n {
      assert r[i] == p.registry[i] && p.registry[i] in p.nodes;
      if i < n - 1 {
        assert p.registry[i] != p.registry[n - 1];
        assert p.nodes[p.registry[i]].next == Successor(p.registry, i);
      }
    }
  }

  /** `fn`'s node initialised and appended to the list. */
  function Append(p: Profile, fn: int): (r: Profile)
    requires WellFormed(p) && IsU64(fn) && NodeFromFn(fn) != Null && NodeFromFn(fn) !in p.nodes
    ensures WellFormed(r)
    ensures r.registry == p.registry + [NodeFromFn(fn)]
    ensures r.stack == p.stack && r.depth == p.depth && r.previous == p.previous
  {
    var a := NodeFromFn(fn);
    AppendKeepsWellFormed(p, a, fn);
    p.(nodes := Appended(p, a, fn), registry := p.registry + [a])
  }

  /** First-touch registration: when the slot of `fn` is not claimed,
      initialise it and append it to the list. */
  function Register(p: Profile, fn: int): (r: Profile)
    requires WellFormed(p) && IsU64(fn) && NodeFromFn(fn) != Null
    ensures WellFormed(r)
    ensures r.stack == p.stack && r.depth == p.depth && r.previous == p.previous
    ensures KeepsFn(p.nodes, r.nodes)
  {
    if Claimed(p, NodeFromFn(fn)) then p else Append(p, fn)
  }

  /** Charge the cycles since the last event (`counter - previous_cycles`,
      wrapping) to the node on top of the shadow stack, saturating, and
      move the time cursor to `counter`. */
  function Charge(p: Profile, counter: int): (r: Profile)
    requires WellFormed(p) && IsU64(counter)
    ensures WellFormed(r)
    ensures r.registry == p.registry && r.stack == p.stack && r.depth == p.depth && r.previous == counter
    ensures SameShape(p.nodes, r.nodes)
  {
    if p.depth == 0 then p.(previous := counter)
    else
      var top := p.stack[TopIndex(p.depth)];
      var count := ClampedAdd(p.nodes[top].cycleCount, WrappingSub(counter, p.previous));
      SetCount(p, top, count).(previous := counter)
  }

  /** Push `addr` when there is room and increment the logical depth. */
  function Push(p: Profile, addr: int): (r: Profile)
    requires WellFormed(p) && addr in p.nodes
    ensures WellFormed(r)
  {
    p.(stack := if p.depth < EntryStackSize then p.stack[p.depth := addr] else p.stack,
       depth := p.depth + 1)
  }

  /** A valid entry address: its slot is a real (non-NULL) address. */
  predicate HasSlot(fn: int) {
    IsU64(fn) && NodeFromFn(fn) != Null
  }

  /** `__cyg_profile_func_enter` once thread-local storage is ready. */
  function EnterStep(p: Profile, fn: int, counter: int): (r: Profile)
    requires WellFormed(p) && HasSlot(fn) && IsU64(counter)
    ensures WellFormed(r)
  {
    var q := Register(p, fn);
    assert NodeFromFn(fn) in q.nodes;
    Push(Charge(q, counter), NodeFromFn(fn))
  }

  /** `__cyg_profile_func_exit` once thread-local storage is ready; a
      mismatched exit at depth 0 is ignored. */
  function ExitStep(p: Profile, counter: int): (r: Profile)
    requires WellFormed(p) && IsU64(counter)
    ensures WellFormed(r)
  {
    if p.depth == 0 then p
    else
      var q := Charge(p, counter);
      q.(depth := q.depth - 1)
  }

  // ---------------------------------------------------------------------
  // prof_dump

  /** What the dump hands to the output stream: the banner written with
      `fputs` (its result is ignored), then the encoder calls and the final
      newline. */
  datatype Emit = Banner | ArrayStart | ArrayLength(len: nat) | UInt(value: int)
                | ArrayEnd | Terminate | Newline

  /** The `(fn, cycle_count)` pairs of the listed nodes, in list order. */
  function Report(nodes: map<int, ProfNode>, registry: seq<int>): (pairs: seq<(int, int)>)
    requires forall i :: 0 <= i < |registry| ==> registry[i] in nodes
    ensures |pairs| == |registry|
    ensures forall i {:trigger pairs[i]} :: 0 <= i < |registry| ==>
              pairs[i] == (nodes[registry[i]].fn, nodes[registry[i]].cycleCount)
  {
    if registry == [] then []
    else
      var last := registry[|registry| - 1];
      Report(nodes, registry[..|registry| - 1]) + [(nodes[last].fn, nodes[last].cycleCount)]
  }

  /** The three encoder calls per pair: a 2-element array header, the
      function address, the count. */
  function Entries(pairs: seq<(int, int)>): (out: seq<Emit>)
    ensures |out| == 3 * |pairs|
  {
    if pairs == [] then []
    else [ArrayLength(2), UInt(pairs[0].0), UInt(pairs[0].1)] + Entries(pairs[1..])
  }

  /** The j-th pair occupies calls 3j .. 3j+2 of the entries. */
  lemma {:induction false} EntriesAt(pairs: seq<(int, int)>, j: nat)
    requires j < |pairs|
    ensures var out := Entries(pairs);
            out[3 * j] == ArrayLength(2) && out[3 * j + 1] == UInt(pairs[j].0) && out[3 * j + 2] == UInt(pairs[j].1)
  {
    if j > 0 {
      EntriesAt(pairs[1..], j - 1);
      var head := [ArrayLength(2), UInt(pairs[0].0), UInt(pairs[0].1)];
      var out := Entries(pairs);
      assert out == head + Entries(pairs[1..]);
      assert out[3 * j] == Entries(pairs[1..])[3 * (j - 1)];
      assert out[3 * j + 1] == Entries(pairs[1..])[3 * (j - 1) + 1];
      assert out[3 * j + 2] == Entries(pairs[1..])[3 * (j - 1) + 2];
    }
  }

  /** Every stream call of a complete dump, in order. */
  function Planned(pairs: seq<(int, int)>): (out: seq<Emit>)
    ensures |out| == 3 * |pairs| + 4
    ensures out[0] == ArrayStart
    ensures out[3 * |pairs| + 1] == ArrayEnd && out[3 * |pairs| + 2] == Terminate && out[3 * |pairs| + 3] == Newline
  {
    [ArrayStart] + Entries(pairs) + [ArrayEnd, Terminate, Newline]
  }

  /** The j-th pair occupies calls 3j+1 .. 3j+3 of a complete dump. */
  lemma PlannedAt(pairs: seq<(int, int)>, j: nat)
    requires j < |pairs|
    ensures var out := Planned(pairs);
            out[3 * j + 1] == ArrayLength(2) && out[3 * j + 2] == UInt(pairs[j].0) && out[3 * j + 3] == UInt(pairs[j].1)
  {
    EntriesAt(pairs, j);
    var body := Entries(pairs);
    var out := Planned(pairs);
    assert out[3 * j + 1] == body[3 * j];
    assert out[3 * j + 2] == body[3 * j + 1];
    assert out[3 * j + 3] == body[3 * j + 2];
  }

  /** The calls of the j-th entry, cut short after `calls` of them, are
      the matching stretch of the complete dump. */
  lemma PlannedEntry(pairs: seq<(int, int)>, j: nat, calls: nat)
    requires j < |pairs| && calls <= 3
    ensures [ArrayLength(2), UInt(pairs[j].0), UInt(pairs[j].1)][..calls]
            == Planned(pairs)[3 * j + 1..3 * j + 1 + calls]
  {
    PlannedAt(pairs, j);
  }

  /** The calls of the trailer, cut short after `calls` of them, are the
      last stretch of the complete dump. */
  lemma PlannedTrailer(pairs: seq<(int, int)>, calls: nat)
    requires calls <= 3
    ensures [ArrayEnd, Terminate, Newline][..calls]
            == Planned(pairs)[3 * |pairs| + 1..3 * |pairs| + 1 + calls]
  {
  }

  /** Emitting the next `k` planned calls extends the emitted prefix. */
  lemma PrefixGrows<T>(first: T, plan: seq<T>, call: nat, k: nat)
    requires call + k <= |plan|
    ensures [first] + plan[..call] + plan[call..call + k] == [first] + plan[..call + k]
  {
    assert plan[..call] + plan[call..call + k] == plan[..call + k];
  }

  /** The output stream behind the encoder, abstracted to when it fails:
      every call succeeds (returns 0) except call number `failAt`, which
      returns the nonzero error code `err`.  No call is made after the
      first failure, so a `failAt` past the last call is a stream that
      never fails. */
  datatype Stream = Stream(failAt: nat, err: int)

  /** The stream's answer to its i-th call: 0 means success. */
  function Reply(s: Stream, i: nat): (r: int)
    ensures r == 0 <==> i != s.failAt || s.err == 0
  {
    if i == s.failAt then s.err else 0
  }

  /** How many nodes had all three of their calls succeed when call `f` is
      the first to fail (node j uses calls 3j+1 .. 3j+3). */
  function Visited(f: nat, n: nat): (k: nat)
    ensures k <= n
    ensures k > 0 ==> 3 * k < f
    ensures k < n ==> f <= 3 * k + 3
  {
    if f == 0 then 0 else Min(n, (f - 1) / 3)
  }

  /** A failure at any of the three calls of entry `j` leaves the first
      `j` nodes visited. */
  lemma VisitedAt(j: nat, n: nat, f: nat)
    requires j < n && 3 * j + 1 <= f <= 3 * j + 3
    ensures Visited(f, n) == j
  {
    assert (f - 1) / 3 == j;
  }

  /** `nodes` with the count of each slot listed in `zeroed` set to 0,
      one slot after the other, as the dump does. */
  function Zeroed(nodes: map<int, ProfNode>, zeroed: seq<int>): (r: map<int, ProfNode>)
    ensures forall b :: b in r <==> b in nodes
  {
    if zeroed == [] then nodes
    else
      var q := Zeroed(nodes, zeroed[..|zeroed| - 1]);
      var a := zeroed[|zeroed| - 1];
      if a in q then q[a := q[a].(cycleCount := 0)] else q
  }

  /** A slot's count is zeroed exactly when the slot is listed; nothing
      else about any node changes. */
  lemma {:induction false} ZeroedAt(nodes: map<int, ProfNode>, zeroed: seq<int>, b: int)
    requires b in nodes
    ensures Zeroed(nodes, zeroed)[b] == if b in zeroed then nodes[b].(cycleCount := 0) else nodes[b]
  {
    if zeroed != [] {
      var init := zeroed[..|zeroed| - 1];
      ZeroedAt(nodes, init, b);
      assert zeroed == init + [zeroed[|zeroed| - 1]];
      assert (b in zeroed) == (b in init || b == zeroed[|zeroed| - 1]);
    }
  }

  /** Every registered slot holds a node. */
  predicate Listed(p: Profile) {
    forall i :: 0 <= i < |p.registry| ==> p.registry[i] in p.nodes
  }

  /** What a walk from the list head relies on: every listed slot holds a
      node, is listed once and is not NULL, and each node's `next` is the
      following listed slot (NULL after the last). */
  ghost predicate Walkable(p: Profile) {
    && Listed(p)
    && Distinct(p.registry)
    && (forall i :: 0 <= i < |p.registry| ==> p.registry[i] != Null)
    && (forall i {:trigger p.nodes[p.registry[i]]} :: 0 <= i < |p.registry| ==>
          p.nodes[p.registry[i]].next == Successor(p.registry, i))
  }

  lemma WellFormedWalkable(p: Profile)
    requires WellFormed(p)
    ensures Walkable(p)
  {
    forall i | 0 <= i < |p.registry| ensures p.registry[i] != Null {
      assert p.registry[i] in p.nodes;
    }
  }

  /** The first `k` listed nodes with their counts set to zero. */
  function ResetFirst(p: Profile, k: nat): (r: Profile)
    requires k <= |p.registry|
  {
    p.(nodes := Zeroed(p.nodes, p.registry[..k]))
  }

  /** Zeroing counts keeps the invariant and changes nothing but counts. */
  lemma ResetFirstWellFormed(p: Profile, k: nat)
    requires WellFormed(p) && k <= |p.registry|
    ensures WellFormed(ResetFirst(p, k))
    ensures SameShape(p.nodes, ResetFirst(p, k).nodes)
  {
    var m := ResetFirst(p, k).nodes;
    forall b | b in m ensures m[b] == p.nodes[b].(cycleCount := m[b].cycleCount) && IsU64(m[b].cycleCount) {
      ZeroedAt(p.nodes, p.registry[..k], b);
    }
    SameShapeKeepsWellFormed(p, m);
  }

  /** Exactly the first `k` listed nodes are zeroed; the rest keep their
      counts, and no other field changes. */
  lemma ResetFirstCounts(p: Profile, k: nat, i: nat)
    requires Listed(p) && Distinct(p.registry) && k <= |p.registry| && i < |p.registry|
    ensures p.registry[i] in ResetFirst(p, k).nodes
    ensures ResetFirst(p, k).nodes[p.registry[i]]
              == p.nodes[p.registry[i]].(cycleCount := if i < k then 0 else p.nodes[p.registry[i]].cycleCount)
  {
    var a := p.registry[i];
    assert a in p.nodes;
    ZeroedAt(p.nodes, p.registry[..k], a);
    if i < k {
      assert p.registry[..k][i] == a;
    } else {
      assert a !in p.registry[..k] by {
        forall t | 0 <= t < k ensures p.registry[..k][t] != a {
          assert p.registry[t] != p.registry[i];
        }
      }
    }
  }

  /** Zeroing one more node extends the reset by a single store update. */
  lemma ResetFirstStep(p: Profile, k: nat)
    requires Listed(p) && k < |p.registry|
    ensures var q := ResetFirst(p, k).nodes;
            ResetFirst(p, k + 1).nodes == q[p.registry[k] := q[p.registry[k]].(cycleCount := 0)]
  {
    assert p.registry[k] in p.nodes;
    assert p.registry[..k + 1][..k] == p.registry[..k];
  }

  datatype DumpResult = DumpResult(status: int, output: seq<Emit>, after: Profile)

  /** `prof_dump`: walk the list, emitting a pair per node and zeroing its
      count, stopping at the first failing stream call.  The status is the
      encoder's error code, -1 when only the final newline failed, 0 on
      success. */
  function DumpOutcome(p: Profile, s: Stream): (d: DumpResult)
    requires Listed(p) && s.err != 0
    ensures d.status == 0 <==> s.failAt >= 3 * |p.registry| + 4
    ensures |d.output| == 1 + Min(s.failAt + 1, 3 * |p.registry| + 4)
  {
    var n := |p.registry|;
    var plan := Planned(Report(p.nodes, p.registry));
    var status := if s.failAt >= 3 * n + 4 then 0 else if s.failAt == 3 * n + 3 then -1 else s.err;
    DumpResult(status, [Banner] + plan[..Min(s.failAt + 1, 3 * n + 4)], ResetFirst(p, Visited(s.failAt, n)))
  }

  /** A dump, however far it gets, keeps the invariant. */
  lemma DumpKeepsWellFormed(p: Profile, s: Stream)
    requires WellFormed(p) && s.err != 0
    ensures WellFormed(DumpOutcome(p, s).after)
  {
    ResetFirstWellFormed(p, Visited(s.failAt, |p.registry|));
  }
}
