/** The pending errors of one thread as the runtime keeps them: linked cells, a free list and stored chains. */
module ErrorChain {
  import opened Common
  import opened ErrorTypes
  import opened ErrorState

  // ----- memory

  type Address = nat
  const NULL: Address := 0

  /** One `DeeRaisedException`: the next older entry and the error it holds. */
  datatype Cell = Cell(prev: Address, error: Exc)

  type Memory = map<Address, Cell>

  /** What the node at index `i` links to; index -1 stands for the head pointer. */
  function Next(nodes: seq<Address>, i: int): Address {
    if 0 <= i + 1 < |nodes| then nodes[i + 1] else NULL
  }

  ghost predicate Link(mem: Memory, nodes: seq<Address>, i: nat)
    requires i < |nodes|
  {
    nodes[i] != NULL && nodes[i] in mem && mem[nodes[i]].prev == Next(nodes, i)
  }

  /** Following `prev` from `head` passes exactly `nodes` and then ends. */
  ghost predicate Linked(mem: Memory, head: Address, nodes: seq<Address>) {
    head == Next(nodes, -1) && forall i :: 0 <= i < |nodes| ==> Link(mem, nodes, i)
  }

  function ErrorAt(mem: Memory, at: Address): Exc {
    if at in mem then mem[at].error else Exc(0, OBJECT)
  }

  function Errors(mem: Memory, nodes: seq<Address>): seq<Exc> {
    seq(|nodes|, i requires 0 <= i < |nodes| => ErrorAt(mem, nodes[i]))
  }

  lemma LinkedTail(mem: Memory, head: Address, nodes: seq<Address>)
    requires Linked(mem, head, nodes) && nodes != []
    ensures head == nodes[0] && head in mem && head != NULL && Linked(mem, mem[head].prev, nodes[1..])
  {
    assert Link(mem, nodes, 0);
    forall i | 0 <= i < |nodes[1..]| ensures Link(mem, nodes[1..], i) {
      assert Link(mem, nodes, i + 1);
    }
  }

  lemma EndOfChain(mem: Memory, head: Address, nodes: seq<Address>, i: nat)
    requires Linked(mem, head, nodes) && i < |nodes|
    ensures nodes[i] in mem && (mem[nodes[i]].prev == NULL <==> i == |nodes| - 1)
  {
    assert Link(mem, nodes, i);
    assert i + 1 < |nodes| ==> Link(mem, nodes, i + 1);
  }

  lemma LinkedCons(mem: Memory, head: Address, nodes: seq<Address>)
    requires head != NULL && head in mem && Linked(mem, mem[head].prev, nodes)
    ensures Linked(mem, head, [head] + nodes)
  {
    var all := [head] + nodes;
    forall i | 0 <= i < |all| ensures Link(mem, all, i) {
      assert i > 0 ==> Link(mem, nodes, i - 1);
    }
  }

  lemma InMemory(mem: Memory, head: Address, nodes: seq<Address>, a: Address)
    requires Linked(mem, head, nodes) && a in nodes
    ensures a in mem && a != NULL
  {
    var i :| 0 <= i < |nodes| && nodes[i] == a;
    assert Link(mem, nodes, i);
  }

  /** A write to a cell outside a chain leaves the chain and its errors alone. */
  lemma WriteElsewhere(mem: Memory, head: Address, nodes: seq<Address>, at: Address, cell: Cell)
    requires Linked(mem, head, nodes) && at !in nodes
    ensures Linked(mem[at := cell], head, nodes) && Errors(mem[at := cell], nodes) == Errors(mem, nodes)
  {
    var now := mem[at := cell];
    forall i | 0 <= i < |nodes| ensures Link(now, nodes, i) && ErrorAt(now, nodes[i]) == ErrorAt(mem, nodes[i]) {
      assert Link(mem, nodes, i) && nodes[i] in nodes;
    }
  }

  /** A chain that ends passes no node twice. */
  lemma {:induction false} NoNodeTwice(mem: Memory, head: Address, nodes: seq<Address>, i: nat, j: nat)
    requires Linked(mem, head, nodes) && i < j < |nodes|
    ensures nodes[i] != nodes[j]
    decreases |nodes| - j
  {
    assert Link(mem, nodes, i) && Link(mem, nodes, j) && Link(mem, nodes, i + 1);
    if j + 1 < |nodes| {
      NoNodeTwice(mem, head, nodes, i + 1, j + 1);
    }
  }

  /** Memory and head decide the chain. */
  lemma {:induction false} OneChain(mem: Memory, head: Address, a: seq<Address>, b: seq<Address>)
    requires Linked(mem, head, a) && Linked(mem, head, b)
    ensures a == b
    decreases |a|
  {
    if a != [] && b != [] {
      LinkedTail(mem, head, a);
      LinkedTail(mem, head, b);
      OneChain(mem, mem[head].prev, a[1..], b[1..]);
      assert a == [head] + a[1..] && b == [head] + b[1..];
    } else if a != [] {
      LinkedTail(mem, head, a);
    } else if b != [] {
      LinkedTail(mem, head, b);
    }
  }

  /** From a set of nodes that only link to each other no walk ever ends. */
  lemma {:induction false} CycleNeverEnds(mem: Memory, head: Address, cycle: seq<Address>, nodes: seq<Address>)
    requires NULL !in cycle && head in cycle
    requires forall a :: a in cycle && a in mem ==> mem[a].prev in cycle
    ensures !Linked(mem, head, nodes)
    decreases |nodes|
  {
    if Linked(mem, head, nodes) && nodes != [] {
      LinkedTail(mem, head, nodes);
      CycleNeverEnds(mem, mem[head].prev, cycle, nodes[1..]);
    }
  }

  // ----- closing a state block

  /** What closing a block does to memory and head, `nodes` being the chain raised since it was opened. */
  function Spliced(mem: Memory, head: Address, nodes: seq<Address>, stored: Address): (r: (Memory, Address))
    requires nodes != [] ==> nodes[|nodes| - 1] in mem
  {
    if stored == NULL then (mem, head)
    else if nodes == [] then (mem, stored)
    else var end := nodes[|nodes| - 1]; (mem[end := mem[end].(prev := stored)], head)
  }

  lemma LastIn(mem: Memory, head: Address, nodes: seq<Address>)
    requires Linked(mem, head, nodes)
    ensures nodes != [] ==> nodes[|nodes| - 1] in mem
    ensures nodes == [] <==> head == NULL
  {
    if nodes != [] {
      assert Link(mem, nodes, |nodes| - 1) && Link(mem, nodes, 0);
    }
  }

  /** Two chains without a common node become one, the newer in front of the older. */
  lemma SpliceJoins(mem: Memory, head: Address, a: seq<Address>, stored: Address, b: seq<Address>)
    requires Linked(mem, head, a) && Linked(mem, stored, b)
    requires forall n :: n in a ==> n !in b
    ensures a != [] ==> a[|a| - 1] in mem
    ensures var r := Spliced(mem, head, a, stored); Linked(r.0, r.1, a + b)
  {
    LastIn(mem, head, a);
    LastIn(mem, stored, b);
    if b == [] {
      assert a + b == a;
    } else if a == [] {
      assert a + b == b;
    } else {
      var now := Spliced(mem, head, a, stored).0;
      var e := |a| - 1;
      WriteElsewhere(mem, stored, b, a[e], now[a[e]]);
      var all := a + b;
      forall i | 0 <= i < |all| ensures Link(now, all, i) {
        if i < |a| {
          assert Link(mem, a, i);
          if i < e {
            NoNodeTwice(mem, head, a, i, e);
          }
        } else {
          assert Link(now, b, i - |a|);
        }
      }
    }
  }

  /**
   Closing the same block a second time: the thread is left with a chain that ends exactly when the block
   had nothing stored. Otherwise the tail of the stored chain is made to point back at its head.
   */
  lemma SecondPopTiesKnot(mem: Memory, head: Address, a: seq<Address>, stored: Address, b: seq<Address>)
    requires Linked(mem, head, a) && Linked(mem, stored, b)
    requires forall n :: n in a ==> n !in b
    ensures a != [] ==> a[|a| - 1] in mem
    ensures var once := Spliced(mem, head, a, stored);
            && (a + b != [] ==> (a + b)[|a + b| - 1] in once.0)
            && var twice := Spliced(once.0, once.1, a + b, stored);
               (exists nodes :: Linked(twice.0, twice.1, nodes)) <==> stored == NULL
  {
    SpliceJoins(mem, head, a, stored, b);
    var once := Spliced(mem, head, a, stored);
    var all := a + b;
    LastIn(once.0, once.1, all);
    LastIn(mem, stored, b);
    var twice := Spliced(once.0, once.1, all, stored);
    if stored == NULL {
      assert Linked(twice.0, twice.1, all);
    } else {
      KnotClosed(once.0, once.1, all, |a|);
      forall nodes ensures !Linked(twice.0, twice.1, nodes) {
        CycleNeverEnds(twice.0, twice.1, all, nodes);
      }
    }
  }

  lemma KnotClosed(mem: Memory, head: Address, nodes: seq<Address>, k: nat)
    requires Linked(mem, head, nodes) && k < |nodes|
    ensures NULL !in nodes && head in nodes && nodes[|nodes| - 1] in mem
    ensures var now := Spliced(mem, head, nodes, nodes[k]).0;
            forall a :: a in nodes && a in now ==> now[a].prev in nodes
  {
    LastIn(mem, head, nodes);
    LinkedTail(mem, head, nodes);
    var e := |nodes| - 1;
    forall i | 0 <= i < |nodes| ensures nodes[i] != NULL {
      assert Link(mem, nodes, i);
    }
    var now := Spliced(mem, head, nodes, nodes[k]).0;
    forall a | a in nodes && a in now ensures now[a].prev in nodes {
      var i :| 0 <= i < |nodes| && nodes[i] == a;
      if i < e {
        NoNodeTwice(mem, head, nodes, i, e);
        assert Link(mem, nodes, i);
      }
    }
  }

  /** Freeing a node that already is on the free list ties the free list into a knot, wherever the node was. */
  lemma FreedTwice(mem: Memory, pool: Address, free: seq<Address>, k: nat)
    requires Linked(mem, pool, free) && k < |free|
    ensures free[k] in mem
    ensures var now := mem[free[k] := mem[free[k]].(prev := pool)];
            forall nodes :: !Linked(now, free[k], nodes)
  {
    assert Link(mem, free, k) && Link(mem, free, 0);
    var now := mem[free[k] := mem[free[k]].(prev := pool)];
    var cycle := free[..k + 1];
    forall i | 0 <= i < |free| ensures free[i] != NULL {
      assert Link(mem, free, i);
    }
    forall a | a in cycle && a in now ensures now[a].prev in cycle {
      var i :| 0 <= i <= k && cycle[i] == a;
      if i < k {
        NoNodeTwice(mem, pool, free, i, k);
        assert Link(mem, free, i);
        assert now[a].prev == cycle[i + 1];
      } else {
        assert now[a].prev == cycle[0];
      }
    }
    forall nodes ensures !Linked(now, free[k], nodes) {
      assert free[k] == cycle[k];
      CycleNeverEnds(now, free[k], cycle, nodes);
    }
  }

  // ----- the stored chains

  ghost predicate AllLinked(mem: Memory, heads: seq<Address>, chains: seq<seq<Address>>) {
    |heads| == |chains| && forall i :: 0 <= i < |heads| ==> Linked(mem, heads[i], chains[i])
  }

  function AllErrors(mem: Memory, chains: seq<seq<Address>>): seq<seq<Exc>> {
    seq(|chains|, i requires 0 <= i < |chains| => Errors(mem, chains[i]))
  }

  lemma WriteBeside(mem: Memory, heads: seq<Address>, chains: seq<seq<Address>>, at: Address, cell: Cell)
    requires AllLinked(mem, heads, chains) && at !in Flatten(chains)
    ensures AllLinked(mem[at := cell], heads, chains)
    ensures AllErrors(mem[at := cell], chains) == AllErrors(mem, chains)
  {
    var now := mem[at := cell];
    forall i | 0 <= i < |chains|
      ensures Linked(now, heads[i], chains[i]) && Errors(now, chains[i]) == Errors(mem, chains[i])
    {
      if at in chains[i] {
        InFlatten(chains, i, at);
      }
      WriteElsewhere(mem, heads[i], chains[i], at, cell);
    }
  }

  ghost predicate Once(m: multiset<Address>) {
    forall a :: m[a] <= 1
  }

  function Shared(a: seq<Address>, b: seq<Address>, c: seq<Address>, held: seq<Address>): multiset<Address> {
    multiset(a) + multiset(b) + multiset(c) + multiset(held)
  }

  /** A held node is on no list; it can be put at the front of one. */
  lemma Apart(a: seq<Address>, b: seq<Address>, c: seq<Address>, entry: Address, rest: seq<Address>)
    requires Once(Shared(a, b, c, [entry] + rest))
    ensures entry !in a && entry !in b && entry !in c && entry !in rest
    ensures Shared([entry] + a, b, c, rest) == Shared(a, b, c, [entry] + rest)
    ensures Shared(a, [entry] + b, c, rest) == Shared(a, b, c, [entry] + rest)
  {
    var all := Shared(a, b, c, [entry] + rest);
    assert multiset([entry] + rest) == multiset{entry} + multiset(rest);
    assert multiset([entry] + a) == multiset{entry} + multiset(a);
    assert multiset([entry] + b) == multiset{entry} + multiset(b);
    assert all[entry] == multiset(a)[entry] + multiset(b)[entry] + multiset(c)[entry] + 1 + multiset(rest)[entry];
  }

  /** A thread's pointers together with the nodes they stand for. */
  datatype Image = Image(mem: Memory, pool: Address, free: seq<Address>, exception: Address, visible: seq<Address>,
                         saved: seq<Address>, stored: seq<seq<Address>>) {

    /** All lists end, and no node is on two of them or on one of them and among the nodes `held` by the caller. */
    ghost predicate Separate(held: seq<Address>) {
      && Linked(mem, pool, free) && Linked(mem, exception, visible) && AllLinked(mem, saved, stored)
      && Once(Shared(free, visible, Flatten(stored), held))
    }

    function Abs(): State {
      State(Errors(mem, visible), AllErrors(mem, stored))
    }
  }

  /** Filling in a held node disturbs no list. */
  lemma WriteHeld(m: Image, entry: Address, cell: Cell, held: seq<Address>)
    requires m.Separate([entry] + held)
    ensures var t := m.(mem := m.mem[entry := cell]); t.Separate([entry] + held) && t.Abs() == m.Abs()
  {
    Apart(m.free, m.visible, Flatten(m.stored), entry, held);
    WriteElsewhere(m.mem, m.pool, m.free, entry, cell);
    WriteElsewhere(m.mem, m.exception, m.visible, entry, cell);
    WriteBeside(m.mem, m.saved, m.stored, entry, cell);
  }

  /** Putting a held node that links to the newest one in front of the visible chain. */
  lemma LinkHeld(m: Image, entry: Address, held: seq<Address>)
    requires m.Separate([entry] + held) && entry != NULL && entry in m.mem && m.mem[entry].prev == m.exception
    ensures var t := m.(exception := entry, visible := [entry] + m.visible);
            t.Separate(held) && t.Abs() == Apply(m.Abs(), Op.Throw(m.mem[entry].error)).state
  {
    Apart(m.free, m.visible, Flatten(m.stored), entry, held);
    LinkedCons(m.mem, entry, m.visible);
  }

  /** Putting a held node that links to the first free one on the free list. */
  lemma FreeHeld(m: Image, entry: Address, held: seq<Address>)
    requires m.Separate([entry] + held) && entry != NULL && entry in m.mem && m.mem[entry].prev == m.pool
    ensures m.(pool := entry, free := [entry] + m.free).Separate(held)
  {
    Apart(m.free, m.visible, Flatten(m.stored), entry, held);
    LinkedCons(m.mem, entry, m.free);
  }

  /** Taking the first node off the free list. */
  lemma HoldFree(m: Image, held: seq<Address>)
    requires m.Separate(held) && m.pool != NULL
    ensures m.pool in m.mem && m.free != []
    ensures m.(pool := m.mem[m.pool].prev, free := m.free[1..]).Separate([m.pool] + held)
  {
    LinkedTail(m.mem, m.pool, m.free);
    assert m.free == [m.pool] + m.free[1..];
    assert Shared(m.free[1..], m.visible, Flatten(m.stored), [m.pool] + held)
        == Shared(m.free, m.visible, Flatten(m.stored), held);
  }

  /** Taking the newest node off the visible chain. */
  lemma HoldNewest(m: Image, held: seq<Address>)
    requires m.Separate(held) && m.exception != NULL
    ensures m.exception in m.mem && m.visible != []
    ensures var t := m.(exception := m.mem[m.exception].prev, visible := m.visible[1..]);
            t.Separate([m.exception] + held) && t.Abs() == Apply(m.Abs(), Op.HandledOne).state
    ensures m.mem[m.exception].error == m.Abs().visible[0]
    ensures m.mem[m.exception].prev == NULL <==> |m.visible| == 1
  {
    LinkedTail(m.mem, m.exception, m.visible);
    EndOfChain(m.mem, m.exception, m.visible, 0);
    assert m.visible == [m.exception] + m.visible[1..];
    assert Shared(m.free, m.visible[1..], Flatten(m.stored), [m.exception] + held)
        == Shared(m.free, m.visible, Flatten(m.stored), held);
  }

  /** The newest node goes from the visible chain to the free list. */
  lemma DropNewest(m: Image)
    requires m.Separate([]) && m.exception != NULL
    ensures m.exception in m.mem && m.visible != []
    ensures var e := m.exception;
            var t := m.(mem := m.mem[e := m.mem[e].(prev := m.pool)], pool := e, free := [e] + m.free,
                        exception := m.mem[e].prev, visible := m.visible[1..]);
            t.Separate([]) && t.Abs() == Apply(m.Abs(), Op.HandledOne).state && m.mem[e].error == m.Abs().visible[0]
  {
    HoldNewest(m, []);
    var e := m.exception;
    var t := m.(exception := m.mem[e].prev, visible := m.visible[1..]);
    WriteHeld(t, e, m.mem[e].(prev := m.pool), []);
    FreeHeld(t.(mem := t.mem[e := m.mem[e].(prev := m.pool)]), e, []);
  }

  /** Taking the whole visible chain. */
  lemma HoldAll(m: Image, held: seq<Address>)
    requires m.Separate(held)
    ensures var t := m.(exception := NULL, visible := []);
            t.Separate(m.visible + held) && t.Abs() == Apply(m.Abs(), Op.Handled).state
  {
    assert Shared(m.free, [], Flatten(m.stored), m.visible + held)
        == Shared(m.free, m.visible, Flatten(m.stored), held);
  }

  /** Freeing the first node of a held chain leaves the rest of that chain alone. */
  lemma FrontApart(m: Image, entry: Address, nodes: seq<Address>)
    requires m.Separate(nodes) && nodes != [] && Linked(m.mem, entry, nodes)
    ensures nodes == [entry] + nodes[1..] && entry in m.mem && entry != NULL
    ensures var now := m.mem[entry := m.mem[entry].(prev := m.pool)];
            && Linked(now, m.mem[entry].prev, nodes[1..])
            && [m.mem[entry].error] + Errors(now, nodes[1..]) == Errors(m.mem, nodes)
    ensures m.mem[entry].prev == NULL <==> nodes[1..] == []
  {
    LinkedTail(m.mem, entry, nodes);
    var tail := nodes[1..];
    assert nodes == [entry] + tail;
    assert Errors(m.mem, nodes) == [m.mem[entry].error] + Errors(m.mem, tail);
    Apart(m.free, m.visible, Flatten(m.stored), entry, tail);
    WriteElsewhere(m.mem, m.mem[entry].prev, tail, entry, m.mem[entry].(prev := m.pool));
    LastIn(m.mem, m.mem[entry].prev, tail);
  }

  lemma OpenBlock(m: Image, held: seq<Address>)
    requires m.Separate(held)
    ensures var t := m.(exception := NULL, visible := [],
                        saved := [m.exception] + m.saved, stored := [m.visible] + m.stored);
            t.Separate(held) && t.Abs() == Apply(m.Abs(), Op.PushState).state
  {
    var chains := [m.visible] + m.stored;
    assert chains[1..] == m.stored;
    assert Flatten(chains) == m.visible + Flatten(m.stored);
    assert Shared(m.free, [], Flatten(chains), held) == Shared(m.free, m.visible, Flatten(m.stored), held);
    forall i | 0 <= i < |chains| ensures Linked(m.mem, ([m.exception] + m.saved)[i], chains[i]) {
      assert i > 0 ==> Linked(m.mem, m.saved[i - 1], m.stored[i - 1]);
    }
    assert AllErrors(m.mem, chains) == [Errors(m.mem, m.visible)] + AllErrors(m.mem, m.stored);
  }

  lemma CloseBlock(m: Image, held: seq<Address>)
    requires m.Separate(held) && m.saved != []
    ensures m.visible != [] ==> m.visible[|m.visible| - 1] in m.mem
    ensures var r := Spliced(m.mem, m.exception, m.visible, m.saved[0]);
            var t := Image(r.0, m.pool, m.free, r.1, m.visible + m.stored[0], m.saved[1..], m.stored[1..]);
            t.Separate(held) && t.Abs() == Apply(m.Abs(), Op.PopState).state
  {
    LastIn(m.mem, m.exception, m.visible);
    var r := Spliced(m.mem, m.exception, m.visible, m.saved[0]);
    PopMovesNoNode(m.free, m.visible, m.stored, held);
    SpliceJoins(m.mem, m.exception, m.visible, m.saved[0], m.stored[0]);
    SpliceKeepsErrors(m.mem, m.exception, m.visible, m.saved[0]);
    BelowLinked(m.mem, m.saved, m.stored);
    if r.0 != m.mem {
      var end := m.visible[|m.visible| - 1];
      assert end in m.visible;
      WriteElsewhere(m.mem, m.pool, m.free, end, r.0[end]);
      WriteBeside(m.mem, m.saved[1..], m.stored[1..], end, r.0[end]);
    }
    assert Errors(r.0, m.visible + m.stored[0]) == Errors(m.mem, m.visible) + Errors(m.mem, m.stored[0]);
  }

  lemma PopMovesNoNode(free: seq<Address>, visible: seq<Address>, stored: seq<seq<Address>>, held: seq<Address>)
    requires stored != [] && Once(Shared(free, visible, Flatten(stored), held))
    ensures Shared(free, visible + stored[0], Flatten(stored[1..]), held)
         == Shared(free, visible, Flatten(stored), held)
    ensures forall n :: n in visible ==> n !in stored[0] && n !in free && n !in Flatten(stored[1..])
  {
    var (first, below) := (stored[0], Flatten(stored[1..]));
    var all := Shared(free, visible, Flatten(stored), held);
    assert Flatten(stored) == first + below;
    assert Shared(free, visible + first, below, held) == all;
    forall n | n in visible ensures n !in first && n !in free && n !in below {
      assert all[n]
          == multiset(free)[n] + multiset(visible)[n] + multiset(first)[n] + multiset(below)[n] + multiset(held)[n];
    }
  }

  lemma BelowLinked(mem: Memory, saved: seq<Address>, stored: seq<seq<Address>>)
    requires AllLinked(mem, saved, stored) && saved != []
    ensures Linked(mem, saved[0], stored[0])
    ensures AllLinked(mem, saved[1..], stored[1..]) && AllErrors(mem, stored[1..]) == AllErrors(mem, stored)[1..]
  {
    forall i | 0 <= i < |saved| - 1 ensures Linked(mem, saved[1..][i], stored[1..][i]) {
      assert Linked(mem, saved[i + 1], stored[i + 1]);
    }
  }

  lemma SpliceKeepsErrors(mem: Memory, head: Address, nodes: seq<Address>, stored: Address)
    requires Linked(mem, head, nodes)
    ensures nodes != [] ==> nodes[|nodes| - 1] in mem
    ensures forall more :: Errors(Spliced(mem, head, nodes, stored).0, more) == Errors(mem, more)
  {
    LastIn(mem, head, nodes);
    var now := Spliced(mem, head, nodes, stored).0;
    assert forall a :: ErrorAt(now, a) == ErrorAt(mem, a);
  }

  /** Blocks that an allocator can hand out one after the other. */
  ghost predicate UsableBlocks(mem: Memory, blocks: seq<Address>) {
    (forall i :: 0 <= i < |blocks| ==> blocks[i] != NULL && blocks[i] !in mem) && Once(multiset(blocks))
  }

  lemma UsableTail(mem: Memory, now: Memory, blocks: seq<Address>)
    requires UsableBlocks(mem, blocks) && blocks != [] && now.Keys <= mem.Keys + {blocks[0]}
    ensures UsableBlocks(now, blocks[1..])
  {
    var rest := blocks[1..];
    assert blocks == [blocks[0]] + rest;
    assert multiset(blocks) == multiset{blocks[0]} + multiset(rest);
    assert multiset(blocks)[blocks[0]] <= 1;
    forall a ensures multiset(rest)[a] <= 1 {
      assert multiset(blocks)[a] <= 1;
    }
    forall i | 0 <= i < |rest| ensures rest[i] != NULL && rest[i] !in now {
      assert rest[i] == blocks[i + 1] && rest[i] in rest;
    }
  }

  class Thread {
    var memory: Memory
    var exception: Address
    var pool: Address
    /** The chains stored by the open state blocks, innermost first. */
    var saved: seq<Address>

    ghost var free: seq<Address>
    ghost var visible: seq<Address>
    ghost var stored: seq<seq<Address>>
    /** The errors whose reference was dropped, in that order. */
    ghost var released: seq<Exc>

    ghost function Now(): Image
      reads this
    {
      Image(memory, pool, free, exception, visible, saved, stored)
    }

    ghost predicate Owns(held: seq<Address>)
      reads this
    {
      Now().Separate(held)
    }

    ghost predicate Valid()
      reads this
    {
      Owns([])
    }

    ghost function Abs(): State
      reads this
    {
      Now().Abs()
    }

    constructor ()
      ensures Valid() && Abs() == FRESH && released == []
    {
      memory, exception, pool, saved := map[], NULL, NULL, [];
      free, visible, stored, released := [], [], [], [];
    }

    // ----- nodes

    /** Takes a node from the free list, or, when that is empty, the block `malloc` hands out. */
    method TryAlloc(block: Address) returns (entry: Address)
      requires Valid() && block != NULL && block !in memory
      modifies this`pool, this`free
      ensures Owns([entry]) && entry != NULL && (entry == block || entry in memory)
      ensures if old(pool) == NULL then entry == block && free == old(free)
              else entry == old(pool) && old(free) == [entry] + free
    {
      if pool != NULL {
        HoldFree(Now(), []);
        entry := pool;
        pool := memory[entry].prev;
        free := free[1..];
        LinkedTail(memory, old(pool), old(free));
        assert old(free) == [entry] + free;
        assert [entry] + [] == [entry];
      } else {
        entry := block;
        Unowned(entry);
      }
    }

    lemma Unowned(block: Address)
      requires Valid() && block !in memory
      ensures Owns([block])
    {
      if block in free {
        InMemory(memory, pool, free, block);
      }
      if block in visible {
        InMemory(memory, exception, visible, block);
      }
      if block in Flatten(stored) {
        var i := WhereInFlatten(stored, block);
        InMemory(memory, saved[i], stored[i], block);
      }
      var all := Shared(free, visible, Flatten(stored), []);
      forall a ensures Shared(free, visible, Flatten(stored), [block])[a] <= 1 {
        assert all[a] <= 1;
        assert a == block ==> all[a] == 0;
        assert Shared(free, visible, Flatten(stored), [block])[a] == all[a] + multiset([block])[a];
      }
    }

    /** Puts a node that is on no list onto the free list. */
    method Free(entry: Address, ghost rest: seq<Address>)
      requires Owns([entry] + rest) && entry in memory && entry != NULL
      modifies this`memory, this`pool, this`free
      ensures Owns(rest) && Abs() == old(Abs())
      ensures memory == old(memory)[entry := old(memory)[entry].(prev := old(pool))]
      ensures free == [entry] + old(free)
    {
      WriteHeld(Now(), entry, memory[entry].(prev := pool), rest);
      memory := memory[entry := memory[entry].(prev := pool)];
      FreeHeld(Now(), entry, rest);
      pool := entry;
      free := [entry] + free;
    }

    /** Takes the newest error off the chain; the caller now holds its node. */
    method Unlink() returns (entry: Address)
      requires Valid() && exception != NULL
      modifies this`exception, this`visible
      ensures Owns([entry] + []) && entry == old(exception) && entry != NULL && entry in memory
      ensures Abs() == Apply(old(Abs()), Op.HandledOne).state && old(Abs()).visible[0] == memory[entry].error
      ensures memory[entry].prev != NULL <==> Apply(old(Abs()), Op.HandledOne).code == 1
    {
      HoldNewest(Now(), []);
      entry := exception;
      exception := memory[entry].prev;
      visible := visible[1..];
    }

    /** Drops the reference a node holds and frees the node. */
    method Release(entry: Address, ghost rest: seq<Address>)
      requires Owns([entry] + rest) && entry in memory && entry != NULL
      modifies this`memory, this`pool, this`free, this`released
      ensures Owns(rest) && Abs() == old(Abs())
      ensures memory == old(memory)[entry := old(memory)[entry].(prev := old(pool))]
      ensures free == [entry] + old(free)
      ensures released == old(released) + [old(memory)[entry].error]
    {
      released := released + [memory[entry].error];
      Free(entry, rest);
    }

    /** Releases the first node of a chain that was taken off the thread. */
    method ReleaseFront(entry: Address, ghost nodes: seq<Address>) returns (next: Address)
      requires Owns(nodes) && nodes != [] && Linked(memory, entry, nodes)
      modifies this`memory, this`pool, this`free, this`released
      ensures Owns(nodes[1..]) && Linked(memory, next, nodes[1..]) && (next == NULL <==> nodes[1..] == [])
      ensures Abs() == old(Abs()) && free == [nodes[0]] + old(free)
      ensures released + Errors(memory, nodes[1..]) == old(released + Errors(memory, nodes))
    {
      FrontApart(Now(), entry, nodes);
      next := memory[entry].prev;
      Release(entry, nodes[1..]);
    }

    /** Releases a chain that was taken off the thread, newest error first. */
    method ReleaseChain(first: Address, ghost nodes: seq<Address>)
      requires Owns(nodes) && nodes != [] && Linked(memory, first, nodes)
      modifies this`memory, this`pool, this`free, this`released
      ensures Valid() && Abs() == old(Abs())
      ensures released == old(released + Errors(memory, nodes))
      ensures forall n :: n in nodes ==> n in free
    {
      var entry := first;
      ghost var rest := nodes;
      while true
        invariant Owns(rest) && rest != [] && Linked(memory, entry, rest) && Abs() == old(Abs())
        invariant released + Errors(memory, rest) == old(released + Errors(memory, nodes))
        invariant forall n :: n in nodes ==> n in free || n in rest
        decreases |rest|
      {
        assert rest == [rest[0]] + rest[1..];
        var next := ReleaseFront(entry, rest);
        rest := rest[1..];
        if next == NULL {
          break;
        }
        entry := next;
      }
    }

    // ----- raising and handling

    method Throw(error: Exc, block: Address)
      requires Valid() && block != NULL && block !in memory
      modifies this`memory, this`exception, this`pool, this`free, this`visible
      ensures Valid() && Abs() == Apply(old(Abs()), Op.Throw(error)).state
      ensures Abs() == old(Abs()).(visible := [error] + old(Abs()).visible)
      ensures memory.Keys <= old(memory.Keys) + {block}
      ensures visible == [exception] + old(visible)
    {
      var entry := TryAlloc(block);
      assert [entry] + [] == [entry];
      WriteHeld(Now(), entry, Cell(exception, error), []);
      memory := memory[entry := Cell(exception, error)];
      LinkHeld(Now(), entry, []);
      exception := entry;
      visible := [entry] + visible;
    }

    method HandledOne() returns (code: int)
      requires Valid()
      modifies this
      ensures Valid()
      ensures var o := Apply(old(Abs()), Op.HandledOne);
              Abs() == o.state && code == o.code && released == old(released) + o.dropped
      ensures var s := old(Abs());
              if s.visible == [] then code == -1 && Abs() == s && released == old(released)
              else
                && code == (if |s.visible| > 1 then 1 else 0) && Abs() == s.(visible := s.visible[1..])
                && released == old(released) + [s.visible[0]]
    {
      if exception == NULL {
        LastIn(memory, exception, visible);
        return -1;
      }
      var entry := Unlink();
      code := if memory[entry].prev != NULL then 1 else 0;
      Release(entry, []);
    }

    method Handled() returns (code: int)
      requires Valid()
      modifies this`memory, this`exception, this`pool, this`free, this`visible, this`released
      ensures Valid() && exception == NULL && forall n :: n in old(visible) ==> n in free
      ensures var o := Apply(old(Abs()), Op.Handled);
              Abs() == o.state && code == o.code && released == old(released) + o.dropped
      ensures var s := old(Abs());
              && code == (if s.visible == [] then 0 else 1) && Abs() == s.(visible := [])
              && released == old(released) + s.visible
    {
      LastIn(memory, exception, visible);
      if exception == NULL {
        return 0;
      }
      HoldAll(Now(), []);
      var entry := exception;
      exception := NULL;
      ghost var nodes := visible;
      visible := [];
      assert nodes + [] == nodes;
      ReleaseChain(entry, nodes);
      code := 1;
    }

    method HandleOne(tp: TypeObject) returns (code: int)
      requires Valid()
      modifies this
      ensures Valid()
      ensures var o := Apply(old(Abs()), Op.HandleOne(tp));
              Abs() == o.state && code == o.code && released == old(released) + o.dropped
      ensures var s := old(Abs());
              if s.visible == [] || !LeadsTo(s.visible[0].tp, tp)
              then code == -1 && Abs() == s && released == old(released)
              else
                && code == (if |s.visible| > 1 then 1 else 0) && Abs() == s.(visible := s.visible[1..])
                && released == old(released) + [s.visible[0]]
    {
      LastIn(memory, exception, visible);
      if exception == NULL {
        return -1;
      }
      LinkedTail(memory, exception, visible);
      var matches := WalkBases(memory[exception].error.tp, tp);
      if !matches {
        return -1;
      }
      code := HandledOne();
    }

    method Handle(tp: TypeObject) returns (code: int)
      requires Valid()
      modifies this
      ensures Valid()
      ensures var o := Apply(old(Abs()), Op.Handle(tp));
              Abs() == o.state && code == o.code && released == old(released) + o.dropped
      ensures var s := old(Abs());
              if s.visible == [] || !LeadsTo(s.visible[0].tp, tp)
              then code == 0 && Abs() == s && released == old(released)
              else code == 1 && Abs() == s.(visible := []) && released == old(released) + s.visible
    {
      LastIn(memory, exception, visible);
      if exception == NULL {
        return 0;
      }
      LinkedTail(memory, exception, visible);
      var matches := WalkBases(memory[exception].error.tp, tp);
      if !matches {
        return 0;
      }
      code := Handled();
    }

    /** Hands the newest error to the caller instead of dropping it. */
    method PopOccurredOne() returns (code: int, error: Option<Exc>)
      requires Valid()
      modifies this
      ensures Valid() && released == old(released)
      ensures var o := Apply(old(Abs()), Op.HandledOne);
              && Abs() == o.state && code == o.code
              && error == if o.dropped == [] then None else Some(o.dropped[0])
      ensures var s := old(Abs());
              if s.visible == [] then code == -1 && error == None && Abs() == s
              else
                && code == (if |s.visible| > 1 then 1 else 0) && error == Some(s.visible[0])
                && Abs() == s.(visible := s.visible[1..])
    {
      LastIn(memory, exception, visible);
      if exception == NULL {
        return -1, None;
      }
      var entry := Unlink();
      error := Some(memory[entry].error);
      code := if memory[entry].prev != NULL then 1 else 0;
      Free(entry, []);
    }

    // ----- state blocks

    method PushState()
      requires Valid()
      modifies this`exception, this`visible, this`saved, this`stored
      ensures Valid() && Abs() == Apply(old(Abs()), Op.PushState).state
      ensures Abs() == State([], [old(Abs()).visible] + old(Abs()).saved)
    {
      LastIn(memory, exception, visible);
      OpenBlock(Now(), []);
      saved := [exception] + saved;
      if exception != NULL {
        exception := NULL;
      }
      stored := [visible] + stored;
      visible := [];
    }

    /** The tail walk and the splice; `nodes` is the chain raised since the block was opened. */
    method BreakState(chain: Address, ghost nodes: seq<Address>)
      requires Linked(memory, exception, nodes)
      modifies this`memory, this`exception
      ensures nodes != [] ==> nodes[|nodes| - 1] in old(memory)
      ensures (memory, exception) == Spliced(old(memory), old(exception), nodes, chain)
    {
      LastIn(memory, exception, nodes);
      if chain != NULL {
        var end := exception;
        if end != NULL {
          ghost var i := 0;
          assert Link(memory, nodes, 0);
          while memory[end].prev != NULL
            invariant 0 <= i < |nodes| && end == nodes[i] && end in memory
            decreases |nodes| - i
          {
            assert Link(memory, nodes, i) && Link(memory, nodes, i + 1);
            end := memory[end].prev;
            i := i + 1;
          }
          EndOfChain(memory, exception, nodes, i);
          memory := memory[end := memory[end].(prev := chain)];
        } else {
          exception := chain;
        }
      }
    }

    method PopState()
      requires Valid() && saved != []
      modifies this`memory, this`exception, this`visible, this`saved, this`stored
      ensures Valid() && Abs() == Apply(old(Abs()), Op.PopState).state
      ensures var s := old(Abs()); Abs() == State(s.visible + s.saved[0], s.saved[1..])
    {
      CloseBlock(Now(), []);
      BreakState(saved[0], visible);
      saved := saved[1..];
      visible := visible + stored[0];
      stored := stored[1..];
    }

    // ----- printing

    /** What failing user code leaves behind: the errors it raised, oldest first in `raised`. */
    method ThrowAll(raised: seq<Exc>, blocks: seq<Address>)
      requires Valid() && |blocks| == |raised| && UsableBlocks(memory, blocks)
      modifies this`memory, this`exception, this`pool, this`free, this`visible
      ensures Valid() && Abs().saved == old(Abs()).saved
      ensures multiset(Abs().visible) == multiset(raised) + multiset(old(Abs()).visible)
      ensures forall n :: n in old(visible) ==> n in visible
    {
      var i := 0;
      while i < |raised|
        invariant 0 <= i <= |raised| && Valid() && UsableBlocks(memory, blocks[i..])
        invariant Abs().saved == old(Abs()).saved
        invariant multiset(Abs().visible) == multiset(raised[..i]) + multiset(old(Abs()).visible)
        invariant forall n :: n in old(visible) ==> n in visible
      {
        assert raised[..i + 1] == raised[..i] + [raised[i]];
        ghost var (mem, left) := (memory, blocks[i..]);
        Throw(raised[i], blocks[i]);
        UsableTail(mem, memory, left);
        assert left[1..] == blocks[i + 1..];
        i := i + 1;
      }
      assert raised[..i] == raised;
    }

    /**
     Builds the text of the newest error. User code runs to do that; when it fails it has raised errors of
     its own, oldest first in `raised`, and then every pending error is handled.
     */
    method Display(raised: seq<Exc>, blocks: seq<Address>)
      requires Valid() && |blocks| == |raised| && UsableBlocks(memory, blocks)
      modifies this`memory, this`exception, this`pool, this`free, this`visible, this`released
      ensures Valid()
      ensures raised == [] ==> memory == old(memory) && exception == old(exception) && visible == old(visible)
      ensures raised == [] ==> Abs() == old(Abs()) && released == old(released)
      ensures raised != [] ==> Abs() == old(Abs()).(visible := []) && forall n :: n in old(visible) ==> n in free
      ensures raised != [] ==> exception == NULL
      ensures raised != [] ==>
                multiset(released) == old(multiset(released)) + multiset(raised) + multiset(old(Abs()).visible)
    {
      if raised != [] {
        ThrowAll(raised, blocks);
        var _ := Handled();
      }
    }

    /** The last steps of `Print`: `entry` is the newest node, or already on the free list. */
    method UnlinkAndFree(entry: Address)
      requires Valid() && entry != NULL && (entry == exception || entry in free)
      modifies this`memory, this`exception, this`pool, this`free, this`visible, this`released
      ensures entry == old(exception) ==> Valid() && released == old(released) + [old(Abs()).visible[0]]
      ensures entry == old(exception) ==> Abs() == Apply(old(Abs()), Op.HandledOne).state
      ensures entry != old(exception) ==> forall nodes :: !Linked(memory, pool, nodes)
    {
      if entry == exception {
        DropNewest(Now());
        free, visible := [entry] + free, visible[1..];
      } else {
        ghost var k :| 0 <= k < |free| && free[k] == entry;
        FreedTwice(memory, pool, free, k);
      }
      exception := memory[entry].prev;
      released := released + [memory[entry].error];
      memory := memory[entry := memory[entry].(prev := pool)];
      pool := entry;
    }

    /**
     Prints the newest error and, if asked to, takes it off the chain. The free list still ends, and the thread is
     still in order, exactly when there was nothing to print, the error was to be kept, or its text could be built:
     otherwise the entry was already freed together with all others, and is unlinked and freed a second time.
     */
    method Print(handle: bool, raised: seq<Exc>, blocks: seq<Address>) returns (code: int)
      requires Valid() && |blocks| == |raised| && UsableBlocks(memory, blocks)
      modifies this`memory, this`exception, this`pool, this`free, this`visible, this`released
      ensures var s := old(Abs());
              && code == (if s.visible == [] then 1 else 0)
              && ((exists nodes :: Linked(memory, pool, nodes)) <==> s.visible == [] || !handle || raised == [])
              && (s.visible == [] ==> Valid() && Abs() == s && released == old(released))
              && (s.visible != [] && raised == [] ==>
                    && Valid()
                    && Abs() == (if handle then Apply(s, Op.HandledOne).state else s)
                    && released == old(released) + (if handle then [s.visible[0]] else []))
              && (s.visible != [] && raised != [] && !handle ==> Valid() && Abs() == s.(visible := []))
    {
      LastIn(memory, exception, visible);
      assert Linked(memory, pool, free);
      if exception == NULL {
        return 1;
      }
      var entry := exception;
      LinkedTail(memory, exception, visible);
      assert entry in visible;
      Display(raised, blocks);
      assert Linked(memory, pool, free);
      if handle {
        UnlinkAndFree(entry);
      }
      code := 0;
    }

    /** `Print` of an error whose text can be built. */
    method PrintAndHandle() returns (code: int)
      requires Valid()
      modifies this`memory, this`exception, this`pool, this`free, this`visible, this`released
      ensures Valid() && Abs().saved == old(Abs()).saved
      ensures code == 0 ==> |Abs().visible| < old(|Abs().visible|)
      ensures code != 0 ==> Abs().visible == []
      ensures released + Abs().visible == old(released + Abs().visible)
    {
      ghost var s := Abs();
      code := Print(true, [], []);
      assert s.visible != [] ==> [s.visible[0]] + s.visible[1..] == s.visible;
    }

    /**
     What the interpreter does with the errors its program left behind: print and handle them until `Print`
     finds none. With printable errors it ends with nothing visible, the oldest error having been printed last.
     */
    method Drain()
      requires Valid()
      modifies this`memory, this`exception, this`pool, this`free, this`visible, this`released
      ensures Valid() && Abs() == old(Abs()).(visible := []) && released == old(released) + old(Abs()).visible
    {
      var code := PrintAndHandle();
      while code == 0
        invariant Valid() && Abs().saved == old(Abs()).saved
        invariant released + Abs().visible == old(released + Abs().visible)
        invariant code != 0 ==> Abs().visible == []
        decreases |Abs().visible|, code == 0
      {
        code := PrintAndHandle();
      }
    }
  }
}
