/**
 One thread changing its error chain while others look at it. Every step below is one access the scheduler may
 interleave: the owner prepares and recycles nodes without the lock, and takes it only around a single store.
 */
module ErrorObservers {
  import opened Common
  import opened ErrorState
  import opened ErrorChain

  /** How far the owner is with an operation; `entry` is the node prepared for a throw. */
  datatype Phase = Idle | Waiting(op: Op, entry: Address) | Holding(op: Op, entry: Address) | Written

  /** Who holds the lock. An observer is at node `at`, has read `seen`, and entered after `after` operations. */
  datatype Lock = Open | Owner | Observer(id: nat, at: Address, seen: seq<Exc>, after: nat)

  datatype Observation = Observation(id: nat, seen: seq<Exc>, after: nat)

  /** `held` are unlinked nodes that are still to be recycled, `ops` the operations that took effect so far. */
  datatype World = World(image: Image, held: seq<Address>, phase: Phase, lock: Lock,
                         ops: seq<Op>, log: seq<Observation>)

  datatype Action = Begin(op: Op, block: Address) | Acquire | Store | Release | Recycle | Enter(id: nat) | Look | Leave

  const START := World(Image(map[], NULL, [], NULL, [], [], []), [], Idle, Open, [], [])

  /** Opening a block without pending errors and closing one without stored errors touch nothing shared. */
  predicate NeedsLock(m: Image, op: Op) {
    match op
    case PushState => m.exception != NULL
    case PopState => m.saved != [] && m.saved[0] != NULL
    case _ => true
  }

  predicate CanBegin(m: Image, op: Op, block: Address) {
    match op
    case Throw(_) => if m.pool == NULL then block != NULL && block !in m.mem else m.pool in m.mem && m.free != []
    case HandledOne => m.exception != NULL
    case Handled => m.exception != NULL
    case PushState => true
    case PopState => m.saved != []
    case _ => false
  }

  predicate CanStore(m: Image, op: Op) {
    match op
    case Throw(_) => true
    case HandledOne => m.visible != [] && m.exception in m.mem
    case Handled => true
    case PushState => true
    case PopState => m.saved != [] && m.stored != [] && (m.visible != [] ==> m.visible[|m.visible| - 1] in m.mem)
    case _ => false
  }

  predicate Enabled(w: World, a: Action) {
    match a
    case Begin(op, block) =>
      w.phase.Idle? && CanBegin(w.image, op, block) && (NeedsLock(w.image, op) || CanStore(w.image, op))
    case Acquire => w.phase.Waiting? && w.lock.Open?
    case Store => w.phase.Holding? && CanStore(w.image, w.phase.op)
    case Release => w.phase.Written?
    case Recycle => w.held != [] && w.held[0] in w.image.mem
    case Enter(_) => w.lock.Open?
    case Look => w.lock.Observer? && w.lock.at != NULL && w.lock.at in w.image.mem
    case Leave => w.lock.Observer? && w.lock.at == NULL
  }

  /** The work of a throw before it needs the lock: get a node and fill it in. */
  function Prepare(w: World, error: Exc, block: Address): World
    requires CanBegin(w.image, Op.Throw(error), block)
  {
    var m := w.image;
    var entry := if m.pool == NULL then block else m.pool;
    var t := if m.pool == NULL then m else m.(pool := m.mem[m.pool].prev, free := m.free[1..]);
    w.(image := t.(mem := m.mem[entry := Cell(m.exception, error)]), phase := Waiting(Op.Throw(error), entry))
  }

  /** The one store that makes an operation take effect. */
  function Commit(w: World, op: Op, entry: Address): World
    requires CanStore(w.image, op)
  {
    var m := w.image;
    var t := w.(ops := w.ops + [op]);
    match op
    case Throw(e) => t.(image := m.(exception := entry, visible := [entry] + m.visible))
    case HandledOne =>
      t.(image := m.(exception := m.mem[m.exception].prev, visible := m.visible[1..]), held := [m.exception] + w.held)
    case Handled => t.(image := m.(exception := NULL, visible := []), held := m.visible + w.held)
    case PushState =>
      t.(image := m.(exception := NULL, visible := [],
                     saved := [m.exception] + m.saved, stored := [m.visible] + m.stored))
    case PopState =>
      var r := Spliced(m.mem, m.exception, m.visible, m.saved[0]);
      t.(image := Image(r.0, m.pool, m.free, r.1, m.visible + m.stored[0], m.saved[1..], m.stored[1..]))
    case _ => t
  }

  function Step(w: World, a: Action): World
    requires Enabled(w, a)
  {
    match a
    case Begin(op, block) =>
      if op.Throw? then Prepare(w, op.error, block)
      else if NeedsLock(w.image, op) then w.(phase := Waiting(op, NULL))
      else Commit(w, op, NULL)
    case Acquire => w.(phase := Holding(w.phase.op, w.phase.entry), lock := Owner)
    case Store => Commit(w, w.phase.op, w.phase.entry).(phase := Written)
    case Release => w.(phase := Idle, lock := Open)
    case Recycle =>
      var (m, entry) := (w.image, w.held[0]);
      w.(image := m.(mem := m.mem[entry := m.mem[entry].(prev := m.pool)], pool := entry, free := [entry] + m.free),
         held := w.held[1..])
    case Enter(id) => w.(lock := Observer(id, w.image.exception, [], |w.ops|))
    case Look =>
      var (o, m) := (w.lock, w.image);
      w.(lock := o.(seen := o.seen + [m.mem[o.at].error], at := m.mem[o.at].prev))
    case Leave => w.(lock := Open, log := w.log + [Observation(w.lock.id, w.lock.seen, w.lock.after)])
  }

  ghost predicate Schedule(w: World, actions: seq<Action>)
    decreases actions
  {
    actions == [] || (Enabled(w, actions[0]) && Schedule(Step(w, actions[0]), actions[1..]))
  }

  ghost function Final(w: World, actions: seq<Action>): World
    requires Schedule(w, actions)
    decreases actions
  {
    if actions == [] then w else Final(Step(w, actions[0]), actions[1..])
  }

  // ----- the invariant

  predicate Throwing(p: Phase) {
    (p.Waiting? || p.Holding?) && p.op.Throw?
  }

  function InHand(w: World): seq<Address> {
    if Throwing(w.phase) then [w.phase.entry] + w.held else w.held
  }

  /** Memory is in order, whatever step the owner is at. */
  ghost predicate Sound(w: World) {
    && w.image.Separate(InHand(w))
    && (forall n :: n in w.held ==> n in w.image.mem && n != NULL)
    && (Throwing(w.phase) ==>
          && w.phase.entry != NULL && w.phase.entry in w.image.mem
          && w.image.mem[w.phase.entry] == Cell(w.image.exception, w.phase.op.error))
    && (w.phase.Waiting? || w.phase.Holding? ==>
          && CanStore(w.image, w.phase.op)
          && (w.phase.op.HandledOne? ==> w.image.exception != NULL))
    && (w.lock.Owner? <==> w.phase.Holding? || w.phase.Written?)
  }

  /** The operations done so far, run without any memory, give what the memory now holds. */
  ghost predicate Refines(w: World) {
    WellNested(w.ops, 0) && Run(FRESH, w.ops).state == w.image.Abs()
  }

  /** `seen` was the visible chain right after the first `after` operations. */
  ghost predicate ChainWas(ops: seq<Op>, seen: seq<Exc>, after: nat) {
    after <= |ops| && WellNested(ops[..after], 0) && Run(FRESH, ops[..after]).state.visible == seen
  }

  /** An observer inside has read a prefix of the chain and stands right behind it. */
  ghost predicate Midway(w: World) {
    w.lock.Observer? ==>
      var all := Errors(w.image.mem, w.image.visible);
      && |w.lock.seen| <= |all| && w.lock.seen == all[..|w.lock.seen|]
      && w.lock.at == Next(w.image.visible, |w.lock.seen| - 1)
      && ChainWas(w.ops, all, w.lock.after)
  }

  ghost predicate Logged(w: World) {
    forall i :: 0 <= i < |w.log| ==> ChainWas(w.ops, w.log[i].seen, w.log[i].after)
  }

  ghost predicate Inv(w: World) {
    Sound(w) && Refines(w) && Midway(w) && Logged(w)
  }

  // ----- every step keeps it

  lemma LongerHistory(ops: seq<Op>, op: Op, seen: seq<Exc>, after: nat)
    requires ChainWas(ops, seen, after)
    ensures ChainWas(ops + [op], seen, after)
  {
    assert (ops + [op])[..after] == ops[..after];
  }

  lemma CommitSound(w: World, op: Op, entry: Address)
    requires w.image.Separate(if op.Throw? then [entry] + w.held else w.held) && CanStore(w.image, op)
    requires forall n :: n in w.held ==> n in w.image.mem && n != NULL
    requires op.HandledOne? ==> w.image.exception != NULL
    requires op.Throw? ==>
               entry != NULL && entry in w.image.mem && w.image.mem[entry] == Cell(w.image.exception, op.error)
    ensures var t := Commit(w, op, entry);
            && t.image.Separate(t.held) && (forall n :: n in t.held ==> n in t.image.mem && n != NULL)
            && t.image.Abs() == Apply(w.image.Abs(), op).state
  {
    match op
    case Throw(_) => LinkHeld(w.image, entry, w.held);
    case HandledOne => HoldNewest(w.image, w.held);
    case Handled =>
      HoldAll(w.image, w.held);
      forall n | n in w.image.visible ensures n in w.image.mem && n != NULL {
        InMemory(w.image.mem, w.image.exception, w.image.visible, n);
      }
    case PushState => OpenBlock(w.image, w.held);
    case PopState => CloseBlock(w.image, w.held);
    case _ =>
  }

  lemma CommitRefines(w: World, op: Op, entry: Address)
    requires Refines(w) && CanStore(w.image, op)
    requires op.PopState? ==> Run(FRESH, w.ops).state.saved != []
    requires Commit(w, op, entry).image.Abs() == Apply(w.image.Abs(), op).state
    ensures Refines(Commit(w, op, entry))
  {
    NestedConcat(w.ops, [op], FRESH);
  }

  lemma SameHands(m: Image, a: seq<Address>, b: seq<Address>)
    requires m.Separate(a) && multiset(a) == multiset(b)
    ensures m.Separate(b)
  {
    assert Shared(m.free, m.visible, Flatten(m.stored), a) == Shared(m.free, m.visible, Flatten(m.stored), b);
  }

  /** A block the allocator hands out is on no list and in nobody's hands. */
  lemma NewBlock(m: Image, block: Address, held: seq<Address>)
    requires m.Separate(held) && block !in m.mem && (forall n :: n in held ==> n in m.mem)
    ensures m.Separate([block] + held)
  {
    if block in m.free {
      InMemory(m.mem, m.pool, m.free, block);
    }
    if block in m.visible {
      InMemory(m.mem, m.exception, m.visible, block);
    }
    if block in Flatten(m.stored) {
      var i := WhereInFlatten(m.stored, block);
      InMemory(m.mem, m.saved[i], m.stored[i], block);
    }
    var all := Shared(m.free, m.visible, Flatten(m.stored), held);
    forall a ensures Shared(m.free, m.visible, Flatten(m.stored), [block] + held)[a] <= 1 {
      assert all[a] <= 1 && (a == block ==> all[a] == 0);
      assert multiset([block] + held) == multiset{block} + multiset(held);
      assert Shared(m.free, m.visible, Flatten(m.stored), [block] + held)[a] == all[a] + multiset{block}[a];
    }
  }

  lemma PrepareKeeps(w: World, error: Exc, block: Address)
    requires Inv(w) && w.phase.Idle? && CanBegin(w.image, Op.Throw(error), block)
    ensures Inv(Prepare(w, error, block))
  {
    if w.image.pool == NULL {
      PrepareNew(w, error, block);
    } else {
      PrepareOld(w, error, block);
    }
  }

  lemma PrepareNew(w: World, error: Exc, block: Address)
    requires Inv(w) && w.phase.Idle? && CanBegin(w.image, Op.Throw(error), block) && w.image.pool == NULL
    ensures Inv(Prepare(w, error, block))
  {
    var m := w.image;
    NewBlock(m, block, w.held);
    WriteHeld(m, block, Cell(m.exception, error), w.held);
    assert Prepare(w, error, block).image.Abs() == m.Abs();
  }

  lemma PrepareOld(w: World, error: Exc, block: Address)
    requires Inv(w) && w.phase.Idle? && CanBegin(w.image, Op.Throw(error), block) && w.image.pool != NULL
    ensures Inv(Prepare(w, error, block))
  {
    var m := w.image;
    HoldFree(m, w.held);
    WriteHeld(m.(pool := m.mem[m.pool].prev, free := m.free[1..]), m.pool, Cell(m.exception, error), w.held);
    assert Prepare(w, error, block).image.Abs() == m.Abs();
  }

  /** Only operations that take the lock change what an observer reads. */
  lemma UnlockedKeepsChain(m: Image, op: Op, held: seq<Address>)
    requires m.Separate(held) && CanStore(m, op) && !NeedsLock(m, op)
    ensures var t := Commit(World(m, [], Idle, Open, [], []), op, NULL).image; t.mem == m.mem && t.visible == m.visible
  {
    LastIn(m.mem, m.exception, m.visible);
    if op.PopState? {
      LastIn(m.mem, m.saved[0], m.stored[0]);
    }
  }

  lemma CommitFrame(w: World, op: Op, entry: Address)
    requires CanStore(w.image, op)
    ensures var t := Commit(w, op, entry);
            t.phase == w.phase && t.lock == w.lock && t.log == w.log && t.ops == w.ops + [op]
  {
  }

  lemma CommitKeepsSound(w: World, op: Op, entry: Address)
    requires Sound(w) && Committing(w, op, entry)
    ensures var t := Commit(w, op, entry); Sound(if w.phase.Holding? then t.(phase := Written) else t)
    ensures Commit(w, op, entry).image.Abs() == Apply(w.image.Abs(), op).state
  {
    CommitSound(w, op, entry);
    CommitFrame(w, op, entry);
    AfterStore(w, Commit(w, op, entry));
  }

  /** Once the store is done no node is in hand but the unlinked ones. */
  lemma AfterStore(w: World, t: World)
    requires Sound(w) && (w.phase.Holding? || w.phase.Idle?) && t.phase == w.phase && t.lock == w.lock
    requires t.image.Separate(t.held) && (forall n :: n in t.held ==> n in t.image.mem && n != NULL)
    ensures Sound(if w.phase.Holding? then t.(phase := Written) else t)
  {
  }

  lemma CommitKeepsObservations(w: World, op: Op, entry: Address)
    requires Sound(w) && Midway(w) && Logged(w) && Committing(w, op, entry)
    ensures Midway(Commit(w, op, entry)) && Logged(Commit(w, op, entry))
  {
    var t := Commit(w, op, entry);
    assert t.lock == w.lock && t.log == w.log && t.ops == w.ops + [op];
    if w.lock.Observer? {
      UnlockedKeepsChain(w.image, op, InHand(w));
      LongerHistory(w.ops, op, Errors(w.image.mem, w.image.visible), w.lock.after);
      assert t.image.mem == w.image.mem && t.image.visible == w.image.visible;
    }
    forall i | 0 <= i < |t.log| ensures ChainWas(t.ops, t.log[i].seen, t.log[i].after) {
      LongerHistory(w.ops, op, w.log[i].seen, w.log[i].after);
    }
  }

  /** The owner is about to do the store of `op`, or does `op` without one. */
  ghost predicate Committing(w: World, op: Op, entry: Address) {
    && CanStore(w.image, op)
    && (op.HandledOne? ==> w.image.exception != NULL)
    && if w.phase.Holding? then w.phase.op == op && w.phase.entry == entry
       else w.phase.Idle? && !NeedsLock(w.image, op)
  }

  lemma RecycleImage(m: Image, entry: Address, others: seq<Address>)
    requires m.Separate([entry] + others) && entry in m.mem && entry != NULL
    ensures var t := m.(mem := m.mem[entry := m.mem[entry].(prev := m.pool)], pool := entry, free := [entry] + m.free);
            t.Separate(others) && t.Abs() == m.Abs()
    ensures entry !in others
  {
    Apart(m.free, m.visible, Flatten(m.stored), entry, others);
    WriteHeld(m, entry, m.mem[entry].(prev := m.pool), others);
    FreeHeld(m.(mem := m.mem[entry := m.mem[entry].(prev := m.pool)]), entry, others);
  }

  lemma RecycleKeepsSound(w: World)
    requires Sound(w) && Enabled(w, Recycle)
    ensures var t := Step(w, Recycle); Sound(t) && t.image.Abs() == w.image.Abs()
  {
    var t := Step(w, Recycle);
    var (entry, rest, others) := (w.held[0], w.held[1..], InHand(t));
    assert w.held == [entry] + rest;
    SameHands(w.image, InHand(w), [entry] + others);
    RecycleImage(w.image, entry, others);
    RestInMemory(w, t, entry, rest);
  }

  /** What is in hand besides the recycled node is as it was. */
  lemma RestInMemory(w: World, t: World, entry: Address, rest: seq<Address>)
    requires Sound(w) && w.held == [entry] + rest && entry in w.image.mem && t == Step(w, Recycle)
    requires entry !in InHand(t)
    ensures forall n :: n in rest ==> n in t.image.mem && n != NULL
    ensures Throwing(w.phase) ==>
              w.phase.entry in t.image.mem && t.image.mem[w.phase.entry] == w.image.mem[w.phase.entry]
  {
    forall n | n in rest ensures n in t.image.mem && n != NULL {
      assert n in w.held;
    }
    assert Throwing(w.phase) ==> w.phase.entry in InHand(t);
  }

  lemma RecycleKeeps(w: World)
    requires Inv(w) && Enabled(w, Recycle)
    ensures Inv(Step(w, Recycle))
  {
    RecycleKeepsSound(w);
    var t := Step(w, Recycle);
    assert Errors(t.image.mem, t.image.visible) == Errors(w.image.mem, w.image.visible);
  }

  lemma LookKeeps(w: World)
    requires Inv(w) && Enabled(w, Look)
    ensures Inv(Step(w, Look))
  {
    var (m, o) := (w.image, w.lock);
    var i := |o.seen|;
    LastIn(m.mem, m.exception, m.visible);
    assert Link(m.mem, m.visible, i);
    assert Errors(m.mem, m.visible)[..i + 1] == o.seen + [m.mem[o.at].error];
  }

  lemma StepKeepsInv(w: World, a: Action)
    requires Inv(w) && Enabled(w, a)
    ensures Inv(Step(w, a))
  {
    match a
    case Begin(op, block) =>
      if op.Throw? {
        PrepareKeeps(w, op.error, block);
      } else if NeedsLock(w.image, op) {
        BeginKeeps(w, op);
      } else {
        CommitKeepsSound(w, op, NULL);
        CommitRefines(w, op, NULL);
        CommitKeepsObservations(w, op, NULL);
      }
    case Acquire =>
    case Store =>
      CommitKeepsSound(w, w.phase.op, w.phase.entry);
      CommitRefines(w, w.phase.op, w.phase.entry);
      CommitKeepsObservations(w, w.phase.op, w.phase.entry);
    case Release =>
    case Recycle => RecycleKeeps(w);
    case Enter(_) =>
      assert w.ops[..|w.ops|] == w.ops;
      assert Errors(w.image.mem, w.image.visible)[..0] == [];
    case Look => LookKeeps(w);
    case Leave => LeaveKeeps(w);
  }

  lemma BeginKeeps(w: World, op: Op)
    requires Inv(w) && w.phase.Idle? && !op.Throw? && CanBegin(w.image, op, NULL)
    ensures Inv(w.(phase := Waiting(op, NULL)))
  {
    LastIn(w.image.mem, w.image.exception, w.image.visible);
    if w.image.exception != NULL {
      LinkedTail(w.image.mem, w.image.exception, w.image.visible);
    }
  }

  lemma LeaveKeeps(w: World)
    requires Inv(w) && Enabled(w, Leave)
    ensures Inv(Step(w, Leave))
  {
    var (m, o) := (w.image, w.lock);
    if |o.seen| > 0 {
      EndOfChain(m.mem, m.exception, m.visible, |o.seen| - 1);
      assert Link(m.mem, m.visible, |o.seen| - 1);
    } else {
      LastIn(m.mem, m.exception, m.visible);
    }
    assert o.seen == Errors(m.mem, m.visible);
  }

  lemma {:induction false} ScheduleKeepsInv(w: World, actions: seq<Action>)
    requires Inv(w) && Schedule(w, actions)
    ensures Inv(Final(w, actions))
    decreases actions
  {
    if actions != [] {
      StepKeepsInv(w, actions[0]);
      ScheduleKeepsInv(Step(w, actions[0]), actions[1..]);
    }
  }

  lemma StartInv()
    ensures Inv(START)
  {
    var m := START.image;
    assert Flatten(m.stored) == [];
  }

  /**
   Whatever the interleaving, every walk an observer completed read a chain the owner had at one moment: the
   one that the first `after` operations leave when they are run one after the other, without memory or lock.
   */
  lemma ObserversSeeWholeChains(actions: seq<Action>)
    requires Schedule(START, actions)
    ensures var w := Final(START, actions);
            && WellNested(w.ops, 0) && Run(FRESH, w.ops).state == w.image.Abs()
            && forall i :: 0 <= i < |w.log| ==>
                 && w.log[i].after <= |w.ops| && WellNested(w.ops[..w.log[i].after], 0)
                 && w.log[i].seen == Run(FRESH, w.ops[..w.log[i].after]).state.visible
  {
    StartInv();
    ScheduleKeepsInv(START, actions);
    var w := Final(START, actions);
    forall i | 0 <= i < |w.log| ensures ChainWas(w.ops, w.log[i].seen, w.log[i].after) {
    }
  }

  /** In every reachable state the visible chain and all stored chains end, and they share no node. */
  lemma ChainsStayApart(actions: seq<Action>)
    requires Schedule(START, actions)
    ensures var m := Final(START, actions).image;
            && Linked(m.mem, m.exception, m.visible)
            && (forall i :: 0 <= i < |m.saved| ==> i < |m.stored| && Linked(m.mem, m.saved[i], m.stored[i]))
            && Once(multiset(m.visible) + multiset(Flatten(m.stored)))
  {
    StartInv();
    ScheduleKeepsInv(START, actions);
    var w := Final(START, actions);
    var m := w.image;
    var all := Shared(m.free, m.visible, Flatten(m.stored), InHand(w));
    var chains := multiset(m.visible) + multiset(Flatten(m.stored));
    forall n ensures chains[n] <= 1 {
      assert all[n] <= 1;
      assert all[n] == multiset(m.free)[n] + chains[n] + multiset(InHand(w))[n];
    }
  }

  /** A walk ends: after as many steps as there are errors to go its observer leaves with the whole chain. */
  lemma {:induction false} WalkEnds(w: World) returns (actions: seq<Action>)
    requires Inv(w) && w.lock.Observer?
    ensures Schedule(w, actions) && |actions| == |w.image.visible| - |w.lock.seen| + 1
    ensures var v := Final(w, actions);
            && v == w.(lock := Open, log := v.log)
            && v.log == w.log + [Observation(w.lock.id, Errors(w.image.mem, w.image.visible), w.lock.after)]
    decreases |w.image.visible| - |w.lock.seen|
  {
    var (m, i) := (w.image, |w.lock.seen|);
    if i == |m.visible| {
      AtTheEnd(w);
      actions := [Leave];
      assert Schedule(Step(w, Leave), actions[1..]);
      return;
    }
    assert Link(m.mem, m.visible, i);
    LookKeeps(w);
    var rest := WalkEnds(Step(w, Look));
    actions := [Look] + rest;
    assert actions[1..] == rest;
  }

  lemma AtTheEnd(w: World)
    requires Inv(w) && w.lock.Observer? && |w.lock.seen| == |w.image.visible|
    ensures Enabled(w, Leave) && w.lock.seen == Errors(w.image.mem, w.image.visible)
  {
    LastIn(w.image.mem, w.image.exception, w.image.visible);
  }

  // ----- nobody is stuck

  /** Once no observer is inside, the owner can do what is left of its operation, and then has given up the lock. */
  lemma OwnerFinishes(w: World) returns (actions: seq<Action>)
    requires Inv(w) && !w.lock.Observer?
    ensures Schedule(w, actions)
    ensures var v := Final(w, actions);
            && v.phase.Idle? && v.lock.Open? && Inv(v)
            && v.ops == if w.phase.Waiting? || w.phase.Holding? then w.ops + [w.phase.op] else w.ops
    decreases if w.phase.Waiting? then 3 else if w.phase.Holding? then 2 else if w.phase.Written? then 1 else 0
  {
    if w.phase.Idle? {
      return [];
    }
    var a := if w.phase.Waiting? then Acquire else if w.phase.Holding? then Store else Release;
    StepKeepsInv(w, a);
    if a.Store? {
      CommitFrame(w, w.phase.op, w.phase.entry);
    }
    var rest := OwnerFinishes(Step(w, a));
    actions := [a] + rest;
    assert actions[1..] == rest;
  }

  /**
   In every reachable state in which the owner is free it can do any operation: open a block, raise an error, handle one
   or all if there are any, close a block if one is open. An observer that is inside goes on to the end first.
   */
  lemma OperationCompletes(w: World, op: Op, block: Address) returns (actions: seq<Action>)
    requires Inv(w) && w.phase.Idle? && block != NULL && block !in w.image.mem && !op.Handle? && !op.HandleOne?
    requires op.Handled? || op.HandledOne? ==> w.image.Abs().visible != []
    requires op.PopState? ==> w.image.Abs().saved != []
    ensures Schedule(w, actions)
    ensures var v := Final(w, actions); v.ops == w.ops + [op] && v.phase.Idle? && v.lock.Open? && Inv(v)
  {
    MayBegin(w, op, block);
    if !w.lock.Observer? {
      actions := CompletesAlone(w, op, block);
      return;
    }
    var first := WalkEnds(w);
    ScheduleKeepsInv(w, first);
    var rest := CompletesAlone(Final(w, first), op, block);
    ScheduleConcat(w, first, rest);
    actions := first + rest;
  }

  lemma CompletesAlone(w: World, op: Op, block: Address) returns (actions: seq<Action>)
    requires Inv(w) && w.phase.Idle? && !w.lock.Observer? && Enabled(w, Begin(op, block))
    ensures Schedule(w, actions)
    ensures var v := Final(w, actions); v.ops == w.ops + [op] && v.phase.Idle? && v.lock.Open? && Inv(v)
  {
    var a := Begin(op, block);
    StepKeepsInv(w, a);
    if !op.Throw? && !NeedsLock(w.image, op) {
      CommitFrame(w, op, NULL);
    }
    var rest := OwnerFinishes(Step(w, a));
    actions := [a] + rest;
    assert actions[1..] == rest;
  }

  lemma MayBegin(w: World, op: Op, block: Address)
    requires Inv(w) && w.phase.Idle? && block != NULL && block !in w.image.mem && !op.Handle? && !op.HandleOne?
    requires op.Handled? || op.HandledOne? ==> w.image.Abs().visible != []
    requires op.PopState? ==> w.image.Abs().saved != []
    ensures Enabled(w, Begin(op, block))
  {
    var m := w.image;
    LastIn(m.mem, m.exception, m.visible);
    LastIn(m.mem, m.pool, m.free);
    if m.exception != NULL {
      LinkedTail(m.mem, m.exception, m.visible);
    }
    if m.pool != NULL {
      LinkedTail(m.mem, m.pool, m.free);
    }
  }

  lemma {:induction false} ScheduleConcat(w: World, a: seq<Action>, b: seq<Action>)
    requires Schedule(w, a) && Schedule(Final(w, a), b)
    ensures Schedule(w, a + b) && Final(w, a + b) == Final(Final(w, a), b)
    decreases a
  {
    if a == [] {
      assert a + b == b;
    } else {
      assert (a + b)[1..] == a[1..] + b;
      ScheduleConcat(Step(w, a[0]), a[1..], b);
    }
  }
}
