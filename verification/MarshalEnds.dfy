/** Which graphs can be written: when the recursion ends, and which objects it comes to. */
module MarshalEnds {
  import opened Common
  import opened ObjectGraph
  import opened Marshal
  import opened MarshalOrder

  /** All registered objects are announced ones that can be reached. */
  ghost predicate Known(g: Heap, mode: Mode, roots: seq<nat>, refs: seq<nat>) {
    forall r :: r in refs ==> r in mode.announced && Reached(g, roots, r)
  }

  /** Only what can be reached is written or registered. */
  lemma {:induction false} WritesReached(g: Heap, mode: Mode, roots: seq<nat>, x: nat, refs: seq<nat>, depth: nat)
    requires Closed(g) && x < |g| && Write(g, mode, x, refs, depth).Some?
    requires Reached(g, roots, x) && Known(g, mode, roots, refs)
    ensures var w := Write(g, mode, x, refs, depth).value;
            Known(g, mode, roots, w.refs) && AllReached(g, roots, w.origin)
    decreases depth, 0
  {
    if Find(mode, refs, x).Missing? {
      KidsReached(g, roots, x);
      WritesAllReached(g, mode, roots, g[x].kids, if x in mode.announced then refs + [x] else refs, depth - 1);
    }
  }

  lemma {:induction false} WritesAllReached(g: Heap, mode: Mode, roots: seq<nat>, xs: seq<nat>, refs: seq<nat>,
                                            depth: nat)
    requires Closed(g) && Within(g, xs) && WriteAll(g, mode, xs, refs, depth).Some?
    requires AllReached(g, roots, xs) && Known(g, mode, roots, refs)
    ensures var w := WriteAll(g, mode, xs, refs, depth).value;
            Known(g, mode, roots, w.refs) && AllReached(g, roots, w.origin)
    decreases depth, |xs| + 1
  {
    if xs != [] {
      WritesReached(g, mode, roots, xs[0], refs, depth);
      WritesAllReached(g, mode, roots, xs[1..], Write(g, mode, xs[0], refs, depth).value.refs, depth);
    }
  }

  // ----- writing follows the walk

  function RulesOf(mode: Mode): Rules {
    Rules(mode.announced, (x: nat, y: nat) => mode.equal(x, y) == Yes)
  }

  /** All comparisons have an answer. */
  ghost predicate Answered(mode: Mode, asked: set<(nat, nat)>) {
    forall x: nat, y: nat :: (x, y) in asked ==> mode.equal(x, y) != Endless
  }

  /** What was taken for something else is what was compared and found equal. */
  ghost predicate TakenIfEqual(mode: Mode, asked: set<(nat, nat)>, taken: set<(nat, nat)>) {
    forall x: nat, y: nat :: (x, y) in taken && x != y <==> (x, y) in asked && mode.equal(x, y) == Yes
  }

  lemma {:induction false} FindAsks(mode: Mode, x: nat, refs: seq<nat>)
    ensures var (found, asked) := (Find(mode, refs, x), Questions(RulesOf(mode), x, refs));
            && (found.NoEnd? <==> !Answered(mode, asked))
            && (found.At? ==> IsKnown(RulesOf(mode), x, refs) && TakenIfEqual(mode, asked, {(x, refs[found.id])}))
            && (found.Missing? ==> !IsKnown(RulesOf(mode), x, refs) && TakenIfEqual(mode, asked, {(x, x)}))
  {
    if refs != [] && refs[0] != x && mode.equal(x, refs[0]) != Yes {
      FindAsks(mode, x, refs[1..]);
      assert (x, refs[0]) in Questions(RulesOf(mode), x, refs);
    }
  }

  /** Writing ends if the walk does and what is compared on the way has an answer; then it takes the same way. */
  ghost predicate Follows(mode: Mode, w: Option<Written>, v: Option<Visited>) {
    && (w.Some? <==> v.Some? && Answered(mode, v.value.asked))
    && (w.Some? ==> w.value.refs == v.value.met && TakenIfEqual(mode, v.value.asked, w.value.taken))
  }

  lemma {:induction false} WriteFollows(g: Heap, mode: Mode, x: nat, refs: seq<nat>, depth: nat)
    requires Closed(g) && x < |g|
    ensures Follows(mode, Write(g, mode, x, refs, depth), Visit(g, RulesOf(mode), x, refs, depth))
    decreases depth, 0
  {
    FindAsks(mode, x, refs);
    if Find(mode, refs, x).Missing? && depth > 0 {
      WriteAllFollows(g, mode, g[x].kids, Remember(RulesOf(mode), x, refs), depth - 1);
    }
  }

  lemma {:induction false} WriteAllFollows(g: Heap, mode: Mode, xs: seq<nat>, refs: seq<nat>, depth: nat)
    requires Closed(g) && Within(g, xs)
    ensures Follows(mode, WriteAll(g, mode, xs, refs, depth), VisitAll(g, RulesOf(mode), xs, refs, depth))
    decreases depth, |xs| + 1
  {
    if xs != [] {
      WriteFollows(g, mode, xs[0], refs, depth);
      if Write(g, mode, xs[0], refs, depth).Some? {
        WriteAllFollows(g, mode, xs[1..], Write(g, mode, xs[0], refs, depth).value.refs, depth);
      }
    }
  }

  ghost predicate CanWriteAll(g: Heap, mode: Mode, xs: seq<nat>)
    requires Closed(g) && Within(g, xs)
  {
    exists depth :: WriteAll(g, mode, xs, [], depth).Some?
  }

  /** If every ring has an announced object, writing ends exactly if all that is compared on the way has an answer. */
  lemma WriteEndsIffAnswered(g: Heap, mode: Mode, xs: seq<nat>)
    requires Closed(g) && Within(g, xs) && NoBareRing(g, mode.announced, xs)
    ensures CanWriteAll(g, mode, xs) <==>
            forall x: nat, y: nat :: Compared(g, RulesOf(mode), xs, x, y) ==> mode.equal(x, y) != Endless
  {
    var depth := Room(g, [], {});
    VisitAllEnds(g, RulesOf(mode), xs, xs, {}, [], depth);
    WriteAllFollows(g, mode, xs, [], depth);
    forall x: nat, y: nat | Compared(g, RulesOf(mode), xs, x, y)
      ensures (x, y) in VisitAll(g, RulesOf(mode), xs, [], depth).value.asked
    {
      ComparedAt(g, RulesOf(mode), xs, depth, x, y);
    }
    if CanWriteAll(g, mode, xs) {
      var d: nat :| WriteAll(g, mode, xs, [], d).Some?;
      WriteAllFollows(g, mode, xs, [], d);
      forall x: nat, y: nat | Compared(g, RulesOf(mode), xs, x, y) ensures mode.equal(x, y) != Endless {
        ComparedAt(g, RulesOf(mode), xs, d, x, y);
      }
    }
  }

  // ----- it does not end on a bare ring

  /** Objects that are never announced nor taken for others, and each of which holds one of them. */
  ghost predicate Trap(g: Heap, mode: Mode, bad: set<nat>) {
    forall x: nat :: x in bad ==>
      && x < |g| && x !in mode.announced && (exists i :: 0 <= i < |g[x].kids| && g[x].kids[i] in bad)
      && forall y :: x != y ==> mode.equal(x, y) != Yes
  }

  ghost predicate AllAnnounced(mode: Mode, refs: seq<nat>) {
    forall r :: r in refs ==> r in mode.announced
  }

  lemma {:induction false} TrapNeverEnds(g: Heap, mode: Mode, bad: set<nat>, x: nat, refs: seq<nat>, depth: nat)
    requires Closed(g) && x < |g| && Trap(g, mode, bad) && x in bad && AllAnnounced(mode, refs)
    ensures Write(g, mode, x, refs, depth).None?
    decreases depth, 0
  {
    if Find(mode, refs, x).Missing? && depth > 0 {
      var i :| 0 <= i < |g[x].kids| && g[x].kids[i] in bad;
      TrapAmongNeverEnds(g, mode, bad, g[x].kids, i, refs, depth - 1);
    }
  }

  lemma {:induction false} TrapAmongNeverEnds(g: Heap, mode: Mode, bad: set<nat>, xs: seq<nat>, i: nat,
                                              refs: seq<nat>, depth: nat)
    requires Closed(g) && Within(g, xs) && Trap(g, mode, bad) && i < |xs| && xs[i] in bad && AllAnnounced(mode, refs)
    ensures WriteAll(g, mode, xs, refs, depth).None?
    decreases depth, |xs| + 1
  {
    if i == 0 {
      TrapNeverEnds(g, mode, bad, xs[0], refs, depth);
    } else if Write(g, mode, xs[0], refs, depth).Some? {
      WriteKeepsIds(g, mode, xs[0], refs, depth);
      TrapAmongNeverEnds(g, mode, bad, xs[1..], i - 1, Write(g, mode, xs[0], refs, depth).value.refs, depth);
    }
  }

  /** So nothing of the kind was written if writing has ended. */
  lemma {:induction false} NothingTrapped(g: Heap, mode: Mode, bad: set<nat>, x: nat, refs: seq<nat>, depth: nat)
    requires Closed(g) && x < |g| && Trap(g, mode, bad) && AllAnnounced(mode, refs)
    requires Write(g, mode, x, refs, depth).Some?
    ensures forall y :: y in Write(g, mode, x, refs, depth).value.origin ==> y !in bad
    decreases depth, 0
  {
    if x in bad {
      TrapNeverEnds(g, mode, bad, x, refs, depth);
    }
    if Find(mode, refs, x).Missing? {
      NothingTrappedAmong(g, mode, bad, g[x].kids, if x in mode.announced then refs + [x] else refs, depth - 1);
    }
  }

  lemma {:induction false} NothingTrappedAmong(g: Heap, mode: Mode, bad: set<nat>, xs: seq<nat>, refs: seq<nat>,
                                               depth: nat)
    requires Closed(g) && Within(g, xs) && Trap(g, mode, bad) && AllAnnounced(mode, refs)
    requires WriteAll(g, mode, xs, refs, depth).Some?
    ensures forall y :: y in WriteAll(g, mode, xs, refs, depth).value.origin ==> y !in bad
    decreases depth, |xs| + 1
  {
    if xs != [] {
      NothingTrapped(g, mode, bad, xs[0], refs, depth);
      WriteKeepsIds(g, mode, xs[0], refs, depth);
      NothingTrappedAmong(g, mode, bad, xs[1..], Write(g, mode, xs[0], refs, depth).value.refs, depth);
    }
  }

  lemma BareIsHeld(g: Heap, announced: set<nat>, x: nat, y: nat)
    requires Leads(Bare(g, announced), x, y)
    ensures Leads(Holds(g), x, y)
  {
    var w :| Walk(Bare(g, announced), w) && w[0] == x && w[|w| - 1] == y;
    WalkInside(Bare(g, announced), Holds(g), w);
  }

  lemma MeetsHeld(g: Heap, announced: set<nat>, x: nat)
    requires MeetsRing(Bare(g, announced), x)
    ensures MeetsRing(Holds(g), x)
  {
    var y :| (x == y || Leads(Bare(g, announced), x, y)) && Leads(Bare(g, announced), y, y);
    BareIsHeld(g, announced, y, y);
    if x != y {
      BareIsHeld(g, announced, x, y);
    }
  }

  /** Objects that meet a ring are not taken for others. */
  ghost predicate RingsStay(g: Heap, mode: Mode) {
    forall x: nat, y: nat :: MeetsRing(Holds(g), x) && x != y ==> mode.equal(x, y) != Yes
  }

  ghost function BareRings(g: Heap, announced: set<nat>): set<nat> {
    set x | x in Numbers(0, |g|) && MeetsRing(Bare(g, announced), x)
  }

  lemma RingsTrap(g: Heap, mode: Mode)
    requires Closed(g) && RingsStay(g, mode)
    ensures Trap(g, mode, BareRings(g, mode.announced))
  {
    var bad := BareRings(g, mode.announced);
    forall x: nat | x in bad
      ensures x < |g| && x !in mode.announced && exists i :: 0 <= i < |g[x].kids| && g[x].kids[i] in bad
      ensures forall y :: x != y ==> mode.equal(x, y) != Yes
    {
      var k := RingGoesOn(Bare(g, mode.announced), x);
      var i :| 0 <= i < |g[x].kids| && g[x].kids[i] == k;
      assert g[x].kids[i] in bad;
      MeetsHeld(g, mode.announced, x);
    }
  }

  // ----- everything that can be reached is written or taken for something registered

  /** `y` was written, was registered before, or is taken for a registered object. */
  ghost predicate Served(mode: Mode, w: Written, y: nat) {
    y in w.origin || y in w.refs || exists z :: z in w.refs && mode.equal(y, z) == Yes
  }

  lemma {:induction false} WriteServes(g: Heap, mode: Mode, x: nat, refs: seq<nat>, depth: nat)
    requires Closed(g) && x < |g| && Write(g, mode, x, refs, depth).Some?
    ensures var w := Write(g, mode, x, refs, depth).value;
            && Served(mode, w, x) && (forall r :: r in w.refs ==> r in refs || r in w.origin)
            && forall y, k :: y in w.origin && Holds(g)(y, k) ==> Served(mode, w, k)
    decreases depth, 0
  {
    if Find(mode, refs, x).Missing? {
      var known := if x in mode.announced then refs + [x] else refs;
      WriteAllServes(g, mode, g[x].kids, known, depth - 1);
      var (w, rest) := (Write(g, mode, x, refs, depth).value, WriteAll(g, mode, g[x].kids, known, depth - 1).value);
      assert w.refs == rest.refs && w.origin == [x] + rest.origin;
      forall y, k | y in w.origin && Holds(g)(y, k) ensures Served(mode, w, k) {
        assert Served(mode, rest, k);
      }
    }
  }

  lemma {:induction false} WriteAllServes(g: Heap, mode: Mode, xs: seq<nat>, refs: seq<nat>, depth: nat)
    requires Closed(g) && Within(g, xs) && WriteAll(g, mode, xs, refs, depth).Some?
    ensures var w := WriteAll(g, mode, xs, refs, depth).value;
            && (forall x :: x in xs ==> Served(mode, w, x)) && (forall r :: r in w.refs ==> r in refs || r in w.origin)
            && forall y, k :: y in w.origin && Holds(g)(y, k) ==> Served(mode, w, k)
    decreases depth, |xs| + 1
  {
    if xs != [] {
      WriteServes(g, mode, xs[0], refs, depth);
      var first := Write(g, mode, xs[0], refs, depth).value;
      WriteAllServes(g, mode, xs[1..], first.refs, depth);
      WriteAllKeepsIds(g, mode, xs[1..], first.refs, depth);
      var (w, rest) := (WriteAll(g, mode, xs, refs, depth).value, WriteAll(g, mode, xs[1..], first.refs, depth).value);
      assert forall y :: Served(mode, first, y) || Served(mode, rest, y) ==> Served(mode, w, y);
    }
  }

  /** `x` was met: it was taken for something, be it itself. */
  ghost predicate Met(w: Written, x: nat) {
    exists y :: (x, y) in w.taken
  }

  /** Roots and whatever written objects hold are met; what is met is written or taken for a registered object. */
  ghost predicate Accounted(g: Heap, w: Written, xs: seq<nat>) {
    && (forall x :: x in xs ==> Met(w, x))
    && (forall y, k :: y in w.origin && Holds(g)(y, k) ==> Met(w, k))
    && (forall x, y :: (x, y) in w.taken ==> y in w.refs || (x == y && x in w.origin))
  }

  lemma {:induction false} WriteAccounts(g: Heap, mode: Mode, x: nat, refs: seq<nat>, depth: nat)
    requires Closed(g) && x < |g| && Write(g, mode, x, refs, depth).Some?
    ensures Accounted(g, Write(g, mode, x, refs, depth).value, [x])
    decreases depth, 0
  {
    var w := Write(g, mode, x, refs, depth).value;
    if Find(mode, refs, x).Missing? {
      var known := if x in mode.announced then refs + [x] else refs;
      WriteAllAccounts(g, mode, g[x].kids, known, depth - 1);
      var rest := WriteAll(g, mode, g[x].kids, known, depth - 1).value;
      assert w.origin == [x] + rest.origin && w.taken == {(x, x)} + rest.taken && w.refs == rest.refs;
      assert forall y :: Met(rest, y) ==> Met(w, y);
      assert (x, x) in w.taken;
    } else {
      assert (x, refs[Find(mode, refs, x).id]) in w.taken;
    }
  }

  lemma {:induction false} WriteAllAccounts(g: Heap, mode: Mode, xs: seq<nat>, refs: seq<nat>, depth: nat)
    requires Closed(g) && Within(g, xs) && WriteAll(g, mode, xs, refs, depth).Some?
    ensures Accounted(g, WriteAll(g, mode, xs, refs, depth).value, xs)
    decreases depth, |xs| + 1
  {
    if xs != [] {
      WriteAccounts(g, mode, xs[0], refs, depth);
      var first := Write(g, mode, xs[0], refs, depth).value;
      WriteAllAccounts(g, mode, xs[1..], first.refs, depth);
      WriteAllKeepsIds(g, mode, xs[1..], first.refs, depth);
      var rest := WriteAll(g, mode, xs[1..], first.refs, depth).value;
      BothAccounted(g, first, rest, xs[0], xs[1..]);
      assert xs == [xs[0]] + xs[1..];
    }
  }

  lemma BothAccounted(g: Heap, first: Written, rest: Written, x: nat, xs: seq<nat>)
    requires Accounted(g, first, [x]) && Accounted(g, rest, xs) && first.refs <= rest.refs
    ensures Accounted(g, BothWritten(first, rest), [x] + xs)
  {
    var w := BothWritten(first, rest);
    assert forall y :: Met(first, y) || Met(rest, y) ==> Met(w, y);
    assert x in [x] && Met(first, x);
  }

  /** Objects that are not taken for others on any way to them are written. */
  lemma {:induction false} WalkWritten(g: Heap, mode: Mode, roots: seq<nat>, depth: nat, w: seq<nat>)
    requires Closed(g) && Within(g, roots) && WriteAll(g, mode, roots, [], depth).Some?
    requires |w| > 0 && w[0] in roots && forall i :: 0 <= i < |w| - 1 ==> Holds(g)(w[i], w[i + 1])
    requires forall i, y :: 0 <= i < |w| && w[i] != y ==> mode.equal(w[i], y) != Yes
    ensures w[|w| - 1] in WriteAll(g, mode, roots, [], depth).value.origin
    decreases |w|
  {
    var all := WriteAll(g, mode, roots, [], depth).value;
    WriteAllServes(g, mode, roots, [], depth);
    var x := w[|w| - 1];
    if |w| > 1 {
      var front := w[..|w| - 1];
      WalkWritten(g, mode, roots, depth, front);
      assert Holds(g)(w[|w| - 2], w[|w| - 2 + 1]);
    }
    assert Served(mode, all, x);
  }

  /** Writing that ends has met no ring without announced object. */
  lemma EndedMeansCut(g: Heap, mode: Mode, roots: seq<nat>, depth: nat)
    requires Closed(g) && Within(g, roots) && RingsStay(g, mode) && WriteAll(g, mode, roots, [], depth).Some?
    ensures NoBareRing(g, mode.announced, roots)
  {
    RingsTrap(g, mode);
    NothingTrappedAmong(g, mode, BareRings(g, mode.announced), roots, [], depth);
    forall x | Reached(g, roots, x) ensures !Leads(Bare(g, mode.announced), x, x) {
      if Leads(Bare(g, mode.announced), x, x) {
        BareIsHeld(g, mode.announced, x, x);
        ReachedInside(g, roots, x);
        RingWritten(g, mode, roots, depth, x);
      }
    }
  }

  /** What meets a ring is written itself. */
  lemma RingWritten(g: Heap, mode: Mode, roots: seq<nat>, depth: nat, x: nat)
    requires Closed(g) && Within(g, roots) && RingsStay(g, mode)
    requires WriteAll(g, mode, roots, [], depth).Some? && Reached(g, roots, x) && MeetsRing(Holds(g), x)
    ensures x in WriteAll(g, mode, roots, [], depth).value.origin
  {
    var w := [x];
    if x !in roots {
      var r :| r in roots && Leads(Holds(g), r, x);
      w :| Walk(Holds(g), w) && w[0] == r && w[|w| - 1] == x;
    }
    forall i | 0 <= i < |w| ensures MeetsRing(Holds(g), w[i]) {
      AlsoMeets(g, w, i);
    }
    WalkWritten(g, mode, roots, depth, w);
  }

  lemma OnTheWay(g: Heap, roots: seq<nat>, w: seq<nat>, i: nat)
    requires i < |w| && w[0] in roots && forall i :: 0 <= i < |w| - 1 ==> Holds(g)(w[i], w[i + 1])
    ensures Reached(g, roots, w[i])
  {
    if 0 < i {
      assert Walk(Holds(g), w[..i + 1]) && w[..i + 1][0] == w[0];
    }
  }

  lemma {:induction false} AlsoMeets(g: Heap, w: seq<nat>, i: nat)
    requires i < |w| && forall i :: 0 <= i < |w| - 1 ==> Holds(g)(w[i], w[i + 1])
    requires MeetsRing(Holds(g), w[|w| - 1])
    ensures MeetsRing(Holds(g), w[i])
    decreases |w| - i
  {
    if i < |w| - 1 {
      AlsoMeets(g, w, i + 1);
      MeetsFurther(Holds(g), w[i], w[i + 1]);
    }
  }

  // ----- when writing ends

  /** Only comparisons of objects that meet rings do not end. */
  ghost predicate RingsHang(g: Heap, mode: Mode) {
    forall x: nat, y: nat :: mode.equal(x, y) == Endless ==>
      x < |g| && y < |g| && MeetsRing(Holds(g), x) && MeetsRing(Holds(g), y)
  }

  ghost function Rings(g: Heap): set<nat> {
    set x | x in Numbers(0, |g|) && MeetsRing(Holds(g), x)
  }

  lemma RingsApart(g: Heap, rules: Rules)
    requires Closed(g) && forall x: nat, y: nat :: MeetsRing(Holds(g), x) && x != y ==> !rules.merges(x, y)
    ensures Apart(g, rules, Rings(g))
  {
    forall x: nat, i | x < |g| && 0 <= i < |g[x].kids| && g[x].kids[i] in Rings(g) ensures x in Rings(g) {
      MeetsFurther(Holds(g), x, g[x].kids[i]);
    }
  }

  /** What the walk in plain order compares is, as far as rings go, what writing compares. */
  lemma SameOnRings(g: Heap, mode: Mode, xs: seq<nat>)
    requires Closed(g) && Within(g, xs) && NoBareRing(g, mode.announced, xs) && RingsStay(g, mode) && RingsHang(g, mode)
    ensures (forall x: nat, y: nat :: Compared(g, RulesOf(mode), xs, x, y) ==> mode.equal(x, y) != Endless) <==>
            (forall x: nat, y: nat :: Compared(g, InOrder(mode.announced), xs, x, y) ==> mode.equal(x, y) != Endless)
  {
    var (r, t, depth) := (RulesOf(mode), InOrder(mode.announced), Room(g, [], {}));
    VisitAllEnds(g, r, xs, xs, {}, [], depth);
    VisitAllEnds(g, t, xs, xs, {}, [], depth);
    RingsApart(g, r);
    RingsApart(g, t);
    SameOrderAll(g, r, t, Rings(g), xs, [], [], depth);
    forall x: nat, y: nat | mode.equal(x, y) == Endless ensures Compared(g, r, xs, x, y) <==> Compared(g, t, xs, x, y) {
      ComparedAt(g, r, xs, depth, x, y);
      ComparedAt(g, t, xs, depth, x, y);
    }
  }

  /**
   Writing ends exactly if every ring that can be reached has an announced object, and if no comparison goes on without
   end that is made when the graph is walked in its plain order.
   */
  lemma WriteEndsIff(g: Heap, mode: Mode, xs: seq<nat>)
    requires Closed(g) && Within(g, xs) && RingsStay(g, mode) && RingsHang(g, mode)
    ensures CanWriteAll(g, mode, xs) <==>
            && NoBareRing(g, mode.announced, xs)
            && forall x: nat, y: nat :: Compared(g, InOrder(mode.announced), xs, x, y) ==> mode.equal(x, y) != Endless
  {
    forall depth | WriteAll(g, mode, xs, [], depth).Some? ensures NoBareRing(g, mode.announced, xs) {
      EndedMeansCut(g, mode, xs, depth);
    }
    if NoBareRing(g, mode.announced, xs) {
      SameOnRings(g, mode, xs);
      WriteEndsIffAnswered(g, mode, xs);
    }
  }

  // ----- registered objects are told apart

  /** Every registered object was compared with those registered before, and found to be another. */
  ghost predicate ToldApart(mode: Mode, refs: seq<nat>) {
    forall i, j :: 0 <= i < j < |refs| ==> refs[j] != refs[i] && mode.equal(refs[j], refs[i]) == No
  }

  lemma {:induction false} WriteKeepsApart(g: Heap, mode: Mode, x: nat, refs: seq<nat>, depth: nat)
    requires Closed(g) && x < |g| && Write(g, mode, x, refs, depth).Some? && ToldApart(mode, refs)
    ensures ToldApart(mode, Write(g, mode, x, refs, depth).value.refs)
    decreases depth, 0
  {
    if Find(mode, refs, x).Missing? {
      WriteAllKeepsApart(g, mode, g[x].kids, if x in mode.announced then refs + [x] else refs, depth - 1);
    }
  }

  lemma {:induction false} WriteAllKeepsApart(g: Heap, mode: Mode, xs: seq<nat>, refs: seq<nat>, depth: nat)
    requires Closed(g) && Within(g, xs) && WriteAll(g, mode, xs, refs, depth).Some? && ToldApart(mode, refs)
    ensures ToldApart(mode, WriteAll(g, mode, xs, refs, depth).value.refs)
    decreases depth, |xs| + 1
  {
    if xs != [] {
      WriteKeepsApart(g, mode, xs[0], refs, depth);
      WriteAllKeepsApart(g, mode, xs[1..], Write(g, mode, xs[0], refs, depth).value.refs, depth);
    }
  }
}
