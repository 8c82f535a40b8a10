/**
 The order in which a graph is walked depth first: what is met, and which objects are compared when they are met. The
 walk knows no tokens and its comparisons always end; whether the marshal ends, and what it takes for what, follows.
 */
module MarshalOrder {
  import opened Common
  import opened ObjectGraph

  /** Which objects are remembered when they are met, and which are taken for one that is remembered. */
  datatype Rules = Rules(announced: set<nat>, merges: (nat, nat) -> bool)

  /** The objects remembered, in the order in which they were met, and the pairs compared: one met with one known. */
  datatype Visited = Visited(met: seq<nat>, asked: set<(nat, nat)>)

  predicate IsKnown(rules: Rules, x: nat, met: seq<nat>) {
    met != [] && (met[0] == x || rules.merges(x, met[0]) || IsKnown(rules, x, met[1..]))
  }

  /** An object that is met is compared with those remembered up to itself or the first that it is taken for. */
  function Questions(rules: Rules, x: nat, met: seq<nat>): set<(nat, nat)> {
    if met == [] || met[0] == x then {}
    else if rules.merges(x, met[0]) then {(x, met[0])}
    else {(x, met[0])} + Questions(rules, x, met[1..])
  }

  /** Objects that are known are not entered again; all others are. None if the walk goes deeper than `depth`. */
  function Visit(g: Heap, rules: Rules, x: nat, met: seq<nat>, depth: nat): (v: Option<Visited>)
    requires Closed(g) && x < |g|
    decreases depth, 0
  {
    var asked := Questions(rules, x, met);
    if IsKnown(rules, x, met) then Some(Visited(met, asked))
    else if depth == 0 then None
    else
      var inside := VisitAll(g, rules, g[x].kids, Remember(rules, x, met), depth - 1);
      if inside.None? then None else Some(Visited(inside.value.met, asked + inside.value.asked))
  }

  function VisitAll(g: Heap, rules: Rules, xs: seq<nat>, met: seq<nat>, depth: nat): (v: Option<Visited>)
    requires Closed(g) && Within(g, xs)
    decreases depth, |xs| + 1
  {
    if xs == [] then Some(Visited(met, {}))
    else
      var first := Visit(g, rules, xs[0], met, depth);
      if first.None? then None
      else
        var rest := VisitAll(g, rules, xs[1..], first.value.met, depth);
        if rest.None? then None else Some(Visited(rest.value.met, first.value.asked + rest.value.asked))
  }

  function Remember(rules: Rules, x: nat, met: seq<nat>): seq<nat> {
    if x in rules.announced then met + [x] else met
  }

  /** When `roots` are walked, `y` is remembered before `x` is met, and `x` is compared with it. */
  ghost predicate Compared(g: Heap, rules: Rules, roots: seq<nat>, x: nat, y: nat)
    requires Closed(g) && Within(g, roots)
  {
    exists depth ::
      VisitAll(g, rules, roots, [], depth).Some? && (x, y) in VisitAll(g, rules, roots, [], depth).value.asked
  }

  /** The walk that takes nothing for anything else: it needs no comparison to be made. */
  function InOrder(announced: set<nat>): Rules {
    Rules(announced, (x: nat, y: nat) => false)
  }

  // ----- a walk that ends is final

  lemma {:induction false} VisitFinal(g: Heap, rules: Rules, x: nat, met: seq<nat>, d: nat, e: nat)
    requires Closed(g) && x < |g| && d <= e && Visit(g, rules, x, met, d).Some?
    ensures Visit(g, rules, x, met, e) == Visit(g, rules, x, met, d)
    decreases d, 0
  {
    if !IsKnown(rules, x, met) {
      VisitAllFinal(g, rules, g[x].kids, Remember(rules, x, met), d - 1, e - 1);
    }
  }

  lemma {:induction false} VisitAllFinal(g: Heap, rules: Rules, xs: seq<nat>, met: seq<nat>, d: nat, e: nat)
    requires Closed(g) && Within(g, xs) && d <= e && VisitAll(g, rules, xs, met, d).Some?
    ensures VisitAll(g, rules, xs, met, e) == VisitAll(g, rules, xs, met, d)
    decreases d, |xs| + 1
  {
    if xs != [] {
      VisitFinal(g, rules, xs[0], met, d, e);
      VisitAllFinal(g, rules, xs[1..], Visit(g, rules, xs[0], met, d).value.met, d, e);
    }
  }

  lemma ComparedAt(g: Heap, rules: Rules, roots: seq<nat>, depth: nat, x: nat, y: nat)
    requires Closed(g) && Within(g, roots) && VisitAll(g, rules, roots, [], depth).Some?
    ensures Compared(g, rules, roots, x, y) <==> (x, y) in VisitAll(g, rules, roots, [], depth).value.asked
  {
    if Compared(g, rules, roots, x, y) {
      var d: nat :| VisitAll(g, rules, roots, [], d).Some? && (x, y) in VisitAll(g, rules, roots, [], d).value.asked;
      VisitAllFinal(g, rules, roots, [], if d < depth then d else depth, if d < depth then depth else d);
    }
  }

  // ----- the first object

  /** What is remembered stays so, in its place; and an object remembered first is not compared with anything. */
  lemma {:induction false} FirstStays(g: Heap, rules: Rules, x: nat, met: seq<nat>, depth: nat)
    requires Closed(g) && x < |g| && met != [] && Visit(g, rules, x, met, depth).Some?
    ensures var v := Visit(g, rules, x, met, depth).value;
            v.met != [] && v.met[0] == met[0] && forall y :: (met[0], y) !in v.asked
    decreases depth, 0
  {
    NotAsked(rules, x, met);
    if !IsKnown(rules, x, met) {
      FirstOfAllStays(g, rules, g[x].kids, Remember(rules, x, met), depth - 1);
    }
  }

  lemma {:induction false} FirstOfAllStays(g: Heap, rules: Rules, xs: seq<nat>, met: seq<nat>, depth: nat)
    requires Closed(g) && Within(g, xs) && met != [] && VisitAll(g, rules, xs, met, depth).Some?
    ensures var v := VisitAll(g, rules, xs, met, depth).value;
            v.met != [] && v.met[0] == met[0] && forall y :: (met[0], y) !in v.asked
    decreases depth, |xs| + 1
  {
    if xs != [] {
      FirstStays(g, rules, xs[0], met, depth);
      FirstOfAllStays(g, rules, xs[1..], Visit(g, rules, xs[0], met, depth).value.met, depth);
    }
  }

  /** Of two roots the second is compared with the first, but not the first with anything, if the first is announced. */
  lemma SecondIsCompared(g: Heap, rules: Rules, x: nat, y: nat, depth: nat)
    requires Closed(g) && x < |g| && y < |g| && x != y && x in rules.announced
    requires VisitAll(g, rules, [x, y], [], depth).Some?
    ensures Compared(g, rules, [x, y], y, x) && forall z :: !Compared(g, rules, [x, y], x, z)
  {
    assert [x, y][1..] == [y] && Remember(rules, x, []) == [x];
    FirstOfAllStays(g, rules, g[x].kids, [x], depth - 1);
    var first := Visit(g, rules, x, [], depth).value;
    assert first.met[0] == x && forall z :: (x, z) !in first.asked;
    FirstOfAllStays(g, rules, [y], first.met, depth);
    assert (y, x) in Questions(rules, y, first.met);
    ComparedAt(g, rules, [x, y], depth, y, x);
    forall z ensures !Compared(g, rules, [x, y], x, z) {
      ComparedAt(g, rules, [x, y], depth, x, z);
    }
  }

  lemma {:induction false} NotAsked(rules: Rules, x: nat, met: seq<nat>)
    ensures forall a, b :: (a, b) in Questions(rules, x, met) ==> a == x
    ensures met != [] && met[0] == x ==> Questions(rules, x, met) == {}
  {
    if met != [] {
      NotAsked(rules, x, met[1..]);
    }
  }

  // ----- rules that agree

  ghost predicate Agreed(r: Rules, t: Rules, asked: set<(nat, nat)>) {
    forall x, y :: (x, y) in asked ==> r.merges(x, y) == t.merges(x, y)
  }

  lemma {:induction false} SameQuestions(r: Rules, t: Rules, x: nat, met: seq<nat>)
    requires Agreed(r, t, Questions(r, x, met))
    ensures Questions(t, x, met) == Questions(r, x, met) && IsKnown(t, x, met) == IsKnown(r, x, met)
  {
    if met != [] && met[0] != x {
      assert (x, met[0]) in Questions(r, x, met);
      if !r.merges(x, met[0]) {
        SameQuestions(r, t, x, met[1..]);
      }
    }
  }

  /** Rules that agree on all that is compared make for the same walk. */
  lemma {:induction false} SameVisit(g: Heap, r: Rules, t: Rules, x: nat, met: seq<nat>, depth: nat)
    requires Closed(g) && x < |g| && r.announced == t.announced && Visit(g, r, x, met, depth).Some?
    requires Agreed(r, t, Visit(g, r, x, met, depth).value.asked)
    ensures Visit(g, t, x, met, depth) == Visit(g, r, x, met, depth)
    decreases depth, 0
  {
    SameQuestions(r, t, x, met);
    if !IsKnown(r, x, met) {
      SameVisitAll(g, r, t, g[x].kids, Remember(r, x, met), depth - 1);
    }
  }

  lemma {:induction false} SameVisitAll(g: Heap, r: Rules, t: Rules, xs: seq<nat>, met: seq<nat>, depth: nat)
    requires Closed(g) && Within(g, xs) && r.announced == t.announced && VisitAll(g, r, xs, met, depth).Some?
    requires Agreed(r, t, VisitAll(g, r, xs, met, depth).value.asked)
    ensures VisitAll(g, t, xs, met, depth) == VisitAll(g, r, xs, met, depth)
    decreases depth, |xs| + 1
  {
    if xs != [] {
      SameVisit(g, r, t, xs[0], met, depth);
      SameVisitAll(g, r, t, xs[1..], Visit(g, r, xs[0], met, depth).value.met, depth);
    }
  }

  // ----- what meets a ring is walked in one order, whatever else is merged

  /** `ring` holds what is of interest, with all that leads to it, and nothing in it is taken for something else. */
  ghost predicate Apart(g: Heap, rules: Rules, ring: set<nat>)
    requires Closed(g)
  {
    && (forall x, i :: 0 <= x < |g| && 0 <= i < |g[x].kids| && g[x].kids[i] in ring ==> x in ring)
    && (forall x, y :: x in ring && x != y ==> !rules.merges(x, y))
  }

  function Only(ring: set<nat>, s: seq<nat>): seq<nat> {
    if s == [] then [] else if s[0] in ring then [s[0]] + Only(ring, s[1..]) else Only(ring, s[1..])
  }

  lemma {:induction false} OnlyOneMore(ring: set<nat>, s: seq<nat>, x: nat)
    ensures Only(ring, s + [x]) == if x in ring then Only(ring, s) + [x] else Only(ring, s)
  {
    if s == [] {
      assert [x][1..] == [];
    } else {
      assert (s + [x])[1..] == s[1..] + [x];
      OnlyOneMore(ring, s[1..], x);
    }
  }

  ghost predicate SamePairs(ring: set<nat>, a: set<(nat, nat)>, b: set<(nat, nat)>) {
    forall x, y :: x in ring && y in ring ==> ((x, y) in a <==> (x, y) in b)
  }

  /** For what is of interest only that counts. */
  lemma {:induction false} OnlyCounts(g: Heap, rules: Rules, ring: set<nat>, x: nat, met: seq<nat>)
    requires Closed(g) && Apart(g, rules, ring) && x in ring
    ensures IsKnown(rules, x, met) <==> x in Only(ring, met)
    ensures forall y :: y in ring ==> ((x, y) in Questions(rules, x, met) <==> (x, y) in Before(x, Only(ring, met)))
  {
    if met != [] && met[0] != x {
      OnlyCounts(g, rules, ring, x, met[1..]);
    }
  }

  function Before(x: nat, met: seq<nat>): set<(nat, nat)> {
    if met == [] || met[0] == x then {} else {(x, met[0])} + Before(x, met[1..])
  }

  /** Outside, nothing of interest is met. */
  lemma {:induction false} VisitOutside(g: Heap, rules: Rules, ring: set<nat>, x: nat, met: seq<nat>, depth: nat)
    requires Closed(g) && x < |g| && Apart(g, rules, ring) && x !in ring && Visit(g, rules, x, met, depth).Some?
    ensures var v := Visit(g, rules, x, met, depth).value;
            Only(ring, v.met) == Only(ring, met) && forall a, b :: (a, b) in v.asked ==> a !in ring
    decreases depth, 0
  {
    NotAsked(rules, x, met);
    if !IsKnown(rules, x, met) {
      OnlyOneMore(ring, met, x);
      VisitAllOutside(g, rules, ring, g[x].kids, Remember(rules, x, met), depth - 1);
    }
  }

  lemma {:induction false} VisitAllOutside(g: Heap, rules: Rules, ring: set<nat>, xs: seq<nat>, met: seq<nat>,
                                           depth: nat)
    requires Closed(g) && Within(g, xs) && Apart(g, rules, ring) && (forall x :: x in xs ==> x !in ring)
    requires VisitAll(g, rules, xs, met, depth).Some?
    ensures var v := VisitAll(g, rules, xs, met, depth).value;
            Only(ring, v.met) == Only(ring, met) && forall a, b :: (a, b) in v.asked ==> a !in ring
    decreases depth, |xs| + 1
  {
    if xs != [] {
      VisitOutside(g, rules, ring, xs[0], met, depth);
      VisitAllOutside(g, rules, ring, xs[1..], Visit(g, rules, xs[0], met, depth).value.met, depth);
    }
  }

  /** Whatever else is merged, what is of interest is met and compared in the same order. */
  lemma {:induction false} SameOrder(g: Heap, r: Rules, t: Rules, ring: set<nat>, x: nat,
                                     met: seq<nat>, other: seq<nat>, depth: nat)
    requires Closed(g) && x < |g| && Apart(g, r, ring) && Apart(g, t, ring) && r.announced == t.announced
    requires Only(ring, met) == Only(ring, other)
    requires Visit(g, r, x, met, depth).Some? && Visit(g, t, x, other, depth).Some?
    ensures var (v, u) := (Visit(g, r, x, met, depth).value, Visit(g, t, x, other, depth).value);
            Only(ring, v.met) == Only(ring, u.met) && SamePairs(ring, v.asked, u.asked)
    decreases depth, 0
  {
    if x !in ring {
      VisitOutside(g, r, ring, x, met, depth);
      VisitOutside(g, t, ring, x, other, depth);
      return;
    }
    OnlyCounts(g, r, ring, x, met);
    OnlyCounts(g, t, ring, x, other);
    NotAsked(r, x, met);
    NotAsked(t, x, other);
    if !IsKnown(r, x, met) {
      OnlyOneMore(ring, met, x);
      OnlyOneMore(ring, other, x);
      SameOrderAll(g, r, t, ring, g[x].kids, Remember(r, x, met), Remember(t, x, other), depth - 1);
    }
  }

  lemma {:induction false} SameOrderAll(g: Heap, r: Rules, t: Rules, ring: set<nat>, xs: seq<nat>,
                                        met: seq<nat>, other: seq<nat>, depth: nat)
    requires Closed(g) && Within(g, xs) && Apart(g, r, ring) && Apart(g, t, ring) && r.announced == t.announced
    requires Only(ring, met) == Only(ring, other)
    requires VisitAll(g, r, xs, met, depth).Some? && VisitAll(g, t, xs, other, depth).Some?
    ensures var (v, u) := (VisitAll(g, r, xs, met, depth).value, VisitAll(g, t, xs, other, depth).value);
            Only(ring, v.met) == Only(ring, u.met) && SamePairs(ring, v.asked, u.asked)
    decreases depth, |xs| + 1
  {
    if xs != [] {
      SameOrder(g, r, t, ring, xs[0], met, other, depth);
      SameOrderAll(g, r, t, ring, xs[1..], Visit(g, r, xs[0], met, depth).value.met,
                   Visit(g, t, xs[0], other, depth).value.met, depth);
    }
  }

  // ----- a walk ends if all rings are cut

  /** From an object that is not announced to what it holds. */
  ghost function Bare(g: Heap, announced: set<nat>): (nat, nat) -> bool {
    (x: nat, y: nat) => x < |g| && x !in announced && y in g[x].kids
  }

  /** Every ring that can be reached passes through an announced object. */
  ghost predicate NoBareRing(g: Heap, announced: set<nat>, roots: seq<nat>) {
    forall x :: Reached(g, roots, x) ==> !Leads(Bare(g, announced), x, x)
  }

  ghost predicate AllReached(g: Heap, roots: seq<nat>, xs: seq<nat>) {
    forall x :: x in xs ==> Reached(g, roots, x)
  }

  lemma KidsReached(g: Heap, roots: seq<nat>, x: nat)
    requires x < |g| && Reached(g, roots, x)
    ensures AllReached(g, roots, g[x].kids)
  {
    forall k | k in g[x].kids ensures Reached(g, roots, k) {
      ReachedFurther(g, roots, x, k);
    }
  }

  function Members(refs: seq<nat>): set<nat> {
    set r | r in refs
  }

  /** How many of the first `n` objects are not in `s`. */
  function Outside(n: nat, s: set<nat>): nat {
    if n == 0 then 0 else Outside(n - 1, s) + if n - 1 in s then 0 else 1
  }

  function Times(n: nat, a: nat): nat {
    if n == 0 then 0 else a + Times(n - 1, a)
  }

  /** The nested calls that may follow: each registers an object, or is for one not met since the last that did. */
  ghost function Room(g: Heap, refs: seq<nat>, path: set<nat>): nat {
    Times(Outside(|g|, Members(refs)), |g| + 1) + Outside(|g|, path)
  }

  lemma {:induction false} OutsideOne(n: nat, s: set<nat>, t: set<nat>, x: nat)
    requires t == s + {x} && x !in s
    ensures Outside(n, s) == Outside(n, t) + if x < n then 1 else 0
  {
    if n > 0 {
      OutsideOne(n - 1, s, t, x);
    }
  }

  lemma {:induction false} OutsideLess(n: nat, s: set<nat>, t: set<nat>)
    requires s <= t
    ensures Outside(n, t) <= Outside(n, s) <= n
  {
    if n > 0 {
      OutsideLess(n - 1, s, t);
    }
  }

  lemma {:induction false} TimesLess(a: nat, b: nat, n: nat)
    requires a <= b
    ensures Times(a, n) <= Times(b, n)
  {
    if a > 0 {
      TimesLess(a - 1, b - 1, n);
    }
  }

  lemma RoomRegistered(g: Heap, refs: seq<nat>, path: set<nat>, x: nat)
    requires x < |g| && x !in refs
    ensures Room(g, refs + [x], {}) < Room(g, refs, path)
  {
    OutsideOne(|g|, Members(refs), Members(refs + [x]), x);
    OutsideLess(|g|, {}, {});
  }

  lemma RoomUnannounced(g: Heap, refs: seq<nat>, path: set<nat>, x: nat)
    requires x < |g| && x !in path
    ensures Room(g, refs, path + {x}) < Room(g, refs, path)
  {
    OutsideOne(|g|, path, path + {x}, x);
  }

  lemma RoomMore(g: Heap, refs: seq<nat>, more: seq<nat>, path: set<nat>)
    requires refs <= more
    ensures Room(g, more, path) <= Room(g, refs, path)
  {
    OutsideLess(|g|, Members(refs), Members(more));
    TimesLess(Outside(|g|, Members(more)), Outside(|g|, Members(refs)), |g| + 1);
  }

  ghost predicate Around(g: Heap, announced: set<nat>, path: set<nat>, x: nat) {
    forall p :: p in path ==> Leads(Bare(g, announced), p, x)
  }

  lemma KidsAround(g: Heap, announced: set<nat>, path: set<nat>, x: nat)
    requires x < |g| && x !in announced && Around(g, announced, path, x)
    ensures forall k :: k in g[x].kids ==> Around(g, announced, path + {x}, k)
  {
    forall k, p | k in g[x].kids && p in path + {x} ensures Leads(Bare(g, announced), p, k) {
      LeadsOn(Bare(g, announced), p, x, k);
    }
  }

  function PathInside(announced: set<nat>, x: nat, path: set<nat>): set<nat> {
    if x in announced then {} else path + {x}
  }

  /** What holds around the objects that a new object holds. */
  lemma Inside(g: Heap, rules: Rules, roots: seq<nat>, x: nat, path: set<nat>, met: seq<nat>)
    requires x < |g| && NoBareRing(g, rules.announced, roots) && x !in met
    requires Reached(g, roots, x) && Around(g, rules.announced, path, x)
    ensures Room(g, Remember(rules, x, met), PathInside(rules.announced, x, path)) < Room(g, met, path)
    ensures forall k :: k in g[x].kids ==> Around(g, rules.announced, PathInside(rules.announced, x, path), k)
  {
    if x in rules.announced {
      RoomRegistered(g, met, path, x);
    } else {
      assert x !in path;
      RoomUnannounced(g, met, path, x);
      KidsAround(g, rules.announced, path, x);
    }
  }

  lemma {:induction false} NewIsNew(rules: Rules, x: nat, met: seq<nat>)
    requires !IsKnown(rules, x, met)
    ensures x !in met
  {
    if met != [] {
      NewIsNew(rules, x, met[1..]);
    }
  }

  /** `path` are the objects that are not announced being entered around `x`, since the last announced one. */
  lemma {:induction false} VisitEnds(g: Heap, rules: Rules, roots: seq<nat>, x: nat, path: set<nat>,
                                     met: seq<nat>, depth: nat)
    requires Closed(g) && x < |g| && NoBareRing(g, rules.announced, roots) && Reached(g, roots, x)
    requires Around(g, rules.announced, path, x) && depth >= Room(g, met, path)
    ensures Visit(g, rules, x, met, depth).Some? && met <= Visit(g, rules, x, met, depth).value.met
    decreases depth, 0
  {
    if !IsKnown(rules, x, met) {
      NewIsNew(rules, x, met);
      KidsReached(g, roots, x);
      Inside(g, rules, roots, x, path, met);
      VisitAllEnds(g, rules, roots, g[x].kids, PathInside(rules.announced, x, path), Remember(rules, x, met),
                   depth - 1);
    }
  }

  lemma {:induction false} VisitAllEnds(g: Heap, rules: Rules, roots: seq<nat>, xs: seq<nat>, path: set<nat>,
                                        met: seq<nat>, depth: nat)
    requires Closed(g) && Within(g, xs) && NoBareRing(g, rules.announced, roots) && AllReached(g, roots, xs)
    requires (forall x :: x in xs ==> Around(g, rules.announced, path, x)) && depth >= Room(g, met, path)
    ensures VisitAll(g, rules, xs, met, depth).Some? && met <= VisitAll(g, rules, xs, met, depth).value.met
    decreases depth, |xs| + 1
  {
    if xs != [] {
      VisitEnds(g, rules, roots, xs[0], path, met, depth);
      var first := Visit(g, rules, xs[0], met, depth).value;
      RoomMore(g, met, first.met, path);
      VisitAllEnds(g, rules, roots, xs[1..], path, first.met, depth);
    }
  }
}
