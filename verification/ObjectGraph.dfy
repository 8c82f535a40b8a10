/** Objects that hold each other, and walks from one to the next. */
module ObjectGraph {

  // ----- walks

  /** A walk makes at least one step. */
  ghost predicate Walk<T(!new)>(step: (T, T) -> bool, w: seq<T>) {
    |w| > 1 && forall i :: 0 <= i < |w| - 1 ==> step(w[i], w[i + 1])
  }

  ghost predicate Leads<T(!new)>(step: (T, T) -> bool, x: T, y: T) {
    exists w :: Walk(step, w) && w[0] == x && w[|w| - 1] == y
  }

  /** Some number of steps from `x`, possibly none, there is a ring: something that leads back to itself. */
  ghost predicate MeetsRing<T(!new)>(step: (T, T) -> bool, x: T) {
    exists y :: (x == y || Leads(step, x, y)) && Leads(step, y, y)
  }

  lemma OneStep<T(!new)>(step: (T, T) -> bool, x: T, y: T)
    requires step(x, y)
    ensures Leads(step, x, y)
  {
    assert Walk(step, [x, y]) && [x, y][0] == x;
  }

  lemma LeadsOn<T(!new)>(step: (T, T) -> bool, x: T, y: T, z: T)
    requires (x == y || Leads(step, x, y)) && step(y, z)
    ensures Leads(step, x, z)
  {
    if x == y {
      OneStep(step, x, z);
      return;
    }
    var w :| Walk(step, w) && w[0] == x && w[|w| - 1] == y;
    assert Walk(step, w + [z]) && (w + [z])[0] == x;
  }

  /** The first step of a walk, and what is left of the walk. */
  lemma FirstStep<T(!new)>(step: (T, T) -> bool, x: T, z: T) returns (y: T)
    requires Leads(step, x, z)
    ensures step(x, y) && (y == z || Leads(step, y, z))
  {
    var w :| Walk(step, w) && w[0] == x && w[|w| - 1] == z;
    y := w[1];
    if |w| > 2 {
      assert Walk(step, w[1..]) && w[1..][0] == y;
    }
  }

  /** What meets a ring takes a step to something that meets a ring, over and over. */
  lemma RingGoesOn<T(!new)>(step: (T, T) -> bool, x: T) returns (y: T)
    requires MeetsRing(step, x)
    ensures step(x, y) && MeetsRing(step, y)
  {
    var z :| (x == z || Leads(step, x, z)) && Leads(step, z, z);
    y := FirstStep(step, x, z);
    if x == z && y != z {
      LeadsOn(step, y, z, y);
    }
  }

  /** What takes a step towards a ring meets it. */
  lemma MeetsFurther<T(!new)>(step: (T, T) -> bool, x: T, y: T)
    requires step(x, y) && MeetsRing(step, y)
    ensures MeetsRing(step, x)
  {
    var z :| (y == z || Leads(step, y, z)) && Leads(step, z, z);
    Prepend(step, x, y, z);
  }

  lemma Prepend<T(!new)>(step: (T, T) -> bool, x: T, y: T, z: T)
    requires step(x, y) && (y == z || Leads(step, y, z))
    ensures Leads(step, x, z)
  {
    if y == z {
      OneStep(step, x, z);
      return;
    }
    var w :| Walk(step, w) && w[0] == y && w[|w| - 1] == z;
    assert Walk(step, [x] + w) && ([x] + w)[0] == x;
  }

  lemma WalkInside<T(!new)>(step: (T, T) -> bool, other: (T, T) -> bool, w: seq<T>)
    requires Walk(step, w) && forall i :: 0 <= i < |w| - 1 ==> other(w[i], w[i + 1])
    ensures Leads(other, w[0], w[|w| - 1])
  {
    assert Walk(other, w);
  }

  // ----- objects

  /** What an object is besides the objects it holds, and those objects in order. */
  datatype Obj = Obj(tag: int, kids: seq<nat>)

  /** Objects are numbers into a heap. */
  type Heap = seq<Obj>

  ghost predicate Closed(g: Heap) {
    forall x, i :: 0 <= x < |g| && 0 <= i < |g[x].kids| ==> g[x].kids[i] < |g|
  }

  ghost function Holds(g: Heap): (nat, nat) -> bool {
    (x: nat, y: nat) => x < |g| && y in g[x].kids
  }

  ghost predicate Within(g: Heap, xs: seq<nat>) {
    forall i :: 0 <= i < |xs| ==> xs[i] < |g|
  }

  /** `x` is one of `roots` or can be reached from one. */
  ghost predicate Reached(g: Heap, roots: seq<nat>, x: nat) {
    x in roots || exists r :: r in roots && Leads(Holds(g), r, x)
  }

  lemma ReachedFurther(g: Heap, roots: seq<nat>, x: nat, y: nat)
    requires Reached(g, roots, x) && Holds(g)(x, y)
    ensures Reached(g, roots, y)
  {
    if x in roots {
      OneStep(Holds(g), x, y);
    } else {
      var r :| r in roots && Leads(Holds(g), r, x);
      LeadsOn(Holds(g), r, x, y);
    }
  }

  lemma LeadsInside(g: Heap, x: nat, y: nat)
    requires Closed(g) && Leads(Holds(g), x, y)
    ensures x < |g| && y < |g|
  {
    var w :| Walk(Holds(g), w) && w[0] == x && w[|w| - 1] == y;
    assert Holds(g)(w[0], w[1]) && Holds(g)(w[|w| - 2], w[|w| - 2 + 1]);
    var i :| 0 <= i < |g[w[|w| - 2]].kids| && g[w[|w| - 2]].kids[i] == y;
  }

  lemma ReachedInside(g: Heap, roots: seq<nat>, x: nat)
    requires Closed(g) && Within(g, roots) && Reached(g, roots, x)
    ensures x < |g|
  {
    if x !in roots {
      var r :| r in roots && Leads(Holds(g), r, x);
      LeadsInside(g, r, x);
    }
  }

  datatype Tree = Cut | Tree(tag: int, kids: seq<Tree>)

  /** What can be seen of object `x` by following at most `depth` references. */
  ghost function Unfold(g: Heap, x: nat, depth: nat): Tree
    requires Closed(g) && x < |g|
    decreases depth
  {
    if depth == 0 then Cut
    else Tree(g[x].tag, seq(|g[x].kids|, i requires 0 <= i < |g[x].kids| => Unfold(g, g[x].kids[i], depth - 1)))
  }

  ghost predicate Alike(g: Heap, x: nat, h: Heap, y: nat)
    requires Closed(g) && x < |g| && Closed(h) && y < |h|
  {
    forall depth: nat :: Unfold(g, x, depth) == Unfold(h, y, depth)
  }

  /** What cannot be told apart holds in the same place what cannot be told apart. */
  lemma AlikeInside(g: Heap, x: nat, h: Heap, y: nat)
    requires Closed(g) && Closed(h) && x < |g| && y < |h| && Alike(g, x, h, y)
    ensures g[x].tag == h[y].tag && |g[x].kids| == |h[y].kids|
    ensures forall i :: 0 <= i < |g[x].kids| ==> Alike(g, g[x].kids[i], h, h[y].kids[i])
  {
    UnfoldsInside(g, x, h, y, 0);
    forall i, depth: nat | 0 <= i < |g[x].kids|
      ensures Unfold(g, g[x].kids[i], depth) == Unfold(h, h[y].kids[i], depth)
    {
      UnfoldsInside(g, x, h, y, depth);
    }
  }

  lemma UnfoldsInside(g: Heap, x: nat, h: Heap, y: nat, depth: nat)
    requires Closed(g) && Closed(h) && x < |g| && y < |h| && Unfold(g, x, depth + 1) == Unfold(h, y, depth + 1)
    ensures g[x].tag == h[y].tag && |g[x].kids| == |h[y].kids|
    ensures forall i :: 0 <= i < |g[x].kids| ==> Unfold(g, g[x].kids[i], depth) == Unfold(h, h[y].kids[i], depth)
  {
    var (s, t) := (Unfold(g, x, depth + 1), Unfold(h, y, depth + 1));
    assert |s.kids| == |g[x].kids| && |t.kids| == |h[y].kids|;
    forall i | 0 <= i < |g[x].kids| ensures Unfold(g, g[x].kids[i], depth) == Unfold(h, h[y].kids[i], depth) {
      assert s.kids[i] == t.kids[i];
    }
  }

  lemma AlikeFromInside(g: Heap, x: nat, h: Heap, y: nat)
    requires Closed(g) && Closed(h) && x < |g| && y < |h| && g[x].tag == h[y].tag && |g[x].kids| == |h[y].kids|
    requires forall i :: 0 <= i < |g[x].kids| ==> Alike(g, g[x].kids[i], h, h[y].kids[i])
    ensures Alike(g, x, h, y)
  {
    forall depth: nat ensures Unfold(g, x, depth) == Unfold(h, y, depth) {
      if depth > 0 {
        assert forall i :: 0 <= i < |g[x].kids| ==>
                             Unfold(g, g[x].kids[i], depth - 1) == Unfold(h, h[y].kids[i], depth - 1);
      }
    }
  }

  ghost predicate Distinct(s: seq<nat>) {
    forall i, j :: 0 <= i < j < |s| ==> s[i] != s[j]
  }
}
