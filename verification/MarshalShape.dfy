/** When what is read has the same shape as what was written: the same objects and references, one to one. */
module MarshalShape {
  import opened Common
  import opened ObjectGraph
  import opened Marshal
  import opened MarshalOrder
  import opened MarshalEnds

  // ----- how often an object is written

  /** The objects held by `objs`, one after the other. */
  function Held(g: Heap, objs: seq<nat>): seq<nat>
    requires Within(g, objs)
  {
    if objs == [] then [] else g[objs[0]].kids + Held(g, objs[1..])
  }

  lemma {:induction false} HeldConcat(g: Heap, a: seq<nat>, b: seq<nat>)
    requires Within(g, a) && Within(g, b)
    ensures Within(g, a + b) && Held(g, a + b) == Held(g, a) + Held(g, b)
  {
    if a == [] {
      assert a + b == b;
    } else {
      HeldConcat(g, a[1..], b);
      assert (a + b)[1..] == a[1..] + b;
    }
  }

  function Count(s: seq<nat>, x: nat): nat {
    multiset(s)[x]
  }

  lemma CountConcat(a: seq<nat>, b: seq<nat>, x: nat)
    ensures Count(a + b, x) == Count(a, x) + Count(b, x)
  {
  }

  /** Nothing is taken for anything else. */
  ghost predicate Separate(mode: Mode) {
    forall x: nat, y: nat :: mode.equal(x, y) == No
  }

  /** An object that is not announced is written as often as it is met: as a root, or in an object that is written. */
  lemma {:induction false} WrittenAsOftenAsMet(g: Heap, mode: Mode, x: nat, refs: seq<nat>, depth: nat, y: nat)
    requires Closed(g) && x < |g| && Write(g, mode, x, refs, depth).Some? && Separate(mode)
    requires AllAnnounced(mode, refs) && y !in mode.announced
    ensures var w := Write(g, mode, x, refs, depth).value;
            Within(g, w.origin) && Count([x], y) + Count(Held(g, w.origin), y) == Count(w.origin, y)
    decreases depth, 0
  {
    if Find(mode, refs, x).Missing? {
      var known := if x in mode.announced then refs + [x] else refs;
      AllWrittenAsOftenAsMet(g, mode, g[x].kids, known, depth - 1, y);
      MetInside(g, x, WriteAll(g, mode, g[x].kids, known, depth - 1).value.origin, y);
    } else {
      assert Held(g, []) == [];
    }
  }

  lemma MetInside(g: Heap, x: nat, origin: seq<nat>, y: nat)
    requires x < |g| && Within(g, origin)
    requires Count(g[x].kids, y) + Count(Held(g, origin), y) == Count(origin, y)
    ensures Within(g, [x] + origin)
    ensures Count([x], y) + Count(Held(g, [x] + origin), y) == Count([x] + origin, y)
  {
    assert ([x] + origin)[1..] == origin;
    CountConcat([x], origin, y);
    CountConcat(g[x].kids, Held(g, origin), y);
  }

  lemma MetAfter(g: Heap, first: seq<nat>, rest: seq<nat>, x: nat, xs: seq<nat>, y: nat)
    requires Within(g, first) && Within(g, rest)
    requires Count([x], y) + Count(Held(g, first), y) == Count(first, y)
    requires Count(xs, y) + Count(Held(g, rest), y) == Count(rest, y)
    ensures Within(g, first + rest)
    ensures Count([x] + xs, y) + Count(Held(g, first + rest), y) == Count(first + rest, y)
  {
    HeldConcat(g, first, rest);
    CountConcat(first, rest, y);
    CountConcat(Held(g, first), Held(g, rest), y);
    CountConcat([x], xs, y);
  }

  lemma {:induction false} AllWrittenAsOftenAsMet(g: Heap, mode: Mode, xs: seq<nat>, refs: seq<nat>, depth: nat, y: nat)
    requires Closed(g) && Within(g, xs) && WriteAll(g, mode, xs, refs, depth).Some? && Separate(mode)
    requires AllAnnounced(mode, refs) && y !in mode.announced
    ensures var w := WriteAll(g, mode, xs, refs, depth).value;
            Within(g, w.origin) && Count(xs, y) + Count(Held(g, w.origin), y) == Count(w.origin, y)
    decreases depth, |xs| + 1
  {
    if xs != [] {
      WrittenAsOftenAsMet(g, mode, xs[0], refs, depth, y);
      WriteKeepsIds(g, mode, xs[0], refs, depth);
      var first := Write(g, mode, xs[0], refs, depth).value;
      AllWrittenAsOftenAsMet(g, mode, xs[1..], first.refs, depth, y);
      var rest := WriteAll(g, mode, xs[1..], first.refs, depth).value;
      MetAfter(g, first.origin, rest.origin, xs[0], xs[1..], y);
      assert xs == [xs[0]] + xs[1..];
    } else {
      assert Held(g, []) == [];
    }
  }

  /** An announced object is written once, when it is registered. */
  lemma {:induction false} AnnouncedOnce(g: Heap, mode: Mode, x: nat, refs: seq<nat>, depth: nat, y: nat)
    requires Closed(g) && x < |g| && Write(g, mode, x, refs, depth).Some? && y in mode.announced
    ensures var w := Write(g, mode, x, refs, depth).value;
            Count(w.origin, y) == if y in w.refs && y !in refs then 1 else 0
    decreases depth, 0
  {
    if Find(mode, refs, x).Missing? {
      var known := if x in mode.announced then refs + [x] else refs;
      AllAnnouncedOnce(g, mode, g[x].kids, known, depth - 1, y);
      WriteAllKeepsIds(g, mode, g[x].kids, known, depth - 1);
      OnceInside(refs, known, WriteAll(g, mode, g[x].kids, known, depth - 1).value, x, y);
    }
  }

  lemma OnceInside(refs: seq<nat>, known: seq<nat>, rest: Written, x: nat, y: nat)
    requires x !in refs && (known == refs + [x] || (known == refs && y != x)) && known <= rest.refs
    requires Count(rest.origin, y) == if y in rest.refs && y !in known then 1 else 0
    ensures Count([x] + rest.origin, y) == if y in rest.refs && y !in refs then 1 else 0
  {
    CountConcat([x], rest.origin, y);
    assert y in known ==> y in rest.refs;
  }

  lemma {:induction false} AllAnnouncedOnce(g: Heap, mode: Mode, xs: seq<nat>, refs: seq<nat>, depth: nat, y: nat)
    requires Closed(g) && Within(g, xs) && WriteAll(g, mode, xs, refs, depth).Some? && y in mode.announced
    ensures var w := WriteAll(g, mode, xs, refs, depth).value;
            Count(w.origin, y) == if y in w.refs && y !in refs then 1 else 0
    decreases depth, |xs| + 1
  {
    if xs != [] {
      AnnouncedOnce(g, mode, xs[0], refs, depth, y);
      WriteKeepsIds(g, mode, xs[0], refs, depth);
      var first := Write(g, mode, xs[0], refs, depth).value;
      AllAnnouncedOnce(g, mode, xs[1..], first.refs, depth, y);
      WriteAllKeepsIds(g, mode, xs[1..], first.refs, depth);
      CountConcat(first.origin, WriteAll(g, mode, xs[1..], first.refs, depth).value.origin, y);
    }
  }

  // ----- the places where an object is held

  datatype Place = Root(i: nat) | Kid(holder: nat, i: nat)

  ghost predicate IsAt(g: Heap, roots: seq<nat>, x: nat, p: Place) {
    match p
    case Root(i) => i < |roots| && roots[i] == x
    case Kid(holder, i) => Reached(g, roots, holder) && holder < |g| && i < |g[holder].kids| && g[holder].kids[i] == x
  }

  /** Among the roots and what is held by objects that can be reached, there is at most one place for `x`. */
  ghost predicate HeldOnce(g: Heap, roots: seq<nat>, x: nat) {
    forall p, q :: IsAt(g, roots, x, p) && IsAt(g, roots, x, q) ==> p == q
  }

  lemma {:induction false} TwoOfThem(s: seq<nat>, i: nat, j: nat)
    requires i < j < |s| && s[i] == s[j]
    ensures Count(s, s[i]) >= 2
  {
    assert s == s[..j] + s[j..];
    CountConcat(s[..j], s[j..], s[i]);
    assert s[..j][i] in s[..j] && s[j..][0] in s[j..];
  }

  lemma {:induction false} WhereTwoAre(s: seq<nat>, x: nat) returns (i: nat, j: nat)
    requires Count(s, x) >= 2
    ensures i < j < |s| && s[i] == s[j] == x
  {
    assert s == [s[0]] + s[1..];
    CountConcat([s[0]], s[1..], x);
    if s[0] == x {
      assert x in s[1..];
      var k :| 0 <= k < |s[1..]| && s[1..][k] == x;
      i, j := 0, k + 1;
    } else {
      i, j := WhereTwoAre(s[1..], x);
      i, j := i + 1, j + 1;
    }
  }

  /** Where the objects held by the `k`-th of `objs` start. */
  function Offset(g: Heap, objs: seq<nat>, k: nat): nat
    requires Within(g, objs) && k <= |objs|
  {
    |Held(g, objs[..k])|
  }

  lemma OffsetNext(g: Heap, objs: seq<nat>, k: nat)
    requires Within(g, objs) && k < |objs|
    ensures Offset(g, objs, k + 1) == Offset(g, objs, k) + |g[objs[k]].kids|
  {
    assert objs[..k + 1] == objs[..k] + [objs[k]];
    HeldConcat(g, objs[..k], [objs[k]]);
    assert [objs[k]][1..] == [];
  }

  lemma {:induction false} OffsetsRise(g: Heap, objs: seq<nat>, k: nat, l: nat)
    requires Within(g, objs) && k <= l <= |objs|
    ensures Offset(g, objs, k) <= Offset(g, objs, l)
    decreases l - k
  {
    if k < l {
      OffsetsRise(g, objs, k, l - 1);
      OffsetNext(g, objs, l - 1);
    }
  }

  lemma HeldAt(g: Heap, objs: seq<nat>, k: nat, i: nat)
    requires Within(g, objs) && k < |objs| && i < |g[objs[k]].kids|
    ensures var o := Offset(g, objs, k) + i; o < |Held(g, objs)| && Held(g, objs)[o] == g[objs[k]].kids[i]
  {
    assert objs == objs[..k] + ([objs[k]] + objs[k + 1..]);
    HeldConcat(g, objs[..k], [objs[k]] + objs[k + 1..]);
    HeldConcat(g, [objs[k]], objs[k + 1..]);
    assert [objs[k]][1..] == [];
  }

  lemma {:induction false} WhereHeld(g: Heap, objs: seq<nat>, o: nat) returns (k: nat, i: nat)
    requires Within(g, objs) && o < |Held(g, objs)|
    ensures k < |objs| && i < |g[objs[k]].kids| && o == Offset(g, objs, k) + i
    ensures g[objs[k]].kids[i] == Held(g, objs)[o]
  {
    var first := |g[objs[0]].kids|;
    if o < first {
      k, i := 0, o;
      assert objs[..0] == [];
    } else {
      k, i := WhereHeld(g, objs[1..], o - first);
      assert objs[1..][..k] == objs[..k + 1][1..];
      k := k + 1;
    }
  }

  lemma PlacesApart(g: Heap, objs: seq<nat>, k: nat, i: nat, l: nat, j: nat)
    requires Within(g, objs) && k < |objs| && l < |objs| && i < |g[objs[k]].kids| && j < |g[objs[l]].kids|
    requires Offset(g, objs, k) + i == Offset(g, objs, l) + j
    ensures k == l && i == j
  {
    OffsetNext(g, objs, k);
    OffsetNext(g, objs, l);
    if k < l {
      OffsetsRise(g, objs, k + 1, l);
    } else if l < k {
      OffsetsRise(g, objs, l + 1, k);
    }
  }

  // ----- what is written twice is held in two places

  /** Where a place is among the roots and all that written objects hold. */
  lemma PositionOf(g: Heap, roots: seq<nat>, objs: seq<nat>, x: nat, p: Place) returns (o: nat)
    requires Within(g, objs) && IsAt(g, roots, x, p) && (p.Kid? ==> p.holder in objs)
    ensures var all := roots + Held(g, objs); o < |all| && all[o] == x
    ensures match p
            case Root(i) => o == i
            case Kid(holder, i) =>
              exists k :: 0 <= k < |objs| && objs[k] == holder && o == |roots| + (Offset(g, objs, k) + i)
  {
    match p
    case Root(i) => o := i;
    case Kid(holder, i) =>
      var k :| 0 <= k < |objs| && objs[k] == holder;
      HeldAt(g, objs, k, i);
      o := |roots| + (Offset(g, objs, k) + i);
  }

  lemma TwoPlaces(g: Heap, roots: seq<nat>, objs: seq<nat>, x: nat, p: Place, q: Place)
    requires Within(g, objs) && (forall y :: Reached(g, roots, y) ==> y in objs)
    requires IsAt(g, roots, x, p) && IsAt(g, roots, x, q) && p != q
    ensures Count(roots, x) + Count(Held(g, objs), x) >= 2
  {
    var all := roots + Held(g, objs);
    var a := PositionOf(g, roots, objs, x, p);
    var b := PositionOf(g, roots, objs, x, q);
    if a == b && p.Kid? && q.Kid? {
      var k :| 0 <= k < |objs| && objs[k] == p.holder && a == |roots| + (Offset(g, objs, k) + p.i);
      var l :| 0 <= l < |objs| && objs[l] == q.holder && b == |roots| + (Offset(g, objs, l) + q.i);
      PlacesApart(g, objs, k, p.i, l, q.i);
    }
    assert a != b;
    if a < b {
      TwoOfThem(all, a, b);
    } else {
      TwoOfThem(all, b, a);
    }
    CountConcat(roots, Held(g, objs), x);
  }

  lemma OnceMeansHeldOnce(g: Heap, roots: seq<nat>, objs: seq<nat>, x: nat)
    requires Within(g, objs) && (forall y :: Reached(g, roots, y) ==> y in objs)
    requires Count(roots, x) + Count(Held(g, objs), x) <= 1
    ensures HeldOnce(g, roots, x)
  {
    forall p, q | IsAt(g, roots, x, p) && IsAt(g, roots, x, q) ensures p == q {
      if p != q {
        TwoPlaces(g, roots, objs, x, p, q);
      }
    }
  }

  lemma PlaceAt(g: Heap, roots: seq<nat>, objs: seq<nat>, x: nat, o: nat) returns (p: Place, k: nat)
    requires Within(g, objs) && AllReached(g, roots, objs)
    requires o < |roots + Held(g, objs)| && (roots + Held(g, objs))[o] == x
    ensures IsAt(g, roots, x, p)
    ensures match p
            case Root(i) => o == i
            case Kid(holder, i) => k < |objs| && objs[k] == holder && o == |roots| + (Offset(g, objs, k) + i)
  {
    if o < |roots| {
      p, k := Root(o), 0;
    } else {
      var i;
      k, i := WhereHeld(g, objs, o - |roots|);
      p := Kid(objs[k], i);
    }
  }

  /** What is met twice but held once is held by an object that was written twice. */
  lemma HolderTwice(g: Heap, roots: seq<nat>, objs: seq<nat>, x: nat) returns (holder: nat)
    requires Within(g, objs) && AllReached(g, roots, objs) && HeldOnce(g, roots, x)
    requires Count(roots, x) + Count(Held(g, objs), x) >= 2
    ensures Reached(g, roots, holder) && Holds(g)(holder, x) && Count(objs, holder) >= 2
  {
    CountConcat(roots, Held(g, objs), x);
    var a, b := WhereTwoAre(roots + Held(g, objs), x);
    var p, k := PlaceAt(g, roots, objs, x, a);
    var q, l := PlaceAt(g, roots, objs, x, b);
    assert p == q && p.Kid? && k != l;
    holder := p.holder;
    if k < l {
      TwoOfThem(objs, k, l);
    } else {
      TwoOfThem(objs, l, k);
    }
  }

  lemma {:induction false} NoneTwice(g: Heap, announced: set<nat>, roots: seq<nat>, objs: seq<nat>, x: nat,
                                     path: set<nat>)
    requires Closed(g) && Within(g, objs) && AllReached(g, roots, objs) && NoBareRing(g, announced, roots)
    requires forall y :: Reached(g, roots, y) && y !in announced ==>
               HeldOnce(g, roots, y) && Count(roots, y) + Count(Held(g, objs), y) == Count(objs, y)
    requires forall y :: y in announced ==> Count(objs, y) <= 1
    requires x < |g| && Reached(g, roots, x) && (forall q :: q in path ==> Leads(Bare(g, announced), x, q))
    ensures Count(objs, x) <= 1
    decreases |Numbers(0, |g|) - path|
  {
    if Count(objs, x) >= 2 {
      assert x !in path;
      var holder := HolderTwice(g, roots, objs, x);
      assert holder !in announced;
      forall q | q in path + {x} ensures Leads(Bare(g, announced), holder, q) {
        Prepend(Bare(g, announced), holder, x, q);
      }
      assert Numbers(0, |g|) - (path + {x}) == (Numbers(0, |g|) - path) - {x};
      assert x in Numbers(0, |g|) - path;
      NoneTwice(g, announced, roots, objs, holder, path + {x});
    }
  }

  // ----- same shape

  /** `origin` maps the objects of `heap` one to one to objects of `g`, and references to references. */
  ghost predicate Embeds(heap: Heap, g: Heap, origin: seq<nat>) {
    && |heap| == |origin| && Distinct(origin)
    && forall k :: 0 <= k < |heap| ==>
         && origin[k] < |g| && heap[k].tag == g[origin[k]].tag && |heap[k].kids| == |g[origin[k]].kids|
         && forall i :: 0 <= i < |heap[k].kids| ==>
              heap[k].kids[i] < |origin| && origin[heap[k].kids[i]] == g[origin[k]].kids[i]
  }

  /** The objects read are, one to one and reference by reference, the objects written, and `obs` stand for `xs`. */
  ghost predicate SameShape(g: Heap, xs: seq<nat>, heap: Heap, obs: seq<nat>, origin: seq<nat>) {
    && Embeds(heap, g, origin) && |obs| == |xs|
    && forall i :: 0 <= i < |xs| ==> obs[i] < |origin| && origin[obs[i]] == xs[i]
  }

  lemma {:induction false} DistinctCounts(s: seq<nat>)
    ensures Distinct(s) <==> forall x: nat :: Count(s, x) <= 1
  {
    forall x: nat | Count(s, x) >= 2 ensures !Distinct(s) {
      var i, j := WhereTwoAre(s, x);
    }
    forall i, j | 0 <= i < j < |s| && s[i] == s[j] ensures Count(s, s[i]) >= 2 {
      TwoOfThem(s, i, j);
    }
  }

  /** In the same shape everything that can be reached has its object. */
  lemma {:induction false} ShapeCovers(g: Heap, xs: seq<nat>, heap: Heap, obs: seq<nat>, origin: seq<nat>, w: seq<nat>)
    requires SameShape(g, xs, heap, obs, origin)
    requires |w| > 0 && w[0] in xs && forall i :: 0 <= i < |w| - 1 ==> Holds(g)(w[i], w[i + 1])
    ensures w[|w| - 1] in origin
    decreases |w|
  {
    if |w| == 1 {
      var i :| 0 <= i < |xs| && xs[i] == w[0];
      assert origin[obs[i]] == xs[i];
    } else {
      var (x, y) := (w[|w| - 2], w[|w| - 1]);
      ShapeCovers(g, xs, heap, obs, origin, w[..|w| - 1]);
      assert Holds(g)(w[|w| - 2], w[|w| - 2 + 1]);
      var k :| 0 <= k < |origin| && origin[k] == x;
      var i :| 0 <= i < |g[x].kids| && g[x].kids[i] == y;
      assert origin[heap[k].kids[i]] == g[origin[k]].kids[i];
    }
  }

  lemma ShapeCoversReached(g: Heap, xs: seq<nat>, heap: Heap, obs: seq<nat>, origin: seq<nat>, x: nat)
    requires SameShape(g, xs, heap, obs, origin) && Reached(g, xs, x)
    ensures x in origin
  {
    if x in xs {
      ShapeCovers(g, xs, heap, obs, origin, [x]);
    } else {
      var r :| r in xs && Leads(Holds(g), r, x);
      var w :| Walk(Holds(g), w) && w[0] == r && w[|w| - 1] == x;
      ShapeCovers(g, xs, heap, obs, origin, w);
    }
  }

  /** Copies of objects written once have the shape of the original, if nothing was taken for anything else. */
  lemma CopiesEmbed(g: Heap, taken: set<(nat, nat)>, heap: Heap, origin: seq<nat>)
    requires AllCopied(g, taken, heap, origin) && Distinct(origin) && forall x, y :: (x, y) in taken ==> x == y
    ensures Embeds(heap, g, origin)
  {
    forall k | 0 <= k < |heap|
      ensures origin[k] < |g| && heap[k].tag == g[origin[k]].tag && |heap[k].kids| == |g[origin[k]].kids|
      ensures forall i :: 0 <= i < |heap[k].kids| ==>
                heap[k].kids[i] < |origin| && origin[heap[k].kids[i]] == g[origin[k]].kids[i]
    {
      assert Copied(g, taken, heap, origin, k);
      forall i | 0 <= i < |heap[k].kids|
        ensures heap[k].kids[i] < |origin| && origin[heap[k].kids[i]] == g[origin[k]].kids[i]
      {
        assert StandsFor(taken, origin, heap[k].kids[i], g[origin[k]].kids[i]);
      }
    }
  }

  /** No object is written twice exactly if each one that is not announced is held once. */
  lemma WrittenOnceIffHeldOnce(g: Heap, mode: Mode, xs: seq<nat>, depth: nat)
    requires Closed(g) && Within(g, xs) && WriteAll(g, mode, xs, [], depth).Some? && Separate(mode)
    ensures Distinct(WriteAll(g, mode, xs, [], depth).value.origin) <==>
            forall x :: Reached(g, xs, x) && x !in mode.announced ==> HeldOnce(g, xs, x)
  {
    var origin := WriteAll(g, mode, xs, [], depth).value.origin;
    EndedMeansCut(g, mode, xs, depth);
    WritesAllReached(g, mode, xs, xs, [], depth);
    forall x | Reached(g, xs, x) ensures x in origin {
      AllWritten(g, mode, xs, depth, x);
    }
    forall y | y !in mode.announced
      ensures Within(g, origin) && Count(xs, y) + Count(Held(g, origin), y) == Count(origin, y)
    {
      AllWrittenAsOftenAsMet(g, mode, xs, [], depth, y);
    }
    forall y | y in mode.announced ensures Count(origin, y) <= 1 {
      AllAnnouncedOnce(g, mode, xs, [], depth, y);
    }
    WrittenWithin(g, xs, origin);
    OnceIffHeldOnce(g, mode.announced, xs, origin);
  }

  lemma OnceIffHeldOnce(g: Heap, announced: set<nat>, xs: seq<nat>, origin: seq<nat>)
    requires Closed(g) && Within(g, origin) && AllReached(g, xs, origin) && NoBareRing(g, announced, xs)
    requires forall x :: Reached(g, xs, x) ==> x in origin
    requires forall y :: y !in announced ==> Count(xs, y) + Count(Held(g, origin), y) == Count(origin, y)
    requires forall y :: y in announced ==> Count(origin, y) <= 1
    ensures Distinct(origin) <==> forall x :: Reached(g, xs, x) && x !in announced ==> HeldOnce(g, xs, x)
  {
    DistinctCounts(origin);
    if forall x :: Reached(g, xs, x) && x !in announced ==> HeldOnce(g, xs, x) {
      forall x: nat ensures Count(origin, x) <= 1 {
        if x in origin {
          NoneTwice(g, announced, xs, origin, x, {});
        }
      }
    }
    forall x | Distinct(origin) && Reached(g, xs, x) && x !in announced ensures HeldOnce(g, xs, x) {
      OnceMeansHeldOnce(g, xs, origin, x);
    }
  }

  lemma WrittenWithin(g: Heap, roots: seq<nat>, objs: seq<nat>)
    requires Closed(g) && Within(g, roots) && AllReached(g, roots, objs)
    ensures Within(g, objs)
  {
    forall i | 0 <= i < |objs| ensures objs[i] < |g| {
      ReachedInside(g, roots, objs[i]);
    }
  }

  lemma AllWritten(g: Heap, mode: Mode, xs: seq<nat>, depth: nat, x: nat)
    requires Closed(g) && Within(g, xs) && WriteAll(g, mode, xs, [], depth).Some? && Separate(mode)
    requires Reached(g, xs, x)
    ensures x in WriteAll(g, mode, xs, [], depth).value.origin
  {
    var w := [x];
    if x !in xs {
      var r :| r in xs && Leads(Holds(g), r, x);
      w :| Walk(Holds(g), w) && w[0] == r && w[|w| - 1] == x;
    }
    WalkWritten(g, mode, xs, depth, w);
  }

  // ----- whatever is taken for something else

  function Never(announced: set<nat>): Mode {
    Mode(announced, (x: nat, y: nat) => No)
  }

  lemma {:induction false} FindNever(mode: Mode, refs: seq<nat>, x: nat)
    requires var found := Find(mode, refs, x); found.Missing? || (found.At? && refs[found.id] == x)
    ensures Find(Never(mode.announced), refs, x) == Find(mode, refs, x)
  {
    if refs != [] && refs[0] != x {
      FindNever(mode, refs[1..], x);
    }
  }

  ghost predicate Itself(taken: set<(nat, nat)>) {
    forall x, y :: (x, y) in taken ==> x == y
  }

  /** Where nothing was taken for anything else it made no difference that it could have been. */
  lemma {:induction false} WriteNever(g: Heap, mode: Mode, x: nat, refs: seq<nat>, depth: nat)
    requires Closed(g) && x < |g| && Write(g, mode, x, refs, depth).Some?
    requires Itself(Write(g, mode, x, refs, depth).value.taken)
    ensures Write(g, Never(mode.announced), x, refs, depth) == Write(g, mode, x, refs, depth)
    decreases depth, 0
  {
    var found := Find(mode, refs, x);
    if found.At? {
      assert (x, refs[found.id]) in Write(g, mode, x, refs, depth).value.taken;
    } else {
      WriteAllNever(g, mode, g[x].kids, if x in mode.announced then refs + [x] else refs, depth - 1);
    }
    FindNever(mode, refs, x);
  }

  lemma {:induction false} WriteAllNever(g: Heap, mode: Mode, xs: seq<nat>, refs: seq<nat>, depth: nat)
    requires Closed(g) && Within(g, xs) && WriteAll(g, mode, xs, refs, depth).Some?
    requires Itself(WriteAll(g, mode, xs, refs, depth).value.taken)
    ensures WriteAll(g, Never(mode.announced), xs, refs, depth) == WriteAll(g, mode, xs, refs, depth)
    decreases depth, |xs| + 1
  {
    if xs != [] {
      WriteNever(g, mode, xs[0], refs, depth);
      WriteAllNever(g, mode, xs[1..], Write(g, mode, xs[0], refs, depth).value.refs, depth);
    }
  }

  /** In the same shape everything was taken for itself. */
  lemma ShapeTakesItself(g: Heap, xs: seq<nat>, r: Read, w: Written)
    requires Closed(g) && Within(g, xs) && r.obs.Some? && SameShape(g, xs, r.heap, r.obs.value, w.origin)
    requires Spotted(g, w.taken, w.origin, Reading(r.heap, r.obs.value, xs, 0))
    ensures Itself(w.taken)
  {
    var q := Reading(r.heap, r.obs.value, xs, 0);
    forall x, y | (x, y) in w.taken ensures x == y {
      assert TakenAt(g, w.origin, q, x, y);
      var s, k: nat :| ReadAt(g, w.origin, q, s, x, k) && k < |w.origin| && w.origin[k] == y;
      if s.Inside? {
        assert w.origin[r.heap[s.k].kids[s.i]] == g[w.origin[s.k]].kids[s.i];
      } else {
        assert w.origin[r.obs.value[s.i]] == xs[s.i];
      }
    }
  }

  lemma ShapeIfWrittenOnce(g: Heap, xs: seq<nat>, r: Read, w: Written)
    requires Closed(g) && Within(g, xs) && r.obs.Some? && |r.obs.value| == |xs|
    requires AllCopied(g, w.taken, r.heap, w.origin)
    requires Spotted(g, w.taken, w.origin, Reading(r.heap, r.obs.value, xs, 0))
    requires forall i :: 0 <= i < |xs| ==> StandsFor(w.taken, w.origin, r.obs.value[i], xs[i])
    ensures SameShape(g, xs, r.heap, r.obs.value, w.origin) <==> Distinct(w.origin) && Itself(w.taken)
  {
    if SameShape(g, xs, r.heap, r.obs.value, w.origin) {
      ShapeTakesItself(g, xs, r, w);
    }
    if Distinct(w.origin) && Itself(w.taken) {
      CopiesEmbed(g, w.taken, r.heap, w.origin);
      forall i | 0 <= i < |xs| ensures r.obs.value[i] < |w.origin| && w.origin[r.obs.value[i]] == xs[i] {
        assert StandsFor(w.taken, w.origin, r.obs.value[i], xs[i]);
      }
    }
  }

  /**
   What is read has the shape of what was written exactly if each object that is not announced is held in one place
   only, and nothing was taken for anything else.
   */
  lemma SameShapeIff(g: Heap, mode: Mode, xs: seq<nat>, depth: nat)
    requires Closed(g) && Within(g, xs) && WriteAll(g, mode, xs, [], depth).Some?
    ensures var w := WriteAll(g, mode, xs, [], depth).value;
            var r := ReadObjects(|xs|, w.tokens, [], []);
            && r.obs.Some?
            && (SameShape(g, xs, r.heap, r.obs.value, w.origin) <==>
                && (forall x :: Reached(g, xs, x) && x !in mode.announced ==> HeldOnce(g, xs, x))
                && Itself(w.taken))
  {
    var w := WriteAll(g, mode, xs, [], depth).value;
    ReadsFromNothing(g, mode, xs, depth);
    ShapeIfWrittenOnce(g, xs, ReadObjects(|xs|, w.tokens, [], []), w);
    if Itself(w.taken) {
      WriteAllNever(g, mode, xs, [], depth);
      WrittenOnceIffHeldOnce(g, Never(mode.announced), xs, depth);
    }
  }
}
