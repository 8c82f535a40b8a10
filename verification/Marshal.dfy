/**
 Writing an object graph to a stream of tokens and reading it back. Objects that contain themselves, types and, on
 demand, immutable objects are announced by an id before their content, so that later occurrences can refer to them.
 */
module Marshal {
  import opened Common
  import opened ObjectGraph

  // ----- what is written

  datatype Token = Put(id: nat) | Get(id: nat) | Node(tag: int, arity: nat)

  /** What the deep comparison of two objects comes to; if it fails, that is taken for No. */
  datatype Answer = Yes | No | Endless

  /** How a graph is written: which objects are announced, and what the deep comparison says. */
  datatype Mode = Mode(announced: set<nat>, equal: (nat, nat) -> Answer)

  datatype Found = At(id: nat) | Missing | NoEnd

  /** The id of the first registered object that is the same as `x` or deeply equal to it. */
  function Find(mode: Mode, refs: seq<nat>, x: nat): (found: Found)
    ensures found.At? ==> found.id < |refs| && (refs[found.id] == x || mode.equal(x, refs[found.id]) == Yes)
    ensures found.At? ==> forall i :: 0 <= i < found.id ==> refs[i] != x && mode.equal(x, refs[i]) == No
    ensures found.Missing? <==> forall i :: 0 <= i < |refs| ==> refs[i] != x && mode.equal(x, refs[i]) == No
    ensures found.NoEnd? ==> exists r :: r in refs && r != x && mode.equal(x, r) == Endless
  {
    if refs == [] then Missing
    else if refs[0] == x then At(0)
    else
      match mode.equal(x, refs[0])
      case Yes => At(0)
      case Endless => NoEnd
      case No => Later(Find(mode, refs[1..], x), 1)
  }

  function Later(found: Found, n: nat): Found {
    if found.At? then At(found.id + n) else found
  }

  /**
   The tokens, the registered objects afterwards, the objects whose content was written, in that order, and for which
   object each one that was met was taken: for itself, or for a registered one.
   */
  datatype Written = Written(tokens: seq<Token>, refs: seq<nat>, origin: seq<nat>, taken: set<(nat, nat)>)

  function Head(put: Option<nat>, ob: Obj): seq<Token> {
    (if put.Some? then [Put(put.value)] else []) + [Node(ob.tag, |ob.kids|)]
  }

  function NewWritten(head: seq<Token>, x: nat, kids: Written): Written {
    Written(head + kids.tokens, kids.refs, [x] + kids.origin, {(x, x)} + kids.taken)
  }

  function BothWritten(a: Written, b: Written): Written {
    Written(a.tokens + b.tokens, b.refs, a.origin + b.origin, a.taken + b.taken)
  }

  /** None if the recursion goes deeper than `depth` or a comparison does not end. */
  function Write(g: Heap, mode: Mode, x: nat, refs: seq<nat>, depth: nat): (w: Option<Written>)
    requires Closed(g) && x < |g|
    decreases depth, 0
  {
    var found := Find(mode, refs, x);
    if found.At? then Some(Written([Get(found.id)], refs, [], {(x, refs[found.id])}))
    else if found.NoEnd? || depth == 0 then None
    else
      var head := Head(if x in mode.announced then Some(|refs|) else None, g[x]);
      var known := if x in mode.announced then refs + [x] else refs;
      var rest := WriteAll(g, mode, g[x].kids, known, depth - 1);
      if rest.None? then None
      else Some(NewWritten(head, x, rest.value))
  }

  function WriteAll(g: Heap, mode: Mode, xs: seq<nat>, refs: seq<nat>, depth: nat): (w: Option<Written>)
    requires Closed(g) && Within(g, xs)
    decreases depth, |xs| + 1
  {
    if xs == [] then Some(Written([], refs, [], {}))
    else
      var first := Write(g, mode, xs[0], refs, depth);
      if first.None? then None
      else
        var rest := WriteAll(g, mode, xs[1..], first.value.refs, depth);
        if rest.None? then None else Some(BothWritten(first.value, rest.value))
  }

  // ----- what is read

  /** An id defined by the stream, and the object it stands for. */
  datatype Ref = Ref(id: nat, ob: nat)

  /** What the first reference with the id refers to; there is none exactly if the id was never defined. */
  function GetRef(refs: seq<Ref>, id: nat): (ob: Option<nat>)
    ensures ob.None? <==> forall r :: r in refs ==> r.id != id
    ensures ob.Some? ==>
              exists i :: 0 <= i < |refs| && refs[i] == Ref(id, ob.value) && forall j :: 0 <= j < i ==> refs[j].id != id
  {
    if refs == [] then None
    else if refs[0].id == id then Some(refs[0].ob)
    else GetRef(refs[1..], id)
  }

  /** Without the youngest reference to `ob`. */
  function PopRef(refs: seq<Ref>, ob: nat): (r: seq<Ref>) {
    if refs == [] then []
    else if refs[|refs| - 1].ob == ob then refs[..|refs| - 1]
    else PopRef(refs[..|refs| - 1], ob) + [refs[|refs| - 1]]
  }

  /** `obs` are the objects read, None after an error; then what is left of the stream, the ids and the heap. */
  datatype Read = Read(obs: Option<seq<nat>>, tokens: seq<Token>, refs: seq<Ref>, heap: Heap)

  function Push(refs: seq<Ref>, put: Option<nat>, ob: nat): seq<Ref> {
    if put.Some? then refs + [Ref(put.value, ob)] else refs
  }

  function ReadObject(tokens: seq<Token>, refs: seq<Ref>, heap: Heap): (r: Read)
    ensures |r.tokens| <= |tokens| && (r.obs.Some? ==> |r.obs.value| == 1 && refs <= r.refs)
    decreases |tokens|, 1
  {
    if tokens == [] then Read(None, [], refs, heap)
    else if tokens[0].Put? then ReadBody(tokens[1..], Some(tokens[0].id), refs, heap)
    else ReadBody(tokens, None, refs, heap)
  }

  /** An object is registered as soon as it is allocated, and taken out again if its content cannot be read. */
  function ReadBody(tokens: seq<Token>, put: Option<nat>, refs: seq<Ref>, heap: Heap): (r: Read)
    ensures |r.tokens| <= |tokens| && (r.obs.Some? ==> |r.obs.value| == 1 && refs <= r.refs)
    decreases |tokens|, 0
  {
    if tokens == [] || tokens[0].Put? then Read(None, tokens, refs, heap)
    else
      match tokens[0]
      case Get(id) =>
        var ob := GetRef(refs, id);
        if ob.None? then Read(None, tokens[1..], refs, heap)
        else Read(Some([ob.value]), tokens[1..], Push(refs, put, ob.value), heap)
      case Node(tag, arity) =>
        var ob := |heap|;
        var r := ReadObjects(arity, tokens[1..], Push(refs, put, ob), heap + [Obj(tag, [])]);
        if r.obs.None? || |r.heap| <= ob then r.(obs := None, refs := if put.Some? then PopRef(r.refs, ob) else r.refs)
        else r.(obs := Some([ob]), heap := r.heap[ob := Obj(tag, r.obs.value)])
  }

  function ReadObjects(n: nat, tokens: seq<Token>, refs: seq<Ref>, heap: Heap): (r: Read)
    ensures |r.tokens| <= |tokens| && (r.obs.Some? ==> |r.obs.value| == n && refs <= r.refs)
    decreases |tokens|, 2, n
  {
    if n == 0 then Read(Some([]), tokens, refs, heap)
    else
      var first := ReadObject(tokens, refs, heap);
      if first.obs.None? then first
      else
        var rest := ReadObjects(n - 1, first.tokens, first.refs, first.heap);
        if rest.obs.None? then rest else rest.(obs := Some(first.obs.value + rest.obs.value))
  }

  // ----- reading that fails

  lemma {:induction false} PopRefExactly(refs: seq<Ref>, ob: nat, i: nat)
    requires i < |refs| && refs[i].ob == ob && forall j :: i < j < |refs| ==> refs[j].ob != ob
    ensures PopRef(refs, ob) == refs[..i] + refs[i + 1..]
    decreases |refs|
  {
    if i < |refs| - 1 {
      PopRefExactly(refs[..|refs| - 1], ob, i);
    }
  }

  /** The youngest reference to an object. */
  lemma {:induction false} Youngest(refs: seq<Ref>, ob: nat, k: nat) returns (i: nat)
    requires k < |refs| && refs[k].ob == ob
    ensures k <= i < |refs| && refs[i].ob == ob && forall j :: i < j < |refs| ==> refs[j].ob != ob
    decreases |refs|
  {
    if refs[|refs| - 1].ob == ob {
      i := |refs| - 1;
    } else {
      i := Youngest(refs[..|refs| - 1], ob, k);
      assert forall j :: i < j < |refs| - 1 ==> refs[j] == refs[..|refs| - 1][j];
    }
  }

  ghost predicate RefersBelow(refs: seq<Ref>, n: nat) {
    forall r :: r in refs ==> r.ob < n
  }

  /** No id is defined for an object that is only referred to; the writer never does that. */
  ghost predicate NoAlias(tokens: seq<Token>) {
    forall i :: 0 <= i < |tokens| - 1 && tokens[i].Put? ==> !tokens[i + 1].Get?
  }

  /** Also if it fails, reading leaves the references there were, and adds none to older objects without an alias. */
  ghost predicate KeepsRefs(tokens: seq<Token>, refs: seq<Ref>, heap: Heap, r: Read) {
    && |heap| <= |r.heap| && refs <= r.refs && RefersBelow(r.refs, |r.heap|)
    && (NoAlias(tokens) ==> NoAlias(r.tokens) && forall k :: |refs| <= k < |r.refs| ==> r.refs[k].ob >= |heap|)
  }

  lemma NoAliasBehind(tokens: seq<Token>)
    requires NoAlias(tokens) && tokens != []
    ensures NoAlias(tokens[1..])
  {
    forall i | 0 <= i < |tokens[1..]| - 1 && tokens[1..][i].Put? ensures !tokens[1..][i + 1].Get? {
      assert tokens[i + 1].Put? ==> !tokens[i + 1 + 1].Get?;
    }
  }

  lemma {:induction false} ObjectKeepsRefs(tokens: seq<Token>, refs: seq<Ref>, heap: Heap)
    requires RefersBelow(refs, |heap|)
    ensures KeepsRefs(tokens, refs, heap, ReadObject(tokens, refs, heap))
    decreases |tokens|, 1
  {
    if tokens != [] && tokens[0].Put? {
      if NoAlias(tokens) {
        NoAliasBehind(tokens);
        assert |tokens| > 1 ==> !tokens[0 + 1].Get?;
      }
      BodyKeepsRefs(tokens[1..], Some(tokens[0].id), refs, heap);
    } else if tokens != [] {
      BodyKeepsRefs(tokens, None, refs, heap);
    }
  }

  lemma {:induction false} BodyKeepsRefs(tokens: seq<Token>, put: Option<nat>, refs: seq<Ref>, heap: Heap)
    requires RefersBelow(refs, |heap|)
    ensures var r := ReadBody(tokens, put, refs, heap);
            && |heap| <= |r.heap| && refs <= r.refs && RefersBelow(r.refs, |r.heap|)
            && (NoAlias(tokens) && (put.Some? && tokens != [] ==> !tokens[0].Get?) ==>
                  NoAlias(r.tokens) && forall k :: |refs| <= k < |r.refs| ==> r.refs[k].ob >= |heap|)
    decreases |tokens|, 0
  {
    if tokens == [] || tokens[0].Put? {
      return;
    }
    if NoAlias(tokens) {
      NoAliasBehind(tokens);
    }
    match tokens[0]
    case Get(id) =>
      var ob := GetRef(refs, id);
      if ob.Some? {
        var i :| 0 <= i < |refs| && refs[i] == Ref(id, ob.value);
        assert refs[i] in refs;
      }
    case Node(tag, arity) =>
      var (ob, known) := (|heap|, Push(refs, put, |heap|));
      ObjectsKeepRefs(arity, tokens[1..], known, heap + [Obj(tag, [])]);
      var r := ReadObjects(arity, tokens[1..], known, heap + [Obj(tag, [])]);
      if r.obs.None? && put.Some? {
        PopKeepsRefs(refs, r.refs, Ref(put.value, ob), |r.heap|, NoAlias(tokens));
      }
  }

  /** Taking out the youngest reference to an object behind `refs` leaves those. */
  lemma PopKeepsRefs(refs: seq<Ref>, now: seq<Ref>, own: Ref, n: nat, unaliased: bool)
    requires refs + [own] <= now && RefersBelow(now, n)
    requires unaliased ==> forall k :: |refs| < k < |now| ==> now[k].ob > own.ob
    ensures var left := PopRef(now, own.ob);
            && refs <= left && RefersBelow(left, n)
            && (unaliased ==> forall k :: |refs| <= k < |left| ==> left[k].ob >= own.ob)
  {
    assert now[|refs|] == own;
    var i := Youngest(now, own.ob, |refs|);
    PopRefExactly(now, own.ob, i);
  }

  lemma {:induction false} ObjectsKeepRefs(n: nat, tokens: seq<Token>, refs: seq<Ref>, heap: Heap)
    requires RefersBelow(refs, |heap|)
    ensures KeepsRefs(tokens, refs, heap, ReadObjects(n, tokens, refs, heap))
    decreases |tokens|, 2, n
  {
    if n > 0 {
      ObjectKeepsRefs(tokens, refs, heap);
      var first := ReadObject(tokens, refs, heap);
      if first.obs.Some? {
        ObjectsKeepRefs(n - 1, first.tokens, first.refs, first.heap);
      }
    }
  }

  /**
   A failed read of an object that was announced leaves the references there were, and no reference to that object,
   exactly if no second id was defined for the object inside it.
   */
  lemma FailedReadForgets(id: nat, tag: int, arity: nat, content: seq<Token>, refs: seq<Ref>, heap: Heap)
    requires RefersBelow(refs, |heap|)
    requires ReadObjects(arity, content, refs + [Ref(id, |heap|)], heap + [Obj(tag, [])]).obs.None?
    ensures var inside := ReadObjects(arity, content, refs + [Ref(id, |heap|)], heap + [Obj(tag, [])]).refs;
            var r := ReadBody([Node(tag, arity)] + content, Some(id), refs, heap);
            && r.obs.None? && refs <= r.refs
            && ((forall q :: q in r.refs ==> q.ob != |heap|) <==>
                (forall k :: |refs| < k < |inside| ==> inside[k].ob != |heap|))
    ensures NoAlias(content) ==>
              forall q :: q in ReadBody([Node(tag, arity)] + content, Some(id), refs, heap).refs ==> q.ob != |heap|
  {
    var (own, tokens) := (Ref(id, |heap|), [Node(tag, arity)] + content);
    assert tokens[1..] == content;
    ObjectsKeepRefs(arity, content, refs + [own], heap + [Obj(tag, [])]);
    var inside := ReadObjects(arity, content, refs + [own], heap + [Obj(tag, [])]).refs;
    ForgottenIff(refs, inside, own);
  }

  lemma ForgottenIff(refs: seq<Ref>, now: seq<Ref>, own: Ref)
    requires refs + [own] <= now && RefersBelow(refs, own.ob)
    ensures var left := PopRef(now, own.ob);
            && refs <= left
            && ((forall q :: q in left ==> q.ob != own.ob) <==> forall k :: |refs| < k < |now| ==> now[k].ob != own.ob)
  {
    assert now[|refs|] == own;
    var i := Youngest(now, own.ob, |refs|);
    PopRefExactly(now, own.ob, i);
    var left := PopRef(now, own.ob);
    if i > |refs| {
      assert left[|refs|] == own && own in left;
    } else {
      forall q | q in left ensures q.ob != own.ob {
        var j :| 0 <= j < |left| && left[j] == q;
        assert j < |refs| ==> left[j] == refs[j] && refs[j] in refs;
      }
    }
  }

  /** An object that defines a second id for itself is still referred to after reading it has failed. */
  lemma AliasStays(tag: int)
    ensures var r := ReadObject([Put(0), Node(tag, 2), Put(1), Get(0)], [], []);
            r.obs.None? && r.refs == [Ref(0, 0)] && r.tokens == []
  {
    var (known, heap) := ([Ref(0, 0)], [Obj(tag, [])]);
    assert [Put(1), Get(0)][1..] == [Get(0)] && [Get(0)][1..] == [];
    assert ReadBody([Get(0)], Some(1), known, heap) == Read(Some([0]), [], known + [Ref(1, 0)], heap);
    assert ReadObjects(1, [], known + [Ref(1, 0)], heap).obs.None?;
    assert ReadObjects(2, [Put(1), Get(0)], known, heap) == Read(None, [], known + [Ref(1, 0)], heap);
    assert [] + [Ref(0, 0)] == known && [] + heap == heap;
    assert [Node(tag, 2), Put(1), Get(0)][1..] == [Put(1), Get(0)];
    PopRefExactly(known + [Ref(1, 0)], 0, 1);
    assert [Put(0), Node(tag, 2), Put(1), Get(0)][1..] == [Node(tag, 2), Put(1), Get(0)];
  }

  // ----- reading what was written

  /** The object read as `ob` stands for `x`: it was made from what `x` was taken for. */
  predicate StandsFor(taken: set<(nat, nat)>, origin: seq<nat>, ob: nat, x: nat) {
    ob < |origin| && (x, origin[ob]) in taken
  }

  /** Object `k` has what the object it was made from has. */
  ghost predicate Copied(g: Heap, taken: set<(nat, nat)>, heap: Heap, origin: seq<nat>, k: nat)
    requires k < |heap| && k < |origin|
  {
    && origin[k] < |g|
    && heap[k].tag == g[origin[k]].tag
    && |heap[k].kids| == |g[origin[k]].kids|
    && forall i :: 0 <= i < |heap[k].kids| ==> StandsFor(taken, origin, heap[k].kids[i], g[origin[k]].kids[i])
  }

  /** Both sides know the same ids, for objects that correspond. */
  ghost predicate InStep(refs: seq<nat>, known: seq<Ref>, origin: seq<nat>) {
    && |known| == |refs|
    && forall i :: 0 <= i < |refs| ==> known[i].id == i && known[i].ob < |origin| && origin[known[i].ob] == refs[i]
  }

  /** A place where an object was read: among those asked for, or among those held by object `k`. */
  datatype Spot = Top(i: nat) | Inside(k: nat, i: nat)

  /** What was read, from object `first` on, for the objects `xs`. */
  datatype Reading = Reading(heap: Heap, obs: seq<nat>, xs: seq<nat>, first: nat)

  /** In place `s` object `k` was read, for `x`. */
  ghost predicate ReadAt(g: Heap, all: seq<nat>, q: Reading, s: Spot, x: nat, k: nat) {
    match s
    case Top(i) => i < |q.xs| && i < |q.obs| && q.xs[i] == x && q.obs[i] == k
    case Inside(j, i) =>
      && q.first <= j < |q.heap| && j < |all| && all[j] < |g|
      && i < |q.heap[j].kids| && i < |g[all[j]].kids| && q.heap[j].kids[i] == k && g[all[j]].kids[i] == x
  }

  /** Somewhere an object made from `y` was read for `x`. */
  ghost predicate TakenAt(g: Heap, all: seq<nat>, q: Reading, x: nat, y: nat) {
    exists s, k: nat :: ReadAt(g, all, q, s, x, k) && k < |all| && all[k] == y
  }

  /** Object `k` was read for what it was made from, by itself or in an older object. */
  ghost predicate BornAt(g: Heap, all: seq<nat>, q: Reading, k: nat)
    requires k < |all|
  {
    exists s :: ReadAt(g, all, q, s, all[k], k) && (s.Inside? ==> s.k < k)
  }

  /** All that was taken for something was read somewhere, and so was every object that was made. */
  ghost predicate Spotted(g: Heap, taken: set<(nat, nat)>, all: seq<nat>, q: Reading) {
    && (forall x, y :: (x, y) in taken ==> TakenAt(g, all, q, x, y))
    && (forall k :: q.first <= k < |q.heap| && k < |all| ==> BornAt(g, all, q, k))
  }

  /** The object that holds what was read is the first one, and it was read itself. */
  lemma SpotNode(g: Heap, taken: set<(nat, nat)>, all: seq<nat>, q: Reading, x: nat)
    requires q.first > 0 && q.first - 1 < |all| && q.first <= |q.heap| && all[q.first - 1] == x < |g|
    requires q.xs == g[x].kids && |q.obs| == |q.xs| && Spotted(g, taken, all, q)
    ensures var ob := q.first - 1;
            Spotted(g, {(x, x)} + taken, all, Reading(q.heap[ob := Obj(g[x].tag, q.obs)], [ob], [x], ob))
  {
    var ob := q.first - 1;
    var now := Reading(q.heap[ob := Obj(g[x].tag, q.obs)], [ob], [x], ob);
    forall s, y: nat, k: nat | ReadAt(g, all, q, s, y, k) ensures ReadAt(g, all, now, Into(ob, s), y, k) {
    }
    assert ReadAt(g, all, now, Top(0), x, ob);
    forall a, b | (a, b) in {(x, x)} + taken ensures TakenAt(g, all, now, a, b) {
      if (a, b) in taken {
        var s, k: nat :| ReadAt(g, all, q, s, a, k) && k < |all| && all[k] == b;
        assert ReadAt(g, all, now, Into(ob, s), a, k);
      }
    }
    forall k | now.first <= k < |now.heap| && k < |all| ensures BornAt(g, all, now, k) {
      if k > ob {
        assert BornAt(g, all, q, k);
        var s :| ReadAt(g, all, q, s, all[k], k) && (s.Inside? ==> s.k < k);
        assert ReadAt(g, all, now, Into(ob, s), all[k], k);
      }
    }
  }

  function Into(ob: nat, s: Spot): Spot {
    if s.Top? then Inside(ob, s.i) else s
  }

  /** The places of an object read before others. */
  lemma SpotBefore(g: Heap, taken: set<(nat, nat)>, all: seq<nat>, more: seq<nat>, q: Reading, now: Reading)
    requires Spotted(g, taken, all, q) && all <= more && q.heap <= now.heap && q.first == now.first
    requires |q.heap| == |all| && q.obs <= now.obs && q.xs <= now.xs
    ensures forall x, y :: (x, y) in taken ==> TakenAt(g, more, now, x, y)
    ensures forall k :: q.first <= k < |q.heap| ==> BornAt(g, more, now, k)
  {
    forall s, x: nat, k: nat | ReadAt(g, all, q, s, x, k) ensures ReadAt(g, more, now, s, x, k) {
    }
    forall x, y | (x, y) in taken ensures TakenAt(g, more, now, x, y) {
      var s, k: nat :| ReadAt(g, all, q, s, x, k) && k < |all| && all[k] == y;
      assert ReadAt(g, more, now, s, x, k);
    }
    forall k | q.first <= k < |q.heap| ensures BornAt(g, more, now, k) {
      assert BornAt(g, all, q, k);
      var s :| ReadAt(g, all, q, s, all[k], k) && (s.Inside? ==> s.k < k);
      assert ReadAt(g, more, now, s, more[k], k);
    }
  }

  function Behind(s: Spot): Spot {
    if s.Top? then Top(s.i + 1) else s
  }

  /** The places of objects read after one. */
  lemma SpotAfter(g: Heap, taken: set<(nat, nat)>, all: seq<nat>, q: Reading, ob: nat, x: nat, first: nat)
    requires Spotted(g, taken, all, q) && |q.heap| == |all| && first <= q.first
    ensures var now := Reading(q.heap, [ob] + q.obs, [x] + q.xs, first);
            && (forall a, b :: (a, b) in taken ==> TakenAt(g, all, now, a, b))
            && (forall k :: q.first <= k < |q.heap| ==> BornAt(g, all, now, k))
  {
    var now := Reading(q.heap, [ob] + q.obs, [x] + q.xs, first);
    forall s, y: nat, k: nat | ReadAt(g, all, q, s, y, k) ensures ReadAt(g, all, now, Behind(s), y, k) {
    }
    forall a, b | (a, b) in taken ensures TakenAt(g, all, now, a, b) {
      var s, k: nat :| ReadAt(g, all, q, s, a, k) && k < |all| && all[k] == b;
      assert ReadAt(g, all, now, Behind(s), a, k);
    }
    forall k | q.first <= k < |q.heap| ensures BornAt(g, all, now, k) {
      assert BornAt(g, all, q, k);
      var s :| ReadAt(g, all, q, s, all[k], k) && (s.Inside? ==> s.k < k);
      assert ReadAt(g, all, now, Behind(s), all[k], k);
    }
  }

  lemma {:induction false} GetRefAt(known: seq<Ref>, first: nat, id: nat)
    requires forall i :: 0 <= i < |known| ==> known[i].id == first + i
    requires first <= id < first + |known|
    ensures GetRef(known, id) == Some(known[id - first].ob)
    decreases |known|
  {
    if id > first {
      GetRefAt(known[1..], first + 1, id);
    }
  }

  /** What reading what `w` wrote comes to: objects for `xs`, made in step with what was written. */
  ghost predicate ReadsAs(g: Heap, w: Written, r: Read, rest: seq<Token>,
                          heap: Heap, origin: seq<nat>, xs: seq<nat>) {
    && |heap| == |origin| && r.obs.Some? && r.tokens == rest && |r.obs.value| == |xs|
    && |r.heap| == |heap| + |w.origin| && heap <= r.heap
    && InStep(w.refs, r.refs, origin + w.origin)
    && (forall i :: 0 <= i < |xs| ==> StandsFor(w.taken, origin + w.origin, r.obs.value[i], xs[i]))
    && (forall k :: |heap| <= k < |r.heap| ==> Copied(g, w.taken, r.heap, origin + w.origin, k))
    && Spotted(g, w.taken, origin + w.origin, Reading(r.heap, r.obs.value, xs, |heap|))
  }

  /** The tokens of an announced or unannounced object are taken apart again. */
  lemma ReadHead(put: Option<nat>, tag: int, arity: nat, tokens: seq<Token>, known: seq<Ref>, heap: Heap)
    ensures var head := (if put.Some? then [Put(put.value)] else []) + [Node(tag, arity)];
            ReadObject(head + tokens, known, heap) == ReadBody([Node(tag, arity)] + tokens, put, known, heap)
  {
    var node := [Node(tag, arity)];
    if put.Some? {
      assert ([Put(put.value)] + node + tokens)[1..] == node + tokens;
    } else {
      assert [] + node == node;
    }
  }

  lemma ReadNode(put: Option<nat>, tag: int, arity: nat, tokens: seq<Token>, known: seq<Ref>, heap: Heap)
    ensures var r := ReadObjects(arity, tokens, Push(known, put, |heap|), heap + [Obj(tag, [])]);
            r.obs.Some? && |r.heap| > |heap| ==>
              ReadBody([Node(tag, arity)] + tokens, put, known, heap)
                == r.(obs := Some([|heap|]), heap := r.heap[|heap| := Obj(tag, r.obs.value)])
  {
    assert ([Node(tag, arity)] + tokens)[1..] == tokens;
  }

  /** Filling in the object once its content is read. */
  lemma NodeReadsAs(g: Heap, x: nat, kids: Written, head: seq<Token>, r: Read, rest: seq<Token>,
                    heap: Heap, origin: seq<nat>)
    requires x < |g| && |heap| == |origin|
    requires ReadsAs(g, kids, r, rest, heap + [Obj(g[x].tag, [])], origin + [x], g[x].kids)
    ensures |r.heap| > |heap|
    ensures var done := r.(obs := Some([|heap|]), heap := r.heap[|heap| := Obj(g[x].tag, r.obs.value)]);
            ReadsAs(g, NewWritten(head, x, kids), done, rest, heap, origin, [x])
  {
    var (ob, all) := (|heap|, origin + [x] + kids.origin);
    assert origin + ([x] + kids.origin) == all;
    var now := r.heap[ob := Obj(g[x].tag, r.obs.value)];
    assert all[ob] == x;
    var taken := {(x, x)} + kids.taken;
    forall k | ob <= k < |now| ensures Copied(g, taken, now, all, k) {
      if k > ob {
        assert Copied(g, kids.taken, r.heap, all, k);
      } else {
        forall i | 0 <= i < |g[x].kids| ensures StandsFor(taken, all, r.obs.value[i], g[x].kids[i]) {
          assert StandsFor(kids.taken, all, r.obs.value[i], g[x].kids[i]);
        }
      }
    }
    assert heap <= now by {
      assert heap + [Obj(g[x].tag, [])] <= r.heap;
    }
    SpotNode(g, kids.taken, all, Reading(r.heap, r.obs.value, g[x].kids, ob + 1), x);
  }

  /** One object after the other. */
  lemma MoreReadAs(g: Heap, first: Written, others: Written, r: Read, q: Read,
                   rest: seq<Token>, heap: Heap, origin: seq<nat>, x: nat, xs: seq<nat>)
    requires ReadsAs(g, first, r, r.tokens, heap, origin, [x])
    requires ReadsAs(g, others, q, rest, r.heap, origin + first.origin, xs)
    ensures ReadsAs(g, BothWritten(first, others),
                    q.(obs := Some(r.obs.value + q.obs.value)), rest, heap, origin, [x] + xs)
  {
    var (all, taken) := (origin + first.origin + others.origin, first.taken + others.taken);
    assert origin + (first.origin + others.origin) == all;
    forall k | |heap| <= k < |q.heap| ensures Copied(g, taken, q.heap, all, k) {
      if k < |r.heap| {
        assert Copied(g, first.taken, r.heap, origin + first.origin, k);
      } else {
        assert Copied(g, others.taken, q.heap, all, k);
      }
    }
    assert StandsFor(first.taken, origin + first.origin, r.obs.value[0], [x][0]);
    MoreSpotted(g, first, others, r, q, rest, heap, origin, x, xs);
  }

  lemma MoreSpotted(g: Heap, first: Written, others: Written, r: Read, q: Read,
                    rest: seq<Token>, heap: Heap, origin: seq<nat>, x: nat, xs: seq<nat>)
    requires ReadsAs(g, first, r, r.tokens, heap, origin, [x])
    requires ReadsAs(g, others, q, rest, r.heap, origin + first.origin, xs)
    ensures Spotted(g, first.taken + others.taken, origin + first.origin + others.origin,
                    Reading(q.heap, r.obs.value + q.obs.value, [x] + xs, |heap|))
  {
    var (some, all) := (origin + first.origin, origin + first.origin + others.origin);
    var now := Reading(q.heap, r.obs.value + q.obs.value, [x] + xs, |heap|);
    SpotBefore(g, first.taken, some, all, Reading(r.heap, r.obs.value, [x], |heap|), now);
    assert r.obs.value == [r.obs.value[0]];
    SpotAfter(g, others.taken, all, Reading(q.heap, q.obs.value, xs, |r.heap|), r.obs.value[0], x, |heap|);
  }

  /** Which object a read results in: the one an id stands for, or a new one, registered if it was announced. */
  ghost predicate ResultOf(mode: Mode, x: nat, refs: seq<nat>, known: seq<Ref>, heap: Heap, r: Read)
    requires |known| == |refs|
  {
    match Find(mode, refs, x)
    case At(id) => r.obs == Some([known[id].ob]) && r.refs == known
    case NoEnd => false
    case Missing =>
      && r.obs == Some([|heap|])
      && Push(known, if x in mode.announced then Some(|refs|) else None, |heap|) <= r.refs
  }

  /** Reading what `w` wrote of `x` gives an object for `x`, the one its id stands for or a new one. */
  ghost predicate ReadsBack(g: Heap, mode: Mode, x: nat, refs: seq<nat>, w: Written, rest: seq<Token>,
                            known: seq<Ref>, heap: Heap, origin: seq<nat>)
    requires |known| == |refs|
  {
    var r := ReadObject(w.tokens + rest, known, heap);
    ReadsAs(g, w, r, rest, heap, origin, [x]) && ResultOf(mode, x, refs, known, heap, r)
  }

  lemma {:induction false} ReadsObject(g: Heap, mode: Mode, x: nat, refs: seq<nat>, depth: nat,
                                       rest: seq<Token>, known: seq<Ref>, heap: Heap, origin: seq<nat>)
    requires Closed(g) && x < |g| && Write(g, mode, x, refs, depth).Some?
    requires |heap| == |origin| && InStep(refs, known, origin)
    ensures ReadsBack(g, mode, x, refs, Write(g, mode, x, refs, depth).value, rest, known, heap, origin)
    decreases depth, 1
  {
    var id := Find(mode, refs, x);
    if id.At? {
      ReadsReference(g, mode, x, refs, rest, known, heap, origin);
      return;
    }
    ReadsContent(g, mode, x, refs, depth - 1, rest, known, heap, origin);
  }

  /** A new object, with `depth` calls left for what it holds. */
  lemma {:induction false} ReadsContent(g: Heap, mode: Mode, x: nat, refs: seq<nat>, depth: nat,
                                        rest: seq<Token>, known: seq<Ref>, heap: Heap, origin: seq<nat>)
    requires Closed(g) && x < |g| && Find(mode, refs, x).Missing?
    requires WriteAll(g, mode, g[x].kids, if x in mode.announced then refs + [x] else refs, depth).Some?
    requires |heap| == |origin| && InStep(refs, known, origin)
    ensures var kids := WriteAll(g, mode, g[x].kids, if x in mode.announced then refs + [x] else refs, depth).value;
            var put := if x in mode.announced then Some(|refs|) else None;
            ReadsBack(g, mode, x, refs, NewWritten(Head(put, g[x]), x, kids),
                      rest, known, heap, origin)
    decreases depth + 1, 0
  {
    var put := if x in mode.announced then Some(|refs|) else None;
    var more := if x in mode.announced then refs + [x] else refs;
    InStepMore(refs, known, origin, x, put);
    ReadsObjects(g, mode, g[x].kids, more, depth, rest,
                 Push(known, put, |heap|), heap + [Obj(g[x].tag, [])], origin + [x]);
    ReadsNew(g, mode, x, refs, put, WriteAll(g, mode, g[x].kids, more, depth).value, rest, known, heap, origin);
  }

  lemma InStepMore(refs: seq<nat>, known: seq<Ref>, origin: seq<nat>, x: nat, put: Option<nat>)
    requires InStep(refs, known, origin) && (put.Some? ==> put.value == |refs|)
    ensures InStep(if put.Some? then refs + [x] else refs, Push(known, put, |origin|), origin + [x])
  {
  }

  /** A new object is read back if its content is. */
  lemma ReadsNew(g: Heap, mode: Mode, x: nat, refs: seq<nat>, put: Option<nat>, kids: Written, rest: seq<Token>,
                 known: seq<Ref>, heap: Heap, origin: seq<nat>)
    requires x < |g| && |heap| == |origin| && |known| == |refs| && Find(mode, refs, x).Missing?
    requires put == if x in mode.announced then Some(|refs|) else None
    requires ReadsAs(g, kids,
                     ReadObjects(|g[x].kids|, kids.tokens + rest, Push(known, put, |heap|), heap + [Obj(g[x].tag, [])]),
                     rest, heap + [Obj(g[x].tag, [])], origin + [x], g[x].kids)
    ensures var w := NewWritten(Head(put, g[x]), x, kids);
            ReadsBack(g, mode, x, refs, w, rest, known, heap, origin)
  {
    var r := ReadObjects(|g[x].kids|, kids.tokens + rest, Push(known, put, |heap|), heap + [Obj(g[x].tag, [])]);
    NodeReadsAs(g, x, kids, Head(put, g[x]), r, rest, heap, origin);
    ReadsFilledIn(put, g[x], kids.tokens, rest, known, heap, r);
  }

  /** An object that is not a reference: it is made, what it holds is read, and then it is filled in. */
  lemma ReadsFilledIn(put: Option<nat>, ob: Obj, tokens: seq<Token>, rest: seq<Token>, known: seq<Ref>, heap: Heap,
                      r: Read)
    requires r == ReadObjects(|ob.kids|, tokens + rest, Push(known, put, |heap|), heap + [Obj(ob.tag, [])])
    requires r.obs.Some? && |r.heap| > |heap|
    ensures ReadObject(Head(put, ob) + tokens + rest, known, heap)
         == r.(obs := Some([|heap|]), heap := r.heap[|heap| := Obj(ob.tag, r.obs.value)])
  {
    ReadHead(put, ob.tag, |ob.kids|, tokens + rest, known, heap);
    ReadNode(put, ob.tag, |ob.kids|, tokens + rest, known, heap);
    assert Head(put, ob) + tokens + rest == Head(put, ob) + (tokens + rest);
  }

  lemma ReadsReference(g: Heap, mode: Mode, x: nat, refs: seq<nat>, rest: seq<Token>,
                       known: seq<Ref>, heap: Heap, origin: seq<nat>)
    requires Find(mode, refs, x).At? && |heap| == |origin| && InStep(refs, known, origin)
    ensures var id := Find(mode, refs, x).id;
            ReadsBack(g, mode, x, refs, Written([Get(id)], refs, [], {(x, refs[id])}), rest, known, heap, origin)
  {
    var id := Find(mode, refs, x).id;
    GetRefAt(known, 0, id);
    assert ([Get(id)] + rest)[1..] == rest && origin + [] == origin;
    assert ReadAt(g, origin, Reading(heap, [known[id].ob], [x], |heap|), Top(0), x, known[id].ob);
  }

  lemma {:induction false} ReadsObjects(g: Heap, mode: Mode, xs: seq<nat>, refs: seq<nat>, depth: nat,
                                        rest: seq<Token>, known: seq<Ref>, heap: Heap, origin: seq<nat>)
    requires Closed(g) && Within(g, xs) && WriteAll(g, mode, xs, refs, depth).Some?
    requires |heap| == |origin| && InStep(refs, known, origin)
    ensures var w := WriteAll(g, mode, xs, refs, depth).value;
            ReadsAs(g, w, ReadObjects(|xs|, w.tokens + rest, known, heap), rest, heap, origin, xs)
    decreases depth, |xs| + 1
  {
    var w := WriteAll(g, mode, xs, refs, depth).value;
    if xs == [] {
      assert w.tokens + rest == rest && origin + [] == origin;
      return;
    }
    var first := Write(g, mode, xs[0], refs, depth).value;
    var others := WriteAll(g, mode, xs[1..], first.refs, depth).value;
    assert w.tokens + rest == first.tokens + (others.tokens + rest);
    ReadsObject(g, mode, xs[0], refs, depth, others.tokens + rest, known, heap, origin);
    var r := ReadObject(w.tokens + rest, known, heap);
    ReadsObjects(g, mode, xs[1..], first.refs, depth, rest, r.refs, r.heap, origin + first.origin);
    var q := ReadObjects(|xs| - 1, others.tokens + rest, r.refs, r.heap);
    MoreReadAs(g, first, others, r, q, rest, heap, origin, xs[0], xs[1..]);
    assert xs == [xs[0]] + xs[1..];
  }

  // ----- the round trip

  ghost predicate AllCopied(g: Heap, taken: set<(nat, nat)>, heap: Heap, origin: seq<nat>) {
    |heap| == |origin| && forall k :: 0 <= k < |heap| ==> Copied(g, taken, heap, origin, k)
  }

  lemma CopyClosed(g: Heap, taken: set<(nat, nat)>, heap: Heap, origin: seq<nat>)
    requires AllCopied(g, taken, heap, origin)
    ensures Closed(heap)
  {
    forall k, i | 0 <= k < |heap| && 0 <= i < |heap[k].kids| ensures heap[k].kids[i] < |heap| {
      assert Copied(g, taken, heap, origin, k);
    }
  }

  /** Nothing was taken for something that can be told apart from it. */
  ghost predicate Harmless(g: Heap, taken: set<(nat, nat)>)
    requires Closed(g)
  {
    forall x: nat, y: nat :: (x, y) in taken && x != y ==> x < |g| && y < |g| && Alike(g, x, g, y)
  }

  lemma {:induction false} CopyUnfolds(g: Heap, taken: set<(nat, nat)>, heap: Heap, origin: seq<nat>, k: nat,
                                       depth: nat)
    requires Closed(g) && Closed(heap) && Harmless(g, taken) && AllCopied(g, taken, heap, origin) && k < |heap|
    ensures origin[k] < |g| && Unfold(heap, k, depth) == Unfold(g, origin[k], depth)
    decreases depth
  {
    assert Copied(g, taken, heap, origin, k);
    if depth > 0 {
      var x := origin[k];
      forall i | 0 <= i < |heap[k].kids|
        ensures Unfold(heap, heap[k].kids[i], depth - 1) == Unfold(g, g[x].kids[i], depth - 1)
      {
        var (kid, y) := (heap[k].kids[i], g[x].kids[i]);
        assert StandsFor(taken, origin, kid, y);
        CopyUnfolds(g, taken, heap, origin, kid, depth - 1);
        assert y != origin[kid] ==> Alike(g, y, g, origin[kid]);
      }
    }
  }

  lemma StandsForAlike(g: Heap, taken: set<(nat, nat)>, heap: Heap, origin: seq<nat>, k: nat, x: nat)
    requires Closed(g) && Closed(heap) && Harmless(g, taken) && AllCopied(g, taken, heap, origin)
    requires k < |heap| && x < |g| && StandsFor(taken, origin, k, x)
    ensures Alike(heap, k, g, x)
  {
    forall depth: nat ensures Unfold(heap, k, depth) == Unfold(g, x, depth) {
      CopyUnfolds(g, taken, heap, origin, k, depth);
      assert x != origin[k] ==> Alike(g, x, g, origin[k]);
    }
  }

  /** What was read in a place cannot be told from what was written there. */
  ghost predicate AlikeAt(g: Heap, q: Reading, x: nat, k: nat)
    requires Closed(g) && Closed(q.heap)
  {
    x < |g| && k < |q.heap| && Alike(q.heap, k, g, x)
  }

  /** If that is so of what was asked for, it is so in every place, and objects are like those they were made from. */
  lemma {:induction false} AlikeEverywhere(g: Heap, taken: set<(nat, nat)>, origin: seq<nat>, q: Reading, k: nat)
    requires Closed(g) && Closed(q.heap) && AllCopied(g, taken, q.heap, origin) && q.first == 0
    requires Spotted(g, taken, origin, q) && |q.obs| == |q.xs|
    requires forall i :: 0 <= i < |q.xs| ==> AlikeAt(g, q, q.xs[i], q.obs[i])
    requires k < |q.heap|
    ensures AlikeAt(g, q, origin[k], k)
    decreases k
  {
    assert BornAt(g, origin, q, k);
    var s :| ReadAt(g, origin, q, s, origin[k], k) && (s.Inside? ==> s.k < k);
    if s.Inside? {
      AlikeEverywhere(g, taken, origin, q, s.k);
      AlikeInside(q.heap, s.k, g, origin[s.k]);
    } else {
      assert AlikeAt(g, q, q.xs[s.i], q.obs[s.i]);
    }
  }

  lemma TakenIsAlike(g: Heap, taken: set<(nat, nat)>, origin: seq<nat>, q: Reading, x: nat, y: nat)
    requires Closed(g) && Closed(q.heap) && AllCopied(g, taken, q.heap, origin) && q.first == 0
    requires Spotted(g, taken, origin, q) && |q.obs| == |q.xs|
    requires forall i :: 0 <= i < |q.xs| ==> AlikeAt(g, q, q.xs[i], q.obs[i])
    requires (x, y) in taken
    ensures x < |g| && y < |g| && Alike(g, x, g, y)
  {
    assert TakenAt(g, origin, q, x, y);
    var s, k: nat :| ReadAt(g, origin, q, s, x, k) && k < |origin| && origin[k] == y;
    AlikeEverywhere(g, taken, origin, q, k);
    if s.Inside? {
      AlikeEverywhere(g, taken, origin, q, s.k);
      AlikeInside(q.heap, s.k, g, origin[s.k]);
    } else {
      assert AlikeAt(g, q, q.xs[s.i], q.obs[s.i]);
    }
    assert AlikeAt(g, q, x, k);
  }

  /** Every object read cannot be told from the one written in its place by following references, however deep. */
  ghost predicate GivesBack(g: Heap, xs: seq<nat>, r: Read)
    requires Closed(g) && Within(g, xs)
  {
    && Closed(r.heap) && r.obs.Some? && |r.obs.value| == |xs|
    && forall i :: 0 <= i < |xs| ==> r.obs.value[i] < |r.heap| && Alike(r.heap, r.obs.value[i], g, xs[i])
  }

  /**
   Objects written through one write map and read through one read map: whenever writing ends, reading succeeds and
   uses up the stream. It gives back what cannot be told from what was written, whatever is shared and whatever cycles
   there are, exactly if nothing was taken for an object that can be told apart from it.
   */
  lemma RoundTrip(g: Heap, mode: Mode, xs: seq<nat>, depth: nat)
    requires Closed(g) && Within(g, xs) && WriteAll(g, mode, xs, [], depth).Some?
    ensures var w := WriteAll(g, mode, xs, [], depth).value;
            var r := ReadObjects(|xs|, w.tokens, [], []);
            r.obs.Some? && r.tokens == [] && Closed(r.heap) && (GivesBack(g, xs, r) <==> Harmless(g, w.taken))
  {
    var w := WriteAll(g, mode, xs, [], depth).value;
    var r := ReadObjects(|xs|, w.tokens, [], []);
    ReadsFromNothing(g, mode, xs, depth);
    CopyClosed(g, w.taken, r.heap, w.origin);
    if Harmless(g, w.taken) {
      forall i | 0 <= i < |xs| ensures r.obs.value[i] < |r.heap| && Alike(r.heap, r.obs.value[i], g, xs[i]) {
        StandsForAlike(g, w.taken, r.heap, w.origin, r.obs.value[i], xs[i]);
      }
    }
    if GivesBack(g, xs, r) {
      forall x: nat, y: nat | (x, y) in w.taken ensures x < |g| && y < |g| && Alike(g, x, g, y) {
        TakenIsAlike(g, w.taken, w.origin, Reading(r.heap, r.obs.value, xs, 0), x, y);
      }
    }
  }

  lemma ReadsFromNothing(g: Heap, mode: Mode, xs: seq<nat>, depth: nat)
    requires Closed(g) && Within(g, xs) && WriteAll(g, mode, xs, [], depth).Some?
    ensures var w := WriteAll(g, mode, xs, [], depth).value;
            var r := ReadObjects(|xs|, w.tokens, [], []);
            && r.obs.Some? && |r.obs.value| == |xs| && r.tokens == [] && AllCopied(g, w.taken, r.heap, w.origin)
            && (forall i :: 0 <= i < |xs| ==> StandsFor(w.taken, w.origin, r.obs.value[i], xs[i]))
            && Spotted(g, w.taken, w.origin, Reading(r.heap, r.obs.value, xs, 0))
  {
    ReadsObjects(g, mode, xs, [], depth, [], [], [], []);
    var w := WriteAll(g, mode, xs, [], depth).value;
    assert w.tokens + [] == w.tokens && [] + w.origin == w.origin;
  }

  // ----- ids and sharing

  /** Registered objects stay registered under their ids, each is registered once, and only announced ones are added. */
  lemma {:induction false} WriteKeepsIds(g: Heap, mode: Mode, x: nat, refs: seq<nat>, depth: nat)
    requires Closed(g) && x < |g| && Write(g, mode, x, refs, depth).Some?
    ensures var now := Write(g, mode, x, refs, depth).value.refs;
            && refs <= now && (Distinct(refs) ==> Distinct(now))
            && forall y :: y in now ==> y in refs || y in mode.announced
    decreases depth, 0
  {
    if Find(mode, refs, x).Missing? {
      WriteAllKeepsIds(g, mode, g[x].kids, if x in mode.announced then refs + [x] else refs, depth - 1);
    }
  }

  lemma {:induction false} WriteAllKeepsIds(g: Heap, mode: Mode, xs: seq<nat>, refs: seq<nat>, depth: nat)
    requires Closed(g) && Within(g, xs) && WriteAll(g, mode, xs, refs, depth).Some?
    ensures var now := WriteAll(g, mode, xs, refs, depth).value.refs;
            && refs <= now && (Distinct(refs) ==> Distinct(now))
            && forall y :: y in now ==> y in refs || y in mode.announced
    decreases depth, |xs| + 1
  {
    if xs != [] {
      WriteKeepsIds(g, mode, xs[0], refs, depth);
      WriteAllKeepsIds(g, mode, xs[1..], Write(g, mode, xs[0], refs, depth).value.refs, depth);
    }
  }

  lemma {:induction false} FindKept(mode: Mode, refs: seq<nat>, more: seq<nat>, x: nat)
    requires refs <= more
    ensures !Find(mode, refs, x).Missing? ==> Find(mode, more, x) == Find(mode, refs, x)
    decreases |refs|
  {
    if refs != [] && refs[0] != x && mode.equal(x, refs[0]) == No {
      FindKept(mode, refs[1..], more[1..], x);
    }
  }

  /** What is not found is found next exactly if it is the object registered next, or equal to that. */
  lemma {:induction false} FindNext(mode: Mode, refs: seq<nat>, x: nat, more: seq<nat>, y: nat)
    requires Find(mode, refs, y).Missing? && refs + [x] <= more
    ensures Find(mode, more, y) == At(|refs|) <==> y == x || mode.equal(y, x) == Yes
    decreases |refs|
  {
    if refs != [] {
      assert refs[1..] + [x] <= more[1..] by {
        assert refs[1..] + [x] == (refs + [x])[1..];
      }
      FindNext(mode, refs[1..], x, more[1..], y);
    } else {
      assert more[0] == x;
    }
  }

  /** `y`, written just after `x`, is written as a reference to what was read for `x`. */
  predicate Refers(mode: Mode, refs: seq<nat>, x: nat, y: nat) {
    match Find(mode, refs, x)
    case At(id) => Find(mode, refs, y) == At(id)
    case NoEnd => false
    case Missing =>
      x in mode.announced && Find(mode, refs, y).Missing? && (y == x || mode.equal(y, x) == Yes)
  }

  /**
   Two objects written one after the other are read as one object exactly if the second finds the id of the first:
   the first must have one, and the second must be the same as, or deeply equal to, the object behind that id.
   */
  lemma ReadAsOne(g: Heap, mode: Mode, x: nat, y: nat, refs: seq<nat>, depth: nat,
                  known: seq<Ref>, heap: Heap, origin: seq<nat>)
    requires Closed(g) && x < |g| && y < |g| && WriteAll(g, mode, [x, y], refs, depth).Some?
    requires |heap| == |origin| && InStep(refs, known, origin) && Distinct(refs)
    ensures var r := ReadObjects(2, WriteAll(g, mode, [x, y], refs, depth).value.tokens, known, heap);
            r.obs.Some? && (r.obs.value[0] == r.obs.value[1] <==> Refers(mode, refs, x, y))
  {
    WritesTwo(g, mode, x, y, refs, depth);
    var first := Write(g, mode, x, refs, depth).value;
    var second := Write(g, mode, y, first.refs, depth).value;
    ReadsObject(g, mode, x, refs, depth, second.tokens, known, heap, origin);
    var r := ReadObject(first.tokens + second.tokens, known, heap);
    ReadsObject(g, mode, y, first.refs, depth, [], r.refs, r.heap, origin + first.origin);
    var q := ReadObject(second.tokens + [], r.refs, r.heap);
    assert second.tokens + [] == second.tokens;
    TwoReads(first.tokens + second.tokens, r, q, known, heap);
    TwoResults(mode, x, y, refs, first, known, heap, origin, r, q);
  }

  /** An object written twice in a row is read as one object exactly if it is announced, or has an id already. */
  lemma SharingKept(g: Heap, mode: Mode, x: nat, refs: seq<nat>, depth: nat,
                    known: seq<Ref>, heap: Heap, origin: seq<nat>)
    requires Closed(g) && x < |g| && WriteAll(g, mode, [x, x], refs, depth).Some?
    requires |heap| == |origin| && InStep(refs, known, origin) && Distinct(refs)
    ensures var r := ReadObjects(2, WriteAll(g, mode, [x, x], refs, depth).value.tokens, known, heap);
            && r.obs.Some?
            && (r.obs.value[0] == r.obs.value[1] <==> x in mode.announced || Find(mode, refs, x).At?)
  {
    ReadAsOne(g, mode, x, x, refs, depth, known, heap, origin);
    WritesTwo(g, mode, x, x, refs, depth);
  }

  /** What writing `x` does to the registered objects, and what it writes first. */
  ghost predicate FirstWritten(mode: Mode, x: nat, refs: seq<nat>, first: Written) {
    && refs <= first.refs && Distinct(first.refs) && (forall z :: z in first.refs ==> z in refs || z in mode.announced)
    && match Find(mode, refs, x)
       case At(_) => first.refs == refs
       case NoEnd => false
       case Missing => first.origin != [] && first.origin[0] == x && (x in mode.announced ==> refs + [x] <= first.refs)
  }

  lemma WritesTwo(g: Heap, mode: Mode, x: nat, y: nat, refs: seq<nat>, depth: nat)
    requires Closed(g) && x < |g| && y < |g| && WriteAll(g, mode, [x, y], refs, depth).Some? && Distinct(refs)
    ensures Write(g, mode, x, refs, depth).Some?
    ensures var first := Write(g, mode, x, refs, depth).value;
            && Write(g, mode, y, first.refs, depth).Some?
            && WriteAll(g, mode, [x, y], refs, depth).value.tokens
                 == first.tokens + Write(g, mode, y, first.refs, depth).value.tokens
            && FirstWritten(mode, x, refs, first)
  {
    var pair := [x, y];
    assert pair[1..] == [y] && [y][1..] == [];
    var first := Write(g, mode, x, refs, depth).value;
    var second := Write(g, mode, y, first.refs, depth).value;
    assert WriteAll(g, mode, [], second.refs, depth) == Some(Written([], second.refs, [], {}));
    assert second.tokens + [] == second.tokens;
    WriteKeepsIds(g, mode, x, refs, depth);
    if Find(mode, refs, x).Missing? && x in mode.announced {
      WriteAllKeepsIds(g, mode, g[x].kids, refs + [x], depth - 1);
    }
  }

  lemma TwoReads(tokens: seq<Token>, r: Read, q: Read, known: seq<Ref>, heap: Heap)
    requires r == ReadObject(tokens, known, heap) && r.obs.Some?
    requires q == ReadObject(r.tokens, r.refs, r.heap) && q.obs.Some?
    ensures ReadObjects(2, tokens, known, heap).obs == Some(r.obs.value + (q.obs.value + []))
  {
    assert ReadObjects(1, r.tokens, r.refs, r.heap).obs == Some(q.obs.value + []);
  }

  lemma TwoResults(mode: Mode, x: nat, y: nat, refs: seq<nat>, first: Written,
                   known: seq<Ref>, heap: Heap, origin: seq<nat>, r: Read, q: Read)
    requires |heap| == |origin| && InStep(refs, known, origin)
    requires InStep(first.refs, r.refs, origin + first.origin)
    requires FirstWritten(mode, x, refs, first) && |r.heap| == |heap| + |first.origin|
    requires ResultOf(mode, x, refs, known, heap, r) && ResultOf(mode, y, first.refs, r.refs, r.heap, q)
    ensures r.obs.value[0] == q.obs.value[0] <==> Refers(mode, refs, x, y)
  {
    var (found, again, all) := (Find(mode, refs, x), Find(mode, first.refs, y), origin + first.origin);
    if again.At? {
      assert all[r.refs[again.id].ob] == first.refs[again.id];
    }
    if !Find(mode, refs, y).Missing? {
      FindKept(mode, refs, first.refs, y);
    }
    if found.Missing? {
      assert all[|heap|] == x;
      if x in mode.announced {
        assert Push(known, Some(|refs|), |heap|)[|refs|] == Ref(|refs|, |heap|);
        if Find(mode, refs, y).Missing? {
          FindNext(mode, refs, x, first.refs, y);
        }
      }
    }
  }

  // ----- the two maps

  class WriteMap {
    var next: nat
    var refv: seq<Ref>

    ghost predicate Valid()
      reads this
    {
      next == |refv| && forall i :: 0 <= i < |refv| ==> refv[i].id == i
    }

    /** The registered objects, at their ids. */
    ghost function Objects(): seq<nat>
      reads this
    {
      seq(|refv|, i requires 0 <= i < |refv| reads this => refv[i].ob)
    }

    constructor ()
      ensures Valid() && Objects() == []
    {
      next, refv := 0, [];
    }

    /** Registers an object under an id that was never used. */
    method RegisterID(ob: nat) returns (id: nat)
      requires Valid()
      modifies this
      ensures Valid() && Objects() == old(Objects()) + [ob] && id == |old(Objects())|
      ensures forall r :: r in old(refv) ==> r.id != id
    {
      id := next;
      refv := refv + [Ref(id, ob)];
      next := next + 1;
    }

    method FindObject(mode: Mode, ob: nat) returns (found: Found)
      requires Valid()
      ensures found == Find(mode, Objects(), ob)
    {
      var i := 0;
      ghost var obs := Objects();
      while i != |refv|
        invariant 0 <= i <= |refv| && Find(mode, obs, ob) == Later(Find(mode, obs[i..], ob), i)
      {
        assert obs[i..][1..] == obs[i + 1..];
        if refv[i].ob == ob {
          return At(refv[i].id);
        }
        match mode.equal(ob, refv[i].ob) {
          case Yes => return At(refv[i].id);
          case Endless => return NoEnd;
          case No => i := i + 1;
        }
      }
      found := Missing;
    }
  }

  class ReadMap {
    var refv: seq<Ref>

    constructor ()
      ensures refv == []
    {
      refv := [];
    }

    method TryPushRef(id: nat, ob: nat)
      modifies this
      ensures refv == Push(old(refv), Some(id), ob)
    {
      refv := refv + [Ref(id, ob)];
    }

    /** The object must have been pushed. */
    method Pop(ob: nat)
      requires exists r :: r in refv && r.ob == ob
      modifies this
      ensures refv == PopRef(old(refv), ob)
      ensures exists i ::
                && 0 <= i < |old(refv)| && old(refv)[i].ob == ob && refv == old(refv)[..i] + old(refv)[i + 1..]
                && forall j :: i < j < |old(refv)| ==> old(refv)[j].ob != ob
    {
      var i := |refv|;
      assert refv[..i] == refv;
      while refv[i - 1].ob != ob
        invariant 0 < i <= |refv| && refv == old(refv) && exists r :: r in refv[..i] && r.ob == ob
        invariant forall j :: i <= j < |refv| ==> refv[j].ob != ob
        invariant PopRef(refv, ob) == PopRef(refv[..i], ob) + refv[i..]
        decreases i
      {
        assert refv[..i][..i - 1] == refv[..i - 1];
        ghost var (front, r) := (PopRef(refv[..i - 1], ob), refv[i - 1]);
        assert front + [r] + refv[i..] == front + ([r] + refv[i..]);
        assert [refv[i - 1]] + refv[i..] == refv[i - 1..];
        i := i - 1;
      }
      assert refv[..i][..i - 1] == refv[..i - 1];
      refv := refv[..i - 1] + refv[i..];
    }

    method Get(id: nat) returns (ob: Option<nat>)
      ensures ob == GetRef(refv, id)
    {
      var i := 0;
      while i != |refv|
        invariant 0 <= i <= |refv| && GetRef(refv, id) == GetRef(refv[i..], id)
      {
        assert refv[i..][1..] == refv[i + 1..];
        if refv[i].id == id {
          return Some(refv[i].ob);
        }
        i := i + 1;
      }
      ob := None;
    }
  }

  /** Taking a reference out again undoes its registration and leaves those made since. */
  lemma {:induction false} PopUndoesPush(refs: seq<Ref>, id: nat, ob: nat, since: seq<Ref>)
    requires forall r :: r in since ==> r.ob != ob
    ensures PopRef(Push(refs, Some(id), ob) + since, ob) == refs + since
    decreases |since|
  {
    var all := refs + [Ref(id, ob)] + since;
    if since == [] {
      assert all == refs + [Ref(id, ob)] && refs + since == refs;
      return;
    }
    var (init, last) := (since[..|since| - 1], since[|since| - 1]);
    PopUndoesPush(refs, id, ob, init);
    assert all[..|all| - 1] == refs + [Ref(id, ob)] + init;
    assert (refs + init) + [last] == refs + since;
  }
}
