/** Dropping consecutive equal elements: in place, into a new list, and while appending from an iterator. */
module Unique {
  import opened Common
  import opened MergeIterators
  import MergeSort

  /** The answer to "are these two equal". */
  datatype Answer = Equal | Different | Broken

  /** User code: the answer may depend on which call it is. */
  type EqPred<!T> = (nat, T, T) -> Answer

  /** `kept` are the elements decided to stay, `rest` those not decided when the comparing ended. */
  datatype Result<T> = Result(ok: bool, kept: seq<T>, rest: seq<T>)

  /** Of two equal neighbours the first one goes. */
  function UniqueRun<T>(p: EqPred<T>, calls: nat, s: seq<T>): Result<T>
    decreases |s|
  {
    if |s| <= 1 then Result(true, [], s)
    else
      match p(calls, s[0], s[1])
      case Broken => Result(false, [], s)
      case Equal => UniqueRun(p, calls + 1, s[1..])
      case Different => var r := UniqueRun(p, calls + 1, s[1..]); r.(kept := [s[0]] + r.kept)
  }

  function After<T>(done: seq<T>, r: Result<T>): Result<T> {
    r.(kept := done + r.kept)
  }

  lemma RunStarts<T>(r: Result<T>)
    ensures After([], r) == r
  {
    assert [] + r.kept == r.kept;
  }

  lemma RunEnds<T>(p: EqPred<T>, calls: nat, done: seq<T>, s: seq<T>)
    requires |s| <= 1 || p(calls, s[0], s[1]).Broken?
    ensures After(done, UniqueRun(p, calls, s)) == Result(|s| <= 1, done, s)
  {
    assert done + [] == done;
  }

  lemma RunSteps<T>(p: EqPred<T>, calls: nat, done: seq<T>, s: seq<T>)
    requires |s| > 1 && !p(calls, s[0], s[1]).Broken?
    ensures var more := if p(calls, s[0], s[1]).Equal? then done else done + [s[0]];
            After(done, UniqueRun(p, calls, s)) == After(more, UniqueRun(p, calls + 1, s[1..]))
  {
    var k := UniqueRun(p, calls + 1, s[1..]).kept;
    assert done + ([s[0]] + k) == (done + [s[0]]) + k;
  }

  lemma Shift<T>(done: seq<T>, s: seq<T>)
    requires s != []
    ensures done + s == (done + [s[0]]) + s[1..]
  {
  }

  // ----- the three loops

  lemma OneOut<T>(s: seq<T>, t: seq<T>, i: nat)
    requires i < |s| && |t| == |s| - 1
    requires (forall k :: 0 <= k < i ==> t[k] == s[k]) && forall k :: i <= k < |t| ==> t[k] == s[k + 1]
    ensures t == s[..i] + s[i + 1..]
  {
  }

  class List<T> {
    /** The vector, all of it, and the number of elements in use. */
    var elem: array<T>
    var len: nat
    /** Whether a cell outside the vector was read or written. */
    ghost var strayed: bool

    ghost predicate Valid()
      reads this
    {
      len <= elem.Length
    }

    ghost function Contents(): seq<T>
      reads this, elem
      requires Valid()
    {
      elem[..len]
    }

    constructor (elem: array<T>, len: nat)
      requires len <= elem.Length
      ensures Valid() && this.elem == elem && Contents() == elem[..len] && !strayed
    {
      this.elem, this.len, strayed := elem, len, false;
    }

    /**
     Moves what is behind index `i` one to the front. The range that is moved goes on for two cells behind the list,
     which the vector may not have.
     */
    method RemoveAt(i: nat)
      requires Valid() && i < len
      modifies this`len, this`strayed, elem
      ensures Valid() && len == old(len) - 1
      ensures Contents() == old(Contents())[..i] + old(Contents())[i + 1..]
      ensures strayed <==> old(strayed) || elem.Length < old(len) + 2
    {
      ghost var was := elem[..];
      strayed := strayed || elem.Length < len + 2;
      var last := if elem.Length < len + 2 then elem.Length - 1 else len + 1;
      for j := i to last
        invariant len == old(len) && (strayed <==> old(strayed) || elem.Length < len + 2)
        invariant forall k :: i <= k < j ==> elem[k] == was[k + 1]
        invariant forall k :: 0 <= k < i || j <= k < elem.Length ==> elem[k] == was[k]
      {
        elem[j] := elem[j + 1];
      }
      len := len - 1;
      OneOut(was[..len + 1], elem[..len], i);
    }

    /** The elements at `i` and behind it, when the list holds `done` and then `s`. */
    method Neighbours(i: nat, ghost done: seq<T>, ghost s: seq<T>) returns (first: T, second: T)
      requires Valid() && i + 1 < len && Contents() == done + s && |done| == i
      ensures |s| > 1 && first == s[0] && second == s[1]
    {
      first, second := elem[i], elem[i + 1];
      assert Contents()[i] == s[0] && Contents()[i + 1] == s[1];
    }

    method RemoveFirst(i: nat, ghost done: seq<T>, ghost s: seq<T>)
      requires Valid() && i < len && Contents() == done + s && |done| == i
      modifies this`len, this`strayed, elem
      ensures Valid() && s != [] && Contents() == done + s[1..] && len == old(len) - 1
      ensures strayed <==> old(strayed) || elem.Length < old(len) + 2
    {
      RemoveAt(i);
      assert (done + s)[..i] == done && (done + s)[i + 1..] == s[1..];
    }

    /**
     On an error the list keeps what was not compared yet. The loop stays inside the vector exactly if it removes
     nothing or the vector has room for two elements more.
     */
    method UniqueInPlace(p: EqPred<T>) returns (ok: bool)
      requires Valid() && !strayed
      modifies this`len, this`strayed, elem
      ensures Valid()
      ensures !strayed <==> Contents() == old(Contents()) || elem.Length >= old(len) + 2
      ensures var r := UniqueRun(p, 0, old(Contents())); ok == r.ok && Contents() == r.kept + r.rest
    {
      var i: nat, calls: nat := 0, 0;
      ghost var (r, done, s) := (UniqueRun(p, 0, Contents()), [], Contents());
      RunStarts(r);
      while i + 1 < len
        invariant Valid() && Contents() == done + s && |done| == i
        invariant r == After(done, UniqueRun(p, calls, s))
        invariant len <= old(len) && (len == old(len) ==> Contents() == old(Contents()))
        invariant strayed <==> len < old(len) && elem.Length < old(len) + 2
        decreases |s|
      {
        var first, second := Neighbours(i, done, s);
        var answer := p(calls, first, second);
        if answer == Broken {
          RunEnds(p, calls, done, s);
          return false;
        }
        RunSteps(p, calls, done, s);
        calls := calls + 1;
        if answer == Equal {
          RemoveFirst(i, done, s);
        } else {
          Shift(done, s);
          done := done + [s[0]];
          i := i + 1;
        }
        s := s[1..];
      }
      RunEnds(p, calls, done, s);
      ok := true;
    }
  }

  method ToUnique<T>(p: EqPred<T>, s: seq<T>) returns (list: Option<seq<T>>)
    ensures var r := UniqueRun(p, 0, s); list == if r.ok then Some(r.kept + r.rest) else None
  {
    if |s| <= 1 {
      assert [] + s == s;
      return Some(s);
    }
    var result: seq<T> := [];
    var i := 0;
    RunStarts(UniqueRun(p, 0, s));
    while i + 1 < |s|
      invariant 0 <= i < |s|
      invariant UniqueRun(p, 0, s) == After(result, UniqueRun(p, i, s[i..]))
    {
      var answer := p(i, s[i], s[i + 1]);
      if answer == Broken {
        RunEnds(p, i, result, s[i..]);
        return None;
      }
      RunSteps(p, i, result, s[i..]);
      if answer == Different {
        result := result + [s[i]];
      }
      assert s[i..][1..] == s[i + 1..];
      i := i + 1;
    }
    assert s[i..] == [s[i]];
    RunEnds(p, i, result, s[i..]);
    list := Some(result + [s[i]]);
  }

  /** Appends to `list`; the elements already in the list are not looked at. */
  method AppendUniqueIterator<T>(p: EqPred<T>, list: seq<T>, it: Iterator<T>) returns (ok: bool, result: seq<T>)
    modifies it
    ensures var r := UniqueRun(p, 0, old(it.rest));
            && ok == (r.ok && !it.breaks)
            && result == list + r.kept + (if ok then r.rest else [])
  {
    ghost var r := UniqueRun(p, 0, it.rest);
    result := list;
    var code, previous := it.Next();
    if code != 0 {
      assert list + [] + [] == list;
      return code > 0, result;
    }
    var calls := 0;
    ghost var done: seq<T> := [];
    RunStarts(r);
    var elem;
    code, elem := it.Next();
    while code == 0
      invariant previous.Some? && result == list + done && (code == 0 ==> elem.Some?)
      invariant code != 0 ==> it.rest == [] && code == (if it.breaks then -1 else 1)
      invariant
        var ahead := (if code == 0 then [elem.value] else []) + it.rest;
        r == After(done, UniqueRun(p, calls, [previous.value] + ahead))
      decreases |it.rest|, code == 0
    {
      var ahead := [elem.value] + it.rest;
      ghost var s := [previous.value] + ahead;
      assert s[1..] == ahead;
      var answer := p(calls, previous.value, elem.value);
      if answer == Broken {
        RunEnds(p, calls, done, s);
        assert result == list + r.kept + [];
        return false, result;
      }
      RunSteps(p, calls, done, s);
      calls := calls + 1;
      if answer == Different {
        result := result + [previous.value];
        done := done + [previous.value];
      }
      previous := elem;
      code, elem := it.Next();
    }
    RunEnds(p, calls, done, [previous.value]);
    assert [previous.value] + ([] + it.rest) == [previous.value];
    ok := code > 0;
    if ok {
      result := result + [previous.value];
    }
  }

  // ----- what the loops mean

  /** Every element except those that equal the one behind them. */
  function KeepLast<T>(eq: (T, T) -> bool, s: seq<T>): seq<T> {
    if |s| <= 1 then s
    else if eq(s[0], s[1]) then KeepLast(eq, s[1..])
    else [s[0]] + KeepLast(eq, s[1..])
  }

  /** Every answer is `eq`, unless it is that the comparison broke. */
  ghost predicate Answers<T(!new)>(p: EqPred<T>, eq: (T, T) -> bool) {
    forall n, a, b :: p(n, a, b).Broken? || (p(n, a, b).Equal? <==> eq(a, b))
  }

  ghost predicate NeverBreaks<T(!new)>(p: EqPred<T>) {
    forall n, a, b :: !p(n, a, b).Broken?
  }

  /** A run that ends well keeps the elements that do not equal the one behind them, in their order. */
  lemma {:induction false} RunKeepsLast<T(!new)>(p: EqPred<T>, eq: (T, T) -> bool, calls: nat, s: seq<T>)
    requires Answers(p, eq)
    ensures var r := UniqueRun(p, calls, s); (r.ok ==> r.kept + r.rest == KeepLast(eq, s)) && (NeverBreaks(p) ==> r.ok)
    decreases |s|
  {
    if |s| > 1 {
      RunKeepsLast(p, eq, calls + 1, s[1..]);
      var r := UniqueRun(p, calls + 1, s[1..]);
      assert [s[0]] + (r.kept + r.rest) == ([s[0]] + r.kept) + r.rest;
    }
  }

  /** Call `k` compares element `k` with the next, and none breaks. */
  ghost predicate NoneBreaks<T>(p: EqPred<T>, calls: nat, s: seq<T>, n: nat)
    requires n < |s|
  {
    forall k :: 0 <= k < n ==> !p(calls + k, s[k], s[k + 1]).Broken?
  }

  /** A run ends well exactly if no comparison of neighbours breaks; then one element is left at its end. */
  lemma {:induction false} RunSucceedsIff<T>(p: EqPred<T>, calls: nat, s: seq<T>)
    requires s != []
    ensures var r := UniqueRun(p, calls, s);
            && (r.ok <==> NoneBreaks(p, calls, s, |s| - 1)) && (r.ok ==> r.rest == [s[|s| - 1]])
    decreases |s|
  {
    if |s| > 1 {
      RunSucceedsIff(p, calls + 1, s[1..]);
      if NoneBreaks(p, calls + 1, s[1..], |s| - 2) && !p(calls, s[0], s[1]).Broken? {
        forall k | 0 <= k < |s| - 1 ensures !p(calls + k, s[k], s[k + 1]).Broken? {
          assert k > 0 ==> s[k] == s[1..][k - 1] && s[k + 1] == s[1..][k - 1 + 1] && calls + 1 + (k - 1) == calls + k;
        }
      }
      if NoneBreaks(p, calls, s, |s| - 1) {
        assert !p(calls + 0, s[0], s[0 + 1]).Broken?;
        forall k | 0 <= k < |s| - 2 ensures !p(calls + 1 + k, s[1..][k], s[1..][k + 1]).Broken? {
          assert !p(calls + (k + 1), s[k + 1], s[k + 1 + 1]).Broken?;
        }
      }
    }
  }

  /** The first comparison that breaks ends a run: in front of it all is as if the list ended there, the rest stays. */
  lemma {:induction false} RunUntilBroken<T>(p: EqPred<T>, calls: nat, s: seq<T>, k: nat)
    requires k + 1 < |s| && NoneBreaks(p, calls, s, k) && p(calls + k, s[k], s[k + 1]).Broken?
    ensures UniqueRun(p, calls, s) == Result(false, UniqueRun(p, calls, s[..k + 1]).kept, s[k..])
    decreases |s|
  {
    if k > 0 {
      assert !p(calls + 0, s[0], s[0 + 1]).Broken?;
      var t := s[1..];
      forall i | 0 <= i < k - 1 ensures !p(calls + 1 + i, t[i], t[i + 1]).Broken? {
        assert !p(calls + (i + 1), s[i + 1], s[i + 1 + 1]).Broken?;
      }
      assert calls + 1 + (k - 1) == calls + k;
      RunUntilBroken(p, calls + 1, t, k - 1);
      assert s[..k + 1][1..] == t[..k] && t[k - 1..] == s[k..];
    }
  }

  /** Appending one by one, each unless it equals the last element there is. */
  function Fold<T>(eq: (T, T) -> bool, list: seq<T>, s: seq<T>): seq<T>
    decreases |s|
  {
    if s == [] then list
    else if list != [] && eq(list[|list| - 1], s[0]) then Fold(eq, list, s[1..])
    else Fold(eq, list + [s[0]], s[1..])
  }

  ghost predicate Equivalence<T(!new)>(eq: (T, T) -> bool) {
    && (forall a :: eq(a, a))
    && (forall a, b :: eq(a, b) ==> eq(b, a))
    && (forall a, b, c :: eq(a, b) && eq(b, c) ==> eq(a, c))
  }

  predicate NoEqualNeighbours<T>(eq: (T, T) -> bool, s: seq<T>) {
    |s| <= 1 || (!eq(s[0], s[1]) && NoEqualNeighbours(eq, s[1..]))
  }

  ghost predicate Alike<T>(eq: (T, T) -> bool, a: seq<T>, b: seq<T>) {
    |a| == |b| && forall i :: 0 <= i < |a| ==> eq(a[i], b[i])
  }

  /** The last element of every run stays; what stays starts with something equal to the first element. */
  lemma {:induction false} KeepLastEnds<T(!new)>(eq: (T, T) -> bool, s: seq<T>)
    requires Equivalence(eq) && s != []
    ensures var u := KeepLast(eq, s);
            u != [] && u[|u| - 1] == s[|s| - 1] && eq(s[0], u[0]) && NoEqualNeighbours(eq, u)
    ensures forall e :: e in KeepLast(eq, s) ==> e in s
    decreases |s|
  {
    if |s| > 1 {
      KeepLastEnds(eq, s[1..]);
      var (x, y, u) := (s[0], s[1], KeepLast(eq, s[1..]));
      assert ([x] + u)[1..] == u;
      assert !eq(x, y) ==> !eq(x, u[0]) by {
        assert eq(x, u[0]) ==> eq(u[0], y);
      }
    }
  }

  /** Exactly the lists without equal neighbours are left as they are. */
  lemma {:induction false} FixedPoints<T>(eq: (T, T) -> bool, s: seq<T>)
    ensures |KeepLast(eq, s)| <= |s|
    ensures KeepLast(eq, s) == s <==> NoEqualNeighbours(eq, s)
    decreases |s|
  {
    if |s| <= 1 {
      return;
    }
    FixedPoints(eq, s[1..]);
    if eq(s[0], s[1]) {
      assert |KeepLast(eq, s)| < |s|;
      return;
    }
    assert KeepLast(eq, s)[1..] == KeepLast(eq, s[1..]);
  }

  lemma Idempotent<T(!new)>(eq: (T, T) -> bool, s: seq<T>)
    requires Equivalence(eq)
    ensures KeepLast(eq, KeepLast(eq, s)) == KeepLast(eq, s)
  {
    if s != [] {
      KeepLastEnds(eq, s);
      FixedPoints(eq, KeepLast(eq, s));
    }
  }

  const CLOSE := (x: int, y: int) => x - y <= 1 && y - x <= 1

  /** Equality that is not transitive: a second pass may remove more, and keeping first elements differs in length. */
  lemma WithoutTransitivity()
    ensures KeepLast(CLOSE, [0, 2, 1]) == [0, 1] && KeepLast(CLOSE, [0, 1]) == [1]
    ensures KeepLast(CLOSE, [1, 2, 3]) == [3] && Fold(CLOSE, [], [1, 2, 3]) == [1, 3]
  {
    assert KeepLast(CLOSE, [2, 1]) == [1];
    assert Fold(CLOSE, [1], [2, 3]) == Fold(CLOSE, [1], [3]) == [1, 3];
  }

  // ----- against appending one by one

  lemma {:induction false} FoldBehind<T>(eq: (T, T) -> bool, list: seq<T>, x: T, s: seq<T>)
    ensures Fold(eq, list + [x], s) == list + Fold(eq, [x], s)
    ensures Fold(eq, [x], s) != [] && Fold(eq, [x], s)[0] == x
    decreases |s|
  {
    if s == [] {
      return;
    }
    if eq(x, s[0]) {
      FoldBehind(eq, list, x, s[1..]);
      return;
    }
    var tail := Fold(eq, [s[0]], s[1..]);
    FoldBehind(eq, list + [x], s[0], s[1..]);
    FoldBehind(eq, [x], s[0], s[1..]);
    assert list + [x] + tail == list + ([x] + tail);
  }

  /** It does not matter which of two equal elements a run is compared with. */
  lemma {:induction false} FoldFromEqual<T(!new)>(eq: (T, T) -> bool, x: T, y: T, s: seq<T>)
    requires Equivalence(eq) && eq(x, y)
    ensures Fold(eq, [x], s) != [] && Fold(eq, [y], s) != [] && Fold(eq, [x], s)[1..] == Fold(eq, [y], s)[1..]
    decreases |s|
  {
    FoldBehind(eq, [], x, s);
    FoldBehind(eq, [], y, s);
    if s == [] {
      return;
    }
    var e := s[0];
    assert eq(x, e) == eq(y, e) by {
      assert eq(x, e) ==> eq(y, x) && eq(y, e);
    }
    if eq(x, e) {
      FoldFromEqual(eq, x, y, s[1..]);
      return;
    }
    FoldBehind(eq, [x], e, s[1..]);
    FoldBehind(eq, [y], e, s[1..]);
  }

  lemma {:induction false} KeepLastIsFold<T(!new)>(eq: (T, T) -> bool, x: T, s: seq<T>)
    requires Equivalence(eq)
    ensures Alike(eq, KeepLast(eq, [x] + s), Fold(eq, [x], s))
    decreases |s|
  {
    if s == [] {
      return;
    }
    var (y, t) := (s[0], s[1..]);
    KeepLastIsFold(eq, y, t);
    assert ([x] + s)[1..] == s == [y] + t;
    var (u, f) := (KeepLast(eq, s), Fold(eq, [y], t));
    if eq(x, y) {
      FoldFromEqual(eq, x, y, t);
      FoldBehind(eq, [], x, t);
      FoldBehind(eq, [], y, t);
      var g := Fold(eq, [x], t);
      assert KeepLast(eq, [x] + s) == u && Fold(eq, [x], s) == g;
      assert f == [y] + g[1..] && g == [x] + g[1..];
      assert eq(u[0], y) && eq(y, x);
      return;
    }
    FoldBehind(eq, [x], y, t);
    assert KeepLast(eq, [x] + s) == [x] + u && Fold(eq, [x], s) == [x] + f;
  }

  /** For an equivalence, unique is appending one by one from the empty list, up to which equal element is kept. */
  lemma UniqueIsFold<T(!new)>(eq: (T, T) -> bool, s: seq<T>)
    requires Equivalence(eq)
    ensures Alike(eq, KeepLast(eq, s), Fold(eq, [], s))
  {
    if s != [] {
      KeepLastIsFold(eq, s[0], s[1..]);
      assert s == [s[0]] + s[1..] && [] + [s[0]] == [s[0]];
      assert Fold(eq, [], s) == Fold(eq, [s[0]], s[1..]);
    }
  }

  /**
   Appending the unique elements of an iterator to a list skips the elements equal to the one before, as documented,
   except that the last element already in the list is never compared: exactly then one element too many is added.
   */
  lemma AppendIgnoresLast<T(!new)>(eq: (T, T) -> bool, list: seq<T>, s: seq<T>)
    requires Equivalence(eq)
    ensures var repeats := list != [] && s != [] && eq(list[|list| - 1], s[0]);
            |list + KeepLast(eq, s)| == |Fold(eq, list, s)| + if repeats then 1 else 0
  {
    UniqueIsFold(eq, s);
    if s == [] {
      return;
    }
    var (y, t) := (s[0], s[1..]);
    assert [] + [y] == [y] && Fold(eq, [], s) == Fold(eq, [y], t);
    if list == [] {
      assert list + KeepLast(eq, s) == KeepLast(eq, s) && Fold(eq, list, s) == Fold(eq, [], s);
      return;
    }
    var (init, x) := (list[..|list| - 1], list[|list| - 1]);
    assert list == init + [x];
    FoldBehind(eq, [], y, t);
    if eq(x, y) {
      assert Fold(eq, list, s) == Fold(eq, list, t);
      FoldBehind(eq, init, x, t);
      FoldFromEqual(eq, x, y, t);
    } else {
      assert Fold(eq, list, s) == Fold(eq, list + [y], t);
      FoldBehind(eq, list, y, t);
    }
  }

  // ----- appending from a sequence

  /** The references to each object that exists. */
  type Counts = map<nat, nat>

  function Acquire(counts: Counts, ob: nat): Counts {
    counts[ob := (if ob in counts then counts[ob] else 0) + 1]
  }

  /** Dropping the last reference ends the object. */
  function Release(counts: Counts, ob: nat): Counts
    requires ob in counts && counts[ob] > 0
  {
    if counts[ob] == 1 then counts - {ob} else counts[ob := counts[ob] - 1]
  }

  /** The inline form gets an iterator from the sequence, appends from it, and releases it. */
  function InlineForm(counts: Counts, iter: nat): Counts {
    Release(Acquire(counts, iter), iter)
  }

  /** The macro releases the sequence instead. */
  function MacroForm(counts: Counts, sequence: nat, iter: nat): Counts
    requires sequence in counts && counts[sequence] > 0
  {
    Release(Acquire(counts, iter), sequence)
  }

  /**
   The iterator of a sequence is a new object, or the sequence itself. The inline form leaves all references as they
   were. The macro does so exactly if the sequence is its own iterator: otherwise the iterator stays behind with a
   reference nobody has, and the sequence is gone if its caller had the only one.
   */
  lemma MacroBalancesIffOwnIterator(counts: Counts, sequence: nat, iter: nat)
    requires (forall ob :: ob in counts ==> counts[ob] > 0) && sequence in counts
    requires iter !in counts || iter == sequence
    ensures InlineForm(counts, iter) == counts
    ensures MacroForm(counts, sequence, iter) == counts <==> sequence == iter
    ensures iter !in counts ==>
              var after := MacroForm(counts, sequence, iter);
              iter in after && after[iter] == 1 && (sequence !in after <==> counts[sequence] == 1)
  {
    if iter !in counts {
      assert iter in MacroForm(counts, sequence, iter);
    }
  }

  // ----- after a sort

  function TieOf<T>(lo: (T, T) -> bool): (T, T) -> bool {
    (x, y) => Tie(lo, x, y)
  }

  ghost predicate Increasing<T>(lo: (T, T) -> bool, s: seq<T>) {
    forall i, j :: 0 <= i < j < |s| ==> lo(s[i], s[j])
  }

  lemma OrderedHeads<T(!new)>(lo: (T, T) -> bool, s: seq<T>)
    requires MergeSort.WeakOrder(lo) && MergeSort.InOrder(lo, s) && |s| > 1
    ensures Tie(lo, s[0], s[1]) || forall e :: e in s[1..] ==> lo(s[0], e)
  {
    var (x, y) := (s[0], s[1]);
    if !Tie(lo, x, y) {
      assert !lo(y, x) && lo(x, y);
      forall e | e in s[1..] ensures lo(x, e) {
        assert !lo(e, y);
        assert !lo(x, e) ==> !lo(x, y);
      }
    }
  }

  lemma TieTransitive<T(!new)>(lo: (T, T) -> bool, x: T, y: T, z: T)
    requires MergeSort.WeakOrder(lo) && Tie(lo, x, y) && Tie(lo, y, z)
    ensures Tie(lo, x, z)
  {
  }

  /** Every element of `s` ties with some element of `u`. */
  ghost predicate Represents<T>(lo: (T, T) -> bool, u: seq<T>, s: seq<T>) {
    forall e :: e in s ==> exists r :: r in u && Tie(lo, r, e)
  }

  lemma RepresentsTie<T(!new)>(lo: (T, T) -> bool, u: seq<T>, s: seq<T>)
    requires MergeSort.WeakOrder(lo) && |s| > 1 && Represents(lo, u, s[1..]) && Tie(lo, s[0], s[1])
    ensures Represents(lo, u, s)
  {
    var y := s[1];
    assert s[1..][0] == y && y in s[1..];
    var r :| r in u && Tie(lo, r, y);
    TieTransitive(lo, r, y, s[0]);
    forall e | e in s ensures exists r :: r in u && Tie(lo, r, e) {
      assert e == s[0] || e in s[1..];
    }
  }

  lemma RepresentsCons<T(!new)>(lo: (T, T) -> bool, u: seq<T>, s: seq<T>)
    requires MergeSort.WeakOrder(lo) && s != [] && Represents(lo, u, s[1..])
    ensures Represents(lo, [s[0]] + u, s)
  {
    var v := [s[0]] + u;
    assert s[0] in v && Tie(lo, s[0], s[0]);
    forall e | e in s ensures exists r :: r in v && Tie(lo, r, e) {
      if e != s[0] {
        assert e in s[1..];
        var r :| r in u && Tie(lo, r, e);
        assert r in v;
      }
    }
  }

  /** `u` is strictly increasing, comes from `s`, and represents all of it. */
  ghost predicate Condenses<T>(lo: (T, T) -> bool, u: seq<T>, s: seq<T>) {
    Increasing(lo, u) && (forall e :: e in u ==> e in s) && Represents(lo, u, s)
  }

  lemma CondensesTie<T(!new)>(lo: (T, T) -> bool, u: seq<T>, s: seq<T>)
    requires MergeSort.WeakOrder(lo) && |s| > 1 && Tie(lo, s[0], s[1]) && Condenses(lo, u, s[1..])
    ensures Condenses(lo, u, s)
  {
    RepresentsTie(lo, u, s);
    forall e | e in u ensures e in s {
      assert e in s[1..];
    }
  }

  lemma CondensesCons<T(!new)>(lo: (T, T) -> bool, u: seq<T>, s: seq<T>)
    requires MergeSort.WeakOrder(lo) && s != [] && Condenses(lo, u, s[1..])
    requires forall e :: e in s[1..] ==> lo(s[0], e)
    ensures Condenses(lo, [s[0]] + u, s)
  {
    RepresentsCons(lo, u, s);
    forall e | e in u ensures e in s && lo(s[0], e) {
      assert e in s[1..];
    }
    forall i, j | 0 <= i < j < |[s[0]] + u| ensures lo(([s[0]] + u)[i], ([s[0]] + u)[j]) {
      assert u[j - 1] in u;
    }
  }

  lemma KeepLastStep<T>(lo: (T, T) -> bool, s: seq<T>)
    requires |s| > 1
    ensures var u := KeepLast(TieOf(lo), s[1..]);
            KeepLast(TieOf(lo), s) == if Tie(lo, s[0], s[1]) then u else [s[0]] + u
  {
  }

  /**
   The unique elements of a list in order are strictly increasing, all of them come from the list, and every
   element of the list is represented by one of them.
   */
  lemma {:induction false} UniqueOfOrdered<T(!new)>(lo: (T, T) -> bool, s: seq<T>)
    requires MergeSort.WeakOrder(lo) && MergeSort.InOrder(lo, s)
    ensures Condenses(lo, KeepLast(TieOf(lo), s), s)
    decreases |s|
  {
    if |s| == 0 {
      return;
    }
    if |s| == 1 {
      CondensesCons(lo, [], s);
      assert [s[0]] + [] == s;
      return;
    }
    UniqueOfOrdered(lo, s[1..]);
    OrderedHeads(lo, s);
    KeepLastStep(lo, s);
    var u := KeepLast(TieOf(lo), s[1..]);
    if Tie(lo, s[0], s[1]) {
      CondensesTie(lo, u, s);
      return;
    }
    CondensesCons(lo, u, s);
  }
}
