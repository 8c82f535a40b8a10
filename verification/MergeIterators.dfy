/** Merging two iterators into a list, and inserting one element into a sorted list. */
module MergeIterators {
  import opened Common
  import opened MergeSort

  // ----- what is computed

  /** The merged list, or None when a comparison failed. On a tie the element of the right sequence comes first. */
  function Zip<T>(p: Pred<T>, calls: nat, a: seq<T>, b: seq<T>): Option<seq<T>>
    decreases |a| + |b|
  {
    if a == [] then Some(b)
    else if b == [] then Some(a)
    else
      match p(calls, a[0], b[0])
      case Failed => None
      case Less => Before(a[0], Zip(p, calls + 1, a[1..], b))
      case _ => Before(b[0], Zip(p, calls + 1, a, b[1..]))
  }

  function Before<T>(e: T, s: Option<seq<T>>): Option<seq<T>> {
    if s.None? then None else Some([e] + s.value)
  }

  // ----- the loops

  /** An iterator over `rest`, after which it is exhausted or, if `breaks`, raises an error. */
  class Iterator<T> {
    var rest: seq<T>
    const breaks: bool

    constructor (rest: seq<T>, breaks: bool)
      ensures this.rest == rest && this.breaks == breaks
    {
      this.rest, this.breaks := rest, breaks;
    }

    /** 0: an element; 1: exhausted; -1: an error. */
    method Next() returns (code: int, elem: Option<T>)
      modifies this
      ensures old(rest) != [] ==> code == 0 && elem.Some? && old(rest) == [elem.value] + rest
      ensures old(rest) == [] ==> code == (if breaks then -1 else 1) && elem == None && rest == []
    {
      if rest == [] {
        return if breaks then -1 else 1, None;
      }
      assert rest == [rest[0]] + rest[1..];
      code, elem, rest := 0, Some(rest[0]), rest[1..];
    }
  }

  /** Everything that is left of an iterator, appended to `result`. */
  method AppendIterator<T>(result: seq<T>, it: Iterator<T>) returns (r: Option<seq<T>>)
    modifies it
    ensures r == if it.breaks then None else Some(result + old(it.rest))
  {
    var s := result;
    var code, elem := it.Next();
    while code == 0
      invariant code == 0 ==> elem.Some? && s + [elem.value] + it.rest == result + old(it.rest)
      invariant code != 0 ==> s == result + old(it.rest) && code == (if it.breaks then -1 else 1)
      decreases |it.rest|, code == 0
    {
      s := s + [elem.value];
      code, elem := it.Next();
    }
    r := if code < 0 then None else Some(s);
  }

  function Behind<T>(done: seq<T>, s: Option<seq<T>>): Option<seq<T>> {
    if s.None? then None else Some(done + s.value)
  }

  lemma BehindNothing<T>(s: Option<seq<T>>)
    ensures Behind([], s) == s
  {
    if s.Some? {
      assert [] + s.value == s.value;
    }
  }

  lemma Regroup<T>(done: seq<T>, e: T, s: seq<T>)
    ensures done + [e] + s == done + ([e] + s)
  {
  }

  lemma BehindBefore<T>(done: seq<T>, e: T, s: Option<seq<T>>)
    ensures Behind(done, Before(e, s)) == Behind(done + [e], s)
  {
    if s.Some? {
      assert done + ([e] + s.value) == (done + [e]) + s.value;
    }
  }

  lemma ZipUnfolds<T>(p: Pred<T>, calls: nat, done: seq<T>, x: T, a: seq<T>, y: T, b: seq<T>)
    ensures var (z, verdict) := (Behind(done, Zip(p, calls, [x] + a, [y] + b)), p(calls, x, y));
            && (verdict.Failed? ==> z == None)
            && (verdict.Less? ==> z == Behind(done + [x], Zip(p, calls + 1, a, [y] + b)))
            && (!verdict.Failed? && !verdict.Less? ==> z == Behind(done + [y], Zip(p, calls + 1, [x] + a, b)))
  {
    assert ([x] + a)[1..] == a && ([y] + b)[1..] == b;
    BehindBefore(done, x, Zip(p, calls + 1, a, [y] + b));
    BehindBefore(done, y, Zip(p, calls + 1, [x] + a, b));
  }

  method Merge<T>(p: Pred<T>, lhs: Iterator<T>, rhs: Iterator<T>) returns (r: Option<seq<T>>)
    requires lhs != rhs
    modifies lhs, rhs
    ensures r == if lhs.breaks || rhs.breaks then None else Zip(p, 0, old(lhs.rest), old(rhs.rest))
  {
    ghost var all := Zip(p, 0, lhs.rest, rhs.rest);
    var code, lhsElem := lhs.Next();
    if code != 0 {
      if code < 0 {
        return None;
      }
      r := AppendIterator([], rhs);
      assert [] + old(rhs.rest) == old(rhs.rest);
      return;
    }
    var result: seq<T> := [];
    var rhsElem: Option<T>;
    code, rhsElem := rhs.Next();
    var calls := 0;
    BehindNothing(all);
    while code == 0
      invariant lhsElem.Some? && (code == 0 ==> rhsElem.Some?)
      invariant (code < 0 ==> rhs.breaks) && (code > 0 ==> !rhs.breaks)
      invariant code == 0 ==>
        all == Behind(result, Zip(p, calls, [lhsElem.value] + lhs.rest, [rhsElem.value] + rhs.rest))
      invariant code != 0 ==> all == Behind(result, Some([lhsElem.value] + lhs.rest))
      decreases |lhs.rest| + |rhs.rest|, code == 0
    {
      var x, y := lhsElem.value, rhsElem.value;
      ZipUnfolds(p, calls, result, x, lhs.rest, y, rhs.rest);
      ghost var (a, b) := (lhs.rest, rhs.rest);
      var verdict := p(calls, x, y);
      calls := calls + 1;
      if verdict == Failed {
        return None;
      }
      if verdict == Less {
        result := result + [x];
        code, lhsElem := lhs.Next();
        if code != 0 {
          if code < 0 {
            return None;
          }
          Regroup(result, y, b);
          r := AppendIterator(result + [y], rhs);
          return;
        }
      } else {
        result := result + [y];
        code, rhsElem := rhs.Next();
      }
    }
    if code < 0 {
      return None;
    }
    Regroup(result, lhsElem.value, lhs.rest);
    r := AppendIterator(result + [lhsElem.value], lhs);
  }

  // ----- when a merge succeeds

  /** The comparisons a merge makes, in order: of an element of the left input with one of the right. */
  function ZipAsks<T>(p: Pred<T>, calls: nat, a: seq<T>, b: seq<T>): seq<(T, T)>
    decreases |a| + |b|
  {
    if a == [] || b == [] then []
    else if p(calls, a[0], b[0]).Failed? then [(a[0], b[0])]
    else if p(calls, a[0], b[0]).Less? then [(a[0], b[0])] + ZipAsks(p, calls + 1, a[1..], b)
    else [(a[0], b[0])] + ZipAsks(p, calls + 1, a, b[1..])
  }

  /** There is a result exactly if none of the comparisons fails; so there is if the predicate never fails. */
  lemma {:induction false} ZipSucceedsIff<T(!new)>(p: Pred<T>, calls: nat, a: seq<T>, b: seq<T>)
    ensures Zip(p, calls, a, b).Some? <==> NoneFails(p, calls, ZipAsks(p, calls, a, b))
    ensures NeverFails(p) ==> Zip(p, calls, a, b).Some?
    decreases |a| + |b|
  {
    if a != [] && b != [] {
      var verdict := p(calls, a[0], b[0]);
      if verdict.Failed? {
        assert !NoneFails(p, calls, [(a[0], b[0])]) by {
          assert p(calls + 0, a[0], b[0]).Failed?;
        }
      } else if verdict.Less? {
        ZipSucceedsIff(p, calls + 1, a[1..], b);
        NoneFailsConcat(p, calls, [(a[0], b[0])], ZipAsks(p, calls + 1, a[1..], b));
      } else {
        ZipSucceedsIff(p, calls + 1, a, b[1..]);
        NoneFailsConcat(p, calls, [(a[0], b[0])], ZipAsks(p, calls + 1, a, b[1..]));
      }
    }
  }

  // ----- nothing lost, nothing reordered

  /** The elements of `out` whose mark in `fromLeft` is `side`. */
  function Marked<T>(out: seq<T>, fromLeft: seq<bool>, side: bool): seq<T>
    requires |out| == |fromLeft|
  {
    if out == [] then []
    else if fromLeft[0] == side then [out[0]] + Marked(out[1..], fromLeft[1..], side)
    else Marked(out[1..], fromLeft[1..], side)
  }

  lemma {:induction false} AllMarked<T>(out: seq<T>, side: bool)
    ensures Marked(out, seq(|out|, _ => side), side) == out
    ensures Marked(out, seq(|out|, _ => side), !side) == []
  {
    if out != [] {
      assert seq(|out|, _ => side)[1..] == seq(|out[1..]|, _ => side);
      AllMarked(out[1..], side);
    }
  }

  /** Which input each element of the merged list is taken from. */
  function Origins<T>(p: Pred<T>, calls: nat, a: seq<T>, b: seq<T>): (fromLeft: seq<bool>)
    requires Zip(p, calls, a, b).Some?
    ensures |fromLeft| == |Zip(p, calls, a, b).value|
    decreases |a| + |b|
  {
    if a == [] then seq(|b|, _ => false)
    else if b == [] then seq(|a|, _ => true)
    else if p(calls, a[0], b[0]).Less? then [true] + Origins(p, calls + 1, a[1..], b)
    else [false] + Origins(p, calls + 1, a, b[1..])
  }

  /**
   A successful merge is a shuffle: the elements taken from one input, in the order of the result, are that
   whole input in its own order. This holds whether or not the inputs are sorted.
   */
  lemma {:induction false} MergeShuffles<T>(p: Pred<T>, calls: nat, a: seq<T>, b: seq<T>)
    requires Zip(p, calls, a, b).Some?
    ensures var (out, fromLeft) := (Zip(p, calls, a, b).value, Origins(p, calls, a, b));
            Marked(out, fromLeft, true) == a && Marked(out, fromLeft, false) == b
    decreases |a| + |b|
  {
    if a == [] {
      AllMarked(b, false);
      return;
    }
    if b == [] {
      AllMarked(a, true);
      return;
    }
    var (out, fromLeft) := (Zip(p, calls, a, b).value, Origins(p, calls, a, b));
    if p(calls, a[0], b[0]).Less? {
      MergeShuffles(p, calls + 1, a[1..], b);
      assert out[1..] == Zip(p, calls + 1, a[1..], b).value && fromLeft[1..] == Origins(p, calls + 1, a[1..], b);
      return;
    }
    MergeShuffles(p, calls + 1, a, b[1..]);
    assert out[1..] == Zip(p, calls + 1, a, b[1..]).value && fromLeft[1..] == Origins(p, calls + 1, a, b[1..]);
  }

  lemma {:induction false} ShuffleConserves<T>(out: seq<T>, fromLeft: seq<bool>)
    requires |out| == |fromLeft|
    ensures multiset(out) == multiset(Marked(out, fromLeft, true)) + multiset(Marked(out, fromLeft, false))
  {
    if out != [] {
      ShuffleConserves(out[1..], fromLeft[1..]);
      assert out == [out[0]] + out[1..];
    }
  }

  /** Merging two ordered sequences gives an ordered one. */
  lemma {:induction false} ZipInOrder<T(!new)>(p: Pred<T>, lo: (T, T) -> bool, calls: nat, a: seq<T>, b: seq<T>)
    requires WeakOrder(lo) && Answers(p, lo) && InOrder(lo, a) && InOrder(lo, b) && Zip(p, calls, a, b).Some?
    ensures InOrder(lo, Zip(p, calls, a, b).value)
    decreases |a| + |b|
  {
    if a != [] && b != [] {
      var less := p(calls, a[0], b[0]).Less?;
      var (x, c, d) := if less then (a[0], a[1..], b) else (b[0], a, b[1..]);
      var out := Zip(p, calls + 1, c, d).value;
      ZipInOrder(p, lo, calls + 1, c, d);
      MergeShuffles(p, calls + 1, c, d);
      ShuffleConserves(out, Origins(p, calls + 1, c, d));
      forall e | e in out ensures !lo(e, x) {
        assert e in multiset(out) && (e in c || e in d);
      }
      InOrderCons(lo, x, out);
    }
  }

  // ----- the tie rule

  /** The predicate that always answers `lo`. */
  function Asking<T>(lo: (T, T) -> bool): Pred<T> {
    (n, a, b) => if lo(a, b) then Less else NotLess
  }

  /** The merge as documented: on a tie the element of the left sequence comes first. */
  function LeftFirst<T>(lo: (T, T) -> bool, a: seq<T>, b: seq<T>): seq<T>
    decreases |a| + |b|
  {
    if a == [] then b
    else if b == [] then a
    else if lo(b[0], a[0]) then [b[0]] + LeftFirst(lo, a, b[1..])
    else [a[0]] + LeftFirst(lo, a[1..], b)
  }

  /** The merge as written. */
  function RightFirst<T>(lo: (T, T) -> bool, a: seq<T>, b: seq<T>): seq<T>
    decreases |a| + |b|
  {
    if a == [] then b
    else if b == [] then a
    else if lo(a[0], b[0]) then [a[0]] + RightFirst(lo, a[1..], b)
    else [b[0]] + RightFirst(lo, a, b[1..])
  }

  lemma {:induction false} ZipIsRightFirst<T>(lo: (T, T) -> bool, calls: nat, a: seq<T>, b: seq<T>)
    ensures Zip(Asking(lo), calls, a, b) == Some(RightFirst(lo, a, b))
    decreases |a| + |b|
  {
    if a != [] && b != [] {
      if lo(a[0], b[0]) {
        ZipIsRightFirst(lo, calls + 1, a[1..], b);
      } else {
        ZipIsRightFirst(lo, calls + 1, a, b[1..]);
      }
    }
  }

  predicate Tie<T>(lo: (T, T) -> bool, x: T, y: T) {
    !lo(x, y) && !lo(y, x)
  }

  /** The merge comes to compare two elements the order does not tell apart. */
  predicate MeetsTie<T>(lo: (T, T) -> bool, a: seq<T>, b: seq<T>)
    decreases |a| + |b|
  {
    a != [] && b != []
    && (Tie(lo, a[0], b[0]) || if lo(a[0], b[0]) then MeetsTie(lo, a[1..], b) else MeetsTie(lo, a, b[1..]))
  }

  ghost predicate Distinct<T>(s: seq<T>) {
    forall i, j :: 0 <= i < j < |s| ==> s[i] != s[j]
  }

  /** For distinct elements, code and documentation agree exactly when the merge meets no tie. */
  lemma {:induction false} TieRule<T(!new)>(lo: (T, T) -> bool, a: seq<T>, b: seq<T>)
    requires WeakOrder(lo) && Distinct(a) && Distinct(b) && forall e :: e in a ==> e !in b
    ensures RightFirst(lo, a, b) == LeftFirst(lo, a, b) <==> !MeetsTie(lo, a, b)
    decreases |a| + |b|
  {
    if a == [] || b == [] {
      return;
    }
    if Tie(lo, a[0], b[0]) {
      assert RightFirst(lo, a, b)[0] == b[0] && LeftFirst(lo, a, b)[0] == a[0];
      assert a[0] in a && b[0] in b;
      return;
    }
    if lo(a[0], b[0]) {
      TieRule(lo, a[1..], b);
      assert RightFirst(lo, a, b)[1..] == RightFirst(lo, a[1..], b);
      assert LeftFirst(lo, a, b)[1..] == LeftFirst(lo, a[1..], b);
      return;
    }
    TieRule(lo, a, b[1..]);
    assert RightFirst(lo, a, b)[1..] == RightFirst(lo, a, b[1..]);
    assert LeftFirst(lo, a, b)[1..] == LeftFirst(lo, a, b[1..]);
  }

  /** A merge of ordered inputs meets a tie exactly when some element of one ties with some element of the other. */
  lemma {:induction false} OrderedTie<T(!new)>(lo: (T, T) -> bool, a: seq<T>, b: seq<T>)
    requires WeakOrder(lo) && InOrder(lo, a) && InOrder(lo, b)
    ensures MeetsTie(lo, a, b) <==> exists i, j :: 0 <= i < |a| && 0 <= j < |b| && Tie(lo, a[i], b[j])
    decreases |a| + |b|
  {
    if a == [] || b == [] || Tie(lo, a[0], b[0]) {
      return;
    }
    if lo(a[0], b[0]) {
      OrderedTie(lo, a[1..], b);
      forall j | 0 <= j < |b| ensures !Tie(lo, a[0], b[j]) {
        var (x, y, z) := (a[0], b[0], b[j]);
        assert !lo(z, y);
        assert !lo(x, z) ==> !lo(x, y);
      }
      forall i, j | 0 <= i < |a| && 0 <= j < |b| && Tie(lo, a[i], b[j]) ensures Tie(lo, a[1..][i - 1], b[j]) {
        assert i > 0;
      }
      return;
    }
    OrderedTie(lo, a, b[1..]);
    forall i | 0 <= i < |a| ensures !Tie(lo, a[i], b[0]) {
      var (x, y, z) := (b[0], a[0], a[i]);
      assert !lo(z, y);
      assert !lo(x, z) ==> !lo(x, y);
    }
    forall i, j | 0 <= i < |a| && 0 <= j < |b| && Tie(lo, a[i], b[j]) ensures Tie(lo, a[i], b[1..][j - 1]) {
      assert j > 0;
    }
  }

  const SMALLER := (x: int, y: int) => x < y

  /** The documented example on unordered lists needs the documented tie rule; the code gives another list. */
  lemma DocumentedTie()
    ensures LeftFirst(SMALLER, [4, 1, 7, 3], [2, 1, 4, 6]) == [2, 1, 4, 1, 4, 6, 7, 3]
  {
    var lo := SMALLER;
    assert LeftFirst(lo, [7, 3], [4, 6]) == [4, 6, 7, 3];
    assert LeftFirst(lo, [1, 7, 3], [4, 6]) == [1, 4, 6, 7, 3];
    assert LeftFirst(lo, [4, 1, 7, 3], [1, 4, 6]) == [1, 4, 1, 4, 6, 7, 3];
  }

  lemma WrittenTie()
    ensures RightFirst(SMALLER, [4, 1, 7, 3], [2, 1, 4, 6]) == [2, 1, 4, 4, 1, 6, 7, 3]
  {
    var lo := SMALLER;
    assert RightFirst(lo, [7, 3], [6]) == [6, 7, 3];
    assert RightFirst(lo, [4, 1, 7, 3], [6]) == [4, 1, 6, 7, 3];
    assert RightFirst(lo, [4, 1, 7, 3], [1, 4, 6]) == [1, 4, 4, 1, 6, 7, 3];
  }

  // ----- sorted insert

  /** The list with `e` in front of the first element that is not less; None when a comparison failed. */
  function Insertion<T>(p: Pred<T>, calls: nat, s: seq<T>, e: T): Option<seq<T>>
    decreases |s|
  {
    if s == [] then Some([e])
    else
      match p(calls, s[0], e)
      case Failed => None
      case NotLess => Some([e] + s)
      case _ => Before(s[0], Insertion(p, calls + 1, s[1..], e))
  }

  /** The first `i` elements are less than `e`, or could not be compared for lack of an operator. */
  ghost predicate SteppedOver<T>(p: Pred<T>, s: seq<T>, e: T, i: nat)
    requires i <= |s|
  {
    forall j :: 0 <= j < i ==> p(j, s[j], e).Less? || p(j, s[j], e).NotImplemented?
  }

  /** Stepping over an element that is not greater, or could not be compared. */
  lemma InsertionSteps<T>(p: Pred<T>, s: seq<T>, i: nat, e: T)
    requires i < |s| && p(i, s[i], e) != Failed && p(i, s[i], e) != NotLess
    ensures Behind(s[..i], Insertion(p, i, s[i..], e)) == Behind(s[..i + 1], Insertion(p, i + 1, s[i + 1..], e))
  {
    assert s[i..][0] == s[i] && s[i..][1..] == s[i + 1..] && s[..i + 1] == s[..i] + [s[i]];
    BehindBefore(s[..i], s[i], Insertion(p, i + 1, s[i + 1..], e));
  }

  lemma InsertionStops<T>(p: Pred<T>, s: seq<T>, i: nat, e: T)
    requires i <= |s| && (i < |s| ==> p(i, s[i], e) == NotLess)
    ensures Behind(s[..i], Insertion(p, i, s[i..], e)) == Some(s[..i] + [e] + s[i..])
  {
    if i < |s| {
      assert s[i..][0] == s[i];
    } else {
      assert [e] + s[i..] == [e];
    }
    assert Insertion(p, i, s[i..], e) == Some([e] + s[i..]);
    assert s[..i] + ([e] + s[i..]) == s[..i] + [e] + s[i..];
  }

  class SortedList<T> {
    var elems: seq<T>

    constructor (elems: seq<T>)
      ensures this.elems == elems
    {
      this.elems := elems;
    }

    /** Fails exactly at the first element it does not step over, if it cannot compare that one; else inserts there. */
    method SortedInsert(p: Pred<T>, elem: T) returns (ok: bool)
      modifies this
      ensures var r := Insertion(p, 0, old(elems), elem);
              ok == r.Some? && elems == if ok then r.value else old(elems)
      ensures var s := old(elems);
              exists i ::
                && 0 <= i <= |s| && SteppedOver(p, s, elem, i)
                && (i < |s| ==> p(i, s[i], elem) == if ok then NotLess else Failed)
                && (i == |s| ==> ok) && elems == if ok then s[..i] + [elem] + s[i..] else s
    {
      var i := 0;
      BehindNothing(Insertion(p, 0, elems, elem));
      assert elems[..0] == [] && elems[0..] == elems;
      while i < |elems|
        invariant 0 <= i <= |elems| && elems == old(elems) && SteppedOver(p, elems, elem, i)
        invariant Insertion(p, 0, elems, elem) == Behind(elems[..i], Insertion(p, i, elems[i..], elem))
      {
        var verdict := p(i, elems[i], elem);
        if verdict == Failed {
          return false;
        }
        if verdict == NotLess {
          break;
        }
        InsertionSteps(p, elems, i, elem);
        i := i + 1;
      }
      InsertionStops(p, elems, i, elem);
      elems := elems[..i] + [elem] + elems[i..];
      ok := true;
    }
  }

  /** The first answer other than "less" is an ignored error. */
  predicate MeetsIgnored<T>(p: Pred<T>, calls: nat, s: seq<T>, e: T)
    decreases |s|
  {
    s != [] && (p(calls, s[0], e).NotImplemented? || (p(calls, s[0], e).Less? && MeetsIgnored(p, calls + 1, s[1..], e)))
  }

  /**
   Inserting a new element is merging with the list that holds only that element, unless an error is ignored on
   the way: the merge then takes the new element at once, the insertion steps over the element it could not compare.
   */
  lemma {:induction false} InsertIsMerge<T>(p: Pred<T>, calls: nat, s: seq<T>, e: T)
    ensures !MeetsIgnored(p, calls, s, e) ==> Insertion(p, calls, s, e) == Zip(p, calls, s, [e])
    ensures MeetsIgnored(p, calls, s, e) && e !in s ==> Insertion(p, calls, s, e) != Zip(p, calls, s, [e])
    decreases |s|
  {
    if s == [] {
      return;
    }
    if p(calls, s[0], e).Less? {
      InsertIsMerge(p, calls + 1, s[1..], e);
      var (x, y) := (Insertion(p, calls + 1, s[1..], e), Zip(p, calls + 1, s[1..], [e]));
      assert x.Some? ==> Before(s[0], x).value[1..] == x.value;
      assert y.Some? ==> Before(s[0], y).value[1..] == y.value;
      return;
    }
    if p(calls, s[0], e).Failed? {
      return;
    }
    assert [e][1..] == [] && Zip(p, calls, s, [e]) == Some([e] + s);
    assert ([e] + s)[0] == e;
  }

  /** A list that is in order stays so, and gains exactly the new element. */
  lemma InsertKeepsOrder<T(!new)>(p: Pred<T>, lo: (T, T) -> bool, s: seq<T>, e: T)
    requires WeakOrder(lo) && Answers(p, lo) && InOrder(lo, s)
    requires !MeetsIgnored(p, 0, s, e) && Insertion(p, 0, s, e).Some?
    ensures var out := Insertion(p, 0, s, e).value; InOrder(lo, out) && multiset(out) == multiset(s) + multiset{e}
  {
    InsertIsMerge(p, 0, s, e);
    ZipInOrder(p, lo, 0, s, [e]);
    MergeShuffles(p, 0, s, [e]);
    ShuffleConserves(Insertion(p, 0, s, e).value, Origins(p, 0, s, [e]));
  }
}
