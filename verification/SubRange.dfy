/** The sub-range iterator used by one thread: what it yields, what it consumes, and when it comes back to life. */
module SubRange {
  import opened Common
  import opened MergeIterators

  /** What `next` reports, and the state it leaves: the counter and what is left of the source. */
  datatype Call<T> = Call(code: int, elem: Option<T>, pos: nat, rest: seq<T>)

  /** A `Dee_size_t` counter: `size` is the number of values it can have. */
  predicate Sized(size: nat, pos: nat, begin: nat, end: nat) {
    pos < size && begin < size && end < size
  }

  /** Incrementing wraps around. */
  function Inc(size: nat, pos: nat): nat {
    if pos + 1 == size then 0 else pos + 1
  }

  /** One call: the counter moves on before the source is asked. */
  function NextOf<T>(size: nat, begin: nat, end: nat, pos: nat, rest: seq<T>, breaks: bool): (r: Call<T>)
    requires Sized(size, pos, begin, end)
    ensures r.pos < size && |r.rest| <= |rest| && (r.code == 0 <==> r.elem.Some?) && (r.code == 0 ==> |r.rest| < |rest|)
    decreases |rest|
  {
    var pos' := Inc(size, pos);
    if pos >= end then Call(1, None, pos', rest)
    else if rest == [] then Call(if breaks then -1 else 1, None, pos', [])
    else if pos >= begin then Call(0, Some(rest[0]), pos', rest[1..])
    else NextOf(size, begin, end, pos', rest[1..], breaks)
  }

  class SubRangeIterator<T> {
    const iter: Iterator<T>
    const size: nat
    const begin: nat
    const end: nat
    var pos: nat

    ghost predicate Valid()
      reads this
    {
      Sized(size, pos, begin, end)
    }

    constructor (iter: Iterator<T>, begin: nat, end: nat, size: nat)
      requires begin < size && end < size
      ensures Valid() && this.iter == iter && this.begin == begin && this.end == end && this.size == size && pos == 0
    {
      this.iter, this.begin, this.end, this.size, pos := iter, begin, end, size, 0;
    }

    method Next() returns (code: int, elem: Option<T>)
      requires Valid()
      modifies this, iter
      ensures Valid()
      ensures NextOf(size, begin, end, old(pos), old(iter.rest), iter.breaks) == Call(code, elem, pos, iter.rest)
    {
      while true
        invariant Valid()
        invariant NextOf(size, begin, end, old(pos), old(iter.rest), iter.breaks)
               == NextOf(size, begin, end, pos, iter.rest, iter.breaks)
        decreases |iter.rest|
      {
        var myIndex := pos;
        pos := Inc(size, pos);
        if myIndex >= end {
          return 1, None;
        }
        ghost var rest := iter.rest;
        code, elem := iter.Next();
        if code != 0 {
          return code, None;
        }
        assert rest[1..] == iter.rest;
        if myIndex >= begin {
          return 0, elem;
        }
      }
    }
  }

  // ----- draining

  /** All elements a fresh consumer gets, and what is left of the source afterwards. */
  datatype Drained<T> = Drained(out: seq<T>, code: int, pos: nat, rest: seq<T>)

  function Drain<T>(size: nat, begin: nat, end: nat, pos: nat, rest: seq<T>, breaks: bool): (d: Drained<T>)
    requires Sized(size, pos, begin, end)
    ensures d.pos < size
    decreases |rest|
  {
    var r := NextOf(size, begin, end, pos, rest, breaks);
    if r.code != 0 then Drained([], r.code, r.pos, r.rest)
    else var d := Drain(size, begin, end, r.pos, r.rest, breaks); d.(out := [r.elem.value] + d.out)
  }

  /** Elements `begin` to `end` of `s`, cut off at its end. */
  function Slice<T>(s: seq<T>, begin: nat, end: nat): seq<T> {
    var e := Min(end, |s|);
    s[Min(begin, e)..e]
  }

  lemma {:induction false} SkipToBegin<T>(size: nat, begin: nat, end: nat, pos: nat, rest: seq<T>, breaks: bool)
    requires Sized(size, pos, begin, end) && pos <= begin < end && pos + |rest| > begin
    ensures var r := NextOf(size, begin, end, pos, rest, breaks);
            r == Call(0, Some(rest[begin - pos]), begin + 1, rest[begin - pos + 1..])
    decreases |rest|
  {
    if pos < begin {
      SkipToBegin(size, begin, end, pos + 1, rest[1..], breaks);
    }
  }

  lemma {:induction false} SkipAll<T>(size: nat, begin: nat, end: nat, pos: nat, rest: seq<T>, breaks: bool)
    requires Sized(size, pos, begin, end) && pos <= end && (begin >= end || pos + |rest| <= begin)
    ensures var r := NextOf(size, begin, end, pos, rest, breaks); var k := Min(end - pos, |rest|);
            r.elem == None && r.rest == rest[k..] && r.pos == Inc(size, pos + k)
            && r.code == if |rest| < end - pos && breaks then -1 else 1
    decreases |rest|
  {
    if pos < end && rest != [] {
      SkipAll(size, begin, end, pos + 1, rest[1..], breaks);
    }
  }

  lemma {:induction false} DrainInside<T>(size: nat, begin: nat, end: nat, pos: nat, rest: seq<T>, breaks: bool)
    requires Sized(size, pos, begin, end) && begin <= pos <= end
    ensures var d := Drain(size, begin, end, pos, rest, breaks); var k := Min(end - pos, |rest|);
            d == Drained(rest[..k], if |rest| < end - pos && breaks then -1 else 1, Inc(size, pos + k), rest[k..])
    decreases |rest|
  {
    if pos < end && rest != [] {
      DrainInside(size, begin, end, pos + 1, rest[1..], breaks);
      assert rest[..Min(end - pos, |rest|)] == [rest[0]] + rest[1..][..Min(end - pos, |rest|) - 1];
    }
  }

  lemma SliceParts<T>(s: seq<T>, begin: nat, end: nat, rest: seq<T>, k: nat, e: nat)
    requires begin < end && begin < |s| && rest == s[begin + 1..] && e == Min(end, |s|)
    requires k == Min(end - (begin + 1), |rest|)
    ensures begin + 1 + k == e && [s[begin]] + rest[..k] == s[begin..e] && rest[k..] == s[e..]
    ensures |rest| < end - (begin + 1) <==> |s| < end
  {
  }

  lemma SliceNext<T>(t: seq<T>, j: nat, begin: nat, end: nat)
    requires j < |t| && j < end
    ensures var later := Slice(t[j + 1..], if begin > j + 1 then begin - (j + 1) else 0, end - (j + 1));
            Slice(t[j..], if begin > j then begin - j else 0, end - j) == if j >= begin then [t[j]] + later else later
  {
  }

  /**
   A sub-range iterator yields exactly the elements asked for, consumes exactly the source elements in front of
   `end`, and reports an error only if the source breaks before that.
   */
  lemma SubRangeExact<T>(size: nat, begin: nat, end: nat, s: seq<T>, breaks: bool)
    requires begin < size && end < size
    ensures var e := Min(end, |s|);
            Drain(size, begin, end, 0, s, breaks)
              == Drained(Slice(s, begin, end), if |s| < end && breaks then -1 else 1, Inc(size, e), s[e..])
  {
    if begin < end && begin < |s| {
      DrainFromBegin(size, begin, end, s, breaks);
      return;
    }
    SkipAll(size, begin, end, 0, s, breaks);
    var e := Min(end, |s|);
    assert s[Min(begin, e)..e] == [];
  }

  lemma DrainFromBegin<T>(size: nat, begin: nat, end: nat, s: seq<T>, breaks: bool)
    requires begin < end < size && begin < |s|
    ensures var e := Min(end, |s|);
            Drain(size, begin, end, 0, s, breaks)
              == Drained(s[begin..e], if |s| < end && breaks then -1 else 1, Inc(size, e), s[e..])
  {
    var rest := s[begin + 1..];
    var k := Min(end - (begin + 1), |rest|);
    SliceParts(s, begin, end, rest, k, Min(end, |s|));
    SkipToBegin(size, begin, end, 0, s, breaks);
    DrainInside(size, begin, end, begin + 1, rest, breaks);
    DrainMore(size, begin, end, 0, s, breaks, s[begin], begin + 1, rest);
  }

  /** Draining after a call that yields. */
  lemma DrainMore<T>(size: nat, begin: nat, end: nat, pos: nat, rest: seq<T>, breaks: bool, elem: T, pos': nat,
                     rest': seq<T>)
    requires Sized(size, pos, begin, end) && pos' < size
    requires NextOf(size, begin, end, pos, rest, breaks) == Call(0, Some(elem), pos', rest')
    ensures var d := Drain(size, begin, end, pos', rest', breaks);
            Drain(size, begin, end, pos, rest, breaks) == Drained([elem] + d.out, d.code, d.pos, d.rest)
  {
  }

  /** The documented program yields the same, but takes one element more whenever the source goes on. */
  lemma AgainstDocumentation<T>(size: nat, begin: nat, end: nat, s: seq<T>, breaks: bool)
    requires begin < size && end < size
    ensures var (d, doc) := (Drain(size, begin, end, 0, s, breaks), Documented(s, begin, end));
            d.out == doc.0 && (d.rest == doc.1 <==> |s| <= end)
  {
    SubRangeExact(size, begin, end, s, breaks);
    DocumentedExact(s, begin, end, 0);
  }

  /** The documented program, from element number `pos` on: what it yields and what it leaves of the source. */
  function DocumentedFrom<T>(s: seq<T>, begin: nat, end: nat, pos: nat): (seq<T>, seq<T>) {
    if s == [] then ([], [])
    else if pos >= end then ([], s[1..])
    else
      var (out, rest) := DocumentedFrom(s[1..], begin, end, pos + 1);
      (if pos >= begin then [s[0]] + out else out, rest)
  }

  function Documented<T>(s: seq<T>, begin: nat, end: nat): (seq<T>, seq<T>) {
    DocumentedFrom(s, begin, end, 0)
  }

  lemma {:induction false} DocumentedExact<T>(s: seq<T>, begin: nat, end: nat, pos: nat)
    requires pos <= end
    ensures var (out, rest) := DocumentedFrom(s, begin, end, pos);
            && out == Slice(s, if begin > pos then begin - pos else 0, end - pos)
            && rest == s[Min(|s|, end - pos + 1)..]
    decreases |s|
  {
    if s != [] && pos < end {
      DocumentedExact(s[1..], begin, end, pos + 1);
      SliceNext(s, 0, if begin > pos then begin - pos else 0, end - pos);
      assert s[0..] == s;
    }
  }

  // ----- sub-ranges of sub-ranges

  /** Addition that stops at the largest value, which stands for "to the end". */
  function SatAdd(size: nat, a: nat, b: nat): nat
    requires a < size && b < size
  {
    if a + b < size then a + b else size - 1
  }

  lemma SliceOfSlice<T>(s: seq<T>, i: nat, j: nat, k: nat, l: nat)
    requires i <= j <= |s| && k <= l <= j - i
    ensures s[i..j][k..l] == s[i + k..i + l]
  {
    var (m, a, b) := (s[i..j], s[i..j][k..l], s[i + k..i + l]);
    forall x | 0 <= x < l - k ensures a[x] == b[x] {
      assert a[x] == m[k + x] == s[i + k + x];
    }
  }

  lemma SlicesFuse<T>(size: nat, a: nat, b: nat, c: nat, d: nat, s: seq<T>)
    requires a < size && b < size && c < size && d < size
    ensures Slice(Slice(s, a, b), c, d) == Slice(s, SatAdd(size, a, c), Min(b, SatAdd(size, a, d)))
  {
    var e := Min(b, |s|);
    var start := Min(a, e);
    var mid := Slice(s, a, b);
    assert mid == s[start..e];
    var f := Min(d, |mid|);
    SliceOfSlice(s, start, e, Min(c, f), f);
    assert start + f == Min(Min(b, SatAdd(size, a, d)), |s|);
    assert start + Min(c, f) == Min(SatAdd(size, a, c), start + f);
  }

  /** The bounds of an iterator and of the iterator it draws from, for counters with `size` values. */
  datatype Nesting = Nesting(size: nat, begin: nat, end: nat, innerBegin: nat, innerEnd: nat)

  predicate NestedSized(n: Nesting, outer: nat, inner: nat) {
    Sized(n.size, outer, n.begin, n.end) && Sized(n.size, inner, n.innerBegin, n.innerEnd)
  }

  /** What `next` of the outer iterator reports, both counters, and what is left of the inner one's source. */
  datatype NestedCall<T> = NestedCall(code: int, elem: Option<T>, outer: nat, inner: nat, rest: seq<T>)

  /** One call of an iterator whose source is another sub-range iterator. */
  function NestedNext<T>(n: Nesting, outer: nat, inner: nat, rest: seq<T>, breaks: bool): (r: NestedCall<T>)
    requires NestedSized(n, outer, inner)
    ensures NestedSized(n, r.outer, r.inner) && |r.rest| <= |rest|
    ensures (r.code == 0 <==> r.elem.Some?) && (r.code == 0 ==> |r.rest| < |rest|)
    decreases |rest|
  {
    var outer' := Inc(n.size, outer);
    if outer >= n.end then NestedCall(1, None, outer', inner, rest)
    else
      var r := NextOf(n.size, n.innerBegin, n.innerEnd, inner, rest, breaks);
      if r.code != 0 then NestedCall(r.code, None, outer', r.pos, r.rest)
      else if outer >= n.begin then NestedCall(0, r.elem, outer', r.pos, r.rest)
      else NestedNext(n, outer', r.pos, r.rest, breaks)
  }

  function NestedDrain<T>(n: Nesting, outer: nat, inner: nat, rest: seq<T>, breaks: bool): (d: Drained<T>)
    requires NestedSized(n, outer, inner)
    decreases |rest|
  {
    var r := NestedNext(n, outer, inner, rest, breaks);
    if r.code != 0 then Drained([], r.code, r.outer, r.rest)
    else var d := NestedDrain(n, r.outer, r.inner, r.rest, breaks); d.(out := [r.elem.value] + d.out)
  }

  /** The inner iterator after it has yielded `j` elements of `s`. */
  function InnerPos(a: nat, j: nat): nat {
    if j == 0 then 0 else a + j
  }

  function InnerRest<T>(s: seq<T>, a: nat, j: nat): seq<T>
    requires j == 0 || a + j <= |s|
  {
    if j == 0 then s else s[a + j..]
  }

  lemma InnerYields<T>(size: nat, a: nat, b: nat, s: seq<T>, breaks: bool, j: nat)
    requires a < size && b < size && j < |Slice(s, a, b)|
    ensures NextOf(size, a, b, InnerPos(a, j), InnerRest(s, a, j), breaks)
         == Call(0, Some(Slice(s, a, b)[j]), InnerPos(a, j + 1), InnerRest(s, a, j + 1))
  {
    assert a + j < b && a + j < |s| && Slice(s, a, b)[j] == s[a + j];
    if j == 0 {
      SkipToBegin(size, a, b, 0, s, breaks);
    } else {
      assert s[a + j..][1..] == s[a + j + 1..];
    }
  }

  lemma InnerEnds<T>(size: nat, a: nat, b: nat, s: seq<T>, breaks: bool)
    requires a < size && b < size
    ensures var (j, e) := (|Slice(s, a, b)|, Min(b, |s|));
            var r := NextOf(size, a, b, InnerPos(a, j), InnerRest(s, a, j), breaks);
            r.code == (if |s| < b && breaks then -1 else 1) && r.rest == s[e..]
  {
    if |Slice(s, a, b)| == 0 {
      SkipAll(size, a, b, 0, s, breaks);
    }
  }

  /** A call of the outer iterator that skips an element is followed by one that sees the next. */
  lemma NestedStep<T>(n: Nesting, outer: nat, inner: nat, rest: seq<T>, breaks: bool)
    requires NestedSized(n, outer, inner) && outer < n.end
    requires NextOf(n.size, n.innerBegin, n.innerEnd, inner, rest, breaks).code == 0
    ensures var r := NextOf(n.size, n.innerBegin, n.innerEnd, inner, rest, breaks);
            var d := NestedDrain(n, outer + 1, r.pos, r.rest, breaks);
            NestedDrain(n, outer, inner, rest, breaks) ==
              if outer >= n.begin then d.(out := [r.elem.value] + d.out) else d
  {
  }

  /** What is left of the source, and the code, once the outer iterator has ended. */
  function NestedLeft<T>(n: Nesting, s: seq<T>): seq<T> {
    if n.end == 0 then s
    else if n.end <= |Slice(s, n.innerBegin, n.innerEnd)| then s[n.innerBegin + n.end..]
    else s[Min(n.innerEnd, |s|)..]
  }

  function NestedCode<T>(n: Nesting, s: seq<T>, breaks: bool): int {
    if |Slice(s, n.innerBegin, n.innerEnd)| < n.end && |s| < n.innerEnd && breaks then -1 else 1
  }

  /** While both have elements, each call takes one. */
  lemma NestedOne<T>(n: Nesting, s: seq<T>, breaks: bool, j: nat)
    requires NestedSized(n, 0, 0) && j < |Slice(s, n.innerBegin, n.innerEnd)| && j < n.end
    ensures InnerPos(n.innerBegin, j) < n.size && InnerPos(n.innerBegin, j + 1) < n.size
    ensures var d := NestedDrain(n, j + 1, InnerPos(n.innerBegin, j + 1), InnerRest(s, n.innerBegin, j + 1), breaks);
            NestedDrain(n, j, InnerPos(n.innerBegin, j), InnerRest(s, n.innerBegin, j), breaks) ==
              if j >= n.begin then d.(out := [Slice(s, n.innerBegin, n.innerEnd)[j]] + d.out) else d
  {
    InnerYields(n.size, n.innerBegin, n.innerEnd, s, breaks, j);
    NestedStep(n, j, InnerPos(n.innerBegin, j), InnerRest(s, n.innerBegin, j), breaks);
  }

  /** The outer iterator ends by itself or with the inner one. */
  lemma NestedLast<T>(n: Nesting, s: seq<T>, breaks: bool, j: nat)
    requires NestedSized(n, 0, 0) && j == Min(|Slice(s, n.innerBegin, n.innerEnd)|, n.end)
    ensures InnerPos(n.innerBegin, j) < n.size
    ensures var d := NestedDrain(n, j, InnerPos(n.innerBegin, j), InnerRest(s, n.innerBegin, j), breaks);
            d.out == [] && d.code == NestedCode(n, s, breaks) && d.rest == NestedLeft(n, s)
  {
    if j < n.end {
      InnerEnds(n.size, n.innerBegin, n.innerEnd, s, breaks);
    }
  }

  /** What a nested drain comes to once `j` elements have been taken from the inner iterator. */
  ghost predicate NestedExact<T>(n: Nesting, s: seq<T>, breaks: bool, j: nat, d: Drained<T>)
    requires j <= |Slice(s, n.innerBegin, n.innerEnd)| && j <= n.end
  {
    var t := Slice(s, n.innerBegin, n.innerEnd);
    && d.out == Slice(t[j..], if n.begin > j then n.begin - j else 0, n.end - j)
    && d.code == NestedCode(n, s, breaks) && d.rest == NestedLeft(n, s)
  }

  lemma NestedMore<T>(n: Nesting, s: seq<T>, breaks: bool, j: nat, d: Drained<T>)
    requires j < |Slice(s, n.innerBegin, n.innerEnd)| && j < n.end && NestedExact(n, s, breaks, j + 1, d)
    ensures NestedExact(n, s, breaks, j,
              if j >= n.begin then d.(out := [Slice(s, n.innerBegin, n.innerEnd)[j]] + d.out) else d)
  {
    SliceNext(Slice(s, n.innerBegin, n.innerEnd), j, n.begin, n.end);
  }

  lemma {:induction false} NestedFrom<T>(n: Nesting, s: seq<T>, breaks: bool, j: nat)
    requires NestedSized(n, 0, 0) && j <= |Slice(s, n.innerBegin, n.innerEnd)| && j <= n.end
    ensures InnerPos(n.innerBegin, j) < n.size
    ensures NestedExact(n, s, breaks, j,
              NestedDrain(n, j, InnerPos(n.innerBegin, j), InnerRest(s, n.innerBegin, j), breaks))
    decreases n.end - j
  {
    if j < n.end && j < |Slice(s, n.innerBegin, n.innerEnd)| {
      NestedFrom(n, s, breaks, j + 1);
      NestedOne(n, s, breaks, j);
      NestedMore(n, s, breaks, j,
        NestedDrain(n, j + 1, InnerPos(n.innerBegin, j + 1), InnerRest(s, n.innerBegin, j + 1), breaks));
    } else {
      NestedLast(n, s, breaks, j);
    }
  }

  /**
   A sub-range of a sub-range yields what one sub-range of the source does, for all bounds a counter can hold. It
   ends with the same code and leaves the same of the source exactly if it may yield something, or the source has
   nothing to skip: otherwise the nested one never asks, where the fused one takes all up to its end.
   */
  lemma SubRangesFuse<T>(n: Nesting, s: seq<T>, breaks: bool)
    requires NestedSized(n, 0, 0)
    ensures var (begin, end) := (SatAdd(n.size, n.innerBegin, n.begin),
                                 Min(n.innerEnd, SatAdd(n.size, n.innerBegin, n.end)));
            var (nested, fused) := (NestedDrain(n, 0, 0, s, breaks), Drain(n.size, begin, end, 0, s, breaks));
            && nested.out == fused.out
            && (nested.code == fused.code && nested.rest == fused.rest <==>
                n.end > 0 || n.innerBegin == 0 || n.innerEnd == 0 || (s == [] && !breaks))
  {
    var end := Min(n.innerEnd, SatAdd(n.size, n.innerBegin, n.end));
    var t := Slice(s, n.innerBegin, n.innerEnd);
    SlicesFuse(n.size, n.innerBegin, n.innerEnd, n.begin, n.end, s);
    SubRangeExact(n.size, SatAdd(n.size, n.innerBegin, n.begin), end, s, breaks);
    NestedFrom(n, s, breaks, 0);
    assert t[0..] == t;
    FusedLeft(n, s, breaks, end);
  }

  /** Both leave the same, with the same code, if the nested one asks at all; else if the fused one takes nothing. */
  lemma FusedLeft<T>(n: Nesting, s: seq<T>, breaks: bool, end: nat)
    requires NestedSized(n, 0, 0) && end == Min(n.innerEnd, SatAdd(n.size, n.innerBegin, n.end))
    ensures var code := if |s| < end && breaks then -1 else 1;
            (NestedCode(n, s, breaks) == code && NestedLeft(n, s) == s[Min(end, |s|)..]) <==>
            (n.end > 0 || n.innerBegin == 0 || n.innerEnd == 0 || (s == [] && !breaks))
  {
    if n.end == 0 {
      SuffixIsAll(s, Min(end, |s|));
    } else {
      FusedAsks(n, s, breaks, end);
    }
  }

  lemma SuffixIsAll<T>(s: seq<T>, e: nat)
    requires e <= |s|
    ensures s[e..] == s <==> e == 0
  {
    assert |s[e..]| == |s| - e;
  }

  lemma FusedAsks<T>(n: Nesting, s: seq<T>, breaks: bool, end: nat)
    requires NestedSized(n, 0, 0) && end == Min(n.innerEnd, SatAdd(n.size, n.innerBegin, n.end)) && n.end > 0
    ensures NestedCode(n, s, breaks) == (if |s| < end && breaks then -1 else 1)
    ensures NestedLeft(n, s) == s[Min(end, |s|)..]
  {
    var e := Min(n.innerEnd, |s|);
    var t := |Slice(s, n.innerBegin, n.innerEnd)|;
    assert t == e - Min(n.innerBegin, e);
    if n.end <= t {
      assert Min(end, |s|) == n.innerBegin + n.end;
    } else {
      assert Min(end, |s|) == e;
    }
  }

  // ----- after the end

  /** What the `k`-th further call reports. */
  function Later<T>(size: nat, begin: nat, end: nat, pos: nat, rest: seq<T>, breaks: bool, k: nat): (r: Call<T>)
    requires Sized(size, pos, begin, end)
    ensures r.pos < size
    decreases k
  {
    var r := NextOf(size, begin, end, pos, rest, breaks);
    if k == 0 then r else Later(size, begin, end, r.pos, r.rest, breaks, k - 1)
  }

  lemma {:induction false} StaysEnded<T>(size: nat, begin: nat, end: nat, pos: nat, rest: seq<T>, breaks: bool, k: nat)
    requires Sized(size, pos, begin, end) && end <= pos && pos + k < size
    ensures Later(size, begin, end, pos, rest, breaks, k) == Call(1, None, Inc(size, pos + k), rest)
    decreases k
  {
    if k > 0 {
      StaysEnded(size, begin, end, pos + 1, rest, breaks, k - 1);
    }
  }

  /** Calls after `k` calls are calls from the state those leave. */
  lemma {:induction false} LaterOn<T>(size: nat, begin: nat, end: nat, pos: nat, rest: seq<T>, breaks: bool, k: nat,
                                      m: nat)
    requires Sized(size, pos, begin, end)
    ensures var r := Later(size, begin, end, pos, rest, breaks, k);
            Later(size, begin, end, pos, rest, breaks, k + 1 + m) == Later(size, begin, end, r.pos, r.rest, breaks, m)
    decreases k
  {
    if k > 0 {
      var r := NextOf(size, begin, end, pos, rest, breaks);
      LaterOn(size, begin, end, r.pos, r.rest, breaks, k - 1, m);
    }
  }

  lemma {:induction false} NothingYielded<T>(size: nat, begin: nat, end: nat, pos: nat, rest: seq<T>, breaks: bool)
    requires Sized(size, pos, begin, end) && (begin >= end || rest == [])
    ensures var r := NextOf(size, begin, end, pos, rest, breaks); r.elem == None && (rest == [] ==> r.rest == [])
    decreases |rest|
  {
    if pos < end && rest != [] {
      NothingYielded(size, begin, end, Inc(size, pos), rest[1..], breaks);
    }
  }

  lemma {:induction false} NeverYields<T>(size: nat, begin: nat, end: nat, pos: nat, rest: seq<T>, breaks: bool, k: nat)
    requires Sized(size, pos, begin, end) && (begin >= end || rest == [])
    ensures Later(size, begin, end, pos, rest, breaks, k).elem == None
    decreases k
  {
    NothingYielded(size, begin, end, pos, rest, breaks);
    if k > 0 {
      var r := NextOf(size, begin, end, pos, rest, breaks);
      NeverYields(size, begin, end, r.pos, r.rest, breaks, k - 1);
    }
  }

  /** The calls up to the one that finds the counter at zero again. */
  lemma UntilWrap<T>(size: nat, begin: nat, end: nat, rest: seq<T>, breaks: bool)
    requires begin < size && end < size
    ensures forall k :: 0 <= k < size - 1 - end ==>
              Later(size, begin, end, Inc(size, end), rest, breaks, k).elem == None
    ensures forall m :: 0 <= m ==>
              Later(size, begin, end, Inc(size, end), rest, breaks, size - 1 - end + m)
                == Later(size, begin, end, 0, rest, breaks, m)
  {
    var (pos, last) := (Inc(size, end), size - 2 - end);
    forall k | 0 <= k < size - 1 - end ensures Later(size, begin, end, pos, rest, breaks, k).elem == None {
      StaysEnded(size, begin, end, pos, rest, breaks, k);
    }
    if last >= 0 {
      StaysEnded(size, begin, end, pos, rest, breaks, last);
      forall m | 0 <= m
        ensures Later(size, begin, end, pos, rest, breaks, last + 1 + m) == Later(size, begin, end, 0, rest, breaks, m)
      {
        LaterOn(size, begin, end, pos, rest, breaks, last, m);
      }
    }
  }

  lemma {:induction false} NothingLeft<T>(size: nat, begin: nat, end: nat, rest: seq<T>, breaks: bool, m: nat)
    requires begin < end < size && |rest| <= begin
    ensures Later(size, begin, end, 0, rest, breaks, m).elem == None
  {
    SkipAll(size, begin, end, 0, rest, breaks);
    if m > 0 {
      var r := NextOf(size, begin, end, 0, rest, breaks);
      NeverYields(size, begin, end, r.pos, r.rest, breaks, m - 1);
    }
  }

  /** The calls made of an iterator that has been drained. */
  function AfterDrain<T>(size: nat, begin: nat, end: nat, s: seq<T>, breaks: bool, k: nat): Call<T>
    requires begin < size && end < size
  {
    var d := Drain(size, begin, end, 0, s, breaks);
    Later(size, begin, end, d.pos, d.rest, breaks, k)
  }

  /**
   A drained iterator goes on counting. It yields again exactly if its range is not empty and the source, which goes on
   behind the range, has as many elements left as are skipped in front of it: the first is then the one reported
   when the counter has wrapped around, and not before.
   */
  lemma ComesBack<T>(size: nat, begin: nat, end: nat, s: seq<T>, breaks: bool)
    requires begin < size && end < size
    ensures (exists k :: AfterDrain(size, begin, end, s, breaks, k).elem.Some?) <==> begin < end && begin + end < |s|
    ensures begin < end && begin + end < |s| ==>
              && (forall k :: 0 <= k < size - 1 - end ==> AfterDrain(size, begin, end, s, breaks, k).elem == None)
              && AfterDrain(size, begin, end, s, breaks, size - 1 - end).elem == Some(s[begin + end])
  {
    SubRangeExact(size, begin, end, s, breaks);
    var e := Min(end, |s|);
    var (rest, pos) := (s[e..], Inc(size, e));
    if begin < end && begin + end < |s| {
      UntilWrap(size, begin, end, rest, breaks);
      SkipToBegin(size, begin, end, 0, rest, breaks);
      assert Later(size, begin, end, 0, rest, breaks, 0).elem == Some(rest[begin]);
      assert AfterDrain(size, begin, end, s, breaks, size - 1 - end + 0).elem == Some(s[begin + end]);
      return;
    }
    forall k: nat ensures AfterDrain(size, begin, end, s, breaks, k).elem == None {
      NoComingBack(size, begin, end, s, breaks, k);
    }
  }

  lemma NoComingBack<T>(size: nat, begin: nat, end: nat, s: seq<T>, breaks: bool, k: nat)
    requires begin < size && end < size && (begin >= end || begin + end >= |s|)
    ensures AfterDrain(size, begin, end, s, breaks, k).elem == None
  {
    SubRangeExact(size, begin, end, s, breaks);
    var e := Min(end, |s|);
    if begin >= end || |s| <= end {
      NeverYields(size, begin, end, Inc(size, e), s[e..], breaks, k);
      return;
    }
    UntilWrap(size, begin, end, s[e..], breaks);
    if k >= size - 1 - end {
      NothingLeft(size, begin, end, s[e..], breaks, k - (size - 1 - end));
      assert k == size - 1 - end + (k - (size - 1 - end));
    }
  }
}
