/** Merge sort with a predicate that may fail at any call. */
module MergeSort {
  import opened Common

  /** The answer to "is b less than a": an error is either the one that is caught and ignored, or any other. */
  datatype Verdict = Less | NotLess | NotImplemented | Failed

  /** User code: the answer may depend on which call it is. */
  type Pred<!T> = (nat, T, T) -> Verdict

  /** A cell of the output buffer; None until an element is stored in it. */
  type Cell<T> = Option<T>

  datatype Merged<T> = Merged(ok: bool, out: seq<T>, calls: nat)

  datatype Sorted<T> = Sorted(ok: bool, out: seq<Cell<T>>, calls: nat)

  function Written<T>(s: seq<T>): (cells: seq<Cell<T>>) {
    seq(|s|, i requires 0 <= i < |s| => Some(s[i]))
  }

  /** The elements a buffer holds, in order. */
  function Elements<T>(cells: seq<Cell<T>>): seq<T> {
    if cells == [] then []
    else if cells[0].Some? then [cells[0].value] + Elements(cells[1..])
    else Elements(cells[1..])
  }

  /** Merges two runs; a failing predicate ends the comparing, not the copying. */
  function MergeRun<T>(p: Pred<T>, calls: nat, a: seq<T>, b: seq<T>): Merged<T>
    decreases |a| + |b|
  {
    if a == [] || b == [] then Merged(true, a + b, calls)
    else
      match p(calls, b[0], a[0])
      case Failed => Merged(false, a + b, calls + 1)
      case Less => var m := MergeRun(p, calls + 1, a, b[1..]); m.(out := [b[0]] + m.out)
      case _ => var m := MergeRun(p, calls + 1, a[1..], b); m.(out := [a[0]] + m.out)
  }

  function SortRun<T>(p: Pred<T>, calls: nat, v: seq<T>): Sorted<T>
    decreases |v|
  {
    if |v| <= 1 then Sorted(true, Written(v), calls)
    else if |v| == 2 then
      match p(calls, v[1], v[0])
      case Failed => Sorted(false, [None, None], calls + 1)
      case Less => Sorted(true, Written([v[1], v[0]]), calls + 1)
      case _ => Sorted(true, Written(v), calls + 1)
    else
      var half := |v| / 2;
      var left := SortRun(p, calls, v[..half]);
      if !left.ok then Sorted(false, left.out + Written(v[half..]), left.calls)
      else
        var right := SortRun(p, left.calls, v[half..]);
        if !right.ok then Sorted(false, left.out + right.out, right.calls)
        else
          var m := MergeRun(p, right.calls, Elements(left.out), Elements(right.out));
          Sorted(m.ok, Written(m.out), m.calls)
  }

  // ----- the buffers

  lemma {:induction false} ElementsWritten<T>(s: seq<T>)
    ensures Elements(Written(s)) == s
  {
    if s != [] {
      assert Written(s)[1..] == Written(s[1..]);
      ElementsWritten(s[1..]);
    }
  }

  lemma {:induction false} ElementsConcat<T>(a: seq<Cell<T>>, b: seq<Cell<T>>)
    ensures Elements(a + b) == Elements(a) + Elements(b)
  {
    if a == [] {
      assert a + b == b;
    } else {
      assert (a + b)[1..] == a[1..] + b;
      ElementsConcat(a[1..], b);
    }
  }

  lemma {:induction false} SortedBuffer<T>(p: Pred<T>, calls: nat, v: seq<T>)
    ensures var r := SortRun(p, calls, v); |r.out| == |v| && (r.ok ==> r.out == Written(Elements(r.out)))
    decreases |v|
  {
    var r := SortRun(p, calls, v);
    if |v| <= 2 {
      if r.ok {
        var s := if r.out == Written(v) then v else [v[1], v[0]];
        assert r.out == Written(s);
        ElementsWritten(s);
      }
    } else {
      var half := |v| / 2;
      var left := SortRun(p, calls, v[..half]);
      SortedBuffer(p, calls, v[..half]);
      if left.ok {
        var right := SortRun(p, left.calls, v[half..]);
        SortedBuffer(p, left.calls, v[half..]);
        if right.ok {
          var (a, b) := (Elements(left.out), Elements(right.out));
          MergeConserves(p, right.calls, a, b);
          ElementsWritten(MergeRun(p, right.calls, a, b).out);
        }
      }
    }
  }

  // ----- conservation

  lemma {:induction false} MergeConserves<T>(p: Pred<T>, calls: nat, a: seq<T>, b: seq<T>)
    ensures var m := MergeRun(p, calls, a, b); |m.out| == |a| + |b| && multiset(m.out) == multiset(a) + multiset(b)
    decreases |a| + |b|
  {
    if a != [] && b != [] && !p(calls, b[0], a[0]).Failed? {
      if p(calls, b[0], a[0]).Less? {
        MergeConserves(p, calls + 1, a, b[1..]);
        assert b == [b[0]] + b[1..];
      } else {
        MergeConserves(p, calls + 1, a[1..], b);
        assert a == [a[0]] + a[1..];
      }
    }
  }

  /** The two neighbours that a failing comparison left unwritten; empty when every element was written. */
  function Lost<T>(p: Pred<T>, calls: nat, v: seq<T>): seq<T>
    decreases |v|
  {
    if |v| <= 1 then []
    else if |v| == 2 then (if p(calls, v[1], v[0]).Failed? then v else [])
    else
      var left := SortRun(p, calls, v[..|v| / 2]);
      if !left.ok then Lost(p, calls, v[..|v| / 2]) else Lost(p, left.calls, v[|v| / 2..])
  }

  lemma {:induction false} LostMeansFailed<T>(p: Pred<T>, calls: nat, v: seq<T>)
    requires Lost(p, calls, v) != []
    ensures !SortRun(p, calls, v).ok && exists k :: 0 <= k < |v| - 1 && Lost(p, calls, v) == [v[k], v[k + 1]]
    decreases |v|
  {
    if |v| == 2 {
      assert v == [v[0], v[1]];
    } else if |v| > 2 {
      var left := SortRun(p, calls, v[..|v| / 2]);
      if left.ok {
        LostMeansFailed(p, left.calls, v[|v| / 2..]);
        var k :| 0 <= k && k + 1 < |v[|v| / 2..]| && Lost(p, calls, v) == [v[|v| / 2..][k], v[|v| / 2..][k + 1]];
        assert Lost(p, calls, v) == [v[k + |v| / 2], v[k + |v| / 2 + 1]];
      } else {
        LostMeansFailed(p, calls, v[..|v| / 2]);
      }
    }
  }

  /** What was written and what was lost together are the input. */
  ghost predicate Complete<T>(v: seq<T>, out: seq<Cell<T>>, lost: seq<T>) {
    multiset(Elements(out)) + multiset(lost) == multiset(v)
  }

  lemma CompletePair<T>(v: seq<T>)
    requires |v| == 2
    ensures Complete(v, [None, None], v) && Complete(v, Written([v[1], v[0]]), [])
  {
    assert v == [v[0], v[1]];
    assert [Cell<T>.None, None][1..] == [None];
    ElementsWritten([v[1], v[0]]);
  }

  lemma CompleteShort<T>(p: Pred<T>, calls: nat, v: seq<T>)
    requires |v| <= 2
    ensures Complete(v, SortRun(p, calls, v).out, Lost(p, calls, v))
  {
    CompleteWritten(v);
    if |v| == 2 {
      CompletePair(v);
    }
  }

  lemma CompleteConcat<T>(v: seq<T>, a: seq<T>, b: seq<T>, left: seq<Cell<T>>, right: seq<Cell<T>>,
                          lost: seq<T>, more: seq<T>)
    requires v == a + b && Complete(a, left, lost) && Complete(b, right, more)
    ensures Complete(v, left + right, lost + more)
  {
    ElementsConcat(left, right);
    var (l, r) := (multiset(Elements(left)), multiset(Elements(right)));
    assert (l + r) + (multiset(lost) + multiset(more)) == (l + multiset(lost)) + (r + multiset(more));
  }

  lemma CompleteMerge<T>(p: Pred<T>, calls: nat, v: seq<T>, a: seq<T>, b: seq<T>,
                         left: seq<Cell<T>>, right: seq<Cell<T>>)
    requires v == a + b && Complete(a, left, []) && Complete(b, right, [])
    ensures Complete(v, Written(MergeRun(p, calls, Elements(left), Elements(right)).out), [])
  {
    MergeConserves(p, calls, Elements(left), Elements(right));
    ElementsWritten(MergeRun(p, calls, Elements(left), Elements(right)).out);
  }

  lemma CompleteWritten<T>(v: seq<T>)
    ensures Complete(v, Written(v), [])
  {
    ElementsWritten(v);
  }

  /** What a run writes and loses if its left half fails. */
  lemma LeftFails<T>(p: Pred<T>, calls: nat, v: seq<T>)
    requires |v| > 2 && !SortRun(p, calls, v[..|v| / 2]).ok
    ensures SortRun(p, calls, v).out == SortRun(p, calls, v[..|v| / 2]).out + Written(v[|v| / 2..])
    ensures Lost(p, calls, v) == Lost(p, calls, v[..|v| / 2])
  {
  }

  lemma RightFails<T>(p: Pred<T>, calls: nat, v: seq<T>)
    requires |v| > 2 && SortRun(p, calls, v[..|v| / 2]).ok
    requires !SortRun(p, SortRun(p, calls, v[..|v| / 2]).calls, v[|v| / 2..]).ok
    ensures var left := SortRun(p, calls, v[..|v| / 2]);
            && SortRun(p, calls, v).out == left.out + SortRun(p, left.calls, v[|v| / 2..]).out
            && Lost(p, calls, v) == Lost(p, left.calls, v[|v| / 2..])
  {
  }

  lemma CompleteLeft<T>(v: seq<T>, a: seq<T>, b: seq<T>, left: seq<Cell<T>>, lost: seq<T>)
    requires v == a + b && Complete(a, left, lost)
    ensures Complete(v, left + Written(b), lost)
  {
    CompleteWritten(b);
    CompleteConcat(v, a, b, left, Written(b), lost, []);
    assert lost + [] == lost;
  }

  lemma CompleteRight<T>(v: seq<T>, a: seq<T>, b: seq<T>, left: seq<Cell<T>>, right: seq<Cell<T>>, lost: seq<T>)
    requires v == a + b && Complete(a, left, []) && Complete(b, right, lost)
    ensures Complete(v, left + right, lost)
  {
    CompleteConcat(v, a, b, left, right, [], lost);
    assert [] + lost == lost;
  }

  lemma BothSucceed<T>(p: Pred<T>, calls: nat, v: seq<T>, a: seq<T>, b: seq<T>, left: Sorted<T>, right: Sorted<T>)
    requires |v| > 2 && a == v[..|v| / 2] && b == v[|v| / 2..]
    requires left == SortRun(p, calls, a) && right == SortRun(p, left.calls, b)
    requires left.ok && right.ok && Complete(a, left.out, []) && Complete(b, right.out, Lost(p, left.calls, b))
    requires Lost(p, left.calls, b) == []
    ensures Complete(v, SortRun(p, calls, v).out, Lost(p, calls, v))
  {
    CompleteMerge(p, right.calls, v, a, b, left.out, right.out);
  }

  /**
   A run that fails while it compares a pair on its own leaves exactly that pair out. Every other run, failed or
   not, hands out each element it was given.
   */
  lemma {:induction false} SortConserves<T>(p: Pred<T>, calls: nat, v: seq<T>)
    ensures Complete(v, SortRun(p, calls, v).out, Lost(p, calls, v))
    decreases |v|
  {
    if |v| <= 2 {
      CompleteShort(p, calls, v);
      return;
    }
    var (a, b) := (v[..|v| / 2], v[|v| / 2..]);
    var left := SortRun(p, calls, a);
    SortConserves(p, calls, a);
    if !left.ok {
      LeftFails(p, calls, v);
      CompleteLeft(v, a, b, left.out, Lost(p, calls, a));
      return;
    }
    if Lost(p, calls, a) != [] {
      LostMeansFailed(p, calls, a);
    }
    var right := SortRun(p, left.calls, b);
    SortConserves(p, left.calls, b);
    if !right.ok {
      RightFails(p, calls, v);
      CompleteRight(v, a, b, left.out, right.out, Lost(p, left.calls, b));
      return;
    }
    if Lost(p, left.calls, b) != [] {
      LostMeansFailed(p, left.calls, b);
    }
    BothSucceed(p, calls, v, a, b, left, right);
  }

  lemma {:induction false} FailingFirst<T>(p: Pred<T>, calls: nat, v: seq<T>)
    requires |v| > 1 && forall n, a, b :: p(n, a, b).Failed?
    ensures Lost(p, calls, v) != []
    decreases |v|
  {
    if |v| > 3 {
      FailingFirst(p, calls, v[..|v| / 2]);
      LostMeansFailed(p, calls, v[..|v| / 2]);
    }
  }

  ghost predicate KeepsAll<T(!new)>(v: seq<T>) {
    forall p: Pred<T>, calls :: multiset(Elements(SortRun(p, calls, v).out)) == multiset(v)
  }

  /** "All data is transferred, even if an error occurred" is true of inputs with at most one element only. */
  lemma KeepsAllIffTrivial<T(!new)>(v: seq<T>)
    ensures KeepsAll(v) <==> |v| <= 1
  {
    if |v| <= 1 {
      forall p: Pred<T>, calls ensures multiset(Elements(SortRun(p, calls, v).out)) == multiset(v) {
        CompleteWritten(v);
      }
    } else {
      var p: Pred<T> := (n, a, b) => Failed;
      FailingFirst(p, 0, v);
      SortConserves(p, 0, v);
      assert |multiset(Elements(SortRun(p, 0, v).out))| + |Lost(p, 0, v)| == |multiset(v)|;
    }
  }

  // ----- when a run succeeds

  /** The comparisons a merge makes, in order: of an element of the right run with one of the left. */
  function MergeAsks<T>(p: Pred<T>, calls: nat, a: seq<T>, b: seq<T>): seq<(T, T)>
    decreases |a| + |b|
  {
    if a == [] || b == [] then []
    else if p(calls, b[0], a[0]).Failed? then [(b[0], a[0])]
    else if p(calls, b[0], a[0]).Less? then [(b[0], a[0])] + MergeAsks(p, calls + 1, a, b[1..])
    else [(b[0], a[0])] + MergeAsks(p, calls + 1, a[1..], b)
  }

  /** The comparisons a sort makes. */
  function SortAsks<T>(p: Pred<T>, calls: nat, v: seq<T>): seq<(T, T)>
    decreases |v|
  {
    if |v| <= 1 then []
    else if |v| == 2 then [(v[1], v[0])]
    else
      var left := SortRun(p, calls, v[..|v| / 2]);
      if !left.ok then SortAsks(p, calls, v[..|v| / 2])
      else
        var right := SortRun(p, left.calls, v[|v| / 2..]);
        var halves := SortAsks(p, calls, v[..|v| / 2]) + SortAsks(p, left.calls, v[|v| / 2..]);
        if !right.ok then halves
        else halves + MergeAsks(p, right.calls, Elements(left.out), Elements(right.out))
  }

  ghost predicate NoneFails<T>(p: Pred<T>, calls: nat, asked: seq<(T, T)>) {
    forall k :: 0 <= k < |asked| ==> !p(calls + k, asked[k].0, asked[k].1).Failed?
  }

  lemma NoneFailsConcat<T>(p: Pred<T>, calls: nat, a: seq<(T, T)>, b: seq<(T, T)>)
    ensures NoneFails(p, calls, a + b) <==> NoneFails(p, calls, a) && NoneFails(p, calls + |a|, b)
  {
    var all := a + b;
    if NoneFails(p, calls, all) {
      forall k | 0 <= k < |a| ensures !p(calls + k, a[k].0, a[k].1).Failed? {
        assert all[k] == a[k];
      }
      forall k | 0 <= k < |b| ensures !p(calls + |a| + k, b[k].0, b[k].1).Failed? {
        assert all[|a| + k] == b[k] && calls + (|a| + k) == calls + |a| + k;
      }
    }
    if NoneFails(p, calls, a) && NoneFails(p, calls + |a|, b) {
      forall k | 0 <= k < |all| ensures !p(calls + k, all[k].0, all[k].1).Failed? {
        assert k >= |a| ==> all[k] == b[k - |a|] && calls + |a| + (k - |a|) == calls + k;
      }
    }
  }

  /** A merge succeeds exactly if none of its comparisons fails. */
  lemma {:induction false} MergeSucceedsIff<T>(p: Pred<T>, calls: nat, a: seq<T>, b: seq<T>)
    ensures var (m, asked) := (MergeRun(p, calls, a, b), MergeAsks(p, calls, a, b));
            m.calls == calls + |asked| && (m.ok <==> NoneFails(p, calls, asked))
    decreases |a| + |b|
  {
    if a != [] && b != [] {
      var verdict := p(calls, b[0], a[0]);
      if verdict.Failed? {
        assert !NoneFails(p, calls, [(b[0], a[0])]) by {
          assert p(calls + 0, b[0], a[0]).Failed?;
        }
      } else if verdict.Less? {
        MergeSucceedsIff(p, calls + 1, a, b[1..]);
        NoneFailsConcat(p, calls, [(b[0], a[0])], MergeAsks(p, calls + 1, a, b[1..]));
      } else {
        MergeSucceedsIff(p, calls + 1, a[1..], b);
        NoneFailsConcat(p, calls, [(b[0], a[0])], MergeAsks(p, calls + 1, a[1..], b));
      }
    }
  }

  /** A sort succeeds exactly if none of its comparisons fails. */
  lemma {:induction false} SortSucceedsIff<T>(p: Pred<T>, calls: nat, v: seq<T>)
    ensures var (r, asked) := (SortRun(p, calls, v), SortAsks(p, calls, v));
            r.calls == calls + |asked| && (r.ok <==> NoneFails(p, calls, asked))
    decreases |v|
  {
    if |v| == 2 {
      var asked := SortAsks(p, calls, v);
      assert NoneFails(p, calls, asked) <==> !p(calls + 0, asked[0].0, asked[0].1).Failed?;
    } else if |v| > 2 {
      var (a, b) := (v[..|v| / 2], v[|v| / 2..]);
      SortSucceedsIff(p, calls, a);
      var left := SortRun(p, calls, a);
      if left.ok {
        SortSucceedsIff(p, left.calls, b);
        var right := SortRun(p, left.calls, b);
        HalvesAsk(p, calls, v, a, b, left, right);
        NoneFailsBehind(p, calls, SortAsks(p, calls, a), SortAsks(p, left.calls, b), left.calls);
        if right.ok {
          var halves := SortAsks(p, calls, a) + SortAsks(p, left.calls, b);
          var (c, d) := (Elements(left.out), Elements(right.out));
          MergeSucceedsIff(p, right.calls, c, d);
          NoneFailsBehind(p, calls, halves, MergeAsks(p, right.calls, c, d), right.calls);
        }
      }
    }
  }

  /** What a sort asks if its left half succeeds, and whether it succeeds. */
  lemma HalvesAsk<T>(p: Pred<T>, calls: nat, v: seq<T>, a: seq<T>, b: seq<T>, left: Sorted<T>, right: Sorted<T>)
    requires |v| > 2 && a == v[..|v| / 2] && b == v[|v| / 2..]
    requires left == SortRun(p, calls, a) && right == SortRun(p, left.calls, b) && left.ok
    ensures var (r, halves) := (SortRun(p, calls, v), SortAsks(p, calls, a) + SortAsks(p, left.calls, b));
            if !right.ok then !r.ok && r.calls == right.calls && SortAsks(p, calls, v) == halves
            else
              var (c, d) := (Elements(left.out), Elements(right.out));
              var m := MergeRun(p, right.calls, c, d);
              r.ok == m.ok && r.calls == m.calls && SortAsks(p, calls, v) == halves + MergeAsks(p, right.calls, c, d)
  {
  }

  lemma NoneFailsBehind<T>(p: Pred<T>, calls: nat, a: seq<(T, T)>, b: seq<(T, T)>, next: nat)
    requires next == calls + |a| && NoneFails(p, calls, a)
    ensures NoneFails(p, calls, a + b) <==> NoneFails(p, next, b)
  {
    NoneFailsConcat(p, calls, a, b);
  }

  ghost predicate NeverFails<T(!new)>(p: Pred<T>) {
    forall n, a, b :: !p(n, a, b).Failed?
  }

  /** Whatever call number `n` is asked, it fails. */
  ghost predicate FailsAt<T(!new)>(p: Pred<T>, n: nat) {
    forall a, b :: p(n, a, b).Failed?
  }

  /** A predicate that never fails makes for success, one that fails at a call that was made for failure. */
  lemma FailureIsReported<T(!new)>(p: Pred<T>, calls: nat, v: seq<T>, a: seq<T>, b: seq<T>)
    ensures NeverFails(p) ==> SortRun(p, calls, v).ok && MergeRun(p, calls, a, b).ok
    ensures (exists n :: calls <= n < SortRun(p, calls, v).calls && FailsAt(p, n)) ==> !SortRun(p, calls, v).ok
    ensures (exists n :: calls <= n < MergeRun(p, calls, a, b).calls && FailsAt(p, n)) ==> !MergeRun(p, calls, a, b).ok
  {
    SortSucceedsIff(p, calls, v);
    MergeSucceedsIff(p, calls, a, b);
    forall n | calls <= n < SortRun(p, calls, v).calls && FailsAt(p, n) ensures !SortRun(p, calls, v).ok {
      FailsWhenAsked(p, calls, SortAsks(p, calls, v), n);
    }
    forall n | calls <= n < MergeRun(p, calls, a, b).calls && FailsAt(p, n) ensures !MergeRun(p, calls, a, b).ok {
      FailsWhenAsked(p, calls, MergeAsks(p, calls, a, b), n);
    }
  }

  lemma FailsWhenAsked<T(!new)>(p: Pred<T>, calls: nat, asked: seq<(T, T)>, n: nat)
    requires calls <= n < calls + |asked| && FailsAt(p, n)
    ensures !NoneFails(p, calls, asked)
  {
    var k := n - calls;
    assert p(calls + k, asked[k].0, asked[k].1).Failed?;
  }

  /** With an order and a predicate that never fails a sort succeeds, loses nothing and puts the elements in order. */
  lemma SortSorts<T(!new)>(p: Pred<T>, lo: (T, T) -> bool, calls: nat, v: seq<T>)
    requires WeakOrder(lo) && Answers(p, lo) && NeverFails(p)
    ensures var (r, out) := (SortRun(p, calls, v), Elements(SortRun(p, calls, v).out));
            && r.ok && |r.out| == |v| && r.out == Written(out)
            && InOrder(lo, out) && multiset(out) == multiset(v) && forall x :: Like(lo, x, out) == Like(lo, x, v)
  {
    FailureIsReported(p, calls, v, [], []);
    SortedBuffer(p, calls, v);
    SortInOrder(p, lo, calls, v);
    SortConserves(p, calls, v);
    if Lost(p, calls, v) != [] {
      LostMeansFailed(p, calls, v);
    }
    forall x ensures Like(lo, x, Elements(SortRun(p, calls, v).out)) == Like(lo, x, v) {
      SortStable(p, lo, calls, v, x);
    }
  }

  // ----- order

  /** `lo` orders the elements up to equivalence. */
  ghost predicate WeakOrder<T(!new)>(lo: (T, T) -> bool) {
    && (forall a, b :: !(lo(a, b) && lo(b, a)))
    && (forall a, b, c :: !lo(b, a) && !lo(c, b) ==> !lo(c, a))
  }

  /** Whenever the predicate does not fail it answers `lo`; an ignored error counts as "not less". */
  ghost predicate Answers<T(!new)>(p: Pred<T>, lo: (T, T) -> bool) {
    forall n, a, b :: p(n, a, b).Failed? || (p(n, a, b).Less? <==> lo(a, b))
  }

  ghost predicate InOrder<T>(lo: (T, T) -> bool, s: seq<T>) {
    forall i, j :: 0 <= i < j < |s| ==> !lo(s[j], s[i])
  }

  lemma InOrderCons<T(!new)>(lo: (T, T) -> bool, x: T, s: seq<T>)
    requires InOrder(lo, s) && forall e :: e in s ==> !lo(e, x)
    ensures InOrder(lo, [x] + s)
  {
  }

  lemma {:induction false} MergeInOrder<T(!new)>(p: Pred<T>, lo: (T, T) -> bool, calls: nat, a: seq<T>, b: seq<T>)
    requires WeakOrder(lo) && Answers(p, lo) && InOrder(lo, a) && InOrder(lo, b)
    ensures var m := MergeRun(p, calls, a, b); m.ok ==> InOrder(lo, m.out)
    decreases |a| + |b|
  {
    if a == [] || b == [] {
      assert a + b == a || a + b == b;
    } else if !p(calls, b[0], a[0]).Failed? {
      var less := p(calls, b[0], a[0]).Less?;
      var (x, c, d) := if less then (b[0], a, b[1..]) else (a[0], a[1..], b);
      var m := MergeRun(p, calls + 1, c, d);
      MergeInOrder(p, lo, calls + 1, c, d);
      MergeConserves(p, calls + 1, c, d);
      if m.ok {
        forall e | e in m.out ensures !lo(e, x) {
          assert e in multiset(m.out) && (e in c || e in d);
        }
        InOrderCons(lo, x, m.out);
      }
    }
  }

  /** A sort that reports success has put its input in order. */
  lemma {:induction false} SortInOrder<T(!new)>(p: Pred<T>, lo: (T, T) -> bool, calls: nat, v: seq<T>)
    requires WeakOrder(lo) && Answers(p, lo)
    ensures var r := SortRun(p, calls, v); r.ok ==> InOrder(lo, Elements(r.out))
    decreases |v|
  {
    var r := SortRun(p, calls, v);
    if r.ok {
      if |v| <= 2 {
        ElementsWritten(v);
        if |v| == 2 {
          ElementsWritten([v[1], v[0]]);
        }
      } else {
        var half := |v| / 2;
        var left := SortRun(p, calls, v[..half]);
        var right := SortRun(p, left.calls, v[half..]);
        SortInOrder(p, lo, calls, v[..half]);
        SortInOrder(p, lo, left.calls, v[half..]);
        MergeInOrder(p, lo, right.calls, Elements(left.out), Elements(right.out));
        ElementsWritten(MergeRun(p, right.calls, Elements(left.out), Elements(right.out)).out);
      }
    }
  }

  // ----- stability

  /** The elements of `s` that `lo` does not tell apart from `x`, in the order they have in `s`. */
  function Like<T>(lo: (T, T) -> bool, x: T, s: seq<T>): seq<T> {
    if s == [] then []
    else if lo(x, s[0]) || lo(s[0], x) then Like(lo, x, s[1..])
    else [s[0]] + Like(lo, x, s[1..])
  }

  lemma {:induction false} LikeConcat<T>(lo: (T, T) -> bool, x: T, a: seq<T>, b: seq<T>)
    ensures Like(lo, x, a + b) == Like(lo, x, a) + Like(lo, x, b)
  {
    if a == [] {
      assert a + b == b;
    } else {
      assert (a + b)[1..] == a[1..] + b;
      LikeConcat(lo, x, a[1..], b);
    }
  }

  lemma {:induction false} NoneLike<T>(lo: (T, T) -> bool, x: T, s: seq<T>)
    requires forall e :: e in s ==> lo(x, e)
    ensures Like(lo, x, s) == []
  {
    if s != [] {
      NoneLike(lo, x, s[1..]);
    }
  }

  lemma {:induction false} MergeStable<T(!new)>(p: Pred<T>, lo: (T, T) -> bool, calls: nat, a: seq<T>, b: seq<T>, x: T)
    requires WeakOrder(lo) && Answers(p, lo) && InOrder(lo, a) && InOrder(lo, b)
    ensures Like(lo, x, MergeRun(p, calls, a, b).out) == Like(lo, x, a) + Like(lo, x, b)
    decreases |a| + |b|
  {
    if a == [] || b == [] || p(calls, b[0], a[0]).Failed? {
      LikeConcat(lo, x, a, b);
      return;
    }
    if p(calls, b[0], a[0]).Less? {
      MergeStable(p, lo, calls + 1, a, b[1..], x);
      AllAbove(lo, x, a, b[0]);
      TakeRight(lo, x, a, b, MergeRun(p, calls + 1, a, b[1..]).out);
      return;
    }
    MergeStable(p, lo, calls + 1, a[1..], b, x);
    TakeLeft(lo, x, a, b, MergeRun(p, calls + 1, a[1..], b).out);
  }

  lemma TakeRight<T>(lo: (T, T) -> bool, x: T, a: seq<T>, b: seq<T>, out: seq<T>)
    requires b != [] && Like(lo, x, out) == Like(lo, x, a) + Like(lo, x, b[1..])
    requires lo(x, b[0]) || lo(b[0], x) || forall e :: e in a ==> lo(x, e)
    ensures Like(lo, x, [b[0]] + out) == Like(lo, x, a) + Like(lo, x, b)
  {
    assert ([b[0]] + out)[1..] == out;
    if lo(x, b[0]) || lo(b[0], x) {
      return;
    }
    NoneLike(lo, x, a);
    assert Like(lo, x, b) == [b[0]] + Like(lo, x, b[1..]);
  }

  lemma TakeLeft<T>(lo: (T, T) -> bool, x: T, a: seq<T>, b: seq<T>, out: seq<T>)
    requires a != [] && Like(lo, x, out) == Like(lo, x, a[1..]) + Like(lo, x, b)
    ensures Like(lo, x, [a[0]] + out) == Like(lo, x, a) + Like(lo, x, b)
  {
    assert ([a[0]] + out)[1..] == out;
  }

  lemma AllAbove<T(!new)>(lo: (T, T) -> bool, x: T, a: seq<T>, y: T)
    requires WeakOrder(lo) && InOrder(lo, a) && a != [] && lo(y, a[0])
    ensures lo(x, y) || lo(y, x) || forall e :: e in a ==> lo(x, e)
  {
    if !lo(x, y) && !lo(y, x) {
      forall e | e in a ensures lo(x, e) {
        var first := a[0];
        assert !lo(e, first);
        assert !lo(x, first) ==> !lo(y, first);
      }
    }
  }

  /** Elements the order does not tell apart keep their places among each other, also when the sort fails. */
  lemma {:induction false} SortStable<T(!new)>(p: Pred<T>, lo: (T, T) -> bool, calls: nat, v: seq<T>, x: T)
    requires WeakOrder(lo) && Answers(p, lo) && Lost(p, calls, v) == []
    ensures Like(lo, x, Elements(SortRun(p, calls, v).out)) == Like(lo, x, v)
    decreases |v|
  {
    if |v| <= 1 {
      ElementsWritten(v);
    } else if |v| == 2 {
      assert v == [v[0], v[1]] && v[1..] == [v[1]];
      ElementsWritten(v);
      ElementsWritten([v[1], v[0]]);
      assert [v[1], v[0]][1..] == [v[0]];
    } else {
      var half := |v| / 2;
      var (a, b) := (v[..half], v[half..]);
      assert v == a + b;
      LikeConcat(lo, x, a, b);
      var left := SortRun(p, calls, a);
      if Lost(p, calls, a) != [] {
        LostMeansFailed(p, calls, a);
      }
      SortStable(p, lo, calls, a, x);
      if !left.ok {
        ElementsConcat(left.out, Written(b));
        ElementsWritten(b);
        LikeConcat(lo, x, Elements(left.out), b);
      } else {
        var right := SortRun(p, left.calls, b);
        SortStable(p, lo, left.calls, b, x);
        if !right.ok {
          ElementsConcat(left.out, right.out);
          LikeConcat(lo, x, Elements(left.out), Elements(right.out));
        } else {
          SortInOrder(p, lo, calls, a);
          SortInOrder(p, lo, left.calls, b);
          MergeStable(p, lo, right.calls, Elements(left.out), Elements(right.out), x);
          ElementsWritten(MergeRun(p, right.calls, Elements(left.out), Elements(right.out)).out);
        }
      }
    }
  }

  // ----- the code

  /** `memcpy` of all of `cells` to `out`, starting at `at`. */
  method Copy<T>(cells: seq<Cell<T>>, out: array<Cell<T>>, at: nat)
    requires at + |cells| <= out.Length
    modifies out
    ensures out[..] == old(out[..at]) + cells + old(out[at + |cells|..])
  {
    for i := 0 to |cells|
      invariant out[..] == old(out[..at]) + cells[..i] + old(out[at + i..])
    {
      out[at + i] := cells[i];
    }
  }

  function After<T>(done: seq<T>, m: Merged<T>): Merged<T> {
    m.(out := done + m.out)
  }

  lemma MergeUnfolds<T>(p: Pred<T>, calls: nat, done: seq<T>, a: seq<T>, b: seq<T>)
    requires a != [] && b != []
    ensures var (m, verdict) := (After(done, MergeRun(p, calls, a, b)), p(calls, b[0], a[0]));
            && (verdict.Failed? ==> m == Merged(false, done + (a + b), calls + 1))
            && (verdict.Less? ==> m == After(done + [b[0]], MergeRun(p, calls + 1, a, b[1..])))
            && (!verdict.Failed? && !verdict.Less? ==> m == After(done + [a[0]], MergeRun(p, calls + 1, a[1..], b)))
  {
  }

  lemma BufferAt<T>(cells: seq<Cell<T>>, s: seq<T>, i: nat)
    requires cells == Written(s) && i < |s|
    ensures cells[i] == Some(s[i]) && s[i..][0] == s[i] && s[i..][1..] == s[i + 1..]
  {
  }

  method Append<T>(out: array<Cell<T>>, at: nat, cell: Cell<T>, ghost done: seq<T>)
    requires at < out.Length && out[..at] == Written(done) && cell.Some?
    modifies out
    ensures out[..at + 1] == Written(done + [cell.value])
  {
    out[at] := cell;
  }

  /** Copies what is left of a full buffer. */
  method CopyRest<T>(buf: array<Cell<T>>, from: nat, out: array<Cell<T>>, at: nat, ghost s: seq<T>, ghost done: seq<T>)
    requires buf != out && from <= buf.Length && at + buf.Length - from <= out.Length && buf[..] == Written(s)
    requires out[..at] == Written(done)
    modifies out
    ensures out[..at + buf.Length - from] == Written(done + s[from..])
  {
    assert buf[from..] == Written(s[from..]);
    Copy(buf[from..], out, at);
  }

  /** The merge loop over two buffers that hold `a` and `b`. */
  method Merge<T>(p: Pred<T>, calls: nat, buf1: array<Cell<T>>, buf2: array<Cell<T>>, out: array<Cell<T>>,
                  ghost a: seq<T>, ghost b: seq<T>)
    returns (ok: bool, made: nat)
    requires buf1.Length + buf2.Length == out.Length && out != buf1 && out != buf2
    requires buf1[..] == Written(a) && buf2[..] == Written(b)
    modifies out
    ensures var m := MergeRun(p, calls, a, b); ok == m.ok && made == m.calls && out[..] == Written(m.out)
  {
    ghost var done: seq<T> := [];
    var i, j := 0, 0;
    made := calls;
    while i < buf1.Length && j < buf2.Length
      invariant 0 <= i <= buf1.Length && 0 <= j <= buf2.Length
      invariant buf1[..] == Written(a) && buf2[..] == Written(b) && out[..i + j] == Written(done)
      invariant MergeRun(p, calls, a, b) == After(done, MergeRun(p, made, a[i..], b[j..]))
    {
      var x, y := buf1[i], buf2[j];
      BufferAt(buf1[..], a, i);
      BufferAt(buf2[..], b, j);
      MergeUnfolds(p, made, done, a[i..], b[j..]);
      var verdict := p(made, y.value, x.value);
      made := made + 1;
      if verdict == Failed {
        CopyBoth(buf1, i, buf2, j, out, a, b, done);
        return false, made;
      }
      if verdict == Less {
        Append(out, i + j, y, done);
        done := done + [b[j]];
        j := j + 1;
      } else {
        Append(out, i + j, x, done);
        done := done + [a[i]];
        i := i + 1;
      }
    }
    if i < buf1.Length {
      CopyRest(buf1, i, out, i + j, a, done);
      assert a[i..] + b[j..] == a[i..];
    } else {
      CopyRest(buf2, j, out, i + j, b, done);
      assert a[i..] + b[j..] == b[j..];
    }
    ok := true;
  }

  /** What both buffers still hold, the left one first. */
  method CopyBoth<T>(buf1: array<Cell<T>>, i: nat, buf2: array<Cell<T>>, j: nat, out: array<Cell<T>>,
                     ghost a: seq<T>, ghost b: seq<T>, ghost done: seq<T>)
    requires i <= buf1.Length && j <= buf2.Length && buf1.Length + buf2.Length == out.Length
    requires out != buf1 && out != buf2
    requires buf1[..] == Written(a) && buf2[..] == Written(b) && out[..i + j] == Written(done)
    modifies out
    ensures out[..] == Written(done + (a[i..] + b[j..]))
  {
    CopyRest(buf1, i, out, i + j, a, done);
    CopyRest(buf2, j, out, buf1.Length + j, b, done + a[i..]);
    assert done + a[i..] + b[j..] == done + (a[i..] + b[j..]);
  }

  /** `out` is a fresh buffer: none of its cells holds an element yet. */
  method Sort<T>(p: Pred<T>, calls: nat, v: seq<T>, out: array<Cell<T>>) returns (ok: bool, made: nat)
    requires out.Length == |v| && forall i :: 0 <= i < |v| ==> out[i] == None
    modifies out
    ensures SortRun(p, calls, v) == Sorted(ok, out[..], made)
    decreases |v|
  {
    made := calls;
    if |v| == 0 {
      return true, made;
    } else if |v| == 1 {
      out[0] := Some(v[0]);
      return true, made;
    } else if |v| == 2 {
      var verdict := p(calls, v[1], v[0]);
      made := calls + 1;
      if verdict == Failed {
        assert out[..] == [None, None];
        return false, made;
      }
      if verdict == Less {
        out[0], out[1] := Some(v[1]), Some(v[0]);
      } else {
        out[0], out[1] := Some(v[0]), Some(v[1]);
      }
      assert out[..] == [out[0], out[1]];
      return true, made;
    }
    var s1 := |v| / 2;
    var buf1 := new Cell<T>[s1](_ => None);
    var buf2 := new Cell<T>[|v| - s1](_ => None);
    ok, made := Sort(p, made, v[..s1], buf1);
    if !ok {
      Fill(buf1[..], Written(v[s1..]), out);
      return;
    }
    SortedBuffer(p, calls, v[..s1]);
    ghost var calls2 := made;
    ok, made := Sort(p, made, v[s1..], buf2);
    if !ok {
      Fill(buf1[..], buf2[..], out);
      return;
    }
    SortedBuffer(p, calls2, v[s1..]);
    ok, made := Merge(p, made, buf1, buf2, out, Elements(buf1[..]), Elements(buf2[..]));
  }

  method Fill<T>(a: seq<Cell<T>>, b: seq<Cell<T>>, out: array<Cell<T>>)
    requires |a| + |b| == out.Length
    modifies out
    ensures out[..] == a + b
  {
    Copy(a, out, 0);
    Copy(b, out, |a|);
  }

  // ----- sorting a list in place

  /** The element vector of a list: which allocation it is, and what it holds. */
  datatype Vector<T> = Vector(id: nat, elems: seq<T>)

  /**
   The list is not locked while it is sorted: `before` is what was read, `now` what the list holds when the lock
   is taken again. A different vector or length means that somebody else changed the list; then it is left alone.
   */
  function Publish<T>(before: Vector<T>, now: Vector<T>, result: Vector<T>): Vector<T> {
    if now.id == before.id && |now.elems| == |before.elems| then result else now
  }

  /** The elements of a full buffer. */
  method Read<T>(buf: array<Cell<T>>) returns (s: seq<T>)
    requires buf[..] == Written(Elements(buf[..]))
    ensures s == Elements(buf[..])
  {
    ghost var all := Elements(buf[..]);
    s := [];
    for i := 0 to buf.Length
      invariant s == all[..i]
    {
      assert buf[..][i] == Some(all[i]);
      s := s + [buf[i].value];
    }
  }

  class List<T> {
    var l: Vector<T>

    constructor (l: Vector<T>)
      ensures this.l == l
    {
      this.l := l;
    }

    method SortInPlace(p: Pred<T>, now: Vector<T>, newId: nat) returns (ok: bool)
      modifies this
      ensures old(l).elems == [] ==> ok && l == old(l)
      ensures old(l).elems != [] ==> ok == SortRun(p, 0, old(l).elems).ok
      ensures old(l).elems != [] && !ok ==> l == now
      ensures old(l).elems != [] && ok ==>
                l == Publish(old(l), now, Vector(newId, Elements(SortRun(p, 0, old(l).elems).out)))
    {
      var before := l;
      if |before.elems| == 0 {
        return true;
      }
      var newList := new Cell<T>[|before.elems|](_ => None);
      var made;
      ok, made := Sort(p, 0, before.elems, newList);
      l := now;
      if !ok {
        return false;
      }
      if now.id == before.id && |now.elems| == |before.elems| {
        SortedBuffer(p, 0, before.elems);
        var elems := Read(newList);
        l := Vector(newId, elems);
      }
    }
  }

  /**
   An undisturbed sort leaves an ordered permutation; one during which the list was changed keeps the changed
   elements unless they were changed within the same vector, without a change of length.
   */
  lemma PublishKeepsElements<T(!new)>(p: Pred<T>, lo: (T, T) -> bool, before: Vector<T>, now: Vector<T>, newId: nat)
    requires WeakOrder(lo) && Answers(p, lo) && SortRun(p, 0, before.elems).ok
    ensures var l := Publish(before, now, Vector(newId, Elements(SortRun(p, 0, before.elems).out)));
            && (now == before ==> InOrder(lo, l.elems))
            && (multiset(l.elems) == multiset(now.elems) <==>
                  now.id != before.id || |now.elems| != |before.elems| || multiset(now.elems) == multiset(before.elems))
  {
    SortInOrder(p, lo, 0, before.elems);
    SortConserves(p, 0, before.elems);
    if Lost(p, 0, before.elems) != [] {
      LostMeansFailed(p, 0, before.elems);
    }
    assert multiset(Elements(SortRun(p, 0, before.elems).out)) == multiset(before.elems);
  }
}
