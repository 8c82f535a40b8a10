/**
 Many threads advancing one sub-range iterator. A call first takes an index from the shared counter and then, as a
 separate step, pulls from the shared source; the scheduler decides how the steps of different threads interleave.
 An enumeration iterator is the special case that drops nothing and has no end.
 */
module SubRangeThreads {
  import opened Common

  /** Bounds of the range and length of the source. */
  datatype Range = Range(begin: nat, end: nat, length: nat)

  /**
   `log[k]` is the index under which source element `k` was pulled; `held` maps a thread to the index it took and
   did not use yet; `missed` are the indices with which a thread found the source exhausted.
   */
  datatype World = World(pos: nat, log: seq<nat>, held: map<nat, nat>, missed: seq<nat>)

  datatype Action = Take(thread: nat) | Pull(thread: nat)

  const START := World(0, [], map[], [])

  predicate Enabled(w: World, a: Action) {
    match a
    case Take(t) => t !in w.held
    case Pull(t) => t in w.held
  }

  /** An index at or behind the end makes the call return without a pull. */
  function Step(r: Range, w: World, a: Action): World
    requires Enabled(w, a)
  {
    match a
    case Take(t) => if w.pos < r.end then w.(pos := w.pos + 1, held := w.held[t := w.pos]) else w.(pos := w.pos + 1)
    case Pull(t) =>
      var (i, rest) := (w.held[t], w.held - {t});
      if |w.log| < r.length then w.(log := w.log + [i], held := rest) else w.(missed := w.missed + [i], held := rest)
  }

  ghost predicate Schedule(r: Range, w: World, actions: seq<Action>)
    decreases actions
  {
    actions == [] || (Enabled(w, actions[0]) && Schedule(r, Step(r, w, actions[0]), actions[1..]))
  }

  ghost function Final(r: Range, w: World, actions: seq<Action>): World
    requires Schedule(r, w, actions)
    decreases actions
  {
    if actions == [] then w else Final(r, Step(r, w, actions[0]), actions[1..])
  }

  /** How many of the pulled elements were yielded and not skipped. */
  function Yields(begin: nat, log: seq<nat>): nat {
    if log == [] then 0 else Yields(begin, log[..|log| - 1]) + if log[|log| - 1] >= begin then 1 else 0
  }

  /** The number of elements the range has. */
  function Documented(r: Range): nat {
    var e := Min(r.end, r.length);
    if e > r.begin then e - r.begin else 0
  }

  // ----- every index is used once

  ghost predicate Distinct(s: seq<nat>) {
    forall i, j :: 0 <= i < j < |s| ==> s[i] != s[j]
  }

  ghost predicate Injective(held: map<nat, nat>) {
    forall t, u :: t in held && u in held && t != u ==> held[t] != held[u]
  }

  /** Exactly the indices handed out so far are in use, and each of them in one place only. */
  ghost predicate Inv(r: Range, w: World) {
    && Distinct(w.log) && Distinct(w.missed) && Injective(w.held)
    && (forall i :: i in w.log ==> i !in w.missed && i !in w.held.Values)
    && (forall i :: i in w.missed ==> i !in w.held.Values)
    && (forall i :: i in w.log || i in w.missed || i in w.held.Values <==> 0 <= i < Min(w.pos, r.end))
    && |w.log| <= r.length && (w.missed != [] ==> |w.log| == r.length)
  }

  lemma AddHolder(held: map<nat, nat>, t: nat, i: nat)
    requires Injective(held) && t !in held && i !in held.Values
    ensures Injective(held[t := i]) && held[t := i].Values == held.Values + {i}
  {
    var more := held[t := i];
    forall j ensures j in more.Values <==> j in held.Values || j == i {
      if j in held.Values {
        var u :| u in held && held[u] == j;
        assert more[u] == j;
      }
      assert more[t] == i;
    }
  }

  lemma RemoveHolder(held: map<nat, nat>, t: nat)
    requires Injective(held) && t in held
    ensures Injective(held - {t}) && (held - {t}).Values == held.Values - {held[t]}
  {
    var fewer := held - {t};
    forall j ensures j in fewer.Values <==> j in held.Values && j != held[t] {
      if j in held.Values && j != held[t] {
        var u :| u in held && held[u] == j;
        assert u in fewer && fewer[u] == j;
      }
    }
  }

  lemma Extend(s: seq<nat>, i: nat)
    requires Distinct(s) && i !in s
    ensures Distinct(s + [i]) && forall j :: j in s + [i] <==> j in s || j == i
  {
  }

  lemma StepKeepsInv(r: Range, w: World, a: Action)
    requires Inv(r, w) && Enabled(w, a)
    ensures Inv(r, Step(r, w, a))
  {
    match a
    case Take(t) =>
      if w.pos < r.end {
        AddHolder(w.held, t, w.pos);
      }
    case Pull(t) =>
      RemoveHolder(w.held, t);
      var i := w.held[t];
      assert i in w.held.Values;
      Extend(w.log, i);
      Extend(w.missed, i);
  }

  lemma {:induction false} ScheduleKeepsInv(r: Range, w: World, actions: seq<Action>)
    requires Inv(r, w) && Schedule(r, w, actions)
    ensures Inv(r, Final(r, w, actions))
    decreases actions
  {
    if actions != [] {
      StepKeepsInv(r, w, actions[0]);
      ScheduleKeepsInv(r, Step(r, w, actions[0]), actions[1..]);
    }
  }

  /**
   Whatever the interleaving: no two pulled elements get the same index, no source element is pulled twice, and
   once every thread has finished its call the indices in use form a prefix without gaps.
   */
  lemma IndicesDistinct(r: Range, actions: seq<Action>)
    requires Schedule(r, START, actions)
    ensures var w := Final(r, START, actions);
            && Distinct(w.log) && |w.log| <= r.length
            && (w.held == map[] ==>
                  forall i :: i in w.log || i in w.missed <==> 0 <= i < Min(w.pos, r.end))
  {
    ScheduleKeepsInv(r, START, actions);
    var w := Final(r, START, actions);
    assert w.held == map[] ==> w.held.Values == {};
  }

  // ----- how many elements the range has

  function Big(begin: nat, log: seq<nat>): set<nat> {
    set i | i in log && i >= begin
  }

  lemma {:induction false} YieldsAreIndices(begin: nat, log: seq<nat>)
    requires Distinct(log)
    ensures Yields(begin, log) == |Big(begin, log)| && Yields(0, log) == |log|
    decreases |log|
  {
    if log != [] {
      var (init, last) := (log[..|log| - 1], log[|log| - 1]);
      YieldsAreIndices(begin, init);
      assert log == init + [last];
      assert last !in init;
      if last >= begin {
        assert Big(begin, log) == Big(begin, init) + {last};
      } else {
        assert Big(begin, log) == Big(begin, init);
      }
    }
  }

  /** All threads are done, and one of them has seen the end of the range or of the source. */
  predicate Complete(r: Range, w: World) {
    w.held == map[] && (w.pos >= r.end || w.missed != [])
  }

  /** The ranges for which it does not matter how threads interleave. */
  predicate Robust(r: Range) {
    r.length >= r.end || r.begin == 0 || r.begin >= r.end || r.length == 0
  }

  lemma NoneMissed(r: Range, w: World)
    requires Inv(r, w) && w.held == map[] && w.missed == [] && w.pos >= r.end
    ensures |w.log| == r.end && forall i :: i in w.log <==> 0 <= i < r.end
  {
    assert w.held.Values == {};
    assert Big(0, w.log) == Numbers(0, r.end);
    YieldsAreIndices(0, w.log);
  }

  lemma SomeMissed(r: Range, w: World)
    requires Inv(r, w) && w.missed != []
    ensures |w.log| == r.length < r.end
  {
    var (used, all, i) := (Big(0, w.log), Numbers(0, r.end), w.missed[0]);
    YieldsAreIndices(0, w.log);
    assert i in w.missed;
    forall j | j in used ensures j in all - {i} {
      assert j in w.log;
    }
    SubsetSize(used, all - {i});
  }

  lemma {:induction false} SubsetSize(a: set<nat>, b: set<nat>)
    requires a <= b
    ensures |a| <= |b|
    decreases a
  {
    if a != {} {
      var x :| x in a;
      SubsetSize(a - {x}, b - {x});
    }
  }

  /** For a robust range every complete interleaving yields the documented number of elements. */
  lemma RobustCount(r: Range, actions: seq<Action>)
    requires Schedule(r, START, actions) && Complete(r, Final(r, START, actions)) && Robust(r)
    ensures Yields(r.begin, Final(r, START, actions).log) == Documented(r)
  {
    ScheduleKeepsInv(r, START, actions);
    var w := Final(r, START, actions);
    YieldsAreIndices(r.begin, w.log);
    if w.missed == [] {
      NoneMissed(r, w);
      assert Big(r.begin, w.log) == Numbers(r.begin, r.end);
      return;
    }
    SomeMissed(r, w);
    if r.begin >= r.end {
      forall i | i in w.log ensures i < r.begin {
      }
      assert Big(r.begin, w.log) == {};
    }
  }

  // ----- and for the others it does

  /** Threads 0, 1, ... take an index each and are then held up. */
  function Stall(k: nat): seq<Action> {
    if k == 0 then [] else Stall(k - 1) + [Take(k - 1)]
  }

  /** Thread `t` makes `k` calls. */
  function Calls(t: nat, k: nat): seq<Action> {
    if k == 0 then [] else Calls(t, k - 1) + [Take(t), Pull(t)]
  }

  lemma {:induction false} RunConcat(r: Range, w: World, a: seq<Action>, b: seq<Action>)
    requires Schedule(r, w, a) && Schedule(r, Final(r, w, a), b)
    ensures Schedule(r, w, a + b) && Final(r, w, a + b) == Final(r, Final(r, w, a), b)
    decreases a
  {
    if a == [] {
      assert a + b == b;
    } else {
      assert (a + b)[1..] == a[1..] + b && (a + b)[0] == a[0];
      RunConcat(r, Step(r, w, a[0]), a[1..], b);
    }
  }

  function Counting(first: nat, k: nat): seq<nat> {
    seq(k, i requires 0 <= i < k => first + i)
  }

  function Stalled(k: nat): map<nat, nat> {
    if k == 0 then map[] else Stalled(k - 1)[k - 1 := k - 1]
  }

  lemma {:induction false} StalledThreads(k: nat, t: nat)
    ensures t in Stalled(k) <==> t < k
  {
    if k > 0 {
      StalledThreads(k - 1, t);
    }
  }

  lemma {:induction false} StallRun(r: Range, k: nat)
    requires k <= r.end
    ensures Schedule(r, START, Stall(k))
    ensures Final(r, START, Stall(k)) == World(k, [], Stalled(k), [])
  {
    if k == 0 {
      return;
    }
    StallRun(r, k - 1);
    var w := Final(r, START, Stall(k - 1));
    StalledThreads(k - 1, k - 1);
    assert Enabled(w, Take(k - 1));
    RunConcat(r, START, Stall(k - 1), [Take(k - 1)]);
    assert Final(r, w, [Take(k - 1)]) == Step(r, w, Take(k - 1));
  }

  lemma {:induction false} CallsRun(r: Range, w: World, t: nat, k: nat)
    requires t !in w.held && w.log == [] && w.pos + k <= r.end && k <= r.length
    ensures Schedule(r, w, Calls(t, k))
    ensures Final(r, w, Calls(t, k)) == w.(pos := w.pos + k, log := Counting(w.pos, k))
  {
    if k == 0 {
      assert Counting(w.pos, 0) == [];
      return;
    }
    CallsRun(r, w, t, k - 1);
    var u := Final(r, w, Calls(t, k - 1));
    var v := Step(r, u, Take(t));
    assert Schedule(r, v, [Pull(t)]) && Schedule(r, u, [Take(t), Pull(t)]);
    RunConcat(r, w, Calls(t, k - 1), [Take(t), Pull(t)]);
    assert v.held - {t} == u.held;
    assert Counting(w.pos, k) == Counting(w.pos, k - 1) + [w.pos + k - 1];
    assert [Take(t), Pull(t)][1..] == [Pull(t)];
    assert Final(r, u, [Take(t), Pull(t)]) == Final(r, v, [Pull(t)]) == Step(r, v, Pull(t));
  }

  lemma {:induction false} CountingYields(begin: nat, first: nat, k: nat)
    requires begin <= first
    ensures Yields(begin, Counting(first, k)) == k
  {
    if k > 0 {
      CountingYields(begin, first, k - 1);
      assert Counting(first, k)[..k - 1] == Counting(first, k - 1);
    }
  }

  /** All threads that are to be skipped are held up, and one more thread empties the range. */
  lemma Overtaken(r: Range)
    requires !Robust(r)
    ensures var actions := Stall(r.begin) + Calls(r.begin, Min(r.end - r.begin, r.length));
            Schedule(r, START, actions) && Yields(r.begin, Final(r, START, actions).log) > Documented(r)
  {
    var k := Min(r.end - r.begin, r.length);
    StallRun(r, r.begin);
    var w := Final(r, START, Stall(r.begin));
    StalledThreads(r.begin, r.begin);
    CallsRun(r, w, r.begin, k);
    RunConcat(r, START, Stall(r.begin), Calls(r.begin, k));
    CountingYields(r.begin, r.begin, k);
  }

  /** Every state can run to completion, and elements once yielded stay yielded. */
  lemma {:induction false} Finish(r: Range, w: World) returns (actions: seq<Action>)
    requires Inv(r, w)
    ensures Schedule(r, w, actions) && Complete(r, Final(r, w, actions))
    ensures Yields(r.begin, Final(r, w, actions).log) >= Yields(r.begin, w.log)
    decreases if r.end > w.pos then r.end - w.pos else 0, |w.held|
  {
    if Complete(r, w) {
      return [];
    }
    var a;
    if w.held != map[] {
      var t :| t in w.held;
      a := Pull(t);
      assert (w.held - {t}).Keys == w.held.Keys - {t};
      assert |(w.held - {t}).Keys| == |w.held.Keys| - 1;
    } else {
      a := Take(0);
    }
    StepKeepsInv(r, w, a);
    var v := Step(r, w, a);
    assert v.log != w.log ==> v.log[..|v.log| - 1] == w.log;
    var rest := Finish(r, v);
    actions := [a] + rest;
    assert actions[1..] == rest;
  }

  ghost predicate AlwaysDocumented(r: Range) {
    forall actions :: Schedule(r, START, actions) && Complete(r, Final(r, START, actions)) ==>
      Yields(r.begin, Final(r, START, actions).log) == Documented(r)
  }

  /**
   Threads sharing an iterator get the documented number of elements between them, however they are scheduled,
   exactly for the robust ranges. For all others some schedule yields too many: an element is skipped by the thread
   that took a small index, and that thread may come too late.
   */
  lemma AlwaysDocumentedIffRobust(r: Range)
    ensures AlwaysDocumented(r) <==> Robust(r)
  {
    if Robust(r) {
      forall actions | Schedule(r, START, actions) && Complete(r, Final(r, START, actions))
        ensures Yields(r.begin, Final(r, START, actions).log) == Documented(r)
      {
        RobustCount(r, actions);
      }
    } else {
      var first := Stall(r.begin) + Calls(r.begin, Min(r.end - r.begin, r.length));
      Overtaken(r);
      ScheduleKeepsInv(r, START, first);
      var rest := Finish(r, Final(r, START, first));
      RunConcat(r, START, first, rest);
      assert Schedule(r, START, first + rest);
    }
  }

  /** Enumerating: one thread alone numbers the elements 0, 1, ...; two threads may leave a number out. */
  lemma EnumerationMaySkip(r: Range)
    requires r.begin == 0 && 0 < r.length < r.end
    ensures Schedule(r, START, Calls(0, r.length)) && Final(r, START, Calls(0, r.length)).log == Counting(0, r.length)
    ensures var actions := Stall(1) + Calls(1, r.length);
            Schedule(r, START, actions) && Final(r, START, actions).log == Counting(1, r.length)
  {
    CallsRun(r, START, 0, r.length);
    StallRun(r, 1);
    StalledThreads(1, 1);
    CallsRun(r, Final(r, START, Stall(1)), 1, r.length);
    RunConcat(r, START, Stall(1), Calls(1, r.length));
  }
}
