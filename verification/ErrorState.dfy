/** What one thread's pending errors are, independent of how they are linked in memory. */
module ErrorState {
  import opened Common
  import opened ErrorTypes

  /** A raised error: `id` tells apart two raises of equal errors. */
  datatype Exc = Exc(id: nat, tp: TypeObject)

  /** `visible` is newest first; `saved` holds the chains hidden by open state blocks, innermost first. */
  datatype State = State(visible: seq<Exc>, saved: seq<seq<Exc>>)

  datatype Op =
    | Throw(error: Exc)
    | Handled
    | HandledOne
    | Handle(tp: TypeObject)
    | HandleOne(tp: TypeObject)
    | PushState
    | PopState

  /** `code` is what the call returns; `dropped` are the errors whose node the call gave up. */
  datatype Outcome = Outcome(state: State, code: int, dropped: seq<Exc>)

  predicate TopMatches(s: State, tp: TypeObject) {
    s.visible != [] && IsSameOrDerived(s.visible[0].tp, tp)
  }

  function DropTop(s: State): Outcome
    requires s.visible != []
  {
    Outcome(s.(visible := s.visible[1..]), if |s.visible| > 1 then 1 else 0, [s.visible[0]])
  }

  function Apply(s: State, op: Op): Outcome
    requires op.PopState? ==> s.saved != []
  {
    match op
    case Throw(e) => Outcome(s.(visible := [e] + s.visible), 0, [])
    case Handled => Outcome(s.(visible := []), if s.visible != [] then 1 else 0, s.visible)
    case HandledOne => if s.visible == [] then Outcome(s, -1, []) else DropTop(s)
    case Handle(tp) => if TopMatches(s, tp) then Outcome(s.(visible := []), 1, s.visible) else Outcome(s, 0, [])
    case HandleOne(tp) => if TopMatches(s, tp) then DropTop(s) else Outcome(s, -1, [])
    case PushState => Outcome(State([], [s.visible] + s.saved), 0, [])
    case PopState => Outcome(State(s.visible + s.saved[0], s.saved[1..]), 0, [])
  }

  /** The default way the runtime itself catches. */
  predicate Catches(s: State, tp: TypeObject) {
    Apply(s, HandleOne(tp)).code == 0
  }

  // ----- runs

  datatype Trace = Trace(state: State, codes: seq<int>, dropped: seq<Exc>)

  /** State blocks are lexical, so a run never closes a block that was not opened at or above `depth`. */
  predicate WellNested(ops: seq<Op>, depth: nat) {
    ops == [] ||
    match ops[0]
    case PushState => WellNested(ops[1..], depth + 1)
    case PopState => depth > 0 && WellNested(ops[1..], depth - 1)
    case _ => WellNested(ops[1..], depth)
  }

  function Run(s: State, ops: seq<Op>): (t: Trace)
    requires WellNested(ops, |s.saved|)
    ensures |t.codes| == |ops|
    decreases ops
  {
    if ops == [] then Trace(s, [], [])
    else
      var o := Apply(s, ops[0]);
      var r := Run(o.state, ops[1..]);
      Trace(r.state, [o.code] + r.codes, o.dropped + r.dropped)
  }

  function Thrown(ops: seq<Op>): seq<Exc> {
    if ops == [] then [] else (if ops[0].Throw? then [ops[0].error] else []) + Thrown(ops[1..])
  }

  /** Every error the thread still owns, visible ones first and hidden ones innermost first. */
  function Pending(s: State): seq<Exc> {
    s.visible + Flatten(s.saved)
  }

  // ----- conservation and order

  /** Opening or closing a state block moves no error: the pending ones read the same before and after. */
  lemma BlocksMoveNothing(s: State, op: Op)
    requires op.PushState? || (op.PopState? && s.saved != [])
    ensures Pending(Apply(s, op).state) == Pending(s)
  {
    if op.PushState? {
      var t := Apply(s, op).state;
      assert t.saved[1..] == s.saved;
      assert Flatten(t.saved) == s.visible + Flatten(s.saved);
    } else {
      assert s.visible + Flatten(s.saved) == (s.visible + s.saved[0]) + Flatten(s.saved[1..]);
    }
  }

  /** Every step splits the pending errors in two: what it drops is a prefix, what it keeps is the rest. */
  lemma StepSplitsPending(s: State, op: Op)
    requires op.PopState? ==> s.saved != []
    ensures var o := Apply(s, op);
            (if op.Throw? then [op.error] else []) + Pending(s) == o.dropped + Pending(o.state)
  {
    var o := Apply(s, op);
    if op.PushState? || op.PopState? {
      BlocksMoveNothing(s, op);
    } else if op.Throw? {
      assert [op.error] + (s.visible + Flatten(s.saved)) == ([op.error] + s.visible) + Flatten(s.saved);
    } else {
      assert o.dropped + o.state.visible == s.visible;
      assert o.dropped + (o.state.visible + Flatten(s.saved)) == (o.dropped + o.state.visible) + Flatten(s.saved);
    }
  }

  lemma SplitsCompose(raised: seq<Exc>, p: seq<Exc>, dropped: seq<Exc>, q: seq<Exc>,
                      moreRaised: multiset<Exc>, moreDropped: multiset<Exc>, end: multiset<Exc>)
    requires raised + p == dropped + q
    requires moreRaised + multiset(q) == moreDropped + end
    ensures (multiset(raised) + moreRaised) + multiset(p) == (multiset(dropped) + moreDropped) + end
  {
    var (r, d) := (multiset(raised), multiset(dropped));
    calc {
      (r + moreRaised) + multiset(p);
      (r + multiset(p)) + moreRaised;
      { assert multiset(raised + p) == r + multiset(p); assert multiset(dropped + q) == d + multiset(q); }
      (d + multiset(q)) + moreRaised;
      d + (moreRaised + multiset(q));
      d + (moreDropped + end);
      (d + moreDropped) + end;
    }
  }

  /** No run loses or duplicates an error: raised plus pending before is dropped plus pending after. */
  lemma {:induction false} Conservation(s: State, ops: seq<Op>)
    requires WellNested(ops, |s.saved|)
    ensures multiset(Thrown(ops)) + multiset(Pending(s))
         == multiset(Run(s, ops).dropped) + multiset(Pending(Run(s, ops).state))
    decreases ops
  {
    if ops != [] {
      var o := Apply(s, ops[0]);
      var r := Run(o.state, ops[1..]);
      var raised := if ops[0].Throw? then [ops[0].error] else [];
      StepSplitsPending(s, ops[0]);
      Conservation(o.state, ops[1..]);
      SplitsCompose(raised, Pending(s), o.dropped, Pending(o.state),
                    multiset(Thrown(ops[1..])), multiset(r.dropped), multiset(Pending(r.state)));
      assert Thrown(ops) == raised + Thrown(ops[1..]);
    }
  }

  ghost predicate NewestFirst(es: seq<Exc>) {
    forall i, j :: 0 <= i < j < |es| ==> es[i].id > es[j].id
  }

  /** Each raise is younger than all errors still pending and than all earlier raises. */
  ghost predicate FreshRaises(ops: seq<Op>, after: int) {
    ops == [] ||
    (if ops[0].Throw? then ops[0].error.id > after && FreshRaises(ops[1..], ops[0].error.id)
     else FreshRaises(ops[1..], after))
  }

  /** No run reorders errors: visible and hidden chains together always read newest to oldest. */
  lemma {:induction false} OrderKept(s: State, ops: seq<Op>, newest: int)
    requires WellNested(ops, |s.saved|)
    requires NewestFirst(Pending(s)) && (forall e :: e in Pending(s) ==> e.id <= newest)
    requires FreshRaises(ops, newest)
    ensures NewestFirst(Pending(Run(s, ops).state))
    decreases ops
  {
    if ops != [] {
      var o := Apply(s, ops[0]);
      OrderStep(s, ops[0], newest);
      OrderKept(o.state, ops[1..], if ops[0].Throw? then ops[0].error.id else newest);
    }
  }

  lemma OrderStep(s: State, op: Op, newest: int)
    requires op.PopState? ==> s.saved != []
    requires NewestFirst(Pending(s)) && (forall e :: e in Pending(s) ==> e.id <= newest)
    requires op.Throw? ==> op.error.id > newest
    ensures var after := Pending(Apply(s, op).state);
            && NewestFirst(after)
            && forall e :: e in after ==> e.id <= if op.Throw? then op.error.id else newest
  {
    var (o, raised) := (Apply(s, op), if op.Throw? then [op.error] else []);
    StepSplitsPending(s, op);
    assert NewestFirst(raised + Pending(s)) by {
      if op.Throw? {
        YoungerInFront(op.error, Pending(s));
      } else {
        assert [] + Pending(s) == Pending(s);
      }
    }
    RestInOrder(o.dropped, Pending(o.state));
  }

  lemma YoungerInFront(e: Exc, es: seq<Exc>)
    requires NewestFirst(es) && forall f :: f in es ==> f.id < e.id
    ensures NewestFirst([e] + es)
  {
  }

  lemma RestInOrder(a: seq<Exc>, b: seq<Exc>)
    requires NewestFirst(a + b)
    ensures NewestFirst(b)
  {
    forall i, j | 0 <= i < j < |b| ensures b[i].id > b[j].id {
      assert (a + b)[|a| + i] == b[i] && (a + b)[|a| + j] == b[j];
    }
  }

  // ----- state blocks hide what was pending before

  function Beneath(s: State, below: seq<seq<Exc>>): State {
    State(s.visible, s.saved + below)
  }

  lemma {:induction false} MoreDepthStaysNested(ops: seq<Op>, depth: nat, extra: nat)
    requires WellNested(ops, depth)
    ensures WellNested(ops, depth + extra)
  {
    if ops != [] {
      match ops[0]
      case PushState => MoreDepthStaysNested(ops[1..], depth + 1, extra);
      case PopState => MoreDepthStaysNested(ops[1..], depth - 1, extra);
      case _ => MoreDepthStaysNested(ops[1..], depth, extra);
    }
  }

  /** Frame rule: chains saved by enclosing blocks neither influence a run nor are changed by it. */
  lemma {:induction false} RunIgnoresEnclosing(s: State, ops: seq<Op>, below: seq<seq<Exc>>)
    requires WellNested(ops, |s.saved|)
    ensures WellNested(ops, |s.saved| + |below|)
    ensures var t := Run(s, ops);
            Run(Beneath(s, below), ops) == Trace(Beneath(t.state, below), t.codes, t.dropped)
    decreases ops
  {
    MoreDepthStaysNested(ops, |s.saved|, |below|);
    if ops != [] {
      var o := Apply(s, ops[0]);
      assert Apply(Beneath(s, below), ops[0]) == Outcome(Beneath(o.state, below), o.code, o.dropped) by {
        if ops[0].PushState? {
          assert [s.visible] + (s.saved + below) == ([s.visible] + s.saved) + below;
        } else if ops[0].PopState? {
          assert (s.saved + below)[1..] == s.saved[1..] + below;
        }
      }
      RunIgnoresEnclosing(o.state, ops[1..], below);
    }
  }

  lemma {:induction false} NestedConcat(a: seq<Op>, b: seq<Op>, s: State)
    requires WellNested(a, |s.saved|) && WellNested(b, |Run(s, a).state.saved|)
    ensures WellNested(a + b, |s.saved|)
    ensures var t := Run(s, a); var u := Run(t.state, b);
            Run(s, a + b) == Trace(u.state, t.codes + u.codes, t.dropped + u.dropped)
    decreases a
  {
    if a == [] {
      assert a + b == b;
    } else {
      var o := Apply(s, a[0]);
      NestedConcat(a[1..], b, o.state);
      assert a + b == [a[0]] + (a[1..] + b);
      RunCons(s, a[0], a[1..] + b);
      var t := Run(o.state, a[1..]);
      AppendTraces(o, t, Run(t.state, b));
    }
  }

  lemma AppendTraces(o: Outcome, t: Trace, u: Trace)
    ensures [o.code] + (t.codes + u.codes) == ([o.code] + t.codes) + u.codes
    ensures o.dropped + (t.dropped + u.dropped) == (o.dropped + t.dropped) + u.dropped
  {
  }

  lemma RunCons(s: State, op: Op, ops: seq<Op>)
    requires op.PopState? ==> s.saved != []
    requires WellNested(ops, |Apply(s, op).state.saved|)
    ensures WellNested([op] + ops, |s.saved|)
    ensures var o := Apply(s, op); var t := Run(o.state, ops);
            Run(s, [op] + ops) == Trace(t.state, [o.code] + t.codes, o.dropped + t.dropped)
  {
    assert ([op] + ops)[1..] == ops;
  }

  const FRESH := State([], [])

  ghost predicate IsBody(body: seq<Op>) {
    WellNested(body, 0) && Run(FRESH, body).state.saved == []
  }

  /**
   A state block behaves as if its body ran in a thread without any pending error: every return
   code and every drop is the same whatever was pending, and closing the block leaves exactly the
   errors the body left, newest first, in front of the untouched chain from before.
   */
  lemma BlockTheorem(s: State, body: seq<Op>)
    requires IsBody(body)
    ensures WellNested([PushState] + body + [PopState], |s.saved|)
    ensures var inner := Run(FRESH, body);
            Run(s, [PushState] + body + [PopState])
              == Trace(State(inner.state.visible + s.visible, s.saved), [0] + inner.codes + [0], inner.dropped)
  {
    var inner := Run(FRESH, body);
    BodyThenPop(s, body);
    assert [PushState] + body + [PopState] == [PushState] + (body + [PopState]);
    RunCons(s, PushState, body + [PopState]);
    assert [0] + (inner.codes + [0]) == [0] + inner.codes + [0];
  }

  lemma BodyThenPop(s: State, body: seq<Op>)
    requires IsBody(body)
    ensures WellNested(body + [PopState], |s.saved| + 1)
    ensures var inner := Run(FRESH, body);
            Run(State([], [s.visible] + s.saved), body + [PopState])
              == Trace(State(inner.state.visible + s.visible, s.saved), inner.codes + [0], inner.dropped)
  {
    var (below, inner) := ([s.visible] + s.saved, Run(FRESH, body));
    RunIgnoresEnclosing(FRESH, body, below);
    assert Beneath(FRESH, below) == State([], below);
    assert Beneath(inner.state, below) == State(inner.state.visible, below);
    NestedConcat(body, [PopState], State([], below));
    assert below[1..] == s.saved;
    assert inner.dropped + [] == inner.dropped;
  }

  /** The documented idiom: a body that ends by handling everything leaves the thread as it found it. */
  lemma PreservingBlock(s: State, body: seq<Op>)
    requires IsBody(body)
    ensures WellNested([PushState] + (body + [Handled]) + [PopState], |s.saved|)
    ensures Run(s, [PushState] + (body + [Handled]) + [PopState]).state == s
  {
    NestedConcat(body, [Handled], FRESH);
    BlockTheorem(s, body + [Handled]);
    assert [] + s.visible == s.visible;
  }

  // ----- catching

  /**
   The two ways of catching leave the same state exactly when they cannot differ: the newest error does not
   match, or it is the only one. Reported success always means that nothing is pending any more, and 1 that just the
   newest error is gone.
   */
  lemma CatchVersusHandle(s: State, tp: TypeObject)
    ensures Apply(s, Handle(tp)).code != 0 ==> Apply(s, Handle(tp)).state.visible == []
    ensures Catches(s, tp) ==> Apply(s, HandleOne(tp)).state.visible == []
    ensures Apply(s, HandleOne(tp)).code == 1 ==>
              exists newest :: s.visible == [newest] + Apply(s, HandleOne(tp)).state.visible && |s.visible| > 1
    ensures Apply(s, Handle(tp)).state == Apply(s, HandleOne(tp)).state <==> !TopMatches(s, tp) || |s.visible| == 1
    ensures (Apply(s, Handle(tp)).code != 0) == Catches(s, tp) <==> !TopMatches(s, tp) || |s.visible| == 1
  {
    if TopMatches(s, tp) {
      assert |s.visible[1..]| == |s.visible| - 1;
      assert s.visible == [s.visible[0]] + s.visible[1..];
    }
  }

  /** A clause for a base type catches whatever a clause for a derived type catches. */
  lemma WiderClauseCatches(s: State, tp: TypeObject, base: TypeObject)
    requires IsSameOrDerived(tp, base)
    ensures TopMatches(s, tp) ==> TopMatches(s, base)
    ensures Catches(s, tp) ==> Catches(s, base)
  {
    if TopMatches(s, tp) {
      DerivedTransitive(s.visible[0].tp, tp, base);
    }
  }

  function Repeat(op: Op, n: nat): (ops: seq<Op>)
    ensures |ops| == n && forall i :: 0 <= i < n ==> ops[i] == op
  {
    if n == 0 then [] else [op] + Repeat(op, n - 1)
  }

  /** Handling one error at a time reports 1 until the last one, 0 for the last, and drops newest first. */
  lemma {:induction false} HandlingOneByOne(s: State)
    ensures WellNested(Repeat(HandledOne, |s.visible|), |s.saved|)
    ensures var t := Run(s, Repeat(HandledOne, |s.visible|));
            && t.state == s.(visible := [])
            && t.dropped == s.visible
            && forall i :: 0 <= i < |t.codes| ==> t.codes[i] == if i == |t.codes| - 1 then 0 else 1
    decreases |s.visible|
  {
    if s.visible != [] {
      var o := Apply(s, HandledOne);
      HandlingOneByOne(o.state);
      assert Repeat(HandledOne, |s.visible|)[1..] == Repeat(HandledOne, |s.visible| - 1);
      assert [s.visible[0]] + s.visible[1..] == s.visible;
    }
  }
}
