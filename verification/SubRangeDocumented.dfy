/**
 The programs the documentation gives for sub-range and enumeration iterators, run by many threads on one iterator: each
 thread pulls an element first and gives it a number then, so that it is the numbers that are handed out in order.
 */
module SubRangeDocumented {
  import opened Common
  import opened SubRangeThreads

  /** A source element and the number it got. */
  datatype Numbered = Numbered(elem: nat, index: nat)

  /**
   `held` maps a thread to the source element it pulled and has not numbered yet; `ended` says that some thread has
   found the end of the source or of the range.
   */
  datatype State = State(pulled: nat, pos: nat, held: map<nat, nat>, log: seq<Numbered>, ended: bool)

  datatype Move = Draw(thread: nat) | Number(thread: nat)

  const FRESH := State(0, 0, map[], [], false)

  predicate CanMove(s: State, m: Move) {
    match m
    case Draw(t) => t !in s.held
    case Number(t) => t in s.held
  }

  function MoveOn(r: Range, s: State, m: Move): State
    requires CanMove(s, m)
  {
    match m
    case Draw(t) =>
      if s.pulled < r.length then s.(pulled := s.pulled + 1, held := s.held[t := s.pulled]) else s.(ended := true)
    case Number(t) =>
      s.(pos := s.pos + 1, held := s.held - {t}, log := s.log + [Numbered(s.held[t], s.pos)],
         ended := s.ended || s.pos >= r.end)
  }

  ghost predicate Run(r: Range, s: State, moves: seq<Move>)
    decreases moves
  {
    moves == [] || (CanMove(s, moves[0]) && Run(r, MoveOn(r, s, moves[0]), moves[1..]))
  }

  ghost function After(r: Range, s: State, moves: seq<Move>): State
    requires Run(r, s, moves)
    decreases moves
  {
    if moves == [] then s else After(r, MoveOn(r, s, moves[0]), moves[1..])
  }

  /** How many of the numbered elements are yielded. */
  function Yielded(r: Range, log: seq<Numbered>): nat {
    if log == [] then 0
    else Yielded(r, log[..|log| - 1]) + if r.begin <= log[|log| - 1].index < r.end then 1 else 0
  }

  /** Each element that was pulled is held by one thread or was numbered once, and the numbers are a prefix. */
  ghost predicate Kept(r: Range, s: State) {
    && s.pos == |s.log| && (forall k :: 0 <= k < |s.log| ==> s.log[k].index == k)
    && (forall i, j :: 0 <= i < j < |s.log| ==> s.log[i].elem != s.log[j].elem)
    && Injective(s.held) && (forall k, t :: 0 <= k < |s.log| && t in s.held ==> s.log[k].elem != s.held[t])
    && (forall k :: 0 <= k < |s.log| ==> s.log[k].elem < s.pulled) && (forall t :: t in s.held ==> s.held[t] < s.pulled)
    && |s.log| + |s.held| == s.pulled <= r.length
    && (s.ended ==> s.pulled == r.length || s.pos > r.end)
  }

  lemma MoveKeeps(r: Range, s: State, m: Move)
    requires Kept(r, s) && CanMove(s, m)
    ensures Kept(r, MoveOn(r, s, m))
  {
    match m
    case Draw(t) => DrawKeeps(r, s, t);
    case Number(t) => NumberKeeps(r, s, t);
  }

  lemma DrawKeeps(r: Range, s: State, t: nat)
    requires Kept(r, s) && t !in s.held
    ensures Kept(r, MoveOn(r, s, Draw(t)))
  {
    if s.pulled < r.length {
      var more := s.held[t := s.pulled];
      assert more.Keys == s.held.Keys + {t};
      assert |more| == |more.Keys| == |s.held| + 1;
      assert Injective(more);
    }
  }

  lemma NumberKeeps(r: Range, s: State, t: nat)
    requires Kept(r, s) && t in s.held
    ensures Kept(r, MoveOn(r, s, Number(t)))
  {
    var fewer := s.held - {t};
    assert fewer.Keys == s.held.Keys - {t};
    assert |fewer| == |fewer.Keys| == |s.held| - 1;
    OneMoreNumbered(s.log, Numbered(s.held[t], s.pos));
    assert forall u :: u in fewer ==> fewer[u] != s.held[t];
  }

  lemma OneMoreNumbered(log: seq<Numbered>, n: Numbered)
    requires forall i, j :: 0 <= i < j < |log| ==> log[i].elem != log[j].elem
    requires forall k :: 0 <= k < |log| ==> log[k].index == k && log[k].elem != n.elem
    requires n.index == |log|
    ensures var more := log + [n];
            && (forall i, j :: 0 <= i < j < |more| ==> more[i].elem != more[j].elem)
            && (forall k :: 0 <= k < |more| ==> more[k].index == k)
  {
  }

  lemma {:induction false} RunKeeps(r: Range, s: State, moves: seq<Move>)
    requires Kept(r, s) && Run(r, s, moves)
    ensures Kept(r, After(r, s, moves))
    decreases moves
  {
    if moves != [] {
      MoveKeeps(r, s, moves[0]);
      RunKeeps(r, MoveOn(r, s, moves[0]), moves[1..]);
    }
  }

  lemma {:induction false} PrefixYields(r: Range, log: seq<Numbered>)
    requires forall k :: 0 <= k < |log| ==> log[k].index == k
    ensures var e := Min(r.end, |log|); Yielded(r, log) == if e > r.begin then e - r.begin else 0
    decreases |log|
  {
    if log != [] {
      PrefixYields(r, log[..|log| - 1]);
    }
  }

  /**
   However threads interleave, once none of them is on its way and one has found the end: all elements that were pulled
   have got the numbers from zero on, each one another, and exactly as many as the range has were yielded.
   */
  lemma AlwaysAsDocumented(r: Range, moves: seq<Move>)
    requires Run(r, FRESH, moves) && After(r, FRESH, moves).held == map[] && After(r, FRESH, moves).ended
    ensures var s := After(r, FRESH, moves);
            && |s.log| == s.pulled && (forall k :: 0 <= k < |s.log| ==> s.log[k].index == k)
            && (forall i, j :: 0 <= i < j < |s.log| ==> s.log[i].elem != s.log[j].elem)
            && Yielded(r, s.log) == Documented(r)
  {
    RunKeeps(r, FRESH, moves);
    PrefixYields(r, After(r, FRESH, moves).log);
  }

  /** Every state can be run to such an end. */
  lemma {:induction false} RunsOut(r: Range, s: State) returns (moves: seq<Move>)
    requires Kept(r, s)
    ensures Run(r, s, moves) && After(r, s, moves).held == map[] && After(r, s, moves).ended
    decreases r.length - s.pulled, |s.held|, !s.ended
  {
    if s.held == map[] && s.ended {
      return [];
    }
    var m := Draw(0);
    if s.held != map[] {
      var t :| t in s.held;
      m := Number(t);
      assert (s.held - {t}).Keys == s.held.Keys - {t};
      assert |(s.held - {t}).Keys| == |s.held.Keys| - 1;
    }
    MoveKeeps(r, s, m);
    var rest := RunsOut(r, MoveOn(r, s, m));
    moves := [m] + rest;
    assert moves[1..] == rest;
  }
}
