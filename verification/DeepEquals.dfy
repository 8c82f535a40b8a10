/**
 Comparing objects element by element, and the deep comparison built on it. Neither looks out for objects that it is
 comparing already, so both may go on without end.
 */
module DeepEquals {
  import opened Common
  import opened ObjectGraph

  /**
   What the comparison needs to know of objects: the type in a tag, whether objects of a type are iterated to get at
   what they hold, which types are lists, and what `==` says apart from the objects held. Unless both objects are
   iterated that is all there is to `==`: it may be the operator of a user-defined class, or ask whether they are one.
   */
  datatype Language = Language(typeOf: int -> int, iterable: int -> bool, list: int -> bool, same: (nat, nat) -> bool)

  function TypeAt(g: Heap, lang: Language, x: nat): int
    requires x < |g|
  {
    lang.typeOf(g[x].tag)
  }

  predicate Iterated(g: Heap, lang: Language, x: nat)
    requires x < |g|
  {
    lang.iterable(TypeAt(g, lang, x))
  }

  predicate IsList(g: Heap, lang: Language, x: nat)
    requires x < |g|
  {
    Iterated(g, lang, x) && lang.list(TypeAt(g, lang, x))
  }

  /**
   Type for type, what `==` takes for equal is equal. For objects that are not iterated the code knows no more than
   that they are likely to be equal, and goes on as if they were.
   */
  ghost predicate Honest(g: Heap, lang: Language)
    requires Closed(g)
  {
    forall x: nat, y: nat ::
      x < |g| && y < |g| && TypeAt(g, lang, x) == TypeAt(g, lang, y) && lang.same(x, y) ==>
        g[x].tag == g[y].tag && (!Iterated(g, lang, x) ==> Alike(g, x, g, y))
  }

  /** `==`: the objects held are compared in step up to the first pair that differs. None if more calls must nest. */
  function Compare(g: Heap, lang: Language, x: nat, y: nat, depth: nat): (r: Option<bool>)
    requires Closed(g) && x < |g| && y < |g|
    decreases depth, 0
  {
    if !lang.same(x, y) then Some(false)
    else if !Iterated(g, lang, x) || !Iterated(g, lang, y) then Some(true)
    else if depth == 0 then None
    else CompareFrom(g, lang, g[x].kids, g[y].kids, 0, depth - 1)
  }

  function CompareFrom(g: Heap, lang: Language, xs: seq<nat>, ys: seq<nat>, i: nat, depth: nat): (r: Option<bool>)
    requires Closed(g) && Within(g, xs) && Within(g, ys)
    decreases depth, |xs| + 1 - Min(i, |xs|)
  {
    if i >= |xs| || i >= |ys| then Some(|xs| == |ys|)
    else
      match Compare(g, lang, xs[i], ys[i], depth)
      case None => None
      case Some(equal) => if equal then CompareFrom(g, lang, xs, ys, i + 1, depth) else Some(false)
  }

  /**
   Objects of one type that are the same or compare equal, and hold objects of which that is true in turn. But for lists
   the loop takes both elements from the first list.
   */
  function Deep(g: Heap, lang: Language, x: nat, y: nat, depth: nat): (r: Option<bool>)
    requires Closed(g) && x < |g| && y < |g|
    decreases depth, 0
  {
    if TypeAt(g, lang, x) != TypeAt(g, lang, y) then Some(false)
    else if x == y then Some(true)
    else
      match Compare(g, lang, x, y, depth)
      case None => None
      case Some(equal) =>
        if !equal || !Iterated(g, lang, x) then Some(equal)
        else if |g[x].kids| != |g[y].kids| then Some(false)
        else if depth == 0 then None
        else DeepFrom(g, lang, g[x].kids, if IsList(g, lang, x) then g[x].kids else g[y].kids, 0, depth - 1)
  }

  function DeepFrom(g: Heap, lang: Language, xs: seq<nat>, ys: seq<nat>, i: nat, depth: nat): (r: Option<bool>)
    requires Closed(g) && Within(g, xs) && Within(g, ys)
    decreases depth, |xs| + 1 - Min(i, |xs|)
  {
    if i >= |xs| || i >= |ys| then Some(|xs| == |ys|)
    else
      match Deep(g, lang, xs[i], ys[i], depth)
      case None => None
      case Some(equal) => if equal then DeepFrom(g, lang, xs, ys, i + 1, depth) else Some(false)
  }

  // ----- an answer is final

  lemma {:induction false} CompareFinal(g: Heap, lang: Language, x: nat, y: nat, d: nat, e: nat)
    requires Closed(g) && x < |g| && y < |g| && d <= e && Compare(g, lang, x, y, d).Some?
    ensures Compare(g, lang, x, y, e) == Compare(g, lang, x, y, d)
    decreases d, 0
  {
    if lang.same(x, y) && Iterated(g, lang, x) && Iterated(g, lang, y) {
      CompareFromFinal(g, lang, g[x].kids, g[y].kids, 0, d - 1, e - 1);
    }
  }

  lemma {:induction false} CompareFromFinal(g: Heap, lang: Language, xs: seq<nat>, ys: seq<nat>, i: nat, d: nat, e: nat)
    requires Closed(g) && Within(g, xs) && Within(g, ys) && d <= e && CompareFrom(g, lang, xs, ys, i, d).Some?
    ensures CompareFrom(g, lang, xs, ys, i, e) == CompareFrom(g, lang, xs, ys, i, d)
    decreases d, |xs| + 1 - Min(i, |xs|)
  {
    if i < |xs| && i < |ys| {
      CompareFinal(g, lang, xs[i], ys[i], d, e);
      if Compare(g, lang, xs[i], ys[i], d).value {
        CompareFromFinal(g, lang, xs, ys, i + 1, d, e);
      }
    }
  }

  lemma {:induction false} DeepFinal(g: Heap, lang: Language, x: nat, y: nat, d: nat, e: nat)
    requires Closed(g) && x < |g| && y < |g| && d <= e && Deep(g, lang, x, y, d).Some?
    ensures Deep(g, lang, x, y, e) == Deep(g, lang, x, y, d)
    decreases d, 0
  {
    if TypeAt(g, lang, x) == TypeAt(g, lang, y) && x != y {
      CompareFinal(g, lang, x, y, d, e);
      if Compare(g, lang, x, y, d).value && Iterated(g, lang, x) && |g[x].kids| == |g[y].kids| {
        DeepFromFinal(g, lang, g[x].kids, if IsList(g, lang, x) then g[x].kids else g[y].kids, 0, d - 1, e - 1);
      }
    }
  }

  lemma {:induction false} DeepFromFinal(g: Heap, lang: Language, xs: seq<nat>, ys: seq<nat>, i: nat, d: nat, e: nat)
    requires Closed(g) && Within(g, xs) && Within(g, ys) && d <= e && DeepFrom(g, lang, xs, ys, i, d).Some?
    ensures DeepFrom(g, lang, xs, ys, i, e) == DeepFrom(g, lang, xs, ys, i, d)
    decreases d, |xs| + 1 - Min(i, |xs|)
  {
    if i < |xs| && i < |ys| {
      DeepFinal(g, lang, xs[i], ys[i], d, e);
      if Deep(g, lang, xs[i], ys[i], d).value {
        DeepFromFinal(g, lang, xs, ys, i + 1, d, e);
      }
    }
  }

  // ----- what an answer means

  /** The objects go no further than `depth`, and what they hold in the same place compares equal all the way. */
  ghost predicate AgreeTo(g: Heap, lang: Language, x: nat, y: nat, depth: nat)
    requires Closed(g) && x < |g| && y < |g|
    decreases depth
  {
    && lang.same(x, y)
    && (Iterated(g, lang, x) && Iterated(g, lang, y) ==>
          && depth > 0 && |g[x].kids| == |g[y].kids|
          && forall i :: 0 <= i < |g[x].kids| ==> AgreeTo(g, lang, g[x].kids[i], g[y].kids[i], depth - 1))
  }

  ghost predicate Agree(g: Heap, lang: Language, x: nat, y: nat)
    requires Closed(g) && x < |g| && y < |g|
  {
    exists depth :: AgreeTo(g, lang, x, y, depth)
  }

  lemma {:induction false} EqualIsAgree(g: Heap, lang: Language, x: nat, y: nat, depth: nat)
    requires Closed(g) && x < |g| && y < |g|
    ensures Compare(g, lang, x, y, depth) == Some(true) <==> AgreeTo(g, lang, x, y, depth)
    decreases depth
  {
    if depth > 0 && lang.same(x, y) && Iterated(g, lang, x) && Iterated(g, lang, y) {
      var (xs, ys) := (g[x].kids, g[y].kids);
      forall i | 0 <= i < |xs| && i < |ys|
        ensures Compare(g, lang, xs[i], ys[i], depth - 1) == Some(true) <==> AgreeTo(g, lang, xs[i], ys[i], depth - 1)
      {
        EqualIsAgree(g, lang, xs[i], ys[i], depth - 1);
      }
      EqualFrom(g, lang, xs, ys, 0, depth - 1);
    }
  }

  lemma {:induction false} EqualFrom(g: Heap, lang: Language, xs: seq<nat>, ys: seq<nat>, i: nat, depth: nat)
    requires Closed(g) && Within(g, xs) && Within(g, ys) && i <= |xs| && i <= |ys|
    ensures CompareFrom(g, lang, xs, ys, i, depth) == Some(true) <==>
            |xs| == |ys| && forall j :: i <= j < |xs| ==> Compare(g, lang, xs[j], ys[j], depth) == Some(true)
    decreases |xs| - i
  {
    if i < |xs| && i < |ys| {
      EqualFrom(g, lang, xs, ys, i + 1, depth);
    }
  }

  // ----- when a comparison ends

  /** Comparing pair `p` comes to comparing pair `q`, as all pairs in front of it agree. */
  ghost function Asks(g: Heap, lang: Language): ((nat, nat), (nat, nat)) -> bool
    requires Closed(g)
  {
    (p: (nat, nat), q: (nat, nat)) =>
      && p.0 < |g| && p.1 < |g| && lang.same(p.0, p.1) && Iterated(g, lang, p.0) && Iterated(g, lang, p.1)
      && exists i ::
           && 0 <= i < |g[p.0].kids| && i < |g[p.1].kids| && q == (g[p.0].kids[i], g[p.1].kids[i])
           && forall j :: 0 <= j < i ==> Agree(g, lang, g[p.0].kids[j], g[p.1].kids[j])
  }

  lemma AgreedIsNotFalse(g: Heap, lang: Language, x: nat, y: nat, d: nat)
    requires Closed(g) && x < |g| && y < |g| && Agree(g, lang, x, y)
    ensures Compare(g, lang, x, y, d) != Some(false)
  {
    var e: nat :| AgreeTo(g, lang, x, y, e);
    EqualIsAgree(g, lang, x, y, e);
    if d <= e && Compare(g, lang, x, y, d).Some? {
      CompareFinal(g, lang, x, y, d, e);
    } else if e < d {
      CompareFinal(g, lang, x, y, e, d);
    }
  }

  /** Pairs in front of one that has no answer agree, or there would be no need for one. */
  lemma {:induction false} NoAnswerPasses(g: Heap, lang: Language, xs: seq<nat>, ys: seq<nat>, i: nat, k: nat, d: nat)
    requires Closed(g) && Within(g, xs) && Within(g, ys) && i <= k < |xs| && k < |ys|
    requires CompareFrom(g, lang, xs, ys, i, d).Some? && Compare(g, lang, xs[k], ys[k], d).None?
    ensures exists j :: i <= j < k && Compare(g, lang, xs[j], ys[j], d) == Some(false)
    decreases k - i
  {
    assert i < k;
    if Compare(g, lang, xs[i], ys[i], d) == Some(true) {
      NoAnswerPasses(g, lang, xs, ys, i + 1, k, d);
    }
  }

  /** Where a pair that is asked for is held. */
  lemma AskedPlace(g: Heap, lang: Language, p: (nat, nat), q: (nat, nat)) returns (i: nat)
    requires Closed(g) && Asks(g, lang)(p, q)
    ensures p.0 < |g| && p.1 < |g| && lang.same(p.0, p.1) && Iterated(g, lang, p.0) && Iterated(g, lang, p.1)
    ensures i < |g[p.0].kids| && i < |g[p.1].kids| && q == (g[p.0].kids[i], g[p.1].kids[i])
    ensures forall j :: 0 <= j < i ==> Agree(g, lang, g[p.0].kids[j], g[p.1].kids[j])
  {
    i :| && 0 <= i < |g[p.0].kids| && i < |g[p.1].kids| && q == (g[p.0].kids[i], g[p.1].kids[i])
         && forall j :: 0 <= j < i ==> Agree(g, lang, g[p.0].kids[j], g[p.1].kids[j]);
  }

  /** A pair asked for has its answer one call further in. */
  lemma AskedHasAnswer(g: Heap, lang: Language, p: (nat, nat), q: (nat, nat), d: nat)
    requires Closed(g) && Asks(g, lang)(p, q) && p.0 < |g| && p.1 < |g| && Compare(g, lang, p.0, p.1, d).Some?
    ensures d > 0 && q.0 < |g| && q.1 < |g| && Compare(g, lang, q.0, q.1, d - 1).Some?
  {
    var i := AskedPlace(g, lang, p, q);
    var (xs, ys) := (g[p.0].kids, g[p.1].kids);
    if Compare(g, lang, xs[i], ys[i], d - 1).None? {
      NoAnswerPasses(g, lang, xs, ys, 0, i, d - 1);
      var j :| 0 <= j < i && Compare(g, lang, xs[j], ys[j], d - 1) == Some(false);
      AgreedIsNotFalse(g, lang, xs[j], ys[j], d - 1);
    }
  }

  lemma {:induction false} RingNeverEnds(g: Heap, lang: Language, p: (nat, nat), d: nat)
    requires Closed(g) && p.0 < |g| && p.1 < |g| && MeetsRing(Asks(g, lang), p)
    ensures Compare(g, lang, p.0, p.1, d).None?
    decreases d
  {
    var q := RingGoesOn(Asks(g, lang), p);
    if Compare(g, lang, p.0, p.1, d).Some? {
      AskedHasAnswer(g, lang, p, q, d);
      RingNeverEnds(g, lang, q, d - 1);
    }
  }

  ghost function Pairs(g: Heap): set<(nat, nat)> {
    set x, y | x in Numbers(0, |g|) && y in Numbers(0, |g|) :: (x, y)
  }

  lemma PairsShrink(g: Heap, path: set<(nat, nat)>, p: (nat, nat))
    requires p.0 < |g| && p.1 < |g| && p !in path
    ensures |Pairs(g) - (path + {p})| < |Pairs(g) - path|
  {
    assert Pairs(g) - (path + {p}) == (Pairs(g) - path) - {p};
    assert p in Pairs(g) - path;
  }

  /** Without a ring every pair needs fewer nested calls than there are pairs: none comes up inside itself. */
  lemma {:induction false} EndsWithoutRing(g: Heap, lang: Language, p: (nat, nat), path: set<(nat, nat)>)
    requires Closed(g) && p.0 < |g| && p.1 < |g| && !MeetsRing(Asks(g, lang), p)
    requires forall q :: q in path ==> Leads(Asks(g, lang), q, p)
    ensures Compare(g, lang, p.0, p.1, |Pairs(g) - path|).Some?
    decreases |Pairs(g) - path|
  {
    var step := Asks(g, lang);
    var inside := path + {p};
    assert p !in path;
    PairsShrink(g, path, p);
    if !lang.same(p.0, p.1) || !Iterated(g, lang, p.0) || !Iterated(g, lang, p.1) {
      return;
    }
    var (xs, ys, d, e) := (g[p.0].kids, g[p.1].kids, |Pairs(g) - path| - 1, |Pairs(g) - inside|);
    forall i | 0 <= i < |xs| && i < |ys| && AllEqual(g, lang, xs, ys, i, d)
      ensures Compare(g, lang, xs[i], ys[i], d).Some?
    {
      var q := (xs[i], ys[i]);
      AskedNext(g, lang, p, i, d);
      if MeetsRing(step, q) {
        MeetsFurther(step, p, q);
      }
      forall o | o in inside ensures Leads(step, o, q) {
        LeadsOn(step, o, p, q);
      }
      EndsWithoutRing(g, lang, q, inside);
      CompareFinal(g, lang, q.0, q.1, e, d);
    }
    AnswersInTurn(g, lang, xs, ys, 0, d);
  }

  /** If all pairs in front of one are equal it is asked for. */
  lemma AskedNext(g: Heap, lang: Language, p: (nat, nat), i: nat, d: nat)
    requires Closed(g) && p.0 < |g| && p.1 < |g| && i < |g[p.0].kids| && i < |g[p.1].kids|
    requires lang.same(p.0, p.1) && Iterated(g, lang, p.0) && Iterated(g, lang, p.1)
    requires AllEqual(g, lang, g[p.0].kids, g[p.1].kids, i, d)
    ensures Asks(g, lang)(p, (g[p.0].kids[i], g[p.1].kids[i]))
  {
    forall j | 0 <= j < i ensures Agree(g, lang, g[p.0].kids[j], g[p.1].kids[j]) {
      EqualIsAgree(g, lang, g[p.0].kids[j], g[p.1].kids[j], d);
    }
  }

  ghost predicate AllEqual(g: Heap, lang: Language, xs: seq<nat>, ys: seq<nat>, n: nat, d: nat)
    requires Closed(g) && Within(g, xs) && Within(g, ys) && n <= |xs| && n <= |ys|
  {
    forall j :: 0 <= j < n ==> Compare(g, lang, xs[j], ys[j], d) == Some(true)
  }

  lemma {:induction false} AnswersInTurn(g: Heap, lang: Language, xs: seq<nat>, ys: seq<nat>, i: nat, d: nat)
    requires Closed(g) && Within(g, xs) && Within(g, ys) && i <= |xs| && i <= |ys|
    requires AllEqual(g, lang, xs, ys, i, d)
    requires forall k :: 0 <= k < |xs| && k < |ys| && AllEqual(g, lang, xs, ys, k, d) ==>
                           Compare(g, lang, xs[k], ys[k], d).Some?
    ensures CompareFrom(g, lang, xs, ys, i, d).Some?
    decreases |xs| - i
  {
    if i < |xs| && i < |ys| && Compare(g, lang, xs[i], ys[i], d) == Some(true) {
      AnswersInTurn(g, lang, xs, ys, i + 1, d);
    }
  }

  ghost predicate CompareEnds(g: Heap, lang: Language, x: nat, y: nat)
    requires Closed(g) && x < |g| && y < |g|
  {
    exists depth :: Compare(g, lang, x, y, depth).Some?
  }

  ghost predicate DeepEnds(g: Heap, lang: Language, x: nat, y: nat)
    requires Closed(g) && x < |g| && y < |g|
  {
    exists depth :: Deep(g, lang, x, y, depth).Some?
  }

  /**
   A comparison ends exactly if it does not come to a pair that comes up again while it is compared; on the way to
   a pair, everything in front of it must agree.
   */
  lemma CompareEndsIffNoRing(g: Heap, lang: Language, x: nat, y: nat)
    requires Closed(g) && x < |g| && y < |g|
    ensures CompareEnds(g, lang, x, y) <==> !MeetsRing(Asks(g, lang), (x, y))
  {
    if MeetsRing(Asks(g, lang), (x, y)) {
      forall depth ensures Compare(g, lang, x, y, depth).None? {
        RingNeverEnds(g, lang, (x, y), depth);
      }
    } else {
      EndsWithoutRing(g, lang, (x, y), {});
    }
  }

  lemma {:induction false} DeepAnswers(g: Heap, lang: Language, x: nat, y: nat, d: nat)
    requires Closed(g) && x < |g| && y < |g| && Compare(g, lang, x, y, d).Some?
    ensures Deep(g, lang, x, y, d).Some?
    decreases d
  {
    if Compare(g, lang, x, y, d) == Some(true) && Iterated(g, lang, x) && Iterated(g, lang, y) {
      var (xs, ys) := (g[x].kids, g[y].kids);
      EqualFrom(g, lang, xs, ys, 0, d - 1);
      if IsList(g, lang, x) {
        DeepInTurn(g, lang, xs, xs, 0, d - 1);
      } else {
        forall i | 0 <= i < |xs| ensures Deep(g, lang, xs[i], ys[i], d - 1).Some? {
          DeepAnswers(g, lang, xs[i], ys[i], d - 1);
        }
        DeepInTurn(g, lang, xs, ys, 0, d - 1);
      }
    }
  }

  lemma {:induction false} DeepInTurn(g: Heap, lang: Language, xs: seq<nat>, ys: seq<nat>, i: nat, d: nat)
    requires Closed(g) && Within(g, xs) && Within(g, ys) && i <= |xs| == |ys|
    requires forall j :: 0 <= j < |xs| ==> Deep(g, lang, xs[j], ys[j], d).Some?
    ensures DeepFrom(g, lang, xs, ys, i, d).Some?
    ensures DeepFrom(g, lang, xs, ys, i, d).value <==>
            forall j :: i <= j < |xs| ==> Deep(g, lang, xs[j], ys[j], d) == Some(true)
    decreases |xs| - i
  {
    if i < |xs| {
      DeepInTurn(g, lang, xs, ys, i + 1, d);
    }
  }

  /** The deep comparison ends exactly if it can tell by the types, or by the objects being one, or if `==` ends. */
  lemma DeepEndsIff(g: Heap, lang: Language, x: nat, y: nat)
    requires Closed(g) && x < |g| && y < |g|
    ensures DeepEnds(g, lang, x, y) <==>
            TypeAt(g, lang, x) != TypeAt(g, lang, y) || x == y || !MeetsRing(Asks(g, lang), (x, y))
  {
    CompareEndsIffNoRing(g, lang, x, y);
    if CompareEnds(g, lang, x, y) {
      var d :| Compare(g, lang, x, y, d).Some?;
      DeepAnswers(g, lang, x, y, d);
    } else if TypeAt(g, lang, x) != TypeAt(g, lang, y) || x == y {
      assert Deep(g, lang, x, y, 0).Some?;
    }
  }

  // ----- what deep equality means

  ghost predicate DeepEqual(g: Heap, lang: Language, x: nat, y: nat)
    requires Closed(g) && x < |g| && y < |g|
  {
    exists depth :: Deep(g, lang, x, y, depth) == Some(true)
  }

  /**
   Deep equality without an order of questions, for objects that compare equal: of lists no more is asked, of other
   things that are iterated that what they hold in the same place is deeply equal.
   */
  ghost predicate Matches(g: Heap, lang: Language, x: nat, y: nat, depth: nat)
    requires Closed(g) && x < |g| && y < |g|
    decreases depth
  {
    && TypeAt(g, lang, x) == TypeAt(g, lang, y)
    && (x != y && Iterated(g, lang, x) && !IsList(g, lang, x) ==>
          && depth > 0 && |g[x].kids| == |g[y].kids|
          && forall i :: 0 <= i < |g[x].kids| ==> Matches(g, lang, g[x].kids[i], g[y].kids[i], depth - 1))
  }

  lemma {:induction false} DeepIsMatches(g: Heap, lang: Language, x: nat, y: nat, d: nat)
    requires Closed(g) && x < |g| && y < |g|
    ensures Deep(g, lang, x, y, d) == Some(true) <==>
            (x == y || AgreeTo(g, lang, x, y, d)) && Matches(g, lang, x, y, d)
    decreases d
  {
    EqualIsAgree(g, lang, x, y, d);
    if TypeAt(g, lang, x) == TypeAt(g, lang, y) && x != y && AgreeTo(g, lang, x, y, d) && Iterated(g, lang, x) {
      var (xs, ys) := (g[x].kids, g[y].kids);
      if IsList(g, lang, x) {
        DeepInTurn(g, lang, xs, xs, 0, d - 1);
      } else {
        forall i | 0 <= i < |xs|
          ensures Deep(g, lang, xs[i], ys[i], d - 1).Some?
          ensures Deep(g, lang, xs[i], ys[i], d - 1) == Some(true) <==> Matches(g, lang, xs[i], ys[i], d - 1)
        {
          DeepIsMatches(g, lang, xs[i], ys[i], d - 1);
          EqualIsAgree(g, lang, xs[i], ys[i], d - 1);
          DeepAnswers(g, lang, xs[i], ys[i], d - 1);
        }
        DeepInTurn(g, lang, xs, ys, 0, d - 1);
      }
    }
  }

  /** From a pair of objects that are iterated to a pair they hold in the same place. */
  ghost function Beside(g: Heap, lang: Language): ((nat, nat), (nat, nat)) -> bool {
    (p: (nat, nat), q: (nat, nat)) =>
      && p.0 < |g| && p.1 < |g| && Iterated(g, lang, p.0) && Iterated(g, lang, p.1)
      && exists i :: 0 <= i < |g[p.0].kids| && i < |g[p.1].kids| && q == (g[p.0].kids[i], g[p.1].kids[i])
  }

  /** `q` is `p`, or a pair of objects in the same place within the two of `p`, however deep. */
  ghost predicate SamePlace(g: Heap, lang: Language, p: (nat, nat), q: (nat, nat)) {
    p == q || Leads(Beside(g, lang), p, q)
  }

  /** Objects in the same place within `x` and `y` have one type. */
  ghost predicate OneType(g: Heap, lang: Language, x: nat, y: nat) {
    forall a: nat, b: nat :: SamePlace(g, lang, (x, y), (a, b)) && a < |g| && b < |g| ==>
                               TypeAt(g, lang, a) == TypeAt(g, lang, b)
  }

  lemma PlaceInside(g: Heap, lang: Language, x: nat, y: nat, i: nat)
    requires Closed(g) && x < |g| && y < |g| && Iterated(g, lang, x) && Iterated(g, lang, y)
    requires i < |g[x].kids| && i < |g[y].kids|
    ensures forall q :: SamePlace(g, lang, (g[x].kids[i], g[y].kids[i]), q) ==> SamePlace(g, lang, (x, y), q)
  {
    var p := (g[x].kids[i], g[y].kids[i]);
    assert Beside(g, lang)((x, y), p);
    forall q | SamePlace(g, lang, p, q) ensures SamePlace(g, lang, (x, y), q) {
      Prepend(Beside(g, lang), (x, y), p, q);
    }
  }

  lemma {:induction false} OneTypeUnfolds(g: Heap, lang: Language, x: nat, y: nat, d: nat, depth: nat)
    requires Closed(g) && Honest(g, lang) && x < |g| && y < |g|
    requires AgreeTo(g, lang, x, y, d) && OneType(g, lang, x, y)
    ensures Unfold(g, x, depth) == Unfold(g, y, depth)
    decreases depth
  {
    assert SamePlace(g, lang, (x, y), (x, y));
    if depth > 0 && Iterated(g, lang, x) {
      forall i | 0 <= i < |g[x].kids| ensures Unfold(g, g[x].kids[i], depth - 1) == Unfold(g, g[y].kids[i], depth - 1) {
        PlaceInside(g, lang, x, y, i);
        OneTypeUnfolds(g, lang, g[x].kids[i], g[y].kids[i], d - 1, depth - 1);
      }
    }
  }

  lemma {:induction false} AlikeAlong(g: Heap, lang: Language, w: seq<(nat, nat)>)
    requires Closed(g) && |w| > 0 && forall i :: 0 <= i < |w| - 1 ==> Beside(g, lang)(w[i], w[i + 1])
    requires w[0].0 < |g| && w[0].1 < |g| && Alike(g, w[0].0, g, w[0].1)
    ensures var p := w[|w| - 1]; p.0 < |g| && p.1 < |g| && Alike(g, p.0, g, p.1)
    decreases |w|
  {
    if |w| > 1 {
      AlikeAlong(g, lang, w[..|w| - 1]);
      var (p, q) := (w[|w| - 2], w[|w| - 1]);
      assert Beside(g, lang)(w[|w| - 2], w[|w| - 2 + 1]);
      AlikeInside(g, p.0, g, p.1);
    }
  }

  lemma AlikeMeansOneType(g: Heap, lang: Language, x: nat, y: nat)
    requires Closed(g) && x < |g| && y < |g| && Alike(g, x, g, y)
    ensures OneType(g, lang, x, y)
  {
    forall a: nat, b: nat | SamePlace(g, lang, (x, y), (a, b)) && a < |g| && b < |g|
      ensures TypeAt(g, lang, a) == TypeAt(g, lang, b)
    {
      var w := [(x, y)];
      if (x, y) != (a, b) {
        w :| Walk(Beside(g, lang), w) && w[0] == (x, y) && w[|w| - 1] == (a, b);
      }
      AlikeAlong(g, lang, w);
      AlikeInside(g, a, g, b);
    }
  }

  /** Objects that compare equal cannot be told apart exactly if what they hold in the same place is of one type. */
  lemma AlikeIffOneType(g: Heap, lang: Language, x: nat, y: nat)
    requires Closed(g) && Honest(g, lang) && x < |g| && y < |g| && (x == y || Agree(g, lang, x, y))
    ensures Alike(g, x, g, y) <==> OneType(g, lang, x, y)
  {
    if Alike(g, x, g, y) {
      AlikeMeansOneType(g, lang, x, y);
    }
    if OneType(g, lang, x, y) && x != y {
      var d: nat :| AgreeTo(g, lang, x, y, d);
      forall depth: nat ensures Unfold(g, x, depth) == Unfold(g, y, depth) {
        OneTypeUnfolds(g, lang, x, y, d, depth);
      }
    }
  }

  /**
   Deeply equal objects cannot be told apart exactly if lists of one type that compare equal hold objects of one type in
   the same place, however deep.
   */
  lemma DeepMeansIff(g: Heap, lang: Language)
    requires Closed(g) && Honest(g, lang)
    ensures (forall x: nat, y: nat :: x < |g| && y < |g| && DeepEqual(g, lang, x, y) ==> Alike(g, x, g, y)) <==>
            (forall x: nat, y: nat :: x < |g| && y < |g| && EqualLists(g, lang, x, y) ==> OneType(g, lang, x, y))
  {
    if forall x: nat, y: nat :: x < |g| && y < |g| && EqualLists(g, lang, x, y) ==> OneType(g, lang, x, y) {
      forall x: nat, y: nat | x < |g| && y < |g| && DeepEqual(g, lang, x, y) ensures Alike(g, x, g, y) {
        var d: nat :| Deep(g, lang, x, y, d) == Some(true);
        DeepIsMatches(g, lang, x, y, d);
        MatchesAlike(g, lang, x, y, d);
      }
    }
    if forall x: nat, y: nat :: x < |g| && y < |g| && DeepEqual(g, lang, x, y) ==> Alike(g, x, g, y) {
      forall x: nat, y: nat | x < |g| && y < |g| && EqualLists(g, lang, x, y) ensures OneType(g, lang, x, y) {
        var d: nat :| AgreeTo(g, lang, x, y, d);
        DeepIsMatches(g, lang, x, y, d);
        AlikeMeansOneType(g, lang, x, y);
      }
    }
  }

  /** Two lists of one type that compare equal. */
  ghost predicate EqualLists(g: Heap, lang: Language, x: nat, y: nat)
    requires Closed(g) && x < |g| && y < |g|
  {
    IsList(g, lang, x) && TypeAt(g, lang, x) == TypeAt(g, lang, y) && Agree(g, lang, x, y)
  }

  lemma {:induction false} MatchesAlike(g: Heap, lang: Language, x: nat, y: nat, d: nat)
    requires Closed(g) && Honest(g, lang) && x < |g| && y < |g|
    requires forall a: nat, b: nat :: a < |g| && b < |g| && EqualLists(g, lang, a, b) ==> OneType(g, lang, a, b)
    requires (x == y || AgreeTo(g, lang, x, y, d)) && Matches(g, lang, x, y, d)
    ensures Alike(g, x, g, y)
    decreases d
  {
    if x == y || !Iterated(g, lang, x) {
      return;
    }
    if IsList(g, lang, x) {
      AlikeIffOneType(g, lang, x, y);
      return;
    }
    forall i | 0 <= i < |g[x].kids| ensures Alike(g, g[x].kids[i], g, g[y].kids[i]) {
      MatchesAlike(g, lang, g[x].kids[i], g[y].kids[i], d - 1);
    }
    AlikeFromInside(g, x, g, y);
  }

  /** `==` takes nothing that meets a ring for equal without going through the elements on both sides. */
  ghost predicate RingsIterated(g: Heap, lang: Language) {
    forall x: nat, y: nat :: x < |g| && y < |g| && lang.same(x, y) && MeetsRing(Holds(g), x) ==>
                               Iterated(g, lang, x) && Iterated(g, lang, y)
  }

  /** Then what compares equal meets no ring. */
  lemma {:induction false} EqualMeetsNoRing(g: Heap, lang: Language, x: nat, y: nat, d: nat)
    requires Closed(g) && RingsIterated(g, lang) && x < |g| && y < |g| && Compare(g, lang, x, y, d) == Some(true)
    ensures !MeetsRing(Holds(g), x)
    decreases d
  {
    if MeetsRing(Holds(g), x) {
      var k := RingGoesOn(Holds(g), x);
      var (xs, ys) := (g[x].kids, g[y].kids);
      EqualFrom(g, lang, xs, ys, 0, d - 1);
      var i :| 0 <= i < |xs| && xs[i] == k;
      EqualMeetsNoRing(g, lang, xs[i], ys[i], d - 1);
    }
  }

  /** Two lists that each hold only themselves: comparing one with the other never ends. */
  lemma TwoRings(lang: Language, tag: int)
    requires lang.same(0, 1) && lang.same(1, 0) && lang.iterable(lang.typeOf(tag))
    ensures var g := [Obj(tag, [0]), Obj(tag, [1])];
            Closed(g) && !DeepEnds(g, lang, 0, 1) && !DeepEnds(g, lang, 1, 0)
  {
    var g := [Obj(tag, [0]), Obj(tag, [1])];
    assert g[0].kids[0] == 0 && g[1].kids[0] == 1;
    assert Iterated(g, lang, 0) && Iterated(g, lang, 1);
    OneStep(Asks(g, lang), (0, 1), (0, 1));
    OneStep(Asks(g, lang), (1, 0), (1, 0));
    DeepEndsIff(g, lang, 0, 1);
    DeepEndsIff(g, lang, 1, 0);
  }
}
