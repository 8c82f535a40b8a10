/** The marshal with the deep comparison and the rules by which objects are announced. */
module MarshalGraphs {
  import opened Common
  import opened ObjectGraph
  import opened DeepEquals
  import opened Marshal
  import opened MarshalOrder
  import opened MarshalEnds
  import opened MarshalShape

  /**
   What the marshal knows of types: those whose objects it always announces (types, and on demand immutable objects),
   and those whose objects the garbage collector tracks.
   */
  datatype Types = Types(lang: Language, always: int -> bool, tracked: int -> bool)

  predicate Always(g: Heap, types: Types, x: nat)
    requires x < |g|
  {
    types.always(types.lang.typeOf(g[x].tag))
  }

  predicate Tracked(g: Heap, types: Types, x: nat)
    requires x < |g|
  {
    types.tracked(types.lang.typeOf(g[x].tag))
  }

  /** Objects that contain themselves are announced if the collector tracks them. */
  ghost predicate Announced(g: Heap, types: Types, x: nat) {
    x < |g| && (Always(g, types, x) || (Tracked(g, types, x) && Leads(Holds(g), x, x)))
  }

  ghost function AnnouncedIn(g: Heap, types: Types): (s: set<nat>)
    ensures forall x: nat :: x in s <==>
              && x < |g|
              && (types.always(types.lang.typeOf(g[x].tag)) ||
                  (types.tracked(types.lang.typeOf(g[x].tag)) && Leads(Holds(g), x, x)))
  {
    set x | x in Numbers(0, |g|) && Announced(g, types, x)
  }

  ghost function ModeOf(g: Heap, types: Types): Mode
    requires Closed(g)
  {
    Mode(AnnouncedIn(g, types),
         (x: nat, y: nat) =>
           if x >= |g| || y >= |g| then No
           else if DeepEqual(g, types.lang, x, y) then Yes
           else if DeepEnds(g, types.lang, x, y) then No
           else Endless)
  }

  /** The rules of a walk that does not enter what is deeply equal to an object remembered. */
  ghost function Merging(g: Heap, types: Types): Rules
    requires Closed(g)
  {
    Rules(AnnouncedIn(g, types), (x: nat, y: nat) => x < |g| && y < |g| && DeepEqual(g, types.lang, x, y))
  }

  ghost predicate CanWrite(g: Heap, types: Types, xs: seq<nat>)
    requires Closed(g) && Within(g, xs)
  {
    exists depth :: WriteAll(g, ModeOf(g, types), xs, [], depth).Some?
  }

  /** Every ring that can be reached holds an object the collector tracks, or one that is always announced. */
  ghost predicate RingsTracked(g: Heap, types: Types, xs: seq<nat>) {
    forall w: seq<nat> :: Walk(Holds(g), w) && w[0] == w[|w| - 1] && Reached(g, xs, w[0]) ==>
      exists i :: 0 <= i < |w| && w[i] < |g| && (Tracked(g, types, w[i]) || Always(g, types, w[i]))
  }

  lemma RingAt(g: Heap, w: seq<nat>, i: nat)
    requires Walk(Holds(g), w) && w[0] == w[|w| - 1] && i < |w|
    ensures Leads(Holds(g), w[i], w[i])
  {
    var step := Holds(g);
    if i == 0 || i == |w| - 1 {
      assert Leads(step, w[0], w[0]);
      return;
    }
    var round := w[i..] + w[1..i + 1];
    forall k | 0 <= k < |round| - 1 ensures step(round[k], round[k + 1]) {
      if k < |w| - i - 1 {
        assert step(w[i + k], w[i + k + 1]);
      } else {
        var j := k - (|w| - i - 1);
        assert step(w[j], w[j + 1]);
      }
    }
    assert Walk(step, round) && round[0] == w[i] && round[|round| - 1] == w[i];
  }

  lemma AnnouncedOnRing(g: Heap, types: Types, w: seq<nat>, i: nat)
    requires Walk(Holds(g), w) && w[0] == w[|w| - 1] && i < |w|
    requires w[i] < |g| && (Tracked(g, types, w[i]) || Always(g, types, w[i]))
    ensures Announced(g, types, w[i])
  {
    RingAt(g, w, i);
  }

  lemma BareRing(g: Heap, announced: set<nat>, w: seq<nat>)
    requires Walk(Bare(g, announced), w) && w[0] == w[|w| - 1]
    ensures Walk(Holds(g), w) && forall i :: 0 <= i < |w| ==> w[i] !in announced
  {
    forall i | 0 <= i < |w| - 1 ensures Holds(g)(w[i], w[i + 1]) && w[i] !in announced {
      assert Bare(g, announced)(w[i], w[i + 1]);
    }
  }

  /** Rings that are tracked are rings with an announced object, and the other way round. */
  lemma TrackedIsCut(g: Heap, types: Types, xs: seq<nat>)
    requires Closed(g) && Within(g, xs)
    ensures RingsTracked(g, types, xs) <==> NoBareRing(g, AnnouncedIn(g, types), xs)
  {
    var announced := AnnouncedIn(g, types);
    forall x | RingsTracked(g, types, xs) && Reached(g, xs, x) ensures !Leads(Bare(g, announced), x, x) {
      if Leads(Bare(g, announced), x, x) {
        var w :| Walk(Bare(g, announced), w) && w[0] == x && w[|w| - 1] == x;
        BareRing(g, announced, w);
        var i :| 0 <= i < |w| && w[i] < |g| && (Tracked(g, types, w[i]) || Always(g, types, w[i]));
        AnnouncedOnRing(g, types, w, i);
      }
    }
    forall w: seq<nat> | NoBareRing(g, announced, xs) && Walk(Holds(g), w) && w[0] == w[|w| - 1] && Reached(g, xs, w[0])
      ensures exists i :: 0 <= i < |w| && w[i] < |g| && (Tracked(g, types, w[i]) || Always(g, types, w[i]))
    {
      if forall i :: 0 <= i < |w| - 1 ==> w[i] !in announced {
        HeldRing(g, announced, w);
      } else {
        var i :| 0 <= i < |w| - 1 && w[i] in announced;
      }
    }
  }

  lemma HeldRing(g: Heap, announced: set<nat>, w: seq<nat>)
    requires Walk(Holds(g), w) && forall i :: 0 <= i < |w| - 1 ==> w[i] !in announced
    ensures Leads(Bare(g, announced), w[0], w[|w| - 1])
  {
    forall i | 0 <= i < |w| - 1 ensures Bare(g, announced)(w[i], w[i + 1]) {
      assert Holds(g)(w[i], w[i + 1]);
    }
    WalkInside(Holds(g), Bare(g, announced), w);
  }

  // ----- when writing ends

  lemma AskedIsHeld(g: Heap, lang: Language, p: (nat, nat), q: (nat, nat))
    requires Closed(g) && Leads(Asks(g, lang), p, q)
    ensures Leads(Holds(g), p.0, q.0) && Leads(Holds(g), p.1, q.1)
  {
    var w: seq<(nat, nat)> :| Walk(Asks(g, lang), w) && w[0] == p && w[|w| - 1] == q;
    forall i | 0 <= i < |w| - 1 ensures Holds(g)(w[i].0, w[i + 1].0) && Holds(g)(w[i].1, w[i + 1].1) {
      assert Asks(g, lang)(w[i], w[i + 1]);
    }
    WalkLeads(g, seq(|w|, i requires 0 <= i < |w| => w[i].0));
    WalkLeads(g, seq(|w|, i requires 0 <= i < |w| => w[i].1));
  }

  lemma WalkLeads(g: Heap, w: seq<nat>)
    requires |w| > 1 && forall i :: 0 <= i < |w| - 1 ==> Holds(g)(w[i], w[i + 1])
    ensures Leads(Holds(g), w[0], w[|w| - 1])
  {
    assert Walk(Holds(g), w);
  }

  /** A deep comparison that does not end is one of objects that meet rings. */
  lemma EndlessMeetsRings(g: Heap, lang: Language, x: nat, y: nat)
    requires Closed(g) && x < |g| && y < |g| && !DeepEnds(g, lang, x, y)
    ensures MeetsRing(Holds(g), x) && MeetsRing(Holds(g), y)
  {
    DeepEndsIff(g, lang, x, y);
    var step := Asks(g, lang);
    var q: (nat, nat) :| ((x, y) == q || Leads(step, (x, y), q)) && Leads(step, q, q);
    AskedIsHeld(g, lang, q, q);
    if (x, y) != q {
      AskedIsHeld(g, lang, (x, y), q);
    }
  }

  lemma DeepOnRings(g: Heap, types: Types)
    requires Closed(g)
    ensures RingsHang(g, ModeOf(g, types)) && (RingsIterated(g, types.lang) ==> RingsStay(g, ModeOf(g, types)))
  {
    var mode := ModeOf(g, types);
    forall x: nat, y: nat | mode.equal(x, y) == Endless
      ensures x < |g| && y < |g| && MeetsRing(Holds(g), x) && MeetsRing(Holds(g), y)
    {
      EndlessMeetsRings(g, types.lang, x, y);
    }
    forall x: nat, y: nat | RingsIterated(g, types.lang) && x != y && mode.equal(x, y) == Yes
      ensures !MeetsRing(Holds(g), x)
    {
      var d: nat :| Deep(g, types.lang, x, y, d) == Some(true);
      EqualMeetsNoRing(g, types.lang, x, y, d);
    }
  }

  /** All comparisons made on the walk end. */
  ghost predicate AllEnd(g: Heap, types: Types, rules: Rules, xs: seq<nat>)
    requires Closed(g) && Within(g, xs)
  {
    forall x: nat, y: nat :: x < |g| && y < |g| && Compared(g, rules, xs, x, y) ==> DeepEnds(g, types.lang, x, y)
  }

  lemma AllEndIsAnswered(g: Heap, types: Types, rules: Rules, xs: seq<nat>)
    requires Closed(g) && Within(g, xs)
    ensures AllEnd(g, types, rules, xs) <==>
            forall x: nat, y: nat :: Compared(g, rules, xs, x, y) ==> ModeOf(g, types).equal(x, y) != Endless
  {
    forall x: nat, y: nat | x < |g| && y < |g|
      ensures DeepEnds(g, types.lang, x, y) <==> ModeOf(g, types).equal(x, y) != Endless
    {
      if DeepEqual(g, types.lang, x, y) {
        var d: nat :| Deep(g, types.lang, x, y, d) == Some(true);
      }
    }
  }

  /**
   Writing ends exactly if every ring that can be reached holds an object that is tracked or always announced, and if
   every comparison ends that is made when the graph is walked in order: of an object with those announced that were
   met before it. Not all objects on a ring need be tracked: a tuple may hold a list that holds the tuple.
   */
  lemma WritingEndsIff(g: Heap, types: Types, xs: seq<nat>)
    requires Closed(g) && Within(g, xs) && RingsIterated(g, types.lang)
    ensures CanWrite(g, types, xs) <==>
            RingsTracked(g, types, xs) && AllEnd(g, types, InOrder(AnnouncedIn(g, types)), xs)
  {
    DeepOnRings(g, types);
    TrackedIsCut(g, types, xs);
    AllEndIsAnswered(g, types, InOrder(AnnouncedIn(g, types)), xs);
    WriteEndsIff(g, ModeOf(g, types), xs);
  }

  lemma MergingIsRules(g: Heap, types: Types, xs: seq<nat>, depth: nat)
    requires Closed(g) && Within(g, xs)
    ensures VisitAll(g, Merging(g, types), xs, [], depth) == VisitAll(g, RulesOf(ModeOf(g, types)), xs, [], depth)
  {
    var (r, t) := (Merging(g, types), RulesOf(ModeOf(g, types)));
    assert forall x: nat, y: nat :: r.merges(x, y) == t.merges(x, y);
    if VisitAll(g, r, xs, [], depth).Some? {
      SameVisitAll(g, r, t, xs, [], depth);
    } else if VisitAll(g, t, xs, [], depth).Some? {
      SameVisitAll(g, t, r, xs, [], depth);
    }
  }

  lemma SameCompared(g: Heap, types: Types, xs: seq<nat>)
    requires Closed(g) && Within(g, xs)
    ensures forall x: nat, y: nat ::
              Compared(g, Merging(g, types), xs, x, y) <==> Compared(g, RulesOf(ModeOf(g, types)), xs, x, y)
  {
    forall depth: nat
      ensures VisitAll(g, Merging(g, types), xs, [], depth) == VisitAll(g, RulesOf(ModeOf(g, types)), xs, [], depth)
    {
      MergingIsRules(g, types, xs, depth);
    }
  }

  /**
   Whatever the objects are, where all rings are tracked: writing ends exactly if every comparison ends that is made on
   the walk that does not enter what is deeply equal to an object it remembers.
   */
  lemma TrackedEndsIff(g: Heap, types: Types, xs: seq<nat>)
    requires Closed(g) && Within(g, xs) && RingsTracked(g, types, xs)
    ensures CanWrite(g, types, xs) <==> AllEnd(g, types, Merging(g, types), xs)
  {
    TrackedIsCut(g, types, xs);
    AllEndIsAnswered(g, types, Merging(g, types), xs);
    SameCompared(g, types, xs);
    WriteEndsIffAnswered(g, ModeOf(g, types), xs);
  }

  // ----- what is read

  /** What was taken for something else is what was compared on the walk and is deeply equal. */
  lemma TakenIfDeepEqual(g: Heap, types: Types, xs: seq<nat>, depth: nat)
    requires Closed(g) && Within(g, xs) && WriteAll(g, ModeOf(g, types), xs, [], depth).Some?
    ensures forall x: nat, y: nat ::
              (x, y) in WriteAll(g, ModeOf(g, types), xs, [], depth).value.taken && x != y <==>
              x < |g| && y < |g| && DeepEqual(g, types.lang, x, y) && Compared(g, Merging(g, types), xs, x, y)
  {
    var mode := ModeOf(g, types);
    WriteAllFollows(g, mode, xs, [], depth);
    MergingIsRules(g, types, xs, depth);
    forall x: nat, y: nat
      ensures Compared(g, Merging(g, types), xs, x, y) <==>
              (x, y) in VisitAll(g, RulesOf(mode), xs, [], depth).value.asked
    {
      ComparedAt(g, Merging(g, types), xs, depth, x, y);
    }
  }

  /**
   What is read cannot be told from what was written exactly if all that is compared on the walk and deeply equal has
   objects of one type in the same place. Otherwise some list is read as another list.
   */
  lemma RoundTripOfGraphs(g: Heap, types: Types, xs: seq<nat>, depth: nat)
    requires Closed(g) && Within(g, xs) && Honest(g, types.lang)
    requires WriteAll(g, ModeOf(g, types), xs, [], depth).Some?
    ensures var r := ReadObjects(|xs|, WriteAll(g, ModeOf(g, types), xs, [], depth).value.tokens, [], []);
            && r.obs.Some? && r.tokens == []
            && (GivesBack(g, xs, r) <==>
                forall x: nat, y: nat ::
                  x < |g| && y < |g| && Compared(g, Merging(g, types), xs, x, y) && DeepEqual(g, types.lang, x, y) ==>
                    OneType(g, types.lang, x, y))
  {
    RoundTrip(g, ModeOf(g, types), xs, depth);
    TakenIfDeepEqual(g, types, xs, depth);
    forall x: nat, y: nat | x < |g| && y < |g| && DeepEqual(g, types.lang, x, y)
      ensures Alike(g, x, g, y) <==> OneType(g, types.lang, x, y)
    {
      var d: nat :| Deep(g, types.lang, x, y, d) == Some(true);
      DeepIsMatches(g, types.lang, x, y, d);
      AlikeIffOneType(g, types.lang, x, y);
    }
  }

  /**
   The shape of what is written is kept, sharing and rings included, exactly if what is not announced is held in one
   place only and nothing that is compared on the walk is deeply equal.
   */
  lemma ShapeKeptIff(g: Heap, types: Types, xs: seq<nat>, depth: nat)
    requires Closed(g) && Within(g, xs) && WriteAll(g, ModeOf(g, types), xs, [], depth).Some?
    ensures var w := WriteAll(g, ModeOf(g, types), xs, [], depth).value;
            var r := ReadObjects(|xs|, w.tokens, [], []);
            && r.obs.Some?
            && (SameShape(g, xs, r.heap, r.obs.value, w.origin) <==>
                && (forall x: nat ::
                      && Reached(g, xs, x) && x < |g| && !types.always(types.lang.typeOf(g[x].tag))
                      && !(types.tracked(types.lang.typeOf(g[x].tag)) && Leads(Holds(g), x, x)) ==>
                        HeldOnce(g, xs, x))
                && (forall x: nat, y: nat ::
                      x < |g| && y < |g| && Compared(g, Merging(g, types), xs, x, y) ==>
                        !DeepEqual(g, types.lang, x, y)))
  {
    SameShapeIff(g, ModeOf(g, types), xs, depth);
    TakenIfDeepEqual(g, types, xs, depth);
    forall x: nat | Reached(g, xs, x) ensures x < |g| {
      ReachedInside(g, xs, x);
    }
  }

  /**
   Registered are exactly objects of types that are always announced, and objects that the collector tracks and that
   lead to themselves; of these all that are met, unless one is taken for a registered object it is deeply equal to.
   Met are the roots, and what objects hold that are written.
   */
  lemma RegisteredExactly(g: Heap, types: Types, xs: seq<nat>, depth: nat)
    requires Closed(g) && Within(g, xs) && WriteAll(g, ModeOf(g, types), xs, [], depth).Some?
    ensures var w := WriteAll(g, ModeOf(g, types), xs, [], depth).value;
            && (forall x: nat :: x in w.refs ==>
                  && x < |g|
                  && (types.always(types.lang.typeOf(g[x].tag)) ||
                      (types.tracked(types.lang.typeOf(g[x].tag)) && Leads(Holds(g), x, x))))
            && (forall x: nat, y: nat ::
                  && (x, y) in w.taken && x < |g|
                  && (types.always(types.lang.typeOf(g[x].tag)) ||
                      (types.tracked(types.lang.typeOf(g[x].tag)) && Leads(Holds(g), x, x))) ==>
                    if x == y then x in w.refs else y in w.refs && y < |g| && DeepEqual(g, types.lang, x, y))
            && Accounted(g, w, xs)
  {
    var mode := ModeOf(g, types);
    var w := WriteAll(g, mode, xs, [], depth).value;
    WriteAllKeepsIds(g, mode, xs, [], depth);
    WriteAllAccounts(g, mode, xs, [], depth);
    TakenIfDeepEqual(g, types, xs, depth);
    forall x | x in w.origin && x in mode.announced ensures x in w.refs {
      AllAnnouncedOnce(g, mode, xs, [], depth, x);
    }
  }

  /** Whether anything is merged can be seen on the plain walk, too. */
  lemma MergesInOrder(g: Heap, types: Types, xs: seq<nat>)
    requires Closed(g) && Within(g, xs) && RingsTracked(g, types, xs)
    ensures (forall x: nat, y: nat ::
               x < |g| && y < |g| && Compared(g, Merging(g, types), xs, x, y) ==> !DeepEqual(g, types.lang, x, y)) <==>
            (forall x: nat, y: nat ::
               x < |g| && y < |g| && Compared(g, InOrder(AnnouncedIn(g, types)), xs, x, y) ==>
                 !DeepEqual(g, types.lang, x, y))
  {
    var (r, t, depth) := (Merging(g, types), InOrder(AnnouncedIn(g, types)), Room(g, [], {}));
    TrackedIsCut(g, types, xs);
    VisitAllEnds(g, r, xs, xs, {}, [], depth);
    VisitAllEnds(g, t, xs, xs, {}, [], depth);
    forall x: nat, y: nat
      ensures Compared(g, r, xs, x, y) <==> (x, y) in VisitAll(g, r, xs, [], depth).value.asked
      ensures Compared(g, t, xs, x, y) <==> (x, y) in VisitAll(g, t, xs, [], depth).value.asked
    {
      ComparedAt(g, r, xs, depth, x, y);
      ComparedAt(g, t, xs, depth, x, y);
    }
    if Agreed(r, t, VisitAll(g, r, xs, [], depth).value.asked) {
      SameVisitAll(g, r, t, xs, [], depth);
    }
    if Agreed(t, r, VisitAll(g, t, xs, [], depth).value.asked) {
      SameVisitAll(g, t, r, xs, [], depth);
    }
  }
}
