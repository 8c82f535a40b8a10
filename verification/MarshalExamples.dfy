/** Graphs the marshal cannot write, or writes and gives back as something else. */
module MarshalExamples {
  import opened Common
  import opened ObjectGraph
  import opened DeepEquals
  import opened Marshal
  import opened MarshalOrder
  import opened MarshalShape
  import opened MarshalGraphs

  const LIST := 1
  const INT := 2
  const BOOL := 3
  const CELL := 4

  /** The builtin types above. `same` says what `==` does with objects that are not both lists, and allows two lists. */
  function Builtin(same: (nat, nat) -> bool): Types {
    Types(Language(tag => tag, tag => tag == LIST, tag => tag == LIST, same),
          tag => false,
          tag => tag == LIST || tag == CELL)
  }

  /** Objects of different types are never deeply equal, and that is soon known. */
  lemma TypesDiffer(g: Heap, types: Types, x: nat, y: nat)
    requires Closed(g) && x < |g| && y < |g| && TypeAt(g, types.lang, x) != TypeAt(g, types.lang, y)
    ensures !DeepEqual(g, types.lang, x, y) && DeepEnds(g, types.lang, x, y)
  {
    assert Deep(g, types.lang, x, y, 0).Some?;
  }

  /** Every ring is tracked if only tracked objects hold anything. */
  lemma HoldersTracked(g: Heap, types: Types, xs: seq<nat>)
    requires forall x :: 0 <= x < |g| && g[x].kids != [] ==> Tracked(g, types, x)
    ensures RingsTracked(g, types, xs)
  {
    forall w: seq<nat> | Walk(Holds(g), w) && w[0] == w[|w| - 1] && Reached(g, xs, w[0])
      ensures exists i :: 0 <= i < |w| && w[i] < |g| && (Tracked(g, types, w[i]) || Always(g, types, w[i]))
    {
      assert Holds(g)(w[0], w[1]);
    }
  }

  lemma NoRing(g: Heap, x: nat)
    requires x < |g| && g[x].kids == []
    ensures !MeetsRing(Holds(g), x)
  {
    if MeetsRing(Holds(g), x) {
      var k := RingGoesOn(Holds(g), x);
    }
  }

  /** The walk from two roots ends, as every ring is tracked. */
  lemma WalkEnds(g: Heap, types: Types, rules: Rules, x: nat, y: nat) returns (depth: nat)
    requires Closed(g) && x < |g| && y < |g| && RingsTracked(g, types, [x, y])
    requires rules.announced == AnnouncedIn(g, types)
    ensures VisitAll(g, rules, [x, y], [], depth).Some?
  {
    depth := Room(g, [], {});
    TrackedIsCut(g, types, [x, y]);
    VisitAllEnds(g, rules, [x, y], [x, y], {}, [], depth);
  }

  // ----- two lists that hold themselves

  /** Two lists that each hold only themselves cannot be written to one stream, though both are announced. */
  lemma TwoRingsNeverEnd(types: Types, tag: int)
    requires types.lang.same(0, 1) && types.lang.same(1, 0) && types.lang.iterable(types.lang.typeOf(tag))
    requires types.tracked(types.lang.typeOf(tag))
    ensures var g := [Obj(tag, [0]), Obj(tag, [1])];
            && Closed(g) && RingsTracked(g, types, [0, 1]) && !CanWrite(g, types, [0, 1])
  {
    var g := [Obj(tag, [0]), Obj(tag, [1])];
    TwoRings(types.lang, tag);
    assert g[0].kids[0] == 0;
    HoldersTracked(g, types, [0, 1]);
    HoldsItself(g, types, 0);
    SecondHangs(g, types, 0, 1);
  }

  /** Writing two roots does not end if comparing the second with the first, which is announced, does not. */
  lemma SecondHangs(g: Heap, types: Types, x: nat, y: nat)
    requires Closed(g) && x < |g| && y < |g| && x != y && RingsTracked(g, types, [x, y])
    requires Announced(g, types, x) && !DeepEnds(g, types.lang, y, x)
    ensures !CanWrite(g, types, [x, y])
  {
    var depth := WalkEnds(g, types, Merging(g, types), x, y);
    SecondIsCompared(g, Merging(g, types), x, y, depth);
    TrackedEndsIff(g, types, [x, y]);
  }

  /** If only the first root and what it is compared with make a comparison go on, writing ends. */
  lemma FirstIsNotAsked(g: Heap, types: Types, x: nat, y: nat)
    requires Closed(g) && x < |g| && y < |g| && x != y && RingsTracked(g, types, [x, y]) && Announced(g, types, x)
    requires forall a: nat, b: nat :: a < |g| && b < |g| && !DeepEnds(g, types.lang, a, b) ==> a == x
    ensures CanWrite(g, types, [x, y])
  {
    var depth := WalkEnds(g, types, Merging(g, types), x, y);
    SecondIsCompared(g, Merging(g, types), x, y, depth);
    TrackedEndsIff(g, types, [x, y]);
  }

  // ----- two lists that hold themselves, which one of them knows not to be equal

  /** `0` is a list of 42 and itself, `1` one of true and itself. */
  const MIXED: Heap := [Obj(LIST, [2, 0]), Obj(LIST, [3, 1]), Obj(INT, []), Obj(BOOL, [])]

  /** `true == 42`, but not `42 == true`. */
  function MixedTypes(): Types {
    Builtin((x, y) => x == y || (x == 3 && y == 2) || (x < 2 && y < 2))
  }

  lemma MixedTracked()
    ensures Closed(MIXED) && RingsTracked(MIXED, MixedTypes(), [0, 1]) && RingsTracked(MIXED, MixedTypes(), [1, 0])
  {
    HoldersTracked(MIXED, MixedTypes(), [0, 1]);
    HoldersTracked(MIXED, MixedTypes(), [1, 0]);
  }

  lemma MixedAnnounced()
    requires Closed(MIXED)
    ensures Announced(MIXED, MixedTypes(), 0) && Announced(MIXED, MixedTypes(), 1)
  {
    assert MIXED[0].kids[1] == 0 && MIXED[1].kids[1] == 1;
    HoldsItself(MIXED, MixedTypes(), 0);
    HoldsItself(MIXED, MixedTypes(), 1);
  }

  lemma HoldsItself(g: Heap, types: Types, x: nat)
    requires x < |g| && x in g[x].kids && Tracked(g, types, x)
    ensures Announced(g, types, x)
  {
    OneStep(Holds(g), x, x);
  }

  lemma MixedCompares()
    requires Closed(MIXED)
    ensures DeepEnds(MIXED, MixedTypes().lang, 0, 1) && !DeepEnds(MIXED, MixedTypes().lang, 1, 0)
  {
    var (g, lang) := (MIXED, MixedTypes().lang);
    assert Iterated(g, lang, 0) && Iterated(g, lang, 1) && !Iterated(g, lang, 2) && !Iterated(g, lang, 3);
    assert Compare(g, lang, 2, 3, 0) == Some(false);
    assert CompareFrom(g, lang, [2, 0], [3, 1], 0, 0) == Some(false);
    assert Compare(g, lang, 0, 1, 1) == Some(false);
    assert Deep(g, lang, 0, 1, 1).Some?;
    assert AgreeTo(g, lang, 3, 2, 0);
    assert g[1].kids[1] == 1 && g[0].kids[1] == 0 && g[1].kids[0] == 3 && g[0].kids[0] == 2;
    assert Asks(g, lang)((1, 0), (1, 0)) by {
      assert forall j :: 0 <= j < 1 ==> Agree(g, lang, g[1].kids[j], g[0].kids[j]);
    }
    OneStep(Asks(g, lang), (1, 0), (1, 0));
    DeepEndsIff(g, lang, 1, 0);
  }

  /** Which of the two is written first decides whether writing ends: the other one is asked. */
  lemma OrderDecides()
    ensures Closed(MIXED) && CanWrite(MIXED, MixedTypes(), [1, 0]) && !CanWrite(MIXED, MixedTypes(), [0, 1])
  {
    var (g, types) := (MIXED, MixedTypes());
    MixedTracked();
    MixedAnnounced();
    MixedCompares();
    SecondHangs(g, types, 0, 1);
    forall a: nat, b: nat | a < |g| && b < |g| && !DeepEnds(g, types.lang, a, b) ensures a == 1 {
      MixedHangs(a, b);
    }
    FirstIsNotAsked(g, types, 1, 0);
  }

  lemma MixedHangs(x: nat, y: nat)
    requires Closed(MIXED) && x < |MIXED| && y < |MIXED| && !DeepEnds(MIXED, MixedTypes().lang, x, y)
    ensures x == 1
  {
    var (g, types) := (MIXED, MixedTypes());
    MixedCompares();
    if TypeAt(g, types.lang, x) != TypeAt(g, types.lang, y) {
      TypesDiffer(g, types, x, y);
    }
    DeepEndsIff(g, types.lang, x, y);
    EndlessMeetsRings(g, types.lang, x, y);
    NoRing(g, 2);
    NoRing(g, 3);
  }

  // ----- a list that is read as another list

  /** `0` is a list of 42 and the cell `2`, which holds that list; `3` is a list of true and the same cell. */
  const SHARED: Heap := [Obj(LIST, [1, 2]), Obj(INT, []), Obj(CELL, [0]), Obj(LIST, [4, 2]), Obj(BOOL, [])]

  /** `true == 42`, and a cell equals itself. */
  function SharedTypes(): Types {
    Builtin((x, y) => x == y || (x == 4 && y == 1) || (x in {0, 3} && y in {0, 3}))
  }

  lemma SharedIsHonest()
    ensures Closed(SHARED) && Honest(SHARED, SharedTypes().lang)
  {
  }

  lemma SharedTracked()
    requires Closed(SHARED)
    ensures RingsTracked(SHARED, SharedTypes(), [0, 3]) && Announced(SHARED, SharedTypes(), 0)
  {
    HoldersTracked(SHARED, SharedTypes(), [0, 3]);
    assert SHARED[0].kids[1] == 2 && SHARED[2].kids[0] == 0;
    HoldsHolder(SHARED, SharedTypes(), 0, 2);
  }

  lemma HoldsHolder(g: Heap, types: Types, x: nat, y: nat)
    requires x < |g| && y < |g| && y in g[x].kids && x in g[y].kids && Tracked(g, types, x)
    ensures Announced(g, types, x)
  {
    OneStep(Holds(g), x, y);
    LeadsOn(Holds(g), x, y, x);
  }

  lemma SharedListsEqual()
    requires Closed(SHARED)
    ensures DeepEqual(SHARED, SharedTypes().lang, 3, 0) && !OneType(SHARED, SharedTypes().lang, 3, 0)
    ensures DeepEnds(SHARED, SharedTypes().lang, 0, 3)
  {
    var (g, lang) := (SHARED, SharedTypes().lang);
    assert g[3].kids[0] == 4 && g[3].kids[1] == 2 && g[0].kids[0] == 1 && g[0].kids[1] == 2;
    assert Iterated(g, lang, 0) && Iterated(g, lang, 3) && !Iterated(g, lang, 1) && !Iterated(g, lang, 2);
    assert AgreeTo(g, lang, 4, 1, 0) && AgreeTo(g, lang, 2, 2, 0);
    assert AgreeTo(g, lang, 3, 0, 1);
    DeepIsMatches(g, lang, 3, 0, 1);
    assert Beside(g, lang)((3, 0), (4, 1));
    OneStep(Beside(g, lang), (3, 0), (4, 1));
    assert SamePlace(g, lang, (3, 0), (4, 1)) && TypeAt(g, lang, 4) != TypeAt(g, lang, 1);
    assert Compare(g, lang, 1, 4, 0) == Some(false);
    assert CompareFrom(g, lang, [1, 2], [4, 2], 0, 0) == Some(false);
    assert Compare(g, lang, 0, 3, 1) == Some(false);
    assert Deep(g, lang, 0, 3, 1).Some?;
  }

  /** Both lists can be written, but they are read as one: the second comes back with 42 for true. */
  lemma ListsMerged(depth: nat)
    ensures Closed(SHARED) && CanWrite(SHARED, SharedTypes(), [0, 3])
    ensures var w := WriteAll(SHARED, ModeOf(SHARED, SharedTypes()), [0, 3], [], depth);
            w.Some? ==>
              var r := ReadObjects(2, w.value.tokens, [], []);
              && r.obs.Some? && !GivesBack(SHARED, [0, 3], r)
              && !SameShape(SHARED, [0, 3], r.heap, r.obs.value, w.value.origin)
  {
    var (g, types) := (SHARED, SharedTypes());
    SharedIsHonest();
    SharedTracked();
    SharedListsEqual();
    var d := WalkEnds(g, types, Merging(g, types), 0, 3);
    SecondIsCompared(g, Merging(g, types), 0, 3, d);
    forall x: nat, y: nat | x < |g| && y < |g| ensures DeepEnds(g, types.lang, x, y) {
      SharedAllEnd(x, y);
    }
    TrackedEndsIff(g, types, [0, 3]);
    if WriteAll(g, ModeOf(g, types), [0, 3], [], depth).Some? {
      RoundTripOfGraphs(g, types, [0, 3], depth);
      ShapeKeptIff(g, types, [0, 3], depth);
    }
  }

  lemma SharedAllEnd(x: nat, y: nat)
    requires Closed(SHARED) && x < |SHARED| && y < |SHARED|
    ensures DeepEnds(SHARED, SharedTypes().lang, x, y)
  {
    var (g, types) := (SHARED, SharedTypes());
    SharedListsEqual();
    DeepEndsIff(g, types.lang, x, y);
  }
}
