/** Small definitions that several components share. */
module Common {

  datatype Option<+T> = None | Some(value: T)

  function Min(a: int, b: int): int {
    if a < b then a else b
  }

  function Max(a: int, b: int): int {
    if a < b then b else a
  }

  /** The numbers from `first` on that are less than `end`. */
  function Numbers(first: nat, end: nat): (s: set<nat>)
    ensures |s| == (if first < end then end - first else 0)
    ensures forall i :: i in s <==> first <= i < end
    decreases end
  {
    if first < end then Numbers(first, end - 1) + {end - 1} else {}
  }

  function Flatten<T>(chains: seq<seq<T>>): seq<T> {
    if chains == [] then [] else chains[0] + Flatten(chains[1..])
  }

  lemma {:induction false} InFlatten<T>(chains: seq<seq<T>>, i: nat, a: T)
    requires i < |chains| && a in chains[i]
    ensures a in Flatten(chains)
  {
    if i > 0 {
      InFlatten(chains[1..], i - 1, a);
    }
  }

  lemma {:induction false} WhereInFlatten<T>(chains: seq<seq<T>>, a: T) returns (i: nat)
    requires a in Flatten(chains)
    ensures i < |chains| && a in chains[i]
  {
    if a in chains[0] {
      i := 0;
    } else {
      i := WhereInFlatten(chains[1..], a);
      i := i + 1;
    }
  }
}
