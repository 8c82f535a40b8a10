/** Bucket arrays as representations of finite maps: what adding, removing, replacing and rehashing nodes keeps. */
module HashTable {
  import opened Common
  import opened Unique

  /**
   User code on keys: equality, which may raise, and the hash, which cannot be had of keys that are not hashable.
   `canon` picks one key of each class of equal ones.
   */
  datatype KeyOps<!K> = KeyOps(eq: (K, K) -> Answer, hashable: K -> bool, hash: K -> nat, canon: K -> K)

  ghost predicate Lawful<K(!new)>(o: KeyOps<K>) {
    && (forall a, b :: o.eq(a, b).Equal? ==> o.canon(a) == o.canon(b))
    && (forall a, b :: o.eq(a, b).Different? ==> o.canon(a) != o.canon(b))
    && (forall a {:trigger o.hash(o.canon(a))} :: o.hash(o.canon(a)) == o.hash(a))
    && (forall a {:trigger o.canon(o.canon(a))} :: o.canon(o.canon(a)) == o.canon(a))
  }

  datatype Node<K, V> = Node(key: K, hash: nat, item: V)

  type Bucket<K, V> = seq<Node<K, V>>

  type Buckets<K, V> = seq<Bucket<K, V>>

  /** A map from canonical keys to the key object and the item stored under it. */
  type Model<K(==), V> = map<K, (K, V)>

  /** What storing makes of a map: a key that is equal to a stored one leaves the stored key object in place. */
  function Store<K(==), V>(m: Model<K, V>, c: K, key: K, item: V): Model<K, V> {
    m[c := (if c in m then m[c].0 else key, item)]
  }

  // ----- looking a key up

  /** The search goes on behind the node: another hash, or a key that is different. */
  ghost predicate Passed<K, V>(o: KeyOps<K>, node: Node<K, V>, hash: nat, key: K) {
    node.hash != hash || o.eq(node.key, key).Different?
  }

  /** The search comes to node `i`, and that one has the hash: what `==` answers about its key decides. */
  ghost predicate Decides<K, V>(o: KeyOps<K>, bucket: Bucket<K, V>, hash: nat, key: K, i: nat) {
    && i < |bucket| && bucket[i].hash == hash && !o.eq(bucket[i].key, key).Different?
    && forall j :: 0 <= j < i ==> Passed(o, bucket[j], hash, key)
  }

  ghost predicate AllPassed<K, V>(o: KeyOps<K>, bucket: Bucket<K, V>, hash: nat, key: K) {
    forall j :: 0 <= j < |bucket| ==> Passed(o, bucket[j], hash, key)
  }

  /** The node that decides is one of which `==` raises an error. */
  ghost predicate RaisesIn<K, V>(o: KeyOps<K>, bucket: Bucket<K, V>, hash: nat, key: K) {
    exists i: nat :: Decides(o, bucket, hash, key, i) && o.eq(bucket[i].key, key).Broken?
  }

  /** Only one node decides, so what it answers is all there is to know. */
  lemma DecidesOnce<K, V>(o: KeyOps<K>, bucket: Bucket<K, V>, hash: nat, key: K, i: nat)
    requires Decides(o, bucket, hash, key, i)
    ensures RaisesIn(o, bucket, hash, key) <==> o.eq(bucket[i].key, key).Broken?
    ensures !AllPassed(o, bucket, hash, key)
  {
    assert !Passed(o, bucket[i], hash, key);
    if RaisesIn(o, bucket, hash, key) {
      var j: nat :| Decides(o, bucket, hash, key, j) && o.eq(bucket[j].key, key).Broken?;
    }
  }

  lemma NoneRaises<K, V>(o: KeyOps<K>, bucket: Bucket<K, V>, hash: nat, key: K)
    requires AllPassed(o, bucket, hash, key)
    ensures !RaisesIn(o, bucket, hash, key)
  {
  }

  // ----- a bucket array represents a map

  /** The node belongs into bucket `b` of `n`, and the map says the same as the node. */
  ghost predicate Fits<K, V>(o: KeyOps<K>, m: Model<K, V>, n: nat, b: int, node: Node<K, V>)
    requires n > 0
  {
    var c := o.canon(node.key);
    node.hash == o.hash(node.key) && node.hash % n == b && c in m && m[c] == (node.key, node.item)
  }

  ghost predicate KeysDiffer<K, V>(o: KeyOps<K>, bucket: Bucket<K, V>) {
    forall i, j :: 0 <= i < j < |bucket| ==> o.canon(bucket[i].key) != o.canon(bucket[j].key)
  }

  function NodeOf<K(==), V>(o: KeyOps<K>, m: Model<K, V>, c: K): Node<K, V>
    requires c in m
  {
    Node(m[c].0, o.hash(c), m[c].1)
  }

  ghost predicate Represents<K, V>(o: KeyOps<K>, buckets: Buckets<K, V>, m: Model<K, V>) {
    && |buckets| > 0
    && (forall b, node {:trigger Fits(o, m, |buckets|, b, node)} ::
          0 <= b < |buckets| && node in buckets[b] ==> Fits(o, m, |buckets|, b, node))
    && (forall b {:trigger KeysDiffer(o, buckets[b])} :: 0 <= b < |buckets| ==> KeysDiffer(o, buckets[b]))
    && (forall c {:trigger NodeOf(o, m, c)} ::
          c in m ==> o.canon(m[c].0) == c && NodeOf(o, m, c) in buckets[o.hash(c) % |buckets|])
  }

  /**
   If the node that decides is one for an equal key, the map has its entry; if there is none, the map has no entry. So
   if no comparison raises, the search finds the node exactly of the keys the map has.
   */
  lemma SearchIsLookup<K(!new), V>(o: KeyOps<K>, buckets: Buckets<K, V>, m: Model<K, V>, key: K)
    requires Lawful(o) && Represents(o, buckets, m)
    ensures var (bucket, c) := (buckets[o.hash(key) % |buckets|], o.canon(key));
            && (forall i: nat :: Decides(o, bucket, o.hash(key), key, i) && o.eq(bucket[i].key, key).Equal? ==>
                  c in m && bucket[i] == NodeOf(o, m, c))
            && (AllPassed(o, bucket, o.hash(key), key) ==> c !in m)
  {
    var (b, c) := (o.hash(key) % |buckets|, o.canon(key));
    forall i: nat | Decides(o, buckets[b], o.hash(key), key, i) && o.eq(buckets[b][i].key, key).Equal?
      ensures c in m && buckets[b][i] == NodeOf(o, m, c)
    {
      assert Fits(o, m, |buckets|, b, buckets[b][i]);
    }
    if c in m {
      assert NodeOf(o, m, c) in buckets[b];
      var i :| 0 <= i < |buckets[b]| && buckets[b][i] == NodeOf(o, m, c);
      assert Fits(o, m, |buckets|, b, buckets[b][i]);
      assert !Passed(o, buckets[b][i], o.hash(key), key);
    }
  }

  // ----- the changes

  function AddTo<K, V>(buckets: Buckets<K, V>, node: Node<K, V>): Buckets<K, V>
    requires |buckets| > 0
  {
    var b := node.hash % |buckets|;
    buckets[b := [node] + buckets[b]]
  }

  lemma AddRepresents<K(!new), V>(o: KeyOps<K>, buckets: Buckets<K, V>, m: Model<K, V>, key: K, item: V)
    requires Lawful(o) && Represents(o, buckets, m) && o.canon(key) !in m
    ensures Represents(o, AddTo(buckets, Node(key, o.hash(key), item)), m[o.canon(key) := (key, item)])
  {
    var (node, c) := (Node(key, o.hash(key), item), o.canon(key));
    var (b, after, m') := (node.hash % |buckets|, AddTo(buckets, node), m[c := (key, item)]);
    forall d, e | 0 <= d < |after| && e in after[d] ensures Fits(o, m', |after|, d, e) {
      if d != b || e != node {
        assert e in buckets[d];
        assert Fits(o, m, |buckets|, d, e);
      }
    }
    forall d | 0 <= d < |after| ensures KeysDiffer(o, after[d]) {
      assert KeysDiffer(o, buckets[d]);
      if d == b {
        forall i | 0 <= i < |buckets[b]| ensures o.canon(buckets[b][i].key) != c {
          assert Fits(o, m, |buckets|, b, buckets[b][i]);
        }
      }
    }
    forall k | k in m' ensures o.canon(m'[k].0) == k && NodeOf(o, m', k) in after[o.hash(k) % |after|] {
      if k == c {
        assert node in after[b];
      } else {
        assert NodeOf(o, m, k) in buckets[o.hash(k) % |buckets|];
      }
    }
  }

  function Cut<T>(s: seq<T>, i: nat): seq<T>
    requires i < |s|
  {
    s[..i] + s[i + 1..]
  }

  /** Two places with equal keys are the same place. */
  lemma OnePlace<K(!new), V>(o: KeyOps<K>, buckets: Buckets<K, V>, m: Model<K, V>, b: nat, i: nat, d: nat, j: nat)
    requires Lawful(o) && Represents(o, buckets, m)
    requires b < |buckets| && i < |buckets[b]| && d < |buckets| && j < |buckets[d]|
    ensures o.canon(buckets[b][i].key) == o.canon(buckets[d][j].key) <==> b == d && i == j
  {
    var (x, y) := (buckets[b][i], buckets[d][j]);
    assert Fits(o, m, |buckets|, b, x) && Fits(o, m, |buckets|, d, y);
    assert o.hash(x.key) == o.hash(o.canon(x.key)) && o.hash(y.key) == o.hash(o.canon(y.key));
    assert KeysDiffer(o, buckets[b]);
  }

  lemma RemoveRepresents<K(!new), V>(o: KeyOps<K>, buckets: Buckets<K, V>, m: Model<K, V>, b: nat, i: nat)
    requires Lawful(o) && Represents(o, buckets, m) && b < |buckets| && i < |buckets[b]|
    ensures Represents(o, buckets[b := Cut(buckets[b], i)], m - {o.canon(buckets[b][i].key)})
  {
    var (node, c) := (buckets[b][i], o.canon(buckets[b][i].key));
    var (after, m') := (buckets[b := Cut(buckets[b], i)], m - {c});
    assert Fits(o, m, |buckets|, b, node);
    forall d, e | 0 <= d < |after| && e in after[d] ensures Fits(o, m', |after|, d, e) {
      var j :| 0 <= j < |after[d]| && after[d][j] == e;
      var was := if d == b && j >= i then j + 1 else j;
      assert e == buckets[d][was] && Fits(o, m, |buckets|, d, e);
      OnePlace(o, buckets, m, b, i, d, was);
    }
    forall d | 0 <= d < |after| ensures KeysDiffer(o, after[d]) {
      CutDiffers(o, buckets[d]);
    }
    forall k | k in m' ensures o.canon(m'[k].0) == k && NodeOf(o, m', k) in after[o.hash(k) % |after|] {
      var (e, d) := (NodeOf(o, m, k), o.hash(k) % |buckets|);
      assert e in buckets[d];
      if d == b {
        InCut(buckets[b], i, e);
      }
    }
  }

  lemma InCut<T>(s: seq<T>, i: nat, e: T)
    requires i < |s| && e in s && e != s[i]
    ensures e in Cut(s, i)
  {
    var j :| 0 <= j < |s| && s[j] == e;
    assert Cut(s, i)[if j < i then j else j - 1] == e;
  }

  lemma CutDiffers<K(!new), V>(o: KeyOps<K>, bucket: Bucket<K, V>)
    requires KeysDiffer(o, bucket)
    ensures forall i :: 0 <= i < |bucket| ==> KeysDiffer(o, Cut(bucket, i))
  {
    forall i, x, y | 0 <= i < |bucket| && 0 <= x < y < |Cut(bucket, i)|
      ensures o.canon(Cut(bucket, i)[x].key) != o.canon(Cut(bucket, i)[y].key)
    {
      var (u, v) := (if x < i then x else x + 1, if y < i then y else y + 1);
      assert Cut(bucket, i)[x] == bucket[u] && Cut(bucket, i)[y] == bucket[v];
    }
  }

  lemma ReplaceRepresents<K(!new), V>(o: KeyOps<K>, buckets: Buckets<K, V>, m: Model<K, V>, b: nat, i: nat, item: V)
    requires Lawful(o) && Represents(o, buckets, m) && b < |buckets| && i < |buckets[b]|
    ensures var node := buckets[b][i];
            Represents(o, buckets[b := buckets[b][i := node.(item := item)]], m[o.canon(node.key) := (node.key, item)])
  {
    var (node, c) := (buckets[b][i], o.canon(buckets[b][i].key));
    var (after, m') := (buckets[b := buckets[b][i := node.(item := item)]], m[c := (node.key, item)]);
    assert Fits(o, m, |buckets|, b, node);
    forall d, e | 0 <= d < |after| && e in after[d] ensures Fits(o, m', |after|, d, e) {
      var j :| 0 <= j < |after[d]| && after[d][j] == e;
      OnePlace(o, buckets, m, b, i, d, j);
      if d != b || j != i {
        assert e == buckets[d][j] && Fits(o, m, |buckets|, d, e);
      }
    }
    forall d | 0 <= d < |after| ensures KeysDiffer(o, after[d]) {
      assert KeysDiffer(o, buckets[d]);
    }
    forall k | k in m' ensures o.canon(m'[k].0) == k && NodeOf(o, m', k) in after[o.hash(k) % |after|] {
      if k == c {
        assert after[b][i] == NodeOf(o, m', c);
      } else {
        var (e, d) := (NodeOf(o, m, k), o.hash(k) % |buckets|);
        assert e in buckets[d];
        var j :| 0 <= j < |buckets[d]| && buckets[d][j] == e;
        assert after[d][j] == e;
      }
    }
  }

  // ----- rehashing

  /** `nodes` in their order, each put in front of its new bucket. */
  function AddAll<K, V>(buckets: Buckets<K, V>, nodes: seq<Node<K, V>>): (r: Buckets<K, V>)
    requires |buckets| > 0
    ensures |r| == |buckets|
    decreases |nodes|
  {
    if nodes == [] then buckets else AddAll(AddTo(buckets, nodes[0]), nodes[1..])
  }

  function Empty<K, V>(n: nat): Buckets<K, V> {
    seq(n, _ => [])
  }

  lemma {:induction false} AddAllConcat<K, V>(buckets: Buckets<K, V>, a: seq<Node<K, V>>, b: seq<Node<K, V>>)
    requires |buckets| > 0
    ensures AddAll(buckets, a + b) == AddAll(AddAll(buckets, a), b)
    decreases |a|
  {
    if a == [] {
      assert a + b == b;
    } else {
      assert (a + b)[1..] == a[1..] + b;
      AddAllConcat(AddTo(buckets, a[0]), a[1..], b);
    }
  }

  /** The part of the map that `nodes` carry. */
  function MapOf<K(==), V>(o: KeyOps<K>, nodes: seq<Node<K, V>>): Model<K, V> {
    if nodes == [] then map[]
    else
      var last := nodes[|nodes| - 1];
      MapOf(o, nodes[..|nodes| - 1])[o.canon(last.key) := (last.key, last.item)]
  }

  lemma {:induction false} MapOfKeys<K(!new), V>(o: KeyOps<K>, nodes: seq<Node<K, V>>, c: K)
    ensures c in MapOf(o, nodes) <==> exists i :: 0 <= i < |nodes| && o.canon(nodes[i].key) == c
    decreases |nodes|
  {
    if nodes != [] {
      MapOfKeys(o, nodes[..|nodes| - 1], c);
      if c in MapOf(o, nodes) {
        if o.canon(nodes[|nodes| - 1].key) != c {
          var i :| 0 <= i < |nodes| - 1 && o.canon(nodes[..|nodes| - 1][i].key) == c;
          assert o.canon(nodes[i].key) == c;
        }
      } else {
        forall i | 0 <= i < |nodes| ensures o.canon(nodes[i].key) != c {
          assert i < |nodes| - 1 ==> nodes[..|nodes| - 1][i] == nodes[i];
        }
      }
    }
  }

  ghost predicate Hashed<K, V>(o: KeyOps<K>, nodes: seq<Node<K, V>>) {
    forall i :: 0 <= i < |nodes| ==> nodes[i].hash == o.hash(nodes[i].key)
  }

  /** New buckets filled with nodes of different keys represent what those nodes carry. */
  lemma {:induction false} FilledRepresents<K(!new), V>(o: KeyOps<K>, n: nat, nodes: seq<Node<K, V>>)
    requires Lawful(o) && n > 0 && KeysDiffer(o, nodes) && Hashed(o, nodes)
    ensures Represents(o, AddAll(Empty<K, V>(n), nodes), MapOf(o, nodes))
    decreases |nodes|
  {
    if nodes != [] {
      var (init, last) := (nodes[..|nodes| - 1], nodes[|nodes| - 1]);
      FilledRepresents(o, n, init);
      AddAllConcat(Empty<K, V>(n), init, [last]);
      assert nodes == init + [last];
      MapOfKeys(o, init, o.canon(last.key));
      AddRepresents(o, AddAll(Empty<K, V>(n), init), MapOf(o, init), last.key, last.item);
      assert last == Node(last.key, o.hash(last.key), last.item);
      assert [last][1..] == [];
    }
  }

  // ----- enumeration

  lemma {:induction false} DifferFlatten<K(!new), V>(o: KeyOps<K>, buckets: Buckets<K, V>)
    requires forall b :: 0 <= b < |buckets| ==> KeysDiffer(o, buckets[b])
    requires forall b, d, e: Node<K, V>, f: Node<K, V> ::
               0 <= b < d < |buckets| && e in buckets[b] && f in buckets[d] ==> o.canon(e.key) != o.canon(f.key)
    ensures KeysDiffer(o, Flatten(buckets))
    decreases |buckets|
  {
    if buckets != [] {
      var (head, tail) := (buckets[0], Flatten(buckets[1..]));
      DifferFlatten(o, buckets[1..]);
      var all: Bucket<K, V> := head + tail;
      forall i, j | 0 <= i < j < |all| ensures o.canon(all[i].key) != o.canon(all[j].key) {
        if i < |head| <= j {
          var (e, f) := (head[i], tail[j - |head|]);
          var d := WhereInFlatten(buckets[1..], f);
          assert e in buckets[0] && f in buckets[d + 1];
        } else if j < |head| {
          assert KeysDiffer(o, buckets[0]);
        } else {
          assert o.canon(tail[i - |head|].key) != o.canon(tail[j - |head|].key);
        }
      }
    }
  }

  lemma {:induction false} MapOfValue<K(!new), V>(o: KeyOps<K>, nodes: seq<Node<K, V>>, i: nat)
    requires KeysDiffer(o, nodes) && i < |nodes|
    ensures var c := o.canon(nodes[i].key); c in MapOf(o, nodes) && MapOf(o, nodes)[c] == (nodes[i].key, nodes[i].item)
    ensures |MapOf(o, nodes)| == |nodes|
    decreases |nodes|
  {
    var (init, last) := (nodes[..|nodes| - 1], nodes[|nodes| - 1]);
    MapOfKeys(o, init, o.canon(last.key));
    if init != [] {
      MapOfValue(o, init, if i < |init| then i else 0);
    }
    assert i < |init| ==> init[i] == nodes[i];
  }

  lemma NodeInMap<K(!new), V>(o: KeyOps<K>, buckets: Buckets<K, V>, m: Model<K, V>, node: Node<K, V>)
    requires Represents(o, buckets, m) && node in Flatten(buckets)
    ensures node.hash == o.hash(node.key) && o.canon(node.key) in m && m[o.canon(node.key)] == (node.key, node.item)
  {
    var b := WhereInFlatten(buckets, node);
    assert Fits(o, m, |buckets|, b, node);
  }

  lemma AllDiffer<K(!new), V>(o: KeyOps<K>, buckets: Buckets<K, V>, m: Model<K, V>)
    requires Lawful(o) && Represents(o, buckets, m)
    ensures KeysDiffer(o, Flatten(buckets))
  {
    forall b, d, e: Node<K, V>, f: Node<K, V> | 0 <= b < d < |buckets| && e in buckets[b] && f in buckets[d]
      ensures o.canon(e.key) != o.canon(f.key)
    {
      assert Fits(o, m, |buckets|, b, e) && Fits(o, m, |buckets|, d, f);
      assert o.hash(o.canon(e.key)) == e.hash && o.hash(o.canon(f.key)) == f.hash;
    }
    DifferFlatten(o, buckets);
  }

  lemma EntryEnumerated<K(!new), V>(o: KeyOps<K>, buckets: Buckets<K, V>, m: Model<K, V>, c: K)
    requires Lawful(o) && Represents(o, buckets, m) && KeysDiffer(o, Flatten(buckets)) && c in m
    ensures c in MapOf(o, Flatten(buckets)) && MapOf(o, Flatten(buckets))[c] == m[c]
  {
    var (nodes, e) := (Flatten(buckets), NodeOf(o, m, c));
    InFlatten(buckets, o.hash(c) % |buckets|, e);
    var i :| 0 <= i < |nodes| && nodes[i] == e;
    MapOfValue(o, nodes, i);
  }

  lemma EnumeratedInMap<K(!new), V>(o: KeyOps<K>, buckets: Buckets<K, V>, m: Model<K, V>, c: K)
    requires Represents(o, buckets, m) && c in MapOf(o, Flatten(buckets))
    ensures c in m
  {
    var nodes := Flatten(buckets);
    MapOfKeys(o, nodes, c);
    var i :| 0 <= i < |nodes| && o.canon(nodes[i].key) == c;
    NodeInMap(o, buckets, m, nodes[i]);
  }

  /**
   Walking the buckets meets every entry of the map exactly once, whatever the bucket layout: no two nodes have
   equal keys, and together they carry the whole map.
   */
  lemma EnumeratesOnce<K(!new), V>(o: KeyOps<K>, buckets: Buckets<K, V>, m: Model<K, V>)
    requires Lawful(o) && Represents(o, buckets, m)
    ensures KeysDiffer(o, Flatten(buckets)) && Hashed(o, Flatten(buckets))
    ensures MapOf(o, Flatten(buckets)) == m && |m| == |Flatten(buckets)|
  {
    var nodes := Flatten(buckets);
    AllDiffer(o, buckets, m);
    forall i | 0 <= i < |nodes| ensures nodes[i].hash == o.hash(nodes[i].key) {
      NodeInMap(o, buckets, m, nodes[i]);
    }
    forall c | c in m ensures c in MapOf(o, nodes) && MapOf(o, nodes)[c] == m[c] {
      EntryEnumerated(o, buckets, m, c);
    }
    forall c | c in MapOf(o, nodes) ensures c in m {
      EnumeratedInMap(o, buckets, m, c);
    }
    assert MapOf(o, nodes) == m;
    if nodes != [] {
      MapOfValue(o, nodes, 0);
    }
  }

  /** Rehashing to any number of buckets changes where nodes are, not what they represent. */
  lemma RehashRepresents<K(!new), V>(o: KeyOps<K>, buckets: Buckets<K, V>, m: Model<K, V>, n: nat)
    requires Lawful(o) && Represents(o, buckets, m) && n > 0
    ensures Represents(o, AddAll(Empty<K, V>(n), Flatten(buckets)), m)
  {
    EnumeratesOnce(o, buckets, m);
    FilledRepresents(o, n, Flatten(buckets));
  }
}
