/** The hash map behind a dict: a bucket array that grows and shrinks, the range of buckets in use, and a lock. */
module HashMap {
  import opened Common
  import opened Capacity
  import opened HashTable

  const INITIAL_BUCKET_COUNT := 8

  /** All nodes are in the buckets from `first` to `end`. */
  ghost predicate Covers<K, V>(buckets: Buckets<K, V>, first: nat, end: nat) {
    first < end <= |buckets| && forall b :: 0 <= b < first || end <= b < |buckets| ==> buckets[b] == []
  }

  /** ... and both ends of the range hold nodes. */
  ghost predicate Tight<K, V>(buckets: Buckets<K, V>, first: nat, end: nat) {
    Covers(buckets, first, end) && buckets[first] != [] && buckets[end - 1] != []
  }

  lemma {:induction false} FlattenSnoc<T>(s: seq<seq<T>>, x: seq<T>)
    ensures Flatten(s + [x]) == Flatten(s) + x
    decreases |s|
  {
    if s == [] {
      assert [x][1..] == [];
    } else {
      assert (s + [x])[1..] == s[1..] + [x];
      FlattenSnoc(s[1..], x);
    }
  }

  lemma FlattenNext<T>(s: seq<seq<T>>, b: nat)
    requires b < |s|
    ensures Flatten(s[..b + 1]) == Flatten(s[..b]) + s[b]
  {
    FlattenSnoc(s[..b], s[b]);
    assert s[..b + 1] == s[..b] + [s[b]];
  }

  lemma {:induction false} FlattenNothing<T>(s: seq<seq<T>>, from: nat, upTo: nat)
    requires from <= upTo <= |s| && forall b :: from <= b < upTo ==> s[b] == []
    ensures Flatten(s[..upTo]) == Flatten(s[..from])
    decreases upTo
  {
    if from < upTo {
      FlattenNothing(s, from, upTo - 1);
      assert s[..upTo] == s[..upTo - 1] + [s[upTo - 1]];
      FlattenSnoc(s[..upTo - 1], s[upTo - 1]);
    }
  }

  lemma OneKeyLess<K, V>(m: Model<K, V>, c: K)
    requires c in m
    ensures |m - {c}| == |m| - 1
  {
    assert m.Keys == (m - {c}).Keys + {c};
  }

  /** A bucket may get shorter: the range still covers all nodes, and its ends are in use unless one is that bucket. */
  lemma RestCovered<K, V>(buckets: Buckets<K, V>, first: nat, end: nat, b: nat, rest: Bucket<K, V>)
    requires Tight(buckets, first, end) && b < |buckets| && buckets[b] != []
    ensures var now := buckets[b := rest];
            && Covers(now, first, end) && first <= b < end
            && forall d :: (d == first || d == end - 1) && d != b ==> now[d] != []
  {
  }

  class Map<K(==, !new), V> {
    const o: KeyOps<K>
    const maxLoad: real
    /** Empty stands for the null pointer. */
    var buckets: Buckets<K, V>
    var first: nat
    var end: nat
    var size: nat
    /** How often the lock is held: 0 or 1, unless code leaves it locked or unlocks it twice. */
    var lock: int
    ghost var m: Model<K, V>

    ghost predicate Valid()
      reads this
    {
      && Lawful(o) && maxLoad > 0.0 && size == |m|
      && if buckets == [] then m == map[] && first == 0 && end == 0
         else Represents(o, buckets, m) && Tight(buckets, first, end)
    }

    /** The bucket in which a key would be; without buckets there is nothing in it. */
    ghost function Row(key: K): Bucket<K, V>
      reads this`buckets
    {
      if buckets == [] then [] else buckets[o.hash(key) % |buckets|]
    }

    /** A search for `key` comes to a node of which `==` raises an error before it has found the key. */
    ghost predicate Raises(key: K)
      reads this`buckets
    {
      RaisesIn(o, Row(key), o.hash(key), key)
    }

    constructor (o: KeyOps<K>, maxLoad: real)
      requires Lawful(o) && maxLoad > 0.0
      ensures Valid() && m == map[] && lock == 0 && this.o == o && this.maxLoad == maxLoad
    {
      this.o, this.maxLoad := o, maxLoad;
      buckets, first, end, size, lock, m := [], 0, 0, 0, 0, map[];
    }

    // ----- buckets

    method UpdateValidBuckets()
      requires Flatten(buckets) != []
      modifies this`first, this`end
      ensures Tight(buckets, first, end)
    {
      ghost var some := WhereInFlatten(buckets, Flatten(buckets)[0]);
      assert buckets[some] != [];
      var iter := 0;
      while buckets[iter] == []
        invariant iter <= some < |buckets| && forall b :: 0 <= b < iter ==> buckets[b] == []
        decreases some - iter
      {
        iter := iter + 1;
      }
      first := iter;
      iter := |buckets|;
      while buckets[iter - 1] == []
        invariant first <= some < iter <= |buckets| && buckets[first] != []
        invariant forall b :: 0 <= b < first || iter <= b < |buckets| ==> buckets[b] == []
        decreases iter
      {
        iter := iter - 1;
      }
      end := iter;
    }

    /** Moves every node to one of `count` new buckets; without buckets there is nothing to move. */
    method Rehash(count: nat)
      requires Covers(buckets, first, end) && (count == 0 <==> Flatten(buckets) == [])
      modifies this`buckets, this`first, this`end
      ensures count == 0 ==> buckets == [] && first == 0 && end == 0
      ensures count > 0 ==> buckets == AddAll(Empty(count), Flatten(old(buckets)))
      ensures count > 0 ==> Tight(buckets, first, end)
    {
      if count == 0 {
        buckets, first, end := [], 0, 0;
        return;
      }
      NothingLost(count, Flatten(buckets));
      buckets := Redistribute(buckets, first, end, count);
      UpdateValidBuckets();
    }
  
    /** All that holds between taking a node out of bucket `b` and giving up buckets. */
    ghost predicate Loose(b: nat)
      reads this
    {
      && Lawful(o) && maxLoad > 0.0 && size == |m| && Represents(o, buckets, m)
      && Covers(buckets, first, end) && first <= b < end
      && forall d :: (d == first || d == end - 1) && d != b ==> buckets[d] != []
    }

    /** Takes the node at `i` out of bucket `b`. */
    method TakeOut(b: nat, i: nat)
      requires Valid() && b < |buckets| && i < |buckets[b]|
      modifies this`buckets, this`size, this`m
      ensures Loose(b) && m == old(m) - {o.canon(old(buckets)[b][i].key)} && |buckets| == old(|buckets|)
    {
      ghost var c := o.canon(buckets[b][i].key);
      assert Fits(o, m, |buckets|, b, buckets[b][i]);
      RemoveRepresents(o, buckets, m, b, i);
      OneKeyLess(m, c);
      RestCovered(buckets, first, end, b, Cut(buckets[b], i));
      buckets := buckets[b := Cut(buckets[b], i)];
      m := m - {c};
      size := size - 1;
    }

    /** Gives up buckets that are no longer wanted. */
    method GiveUpBuckets(b: nat)
      requires Loose(b)
      modifies this`buckets, this`first, this`end
      ensures Valid() && |buckets| == Min(old(|buckets|), Wanted(size, maxLoad))
    {
      EnumeratesOnce(o, buckets, m);
      NoBucketsIffEmpty(size, maxLoad);
      var count := Wanted(size, maxLoad);
      if count < |buckets| {
        if count > 0 {
          RehashRepresents(o, buckets, m, count);
        }
        Rehash(count);
      } else {
        ShrinkRange(b);
      }
    }

    /** Bucket `b` may have lost its last node; the map did not. */
    method ShrinkRange(b: nat)
      requires Covers(buckets, first, end) && first <= b < end && Flatten(buckets) != []
      requires forall d :: (d == first || d == end - 1) && d != b ==> buckets[d] != []
      modifies this`first, this`end
      ensures Tight(buckets, first, end)
    {
      if buckets[b] == [] {
        ghost var some := WhereInFlatten(buckets, Flatten(buckets)[0]);
        assert buckets[some] != [];
        if b == end - 1 {
          while buckets[end - 1] == []
            invariant Covers(buckets, first, end) && first == old(first) && buckets[first] != [] && some < end
            decreases end
          {
            end := end - 1;
          }
        } else if b == first {
          while buckets[first] == []
            invariant Covers(buckets, first, end) && end == old(end) && buckets[end - 1] != [] && first <= some
            decreases end - first
          {
            first := first + 1;
          }
        }
      }
    }
  
    // ----- looking up

    /** Called with the lock held, which is given up around every call of user code; after an error it stays so. */
    method GetNodeEx(key: K) returns (code: int, b: nat, i: nat)
      requires Valid() && lock == 1
      modifies this`lock
      ensures lock == if code < 0 then 0 else 1
      ensures code == if Raises(key) then -1 else if o.canon(key) in m then 0 else 1
      ensures code == 0 ==> b < |buckets| && i < |buckets[b]| && buckets[b][i] == NodeOf(o, m, o.canon(key))
      ensures code == 0 ==> b == o.hash(key) % |buckets|
    {
      i := 0;
      if buckets == [] {
        return 1, 0, 0;
      }
      var hash := o.hash(key);
      b := hash % |buckets|;
      SearchIsLookup(o, buckets, m, key);
      while i < |buckets[b]|
        invariant i <= |buckets[b]| && lock == 1
        invariant forall j :: 0 <= j < i ==> Passed(o, buckets[b][j], hash, key)
      {
        var node := buckets[b][i];
        if node.hash == hash {
          lock := lock - 1;
          var answer := o.eq(node.key, key);
          if !answer.Different? {
            DecidesOnce(o, buckets[b], hash, key, i);
          }
          if answer.Broken? {
            return -1, b, i;
          }
          lock := lock + 1;
          if answer.Equal? {
            return 0, b, i;
          }
        }
        i := i + 1;
      }
      NoneRaises(o, buckets[b], hash, key);
      code := 1;
    }

    /** The node for `key`, made with `item` if there is none; for errors and the lock see `GetNodeEx`. */
    method GetOrCreate(key: K, item: V) returns (code: int, b: nat, i: nat)
      requires Valid() && lock == 1
      modifies this
      ensures Valid() && lock == if code < 0 then 0 else 1
      ensures code == if old(Raises(key)) then -1 else if o.canon(key) in old(m) then 0 else 1
      ensures code <= 0 ==> m == old(m)
      ensures code == 1 ==> m == old(m)[o.canon(key) := (key, item)]
      ensures code == 1 ==>
                |buckets| ==
                  if old(buckets) == [] then INITIAL_BUCKET_COUNT else Max(old(|buckets|), Wanted(|m|, maxLoad))
      ensures code >= 0 ==> b < |buckets| && i < |buckets[b]|
      ensures code >= 0 ==> o.canon(key) in m && buckets[b][i] == NodeOf(o, m, o.canon(key))
    {
      code, b, i := GetNodeEx(key);
      if code <= 0 {
        return;
      }
      Create(key, item);
      b, i := o.hash(key) % |buckets|, 0;
    }

    /** Makes room for one more node if the load demands it, and puts the node in front of its bucket. */
    method Create(key: K, item: V)
      requires Valid() && o.canon(key) !in m
      modifies this`buckets, this`first, this`end, this`size, this`m
      ensures Valid() && m == old(m)[o.canon(key) := (key, item)] && buckets != []
      ensures var bucket := buckets[o.hash(key) % |buckets|]; bucket != [] && bucket[0] == NodeOf(o, m, o.canon(key))
      ensures |buckets| ==
                if old(buckets) == [] then INITIAL_BUCKET_COUNT else Max(old(|buckets|), Wanted(size, maxLoad))
    {
      if buckets == [] {
        CreateFirst(key, item);
        return;
      }
      Grow();
      PutNode(key, item);
    }

    /** Puts a new node in front of its bucket. */
    method PutNode(key: K, item: V)
      requires Valid() && buckets != [] && o.canon(key) !in m
      modifies this`buckets, this`first, this`end, this`size, this`m
      ensures Valid() && m == old(m)[o.canon(key) := (key, item)] && |buckets| == old(|buckets|)
      ensures var bucket := buckets[o.hash(key) % |buckets|]; bucket != [] && bucket[0] == NodeOf(o, m, o.canon(key))
    {
      var hash := o.hash(key);
      var node := Node(key, hash, item);
      var b := hash % |buckets|;
      AddRepresents(o, buckets, m, key, item);
      buckets := AddTo(buckets, node);
      if b >= end {
        end := b + 1;
      } else if b < first {
        first := b;
      }
      size := size + 1;
      m := m[o.canon(key) := (key, item)];
    }

    method Grow()
      requires Valid() && buckets != []
      modifies this`buckets, this`first, this`end
      ensures Valid() && buckets != [] && |buckets| == Max(old(|buckets|), Wanted(size + 1, maxLoad))
    {
      var count := Wanted(size + 1, maxLoad);
      if count <= |buckets| {
        return;
      }
      InFlatten(buckets, first, buckets[first][0]);
      RehashRepresents(o, buckets, m, count);
      Rehash(count);
      assert Represents(o, buckets, m);
    }

    method CreateFirst(key: K, item: V)
      requires Valid() && buckets == []
      modifies this`buckets, this`first, this`end, this`size, this`m
      ensures Valid() && m == old(m)[o.canon(key) := (key, item)] && buckets != []
      ensures var bucket := buckets[o.hash(key) % |buckets|]; bucket != [] && bucket[0] == NodeOf(o, m, o.canon(key))
      ensures |buckets| == INITIAL_BUCKET_COUNT
    {
      var node := Node(key, o.hash(key), item);
      var b := node.hash % INITIAL_BUCKET_COUNT;
      AddRepresents(o, Empty<K, V>(INITIAL_BUCKET_COUNT), map[], key, item);
      buckets := AddTo(Empty(INITIAL_BUCKET_COUNT), node);
      first, end, size := b, b + 1, 1;
      m := map[o.canon(key) := (key, item)];
    }

    // ----- reading and writing

    method SetItem(key: K, item: V) returns (code: int)
      requires Valid() && lock == 0
      modifies this
      ensures Valid() && (lock == 0 <==> !old(Raises(key)))
      ensures code == (if old(Raises(key)) then -1 else 0)
      ensures code == -1 ==> m == old(m)
      ensures code == 0 ==>
                var c := o.canon(key);
                && c in m && m[c].1 == item && m[c].0 == (if c in old(m) then old(m)[c].0 else key)
                && m - {c} == old(m) - {c}
      ensures m == if code == 0 then Store(old(m), o.canon(key), key, item) else old(m)
    {
      lock := lock + 1;
      var b, i;
      code, b, i := GetOrCreate(key, item);
      if code < 0 {
        lock := lock - 1;
        return;
      }
      Replace(b, i, item, o.canon(key));
      lock := lock - 1;
      code := 0;
    }

    /** Stores an item in the node at `i` of bucket `b`, the one for keys equal to `c`. */
    method Replace(b: nat, i: nat, item: V, ghost c: K)
      requires Valid() && b < |buckets| && i < |buckets[b]| && c in m && buckets[b][i] == NodeOf(o, m, c)
      modifies this`buckets, this`m
      ensures Valid() && m == old(m)[c := (old(m)[c].0, item)]
    {
      ReplaceRepresents(o, buckets, m, b, i, item);
      assert m[c := (m[c].0, item)].Keys == m.Keys;
      m := m[c := (m[c].0, item)];
      buckets := buckets[b := buckets[b][i := buckets[b][i].(item := item)]];
    }

    /** Stores only under a new key; 1 and the item there is otherwise. */
    method SetNewItem(key: K, item: V) returns (code: int, oldItem: Option<V>)
      requires Valid() && lock == 0
      modifies this
      ensures Valid() && (lock == 0 <==> !old(Raises(key)))
      ensures var c := o.canon(key);
              if old(Raises(key)) then code == -1 && oldItem == None && m == old(m)
              else if c in old(m) then code == 1 && oldItem == Some(old(m)[c].1) && m == old(m)
              else code == 0 && oldItem == None && m == old(m)[c := (key, item)]
    {
      lock := lock + 1;
      var b, i;
      code, b, i := GetOrCreate(key, item);
      oldItem := None;
      if code < 0 {
        lock := lock - 1;
        return;
      }
      if code == 0 {
        oldItem := Some(buckets[b][i].item);
      }
      lock := lock - 1;
      code := 1 - code;
    }

    /** Stores only under a key there is already, and hands out the item that was there; 1 otherwise. */
    method SetOldItem(key: K, item: V) returns (code: int, oldItem: Option<V>)
      requires Valid() && lock == 0
      modifies this
      ensures Valid() && (lock == 0 <==> !old(Raises(key)))
      ensures var c := o.canon(key);
              if old(Raises(key)) then code == -1 && oldItem == None && m == old(m)
              else if c in old(m) then
                && code == 0 && oldItem == Some(old(m)[c].1) && m == Store(old(m), c, key, item)
                && c in m && m[c] == (old(m)[c].0, item) && m - {c} == old(m) - {c}
              else code == 1 && oldItem == None && m == old(m)
    {
      lock := lock + 1;
      var b, i;
      code, b, i := GetNodeEx(key);
      oldItem := None;
      if code == 0 {
        oldItem := Some(buckets[b][i].item);
        Replace(b, i, item, o.canon(key));
      }
      lock := lock - 1;
    }

    /** The item under the key, after storing `def` if there was none. */
    method SetDefault(key: K, def: V) returns (result: Option<V>)
      requires Valid() && lock == 0
      modifies this
      ensures Valid() && (lock == 0 <==> !old(Raises(key)))
      ensures var c := o.canon(key);
              if old(Raises(key)) then result == None && m == old(m)
              else c in m && result == Some(m[c].1) && m == if c in old(m) then old(m) else old(m)[c := (key, def)]
    {
      lock := lock + 1;
      var code, b, i := GetOrCreate(key, def);
      result := if code < 0 then None else Some(buckets[b][i].item);
      lock := lock - 1;
    }

    method GetDefault(key: K, def: V) returns (result: Option<V>)
      requires Valid() && lock == 0
      modifies this`lock
      ensures lock == 0 <==> !Raises(key)
      ensures var c := o.canon(key);
              result == if Raises(key) then None else if c in m then Some(m[c].1) else Some(def)
    {
      lock := lock + 1;
      var code, b, i := GetNodeEx(key);
      result := if code < 0 then None else if code == 1 then Some(def) else Some(buckets[b][i].item);
      lock := lock - 1;
    }

    /** Removes an entry; without one it is an error, unless there is a default. */
    method Pop(key: K, def: Option<V>) returns (result: Option<V>)
      requires Valid() && lock == 0
      modifies this
      ensures Valid() && lock == 0
      ensures var c := o.canon(key);
              if old(Raises(key)) then result == None && m == old(m)
              else if c in old(m) then result == Some(old(m)[c].1) && m == old(m) - {c}
              else result == def && m == old(m)
      ensures m != old(m) ==> |buckets| == Min(old(|buckets|), Wanted(|m|, maxLoad))
    {
      lock := lock + 1;
      var code, b, i := GetNodeEx(key);
      if code < 0 {
        return None;
      }
      if code == 1 {
        lock := lock - 1;
        return def;
      }
      result := Some(buckets[b][i].item);
      TakeOut(b, i);
      GiveUpBuckets(b);
      lock := lock - 1;
    }

    /** As `Pop`, but a map without any bucket is left with the lock still held. */
    method DelItem(key: K) returns (code: int)
      requires Valid() && lock == 0
      modifies this
      ensures Valid() && (lock == 0 <==> old(m) != map[])
      ensures var c := o.canon(key);
              if old(Raises(key)) then code == -1 && m == old(m)
              else if c in old(m) then code == 0 && m == old(m) - {c}
              else code == 1 && m == old(m)
      ensures m != old(m) ==> |buckets| == Min(old(|buckets|), Wanted(|m|, maxLoad))
    {
      lock := lock + 1;
      if buckets == [] {
        return 1;
      }
      NotEmpty();
      var b, i;
      code, b, i := GetNodeEx(key);
      if code < 0 {
        return;
      }
      if code == 0 {
        TakeOut(b, i);
        GiveUpBuckets(b);
      }
      lock := lock - 1;
    }

    lemma NotEmpty()
      requires Valid() && buckets != []
      ensures m != map[] && Flatten(buckets) != []
    {
      var node := buckets[first][0];
      assert Fits(o, m, |buckets|, first, node);
      InFlatten(buckets, first, node);
    }

    // ----- entries by index

    /** The entries in the order all of the map's views enumerate them. */
    ghost function Entries(): seq<Node<K, V>>
      reads this
    {
      Flatten(buckets)
    }

    /** Keys, items and pairs at an index all come from this node. */
    method GetNodeIndex(index: nat) returns (node: Node<K, V>)
      requires Valid() && index < size
      ensures index < |Entries()| && node == Entries()[index]
    {
      SizeIsEntries();
      FlattenNothing(buckets, 0, first);
      var b, i, left := first, 0, index;
      while left > 0
        invariant first <= b < |buckets| && i < |buckets[b]|
        invariant |Flatten(buckets[..b])| + i + left == index
        decreases left
      {
        left := left - 1;
        if i + 1 < |buckets[b]| {
          i := i + 1;
        } else {
          FlattenNext(buckets, b);
          b := NextBucket(b + 1, index - left);
          i := 0;
        }
      }
      node := buckets[b][i];
      FlattenAt(buckets, b, i);
    }

    /**
     The index of a key among the entries: -1 if there is none, -2 after an error. But a key whose hash raises is
     reported as one that is not there, so -2 says no more than that a comparison raised, and -1 may be an error too.
     */
    method FindKeyIndex(key: K) returns (runsOff: bool, index: int)
      requires Valid() && lock == 0
      modifies this`lock
      ensures lock == 0 <==> !(o.hashable(key) && Raises(key))
      ensures index == -2 <==> o.hashable(key) && Raises(key)
      ensures index == -1 <==> !o.hashable(key) || (!Raises(key) && o.canon(key) !in m)
      ensures runsOff <==> o.hashable(key) && !Raises(key) && o.canon(key) in m && buckets[0] == []
      ensures index >= 0 && !runsOff ==> IsIndexOf(index, key)
    {
      if !o.hashable(key) {
        return false, -1;
      }
      runsOff, index := FindKeyIndexWithKnownBucket(key);
    }

    /**
     The index of a key whose hash is known. The search starts to count at the
     first bucket in use, but takes the position of the key's bucket from there too. So it ends at the key's node, and
     then with its index, exactly if the very first bucket is in use; otherwise it runs off a list or the bucket array.
     */
    method FindKeyIndexWithKnownBucket(key: K) returns (runsOff: bool, index: int)
      requires Valid() && lock == 0
      modifies this`lock
      ensures lock == 0 <==> !Raises(key)
      ensures Raises(key) ==> index == -2 && !runsOff
      ensures !Raises(key) && o.canon(key) !in m ==> index == -1 && !runsOff
      ensures !Raises(key) && o.canon(key) in m ==> index >= 0 && buckets != [] && (runsOff <==> buckets[0] == [])
      ensures !Raises(key) && o.canon(key) in m && !runsOff ==> IsIndexOf(index, key)
    {
      lock := lock + 1;
      var code, b, i := GetNodeEx(key);
      lock := lock - 1;
      if code != 0 {
        return false, if code < 0 then -2 else -1;
      }
      assert first > 0 <==> buckets[0] == [];
      runsOff, index := CountBuckets(first + b);
      if runsOff {
        return;
      }
      var j := 0;
      while !(first + b == b && j == i)
        invariant j <= |buckets[first + b]| && (first == 0 ==> j <= i)
        decreases |buckets[first + b]| - j
      {
        if j >= |buckets[first + b]| {
          return true, index;
        }
        j := j + 1;
      }
      index := index + j;
      FlattenAt(buckets, b, i);
      OneIndex(index);
    }

    /** Entry number `index`, and no other one, is for keys equal to `key`. */
    ghost predicate IsIndexOf(index: int, key: K)
      reads this
    {
      var c := o.canon(key);
      && c in m && 0 <= index < |Entries()| && Entries()[index] == NodeOf(o, m, c)
      && forall k :: 0 <= k < |Entries()| && o.canon(Entries()[k].key) == c ==> k == index
    }

    /** Counts the nodes from the first bucket in use up to bucket `limit`, if there is such a bucket. */
    method CountBuckets(limit: nat) returns (runsOff: bool, count: nat)
      requires Valid() && buckets != [] && first <= limit
      ensures runsOff <==> limit >= |buckets|
      ensures !runsOff ==> count == |Flatten(buckets[..limit])|
    {
      FlattenNothing(buckets, 0, first);
      var d := first;
      count := 0;
      while d < |buckets| && d != limit
        invariant first <= d <= limit && d <= |buckets| && count == |Flatten(buckets[..d])|
      {
        FlattenNext(buckets, d);
        count := count + |buckets[d]|;
        d := d + 1;
      }
      runsOff := d >= |buckets|;
    }

    lemma OneIndex(index: int)
      requires Valid() && 0 <= index < |Entries()|
      ensures forall k :: 0 <= k < |Entries()| && o.canon(Entries()[k].key) == o.canon(Entries()[index].key) ==>
                            k == index
    {
      if buckets != [] {
        EnumeratesOnce(o, buckets, m);
      }
    }

    /**
     Takes out whatever entry the very first bucket starts with. A map that is not empty but does not use that bucket
     makes it follow a null pointer.
     */
    method PopSomething() returns (nullNode: bool, entry: Option<(K, V)>)
      requires Valid()
      modifies this`buckets, this`first, this`end, this`size, this`m
      ensures nullNode <==> old(m) != map[] && old(first) != 0
      ensures entry == None <==> nullNode || old(m) == map[]
      ensures entry.None? ==> m == old(m) && buckets == old(buckets)
      ensures entry.Some? ==>
                && Valid()
                && var c := o.canon(entry.value.0); c in old(m) && old(m)[c] == entry.value && m == old(m) - {c}
    {
      if buckets == [] {
        return false, None;
      }
      NotEmpty();
      if buckets[0] == [] {
        return true, None;
      }
      var node := buckets[0][0];
      assert Fits(o, m, |buckets|, 0, node);
      TakeOut(0, 0);
      GiveUpBuckets(0);
      return false, Some((node.key, node.item));
    }

    lemma SizeIsEntries()
      requires Valid()
      ensures size == |Entries()|
    {
      if buckets != [] {
        EnumeratesOnce(o, buckets, m);
      }
    }

    /** The next bucket that holds a node, while not all nodes were passed. */
    method NextBucket(from: nat, ghost passed: nat) returns (b: nat)
      requires Valid() && buckets != [] && 0 < from <= |buckets| && passed < size
      requires |Flatten(buckets[..from])| == passed
      ensures from <= b < |buckets| && buckets[b] != [] && |Flatten(buckets[..b])| == passed
    {
      SizeIsEntries();
      b := from;
      assert buckets[..|buckets|] == buckets;
      while buckets[b] == []
        invariant from <= b < |buckets| && |Flatten(buckets[..b])| == passed
        decreases |buckets| - b
      {
        FlattenNothing(buckets, b, b + 1);
        b := b + 1;
      }
    }
  }

  lemma {:induction false} FlattenAt<T>(s: seq<seq<T>>, b: nat, i: nat)
    requires b < |s| && i < |s[b]|
    ensures |Flatten(s[..b])| + i < |Flatten(s)| && Flatten(s)[|Flatten(s[..b])| + i] == s[b][i]
    decreases b
  {
    if b > 0 {
      FlattenAt(s[1..], b - 1, i);
      assert s[..b][1..] == s[1..][..b - 1] && s[1..][b - 1] == s[b];
    }
  }

  /** The nodes of the buckets in use, in order, each put in front of its new bucket. */
  method Redistribute<K, V>(buckets: Buckets<K, V>, first: nat, end: nat, count: nat) returns (r: Buckets<K, V>)
    requires Covers(buckets, first, end) && count > 0
    ensures r == AddAll(Empty(count), Flatten(buckets))
  {
    r := Empty(count);
    FlattenNothing(buckets, 0, first);
    var b := first;
    while b < end
      invariant first <= b <= end <= |buckets| && |r| == count
      invariant r == AddAll(Empty(count), Flatten(buckets[..b]))
    {
      r := MoveNodes(r, buckets[b], Flatten(buckets[..b]));
      FlattenNext(buckets, b);
      b := b + 1;
    }
    FlattenNothing(buckets, end, |buckets|);
    assert buckets[..|buckets|] == buckets;
  }

  /** Puts the nodes of one list, in their order, each in front of its new bucket; `done` are already there. */
  method MoveNodes<K, V>(into: Buckets<K, V>, list: Bucket<K, V>, ghost done: seq<Node<K, V>>)
    returns (r: Buckets<K, V>)
    requires |into| > 0 && into == AddAll(Empty(|into|), done)
    ensures |r| == |into| && r == AddAll(Empty(|into|), done + list)
  {
    r := into;
    var i := 0;
    assert done + [] == done;
    while i < |list|
      invariant 0 <= i <= |list| && |r| == |into| && r == AddAll(Empty(|into|), done + list[..i])
    {
      AddAllConcat(Empty(|into|), done + list[..i], [list[i]]);
      assert done + list[..i + 1] == (done + list[..i]) + [list[i]] && [list[i]][1..] == [];
      r := AddTo(r, list[i]);
      i := i + 1;
    }
    assert list[..i] == list;
  }

  lemma {:induction false} AddedStays<K, V>(buckets: Buckets<K, V>, nodes: seq<Node<K, V>>, node: Node<K, V>)
    requires |buckets| > 0 && (node in buckets[node.hash % |buckets|] || node in nodes)
    ensures node in AddAll(buckets, nodes)[node.hash % |buckets|]
    decreases |nodes|
  {
    if nodes != [] {
      AddedStays(AddTo(buckets, nodes[0]), nodes[1..], node);
    }
  }

  lemma NothingLost<K, V>(count: nat, nodes: seq<Node<K, V>>)
    requires count > 0 && nodes != []
    ensures Flatten(AddAll(Empty<K, V>(count), nodes)) != []
  {
    var node := nodes[0];
    AddedStays(Empty<K, V>(count), nodes, node);
    InFlatten(AddAll(Empty<K, V>(count), nodes), node.hash % count, node);
  }
}
