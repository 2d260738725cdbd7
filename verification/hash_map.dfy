/** map.c: buckets of chains, grown by doubling.  A chain is the sequence of its entries. */
module HashMaps {
  import opened Common
  import opened Words
  import opened Bits

  /** `func_hash_key` and `func_match_key`. */
  datatype Keys<!K> = Keys(hash: K -> nat, same: (K, K) -> bool)

  /** Matching keys hash equally, and matching is an equivalence. */
  ghost predicate KeysOk<K(!new)>(f: Keys<K>) {
    && (forall a, b :: f.same(a, b) ==> f.hash(a) == f.hash(b))
    && (forall a :: f.same(a, a))
    && (forall a, b :: f.same(a, b) ==> f.same(b, a))
    && (forall a, b, c :: f.same(a, b) && f.same(b, c) ==> f.same(a, c))
  }

  datatype Entry<K, V> = Entry(hash: nat, key: K, value: V)

  // ---- bucket numbers

  ghost predicate PowerOfTwo(n: nat) {
    exists k :: n == Pow2(k)
  }

  /** `map_bucket_idx`. */
  function BucketIdx(hash: nat, nbuckets: nat): nat
    requires nbuckets > 0
  {
    BitAnd(hash, nbuckets - 1)
  }

  /** The mask is a remainder because the number of buckets is a power of two. */
  lemma IdxIs(hash: nat, nbuckets: nat)
    requires PowerOfTwo(nbuckets)
    ensures nbuckets > 0 && BucketIdx(hash, nbuckets) == hash % nbuckets < nbuckets
  {
    var k :| nbuckets == Pow2(k);
    MaskIsRemainder(hash, k);
    DivMod(hash, nbuckets);
  }

  // ---- the entries of a key

  /** The test of `map_getmatch`. */
  predicate Hits<K, V>(f: Keys<K>, e: Entry<K, V>, hash: nat, key: K) {
    e.hash == hash && f.same(e.key, key)
  }

  /** The values a chain has for a key, in order. */
  function ValuesIn<K, V>(f: Keys<K>, chain: seq<Entry<K, V>>, key: K): seq<V> {
    if chain == [] then []
    else (if Hits(f, chain[0], f.hash(key), key) then [chain[0].value] else []) + ValuesIn(f, chain[1..], key)
  }

  lemma {:induction false} ValuesAppend<K, V>(f: Keys<K>, a: seq<Entry<K, V>>, b: seq<Entry<K, V>>, key: K)
    ensures ValuesIn(f, a + b, key) == ValuesIn(f, a, key) + ValuesIn(f, b, key)
  {
    hide Hits, ValuesIn;
    if a == [] {
      assert a + b == b;
      NoValuesIn<K, V>(f, key);
    } else {
      ValuesAppend(f, a[1..], b, key);
      assert (a + b)[0] == a[0] && (a + b)[1..] == a[1..] + b;
      ValuesHead(f, a, key);
      ValuesHead(f, a + b, key);
      Joined(if Hits(f, a[0], f.hash(key), key) then [a[0].value] else [], ValuesIn(f, a[1..], key), ValuesIn(f, b, key));
    }
  }

  lemma NoValuesIn<K, V>(f: Keys<K>, key: K)
    ensures ValuesIn<K, V>(f, [], key) == []
  {
  }

  lemma ValuesHead<K, V>(f: Keys<K>, chain: seq<Entry<K, V>>, key: K)
    requires chain != []
    ensures ValuesIn(f, chain, key) == (if Hits(f, chain[0], f.hash(key), key) then [chain[0].value] else []) + ValuesIn(f, chain[1..], key)
  {
  }

  lemma Joined<T>(a: seq<T>, b: seq<T>, c: seq<T>)
    ensures a + (b + c) == a + b + c
  {
  }

  function Flatten<K, V>(buckets: seq<seq<Entry<K, V>>>): seq<Entry<K, V>> {
    if buckets == [] then [] else buckets[0] + Flatten(buckets[1..])
  }

  lemma {:induction false} FlattenAppend<K, V>(a: seq<seq<Entry<K, V>>>, b: seq<seq<Entry<K, V>>>)
    ensures Flatten(a + b) == Flatten(a) + Flatten(b)
  {
    if a == [] {
      assert a + b == b;
    } else {
      FlattenAppend(a[1..], b);
      assert (a + b)[1..] == a[1..] + b;
      Assoc(a[0], Flatten(a[1..]), Flatten(b));
    }
  }

  /** Every entry is in the bucket its hash says, and carries the hash of its key. */
  predicate AllInPlace<K, V>(f: Keys<K>, buckets: seq<seq<Entry<K, V>>>) {
    forall b, i | 0 <= b < |buckets| && 0 <= i < |buckets[b]| :: InPlace(f, buckets[b][i], b, |buckets|)
  }

  predicate InPlace<K, V>(f: Keys<K>, e: Entry<K, V>, b: nat, n: nat)
    requires n > 0
  {
    BucketIdx(e.hash, n) == b && e.hash == f.hash(e.key)
  }

  /** The chain a key would be in. */
  function ChainOf<K, V>(f: Keys<K>, buckets: seq<seq<Entry<K, V>>>, key: K): seq<Entry<K, V>> {
    if |buckets| == 0 then []
    else
      var n := BucketIdx(f.hash(key), |buckets|);
      if n < |buckets| then buckets[n] else []
  }

  /** The values of a key, in order: what the map means. */
  function ValuesOf<K, V>(f: Keys<K>, buckets: seq<seq<Entry<K, V>>>, key: K): seq<V> {
    ValuesIn(f, ChainOf(f, buckets, key), key)
  }

  /** `map_add_node`. */
  function WithNode<K, V>(buckets: seq<seq<Entry<K, V>>>, e: Entry<K, V>, append: bool): (r: seq<seq<Entry<K, V>>>)
    requires PowerOfTwo(|buckets|)
    ensures |r| == |buckets|
  {
    IdxIs(e.hash, |buckets|);
    var n := BucketIdx(e.hash, |buckets|);
    buckets[n := if append then buckets[n] + [e] else [e] + buckets[n]]
  }

  lemma HitsIs<K(!new), V>(f: Keys<K>, e: Entry<K, V>, key: K)
    requires KeysOk(f) && e.hash == f.hash(e.key)
    ensures Hits(f, e, f.hash(key), key) <==> f.same(e.key, key)
  {
  }

  lemma OneValue<K, V>(f: Keys<K>, e: Entry<K, V>, key: K)
    ensures ValuesIn(f, [e], key) == if Hits(f, e, f.hash(key), key) then [e.value] else []
  {
    assert [e][1..] == [];
  }

  /** A new entry goes in front of, or behind, the values of its key and leaves other keys alone. */
  lemma WithNodeValues<K(!new), V>(f: Keys<K>, buckets: seq<seq<Entry<K, V>>>, e: Entry<K, V>, append: bool, key: K)
    requires PowerOfTwo(|buckets|) && e.hash == f.hash(e.key) && KeysOk(f)
    ensures ValuesOf(f, WithNode(buckets, e, append), key) ==
      (if !f.same(e.key, key) then ValuesOf(f, buckets, key)
       else if append then ValuesOf(f, buckets, key) + [e.value] else [e.value] + ValuesOf(f, buckets, key))
  {
    hide ValuesIn, BucketIdx, PowerOfTwo, KeysOk;
    IdxIs(e.hash, |buckets|);
    IdxIs(f.hash(key), |buckets|);
    OneValue(f, e, key);
    HitsIs(f, e, key);
    var chain := ChainOf(f, buckets, key);
    ValuesAppend(f, chain, [e], key);
    ValuesAppend(f, [e], chain, key);
  }

  lemma WithNodePlaced<K, V>(f: Keys<K>, buckets: seq<seq<Entry<K, V>>>, e: Entry<K, V>, append: bool)
    requires PowerOfTwo(|buckets|) && e.hash == f.hash(e.key) && AllInPlace(f, buckets)
    ensures AllInPlace(f, WithNode(buckets, e, append)) && |WithNode(buckets, e, append)| == |buckets|
  {
    IdxIs(e.hash, |buckets|);
    hide BucketIdx, PowerOfTwo;
  }

  lemma {:induction false} FlattenUpdate<K, V>(buckets: seq<seq<Entry<K, V>>>, n: nat, chain: seq<Entry<K, V>>)
    requires n < |buckets|
    ensures Flatten(buckets) == Flatten(buckets[..n]) + buckets[n] + Flatten(buckets[n + 1..])
    ensures Flatten(buckets[n := chain]) == Flatten(buckets[..n]) + chain + Flatten(buckets[n + 1..])
  {
    hide Flatten;
    assert buckets == buckets[..n] + ([buckets[n]] + buckets[n + 1..]);
    assert buckets[n := chain] == buckets[..n] + ([chain] + buckets[n + 1..]);
    FlattenAppend(buckets[..n], [buckets[n]] + buckets[n + 1..]);
    FlattenAppend(buckets[..n], [chain] + buckets[n + 1..]);
    FlattenCons(buckets[n], buckets[n + 1..]);
    FlattenCons(chain, buckets[n + 1..]);
  }

  lemma FlattenCons<K, V>(chain: seq<Entry<K, V>>, rest: seq<seq<Entry<K, V>>>)
    ensures Flatten([chain] + rest) == chain + Flatten(rest)
  {
    assert ([chain] + rest)[1..] == rest;
  }

  lemma WithNodeFlat<K, V>(buckets: seq<seq<Entry<K, V>>>, e: Entry<K, V>, append: bool)
    requires PowerOfTwo(|buckets|)
    ensures multiset(Flatten(WithNode(buckets, e, append))) == multiset(Flatten(buckets)) + multiset{e}
    ensures |Flatten(WithNode(buckets, e, append))| == |Flatten(buckets)| + 1
  {
    IdxIs(e.hash, |buckets|);
    var n := BucketIdx(e.hash, |buckets|);
    var chain := if append then buckets[n] + [e] else [e] + buckets[n];
    FlattenUpdate(buckets, n, chain);
    hide Flatten, BucketIdx, PowerOfTwo;
  }

  // ---- growing

  function Rev<T>(s: seq<T>): seq<T> {
    if s == [] then [] else Rev(s[1..]) + [s[0]]
  }

  lemma {:induction false} RevAppend<T>(a: seq<T>, b: seq<T>)
    ensures Rev(a + b) == Rev(b) + Rev(a)
  {
    if a == [] {
      assert a + b == b;
    } else {
      RevAppend(a[1..], b);
      assert (a + b)[1..] == a[1..] + b;
    }
  }

  lemma RevCons<T>(x: T, s: seq<T>)
    ensures Rev([x] + s) == Rev(s) + [x]
  {
    assert ([x] + s)[1..] == s;
  }

  lemma {:induction false} RevTwice<T>(s: seq<T>)
    ensures Rev(Rev(s)) == s
  {
    if s != [] {
      RevTwice(s[1..]);
      RevAppend(Rev(s[1..]), [s[0]]);
      assert Rev([s[0]]) == [s[0]] by { assert [s[0]][1..] == []; }
    }
  }

  lemma ValuesCons<K, V>(f: Keys<K>, chain: seq<Entry<K, V>>, key: K)
    requires chain != []
    ensures var rest := ValuesIn(f, chain[1..], key);
      ValuesIn(f, chain, key) == if Hits(f, chain[0], f.hash(key), key) then [chain[0].value] + rest else rest
  {
    hide Hits;
  }

  lemma {:induction false} RevValues<K, V>(f: Keys<K>, chain: seq<Entry<K, V>>, key: K)
    ensures ValuesIn(f, Rev(chain), key) == Rev(ValuesIn(f, chain, key))
  {
    hide Hits;
    if chain != [] {
      RevValues(f, chain[1..], key);
      assert Rev(chain) == Rev(chain[1..]) + [chain[0]];
      ValuesAppend(f, Rev(chain[1..]), [chain[0]], key);
      OneValue(f, chain[0], key);
      ValuesCons(f, chain, key);
      RevCons(chain[0].value, ValuesIn(f, chain[1..], key));
      hide Rev;
    }
  }

  /** The list the entries are taken to: each chain turned around. */
  function AllReversed<K, V>(buckets: seq<seq<Entry<K, V>>>): seq<Entry<K, V>> {
    if buckets == [] then [] else Rev(buckets[0]) + AllReversed(buckets[1..])
  }

  lemma {:induction false} RevMembers<T>(s: seq<T>)
    ensures multiset(Rev(s)) == multiset(s) && |Rev(s)| == |s|
  {
    if s != [] {
      RevMembers(s[1..]);
      assert s == [s[0]] + s[1..];
    }
  }

  lemma {:induction false} ReversedMembers<K, V>(buckets: seq<seq<Entry<K, V>>>)
    ensures multiset(AllReversed(buckets)) == multiset(Flatten(buckets)) && |AllReversed(buckets)| == |Flatten(buckets)|
  {
    if buckets != [] {
      ReversedMembers(buckets[1..]);
      RevMembers(buckets[0]);
      hide Rev;
    }
  }

  /** The values of a key in the list: those of its chain, turned around. */
  lemma {:induction false} ReversedValues<K, V>(f: Keys<K>, buckets: seq<seq<Entry<K, V>>>, from: nat, key: K)
    requires AllInPlace(f, buckets) && PowerOfTwo(|buckets|) && from <= |buckets|
    ensures ValuesIn(f, AllReversed(buckets[from..]), key) ==
      if from <= BucketIdx(f.hash(key), |buckets|) then Rev(ValuesOf(f, buckets, key)) else []
    decreases |buckets| - from
  {
    hide *;
    IdxIs(f.hash(key), |buckets|);
    ValuesOfBucket(f, buckets, key);
    NothingReversed<K, V>(f, key);
    if from < |buckets| {
      ReversedValues(f, buckets, from + 1, key);
      ReversedNext(buckets, from);
      ValuesAppend(f, Rev(buckets[from]), AllReversed(buckets[from + 1..]), key);
      RevValues(f, buckets[from], key);
      if from != BucketIdx(f.hash(key), |buckets|) {
        NoValues(f, buckets, from, |buckets[from]|, key);
        assert buckets[from][..|buckets[from]|] == buckets[from];
      }
    } else {
      assert buckets[from..] == [];
    }
  }

  lemma ValuesOfBucket<K, V>(f: Keys<K>, buckets: seq<seq<Entry<K, V>>>, key: K)
    requires |buckets| > 0 && BucketIdx(f.hash(key), |buckets|) < |buckets|
    ensures ValuesOf(f, buckets, key) == ValuesIn(f, buckets[BucketIdx(f.hash(key), |buckets|)], key)
  {
  }

  lemma NothingReversed<K, V>(f: Keys<K>, key: K)
    ensures ValuesIn(f, AllReversed<K, V>([]), key) == [] && Rev<V>([]) == []
  {
  }

  lemma ReversedNext<K, V>(buckets: seq<seq<Entry<K, V>>>, from: nat)
    requires from < |buckets|
    ensures AllReversed(buckets[from..]) == Rev(buckets[from]) + AllReversed(buckets[from + 1..])
  {
    assert buckets[from..][1..] == buckets[from + 1..];
  }

  /** A chain has no values of a key that belongs elsewhere. */
  lemma {:induction false} NoValues<K, V>(f: Keys<K>, buckets: seq<seq<Entry<K, V>>>, b: nat, n: nat, key: K)
    requires AllInPlace(f, buckets) && b < |buckets| && n <= |buckets[b]| && b != BucketIdx(f.hash(key), |buckets|)
    ensures ValuesIn(f, buckets[b][..n], key) == []
  {
    if n > 0 {
      var chain := buckets[b];
      NoValues(f, buckets, b, n - 1, key);
      assert chain[..n] == chain[..n - 1] + [chain[n - 1]];
      ValuesAppend(f, chain[..n - 1], [chain[n - 1]], key);
      OneValue(f, chain[n - 1], key);
      assert InPlace(f, chain[n - 1], b, |buckets|);
    }
  }

  function Empty<K, V>(n: nat): seq<seq<Entry<K, V>>> {
    seq(n, _ => [])
  }

  /** The second loop: the entries of the list put in front of their new chains. */
  function Reinserted<K, V>(buckets: seq<seq<Entry<K, V>>>, nodes: seq<Entry<K, V>>): (r: seq<seq<Entry<K, V>>>)
    requires PowerOfTwo(|buckets|)
    ensures |r| == |buckets|
    decreases |nodes|
  {
    if nodes == [] then buckets else Reinserted(WithNode(buckets, nodes[0], false), nodes[1..])
  }

  lemma {:induction false} ReinsertedIs<K(!new), V>(f: Keys<K>, buckets: seq<seq<Entry<K, V>>>, nodes: seq<Entry<K, V>>)
    requires PowerOfTwo(|buckets|) && KeysOk(f) && AllInPlace(f, buckets)
    requires forall i | 0 <= i < |nodes| :: nodes[i].hash == f.hash(nodes[i].key)
    ensures AllInPlace(f, Reinserted(buckets, nodes))
    ensures multiset(Flatten(Reinserted(buckets, nodes))) == multiset(Flatten(buckets)) + multiset(nodes)
    ensures |Flatten(Reinserted(buckets, nodes))| == |Flatten(buckets)| + |nodes|
    decreases |nodes|
  {
    hide PowerOfTwo, Flatten, AllInPlace;
    if nodes != [] {
      var next := WithNode(buckets, nodes[0], false);
      WithNodePlaced(f, buckets, nodes[0], false);
      WithNodeFlat(buckets, nodes[0], false);
      hide WithNode;
      ReinsertedIs(f, next, nodes[1..]);
      assert nodes == [nodes[0]] + nodes[1..];
    }
  }

  lemma {:induction false} ReinsertedValues<K(!new), V>(f: Keys<K>, buckets: seq<seq<Entry<K, V>>>, nodes: seq<Entry<K, V>>, key: K)
    requires PowerOfTwo(|buckets|) && KeysOk(f)
    requires forall i | 0 <= i < |nodes| :: nodes[i].hash == f.hash(nodes[i].key)
    ensures ValuesOf(f, Reinserted(buckets, nodes), key) == Rev(ValuesIn(f, nodes, key)) + ValuesOf(f, buckets, key)
    decreases |nodes|
  {
    hide PowerOfTwo, KeysOk, Hits, Reinserted, Rev, ValuesIn, ValuesOf, WithNode;
    if nodes != [] {
      var e, rest := nodes[0], nodes[1..];
      HitsIs(f, e, key);
      WithNodeValues(f, buckets, e, false, key);
      ReinsertedCons(buckets, nodes);
      ReinsertedValues(f, WithNode(buckets, e, false), rest, key);
      ValuesCons(f, nodes, key);
      RevCons(e.value, ValuesIn(f, rest, key));
      Assoc(Rev(ValuesIn(f, rest, key)), [e.value], ValuesOf(f, buckets, key));
    } else {
      ReinsertedNone(f, buckets, key);
    }
  }

  lemma ReinsertedCons<K, V>(buckets: seq<seq<Entry<K, V>>>, nodes: seq<Entry<K, V>>)
    requires PowerOfTwo(|buckets|) && nodes != []
    ensures Reinserted(buckets, nodes) == Reinserted(WithNode(buckets, nodes[0], false), nodes[1..])
  {
    hide WithNode, PowerOfTwo;
  }

  lemma ReinsertedNone<K, V>(f: Keys<K>, buckets: seq<seq<Entry<K, V>>>, key: K)
    requires PowerOfTwo(|buckets|)
    ensures Reinserted(buckets, []) == buckets && Rev(ValuesIn(f, [], key)) + ValuesOf(f, buckets, key) == ValuesOf(f, buckets, key)
  {
    hide ValuesOf;
  }

  lemma Assoc<T>(a: seq<T>, b: seq<T>, c: seq<T>)
    ensures (a + b) + c == a + (b + c)
  {
  }

  lemma {:induction false} EmptyFlat<K, V>(n: nat)
    ensures Flatten(Empty<K, V>(n)) == []
  {
    if n > 0 {
      EmptyFlat<K, V>(n - 1);
      assert Empty<K, V>(n)[1..] == Empty<K, V>(n - 1);
    }
  }

  /** What `map_resize` makes of the buckets. */
  function Resized<K, V>(buckets: seq<seq<Entry<K, V>>>, n: nat): seq<seq<Entry<K, V>>>
    requires PowerOfTwo(n)
  {
    Reinserted(Empty(n), AllReversed(buckets))
  }

  /** Growing is invisible: it keeps all entries, and the values of every key in their order. */
  lemma ResizeKeeps<K(!new), V>(f: Keys<K>, buckets: seq<seq<Entry<K, V>>>, n: nat)
    requires KeysOk(f) && AllInPlace(f, buckets) && (|buckets| == 0 || PowerOfTwo(|buckets|)) && PowerOfTwo(n)
    ensures AllInPlace(f, Resized(buckets, n)) && |Resized(buckets, n)| == n
    ensures multiset(Flatten(Resized(buckets, n))) == multiset(Flatten(buckets)) && |Flatten(Resized(buckets, n))| == |Flatten(buckets)|
    ensures forall key :: ValuesOf(f, Resized(buckets, n), key) == ValuesOf(f, buckets, key)
  {
    var nodes, none := AllReversed(buckets), Empty<K, V>(n);
    ReversedMembers(buckets);
    HashesOk(f, buckets);
    EmptyFlat<K, V>(n);
    assert AllInPlace(f, none);
    hide AllReversed, Flatten;
    forall i | 0 <= i < |nodes|
      ensures nodes[i].hash == f.hash(nodes[i].key)
    {
      assert nodes[i] in multiset(nodes);
    }
    ReinsertedIs(f, none, nodes);
    hide AllInPlace, KeysOk, Reinserted, ValuesOf, PowerOfTwo;
    forall key
      ensures ValuesOf(f, Resized(buckets, n), key) == ValuesOf(f, buckets, key)
    {
      ReinsertedValues(f, none, nodes, key);
      EmptyValues<K, V>(f, n, key);
      ListValues(f, buckets, key);
      RevTwice(ValuesOf(f, buckets, key));
    }
  }

  lemma EmptyValues<K, V>(f: Keys<K>, n: nat, key: K)
    ensures ValuesOf(f, Empty<K, V>(n), key) == []
  {
    assert ChainOf(f, Empty<K, V>(n), key) == [];
  }

  lemma ListValues<K, V>(f: Keys<K>, buckets: seq<seq<Entry<K, V>>>, key: K)
    requires AllInPlace(f, buckets) && (|buckets| == 0 || PowerOfTwo(|buckets|))
    ensures ValuesIn(f, AllReversed(buckets), key) == Rev(ValuesOf(f, buckets, key))
  {
    if |buckets| > 0 {
      ReversedValues(f, buckets, 0, key);
      assert buckets[0..] == buckets;
    }
  }

  lemma HashesOk<K, V>(f: Keys<K>, buckets: seq<seq<Entry<K, V>>>)
    requires AllInPlace(f, buckets)
    ensures forall e | e in multiset(Flatten(buckets)) :: e.hash == f.hash(e.key)
  {
    forall e | e in multiset(Flatten(buckets))
      ensures e.hash == f.hash(e.key)
    {
      assert e in Flatten(buckets);
      FlattenHas(buckets, e);
      var b, i :| 0 <= b < |buckets| && 0 <= i < |buckets[b]| && buckets[b][i] == e;
      assert InPlace(f, e, b, |buckets|);
    }
  }

  lemma {:induction false} FlattenHas<K, V>(buckets: seq<seq<Entry<K, V>>>, e: Entry<K, V>)
    requires e in Flatten(buckets)
    ensures exists b, i :: 0 <= b < |buckets| && 0 <= i < |buckets[b]| && buckets[b][i] == e
  {
    if e in buckets[0] {
      var i :| 0 <= i < |buckets[0]| && buckets[0][i] == e;
    } else {
      FlattenHas(buckets[1..], e);
      var b, i :| 0 <= b < |buckets[1..]| && 0 <= i < |buckets[1..][b]| && buckets[1..][b][i] == e;
      assert buckets[b + 1][i] == e;
    }
  }

  // ---- taking out

  function Without<T>(s: seq<T>, i: nat): seq<T>
    requires i < |s|
  {
    s[..i] + s[i + 1..]
  }

  lemma WithoutValues<K, V>(f: Keys<K>, chain: seq<Entry<K, V>>, i: nat, key: K)
    requires i < |chain|
    ensures ValuesIn(f, chain, key) == ValuesIn(f, chain[..i], key) + ValuesIn(f, [chain[i]], key) + ValuesIn(f, chain[i + 1..], key)
    ensures ValuesIn(f, Without(chain, i), key) == ValuesIn(f, chain[..i], key) + ValuesIn(f, chain[i + 1..], key)
  {
    hide ValuesIn;
    assert chain == chain[..i] + ([chain[i]] + chain[i + 1..]);
    ValuesAppend(f, chain[..i], [chain[i]] + chain[i + 1..], key);
    ValuesAppend(f, [chain[i]], chain[i + 1..], key);
    ValuesAppend(f, chain[..i], chain[i + 1..], key);
  }

  lemma {:induction false} NoHits<K, V>(f: Keys<K>, chain: seq<Entry<K, V>>, key: K)
    requires forall i | 0 <= i < |chain| :: !Hits(f, chain[i], f.hash(key), key)
    ensures ValuesIn(f, chain, key) == []
  {
    hide Hits;
    if chain != [] {
      NoHits(f, chain[1..], key);
    }
  }

  /** The first hit of a chain is the first value of its key, and no value of another key. */
  lemma FirstHit<K(!new), V>(f: Keys<K>, chain: seq<Entry<K, V>>, i: nat, key: K, other: K)
    requires KeysOk(f) && i < |chain| && Hits(f, chain[i], f.hash(key), key) && chain[i].hash == f.hash(chain[i].key)
    requires forall j | 0 <= j < i :: !Hits(f, chain[j], f.hash(key), key)
    ensures if f.same(key, other)
      then ValuesIn(f, chain, other) != [] && ValuesIn(f, chain, other)[0] == chain[i].value && ValuesIn(f, Without(chain, i), other) == ValuesIn(f, chain, other)[1..]
      else ValuesIn(f, Without(chain, i), other) == ValuesIn(f, chain, other)
  {
    hide *;
    WithoutValues(f, chain, i, other);
    OneValue(f, chain[i], other);
    HitByOther(f, chain[i], key, other);
    if f.same(key, other) {
      PrefixMisses(f, chain, i, key, other);
      assert [] + [chain[i].value] + ValuesIn(f, chain[i + 1..], other) == [chain[i].value] + ValuesIn(f, chain[i + 1..], other);
      assert [] + ValuesIn(f, chain[i + 1..], other) == ValuesIn(f, chain[i + 1..], other);
    } else {
      assert ValuesIn(f, chain[..i], other) + [] == ValuesIn(f, chain[..i], other);
    }
  }

  lemma HitByOther<K(!new), V>(f: Keys<K>, e: Entry<K, V>, key: K, other: K)
    requires KeysOk(f) && Hits(f, e, f.hash(key), key) && e.hash == f.hash(e.key)
    ensures Hits(f, e, f.hash(other), other) <==> f.same(key, other)
  {
    if f.same(e.key, other) {
      assert f.same(key, e.key);
    }
  }

  lemma PrefixMisses<K(!new), V>(f: Keys<K>, chain: seq<Entry<K, V>>, i: nat, key: K, other: K)
    requires KeysOk(f) && i <= |chain| && f.same(key, other)
    requires forall j | 0 <= j < i :: !Hits(f, chain[j], f.hash(key), key)
    ensures ValuesIn(f, chain[..i], other) == []
  {
    hide ValuesIn;
    assert f.hash(key) == f.hash(other);
    forall j | 0 <= j < i
      ensures !Hits(f, chain[..i][j], f.hash(other), other)
    {
      if f.same(chain[j].key, other) && f.same(other, key) {
        assert f.same(chain[j].key, key);
      }
    }
    NoHits(f, chain[..i], other);
  }

  lemma WithoutPlaced<K, V>(f: Keys<K>, buckets: seq<seq<Entry<K, V>>>, b: nat, i: nat)
    requires AllInPlace(f, buckets) && b < |buckets| && i < |buckets[b]|
    ensures AllInPlace(f, buckets[b := Without(buckets[b], i)])
    ensures |Flatten(buckets[b := Without(buckets[b], i)])| == |Flatten(buckets)| - 1
  {
    FlattenUpdate(buckets, b, Without(buckets[b], i));
    hide InPlace, Flatten;
  }

  // ---- iterating

  /** The entries of a chain a key hits, in order. */
  function HitsIn<K, V>(f: Keys<K>, chain: seq<Entry<K, V>>, key: K): seq<Entry<K, V>> {
    if chain == [] then []
    else (if Hits(f, chain[0], f.hash(key), key) then [chain[0]] else []) + HitsIn(f, chain[1..], key)
  }

  lemma {:induction false} SkipMisses<K, V>(f: Keys<K>, chain: seq<Entry<K, V>>, key: K, i: nat)
    requires i <= |chain| && forall j | 0 <= j < i :: !Hits(f, chain[j], f.hash(key), key)
    ensures HitsIn(f, chain, key) == HitsIn(f, chain[i..], key)
    ensures i < |chain| && Hits(f, chain[i], f.hash(key), key) ==> HitsIn(f, chain, key) == [chain[i]] + HitsIn(f, chain[i + 1..], key)
    ensures i == |chain| ==> HitsIn(f, chain, key) == []
  {
    hide Hits;
    if i > 0 {
      SkipMisses(f, chain[1..], key, i - 1);
      assert chain[1..][i - 1..] == chain[i..];
      if i < |chain| {
        assert chain[1..][i..] == chain[i + 1..];
      }
    } else {
      assert chain[0..] == chain;
    }
  }

  lemma SkipTo<K, V>(f: Keys<K>, chain: seq<Entry<K, V>>, key: K, from: nat, i: nat)
    requires from <= i <= |chain| && forall j | from <= j < i :: !Hits(f, chain[j], f.hash(key), key)
    ensures i < |chain| && Hits(f, chain[i], f.hash(key), key) ==> HitsIn(f, chain[from..], key) == [chain[i]] + HitsIn(f, chain[i + 1..], key)
    ensures i == |chain| ==> HitsIn(f, chain[from..], key) == []
  {
    hide Hits, HitsIn;
    SkipMisses(f, chain[from..], key, i - from);
    if i < |chain| {
      assert chain[from..][i - from + 1..] == chain[i + 1..];
    }
  }

  lemma {:induction false} SameHits<K(!new), V>(f: Keys<K>, chain: seq<Entry<K, V>>, key: K, other: K)
    requires KeysOk(f) && f.same(key, other)
    ensures HitsIn(f, chain, key) == HitsIn(f, chain, other)
  {
    if chain != [] {
      SameHits(f, chain[1..], key, other);
      assert f.hash(key) == f.hash(other) && f.same(other, key);
      assert f.same(chain[0].key, key) ==> f.same(chain[0].key, other);
      assert f.same(chain[0].key, other) ==> f.same(chain[0].key, key);
    }
  }

  /** An iterator: the bucket and the position in its chain of the entry it is at, -1 where it is at
      none.  With `keyed` it goes through the entries of `key` only. */
  class Iter<K, V> {
    var bucketIdx: int
    var node: int
    const keyed: bool
    var key: Option<K>
    var value: Option<V>

    /** `map_iter`. */
    constructor ()
      ensures bucketIdx == -1 && node == -1 && !keyed
    {
      bucketIdx, node, keyed, key, value := -1, -1, false, None, None;
    }

    /** `map_key_iter`. */
    constructor ForKey(key: K)
      ensures bucketIdx == -1 && node == -1 && keyed && this.key == Some(key)
    {
      bucketIdx, node, keyed, this.key, value := -1, -1, true, Some(key), None;
    }
  }

  /** The entries behind position `node` of bucket `b` and in the buckets behind it. */
  function Behind<K, V>(buckets: seq<seq<Entry<K, V>>>, b: int, node: int): seq<Entry<K, V>>
    requires b >= -1 && node >= -1 && (node >= 0 ==> 0 <= b < |buckets| && node < |buckets[b]|)
  {
    if node >= 0 then buckets[b][node + 1..] + Flatten(buckets[b + 1..])
    else if b + 1 <= |buckets| then Flatten(buckets[b + 1..])
    else []
  }

  lemma NextBucket<K, V>(buckets: seq<seq<Entry<K, V>>>, b: int)
    requires -1 <= b && b + 1 < |buckets|
    ensures Behind(buckets, b, -1) == buckets[b + 1] + Behind(buckets, b + 1, -1)
    ensures buckets[b + 1] != [] ==> Behind(buckets, b, -1) == [buckets[b + 1][0]] + Behind(buckets, b + 1, 0)
  {
    var chain, rest := buckets[b + 1], buckets[b + 2..];
    assert buckets[b + 1..] == [chain] + rest;
    FlattenCons(chain, rest);
    hide Flatten;
    if chain != [] {
      TailStep(chain, 0, Flatten(rest));
      assert chain[0..] == chain;
    }
  }

  lemma InBucket<K, V>(buckets: seq<seq<Entry<K, V>>>, b: nat, node: nat)
    requires b < |buckets| && node < |buckets[b]|
    ensures node + 1 < |buckets[b]| ==> Behind(buckets, b, node) == [buckets[b][node + 1]] + Behind(buckets, b, node + 1)
    ensures node + 1 == |buckets[b]| ==> Behind(buckets, b, node) == Behind(buckets, b, -1)
  {
    hide Flatten;
    if node + 1 < |buckets[b]| {
      TailStep(buckets[b], node + 1, Flatten(buckets[b + 1..]));
    } else {
      NoTail(buckets[b], Flatten(buckets[b + 1..]));
    }
  }

  lemma TailStep<T>(s: seq<T>, n: nat, rest: seq<T>)
    requires n < |s|
    ensures s[n..] + rest == [s[n]] + (s[n + 1..] + rest)
  {
    assert s[n..] == [s[n]] + s[n + 1..];
  }

  lemma NoTail<T>(s: seq<T>, rest: seq<T>)
    ensures s[|s|..] + rest == rest
  {
  }

  /** Taking out an entry does not change what is behind it. */
  lemma BehindWithout<K, V>(buckets: seq<seq<Entry<K, V>>>, b: nat, i: nat)
    requires b < |buckets| && i < |buckets[b]|
    ensures var now := buckets[b := Without(buckets[b], i)];
      && (forall j | i < j < |buckets[b]| :: now[b][j - 1] == buckets[b][j] && Behind(now, b, j - 1) == Behind(buckets, b, j))
      && (forall c, j | b < c < |buckets| && 0 <= j < |buckets[c]| :: now[c] == buckets[c] && Behind(now, c, j) == Behind(buckets, c, j))
      && (forall c | c >= b :: Behind(now, c, -1) == Behind(buckets, c, -1))
  {
    hide Flatten;
    var now := buckets[b := Without(buckets[b], i)];
    forall c | b <= c < |buckets|
      ensures Behind(now, c, -1) == Behind(buckets, c, -1) && now[c + 1..] == buckets[c + 1..]
    {
      assert now[c + 1..] == buckets[c + 1..];
    }
    forall j | i < j < |buckets[b]|
      ensures now[b][j - 1] == buckets[b][j] && now[b][j..] == buckets[b][j + 1..]
    {
    }
  }

  class HashMap<K(!new), V> {
    const f: Keys<K>
    var buckets: seq<seq<Entry<K, V>>>
    var nbuckets: nat
    var nnodes: nat

    ghost predicate Valid()
      reads this
    {
      && KeysOk(f) && AllInPlace(f, buckets)
      && nbuckets == |buckets| && (nbuckets == 0 || PowerOfTwo(nbuckets))
      && nnodes == |Flatten(buckets)| <= 2 * nbuckets
    }

    /** The values of a key, in order. */
    ghost function Values(key: K): seq<V>
      reads this
    {
      ValuesOf(f, buckets, key)
    }

    constructor (f: Keys<K>)
      requires KeysOk(f)
      ensures Valid() && this.f == f && forall key :: Values(key) == []
    {
      this.f, buckets, nbuckets, nnodes := f, [], 0, 0;
    }

    method AddNode(e: Entry<K, V>, append: bool)
      requires nbuckets == |buckets| && PowerOfTwo(nbuckets)
      modifies `buckets
      ensures buckets == WithNode(old(buckets), e, append)
    {
      IdxIs(e.hash, nbuckets);
      var n := BucketIdx(e.hash, nbuckets);
      var at := 0;
      if append {
        while at < |buckets[n]|
          invariant 0 <= at <= |buckets[n]|
        {
          at := at + 1;
        }
      }
      var chain := buckets[n][..at] + [e] + buckets[n][at..];
      assert chain == if append then buckets[n] + [e] else [e] + buckets[n];
      buckets := buckets[n := chain];
    }

    /** `map_resize`. */
    method Resize(n: nat)
      requires Valid() && PowerOfTwo(n) && nnodes <= 2 * n
      modifies `buckets, `nbuckets
      ensures Valid() && nbuckets == n && buckets == Resized(old(buckets), n)
      ensures forall key :: Values(key) == old(Values(key))
      ensures multiset(Flatten(buckets)) == multiset(old(Flatten(buckets)))
    {
      hide Flatten, KeysOk, AllInPlace, PowerOfTwo, ValuesOf, Rev;
      ResizeKeeps(f, buckets, n);
      var nodes: seq<Entry<K, V>> := [];
      var i: nat := nbuckets;
      ghost var was := buckets;
      assert buckets[nbuckets..] == [];
      while i > 0
        invariant buckets == was && nbuckets == |was| && i <= nbuckets && nodes == AllReversed(buckets[i..])
      {
        i := i - 1;
        var node := buckets[i];
        ghost var rest := nodes;
        assert buckets[i..][0] == buckets[i] && buckets[i..][1..] == buckets[i + 1..];
        RevOne<Entry<K, V>>();
        while node != []
          invariant buckets == was && nbuckets == |was| && Rev(node) + nodes == Rev(buckets[i]) + rest
          decreases |node|
        {
          RevTail(node, nodes);
          nodes := [node[0]] + nodes;
          node := node[1..];
        }
      }
      assert buckets[0..] == buckets;
      buckets := Empty(n);
      nbuckets := n;
      var node := nodes;
      while node != []
        invariant |buckets| == nbuckets == n && Reinserted(buckets, node) == Reinserted(Empty(n), nodes)
        decreases |node|
      {
        AddNode(node[0], false);
        node := node[1..];
      }
    }

    /** `map_insert` and `map_append`, without the allocation that may fail. */
    method Add(key: K, value: V, append: bool)
      requires Valid()
      modifies this
      ensures Valid()
      ensures forall k :: Values(k) == if !f.same(key, k) then old(Values(k)) else if append then old(Values(k)) + [value] else [value] + old(Values(k))
      ensures nnodes == old(nnodes) + 1
      ensures nbuckets == if old(nnodes) < 2 * old(nbuckets) then old(nbuckets) else if old(nbuckets) > 0 then 2 * old(nbuckets) else 1
      ensures multiset(Flatten(buckets)) == multiset(old(Flatten(buckets))) + multiset{Entry(f.hash(key), key, value)}
    {
      hide Flatten, KeysOk, AllInPlace, PowerOfTwo, ValuesOf, WithNode, Resized;
      var e := Entry(f.hash(key), key, value);
      if nnodes / 2 >= nbuckets {
        var n := if nbuckets > 0 then 2 * nbuckets else 1;
        Doubled(nbuckets);
        Resize(n);
      }
      ghost var was := buckets;
      AddNode(e, append);
      WithNodePlaced(f, was, e, append);
      WithNodeFlat(was, e, append);
      forall k
        ensures Values(k) == if !f.same(key, k) then ValuesOf(f, was, k) else if append then ValuesOf(f, was, k) + [value] else [value] + ValuesOf(f, was, k)
      {
        WithNodeValues(f, was, e, append, k);
      }
      nnodes := nnodes + 1;
    }

    /** `map_getmatch`: the first entry from `from` on that hits; the length of the chain when there is
        none. */
    method GetMatch(chain: seq<Entry<K, V>>, from: nat, hash: nat, key: K) returns (i: nat)
      requires from <= |chain|
      ensures from <= i <= |chain| && (i < |chain| ==> Hits(f, chain[i], hash, key))
      ensures forall j | from <= j < i :: !Hits(f, chain[j], hash, key)
    {
      hide Hits;
      i := from;
      while i < |chain| && !Hits(f, chain[i], hash, key)
        invariant from <= i <= |chain| && forall j | from <= j < i :: !Hits(f, chain[j], hash, key)
      {
        i := i + 1;
      }
    }

    /** `map_getref`: the first entry of the key in its bucket. */
    method GetRef(key: K) returns (b: nat, i: int)
      requires Valid()
      ensures i == -1 ==> Values(key) == []
      ensures i != -1 ==> b < |buckets| && b == BucketIdx(f.hash(key), |buckets|) && 0 <= i < |buckets[b]|
      ensures i != -1 ==> Hits(f, buckets[b][i], f.hash(key), key) && forall j | 0 <= j < i :: !Hits(f, buckets[b][j], f.hash(key), key)
    {
      hide Flatten, KeysOk, AllInPlace, PowerOfTwo, Hits, ValuesIn;
      if nbuckets == 0 {
        NoHits<K, V>(f, [], key);
        return 0, -1;
      }
      var hash := f.hash(key);
      IdxIs(hash, nbuckets);
      b := BucketIdx(hash, nbuckets);
      i := GetMatch(buckets[b], 0, hash, key);
      if i == |buckets[b]| {
        NoHits(f, buckets[b], key);
        i := -1;
      }
    }

    method Get(key: K) returns (value: Option<V>)
      requires Valid()
      ensures value == if Values(key) == [] then None else Some(Values(key)[0])
    {
      hide Flatten, PowerOfTwo, ValuesIn;
      var b, i := GetRef(key);
      if i == -1 {
        return None;
      }
      assert InPlace(f, buckets[b][i], b, |buckets|);
      FirstHit(f, buckets[b], i, key, key);
      value := Some(buckets[b][i].value);
    }

    method Take(key: K) returns (value: Option<V>)
      requires Valid()
      modifies this
      ensures Valid()
      ensures value == if old(Values(key)) == [] then None else Some(old(Values(key))[0])
      ensures forall k :: Values(k) == if f.same(key, k) && old(Values(k)) != [] then old(Values(k))[1..] else old(Values(k))
      ensures nnodes == old(nnodes) - (if value.Some? then 1 else 0) && nbuckets == old(nbuckets)
    {
      hide Flatten, PowerOfTwo, ValuesIn, Without;
      var b, i := GetRef(key);
      if i == -1 {
        forall k | f.same(key, k)
          ensures Values(k) == []
        {
          SameValues(f, buckets, key, k);
        }
        return None;
      }
      value := Some(buckets[b][i].value);
      ghost var was := buckets;
      assert InPlace(f, was[b][i], b, |was|);
      WithoutPlaced(f, was, b, i);
      buckets := buckets[b := Without(buckets[b], i)];
      nnodes := nnodes - 1;
      forall k
        ensures Values(k) == if f.same(key, k) && ValuesOf(f, was, k) != [] then ValuesOf(f, was, k)[1..] else ValuesOf(f, was, k)
        ensures k == key ==> ValuesOf(f, was, k) != [] && ValuesOf(f, was, k)[0] == was[b][i].value
      {
        FirstHit(f, was[b], i, key, k);
        IdxIs(f.hash(k), |was|);
      }
    }

    /** Where an iterator can be. */
    ghost predicate IterOk(it: Iter<K, V>)
      reads this, it
    {
      && it.bucketIdx >= -1 && it.node >= -1
      && (it.node >= 0 ==> 0 <= it.bucketIdx < |buckets| && it.node < |buckets[it.bucketIdx]|)
      && (it.keyed ==> it.key.Some?)
      && (it.keyed && it.node >= 0 ==>
            var e := buckets[it.bucketIdx][it.node];
            e.hash == f.hash(it.key.value) && it.bucketIdx == BucketIdx(f.hash(it.key.value), |buckets|))
    }

    /** What an iterator has still to go through. */
    ghost function Remaining(it: Iter<K, V>): seq<Entry<K, V>>
      requires IterOk(it)
      reads this, it
    {
      if !it.keyed then Behind(buckets, it.bucketIdx, it.node)
      else if it.node >= 0 then HitsIn(f, buckets[it.bucketIdx][it.node + 1..], it.key.value)
      else HitsIn(f, ChainOf(f, buckets, it.key.value), it.key.value)
    }

    /** The entry an iterator is at, and whose key and value it shows. */
    ghost predicate IsAt(it: Iter<K, V>, e: Entry<K, V>)
      reads this, it
    {
      && it.node >= 0 && 0 <= it.bucketIdx < |buckets| && it.node < |buckets[it.bucketIdx]| && buckets[it.bucketIdx][it.node] == e
      && it.key == Some(e.key) && it.value == Some(e.value)
    }

    /** The scan of `map_next` for a bucket with entries, behind bucket `b`. */
    method NextFilled(b: int) returns (n: nat)
      requires nbuckets == |buckets| && b >= -1
      ensures n > b && (n < |buckets| ==> buckets[n] != [])
      ensures Behind(buckets, b, -1) == if n >= |buckets| then [] else [buckets[n][0]] + Behind(buckets, n, 0)
    {
      hide Behind;
      n := b + 1;
      while n < nbuckets && buckets[n] == []
        invariant n > b && Behind(buckets, n - 1, -1) == Behind(buckets, b, -1)
      {
        NextBucket(buckets, n - 1);
        n := n + 1;
      }
      if n < nbuckets {
        NextBucket(buckets, n - 1);
      } else {
        EmptyBehind(buckets, n);
      }
    }

    /** `map_next` for an iterator over all entries. */
    method NextOfAll(it: Iter<K, V>) returns (ok: bool)
      requires Valid() && IterOk(it) && !it.keyed
      modifies it
      ensures IterOk(it) && ok == (old(Remaining(it)) != [])
      ensures ok ==> IsAt(it, old(Remaining(it))[0]) && Remaining(it) == old(Remaining(it))[1..]
      ensures !ok ==> it.node == -1 && Remaining(it) == []
      ensures it.bucketIdx >= old(it.bucketIdx)
      ensures it.bucketIdx == old(it.bucketIdx) ==> it.node == old(it.node) + 1
    {
      hide Flatten, AllInPlace, KeysOk, Behind;
      ghost var todo := Remaining(it);
      if it.node >= 0 {
        InBucket(buckets, it.bucketIdx, it.node);
      }
      if it.node >= 0 && it.node + 1 < |buckets[it.bucketIdx]| {
        it.node := it.node + 1;
      } else {
        it.node := -1;
        it.bucketIdx := NextFilled(it.bucketIdx);
        if it.bucketIdx >= nbuckets {
          EmptyBehind(buckets, it.bucketIdx);
          return false;
        }
        it.node := 0;
      }
      HeadAndTail(buckets[it.bucketIdx][it.node], Behind(buckets, it.bucketIdx, it.node), todo);
      it.key := Some(buckets[it.bucketIdx][it.node].key);
      it.value := Some(buckets[it.bucketIdx][it.node].value);
      ok := true;
    }

    /** `map_next` for an iterator over the entries of one key. */
    method NextOfKey(it: Iter<K, V>) returns (ok: bool)
      requires Valid() && IterOk(it) && it.keyed
      modifies it
      ensures IterOk(it) && ok == (old(Remaining(it)) != [])
      ensures ok ==> IsAt(it, old(Remaining(it))[0]) && Remaining(it) == old(Remaining(it))[1..]
      ensures !ok ==> it.node == -1
      ensures old(it.node) >= 0 ==> it.bucketIdx == old(it.bucketIdx) && (ok ==> it.node > old(it.node))
      ensures old(it.node) == -1 && ok ==> it.bucketIdx == BucketIdx(f.hash(old(it.key).value), |buckets|)
    {
      hide Valid, Hits, HitsIn, BucketIdx, ChainOf, KeysOk;
      ghost var todo := Remaining(it);
      var k := it.key.value;
      var b, i := NextHit(it.bucketIdx, it.node, k);
      if i == -1 {
        it.node := -1;
        return false;
      }
      HeadAndTail(buckets[b][i], HitsIn(f, buckets[b][i + 1..], k), todo);
      ShowHit(it, b, i, k);
      ok := true;
    }

    /** The iterator is put on an entry of the key. */
    method ShowHit(it: Iter<K, V>, b: nat, i: nat, k: K)
      requires Valid() && IterOk(it) && it.keyed && it.key == Some(k)
      requires b < |buckets| && b == BucketIdx(f.hash(k), |buckets|) && i < |buckets[b]| && Hits(f, buckets[b][i], f.hash(k), k)
      modifies it
      ensures IterOk(it) && IsAt(it, buckets[b][i]) && it.bucketIdx == b && it.node == i
      ensures Remaining(it) == HitsIn(f, buckets[b][i + 1..], k)
    {
      hide Valid, Hits, HitsIn, BucketIdx, ChainOf, KeysOk;
      SameKey(buckets[b], i, k);
      it.bucketIdx := b;
      it.node := i;
      it.key := Some(buckets[b][i].key);
      it.value := Some(buckets[b][i].value);
    }

    /** The two searches of `map_next` for a key: behind an entry of its chain, or from the start. */
    method NextHit(bucket: int, node: int, k: K) returns (b: nat, i: int)
      requires Valid()
      requires node >= -1 && (node >= 0 ==> 0 <= bucket < |buckets| && node < |buckets[bucket]| && buckets[bucket][node].hash == f.hash(k))
      ensures i >= -1 && (i >= 0 ==> b < |buckets| && i < |buckets[b]| && Hits(f, buckets[b][i], f.hash(k), k))
      ensures i >= 0 ==> if node >= 0 then b == bucket && i > node else b == BucketIdx(f.hash(k), |buckets|)
      ensures var todo := if node >= 0 then HitsIn(f, buckets[bucket][node + 1..], k) else HitsIn(f, ChainOf(f, buckets, k), k);
        if i == -1 then todo == [] else todo == [buckets[b][i]] + HitsIn(f, buckets[b][i + 1..], k)
    {
      hide Flatten, AllInPlace, Hits, HitsIn, KeysOk, PowerOfTwo;
      if node >= 0 {
        var chain := buckets[bucket];
        b := bucket;
        i := GetMatch(chain, node + 1, chain[node].hash, k);
        SkipTo(f, chain, k, node + 1, i);
        if i == |chain| {
          i := -1;
        }
      } else {
        b, i := GetRef(k);
        if i == -1 {
          NoEntries(f, ChainOf(f, buckets, k), k);
        } else {
          SkipMisses(f, buckets[b], k, i);
        }
      }
    }

    lemma SameKey(chain: seq<Entry<K, V>>, i: nat, k: K)
      requires Valid() && i < |chain| && Hits(f, chain[i], f.hash(k), k)
      ensures HitsIn(f, chain[i + 1..], k) == HitsIn(f, chain[i + 1..], chain[i].key)
      ensures chain[i].hash == f.hash(chain[i].key) == f.hash(k)
    {
      HitKey(f, chain[i], k);
      SameHits(f, chain[i + 1..], k, chain[i].key);
    }

    method Next(it: Iter<K, V>) returns (ok: bool)
      requires Valid() && IterOk(it)
      modifies it
      ensures IterOk(it) && ok == (old(Remaining(it)) != [])
      ensures ok ==> IsAt(it, old(Remaining(it))[0]) && Remaining(it) == old(Remaining(it))[1..]
      ensures !ok ==> it.node == -1 && (it.keyed || Remaining(it) == [])
      ensures old(it.node) >= 0 ==> it.bucketIdx >= old(it.bucketIdx) && (it.bucketIdx == old(it.bucketIdx) && ok ==> it.node > old(it.node))
      ensures old(it.node) >= 0 && it.keyed ==> it.bucketIdx == old(it.bucketIdx)
      ensures old(it.node) == -1 && it.keyed && ok ==> it.bucketIdx == BucketIdx(f.hash(old(it.key).value), |buckets|)
    {
      if it.keyed {
        ok := NextOfKey(it);
      } else {
        ok := NextOfAll(it);
      }
    }

    /** `map_erase`: the entry the iterator is at goes, and the iterator goes on to the entry that was
        next, of all or of its key.  Where that is in the same chain it moves up by one place. */
    method Erase(it: Iter<K, V>) returns (ok: bool)
      requires Valid() && IterOk(it)
      modifies this, it
      ensures Valid() && IterOk(it)
      ensures old(it.node) == -1 ==> !ok && buckets == old(buckets) && it.node == -1
      ensures old(it.node) >= 0 ==>
        && ok == (old(Remaining(it)) != [])
        && buckets == old(buckets)[old(it.bucketIdx) := Without(old(buckets)[old(it.bucketIdx)], old(it.node))]
        && (ok ==> IsAt(it, old(Remaining(it))[0]) && Remaining(it) == old(Remaining(it))[1..])
        && (!ok ==> it.node == -1 && (it.keyed || Remaining(it) == []))
      ensures old(it.node) >= 0 && it.keyed ==> it.bucketIdx == old(it.bucketIdx) && (ok ==> it.node >= old(it.node))
    {
      hide Flatten, AllInPlace, KeysOk, Behind, Without, BucketIdx, HitsIn, ChainOf, PowerOfTwo;
      if it.node == -1 {
        return false;
      }
      var b, pos := it.bucketIdx, 0;
      while pos != it.node
        invariant 0 <= pos <= it.node == old(it.node) && it.bucketIdx == b && IterOk(it) && Valid() && buckets == old(buckets)
        invariant Remaining(it) == old(Remaining(it)) && it.key == old(it.key)
        decreases it.node - pos
      {
        pos := pos + 1;
      }
      ok := Next(it);
      Unlink(it, b, pos);
    }

    /** The entry at `pos` goes while the iterator is behind it: what the iterator still has to go through stays. */
    method Unlink(it: Iter<K, V>, b: nat, pos: nat)
      requires Valid() && IterOk(it) && b < |buckets| && pos < |buckets[b]|
      requires it.node >= 0 ==> it.bucketIdx > b || (it.bucketIdx == b && it.node > pos)
      requires if it.keyed then it.node >= 0 ==> it.bucketIdx == b else it.bucketIdx >= b
      modifies this, it
      ensures Valid() && IterOk(it) && buckets == old(buckets)[b := Without(old(buckets)[b], pos)]
      ensures it.key == old(it.key) && it.value == old(it.value) && it.bucketIdx == old(it.bucketIdx)
      ensures it.node == old(it.node) - if old(it.node) >= 0 && it.bucketIdx == b then 1 else 0
      ensures it.node >= 0 ==> buckets[it.bucketIdx][it.node] == old(buckets[it.bucketIdx][it.node])
      ensures !it.keyed || it.node >= 0 ==> Remaining(it) == old(Remaining(it))
    {
      hide Flatten, AllInPlace, KeysOk, Behind, Without, BucketIdx, HitsIn, ChainOf, PowerOfTwo;
      WithoutPlaced(f, buckets, b, pos);
      BehindWithout(buckets, b, pos);
      WithoutTails(buckets[b], pos);
      buckets := buckets[b := Without(buckets[b], pos)];
      nnodes := nnodes - 1;
      if it.node >= 0 && it.bucketIdx == b {
        it.node := it.node - 1;
      }
    }

    /** A whole iteration, in which every entry that is not to be kept is erased: each entry the map
        had at the start is met exactly once, and the others are left. */
    method Sweep(keep: Entry<K, V> -> bool) returns (seen: seq<Entry<K, V>>)
      requires Valid()
      modifies this
      ensures Valid() && seen == old(Flatten(buckets)) && Flatten(buckets) == Filter(keep, seen)
    {
      hide Valid, Flatten, Behind, Without, Filter, HitsIn, ChainOf;
      var it := new Iter<K, V>();
      StartBehind(buckets);
      ghost var all := Flatten(buckets);
      seen := [];
      ghost var kept: seq<Entry<K, V>> := [];
      FilterNone(keep);
      var ok := Next(it);
      Whole(all);
      ghost var todo := all;
      while ok
        invariant fresh(it) && Valid() && IterOk(it) && !it.keyed
        invariant ok ==> it.node >= 0 && todo == [buckets[it.bucketIdx][it.node]] + Remaining(it)
        invariant !ok ==> todo == []
        invariant all == seen + todo && Flatten(buckets) == kept + todo && kept == Filter(keep, seen)
        decreases |todo|, ok
      {
        var e := buckets[it.bucketIdx][it.node];
        FilterSnoc(keep, seen, e);
        TakeFirst(all, seen, e, todo);
        TakeFirst(Flatten(buckets), kept, e, todo);
        seen := seen + [e];
        ghost var rest := Remaining(it);
        Whole(rest);
        if keep(e) {
          kept := kept + [e];
          ok := Next(it);
        } else {
          ErasedFlat(buckets, it.bucketIdx, it.node, kept);
          ok := Erase(it);
        }
        todo := rest;
      }
    }

    lemma ValidKeys(key: K)
      requires Valid()
      ensures KeysOk(f) && f.same(key, key)
      ensures |buckets| > 0 ==> PowerOfTwo(|buckets|) && BucketIdx(f.hash(key), |buckets|) < |buckets|
    {
      hide AllInPlace, Flatten, BucketIdx, PowerOfTwo;
      if |buckets| > 0 {
        IdxIs(f.hash(key), |buckets|);
      }
    }

    /** One turn of `SweepKey`. */
    method KeyTurn(it: Iter<K, V>, key: K, keep: Entry<K, V> -> bool, ghost was: seq<Entry<K, V>>, ghost todo: seq<Entry<K, V>>) returns (ok: bool, e: Entry<K, V>)
      requires Valid() && IterOk(it) && it.keyed && it.node >= 0 && f.same(key, it.key.value)
      requires Swept(f, was, buckets[it.bucketIdx], it.node, key, keep, todo)
      modifies this, it
      ensures Valid() && IterOk(it) && todo != [] && e == todo[0]
      ensures it.bucketIdx == old(it.bucketIdx) && |buckets| == |old(buckets)|
      ensures forall c | 0 <= c < |buckets| && c != it.bucketIdx :: buckets[c] == old(buckets)[c]
      ensures 0 <= it.bucketIdx < |buckets| && Swept(f, was, buckets[it.bucketIdx], if ok then it.node else -1, key, keep, todo[1..])
      ensures ok ==> it.node >= 0 && f.same(key, it.key.value)
    {
      hide Valid, Behind, Without, Filter, HitsIn, BucketIdx, PowerOfTwo, Stays, Hits, KeysOk, Swept, ChainOf;
      ValidKeys(key);
      ghost var b, i, k := it.bucketIdx, it.node, it.key.value;
      e := buckets[it.bucketIdx][it.node];
      KeyStep(f, was, buckets[b], i, key, k, keep, todo);
      if keep(e) {
        ok := Next(it);
        GoOn(f, was, buckets[b], i + 1, if ok then it.node else -1, key, k, keep, todo[1..]);
      } else {
        ok := Erase(it);
        GoOn(f, was, buckets[b], i, if ok then it.node else -1, key, k, keep, todo[1..]);
      }
    }

    /** A whole iteration over the entries of one key: they are met exactly once, in order, and those that are not
        to be kept are the only ones erased. */
    method SweepKey(key: K, keep: Entry<K, V> -> bool) returns (seen: seq<Entry<K, V>>)
      requires Valid()
      modifies this
      ensures Valid() && seen == old(HitsIn(f, ChainOf(f, buckets, key), key))
      ensures |seen| == |old(Values(key))| && forall i | 0 <= i < |seen| :: seen[i].value == old(Values(key))[i]
      ensures buckets == KeySwept(f, old(buckets), key, keep)
      ensures HitsIn(f, ChainOf(f, buckets, key), key) == Filter(keep, seen)
      ensures forall k | !f.same(key, k) :: Values(k) == old(Values(k))
    {
      hide Valid, Behind, Without, Filter, HitsIn, ValuesIn, BucketIdx, PowerOfTwo, Stays, Hits, KeysOk, AllInPlace, Swept, KeySwept;
      ValidKeys(key);
      HitsAreValues(f, ChainOf(f, buckets, key), key);
      ghost var was, all, b := buckets, HitsIn(f, ChainOf(f, buckets, key), key), if |buckets| > 0 then BucketIdx(f.hash(key), |buckets|) else 0;
      var it := new Iter<K, V>.ForKey(key);
      seen := [];
      var ok := Next(it);
      ghost var todo := all;
      if |was| > 0 {
        assert was[b][..0] == [] && was[b][0..] == was[b];
        GoOn(f, was[b], was[b], 0, if ok then it.node else -1, key, key, keep, all);
      }
      while ok
        invariant fresh(it) && Valid() && IterOk(it) && it.keyed && all == seen + todo
        invariant |buckets| == |was| && (|was| == 0 ==> !ok && todo == []) && forall c | 0 <= c < |was| && c != b :: buckets[c] == was[c]
        invariant |was| > 0 ==> b < |was| && Swept(f, was[b], buckets[b], if ok then it.node else -1, key, keep, todo)
        invariant ok ==> it.bucketIdx == b && it.node >= 0 && f.same(key, it.key.value)
        decreases |todo|, ok
      {
        var e;
        ok, e := KeyTurn(it, key, keep, was[b], todo);
        TakeFirst(all, seen, e, todo);
        seen := seen + [e];
        todo := todo[1..];
      }
      if |was| > 0 {
        EndSwept(f, was[b], buckets[b], key, keep, todo);
      }
      IsKeySwept(f, was, buckets, key, keep);
      SweptHits(f, was, key, keep);
      forall k | !f.same(key, k)
        ensures Values(k) == ValuesOf(f, was, k)
      {
        SweptValues(f, was, key, k, keep);
      }
    }

    method Clear()
      requires Valid()
      modifies this
      ensures Valid() && nnodes == 0 && buckets == [] && forall key :: Values(key) == []
    {
      buckets, nbuckets, nnodes := [], 0, 0;
    }
  }

  function Filter<T>(keep: T -> bool, s: seq<T>): seq<T> {
    if s == [] then [] else (if keep(s[0]) then [s[0]] else []) + Filter(keep, s[1..])
  }

  /** What stays of a chain when the entries of a key are erased that are not to be kept. */
  function Stays<K, V>(f: Keys<K>, key: K, keep: Entry<K, V> -> bool): Entry<K, V> -> bool {
    (e: Entry<K, V>) => !Hits(f, e, f.hash(key), key) || keep(e)
  }

  function KeySwept<K, V>(f: Keys<K>, buckets: seq<seq<Entry<K, V>>>, key: K, keep: Entry<K, V> -> bool): seq<seq<Entry<K, V>>> {
    if |buckets| == 0 then buckets
    else
      var b := BucketIdx(f.hash(key), |buckets|);
      if b < |buckets| then buckets[b := Filter(Stays(f, key, keep), buckets[b])] else buckets
  }

  lemma IsKeySwept<K, V>(f: Keys<K>, was: seq<seq<Entry<K, V>>>, now: seq<seq<Entry<K, V>>>, key: K, keep: Entry<K, V> -> bool)
    requires |now| == |was|
    requires |was| > 0 ==> var b := BucketIdx(f.hash(key), |was|);
      b < |was| && now[b] == Filter(Stays(f, key, keep), was[b]) && forall c | 0 <= c < |was| && c != b :: now[c] == was[c]
    ensures now == KeySwept(f, was, key, keep)
  {
    hide BucketIdx, Filter;
  }

  lemma {:induction false} FilterAppend<T>(keep: T -> bool, a: seq<T>, b: seq<T>)
    ensures Filter(keep, a + b) == Filter(keep, a) + Filter(keep, b)
  {
    hide Filter;
    if a == [] {
      assert a + b == b;
      FilterNone(keep);
    } else {
      FilterAppend(keep, a[1..], b);
      FilterHead(keep, a);
      FilterHead(keep, a + b);
      assert (a + b)[0] == a[0] && (a + b)[1..] == a[1..] + b;
      Joined([a[0]], Filter(keep, a[1..]), Filter(keep, b));
    }
  }

  lemma FilterHead<T>(keep: T -> bool, s: seq<T>)
    requires s != []
    ensures Filter(keep, s) == if keep(s[0]) then [s[0]] + Filter(keep, s[1..]) else Filter(keep, s[1..])
  {
  }

  lemma {:induction false} HitsAppend<K, V>(f: Keys<K>, a: seq<Entry<K, V>>, b: seq<Entry<K, V>>, key: K)
    ensures HitsIn(f, a + b, key) == HitsIn(f, a, key) + HitsIn(f, b, key)
  {
    hide Hits, HitsIn;
    if a == [] {
      assert a + b == b;
      NoHitsIn<K, V>(f, key);
    } else {
      HitsAppend(f, a[1..], b, key);
      assert (a + b)[0] == a[0] && (a + b)[1..] == a[1..] + b;
      HitsHead(f, a, key);
      HitsHead(f, a + b, key);
      Joined(if Hits(f, a[0], f.hash(key), key) then [a[0]] else [], HitsIn(f, a[1..], key), HitsIn(f, b, key));
    }
  }

  /** The entries a key hits are those of its values. */
  lemma {:induction false} HitsAreValues<K, V>(f: Keys<K>, chain: seq<Entry<K, V>>, key: K)
    ensures |HitsIn(f, chain, key)| == |ValuesIn(f, chain, key)|
    ensures forall i | 0 <= i < |HitsIn(f, chain, key)| :: HitsIn(f, chain, key)[i].value == ValuesIn(f, chain, key)[i]
    ensures forall e :: e in HitsIn(f, chain, key) <==> e in chain && e.hash == f.hash(key) && f.same(e.key, key)
  {
    if chain != [] {
      HitsAreValues(f, chain[1..], key);
      assert chain == [chain[0]] + chain[1..];
      var h, v := HitsIn(f, chain, key), ValuesIn(f, chain, key);
      var off := if Hits(f, chain[0], f.hash(key), key) then 1 else 0;
      forall i | off <= i < |h|
        ensures h[i] == HitsIn(f, chain[1..], key)[i - off] && v[i] == ValuesIn(f, chain[1..], key)[i - off]
      {
      }
    }
  }

  lemma NoHitsIn<K, V>(f: Keys<K>, key: K)
    ensures HitsIn<K, V>(f, [], key) == []
  {
  }

  lemma HeadAndTail<T>(e: T, rest: seq<T>, all: seq<T>)
    requires all == [e] + rest
    ensures all != [] && all[0] == e && all[1..] == rest
  {
  }

  lemma Whole<T>(s: seq<T>)
    ensures s != [] ==> s == [s[0]] + s[1..]
  {
  }

  lemma HitsHead<K, V>(f: Keys<K>, chain: seq<Entry<K, V>>, key: K)
    requires chain != []
    ensures HitsIn(f, chain, key) == (if Hits(f, chain[0], f.hash(key), key) then [chain[0]] else []) + HitsIn(f, chain[1..], key)
  {
  }

  lemma {:induction false} MissesStay<K, V>(f: Keys<K>, chain: seq<Entry<K, V>>, key: K, keep: Entry<K, V> -> bool)
    requires HitsIn(f, chain, key) == []
    ensures Filter(Stays(f, key, keep), chain) == chain
  {
    hide Hits;
    if chain != [] {
      MissesStay(f, chain[1..], key, keep);
    }
  }

  lemma {:induction false} FirstIsHit<K, V>(f: Keys<K>, chain: seq<Entry<K, V>>, key: K)
    ensures HitsIn(f, chain, key) != [] ==> Hits(f, HitsIn(f, chain, key)[0], f.hash(key), key)
  {
    hide Hits;
    if chain != [] {
      FirstIsHit(f, chain[1..], key);
    }
  }

  /** The entries of the key that are left are the kept ones, ... */
  lemma {:induction false} HitsStay<K, V>(f: Keys<K>, chain: seq<Entry<K, V>>, key: K, keep: Entry<K, V> -> bool)
    ensures HitsIn(f, Filter(Stays(f, key, keep), chain), key) == Filter(keep, HitsIn(f, chain, key))
  {
    if chain != [] {
      HitsStay(f, chain[1..], key, keep);
      var stays, e, tail := Stays(f, key, keep), chain[0], chain[1..];
      assert chain == [e] + tail;
      FilterCons(stays, e, tail);
      FilterCons(keep, e, HitsIn(f, tail, key));
      HitsCons(f, e, tail, key);
      HitsCons(f, e, Filter(stays, tail), key);
      assert stays(e) == (!Hits(f, e, f.hash(key), key) || keep(e));
      hide Hits, Filter, HitsIn, Stays;
    }
  }

  lemma FilterCons<T>(keep: T -> bool, x: T, s: seq<T>)
    ensures Filter(keep, [x] + s) == if keep(x) then [x] + Filter(keep, s) else Filter(keep, s)
  {
    assert ([x] + s)[1..] == s;
  }

  lemma HitsCons<K, V>(f: Keys<K>, e: Entry<K, V>, s: seq<Entry<K, V>>, key: K)
    ensures HitsIn(f, [e] + s, key) == if Hits(f, e, f.hash(key), key) then [e] + HitsIn(f, s, key) else HitsIn(f, s, key)
  {
    assert ([e] + s)[1..] == s;
  }

  /** ... and those of another key are all left. */
  lemma {:induction false} OthersStay<K(!new), V>(f: Keys<K>, chain: seq<Entry<K, V>>, key: K, other: K, keep: Entry<K, V> -> bool)
    requires KeysOk(f) && !f.same(key, other)
    ensures ValuesIn(f, Filter(Stays(f, key, keep), chain), other) == ValuesIn(f, chain, other)
  {
    if chain != [] {
      OthersStay(f, chain[1..], key, other, keep);
      var stays, e, tail := Stays(f, key, keep), chain[0], chain[1..];
      assert chain == [e] + tail;
      FilterCons(stays, e, tail);
      assert stays(e) == (!Hits(f, e, f.hash(key), key) || keep(e));
      assert f.same(e.key, key) ==> f.same(key, e.key);
      assert f.same(key, e.key) && f.same(e.key, other) ==> f.same(key, other);
      assert Hits(f, e, f.hash(key), key) ==> !Hits(f, e, f.hash(other), other);
      hide KeysOk, Hits, Filter, Stays;
      assert ([e] + Filter(stays, tail))[1..] == Filter(stays, tail);
    }
  }

  /** In the middle of a sweep of a chain `was`, which is now `now`, with the hits `todo` still to come. */
  predicate Swept<K(==), V(==)>(f: Keys<K>, was: seq<Entry<K, V>>, now: seq<Entry<K, V>>, node: int, key: K, keep: Entry<K, V> -> bool, todo: seq<Entry<K, V>>) {
    if node < 0 then todo == [] && now == Filter(Stays(f, key, keep), was)
    else
      && node < |now| && Hits(f, now[node], f.hash(key), key)
      && todo == [now[node]] + HitsIn(f, now[node + 1..], key)
      && Filter(Stays(f, key, keep), was) == now[..node] + Filter(Stays(f, key, keep), now[node..])
  }

  lemma EndSwept<K, V>(f: Keys<K>, was: seq<Entry<K, V>>, now: seq<Entry<K, V>>, key: K, keep: Entry<K, V> -> bool, todo: seq<Entry<K, V>>)
    requires Swept(f, was, now, -1, key, keep, todo)
    ensures now == Filter(Stays(f, key, keep), was) && todo == []
  {
  }

  /** The iterator goes on from position `from` to its next hit, or to the end. */
  lemma GoOn<K(!new), V>(f: Keys<K>, was: seq<Entry<K, V>>, now: seq<Entry<K, V>>, from: nat, node: int, key: K, k: K, keep: Entry<K, V> -> bool, rest: seq<Entry<K, V>>)
    requires KeysOk(f) && f.same(key, k) && from <= |now| && rest == HitsIn(f, now[from..], k)
    requires Filter(Stays(f, key, keep), was) == now[..from] + Filter(Stays(f, key, keep), now[from..])
    requires if node < 0 then rest == []
      else from <= node < |now| && rest != [] && rest[0] == now[node] && HitsIn(f, now[node + 1..], now[node].key) == rest[1..]
    ensures Swept(f, was, now, node, key, keep, rest) && (node >= 0 ==> f.same(key, now[node].key))
  {
    hide Filter, HitsIn, Stays;
    SameHits(f, now[from..], key, k);
    assert rest != [] ==> rest == [rest[0]] + rest[1..];
    if node < 0 {
      MissesStay(f, now[from..], key, keep);
      assert now[..from] + now[from..] == now;
    } else {
      FirstIsHit(f, now[from..], key);
      var e, a, b := now[node], now[from..node], now[node..];
      HitKey(f, e, key);
      hide Hits, KeysOk;
      SameHits(f, now[node + 1..], key, e.key);
      HitFirst(f, b, key);
      assert b[1..] == now[node + 1..];
      assert now[from..] == a + b;
      HitsAppend(f, a, b, key);
      assert |HitsIn(f, a, key)| == 0;
      MissesStay(f, a, key, keep);
      FilterAppend(Stays(f, key, keep), a, b);
      Assoc(now[..from], a, Filter(Stays(f, key, keep), b));
      assert now[..from] + a == now[..node];
    }
  }

  lemma HitFirst<K, V>(f: Keys<K>, chain: seq<Entry<K, V>>, key: K)
    requires chain != [] && Hits(f, chain[0], f.hash(key), key)
    ensures HitsIn(f, chain, key) == [chain[0]] + HitsIn(f, chain[1..], key)
  {
  }

  /** The entry the iterator is at is passed over, or taken out. */
  lemma KeyStep<K(!new), V>(f: Keys<K>, was: seq<Entry<K, V>>, chain: seq<Entry<K, V>>, i: nat, key: K, k: K, keep: Entry<K, V> -> bool, todo: seq<Entry<K, V>>)
    requires KeysOk(f) && f.same(key, k) && Swept(f, was, chain, i, key, keep, todo)
    ensures i < |chain| && todo != [] && todo[0] == chain[i] && HitsIn(f, chain[i + 1..], k) == todo[1..]
    ensures var stays, now := Stays(f, key, keep), Without(chain, i);
      && (if keep(chain[i]) then Filter(stays, was) == chain[..i + 1] + Filter(stays, chain[i + 1..])
         else Filter(stays, was) == now[..i] + Filter(stays, now[i..]))
      && now[i..] == chain[i + 1..] && |now| >= i
  {
    SameHits(f, chain[i + 1..], key, k);
    hide HitsIn, KeysOk, Hits;
    var stays, now := Stays(f, key, keep), Without(chain, i);
    assert now[i..] == chain[i + 1..] && now[..i] == chain[..i] && chain[i..][1..] == chain[i + 1..];
    assert Filter(stays, chain[i..]) == (if stays(chain[i]) then [chain[i]] else []) + Filter(stays, chain[i + 1..]);
    assert stays(chain[i]) == keep(chain[i]);
    if keep(chain[i]) {
      Assoc(chain[..i], [chain[i]], Filter(stays, chain[i + 1..]));
      assert chain[..i] + [chain[i]] == chain[..i + 1];
    }
  }

  lemma SweptHits<K, V>(f: Keys<K>, was: seq<seq<Entry<K, V>>>, key: K, keep: Entry<K, V> -> bool)
    ensures HitsIn(f, ChainOf(f, KeySwept(f, was, key, keep), key), key) == Filter(keep, HitsIn(f, ChainOf(f, was, key), key))
  {
    hide BucketIdx, Stays;
    HitsStay(f, ChainOf(f, was, key), key, keep);
  }

  lemma SweptValues<K(!new), V>(f: Keys<K>, was: seq<seq<Entry<K, V>>>, key: K, other: K, keep: Entry<K, V> -> bool)
    requires KeysOk(f) && !f.same(key, other)
    ensures ValuesOf(f, KeySwept(f, was, key, keep), other) == ValuesOf(f, was, other)
  {
    hide BucketIdx, Stays, ValuesIn, Filter, KeysOk;
    OthersStay(f, ChainOf(f, was, other), key, other, keep);
  }

  lemma {:induction false} FilterSnoc<T>(keep: T -> bool, s: seq<T>, x: T)
    ensures Filter(keep, s + [x]) == Filter(keep, s) + if keep(x) then [x] else []
  {
    if s == [] {
      assert s + [x] == [x] && [x][1..] == [];
    } else {
      FilterSnoc(keep, s[1..], x);
      assert (s + [x])[1..] == s[1..] + [x];
    }
  }

  lemma StartBehind<K, V>(buckets: seq<seq<Entry<K, V>>>)
    ensures Behind(buckets, -1, -1) == Flatten(buckets)
  {
    assert buckets[0..] == buckets;
  }

  lemma FilterNone<T>(keep: T -> bool)
    ensures Filter(keep, []) == []
  {
  }

  lemma TakeFirst<T>(all: seq<T>, front: seq<T>, x: T, todo: seq<T>)
    requires todo != [] && todo[0] == x && all == front + todo
    ensures all == (front + [x]) + todo[1..] && todo == [x] + todo[1..]
  {
  }

  /** Erasing takes just the entry at the position out. */
  lemma ErasedFlat<K, V>(buckets: seq<seq<Entry<K, V>>>, b: nat, node: nat, front: seq<Entry<K, V>>)
    requires b < |buckets| && node < |buckets[b]|
    requires Flatten(buckets) == front + ([buckets[b][node]] + Behind(buckets, b, node))
    ensures Flatten(buckets[b := Without(buckets[b], node)]) == front + Behind(buckets, b, node)
  {
    var chain := buckets[b];
    FlattenUpdate(buckets, b, Without(chain, node));
    hide Flatten;
    CutOut(Flatten(buckets[..b]), chain, node, Flatten(buckets[b + 1..]), front);
  }

  lemma CutOut<T>(a: seq<T>, s: seq<T>, i: nat, rest: seq<T>, front: seq<T>)
    requires i < |s| && a + s + rest == front + ([s[i]] + (s[i + 1..] + rest))
    ensures a + (s[..i] + s[i + 1..]) + rest == front + (s[i + 1..] + rest)
  {
    var all := a + s + rest;
    assert |front| == |a| + i;
    assert front == all[..|front|] == a + s[..i];
  }

  lemma WithoutTails<T>(s: seq<T>, i: nat)
    requires i < |s|
    ensures |Without(s, i)| == |s| - 1
    ensures forall j | i < j < |s| :: Without(s, i)[j - 1] == s[j] && Without(s, i)[j..] == s[j + 1..]
  {
  }

  lemma {:induction false} NoEntries<K, V>(f: Keys<K>, chain: seq<Entry<K, V>>, key: K)
    requires ValuesIn(f, chain, key) == []
    ensures HitsIn(f, chain, key) == []
  {
    hide Hits;
    if chain != [] {
      ValuesCons(f, chain, key);
      NoEntries(f, chain[1..], key);
    }
  }

  lemma HitKey<K(!new), V>(f: Keys<K>, e: Entry<K, V>, key: K)
    requires KeysOk(f) && Hits(f, e, f.hash(key), key)
    ensures f.same(key, e.key) && f.hash(key) == f.hash(e.key) == e.hash
  {
    assert f.same(e.key, key);
  }

  lemma EmptyBehind<K, V>(buckets: seq<seq<Entry<K, V>>>, b: int)
    requires b >= |buckets|
    ensures Behind(buckets, b, -1) == [] && Behind(buckets, b - 1, -1) == []
  {
    assert buckets[|buckets|..] == [];
  }

  lemma RevOne<T>()
    ensures Rev<T>([]) == [] && forall s: seq<T> :: [] + s == s
  {
  }

  lemma RevTail<T>(s: seq<T>, more: seq<T>)
    requires s != []
    ensures Rev(s) + more == Rev(s[1..]) + ([s[0]] + more)
  {
  }

  lemma Doubled(n: nat)
    ensures PowerOfTwo(1) && (PowerOfTwo(n) ==> PowerOfTwo(2 * n))
  {
    assert Pow2(0) == 1;
    if k: nat :| n == Pow2(k) {
      assert Pow2(k + 1) == 2 * n;
    }
  }

  lemma SameValues<K(!new), V>(f: Keys<K>, buckets: seq<seq<Entry<K, V>>>, key: K, other: K)
    requires KeysOk(f) && f.same(key, other)
    ensures ValuesOf(f, buckets, key) == ValuesOf(f, buckets, other)
  {
    assert f.hash(key) == f.hash(other);
    SameIn(f, ChainOf(f, buckets, key), key, other);
  }

  lemma {:induction false} SameIn<K(!new), V>(f: Keys<K>, chain: seq<Entry<K, V>>, key: K, other: K)
    requires KeysOk(f) && f.same(key, other)
    ensures ValuesIn(f, chain, key) == ValuesIn(f, chain, other)
  {
    if chain != [] {
      SameIn(f, chain[1..], key, other);
      assert f.hash(key) == f.hash(other) && f.same(other, key);
      assert f.same(chain[0].key, key) ==> f.same(chain[0].key, other);
      assert f.same(chain[0].key, other) ==> f.same(chain[0].key, key);
    }
  }
}
