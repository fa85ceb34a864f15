/**
 The chained hash table: an array of buckets, each holding a chain of entries,
 doubled when it fills up. Seen from outside it is a map.
 */
module HashTable {
  import opened Graph

  datatype Entry<V> = Entry(key: nat, value: V)

  // A bucket that is not in use is an empty chain.
  type Chain<V> = seq<Entry<V>>

  const BUCKET_START: nat := 8
  const TOO_MANY_BUCKETS: nat := 0x8000_0000

  // ----- chains ------------------------------------------------------------------------

  function Lookup<V>(c: Chain<V>, k: nat): Option<V> {
    if c == [] then None else if c[0].key == k then Some(c[0].value) else Lookup(c[1..], k)
  }

  /** Overwrite the entry of k, or add one at the end. */
  function Put<V>(c: Chain<V>, k: nat, v: V): Chain<V> {
    if c == [] then [Entry(k, v)]
    else if c[0].key == k then [Entry(c[0].key, v)] + c[1..]
    else [c[0]] + Put(c[1..], k, v)
  }

  /** Unlink the first entry of k. */
  function Drop<V>(c: Chain<V>, k: nat): Chain<V> {
    if c == [] then []
    else if c[0].key == k then c[1..]
    else [c[0]] + Drop(c[1..], k)
  }

  ghost predicate HasKey<V>(c: Chain<V>, k: nat) {
    exists i :: 0 <= i < |c| && c[i].key == k
  }

  ghost predicate OneEach<V>(c: Chain<V>) {
    forall i, j :: 0 <= i < j < |c| ==> c[i].key != c[j].key
  }

  lemma {:induction false} LookupHasKey<V>(c: Chain<V>, k: nat)
    ensures Lookup(c, k).Some? <==> HasKey(c, k)
  {
    if c != [] {
      LookupHasKey(c[1..], k);
      if HasKey(c[1..], k) {
        var i :| 0 <= i < |c[1..]| && c[1..][i].key == k;
        assert c[i + 1].key == k;
      }
      if HasKey(c, k) && c[0].key != k {
        var i :| 0 <= i < |c| && c[i].key == k;
        assert c[1..][i - 1].key == k;
      }
    }
  }

  lemma {:induction false} LookupAt<V>(c: Chain<V>, i: nat)
    requires OneEach(c) && i < |c|
    ensures Lookup(c, c[i].key) == Some(c[i].value)
  {
    if i > 0 {
      LookupAt(c[1..], i - 1);
    }
  }

  /** What a chain answers after k was put into it. */
  lemma {:induction false} LookupPut<V>(c: Chain<V>, k: nat, v: V, k': nat)
    ensures Lookup(Put(c, k, v), k') == if k' == k then Some(v) else Lookup(c, k')
  {
    if c != [] && c[0].key != k {
      LookupPut(c[1..], k, v, k');
      assert Put(c, k, v)[1..] == Put(c[1..], k, v);
    }
  }

  lemma {:induction false} LookupDrop<V>(c: Chain<V>, k: nat, k': nat)
    requires OneEach(c)
    ensures Lookup(Drop(c, k), k') == if k' == k then None else Lookup(c, k')
  {
    if c != [] {
      if c[0].key == k {
        LookupHasKey(c[1..], k);
      } else {
        LookupDrop(c[1..], k, k');
        assert Drop(c, k)[1..] == Drop(c[1..], k);
      }
    }
  }

  lemma {:induction false} PutKeys<V>(c: Chain<V>, k: nat, v: V, k': nat)
    ensures HasKey(Put(c, k, v), k') <==> k' == k || HasKey(c, k')
  {
    LookupPut(c, k, v, k');
    LookupHasKey(c, k');
    LookupHasKey(Put(c, k, v), k');
  }

  lemma {:induction false} PutOneEach<V>(c: Chain<V>, k: nat, v: V)
    requires OneEach(c)
    ensures OneEach(Put(c, k, v))
  {
    if c != [] && c[0].key != k {
      PutOneEach(c[1..], k, v);
      PutKeys(c[1..], k, v, c[0].key);
      assert !HasKey(c[1..], c[0].key);
      var p, rest := Put(c, k, v), Put(c[1..], k, v);
      forall i, j | 0 <= i < j < |p| ensures p[i].key != p[j].key {
        assert p[j] == rest[j - 1];
        if i > 0 {
          assert p[i] == rest[i - 1];
        }
      }
    }
  }

  lemma {:induction false} DropOneEach<V>(c: Chain<V>, k: nat)
    requires OneEach(c)
    ensures OneEach(Drop(c, k)) && forall e :: e in Drop(c, k) ==> e in c
  {
    if c != [] && c[0].key != k {
      DropOneEach(c[1..], k);
      var d, rest := Drop(c, k), Drop(c[1..], k);
      forall i, j | 0 <= i < j < |d| ensures d[i].key != d[j].key {
        assert d[j] == rest[j - 1] && d[j] in c[1..];
        if i > 0 {
          assert d[i] == rest[i - 1];
        }
      }
    }
  }

  /** k is not the key of an entry before position i. */
  ghost predicate NotBefore<V>(c: Chain<V>, k: nat, i: nat) {
    i <= |c| && forall j :: 0 <= j < i ==> c[j].key != k
  }

  /** What lookup and insertion do at the position where a walk along the chain stops. */
  lemma {:induction false} StopAt<V>(c: Chain<V>, k: nat, v: V, i: nat)
    requires NotBefore(c, k, i) && (i < |c| ==> c[i].key == k)
    ensures Lookup(c, k) == if i < |c| then Some(c[i].value) else None
    ensures Put(c, k, v) == if i < |c| then c[i := Entry(k, v)] else c + [Entry(k, v)]
  {
    if i > 0 {
      StopAt(c[1..], k, v, i - 1);
      assert Put(c, k, v) == [c[0]] + Put(c[1..], k, v);
    }
  }

  /** What removal does there. */
  lemma {:induction false} StopDrop<V>(c: Chain<V>, k: nat, i: nat)
    requires NotBefore(c, k, i) && (i < |c| ==> c[i].key == k)
    ensures Drop(c, k) == if i < |c| then c[..i] + c[i + 1..] else c
  {
    if i > 0 {
      StopDrop(c[1..], k, i - 1);
      if i < |c| {
        CutBehindFirst(c, i);
      }
    }
  }

  lemma CutBehindFirst<T>(q: seq<T>, i: nat)
    requires 0 < i < |q|
    ensures q[..i] + q[i + 1..] == [q[0]] + (q[1..][..i - 1] + q[1..][i..])
  {
    assert q[..i] == [q[0]] + q[1..][..i - 1];
  }

  // ----- tables ------------------------------------------------------------------------

  function Home(hash: nat -> nat, k: nat, n: nat): (i: nat)
    requires n > 0
    ensures i < n
  {
    hash(k) % n
  }

  /** The lookup of the whole table. */
  function Find<V>(hash: nat -> nat, bs: seq<Chain<V>>, k: nat): Option<V>
    requires |bs| > 0
  {
    Lookup(bs[Home(hash, k, |bs|)], k)
  }

  /** Every chain has one entry a key, and only keys that hash to it. */
  ghost predicate GoodChain<V>(hash: nat -> nat, bs: seq<Chain<V>>, i: nat)
    requires |bs| > 0 && i < |bs|
  {
    OneEach(bs[i]) && forall k {:trigger Lookup(bs[i], k)} :: Lookup(bs[i], k).Some? ==> hash(k) % |bs| == i
  }

  ghost predicate GoodTable<V>(hash: nat -> nat, bs: seq<Chain<V>>) {
    |bs| > 0 && forall i: nat {:trigger GoodChain(hash, bs, i)} :: i < |bs| ==> GoodChain(hash, bs, i)
  }

  function Add<V>(hash: nat -> nat, bs: seq<Chain<V>>, k: nat, v: V): (bs': seq<Chain<V>>)
    requires |bs| > 0
    ensures |bs'| == |bs|
  {
    var i := Home(hash, k, |bs|);
    bs[i := Put(bs[i], k, v)]
  }

  function BucketsWithout<V>(hash: nat -> nat, bs: seq<Chain<V>>, k: nat): (bs': seq<Chain<V>>)
    requires |bs| > 0
    ensures |bs'| == |bs|
  {
    var i := Home(hash, k, |bs|);
    bs[i := Drop(bs[i], k)]
  }

  lemma AddFind<V>(hash: nat -> nat, bs: seq<Chain<V>>, k: nat, v: V, k': nat)
    requires |bs| > 0
    ensures Find(hash, Add(hash, bs, k, v), k') == if k' == k then Some(v) else Find(hash, bs, k')
  {
    LookupPut(bs[Home(hash, k, |bs|)], k, v, k');
  }

  lemma WithoutFind<V>(hash: nat -> nat, bs: seq<Chain<V>>, k: nat, k': nat)
    requires GoodTable(hash, bs)
    ensures Find(hash, BucketsWithout(hash, bs, k), k') == if k' == k then None else Find(hash, bs, k')
  {
    var i := Home(hash, k, |bs|);
    assert GoodChain(hash, bs, i);
    LookupDrop(bs[i], k, k');
  }

  lemma AddGood<V>(hash: nat -> nat, bs: seq<Chain<V>>, k: nat, v: V)
    requires GoodTable(hash, bs)
    ensures GoodTable(hash, Add(hash, bs, k, v))
  {
    var h, bs' := Home(hash, k, |bs|), Add(hash, bs, k, v);
    forall i: nat {:trigger GoodChain(hash, bs', i)} | i < |bs'| ensures GoodChain(hash, bs', i) {
      assert GoodChain(hash, bs, i);
      if i == h {
        PutOneEach(bs[h], k, v);
        forall k' {:trigger Lookup(bs'[i], k')} | Lookup(bs'[i], k').Some? ensures Home(hash, k', |bs|) == i {
          LookupPut(bs[h], k, v, k');
        }
      }
    }
  }

  lemma WithoutGood<V>(hash: nat -> nat, bs: seq<Chain<V>>, k: nat)
    requires GoodTable(hash, bs)
    ensures GoodTable(hash, BucketsWithout(hash, bs, k))
  {
    var h, bs' := Home(hash, k, |bs|), BucketsWithout(hash, bs, k);
    forall i: nat {:trigger GoodChain(hash, bs', i)} | i < |bs'| ensures GoodChain(hash, bs', i) {
      assert GoodChain(hash, bs, i);
      if i == h {
        DropOneEach(bs[h], k);
        forall k' {:trigger Lookup(bs'[i], k')} | Lookup(bs'[i], k').Some? ensures Home(hash, k', |bs|) == i {
          LookupDrop(bs[h], k, k');
        }
      }
    }
  }

  // ----- a table as a list of entries ------------------------------------------------------

  /** All entries from a bucket on, bucket after bucket. */
  function Entries<V>(bs: seq<Chain<V>>, from: nat): Chain<V>
    requires from <= |bs|
    decreases |bs| - from
  {
    if from == |bs| then [] else bs[from] + Entries(bs, from + 1)
  }

  lemma {:induction false} LookupJoin<V>(c: Chain<V>, d: Chain<V>, k: nat)
    ensures Lookup(c + d, k) == if Lookup(c, k).Some? then Lookup(c, k) else Lookup(d, k)
  {
    if c == [] {
      assert c + d == d;
    } else {
      LookupJoin(c[1..], d, k);
      assert (c + d)[1..] == c[1..] + d;
    }
  }

  /** The list of all entries answers as the table does. */
  lemma {:induction false} EntriesLookup<V>(hash: nat -> nat, bs: seq<Chain<V>>, from: nat, k: nat)
    requires GoodTable(hash, bs) && from <= |bs|
    ensures Lookup(Entries(bs, from), k) == if Home(hash, k, |bs|) >= from then Find(hash, bs, k) else None
    decreases |bs| - from
  {
    if from < |bs| {
      assert GoodChain(hash, bs, from);
      EntriesLookup(hash, bs, from + 1, k);
      LookupJoin(bs[from], Entries(bs, from + 1), k);
    }
  }

  lemma JoinOneEach<V>(c: Chain<V>, d: Chain<V>)
    requires OneEach(c) && OneEach(d) && forall k :: Lookup(c, k).Some? ==> Lookup(d, k).None?
    ensures OneEach(c + d)
  {
    forall i, j | 0 <= i < j < |c + d| ensures (c + d)[i].key != (c + d)[j].key {
      if i < |c| <= j {
        LookupAt(c, i);
        LookupAt(d, j - |c|);
      }
    }
  }

  lemma {:induction false} EntriesOneEach<V>(hash: nat -> nat, bs: seq<Chain<V>>, from: nat)
    requires GoodTable(hash, bs) && from <= |bs|
    ensures OneEach(Entries(bs, from))
    decreases |bs| - from
  {
    if from < |bs| {
      assert GoodChain(hash, bs, from);
      EntriesOneEach(hash, bs, from + 1);
      forall k | Lookup(bs[from], k).Some? ensures Lookup(Entries(bs, from + 1), k).None? {
        EntriesLookup(hash, bs, from + 1, k);
      }
      JoinOneEach(bs[from], Entries(bs, from + 1));
    }
  }

  // ----- rehashing -----------------------------------------------------------------------

  function Empty<V>(n: nat): seq<Chain<V>> {
    seq(n, _ => [])
  }

  function AddAll<V>(hash: nat -> nat, bs: seq<Chain<V>>, es: Chain<V>): (bs': seq<Chain<V>>)
    requires |bs| > 0
    ensures |bs'| == |bs|
  {
    if es == [] then bs
    else Add(hash, AddAll(hash, bs, es[..|es| - 1]), es[|es| - 1].key, es[|es| - 1].value)
  }

  lemma {:induction false} AddAllFind<V>(hash: nat -> nat, bs: seq<Chain<V>>, es: Chain<V>, k: nat)
    requires |bs| > 0 && OneEach(es)
    ensures Find(hash, AddAll(hash, bs, es), k) == if Lookup(es, k).Some? then Lookup(es, k) else Find(hash, bs, k)
  {
    if es != [] {
      var m, e := |es| - 1, es[|es| - 1];
      AddAllFind(hash, bs, es[..m], k);
      AddFind(hash, AddAll(hash, bs, es[..m]), e.key, e.value, k);
      assert es == es[..m] + [e];
      LookupJoin(es[..m], [e], k);
      LookupHasKey(es[..m], e.key);
    }
  }

  lemma {:induction false} AddAllGood<V>(hash: nat -> nat, bs: seq<Chain<V>>, es: Chain<V>)
    requires GoodTable(hash, bs)
    ensures GoodTable(hash, AddAll(hash, bs, es))
  {
    if es != [] {
      AddAllGood(hash, bs, es[..|es| - 1]);
      AddGood(hash, AddAll(hash, bs, es[..|es| - 1]), es[|es| - 1].key, es[|es| - 1].value);
    }
  }

  /** Moving all entries to a larger table changes no lookup. */
  lemma RehashFind<V>(hash: nat -> nat, bs: seq<Chain<V>>, n: nat, k: nat)
    requires GoodTable(hash, bs) && n > 0
    ensures Find(hash, AddAll(hash, Empty(n), Entries(bs, 0)), k) == Find(hash, bs, k)
  {
    EntriesOneEach(hash, bs, 0);
    EntriesLookup(hash, bs, 0, k);
    AddAllFind(hash, Empty(n), Entries(bs, 0), k);
  }

  lemma EmptyGood<V>(hash: nat -> nat, n: nat)
    requires n > 0
    ensures GoodTable(hash, Empty<V>(n)) && forall k :: Find(hash, Empty<V>(n), k) == None
  {
  }

  // ----- against a map -----------------------------------------------------------------------

  function At<V>(m: map<nat, V>, k: nat): Option<V> {
    if k in m then Some(m[k]) else None
  }

  /** The table answers every lookup as the map m does. */
  ghost predicate Agrees<V>(hash: nat -> nat, bs: seq<Chain<V>>, m: map<nat, V>) {
    GoodTable(hash, bs) && forall k {:trigger Find(hash, bs, k)} :: Find(hash, bs, k) == At(m, k)
  }

  lemma AddAgrees<V>(hash: nat -> nat, bs: seq<Chain<V>>, m: map<nat, V>, k: nat, v: V)
    requires Agrees(hash, bs, m)
    ensures Agrees(hash, Add(hash, bs, k, v), m[k := v])
  {
    AddGood(hash, bs, k, v);
    forall k' {:trigger Find(hash, Add(hash, bs, k, v), k')}
      ensures Find(hash, Add(hash, bs, k, v), k') == At(m[k := v], k')
    {
      AddFind(hash, bs, k, v, k');
      assert Find(hash, bs, k') == At(m, k');
    }
  }

  lemma WithoutAgrees<V>(hash: nat -> nat, bs: seq<Chain<V>>, m: map<nat, V>, k: nat)
    requires Agrees(hash, bs, m)
    ensures Agrees(hash, BucketsWithout(hash, bs, k), m - {k})
  {
    WithoutGood(hash, bs, k);
    forall k' {:trigger Find(hash, BucketsWithout(hash, bs, k), k')}
      ensures Find(hash, BucketsWithout(hash, bs, k), k') == At(m - {k}, k')
    {
      WithoutFind(hash, bs, k, k');
      assert Find(hash, bs, k') == At(m, k');
    }
  }

  lemma RehashAgrees<V>(hash: nat -> nat, bs: seq<Chain<V>>, m: map<nat, V>, n: nat)
    requires Agrees(hash, bs, m) && n > 0
    ensures Agrees(hash, AddAll(hash, Empty(n), Entries(bs, 0)), m)
  {
    EmptyGood<V>(hash, n);
    AddAllGood(hash, Empty(n), Entries(bs, 0));
    forall k {:trigger Find(hash, AddAll(hash, Empty(n), Entries(bs, 0)), k)}
      ensures Find(hash, AddAll(hash, Empty(n), Entries(bs, 0)), k) == At(m, k)
    {
      RehashFind(hash, bs, n, k);
      assert Find(hash, bs, k) == At(m, k);
    }
  }

  /** The entries are the pairs of the map, each exactly once. */
  lemma EntriesEnumerate<V>(hash: nat -> nat, bs: seq<Chain<V>>, m: map<nat, V>)
    requires Agrees(hash, bs, m)
    ensures OneEach(Entries(bs, 0))
    ensures forall e :: e in Entries(bs, 0) <==> e.key in m && m[e.key] == e.value
    ensures |Entries(bs, 0)| == |m|
  {
    var es := Entries(bs, 0);
    EntriesOneEach(hash, bs, 0);
    forall e ensures e in es <==> e.key in m && m[e.key] == e.value {
      EntriesLookup(hash, bs, 0, e.key);
      assert Find(hash, bs, e.key) == At(m, e.key);
      if e in es {
        var i :| 0 <= i < |es| && es[i] == e;
        LookupAt(es, i);
      }
      if e.key in m && m[e.key] == e.value {
        LookupHasKey(es, e.key);
        var i :| 0 <= i < |es| && es[i].key == e.key;
        LookupAt(es, i);
        assert es[i] == e;
      }
    }
    CountEntries(es, m);
  }

  lemma {:induction false} CountEntries<V>(es: Chain<V>, m: map<nat, V>)
    requires OneEach(es) && forall e :: e in es <==> e.key in m && m[e.key] == e.value
    ensures |es| == |m|
    decreases |es|
  {
    assert forall k :: k in m ==> Entry(k, m[k]) in es;
    if es == [] {
      assert m == map[];
    } else {
      var e, rest := es[0], es[1..];
      assert e in es;
      assert forall x :: x in rest <==> x in es && x.key != e.key;
      CountEntries(rest, m - {e.key});
      assert (m - {e.key}).Keys == m.Keys - {e.key};
    }
  }

  // ----- the table itself ------------------------------------------------------------------

  /** The bucket count times 0.6F, a single precision constant equal to 10066330 / 2^24. */
  function FillLimit(n: nat): nat {
    n * 10066330 / 16777216
  }

  /** A power of two from the first size on, which makes the product above exact in single precision. */
  ghost predicate Doubled(n: nat) {
    n == BUCKET_START || (n > BUCKET_START && n % 2 == 0 && Doubled(n / 2))
  }

  /** At most 0.6F of the buckets could be in use, unless there are too many buckets to double them. */
  predicate Roomy(used: nat, n: nat) {
    used * 16777216 < n * 10066330 || n >= TOO_MANY_BUCKETS
  }

  /** Doubling when the limit is reached leaves room for one more. */
  lemma RoomForOneMore(used: nat, n: nat)
    requires Roomy(used, n) && n >= BUCKET_START
    ensures Roomy(used + 1, if Grows(used, n) then 2 * n else n)
  {
  }

  lemma {:induction false} DoubledFromStart(n: nat)
    requires Doubled(n)
    ensures n >= BUCKET_START
  {
  }

  class Table<V> {
    const hash: nat -> nat   // the seeded hash function
    var buckets: array<Chain<V>>
    var numUsed: nat

    ghost predicate Valid(m: map<nat, V>)
      reads this, buckets
    {
      && Agrees(hash, buckets[..], m) && numUsed == |m|
      && Doubled(buckets.Length) && Roomy(numUsed, buckets.Length)
    }

    constructor (hash: nat -> nat)
      ensures Valid(map[]) && fresh(buckets)
    {
      this.hash := hash;
      buckets := new Chain<V>[BUCKET_START](_ => []);
      numUsed := 0;
      new;
      assert buckets[..] == Empty(BUCKET_START);
      EmptyGood<V>(hash, BUCKET_START);
    }

    function BucketIdx(key: nat): (i: nat)
      reads this`buckets
      requires buckets.Length > 0
      ensures i < buckets.Length
    {
      Home(hash, key, buckets.Length)
    }

    /** Walk the key's chain. */
    method Get(key: nat, ghost m: map<nat, V>) returns (val: Option<V>)
      requires Valid(m)
      ensures val == At(m, key)
    {
      assert Find(hash, buckets[..], key) == At(m, key);
      var chain := buckets[BucketIdx(key)];
      var cur := 0;
      while cur < |chain|
        invariant NotBefore(chain, key, cur)
      {
        if chain[cur].key == key {
          StopAt(chain, key, chain[cur].value, cur);
          return Some(chain[cur].value);
        }
        cur := cur + 1;
      }
      if chain != [] {
        StopAt(chain, key, chain[0].value, cur);
      }
      val := None;
    }

    /** Overwrite the key's entry in its chain, or link a new one at the end. */
    method AddToBucket(key: nat, val: V, rehash: bool)
      requires buckets.Length > 0
      modifies this`numUsed, buckets
      ensures buckets[..] == Add(hash, old(buckets[..]), key, val)
      ensures numUsed == old(numUsed) + if rehash || Find(hash, old(buckets[..]), key).Some? then 0 else 1
    {
      var idx := BucketIdx(key);
      var chain := buckets[idx];
      var cur := 0;
      while cur < |chain| && chain[cur].key != key
        invariant NotBefore(chain, key, cur)
      {
        cur := cur + 1;
      }
      StopAt(chain, key, val, cur);
      if cur < |chain| {
        buckets[idx] := chain[cur := Entry(chain[cur].key, val)];
      } else {
        buckets[idx] := chain + [Entry(key, val)];
        if !rehash {
          numUsed := numUsed + 1;
        }
      }
      assert buckets[..] == old(buckets[..])[idx := Put(chain, key, val)];
    }

    /** Double the buckets when the table is filled, up to a limit; nothing observable changes. */
    method Rehash(ghost m: map<nat, V>)
      requires Valid(m)
      modifies this`buckets, this`numUsed, buckets
      ensures Valid(m) && numUsed == old(numUsed) && Roomy(numUsed + 1, buckets.Length)
      ensures buckets == old(buckets) || fresh(buckets)
      ensures buckets.Length ==
        if Grows(old(numUsed), old(buckets.Length)) then 2 * old(buckets.Length) else old(buckets.Length)
    {
      DoubledFromStart(buckets.Length);
      RoomForOneMore(numUsed, buckets.Length);
      if Grows(numUsed, buckets.Length) {
        Double(m);
      }
    }

    /** Move everything to twice as many buckets. */
    method Double(ghost m: map<nat, V>)
      requires buckets.Length > 0 && Agrees(hash, buckets[..], m)
      modifies this`buckets, this`numUsed
      ensures Agrees(hash, buckets[..], m) && numUsed == old(numUsed)
      ensures fresh(buckets) && buckets.Length == 2 * old(buckets.Length)
    {
      ghost var bs := buckets[..];
      var source := buckets;
      buckets := new Chain<V>[2 * buckets.Length](_ => []);
      assert buckets[..] == Empty(2 * |bs|);
      MoveAll(source);
      RehashAgrees(hash, bs, m, 2 * |bs|);
    }

    /** Add the entries of all old chains. */
    method MoveAll(source: array<Chain<V>>)
      requires buckets.Length > 0 && source != buckets
      modifies this`numUsed, buckets
      ensures numUsed == old(numUsed)
      ensures buckets[..] == AddAll(hash, old(buckets[..]), Entries(source[..], 0))
    {
      ghost var bs, empty := source[..], buckets[..];
      for i := 0 to source.Length
        invariant source[..] == bs && numUsed == old(numUsed)
        invariant AddAll(hash, buckets[..], Entries(bs, i)) == AddAll(hash, empty, Entries(bs, 0))
      {
        assert source[i] == bs[i] && Entries(bs, i) == bs[i] + Entries(bs, i + 1);
        MoveChain(source[i], Entries(bs, i + 1));
      }
    }

    /** Add the entries of one old chain; `rest` is still to come. */
    method MoveChain(chain: Chain<V>, ghost rest: Chain<V>)
      requires buckets.Length > 0
      modifies this`numUsed, buckets
      ensures numUsed == old(numUsed)
      ensures AddAll(hash, buckets[..], rest) == AddAll(hash, old(buckets[..]), chain + rest)
    {
      var cur := 0;
      while cur < |chain|
        invariant cur <= |chain| && numUsed == old(numUsed)
        invariant AddAll(hash, buckets[..], chain[cur..] + rest) == AddAll(hash, old(buckets[..]), chain + rest)
      {
        AddAllNext(hash, buckets[..], chain, cur, rest);
        AddToBucket(chain[cur].key, chain[cur].value, true);
        cur := cur + 1;
      }
      assert chain[cur..] + rest == rest;
    }

    method Insert(key: nat, val: V, ghost m: map<nat, V>)
      requires Valid(m)
      modifies this`buckets, this`numUsed, buckets
      ensures Valid(m[key := val]) && (buckets == old(buckets) || fresh(buckets))
    {
      Rehash(m);
      AddAgrees(hash, buckets[..], m, key, val);
      assert Find(hash, buckets[..], key) == At(m, key);
      AddToBucket(key, val, false);
    }

    /** Unlink the key's entry; an absent key ends the program, here `found` is false. */
    method Remove(key: nat, ghost m: map<nat, V>) returns (found: bool)
      requires Valid(m)
      modifies this`numUsed, buckets
      ensures found <==> key in m
      ensures Valid(m - {key})
    {
      ghost var bs := buckets[..];
      assert Find(hash, bs, key) == At(m, key);
      found := Unlink(key);
      WithoutAgrees(hash, bs, m, key);
      assert found <==> key in m;
      if found {
        numUsed := numUsed - 1;
      } else {
        assert m - {key} == m;
      }
    }

    /** Take the key's entry out of its chain: the head is overwritten by its successor, others are bypassed. */
    method Unlink(key: nat) returns (found: bool)
      requires buckets.Length > 0
      modifies buckets
      ensures found <==> Find(hash, old(buckets[..]), key).Some?
      ensures buckets[..] == BucketsWithout(hash, old(buckets[..]), key)
    {
      var idx := BucketIdx(key);
      var chain := buckets[idx];
      if chain == [] {
        return false;
      }
      if chain[0].key == key {
        buckets[idx] := chain[1..];
        return true;
      }
      var cur := 1;
      while cur < |chain| && chain[cur].key != key
        invariant cur >= 1 && NotBefore(chain, key, cur)
      {
        cur := cur + 1;
      }
      StopAt(chain, key, chain[0].value, cur);
      StopDrop(chain, key, cur);
      found := cur < |chain|;
      if found {
        buckets[idx] := chain[..cur] + chain[cur + 1..];
      }
      assert buckets[..] == old(buckets[..])[idx := Drop(chain, key)];
    }
  }

  predicate Grows(used: nat, n: nat) {
    !(used + 1 < FillLimit(n) || n >= TOO_MANY_BUCKETS)
  }

  /** The entries may be added front first. */
  lemma AddAllNext<V>(hash: nat -> nat, bs: seq<Chain<V>>, chain: Chain<V>, i: nat, rest: Chain<V>)
    requires |bs| > 0 && i < |chain|
    ensures AddAll(hash, bs, chain[i..] + rest) ==
      AddAll(hash, Add(hash, bs, chain[i].key, chain[i].value), chain[i + 1..] + rest)
  {
    assert chain[i..] + rest == [chain[i]] + (chain[i + 1..] + rest);
    AddAllFront(hash, bs, chain[i], chain[i + 1..] + rest);
  }

  lemma {:induction false} AddAllFront<V>(hash: nat -> nat, bs: seq<Chain<V>>, e: Entry<V>, es: Chain<V>)
    requires |bs| > 0
    ensures AddAll(hash, bs, [e] + es) == AddAll(hash, Add(hash, bs, e.key, e.value), es)
    decreases |es|
  {
    var all := [e] + es;
    if es == [] {
      assert all[..|all| - 1] == [];
    } else {
      AddAllFront(hash, bs, e, es[..|es| - 1]);
      assert all[..|all| - 1] == [e] + es[..|es| - 1];
    }
  }

  // ----- iteration ---------------------------------------------------------------------------

  /** Where the next entry is: in the rest of a chain, or else from a bucket on. */
  class Iterator<V> {
    const ht: Table<V>
    var cur: Option<(nat, nat)>   // bucket and position of the entry to hand out next
    var idx: nat

    constructor (ht: Table<V>)
      ensures this.ht == ht && Valid() && Remaining() == Entries(ht.buckets[..], 0)
    {
      this.ht := ht;
      cur := None;
      idx := 0;
    }

    ghost predicate Valid()
      reads this, ht, ht.buckets
    {
      && idx <= ht.buckets.Length
      && (cur.Some? ==> cur.value.0 < ht.buckets.Length && cur.value.1 < |ht.buckets[cur.value.0]|)
    }

    /** The entries that are still to come. */
    ghost function Remaining(): Chain<V>
      reads this, ht, ht.buckets
      requires Valid()
    {
      (if cur.Some? then ht.buckets[cur.value.0][cur.value.1..] else []) + Entries(ht.buckets[..], idx)
    }

    /** Move on to the next bucket in use. */
    method SkipUnused()
      requires idx <= ht.buckets.Length
      modifies this`idx
      ensures old(idx) <= idx <= ht.buckets.Length && (idx < ht.buckets.Length ==> ht.buckets[idx] != [])
      ensures Entries(ht.buckets[..], idx) == Entries(ht.buckets[..], old(idx))
    {
      while idx < ht.buckets.Length && ht.buckets[idx] == []
        invariant old(idx) <= idx <= ht.buckets.Length
        invariant Entries(ht.buckets[..], idx) == Entries(ht.buckets[..], old(idx))
      {
        idx := idx + 1;
      }
    }

    /** Hand out the current entry and step along its chain. */
    method Take() returns (entry: Entry<V>)
      requires Valid() && cur.Some?
      modifies this`cur
      ensures Valid() && old(Remaining()) == [entry] + Remaining()
    {
      var b, j := cur.value.0, cur.value.1;
      var chain := ht.buckets[b];
      entry := chain[j];
      cur := if j + 1 < |chain| then Some((b, j + 1)) else None;
      assert chain[j..] == [chain[j]] + chain[j + 1..];
    }

    /** Hand out the next entry, if there is one. */
    method Next() returns (entry: Option<Entry<V>>)
      requires Valid()
      modifies this
      ensures Valid()
      ensures entry.Some? ==> old(Remaining()) == [entry.value] + Remaining()
      ensures entry.None? ==> old(Remaining()) == [] == Remaining()
    {
      ghost var bs := ht.buckets[..];
      if cur.None? {
        SkipUnused();
        if idx >= ht.buckets.Length {
          return None;
        }
        cur := Some((idx, 0));
        idx := idx + 1;
        assert bs[idx - 1][0..] == bs[idx - 1];
      }
      assert old(Remaining()) == Remaining();
      var e := Take();
      entry := Some(e);
    }
  }
}
