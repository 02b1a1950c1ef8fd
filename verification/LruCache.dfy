/**
  The LRU cache with expiration of internal/agdcache/default.go.  The underlying
  simplelru is modelled as a bounded list, most recently used first.
 */
module LruCache {
  import opened Wrappers

  /** expiration is a time in nanoseconds; zero means never. */
  datatype Entry<V> = Entry(val: V, expiration: int)

  datatype Item<K, V> = Item(key: K, entry: Entry<V>)

  function Find<K(==), V>(items: seq<Item<K, V>>, key: K): (i: nat)
    ensures i <= |items|
    ensures i < |items| ==> items[i].key == key
    ensures forall k | 0 <= k < i :: items[k].key != key
  {
    if items == [] || items[0].key == key then 0 else 1 + Find(items[1..], key)
  }

  function Without<K, V>(items: seq<Item<K, V>>, i: nat): seq<Item<K, V>> {
    if i < |items| then items[..i] + items[i + 1..] else items
  }

  function Take<T>(s: seq<T>, n: nat): seq<T> {
    if |s| <= n then s else s[..n]
  }

  /** LRU.Add: the key comes first and the least recently used item falls off a full list. */
  function Added<K(==), V>(items: seq<Item<K, V>>, count: nat, key: K, e: Entry<V>): seq<Item<K, V>> {
    Take([Item(key, e)] + Without(items, Find(items, key)), count)
  }

  ghost predicate DistinctKeys<K, V>(items: seq<Item<K, V>>) {
    forall i, j | 0 <= i < j < |items| :: items[i].key != items[j].key
  }

  /** Adding puts the new entry first; every other item is an old one, and only the oldest can be missing. */
  lemma AddedContents<K, V>(items: seq<Item<K, V>>, count: nat, key: K, e: Entry<V>)
    requires DistinctKeys(items) && 0 < count && |items| <= count
    ensures
      var out := Added(items, count, key, e);
      && DistinctKeys(out) && 0 < |out| <= count
      && out[0] == Item(key, e)
      && (forall k | 0 < k < |out| :: out[k] in items && out[k].key != key)
      && (forall i | 0 <= i < |items| && items[i].key != key ::
            items[i] in out || (i == |items| - 1 && |items| == count && Find(items, key) == |items|))
  {
    var f := Find(items, key);
    var rest := Without(items, f);
    var out := Added(items, count, key, e);
    forall i | 0 <= i < |items| && items[i].key != key && (i < |items| - 1 || f < |items| || |items| < count)
      ensures items[i] in out
    {
      var p := if i < f then i else i - 1;
      assert rest[p] == items[i];
      assert out[p + 1] == items[i];
    }
  }

  /** What adding leaves: the new entry, and the others in their order, without the last one if there is no room. */
  ghost predicate Inserted<K, V>(
    items: seq<Item<K, V>>, count: nat, key: K, e: Entry<V>, out: seq<Item<K, V>>)
    requires 0 < count
  {
    && (forall i | 0 <= i < |items| && items[i].key == key :: out == [Item(key, e)] + items[..i] + items[i + 1..])
    && ((forall i | 0 <= i < |items| :: items[i].key != key) ==>
          out == [Item(key, e)] + if |items| < count then items else items[..count - 1])
  }

  lemma AddedInserts<K, V>(items: seq<Item<K, V>>, count: nat, key: K, e: Entry<V>)
    requires DistinctKeys(items) && 0 < count && |items| <= count
    ensures Inserted(items, count, key, e, Added(items, count, key, e))
  {
    var f := Find(items, key);
    forall i | 0 <= i < |items| && items[i].key == key ensures i == f {
    }
    if f < |items| {
      assert [Item(key, e)] + (items[..f] + items[f + 1..]) == [Item(key, e)] + items[..f] + items[f + 1..];
    }
  }

  predicate Expired<V>(e: Entry<V>, now: int) {
    e.expiration > 0 && now > e.expiration
  }

  /** A hit comes first, an expired entry goes, and the others keep their order. */
  function AfterGet<K(==), V>(items: seq<Item<K, V>>, key: K, now: int): seq<Item<K, V>> {
    var i := Find(items, key);
    if i == |items| then items
    else if Expired(items[i].entry, now) then Without(items, i)
    else [items[i]] + Without(items, i)
  }

  /** What a lookup finds. */
  function Got<K(==), V>(items: seq<Item<K, V>>, key: K, now: int): Option<V> {
    var i := Find(items, key);
    if i < |items| && !Expired(items[i].entry, now) then Some(items[i].entry.val) else None
  }

  /** A live item for a key. */
  ghost predicate Live<K, V>(items: seq<Item<K, V>>, key: K, now: int) {
    exists item | item in items :: item.key == key && !Expired(item.entry, now)
  }

  lemma GotIsLive<K, V>(items: seq<Item<K, V>>, key: K, now: int)
    requires DistinctKeys(items)
    ensures Got(items, key, now).Some? <==> Live(items, key, now)
    ensures forall item | item in items && item.key == key && !Expired(item.entry, now) ::
              Got(items, key, now) == Some(item.entry.val)
  {
    var i := Find(items, key);
    if i < |items| {
      OnlyOne(items, i);
    }
  }

  /** Looking up brings no new items. */
  lemma AfterGetContents<K, V>(items: seq<Item<K, V>>, key: K, now: int)
    requires DistinctKeys(items)
    ensures DistinctKeys(AfterGet(items, key, now)) && |AfterGet(items, key, now)| <= |items|
    ensures forall item | item in AfterGet(items, key, now) :: item in items
    ensures forall item | item in items && item.key != key :: item in AfterGet(items, key, now)
  {
    var i := Find(items, key);
    if i < |items| {
      WithoutContents(items, i);
      FirstIsDistinct(items[i], Without(items, i));
      hide Without;
      hide DistinctKeys;
    }
  }

  /**
    What a lookup leaves: a live item comes first and the others follow in their
    order; of an expired one only the others are left; and a miss changes nothing.
   */
  ghost predicate Touched<K, V>(items: seq<Item<K, V>>, key: K, now: int, out: seq<Item<K, V>>) {
    && (forall i | 0 <= i < |items| && items[i].key == key ::
          var expiration := items[i].entry.expiration;
          if expiration > 0 && now > expiration
          then out == items[..i] + items[i + 1..]
          else out == [items[i]] + items[..i] + items[i + 1..])
    && ((forall i | 0 <= i < |items| :: items[i].key != key) ==> out == items)
  }

  lemma AfterGetTouches<K, V>(items: seq<Item<K, V>>, key: K, now: int)
    requires DistinctKeys(items)
    ensures Touched(items, key, now, AfterGet(items, key, now))
  {
    var f := Find(items, key);
    forall i | 0 <= i < |items| && items[i].key == key ensures i == f {
    }
    if f < |items| {
      assert [items[f]] + (items[..f] + items[f + 1..]) == [items[f]] + items[..f] + items[f + 1..];
    }
  }

  lemma FirstIsDistinct<K, V>(first: Item<K, V>, rest: seq<Item<K, V>>)
    requires DistinctKeys(rest) && forall item | item in rest :: item.key != first.key
    ensures DistinctKeys([first] + rest)
  {
  }

  lemma OnlyOne<K, V>(items: seq<Item<K, V>>, i: nat)
    requires i < |items| && DistinctKeys(items)
    ensures forall item | item in items && item.key == items[i].key :: item == items[i]
  {
  }

  class Default<K(==), V> {
    const count: nat
    var items: seq<Item<K, V>>

    ghost predicate Valid()
      reads this
    {
      0 < count && |items| <= count && DistinctKeys(items)
    }

    constructor (count: nat)
      requires 0 < count
      ensures Valid() && this.count == count && items == []
    {
      this.count := count;
      items := [];
    }

    method Set(key: K, val: V)
      requires Valid()
      modifies this
      ensures Valid() && items == Added(old(items), count, key, Entry(val, 0))
      ensures Inserted(old(items), count, key, Entry(val, 0), items)
    {
      AddedInserts(items, count, key, Entry(val, 0));
      AddedContents(items, count, key, Entry(val, 0));
      items := Added(items, count, key, Entry(val, 0));
    }

    method SetWithExpire(key: K, val: V, duration: int, now: int)
      requires Valid()
      modifies this
      ensures Valid() && items == Added(old(items), count, key, Entry(val, now + duration))
      ensures Inserted(old(items), count, key, Entry(val, now + duration), items)
    {
      AddedInserts(items, count, key, Entry(val, now + duration));
      AddedContents(items, count, key, Entry(val, now + duration));
      items := Added(items, count, key, Entry(val, now + duration));
    }

    /** Get: an expired entry is removed, any other becomes the most recently used. */
    method Get(key: K, now: int) returns (val: Option<V>)
      requires Valid()
      modifies this
      ensures Valid()
      ensures val == Got(old(items), key, now) && (val.Some? <==> Live(old(items), key, now))
      ensures items == AfterGet(old(items), key, now) && Touched(old(items), key, now, items)
    {
      GotIsLive(items, key, now);
      AfterGetTouches(items, key, now);
      AfterGetContents(items, key, now);
      hide DistinctKeys;
      hide Touched;
      hide Live;
      var i := Find(items, key);
      if i == |items| {
        return None;
      }
      var item := items[i];
      if item.entry.expiration > 0 && now > item.entry.expiration {
        items := Without(items, i);
        return None;
      }
      items := [item] + Without(items, i);
      return Some(item.entry.val);
    }

    method Clear()
      requires Valid()
      modifies this
      ensures Valid() && items == []
    {
      items := [];
    }

    function Len(): (n: nat)
      requires Valid()
      reads this
      ensures n <= count
    {
      |items|
    }
  }

  lemma WithoutContents<K, V>(items: seq<Item<K, V>>, i: nat)
    requires i < |items| && DistinctKeys(items)
    ensures DistinctKeys(Without(items, i)) && |Without(items, i)| == |items| - 1
    ensures forall item :: item in Without(items, i) <==> item in items && item.key != items[i].key
  {
    var out := Without(items, i);
    forall item | item in items && item.key != items[i].key ensures item in out {
      var k :| 0 <= k < |items| && items[k] == item;
      assert out[if k < i then k else k - 1] == item;
    }
  }

  // ----- least recently used

  datatype Op<K, V> = Store(key: K, entry: Entry<V>) | Fetch(key: K, now: int)

  function Do<K(==), V>(items: seq<Item<K, V>>, count: nat, op: Op<K, V>): seq<Item<K, V>> {
    match op
    case Store(key, e) => Added(items, count, key, e)
    case Fetch(key, now) => AfterGet(items, key, now)
  }

  function DoAll<K(==), V>(items: seq<Item<K, V>>, count: nat, ops: seq<Op<K, V>>): seq<Item<K, V>> {
    if ops == [] then items else Do(DoAll(items, count, ops[..|ops| - 1]), count, ops[|ops| - 1])
  }

  ghost function Keys<K, V>(ops: seq<Op<K, V>>): set<K> {
    set op | op in ops :: op.key
  }

  /** The item is there, and only keys of ks are in front of it. */
  ghost predicate Behind<K, V>(items: seq<Item<K, V>>, item: Item<K, V>, p: nat, ks: set<K>) {
    && p < |items| && items[p] == item
    && forall i | 0 <= i < p :: items[i].key in ks
  }

  /** The keys in front of a place are as many as there are places in front of it. */
  lemma {:induction false} FrontSize<K, V>(items: seq<Item<K, V>>, p: nat, ks: set<K>)
    requires p <= |items| && DistinctKeys(items) && forall i | 0 <= i < p :: items[i].key in ks
    ensures p <= |ks|
  {
    if p > 0 {
      var k := items[p - 1].key;
      FrontSize(items, p - 1, ks - {k});
    }
  }

  /** The places of a list with one item put in front of the others. */
  lemma Fronted<K, V>(items: seq<Item<K, V>>, f: nat, first: Item<K, V>)
    requires f <= |items|
    ensures
      var out := [first] + Without(items, f);
      && |out| == (if f < |items| then |items| else |items| + 1) && out[0] == first
      && forall k | 0 < k < |out| :: out[k] == items[if k <= f then k - 1 else k]
  {
  }

  /** Place k of a list after adding, in terms of the place f of the old entry. */
  lemma AddedAt<K, V>(items: seq<Item<K, V>>, count: nat, key: K, e: Entry<V>, f: nat)
    requires 0 < count && |items| <= count && f == Find(items, key)
    ensures
      var out := Added(items, count, key, e);
      && |out| == (if f < |items| then |items| else if |items| < count then |items| + 1 else count)
      && out[0] == Item(key, e)
      && forall k | 0 < k < |out| :: out[k] == items[if k <= f then k - 1 else k]
  {
    Fronted(items, f, Item(key, e));
    hide Find;
    hide Without;
  }

  lemma StoreKeepsBehind<K, V>(
    items: seq<Item<K, V>>, count: nat, key: K, e: Entry<V>, item: Item<K, V>, p: nat, ks: set<K>) returns (q: nat)
    requires DistinctKeys(items) && |items| <= count && key != item.key
    requires Behind(items, item, p, ks) && |ks + {key}| < count
    ensures Behind(Added(items, count, key, e), item, q, ks + {key})
  {
    var f := Find(items, key);
    AddedAt(items, count, key, e, f);
    if f == |items| {
      FrontSize(items, p, ks - {key});
      assert ks + {key} == ks - {key} + {key};
    }
    hide Added;
    hide Find;
    hide DistinctKeys;
    q := if p < f then p + 1 else p;
    var out := Added(items, count, key, e);
    assert q < |out| && out[q] == items[p];
    forall i | 0 <= i < q ensures out[i].key in ks + {key} {
      assert i == 0 || out[i] == items[if i <= f then i - 1 else i];
    }
  }

  /** Place k of a list after a hit, in terms of the place f of the hit. */
  lemma HitAt<K, V>(items: seq<Item<K, V>>, key: K, now: int, f: nat)
    requires f == Find(items, key) && f < |items| && !Expired(items[f].entry, now)
    ensures
      var out := AfterGet(items, key, now);
      && |out| == |items| && out[0] == items[f]
      && forall k | 0 < k < |out| :: out[k] == items[if k <= f then k - 1 else k]
  {
    Fronted(items, f, items[f]);
    hide Find;
    hide Without;
  }

  lemma FetchKeepsBehind<K, V>(items: seq<Item<K, V>>, key: K, now: int, item: Item<K, V>, p: nat, ks: set<K>)
    returns (q: nat)
    requires key != item.key && Behind(items, item, p, ks)
    ensures Behind(AfterGet(items, key, now), item, q, ks + {key})
  {
    var f := Find(items, key);
    if f == |items| {
      q := p;
    } else if Expired(items[f].entry, now) {
      q := if p < f then p else p - 1;
    } else {
      HitAt(items, key, now, f);
      hide AfterGet;
      hide Find;
      q := if p < f then p + 1 else p;
      var out := AfterGet(items, key, now);
      assert out[q] == items[p];
      forall i | 0 <= i < q ensures out[i].key in ks + {key} {
        assert i == 0 || out[i] == items[if i <= f then i - 1 else i];
      }
    }
  }

  lemma DoKeepsSize<K, V>(items: seq<Item<K, V>>, count: nat, op: Op<K, V>)
    requires DistinctKeys(items) && 0 < count && |items| <= count
    ensures DistinctKeys(Do(items, count, op)) && |Do(items, count, op)| <= count
  {
    match op
    case Store(key, e) => AddedContents(items, count, key, e);
    case Fetch(key, now) => AfterGetContents(items, key, now);
  }

  lemma PlusSize<K>(ks: set<K>, key: K)
    ensures |ks + {key}| == |ks| + if key in ks then 0 else 1
  {
    if key in ks {
      assert ks + {key} == ks;
    }
  }

  lemma KeysLast<K, V>(ops: seq<Op<K, V>>)
    requires ops != []
    ensures Keys(ops) == Keys(ops[..|ops| - 1]) + {ops[|ops| - 1].key}
  {
    assert ops == ops[..|ops| - 1] + [ops[|ops| - 1]];
  }

  lemma {:induction false} StaysBehind<K, V>(
    items: seq<Item<K, V>>, count: nat, ops: seq<Op<K, V>>, item: Item<K, V>) returns (p: nat)
    requires DistinctKeys(items) && |items| <= count && items != [] && items[0] == item
    requires item.key !in Keys(ops) && |Keys(ops)| < count
    ensures
      var out := DoAll(items, count, ops);
      DistinctKeys(out) && |out| <= count && Behind(out, item, p, Keys(ops))
  {
    if ops == [] {
      p := 0;
    } else {
      var n := |ops| - 1;
      var ks := Keys(ops[..n]);
      KeysLast(ops);
      PlusSize(ks, ops[n].key);
      var q := StaysBehind(items, count, ops[..n], item);
      var was := DoAll(items, count, ops[..n]);
      assert DoAll(items, count, ops) == Do(was, count, ops[n]);
      hide DoAll;
      hide Keys;
      hide DistinctKeys;
      hide Behind;
      DoKeepsSize(was, count, ops[n]);
      match ops[n]
      case Store(key, e) => p := StoreKeepsBehind(was, count, key, e, item, q, ks);
      case Fetch(key, now) => p := FetchKeepsBehind(was, key, now, item, q, ks);
    }
  }

  /** What has just been used survives any operations on fewer other keys than the cache has room for. */
  lemma RecentStays<K, V>(items: seq<Item<K, V>>, count: nat, ops: seq<Op<K, V>>)
    requires DistinctKeys(items) && |items| <= count && items != []
    requires items[0].key !in Keys(ops) && |Keys(ops)| < count
    ensures items[0] in DoAll(items, count, ops)
  {
    var p := StaysBehind(items, count, ops, items[0]);
    hide DoAll;
  }

  ghost predicate AllStores<K, V>(ops: seq<Op<K, V>>) {
    forall i | 0 <= i < |ops| :: ops[i].Store?
  }

  /** The keys of ks lead the list, all of them unless they are more than there is room for. */
  ghost predicate Led<K, V>(items: seq<Item<K, V>>, count: nat, ks: set<K>) {
    var m := if |ks| < count then |ks| else count;
    m <= |items| && forall i | 0 <= i < |items| :: items[i].key in ks <==> i < m
  }

  /** As many places as keys hold every key. */
  lemma {:induction false} FullFront<K, V>(items: seq<Item<K, V>>, m: nat, ks: set<K>, key: K) returns (i: nat)
    requires m <= |items| && DistinctKeys(items) && key in ks && |ks| == m
    requires forall i | 0 <= i < m :: items[i].key in ks
    ensures i < m && items[i].key == key
  {
    var k := items[m - 1].key;
    if k == key {
      i := m - 1;
    } else {
      i := FullFront(items, m - 1, ks - {k}, key);
    }
  }

  lemma OtherKey<K, V>(items: seq<Item<K, V>>, key: K, j: nat)
    requires DistinctKeys(items) && j < |items| && j != Find(items, key)
    ensures items[j].key != key
  {
  }

  lemma LedIsFound<K, V>(items: seq<Item<K, V>>, count: nat, key: K, ks: set<K>)
    requires DistinctKeys(items) && Led(items, count, ks) && key in ks && |ks| <= count
    ensures Find(items, key) < |ks|
  {
    var i := FullFront(items, |ks|, ks, key);
  }

  lemma StoreLeads<K, V>(items: seq<Item<K, V>>, count: nat, key: K, e: Entry<V>, ks: set<K>)
    requires DistinctKeys(items) && 0 < count && |items| <= count && Led(items, count, ks)
    ensures Led(Added(items, count, key, e), count, ks + {key})
  {
    var f := Find(items, key);
    AddedAt(items, count, key, e, f);
    PlusSize(ks, key);
    if key in ks && |ks| <= count {
      LedIsFound(items, count, key, ks);
    }
    var out, more := Added(items, count, key, e), ks + {key};
    hide Added;
    hide Find;
    hide DistinctKeys;
    var m := if |ks| < count then |ks| else count;
    forall i | 0 < i < |out| ensures out[i].key in more <==> (if i <= f then i - 1 else i) < m {
      OtherKey(items, key, if i <= f then i - 1 else i);
    }
  }

  lemma {:induction false} StoresLead<K, V>(items: seq<Item<K, V>>, count: nat, ops: seq<Op<K, V>>)
    requires DistinctKeys(items) && 0 < count && |items| <= count && AllStores(ops)
    ensures
      var out := DoAll(items, count, ops);
      DistinctKeys(out) && |out| <= count && Led(out, count, Keys(ops))
  {
    if ops != [] {
      var n := |ops| - 1;
      KeysLast(ops);
      StoresLead(items, count, ops[..n]);
      var was := DoAll(items, count, ops[..n]);
      assert DoAll(items, count, ops) == Added(was, count, ops[n].key, ops[n].entry);
      hide DoAll;
      hide Keys;
      hide DistinctKeys;
      hide Led;
      AddedContents(was, count, ops[n].key, ops[n].entry);
      StoreLeads(was, count, ops[n].key, ops[n].entry, Keys(ops[..n]));
    }
  }

  /** Once a key has been used, storing others drops it exactly when they are as many as the cache has room for. */
  lemma DroppedIff<K, V>(items: seq<Item<K, V>>, count: nat, ops: seq<Op<K, V>>)
    requires DistinctKeys(items) && |items| <= count && items != []
    requires AllStores(ops) && items[0].key !in Keys(ops)
    ensures items[0] in DoAll(items, count, ops) <==> |Keys(ops)| < count
  {
    if |Keys(ops)| < count {
      RecentStays(items, count, ops);
    } else {
      StoresLead(items, count, ops);
      hide DoAll;
    }
  }

  /** In a cache of size two: with A and B stored, looking A up saves it from C, which B makes room for. */
  lemma LookupSaves<K, V>(a: K, b: K, c: K, x: Entry<V>, y: Entry<V>, z: Entry<V>, now: int)
    requires a != b && a != c && b != c && !Expired(x, now) && !Expired(z, now)
    ensures
      var out := DoAll([], 2, [Store(a, x), Store(b, y), Fetch(a, now), Store(c, z)]);
      Live(out, a, now) && Live(out, c, now) && !Live(out, b, now)
  {
    var ops := [Store(a, x), Store(b, y), Fetch(a, now), Store(c, z)];
    var s1, s2, s3, s4 := [Item(a, x)], [Item(b, y), Item(a, x)], [Item(a, x), Item(b, y)], [Item(c, z), Item(a, x)];
    assert ops[..3][..2] == ops[..2] && ops[..2][..1] == ops[..1] && ops[..1][..0] == [];
    assert DoAll([], 2, ops[..1]) == s1;
    assert DoAll([], 2, ops[..2]) == s2;
    assert Find(s2, a) == 1;
    assert DoAll([], 2, ops[..3]) == s3;
    assert Find(s3, c) == 2;
    assert DoAll([], 2, ops) == s4;
    assert s4[0].key == c && s4[1].key == a;
  }
}
