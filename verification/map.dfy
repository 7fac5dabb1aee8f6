/**
 * `Map<String, Value>` in its default build: a `BTreeMap`, that is, the
 * entries kept in ascending key order with one entry per key. The model
 * keeps that in-order sequence of items; `View` is the finite map it
 * stands for, and every operation is stated against that view.
 * Keys are the UTF-8 bytes of Rust `String`s, and `String`'s order is the
 * byte-wise lexicographic order `Less`.
 */
module JsonMap {
  import opened Common

  /** `str`'s `Ord`: byte by byte, and a proper prefix comes first. */
  predicate Less(a: Bytes, b: Bytes)
    decreases |a|
  {
    if |a| == 0 then |b| > 0
    else if |b| == 0 then false
    else if a[0] == b[0] then Less(a[1..], b[1..])
    else a[0] < b[0]
  }

  lemma {:induction false} LessIrreflexive(a: Bytes)
    ensures !Less(a, a)
    decreases |a|
  {
    if |a| > 0 {
      LessIrreflexive(a[1..]);
    }
  }

  lemma {:induction false} LessTransitive(a: Bytes, b: Bytes, c: Bytes)
    requires Less(a, b) && Less(b, c)
    ensures Less(a, c)
    decreases |a|
  {
    if |a| > 0 && |b| > 0 && |c| > 0 && a[0] == b[0] && b[0] == c[0] {
      LessTransitive(a[1..], b[1..], c[1..]);
    }
  }

  lemma {:induction false} LessTotal(a: Bytes, b: Bytes)
    ensures a == b || Less(a, b) || Less(b, a)
    decreases |a|
  {
    if |a| > 0 && |b| > 0 && a[0] == b[0] {
      LessTotal(a[1..], b[1..]);
      if a[1..] == b[1..] {
        assert a == [a[0]] + a[1..] && b == [b[0]] + b[1..];
      }
    }
  }

  lemma LessAsymmetric(a: Bytes, b: Bytes)
    requires Less(a, b)
    ensures !Less(b, a) && a != b
  {
    LessIrreflexive(a);
    if Less(b, a) {
      LessTransitive(a, b, a);
    }
  }

  /** One key and the value stored under it. */
  datatype Item<V> = Item(key: Bytes, value: V)

  /** The map: its items in iteration order. */
  datatype Map<V> = Map(items: seq<Item<V>>)

  /** Strictly ascending keys, hence one item per key. */
  predicate Sorted<V>(items: seq<Item<V>>) {
    forall i, j :: 0 <= i < j < |items| ==> Less(items[i].key, items[j].key)
  }

  /** The `BTreeMap` invariant. */
  predicate Valid<V>(m: Map<V>) {
    Sorted(m.items)
  }

  /** The finite map the items stand for. */
  function Contents<V>(items: seq<Item<V>>): map<Bytes, V> {
    if |items| == 0 then map[] else Contents(items[1..])[items[0].key := items[0].value]
  }

  function View<V>(m: Map<V>): map<Bytes, V> {
    Contents(m.items)
  }

  lemma {:induction false} ContentsKeys<V>(items: seq<Item<V>>, k: Bytes)
    ensures k in Contents(items) <==> exists i :: 0 <= i < |items| && items[i].key == k
  {
    if |items| > 0 {
      ContentsKeys(items[1..], k);
      if k in Contents(items[1..]) {
        var i :| 0 <= i < |items[1..]| && items[1..][i].key == k;
        assert items[i + 1].key == k;
      }
      if exists i :: 0 <= i < |items| && items[i].key == k {
        var i :| 0 <= i < |items| && items[i].key == k;
        if i > 0 {
          assert items[1..][i - 1].key == k;
        }
      }
    }
  }

  lemma SortedTail<V>(items: seq<Item<V>>)
    requires |items| > 0 && Sorted(items)
    ensures Sorted(items[1..])
  {
    forall i, j | 0 <= i < j < |items[1..]|
      ensures Less(items[1..][i].key, items[1..][j].key)
    {
      assert items[1..][i] == items[i + 1] && items[1..][j] == items[j + 1];
    }
  }

  /** In sorted items, the first key occurs nowhere after the first item. */
  lemma HeadNotInTail<V>(items: seq<Item<V>>)
    requires |items| > 0 && Sorted(items)
    ensures items[0].key !in Contents(items[1..])
  {
    ContentsKeys(items[1..], items[0].key);
    if items[0].key in Contents(items[1..]) {
      var i :| 0 <= i < |items[1..]| && items[1..][i].key == items[0].key;
      assert Less(items[0].key, items[i + 1].key);
      LessIrreflexive(items[0].key);
    }
  }

  /** Each item of sorted items is what the view holds for its key. */
  lemma {:induction false} ContentsAt<V>(items: seq<Item<V>>, i: nat)
    requires Sorted(items) && i < |items|
    ensures items[i].key in Contents(items) && Contents(items)[items[i].key] == items[i].value
  {
    if i > 0 {
      SortedTail(items);
      ContentsAt(items[1..], i - 1);
      assert items[1..][i - 1] == items[i];
      assert Less(items[0].key, items[i].key);
      LessIrreflexive(items[0].key);
    }
  }

  /** `Map::new` and `Default`: no entries. */
  function New<V>(): (m: Map<V>)
    ensures Valid(m) && View(m) == map[]
  {
    Map([])
  }

  /** `clear`: every entry removed. */
  function Clear<V>(m: Map<V>): (r: Map<V>)
    ensures Valid(r) && View(r) == map[] && Len(r) == 0
  {
    New()
  }

  /** `get`: the value stored under `k`, if any. */
  function Get<V>(m: Map<V>, k: Bytes): (r: Option<V>)
    ensures r.Some? <==> k in View(m)
    ensures r.Some? ==> r.value == View(m)[k]
    decreases |m.items|
  {
    if |m.items| == 0 then None
    else if m.items[0].key == k then Some(m.items[0].value)
    else Get(Map(m.items[1..]), k)
  }

  /** `contains_key`. */
  function ContainsKey<V>(m: Map<V>, k: Bytes): (b: bool)
    ensures b <==> k in View(m)
    ensures b <==> Get(m, k).Some?
  {
    Get(m, k).Some?
  }

  /** `len`: the number of items, which is the number of distinct keys. */
  function Len<V>(m: Map<V>): nat {
    |m.items|
  }

  lemma {:induction false} LenCountsKeys<V>(m: Map<V>)
    requires Valid(m)
    ensures Len(m) == |View(m).Keys|
    decreases |m.items|
  {
    if |m.items| > 0 {
      var rest := Map(m.items[1..]);
      SortedTail(m.items);
      HeadNotInTail(m.items);
      LenCountsKeys(rest);
      assert View(m).Keys == View(rest).Keys + {m.items[0].key};
    }
  }

  /** `is_empty`. */
  function IsEmpty<V>(m: Map<V>): (b: bool)
    ensures b <==> Len(m) == 0
    ensures b <==> View(m) == map[]
  {
    if |m.items| == 0 then true
    else
      assert m.items[0].key in View(m) by {
        ContentsKeys(m.items, m.items[0].key);
      }
      false
  }

  /** Items in sorted order after `k`: all keys greater than `k`. */
  predicate AllAbove<V>(k: Bytes, items: seq<Item<V>>) {
    forall i :: 0 <= i < |items| ==> Less(k, items[i].key)
  }

  lemma SortedCons<V>(x: Item<V>, items: seq<Item<V>>)
    requires Sorted(items) && AllAbove(x.key, items)
    ensures Sorted([x] + items)
  {
    var s := [x] + items;
    forall i, j | 0 <= i < j < |s| ensures Less(s[i].key, s[j].key) {
      if i > 0 {
        assert s[i] == items[i - 1] && s[j] == items[j - 1];
      } else {
        assert s[j] == items[j - 1];
      }
    }
  }

  lemma SortedHeadBelow<V>(items: seq<Item<V>>)
    requires |items| > 0 && Sorted(items)
    ensures AllAbove(items[0].key, items[1..])
  {
    forall i | 0 <= i < |items[1..]| ensures Less(items[0].key, items[1..][i].key) {
      assert items[1..][i] == items[i + 1];
    }
  }

  /** The items with `k` set to `v`: replaced in place, or inserted where the order puts it. */
  function InsertItems<V>(items: seq<Item<V>>, k: Bytes, v: V): (r: seq<Item<V>>)
    decreases |items|
  {
    if |items| == 0 then [Item(k, v)]
    else if items[0].key == k then [Item(k, v)] + items[1..]
    else if Less(k, items[0].key) then [Item(k, v)] + items
    else [items[0]] + InsertItems(items[1..], k, v)
  }

  /** Every key of the new items is `k` or an old key. */
  lemma {:induction false} InsertItemsKeys<V>(items: seq<Item<V>>, k: Bytes, v: V, lo: Bytes)
    requires AllAbove(lo, items) && Less(lo, k)
    ensures AllAbove(lo, InsertItems(items, k, v))
    decreases |items|
  {
    var r := InsertItems(items, k, v);
    if |items| > 0 && items[0].key != k && !Less(k, items[0].key) {
      forall i | 0 <= i < |items[1..]| ensures Less(lo, items[1..][i].key) {
        assert items[1..][i] == items[i + 1];
      }
      InsertItemsKeys(items[1..], k, v, lo);
      forall i | 0 <= i < |r| ensures Less(lo, r[i].key) {
        if i > 0 {
          assert r[i] == InsertItems(items[1..], k, v)[i - 1];
        }
      }
    } else if |items| > 0 && items[0].key == k {
      forall i | 0 <= i < |r| ensures Less(lo, r[i].key) {
        if i > 0 {
          assert r[i] == items[i];
        }
      }
    } else if |items| > 0 {
      forall i | 0 <= i < |r| ensures Less(lo, r[i].key) {
        if i > 0 {
          assert r[i] == items[i - 1];
        }
      }
    }
  }

  lemma {:induction false} InsertItemsSorted<V>(items: seq<Item<V>>, k: Bytes, v: V)
    requires Sorted(items)
    ensures Sorted(InsertItems(items, k, v))
    ensures Contents(InsertItems(items, k, v)) == Contents(items)[k := v]
    decreases |items|
  {
    if |items| > 0 {
      var h := items[0];
      if h.key == k {
        InsertHere(items, k, v);
      } else if Less(k, h.key) {
        InsertBefore(items, k, v);
      } else {
        SortedTail(items);
        InsertItemsSorted(items[1..], k, v);
        InsertAfter(items, k, v);
      }
    }
  }

  /** Inserting the head's own key replaces the head's value. */
  lemma InsertHere<V>(items: seq<Item<V>>, k: Bytes, v: V)
    requires Sorted(items) && |items| > 0 && items[0].key == k
    ensures Sorted(InsertItems(items, k, v))
    ensures Contents(InsertItems(items, k, v)) == Contents(items)[k := v]
  {
    SortedTail(items);
    SortedHeadBelow(items);
    HeadNotInTail(items);
    assert InsertItems(items, k, v)[1..] == items[1..];
  }

  /** A key below the head goes in front. */
  lemma InsertBefore<V>(items: seq<Item<V>>, k: Bytes, v: V)
    requires Sorted(items) && |items| > 0 && items[0].key != k && Less(k, items[0].key)
    ensures Sorted(InsertItems(items, k, v))
    ensures Contents(InsertItems(items, k, v)) == Contents(items)[k := v]
  {
    var h := items[0];
    SortedHeadBelow(items);
    forall i | 0 <= i < |items| ensures Less(k, items[i].key) {
      if i > 0 {
        LessTransitive(k, h.key, items[i].key);
      }
    }
    SortedCons(Item(k, v), items);
    assert InsertItems(items, k, v)[1..] == items;
  }

  /** A key above the head goes into the tail, the head staying in front. */
  lemma InsertAfter<V>(items: seq<Item<V>>, k: Bytes, v: V)
    requires Sorted(items) && |items| > 0 && items[0].key != k && !Less(k, items[0].key)
    requires Sorted(InsertItems(items[1..], k, v))
    requires Contents(InsertItems(items[1..], k, v)) == Contents(items[1..])[k := v]
    ensures Sorted(InsertItems(items, k, v))
    ensures Contents(InsertItems(items, k, v)) == Contents(items)[k := v]
  {
    var h := items[0];
    SortedTail(items);
    SortedHeadBelow(items);
    LessTotal(k, h.key);
    InsertItemsKeys(items[1..], k, v, h.key);
    SortedCons(h, InsertItems(items[1..], k, v));
    assert InsertItems(items, k, v)[1..] == InsertItems(items[1..], k, v);
  }

  /**
   * `insert`: afterwards `k` maps to `v` and nothing else changed; the
   * result is the value `k` had, if it had one.
   */
  function Insert<V>(m: Map<V>, k: Bytes, v: V): (r: (Map<V>, Option<V>))
    requires Valid(m)
    ensures Valid(r.0)
    ensures View(r.0) == View(m)[k := v]
    ensures r.1 == Get(m, k)
    ensures r.1.None? ==> Len(r.0) == Len(m) + 1
    ensures r.1.Some? ==> Len(r.0) == Len(m)
  {
    InsertItemsSorted(m.items, k, v);
    var r := Map(InsertItems(m.items, k, v));
    LenCountsKeys(m);
    LenCountsKeys(r);
    (r, Get(m, k))
  }

  /** The items without the one for `k`. */
  function RemoveItems<V>(items: seq<Item<V>>, k: Bytes): seq<Item<V>>
    decreases |items|
  {
    if |items| == 0 then []
    else if items[0].key == k then items[1..]
    else [items[0]] + RemoveItems(items[1..], k)
  }

  lemma {:induction false} RemoveItemsSorted<V>(items: seq<Item<V>>, k: Bytes)
    requires Sorted(items)
    ensures Sorted(RemoveItems(items, k))
    ensures AllAbove(k, items) ==> AllAbove(k, RemoveItems(items, k))
    ensures forall lo :: AllAbove(lo, items) ==> AllAbove(lo, RemoveItems(items, k))
    ensures Contents(RemoveItems(items, k)) == Contents(items) - {k}
    decreases |items|
  {
    if |items| > 0 {
      if items[0].key == k {
        RemoveHere(items, k);
      } else {
        SortedTail(items);
        RemoveItemsSorted(items[1..], k);
        RemoveAfter(items, k);
      }
    }
  }

  /** Removing the head's key drops the head. */
  lemma RemoveHere<V>(items: seq<Item<V>>, k: Bytes)
    requires Sorted(items) && |items| > 0 && items[0].key == k
    ensures Sorted(RemoveItems(items, k))
    ensures forall lo :: AllAbove(lo, items) ==> AllAbove(lo, RemoveItems(items, k))
    ensures Contents(RemoveItems(items, k)) == Contents(items) - {k}
  {
    SortedTail(items);
    HeadNotInTail(items);
    var r := RemoveItems(items, k);
    assert r == items[1..];
    forall lo | AllAbove(lo, items) ensures AllAbove(lo, r) {
      forall i | 0 <= i < |r| ensures Less(lo, r[i].key) {
        assert r[i] == items[i + 1];
      }
    }
  }

  /** Any other key is removed from the tail, the head staying in front. */
  lemma RemoveAfter<V>(items: seq<Item<V>>, k: Bytes)
    requires Sorted(items) && |items| > 0 && items[0].key != k
    requires Sorted(RemoveItems(items[1..], k))
    requires forall lo :: AllAbove(lo, items[1..]) ==> AllAbove(lo, RemoveItems(items[1..], k))
    requires Contents(RemoveItems(items[1..], k)) == Contents(items[1..]) - {k}
    ensures Sorted(RemoveItems(items, k))
    ensures forall lo :: AllAbove(lo, items) ==> AllAbove(lo, RemoveItems(items, k))
    ensures Contents(RemoveItems(items, k)) == Contents(items) - {k}
  {
    RemoveAfterOrder(items, k);
    RemoveAfterContents(items, k);
  }

  lemma RemoveAfterContents<V>(items: seq<Item<V>>, k: Bytes)
    requires |items| > 0 && items[0].key != k
    requires Contents(RemoveItems(items[1..], k)) == Contents(items[1..]) - {k}
    ensures Contents(RemoveItems(items, k)) == Contents(items) - {k}
  {
    hide Sorted, AllAbove;
    var tail := RemoveItems(items[1..], k);
    var r := RemoveItems(items, k);
    assert r == [items[0]] + tail;
    assert r[1..] == tail;
  }

  lemma RemoveAfterOrder<V>(items: seq<Item<V>>, k: Bytes)
    requires Sorted(items) && |items| > 0 && items[0].key != k
    requires Sorted(RemoveItems(items[1..], k))
    requires forall lo :: AllAbove(lo, items[1..]) ==> AllAbove(lo, RemoveItems(items[1..], k))
    ensures Sorted(RemoveItems(items, k))
    ensures forall lo :: AllAbove(lo, items) ==> AllAbove(lo, RemoveItems(items, k))
  {
    hide Contents;
    var h := items[0];
    var tail := RemoveItems(items[1..], k);
    SortedTail(items);
    SortedHeadBelow(items);
    SortedCons(h, tail);
    var r := RemoveItems(items, k);
    assert r == [h] + tail;
    forall lo | AllAbove(lo, items) ensures AllAbove(lo, r) {
      forall i | 0 <= i < |items[1..]| ensures Less(lo, items[1..][i].key) {
        assert items[1..][i] == items[i + 1];
      }
      assert AllAbove(lo, items[1..]);
      forall i | 0 <= i < |r| ensures Less(lo, r[i].key) {
        if i > 0 {
          assert r[i] == tail[i - 1];
        }
      }
    }
  }

  /**
   * `remove`: afterwards `k` has no entry and every other entry is as
   * before; the result is the value that was removed, if any.
   */
  function Remove<V>(m: Map<V>, k: Bytes): (r: (Map<V>, Option<V>))
    requires Valid(m)
    ensures Valid(r.0)
    ensures View(r.0) == View(m) - {k}
    ensures r.1 == Get(m, k)
    ensures !ContainsKey(r.0, k)
  {
    RemoveItemsSorted(m.items, k);
    (Map(RemoveItems(m.items, k)), Get(m, k))
  }

  /** `remove_entry`: as `remove`, returning the key with the value. */
  function RemoveEntry<V>(m: Map<V>, k: Bytes): (r: (Map<V>, Option<Item<V>>))
    requires Valid(m)
    ensures Valid(r.0) && View(r.0) == View(m) - {k}
    ensures r.1.Some? <==> k in View(m)
    ensures r.1.Some? ==> r.1.value == Item(k, View(m)[k])
  {
    var (rest, prior) := Remove(m, k);
    (rest, if prior.Some? then Some(Item(k, prior.value)) else None)
  }

  /**
   * `retain`'s filter over the items, in key order. The callback sees each
   * key with its value and answers whether to keep the pair, together with
   * the value it leaves behind (it may rewrite it through `&mut`).
   */
  function RetainItems<V>(items: seq<Item<V>>, f: (Bytes, V) -> (bool, V)): seq<Item<V>>
    decreases |items|
  {
    if |items| == 0 then []
    else
      var (keep, v) := f(items[0].key, items[0].value);
      if keep then [Item(items[0].key, v)] + RetainItems(items[1..], f)
      else RetainItems(items[1..], f)
  }

  /** The entries of `view` that `f` keeps, with the values `f` leaves. */
  function Kept<V>(view: map<Bytes, V>, f: (Bytes, V) -> (bool, V)): map<Bytes, V> {
    map k | k in view && f(k, view[k]).0 :: f(k, view[k]).1
  }

  lemma {:induction false} RetainItemsSorted<V>(items: seq<Item<V>>, f: (Bytes, V) -> (bool, V))
    requires Sorted(items)
    ensures Sorted(RetainItems(items, f))
    ensures forall lo :: AllAbove(lo, items) ==> AllAbove(lo, RetainItems(items, f))
    ensures Contents(RetainItems(items, f)) == Kept(Contents(items), f)
    decreases |items|
  {
    if |items| > 0 {
      var h := items[0];
      var rest := RetainItems(items[1..], f);
      SortedTail(items);
      SortedHeadBelow(items);
      HeadNotInTail(items);
      RetainItemsSorted(items[1..], f);
      forall lo | AllAbove(lo, items) ensures AllAbove(lo, items[1..]) {
        forall i | 0 <= i < |items[1..]| ensures Less(lo, items[1..][i].key) {
          assert items[1..][i] == items[i + 1];
        }
      }
      if f(h.key, h.value).0 {
        var h' := Item(h.key, f(h.key, h.value).1);
        SortedCons(h', rest);
        var r := RetainItems(items, f);
        assert r[1..] == rest;
        forall lo | AllAbove(lo, items) ensures AllAbove(lo, r) {
          forall i | 0 <= i < |r| ensures Less(lo, r[i].key) {
            if i > 0 {
              assert r[i] == rest[i - 1];
            }
          }
        }
      }
    }
  }

  /**
   * `retain`: exactly the entries the callback keeps remain, each with the
   * value the callback left in it.
   */
  function Retain<V>(m: Map<V>, f: (Bytes, V) -> (bool, V)): (r: Map<V>)
    requires Valid(m)
    ensures Valid(r)
    ensures View(r) == Kept(View(m), f)
  {
    RetainItemsSorted(m.items, f);
    Map(RetainItems(m.items, f))
  }

  /**
   * `entry`: a handle on the place for `k`, occupied when the map has
   * `k`, vacant otherwise.
   */
  datatype Entry<V> = Vacant(vmap: Map<V>, vkey: Bytes) | Occupied(omap: Map<V>, okey: Bytes)
  {
    function MapOf(): Map<V> {
      if Vacant? then vmap else omap
    }

    function Key(): Bytes {
      if Vacant? then vkey else okey
    }
  }

  /** A vacant entry's key is absent and an occupied entry's key present, as the borrow guarantees. */
  predicate EntryValid<V>(e: Entry<V>) {
    Valid(e.MapOf()) && (e.Occupied? <==> e.Key() in View(e.MapOf()))
  }

  function EntryOf<V>(m: Map<V>, k: Bytes): (e: Entry<V>)
    requires Valid(m)
    ensures EntryValid(e) && e.MapOf() == m && e.Key() == k
    ensures e.Occupied? <==> ContainsKey(m, k)
  {
    if ContainsKey(m, k) then Occupied(m, k) else Vacant(m, k)
  }

  /**
   * `Entry::or_insert`: a vacant entry gets `default`; an occupied one
   * keeps its value. The result holds the map after the call and the
   * value now stored under the key.
   */
  function OrInsert<V>(e: Entry<V>, default: V): (r: (Map<V>, V))
    requires EntryValid(e)
    ensures Valid(r.0)
    ensures e.Vacant? ==> View(r.0) == View(e.MapOf())[e.Key() := default] && r.1 == default
    ensures e.Occupied? ==> r.0 == e.MapOf() && r.1 == View(e.MapOf())[e.Key()]
    ensures e.Key() in View(r.0) && View(r.0)[e.Key()] == r.1
  {
    match e
    case Vacant(m, k) => (Insert(m, k, default).0, default)
    case Occupied(m, k) => (m, Get(m, k).value)
  }

  /**
   * `Entry::and_modify`: an occupied entry's value is replaced by `f` of
   * it; a vacant entry is returned untouched.
   */
  function AndModify<V>(e: Entry<V>, f: V -> V): (r: Entry<V>)
    requires EntryValid(e)
    ensures EntryValid(r) && r.Key() == e.Key()
    ensures e.Vacant? ==> r == e
    ensures e.Occupied? ==>
              r.Occupied? && View(r.MapOf()) == View(e.MapOf())[e.Key() := f(View(e.MapOf())[e.Key()])]
  {
    match e
    case Vacant(_, _) => e
    case Occupied(m, k) => Occupied(Insert(m, k, f(Get(m, k).value)).0, k)
  }

  /**
   * The `and_modify(f).or_insert(d)` idiom: the first time `d` is
   * stored, the second time `f(d)`.
   */
  lemma ModifyOrInsertTwice<V>(m: Map<V>, k: Bytes, f: V -> V, d: V)
    requires Valid(m) && k !in View(m)
    ensures var m1 := OrInsert(AndModify(EntryOf(m, k), f), d).0;
            && Valid(m1) && View(m1) == View(m)[k := d]
            && var m2 := OrInsert(AndModify(EntryOf(m1, k), f), d).0;
            View(m2) == View(m)[k := f(d)]
  {
    var m1 := OrInsert(AndModify(EntryOf(m, k), f), d).0;
    assert View(m1)[k := f(d)] == View(m)[k := f(d)];
  }

  /** Union where `other` wins: what `append` leaves in `self`. */
  function AppendItems<V>(m: Map<V>, other: seq<Item<V>>): (r: Map<V>)
    requires Valid(m) && Sorted(other)
    ensures Valid(r)
    ensures View(r) == View(m) + Contents(other)
    decreases |other|
  {
    if |other| == 0 then m
    else
      SortedTail(other);
      HeadNotInTail(other);
      var step := Insert(m, other[0].key, other[0].value).0;
      UnionStep(View(m), other);
      AppendItems(step, other[1..])
  }

  /** Moving the first item of `other` into the left operand keeps the union the same. */
  lemma UnionStep<V>(left: map<Bytes, V>, other: seq<Item<V>>)
    requires |other| > 0 && other[0].key !in Contents(other[1..])
    ensures left[other[0].key := other[0].value] + Contents(other[1..]) == left + Contents(other)
  {
  }

  /**
   * `append`: every entry of `other` is moved into `self`, overwriting
   * a value `self` had for the same key; `other` is left empty.
   */
  function Append<V>(m: Map<V>, other: Map<V>): (r: (Map<V>, Map<V>))
    requires Valid(m) && Valid(other)
    ensures Valid(r.0) && View(r.0) == View(m) + View(other)
    ensures View(r.1) == map[]
  {
    (AppendItems(m, other.items), New())
  }

  /**
   * The map a sequence of insertions builds: each key with the value of
   * its last insertion.
   */
  function LastWins<V>(pairs: seq<Item<V>>): map<Bytes, V>
    decreases |pairs|
  {
    if |pairs| == 0 then map[]
    else LastWins(pairs[..|pairs| - 1])[pairs[|pairs| - 1].key := pairs[|pairs| - 1].value]
  }

  lemma {:induction false} LastWinsKeys<V>(pairs: seq<Item<V>>, k: Bytes)
    ensures k in LastWins(pairs) <==> exists i :: 0 <= i < |pairs| && pairs[i].key == k
    decreases |pairs|
  {
    if |pairs| > 0 {
      var init := pairs[..|pairs| - 1];
      LastWinsKeys(init, k);
      if exists i :: 0 <= i < |init| && init[i].key == k {
        var i :| 0 <= i < |init| && init[i].key == k;
        assert pairs[i].key == k;
      }
      if exists i :: 0 <= i < |pairs| && pairs[i].key == k {
        var i :| 0 <= i < |pairs| && pairs[i].key == k;
        if i < |pairs| - 1 {
          assert init[i].key == k;
        }
      }
    }
  }

  /** The value `LastWins` keeps for a key is the one of its last occurrence. */
  lemma {:induction false} LastWinsValue<V>(pairs: seq<Item<V>>, i: nat)
    requires i < |pairs|
    requires forall j :: i < j < |pairs| ==> pairs[j].key != pairs[i].key
    ensures pairs[i].key in LastWins(pairs) && LastWins(pairs)[pairs[i].key] == pairs[i].value
    decreases |pairs|
  {
    if i < |pairs| - 1 {
      var init := pairs[..|pairs| - 1];
      assert init[i] == pairs[i];
      LastWinsValue(init, i);
    }
  }

  /**
   * `visit_map`: a new map, then `insert` for each entry in input order.
   * A repeated key ends with its last value, once.
   */
  method VisitMap<V>(pairs: seq<Item<V>>) returns (values: Map<V>)
    ensures Valid(values)
    ensures View(values) == LastWins(pairs)
    ensures Len(values) == |View(values).Keys|
  {
    values := New();
    var i := 0;
    while i < |pairs|
      invariant 0 <= i <= |pairs|
      invariant Valid(values)
      invariant View(values) == LastWins(pairs[..i])
    {
      values := Insert(values, pairs[i].key, pairs[i].value).0;
      assert pairs[..i + 1][..i] == pairs[..i];
      i := i + 1;
    }
    assert pairs[..i] == pairs;
    LenCountsKeys(values);
  }

  /**
   * Iteration (and so serialization) visits the entries in strictly
   * ascending key order, each entry of the view exactly once.
   */
  function Iter<V>(m: Map<V>): (r: seq<Item<V>>)
    requires Valid(m)
    ensures |r| == |View(m).Keys|
    ensures forall i, j :: 0 <= i < j < |r| ==> Less(r[i].key, r[j].key)
    ensures forall i :: 0 <= i < |r| ==> r[i].key in View(m) && View(m)[r[i].key] == r[i].value
  {
    LenCountsKeys(m);
    forall i | 0 <= i < |m.items| ensures m.items[i].key in View(m) && View(m)[m.items[i].key] == m.items[i].value {
      ContentsAt(m.items, i);
    }
    m.items
  }

  /** Every key of the view is visited. */
  lemma IterCovers<V>(m: Map<V>, k: Bytes)
    requires Valid(m) && k in View(m)
    ensures exists i :: 0 <= i < |Iter(m)| && Iter(m)[i].key == k
  {
    ContentsKeys(m.items, k);
    var i :| 0 <= i < |m.items| && m.items[i].key == k;
    assert Iter(m)[i].key == k;
  }

  /** Two valid maps with the same view have the same items: the order is fixed by the keys. */
  lemma {:induction false} ViewDeterminesItems<V>(a: Map<V>, b: Map<V>)
    requires Valid(a) && Valid(b) && View(a) == View(b)
    ensures a == b
    decreases |a.items|
  {
    LenCountsKeys(a);
    LenCountsKeys(b);
    if |a.items| > 0 {
      var x, y := a.items[0], b.items[0];
      ContentsAt(a.items, 0);
      ContentsAt(b.items, 0);
      ContentsKeys(b.items, x.key);
      ContentsKeys(a.items, y.key);
      var i :| 0 <= i < |b.items| && b.items[i].key == x.key;
      var j :| 0 <= j < |a.items| && a.items[j].key == y.key;
      if i > 0 {
        assert Less(y.key, x.key);
        if j > 0 {
          assert Less(x.key, y.key);
          LessAsymmetric(x.key, y.key);
        } else {
          LessIrreflexive(x.key);
        }
      }
      assert x.key == y.key;
      ContentsAt(b.items, 0);
      SortedTail(a.items);
      SortedTail(b.items);
      HeadNotInTail(a.items);
      HeadNotInTail(b.items);
      assert View(Map(a.items[1..])) == View(a) - {x.key};
      assert View(Map(b.items[1..])) == View(b) - {y.key};
      ViewDeterminesItems(Map(a.items[1..]), Map(b.items[1..]));
      assert a.items == [x] + a.items[1..] && b.items == [y] + b.items[1..];
    }
  }
}
