/** The cache as a plain recency list, oldest first: what each operation does to it,
    and how two caches compare (src/cache.rs). */
module Recency {
  import opened Bytes

  /**
   A cached file under its key; `encodings` identifies the shared slots of its encodings, `size` counts those made so
   far.
   */
  datatype Item<E> = Item(key: string, data: seq<byte>, encodings: E, size: nat)

  datatype Limits = Limits(entries: nat, bytes: nat)

  ghost function Total<E>(list: seq<Item<E>>): nat {
    if list == [] then 0 else list[0].size + Total(list[1..])
  }

  lemma {:induction false} TotalAppend<E>(a: seq<Item<E>>, b: seq<Item<E>>)
    ensures Total(a + b) == Total(a) + Total(b)
  {
    if a == [] {
      assert a + b == b;
    } else {
      assert (a + b)[1..] == a[1..] + b;
      TotalAppend(a[1..], b);
    }
  }

  lemma TotalOne<E>(item: Item<E>)
    ensures Total([item]) == item.size
  {
    assert [item][1..] == [];
  }

  lemma TotalDrop<E>(list: seq<Item<E>>, n: nat)
    requires n <= |list|
    ensures Total(list) == Total(list[..n]) + Total(list[n..])
  {
    assert list == list[..n] + list[n..];
    TotalAppend(list[..n], list[n..]);
  }

  /** No key occurs twice. */
  ghost predicate Distinct<E>(list: seq<Item<E>>) {
    forall i, j | 0 <= i < j < |list| :: list[i].key != list[j].key
  }

  /** Where a key stands in the list, or the list's length. */
  ghost function IndexOf<E>(list: seq<Item<E>>, key: string): (i: nat)
    ensures i <= |list|
    ensures i < |list| ==> list[i].key == key
    ensures forall j | 0 <= j < i :: list[j].key != key
  {
    if list == [] || list[0].key == key then 0 else 1 + IndexOf(list[1..], key)
  }

  ghost predicate Has<E>(list: seq<Item<E>>, key: string) {
    IndexOf(list, key) < |list|
  }

  lemma HasAt<E>(list: seq<Item<E>>, i: nat)
    requires i < |list| && Distinct(list)
    ensures IndexOf(list, list[i].key) == i
  {
    hide IndexOf;
    var j := IndexOf(list, list[i].key);
  }

  ghost function Without<E>(list: seq<Item<E>>, key: string): seq<Item<E>> {
    var i := IndexOf(list, key);
    if i < |list| then list[..i] + list[i + 1..] else list
  }

  /** The newest end of the list is where a used key goes. */
  ghost function Touched<E>(list: seq<Item<E>>, key: string): seq<Item<E>> {
    var i := IndexOf(list, key);
    if i < |list| then Without(list, key) + [list[i]] else list
  }

  /** Room for one more file of `size` bytes. */
  ghost predicate Fits<E>(list: seq<Item<E>>, limits: Limits, size: nat) {
    |list| < limits.entries && Total(list) + size <= limits.bytes
  }

  /** How many of the oldest items must go to make room. */
  ghost function Excess<E>(list: seq<Item<E>>, limits: Limits, size: nat): (n: nat)
    ensures n <= |list|
  {
    if list == [] || Fits(list, limits, size) then 0 else 1 + Excess(list[1..], limits, size)
  }

  /** The evicted prefix is the shortest that makes both limits fit; all goes if none does. */
  lemma {:induction false} ExcessIsLeast<E>(list: seq<Item<E>>, limits: Limits, size: nat)
    ensures var n := Excess(list, limits, size);
            && (n < |list| ==> Fits(list[n..], limits, size))
            && forall m | 0 <= m < n :: !Fits(list[m..], limits, size)
  {
    if list != [] && !Fits(list, limits, size) {
      var rest := list[1..];
      ExcessIsLeast(rest, limits, size);
      var n := Excess(list, limits, size);
      assert n < |list| ==> rest[n - 1..] == list[n..];
      forall m | 0 <= m < n
        ensures !Fits(list[m..], limits, size)
      {
        if m > 0 {
          assert rest[m - 1..] == list[m..];
        } else {
          assert list[0..] == list;
        }
      }
    } else {
      assert list[0..] == list;
    }
  }

  ghost function Evicted<E>(list: seq<Item<E>>, limits: Limits, size: nat): seq<Item<E>> {
    list[Excess(list, limits, size)..]
  }

  lemma EvictStep<E>(list: seq<Item<E>>, limits: Limits, size: nat)
    ensures list == [] || Fits(list, limits, size) ==> Evicted(list, limits, size) == list
    ensures list != [] && !Fits(list, limits, size) ==> Evicted(list, limits, size) == Evicted(list[1..], limits, size)
  {
  }

  /** A kept insert replaces its key, evicts, and is the newest. */
  ghost function Inserted<E>(list: seq<Item<E>>, item: Item<E>, limits: Limits): seq<Item<E>> {
    Evicted(Without(list, item.key), limits, item.size) + [item]
  }

  /** Nothing larger than a tenth of the budget is kept. */
  predicate Keeps(limits: Limits, length: nat) {
    limits.entries != 0 && 10 * length <= limits.bytes
  }

  /** How many of the oldest items must go for the rest to fit in `room` bytes. */
  ghost function Overflow<E>(list: seq<Item<E>>, room: int): (n: nat)
    ensures n <= |list|
  {
    if list == [] || Total(list) <= room then 0 else 1 + Overflow(list[1..], room)
  }

  lemma {:induction false} OverflowIsLeast<E>(list: seq<Item<E>>, room: int)
    ensures var n := Overflow(list, room);
            && (n < |list| ==> Total(list[n..]) <= room)
            && forall m | 0 <= m < n :: Total(list[m..]) > room
  {
    if list != [] && Total(list) > room {
      var rest := list[1..];
      OverflowIsLeast(rest, room);
      var n := Overflow(list, room);
      assert n < |list| ==> rest[n - 1..] == list[n..];
      forall m | 0 <= m < n
        ensures Total(list[m..]) > room
      {
        if m > 0 {
          assert rest[m - 1..] == list[m..];
        } else {
          assert list[0..] == list;
        }
      }
    } else {
      assert list[0..] == list;
    }
  }

  /** The list with the item at `i` replaced and the oldest `n` of the others gone. */
  ghost function KeptAround<E>(list: seq<Item<E>>, i: nat, item: Item<E>, n: nat): seq<Item<E>>
    requires i < |list| && n <= |list| - 1
  {
    if n <= i then list[n..i] + [item] + list[i + 1..] else [item] + list[n + 1..]
  }

  /** An encoding made for the cached copy of a key grows its item in place, at the cost of the oldest others. */
  ghost function Grown<E>(list: seq<Item<E>>, key: string, encodings: E, bytes: nat, limits: Limits): seq<Item<E>> {
    var i := IndexOf(list, key);
    if i == |list| || list[i].encodings != encodings then list
    else
      var item := list[i].(size := list[i].size + bytes);
      KeptAround(list, i, item, Overflow(list[..i] + list[i + 1..], limits.bytes - item.size))
  }

  lemma GrownAt<E>(list: seq<Item<E>>, key: string, encodings: E, bytes: nat, limits: Limits, i: nat, item: Item<E>)
    requires i == IndexOf(list, key) < |list| && list[i].encodings == encodings &&
             item == list[i].(size := list[i].size + bytes)
    ensures Grown(list, key, encodings, bytes, limits) ==
            KeptAround(list, i, item, Overflow(list[..i] + list[i + 1..], limits.bytes - item.size))
  {
  }

  lemma GrownNowhere<E>(list: seq<Item<E>>, key: string, encodings: E, bytes: nat, limits: Limits)
    requires var i := IndexOf(list, key); i == |list| || list[i].encodings != encodings
    ensures Grown(list, key, encodings, bytes, limits) == list
  {
  }

  // ---------------------------------------------------------------- what every operation keeps

  lemma DistinctWithout<E>(list: seq<Item<E>>, key: string)
    requires Distinct(list)
    ensures Distinct(Without(list, key)) && forall i | 0 <= i < |Without(list, key)| :: Without(list, key)[i].key != key
    ensures forall item <- Without(list, key) :: item in list
    ensures forall item <- list :: item.key != key ==> item in Without(list, key)
  {
    hide IndexOf;
    var i, r := IndexOf(list, key), Without(list, key);
    if i < |list| {
      assert forall j | 0 <= j < |r| :: r[j] == if j < i then list[j] else list[j + 1];
      WithoutHas(list, key);
    }
  }

  lemma WithoutHas<E>(list: seq<Item<E>>, key: string)
    ensures forall item <- list :: item.key != key ==> item in Without(list, key)
  {
    hide IndexOf;
    var i := IndexOf(list, key);
    if i < |list| {
      assert list == list[..i] + [list[i]] + list[i + 1..];
    }
  }

  lemma DistinctSuffix<E>(list: seq<Item<E>>, n: nat)
    requires Distinct(list) && n <= |list|
    ensures Distinct(list[n..])
  {
  }

  lemma TouchedKeeps<E>(list: seq<Item<E>>, key: string)
    requires Distinct(list)
    ensures Distinct(Touched(list, key)) && Total(Touched(list, key)) == Total(list) && |Touched(list, key)| == |list|
    ensures forall item :: item in Touched(list, key) <==> item in list
  {
    hide Distinct, Without, Total;
    var i, base := IndexOf(list, key), Without(list, key);
    if i < |list| {
      DistinctWithout(list, key);
      TotalWithout(list, key);
      AppendItem(base, list[i]);
      WithoutLength(list, key);
      OnlyOne(list, i);
    }
  }

  lemma WithoutLength<E>(list: seq<Item<E>>, key: string)
    ensures |Without(list, key)| == if Has(list, key) then |list| - 1 else |list|
  {
  }

  lemma OnlyOne<E>(list: seq<Item<E>>, i: nat)
    requires Distinct(list) && i < |list|
    ensures forall item <- list :: item.key == list[i].key ==> item == list[i]
  {
  }

  lemma TotalWithout<E>(list: seq<Item<E>>, key: string)
    ensures var i := IndexOf(list, key);
            Total(list) == Total(Without(list, key)) + if i < |list| then list[i].size else 0
  {
    var i := IndexOf(list, key);
    if i < |list| {
      TotalDrop(list, i);
      TotalAppend(list[..i], list[i + 1..]);
      assert list[i..][1..] == list[i + 1..];
    }
  }

  lemma AppendItem<E>(base: seq<Item<E>>, item: Item<E>)
    requires Distinct(base) && forall i | 0 <= i < |base| :: base[i].key != item.key
    ensures Distinct(base + [item]) && Total(base + [item]) == Total(base) + item.size
    ensures forall x <- base + [item] :: x == item || (x in base && x.key != item.key)
  {
    TotalAppend(base, [item]);
    TotalOne(item);
  }

  /** A kept insert respects both limits, keeps keys distinct, and holds only the new item and old ones. */
  lemma InsertedKeeps<E>(list: seq<Item<E>>, item: Item<E>, limits: Limits)
    requires Distinct(list) && limits.entries > 0 && item.size <= limits.bytes
    ensures var r := Inserted(list, item, limits);
            && Distinct(r) && |r| <= limits.entries && Total(r) <= limits.bytes
            && r[|r| - 1] == item
            && forall x <- r :: x == item || (x in list && x.key != item.key)
  {
    hide Distinct, Without, Excess;
    var base := Without(list, item.key);
    var n := Excess(base, limits, item.size);
    DistinctWithout(list, item.key);
    DistinctSuffix(base, n);
    ExcessIsLeast(base, limits, item.size);
    AppendItem(base[n..], item);
    TotalNothing(base[n..]);
    assert forall x <- base[n..] :: x in base;
  }

  lemma TotalNothing<E>(list: seq<Item<E>>)
    ensures list == [] ==> Total(list) == 0
  {
  }

  /** A counted encoding keeps the rank of every survivor and both limits, as long as the grown item alone fits. */
  lemma GrownKeeps<E>(list: seq<Item<E>>, key: string, encodings: E, bytes: nat, limits: Limits)
    requires Distinct(list) && |list| <= limits.entries && Total(list) <= limits.bytes
    requires var i := IndexOf(list, key); i < |list| && list[i].encodings == encodings ==>
             list[i].size + bytes <= limits.bytes
    ensures var r := Grown(list, key, encodings, bytes, limits);
            Distinct(r) && |r| <= limits.entries && Total(r) <= limits.bytes
  {
    hide Distinct, KeptAround, IndexOf, Overflow, Grown;
    var i := IndexOf(list, key);
    if i < |list| && list[i].encodings == encodings {
      var item, others := list[i].(size := list[i].size + bytes), list[..i] + list[i + 1..];
      var room := limits.bytes - item.size;
      var n := Overflow(others, room);
      GrownAt(list, key, encodings, bytes, limits, i, item);
      OverflowIsLeast(others, room);
      TotalNothing(others[n..]);
      KeptAroundKeeps(list, i, item, n);
    } else {
      GrownNowhere(list, key, encodings, bytes, limits);
    }
  }

  /** The other items, in order: distinct, and under other keys. */
  lemma OthersAre<E>(list: seq<Item<E>>, i: nat)
    requires Distinct(list) && i < |list|
    ensures var others := list[..i] + list[i + 1..];
            Distinct(others) && forall x <- others :: x in list && x.key != list[i].key
  {
    var others := list[..i] + list[i + 1..];
    assert forall j | 0 <= j < |others| :: others[j] == list[if j < i then j else j + 1];
  }

  lemma KeptInside<T>(list: seq<T>, i: nat, n: nat)
    requires n <= i < |list|
    ensures (list[..i] + list[i + 1..])[n..] == list[n..i] + list[i + 1..]
  {
  }

  lemma KeptInFront<T>(list: seq<T>, i: nat, n: nat)
    requires i < n < |list|
    ensures (list[..i] + list[i + 1..])[n..] == [] + list[n + 1..]
  {
  }

  /** An item among others under other keys. */
  lemma AmongOthers<E>(a: seq<Item<E>>, item: Item<E>, b: seq<Item<E>>)
    requires Distinct(a + b) && forall x <- a + b :: x.key != item.key
    ensures Distinct(a + [item] + b)
    ensures item in a + [item] + b && forall x <- a + [item] + b :: x == item || x in a + b
  {
    var r := a + [item] + b;
    assert forall j | 0 <= j < |a| :: r[j] == (a + b)[j];
    assert forall j | |a| < j < |r| :: r[j] == (a + b)[j - 1];
    assert r[|a|] == item;
    assert forall j | 0 <= j < |a + b| :: (a + b)[j] in a + b;
  }

  lemma TotalAmong<E>(a: seq<Item<E>>, item: Item<E>, b: seq<Item<E>>)
    ensures Total(a + [item] + b) == Total(a + b) + item.size
  {
    TotalAppend(a + [item], b);
    TotalAppend(a, [item]);
    TotalAppend(a, b);
    TotalOne(item);
  }

  /** The replaced item stands among the others that are left. */
  lemma KeptAroundParts<E>(list: seq<Item<E>>, i: nat, item: Item<E>, n: nat) returns (a: seq<Item<E>>, b: seq<Item<E>>)
    requires i < |list| && n <= |list| - 1
    ensures KeptAround(list, i, item, n) == a + [item] + b && (list[..i] + list[i + 1..])[n..] == a + b
  {
    if n <= i {
      a, b := list[n..i], list[i + 1..];
      KeptInside(list, i, n);
    } else {
      a, b := [], list[n + 1..];
      KeptInFront(list, i, n);
    }
  }

  lemma KeptAroundKeeps<E>(list: seq<Item<E>>, i: nat, item: Item<E>, n: nat)
    requires Distinct(list) && i < |list| && n <= |list| - 1 && item.key == list[i].key
    ensures var r, others := KeptAround(list, i, item, n), list[..i] + list[i + 1..];
            && Distinct(r) && |r| == |list| - n && Total(r) == Total(others[n..]) + item.size
            && item in r && forall x <- r :: x == item || (x in list && x.key != item.key)
  {
    hide Distinct, Total, KeptAround;
    var others := list[..i] + list[i + 1..];
    var a, b := KeptAroundParts(list, i, item, n);
    OthersAre(list, i);
    DistinctSuffix(others, n);
    assert forall x <- others[n..] :: x in others;
    AmongOthers(a, item, b);
    TotalAmong(a, item, b);
  }

  // ---------------------------------------------------------------- inclusion

  /** One resolve through the cache: a hit is used, a miss is filled from `file` if the cache keeps it. */
  ghost function Resolved<E>(list: seq<Item<E>>, limits: Limits, file: Item<E>): seq<Item<E>> {
    if Has(list, file.key) then Touched(list, file.key)
    else if Keeps(limits, file.size) then Inserted(list, file, limits)
    else list
  }

  ghost function Run<E>(limits: Limits, files: string -> Item<E>, keys: seq<string>): seq<Item<E>> {
    if keys == [] then [] else Resolved(Run(limits, files, keys[..|keys| - 1]), limits, files(keys[|keys| - 1]))
  }

  ghost predicate IsSuffix<T>(a: seq<T>, b: seq<T>) {
    |a| <= |b| && b[|b| - |a|..] == a
  }

  /** Every item is the file of its key, and no key occurs twice. */
  ghost predicate Holds<E>(list: seq<Item<E>>, files: string -> Item<E>) {
    Distinct(list) && forall i | 0 <= i < |list| :: list[i] == files(list[i].key)
  }

  lemma SuffixIndex<E>(small: seq<Item<E>>, big: seq<Item<E>>, key: string)
    requires IsSuffix(small, big) && Distinct(big)
    ensures var n := |big| - |small|;
            if Has(small, key) then IndexOf(big, key) == n + IndexOf(small, key) else Has(big, key) ==>
                IndexOf(big, key) < n
  {
    hide IndexOf;
    var n, j := |big| - |small|, IndexOf(small, key);
    if j < |small| {
      assert small[j] == big[n + j];
      HasAt(big, n + j);
    } else {
      forall k | n <= k < |big|
        ensures big[k].key != key
      {
        assert big[k] == small[k - n];
      }
    }
  }

  lemma SuffixWithout<E>(small: seq<Item<E>>, big: seq<Item<E>>, key: string)
    requires IsSuffix(small, big) && Distinct(big)
    ensures IsSuffix(Without(small, key), Without(big, key))
  {
    hide Distinct, IndexOf, Without, IsSuffix;
    SuffixIndex(small, big, key);
    WithoutAt(small, key);
    WithoutAt(big, key);
    if Has(small, key) {
      SuffixRemoveInside(small, big, IndexOf(small, key));
    } else if Has(big, key) {
      SuffixRemoveBefore(small, big, IndexOf(big, key));
    }
  }

  lemma WithoutAt<E>(list: seq<Item<E>>, key: string)
    ensures var i := IndexOf(list, key);
            Without(list, key) == if Has(list, key) then list[..i] + list[i + 1..] else list
  {
  }

  lemma SuffixRemoveInside<T>(small: seq<T>, big: seq<T>, j: nat)
    requires IsSuffix(small, big) && j < |small|
    ensures var i := |big| - |small| + j; IsSuffix(small[..j] + small[j + 1..], big[..i] + big[i + 1..])
  {
    var n := |big| - |small|;
    var i := n + j;
    assert big[n..][..j] == big[n..i] && big[n..][j + 1..] == big[i + 1..];
    assert (big[..i] + big[i + 1..])[n..] == big[n..i] + big[i + 1..];
  }

  lemma SuffixRemoveBefore<T>(small: seq<T>, big: seq<T>, i: nat)
    requires IsSuffix(small, big) && i < |big| - |small|
    ensures IsSuffix(small, big[..i] + big[i + 1..])
  {
    assert (big[..i] + big[i + 1..])[|big| - |small| - 1..] == big[|big| - |small|..];
  }

  lemma SuffixAppend<T>(a: seq<T>, b: seq<T>, x: T)
    requires IsSuffix(a, b)
    ensures IsSuffix(a + [x], b + [x])
  {
    assert (b + [x])[|b| - |a|..] == b[|b| - |a|..] + [x];
  }

  /** Eviction under larger limits leaves at least what eviction of a suffix under smaller limits leaves. */
  lemma SuffixEvicted<E>(small: seq<Item<E>>, big: seq<Item<E>>, lower: Limits, upper: Limits, size: nat)
    requires IsSuffix(small, big) && lower.entries <= upper.entries && lower.bytes <= upper.bytes
    ensures IsSuffix(Evicted(small, lower, size), Evicted(big, upper, size))
  {
    hide Excess, Total;
    var n, k, m := |big| - |small|, Excess(small, lower, size), Excess(big, upper, size);
    ExcessIsLeast(small, lower, size);
    ExcessIsLeast(big, upper, size);
    SuffixDrop(small, big, k, m);
    if k < |small| {
      assert Fits(small[k..], upper, size);
    }
  }

  lemma SuffixDrop<T>(small: seq<T>, big: seq<T>, k: nat, m: nat)
    requires IsSuffix(small, big) && k <= |small| && m <= |big|
    ensures var n := |big| - |small|; big[n + k..] == small[k..] && (m <= n + k ==> IsSuffix(small[k..], big[m..]))
    ensures k == |small| ==> IsSuffix(small[k..], big[m..])
  {
    var n := |big| - |small|;
    assert big[n..][k..] == big[n + k..];
    if m <= n + k {
      assert big[m..][n + k - m..] == big[n + k..];
    }
  }

  lemma ResolvedHolds<E>(list: seq<Item<E>>, limits: Limits, files: string -> Item<E>, key: string)
    requires Holds(list, files) && files(key).key == key
    ensures Holds(Resolved(list, limits, files(key)), files)
  {
    var file := files(key);
    if Has(list, key) {
      TouchedKeeps(list, key);
      var r := Touched(list, key);
      assert forall i | 0 <= i < |r| :: r[i] in r;
    } else if Keeps(limits, file.size) {
      InsertedKeeps(list, file, limits);
      var r := Inserted(list, file, limits);
      assert forall i | 0 <= i < |r| :: r[i] in r;
    }
  }

  /** One resolve keeps the inclusion of the smaller cache in the larger. */
  lemma ResolvedInclusion<E>(small: seq<Item<E>>, big: seq<Item<E>>, lower: Limits, upper: Limits,
      files: string -> Item<E>, key: string)
    requires lower.entries <= upper.entries && lower.bytes <= upper.bytes
    requires files(key).key == key && 10 * files(key).size <= lower.bytes
    requires Holds(big, files) && IsSuffix(small, big)
    requires lower.entries == 0 ==> small == []
    ensures IsSuffix(Resolved(small, lower, files(key)), Resolved(big, upper, files(key)))
    ensures lower.entries == 0 ==> Resolved(small, lower, files(key)) == []
    ensures Has(small, key) ==> Has(big, key)
  {
    hide Without, Evicted, Distinct;
    var file := files(key);
    SuffixIndex(small, big, key);
    SuffixWithout(small, big, key);
    NoSuch(small, key);
    NoSuch(big, key);
    if lower.entries > 0 {
      SuffixEvicted(Without(small, key), Without(big, key), lower, upper, file.size);
      EvictedIsSuffix(Without(small, key), lower, file.size);
      SuffixChain(Evicted(Without(small, key), lower, file.size), Without(small, key), Without(big, key));
      SuffixAppend(Without(small, key), Without(big, key), file);
      SuffixAppend(Evicted(Without(small, key), lower, file.size), Without(big, key), file);
      SuffixAppend(Evicted(Without(small, key), lower, file.size), Evicted(Without(big, key), upper, file.size), file);
      if Has(small, key) {
        var j := IndexOf(small, key);
        assert small[j] == big[|big| - |small| + j] == file;
      }
    }
  }

  lemma NoSuch<E>(list: seq<Item<E>>, key: string)
    ensures !Has(list, key) ==> Without(list, key) == list
  {
  }

  lemma EvictedIsSuffix<E>(list: seq<Item<E>>, limits: Limits, size: nat)
    ensures IsSuffix(Evicted(list, limits, size), list)
  {
  }

  lemma SuffixChain<T>(a: seq<T>, b: seq<T>, c: seq<T>)
    requires IsSuffix(a, b) && IsSuffix(b, c)
    ensures IsSuffix(a, c)
  {
    assert c[|c| - |a|..] == c[|c| - |b|..][|b| - |a|..];
  }

  /**
   LRU inclusion. Over every run of resolves with a fixed file per key, none larger than a tenth of the smaller budget,
   the smaller cache's recency list is a suffix of the larger one's after every step, so a hit in the smaller cache is a
   hit in the larger.
   */
  lemma {:induction false} LruInclusion<E>(lower: Limits, upper: Limits, files: string -> Item<E>, keys: seq<string>)
    requires lower.entries <= upper.entries && lower.bytes <= upper.bytes
    requires forall key :: files(key).key == key && 10 * files(key).size <= lower.bytes
    ensures IsSuffix(Run(lower, files, keys), Run(upper, files, keys))
    ensures Holds(Run(upper, files, keys), files)
    ensures lower.entries == 0 ==> Run(lower, files, keys) == []
    ensures forall key :: Has(Run(lower, files, keys), key) ==> Has(Run(upper, files, keys), key)
  {
    hide Resolved, Has;
    if keys != [] {
      var front, key := keys[..|keys| - 1], keys[|keys| - 1];
      LruInclusion(lower, upper, files, front);
      ResolvedInclusion(Run(lower, files, front), Run(upper, files, front), lower, upper, files, key);
      ResolvedHolds(Run(upper, files, front), upper, files, key);
    }
    forall key
      ensures Has(Run(lower, files, keys), key) ==> Has(Run(upper, files, keys), key)
    {
      SuffixHas(Run(lower, files, keys), Run(upper, files, keys), key);
    }
  }

  lemma SuffixHas<E>(small: seq<Item<E>>, big: seq<Item<E>>, key: string)
    requires IsSuffix(small, big) && Distinct(big)
    ensures Has(small, key) ==> Has(big, key)
  {
    SuffixIndex(small, big, key);
  }
}
