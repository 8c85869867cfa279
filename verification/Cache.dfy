/** The file cache: a map of entries beside an access order, kept in step with a recency list (src/cache.rs). */
module Cache {
  import opened Library
  import opened Recency
  import opened Bytes

  /** What a file's one encoding slot holds: nothing yet, that it came out no smaller, or the encoded bytes. */
  datatype Slot = Untried | NoSmaller | Made(bytes: seq<byte>)

  /** The slots of one cached copy of a file, shared by everyone who holds that copy. */
  class Encodings {
    var gzip: Slot

    constructor ()
      ensures gzip == Untried
    {
      gzip := Untried;
    }
  }

  datatype CachedFile = CachedFile(data: seq<byte>, etag: string, encodings: Encodings)

  datatype Entry = Entry(data: seq<byte>, etag: string, encodings: Encodings, size: nat, seqNo: nat)

  /** One element of the ordered map from access numbers to keys. */
  datatype Access = Access(seqNo: nat, key: string)

  // ---------------------------------------------------------------- the ordered map

  predicate Sorted(order: seq<Access>) {
    forall i, j | 0 <= i < j < |order| :: order[i].seqNo < order[j].seqNo
  }

  function Removed(order: seq<Access>, seqNo: nat): seq<Access> {
    if order == [] then []
    else if order[0].seqNo == seqNo then order[1..]
    else [order[0]] + Removed(order[1..], seqNo)
  }

  function Added(order: seq<Access>, access: Access): seq<Access> {
    if order == [] || access.seqNo < order[0].seqNo then [access] + order
    else if order[0].seqNo == access.seqNo then [access] + order[1..]
    else [order[0]] + Added(order[1..], access)
  }

  lemma {:induction false} RemovedAt(order: seq<Access>, i: nat)
    requires Sorted(order) && i < |order|
    ensures Removed(order, order[i].seqNo) == order[..i] + order[i + 1..]
  {
    if i > 0 {
      RemovedAt(order[1..], i - 1);
      assert order[1..][..i - 1] == order[1..i] && order[1..][i..] == order[i + 1..];
    }
  }

  lemma {:induction false} AddedAt(order: seq<Access>, i: nat, access: Access)
    requires i <= |order|
    requires forall j | 0 <= j < i :: order[j].seqNo < access.seqNo
    requires forall j | i <= j < |order| :: access.seqNo < order[j].seqNo
    ensures Added(order, access) == order[..i] + [access] + order[i..]
  {
    if i > 0 {
      AddedAt(order[1..], i - 1, access);
      assert order[1..][..i - 1] == order[1..i] && order[1..][i - 1..] == order[i..];
    }
  }

  // ---------------------------------------------------------------- entries in access order

  ghost function ItemOf(key: string, entry: Entry): Item<Encodings> {
    Item(key, entry.data, entry.encodings, entry.size)
  }

  /** Every access points at the entry that carries its number. */
  ghost predicate Points(entries: map<string, Entry>, order: seq<Access>) {
    forall i | 0 <= i < |order| :: order[i].key in entries && entries[order[i].key].seqNo == order[i].seqNo
  }

  ghost predicate InStep(entries: map<string, Entry>, order: seq<Access>) {
    Sorted(order) && Points(entries, order)
  }

  ghost function Listing(entries: map<string, Entry>, order: seq<Access>): (list: seq<Item<Encodings>>)
    requires Points(entries, order)
    ensures |list| == |order|
  {
    seq(|order|, i requires 0 <= i < |order| => ItemOf(order[i].key, entries[order[i].key]))
  }

  ghost function KeysIn(order: seq<Access>): set<string> {
    set i | 0 <= i < |order| :: order[i].key
  }

  lemma KeysJoined(a: seq<Access>, b: seq<Access>)
    ensures KeysIn(a + b) == KeysIn(a) + KeysIn(b)
  {
    forall k
      ensures k in KeysIn(a + b) <==> k in KeysIn(a) || k in KeysIn(b)
    {
      if k in KeysIn(a) {
        var i :| 0 <= i < |a| && a[i].key == k;
        assert (a + b)[i].key == k;
      }
      if k in KeysIn(b) {
        var i :| 0 <= i < |b| && b[i].key == k;
        assert (a + b)[|a| + i].key == k;
      }
    }
  }

  lemma Joined(entries: map<string, Entry>, a: seq<Access>, b: seq<Access>)
    ensures Points(entries, a + b) <==> Points(entries, a) && Points(entries, b)
    ensures Points(entries, a + b) ==> Listing(entries, a + b) == Listing(entries, a) + Listing(entries, b)
    ensures KeysIn(a + b) == KeysIn(a) + KeysIn(b)
  {
    KeysJoined(a, b);
    if Points(entries, a + b) {
      assert forall i | 0 <= i < |a| :: (a + b)[i] == a[i];
      assert forall i | 0 <= i < |b| :: (a + b)[|a| + i] == b[i];
    }
  }

  /** An order in three parts. */
  lemma ThreeParts(entries: map<string, Entry>, a: seq<Access>, x: Access, b: seq<Access>)
    requires Points(entries, a) && Points(entries, [x]) && Points(entries, b) && x.key in entries
    ensures Points(entries, a + b) && Points(entries, a + [x] + b)
    ensures Listing(entries, a + [x] + b) == Listing(entries, a) + [ItemOf(x.key, entries[x.key])] + Listing(entries, b)
    ensures Listing(entries, a + b) == Listing(entries, a) + Listing(entries, b)
    ensures KeysIn(a + [x] + b) == KeysIn(a + b) + {x.key}
  {
    hide Points;
    Joined(entries, a, [x]);
    Joined(entries, a + [x], b);
    Joined(entries, a, b);
    assert KeysIn([x]) == {x.key} by { OneKey(x); }
    assert Listing(entries, [x]) == [ItemOf(x.key, entries[x.key])] by { OneItem(entries, x); }
  }

  lemma OneKey(x: Access)
    ensures KeysIn([x]) == {x.key}
  {
    assert [x][0].key in KeysIn([x]);
  }

  lemma OneItem(entries: map<string, Entry>, x: Access)
    requires Points(entries, [x])
    ensures x.key in entries && Listing(entries, [x]) == [ItemOf(x.key, entries[x.key])]
  {
    assert [x][0] == x;
  }

  /** What happens to other keys' entries does not show. */
  lemma Elsewhere(entries: map<string, Entry>, order: seq<Access>, key: string, entry: Entry)
    requires Points(entries, order) && key !in KeysIn(order)
    ensures Points(entries[key := entry], order) && Listing(entries[key := entry], order) == Listing(entries, order)
    ensures Points(entries - {key}, order) && Listing(entries - {key}, order) == Listing(entries, order)
  {
    assert forall j | 0 <= j < |order| :: order[j].key in KeysIn(order);
  }

  /** Accesses with different numbers have different keys. */
  lemma OtherKeys(entries: map<string, Entry>, order: seq<Access>, x: Access)
    requires Points(entries, order) && Points(entries, [x]) && forall i | 0 <= i < |order| :: order[i].seqNo != x.seqNo
    ensures x.key !in KeysIn(order)
  {
    assert [x][0] == x;
  }

  lemma ListingDistinct(entries: map<string, Entry>, order: seq<Access>)
    requires InStep(entries, order)
    ensures Distinct(Listing(entries, order))
  {
  }

  /** Where an entry's key stands in the order. */
  lemma Position(entries: map<string, Entry>, order: seq<Access>, key: string) returns (i: nat)
    requires InStep(entries, order) && key in KeysIn(order)
    ensures i < |order| && order[i].key == key && key in entries && entries[key].seqNo == order[i].seqNo
    ensures IndexOf(Listing(entries, order), key) == i
    ensures Listing(entries, order)[i] == ItemOf(key, entries[key])
  {
    i :| 0 <= i < |order| && order[i].key == key;
    ListingDistinct(entries, order);
    HasAt(Listing(entries, order), i);
  }

  lemma NoPosition(entries: map<string, Entry>, order: seq<Access>, key: string)
    requires InStep(entries, order) && key !in KeysIn(order)
    ensures IndexOf(Listing(entries, order), key) == |order|
  {
    hide IndexOf;
    var i := IndexOf(Listing(entries, order), key);
  }

  lemma SortedParts(order: seq<Access>, i: nat)
    requires Sorted(order) && i < |order|
    ensures Sorted(order[..i] + order[i + 1..]) && order == order[..i] + [order[i]] + order[i + 1..]
    ensures var rest := order[..i] + order[i + 1..]; forall j | 0 <= j < |rest| :: rest[j].seqNo != order[i].seqNo
    ensures var rest := order[..i] + order[i + 1..]; forall j | i <= j < |rest| :: order[i].seqNo < rest[j].seqNo
    ensures var rest := order[..i] + order[i + 1..]; forall j | 0 <= j < i :: rest[j].seqNo < order[i].seqNo
  {
    var rest := order[..i] + order[i + 1..];
    assert forall j | 0 <= j < |rest| :: rest[j] == order[if j < i then j else j + 1];
  }

  /** Taking the access at `i` out of the order. */
  lemma TakeOut(entries: map<string, Entry>, order: seq<Access>, i: nat)
    requires InStep(entries, order) && i < |order|
    ensures var rest, list := order[..i] + order[i + 1..], Listing(entries, order);
            && Removed(order, order[i].seqNo) == rest && InStep(entries, rest)
            && order[i].key !in KeysIn(rest) && KeysIn(order) == KeysIn(rest) + {order[i].key}
            && Listing(entries, rest) == list[..i] + list[i + 1..]
  {
    hide Points, KeysIn, Sorted;
    var a, x, b := order[..i], order[i], order[i + 1..];
    RemovedAt(order, i);
    SortedParts(order, i);
    Joined(entries, a + [x], b);
    Joined(entries, a, [x]);
    assert x.key in entries by { OneItem(entries, x); }
    ThreeParts(entries, a, x, b);
    OtherKeys(entries, a + b, x);
  }

  lemma SortedLonger(order: seq<Access>, i: nat, x: Access)
    requires Sorted(order) && i <= |order|
    requires forall j | 0 <= j < i :: order[j].seqNo < x.seqNo
    requires forall j | i <= j < |order| :: x.seqNo < order[j].seqNo
    ensures Sorted(order[..i] + [x] + order[i..])
  {
    var longer := order[..i] + [x] + order[i..];
    assert forall j | 0 <= j < |longer| :: longer[j] == if j < i then order[j] else if j == i then x else order[j - 1];
  }

  lemma PointsOne(entries: map<string, Entry>, x: Access)
    requires x.key in entries && entries[x.key].seqNo == x.seqNo
    ensures Points(entries, [x])
  {
  }

  /** Putting an access back where its number belongs. */
  lemma PutBack(entries: map<string, Entry>, order: seq<Access>, i: nat, key: string)
    requires InStep(entries, order) && key in entries && i <= |order|
    requires forall j | 0 <= j < i :: order[j].seqNo < entries[key].seqNo
    requires forall j | i <= j < |order| :: entries[key].seqNo < order[j].seqNo
    ensures var access, list := Access(entries[key].seqNo, key), Listing(entries, order);
            var longer := order[..i] + [access] + order[i..];
            && Added(order, access) == longer
            && InStep(entries, longer) && KeysIn(longer) == KeysIn(order) + {key}
            && Listing(entries, longer) == list[..i] + [ItemOf(key, entries[key])] + list[i..]
  {
    hide KeysIn, Sorted, Points, Added;
    var access, a, b := Access(entries[key].seqNo, key), order[..i], order[i..];
    AddedAt(order, i, access);
    SortedLonger(order, i, access);
    assert order == a + b;
    Joined(entries, a, b);
    assert Points(entries, [access]) by { PointsOne(entries, access); }
    ThreeParts(entries, a, access, b);
  }

  /** Putting the newest access at the end of the order. */
  lemma PutLast(entries: map<string, Entry>, order: seq<Access>, key: string, entry: Entry)
    requires InStep(entries, order) && key !in KeysIn(order)
    requires forall i | 0 <= i < |order| :: order[i].seqNo < entry.seqNo
    ensures var access, after := Access(entry.seqNo, key), entries[key := entry];
            && Added(order, access) == order + [access]
            && InStep(after, order + [access]) && KeysIn(order + [access]) == KeysIn(order) + {key}
            && Listing(after, order + [access]) == Listing(entries, order) + [ItemOf(key, entry)]
  {
    hide KeysIn, Sorted, Points;
    var after := entries[key := entry];
    Elsewhere(entries, order, key, entry);
    PutBack(after, order, |order|, key);
    assert order[..|order|] + [Access(entry.seqNo, key)] + order[|order|..] == order + [Access(entry.seqNo, key)];
    var list := Listing(after, order);
    assert list[..|order|] + [ItemOf(key, entry)] + list[|order|..] == list + [ItemOf(key, entry)];
  }

  lemma {:induction false} KeyCount(order: seq<Access>)
    requires forall i, j | 0 <= i < j < |order| :: order[i].key != order[j].key
    ensures |KeysIn(order)| == |order|
  {
    if order != [] {
      var rest, last := order[..|order| - 1], order[|order| - 1];
      KeyCount(rest);
      KeysJoined(rest, [last]);
      OneKey(last);
      assert order == rest + [last];
      assert last.key !in KeysIn(rest);
    }
  }

  lemma EntryCount(entries: map<string, Entry>, order: seq<Access>)
    requires InStep(entries, order) && entries.Keys == KeysIn(order)
    ensures |entries| == |order|
  {
    KeyCount(order);
    assert |entries| == |entries.Keys|;
  }

  // ---------------------------------------------------------------- the cache

  ghost function SizeOf(entries: map<string, Entry>, away: Option<string>): nat {
    match away
    case None => 0
    case Some(key) => if key in entries then entries[key].size else 0
  }

  ghost function AwayKeys(away: Option<string>): set<string> {
    match away
    case None => {}
    case Some(key) => {key}
  }

  /**
   The map, the order and the byte total agree; `away` is an entry taken out of the order while others are evicted.
   */
  ghost predicate Agrees(entries: map<string, Entry>, order: seq<Access>, memory: nat, away: Option<string>) {
    && InStep(entries, order)
    && entries.Keys == KeysIn(order) + AwayKeys(away) && KeysIn(order) !! AwayKeys(away)
    && memory == Total(Listing(entries, order)) + SizeOf(entries, away)
  }

  ghost predicate Stamped(entries: map<string, Entry>, etagOf: seq<byte> -> string, nextSeq: nat) {
    forall key <- entries :: entries[key].seqNo < nextSeq && entries[key].etag == etagOf(entries[key].data)
  }

  /** Evicting the oldest entry. */
  lemma OldestEvicted(entries: map<string, Entry>, order: seq<Access>, memory: nat, away: Option<string>)
    requires Agrees(entries, order, memory, away) && order != []
    ensures var key := order[0].key;
            && key in entries && entries[key].size <= memory
            && Agrees(entries - {key}, Removed(order, order[0].seqNo), memory - entries[key].size, away)
            && Removed(order, order[0].seqNo) == order[1..]
            && Listing(entries - {key}, Removed(order, order[0].seqNo)) == Listing(entries, order)[1..]
            && (away.Some? ==> away.value != key)
  {
    hide Points, Sorted, KeysIn;
    var key, list := order[0].key, Listing(entries, order);
    TakeOut(entries, order, 0);
    assert order[..0] + order[1..] == order[1..] && list[..0] + list[1..] == list[1..];
    Elsewhere(entries, order[1..], key, entries[key]);
    assert list[0] == ItemOf(key, entries[key]);
  }

  /** Removing the entry of a key. */
  lemma EntryRemoved(entries: map<string, Entry>, order: seq<Access>, memory: nat, key: string)
    requires Agrees(entries, order, memory, None) && key in entries
    ensures entries[key].size <= memory
    ensures var rest := Removed(order, entries[key].seqNo);
            && Agrees(entries - {key}, rest, memory - entries[key].size, None)
            && Listing(entries - {key}, rest) == Without(Listing(entries, order), key)
            && InStep(entries, rest) && Listing(entries, rest) == Without(Listing(entries, order), key) &&
                key !in KeysIn(rest)
  {
    hide Points, Sorted, KeysIn;
    var list := Listing(entries, order);
    var i := Position(entries, order, key);
    TakeOut(entries, order, i);
    Elsewhere(entries, order[..i] + order[i + 1..], key, entries[key]);
    TotalWithout(list, key);
  }

  /** Adding an entry as the newest. */
  lemma EntryAdded(entries: map<string, Entry>, order: seq<Access>, memory: nat, key: string, entry: Entry)
    requires Agrees(entries, order, memory, None) && key !in entries
    requires forall k <- entries :: entries[k].seqNo < entry.seqNo
    ensures var after, longer := entries[key := entry], Added(order, Access(entry.seqNo, key));
            && Agrees(after, longer, memory + entry.size, None)
            && Listing(after, longer) == Listing(entries, order) + [ItemOf(key, entry)]
  {
    hide Sorted;
    PutLast(entries, order, key, entry);
    TotalAppend(Listing(entries, order), [ItemOf(key, entry)]);
    TotalOne(ItemOf(key, entry));
  }

  class FileCache {
    const limits: Limits
    const etagOf: seq<byte> -> string
    var entries: map<string, Entry>
    var order: seq<Access>
    var currentMemory: nat
    var nextSeq: nat
    var hits: nat
    var misses: nat

    ghost predicate Consistent(away: Option<string>)
      reads this
    {
      Agrees(entries, order, currentMemory, away) && Stamped(entries, etagOf, nextSeq)
    }

    ghost predicate Valid()
      reads this
    {
      Consistent(None)
    }

    /** The recency list the cache stands for. */
    ghost function Contents(): seq<Item<Encodings>>
      requires InStep(entries, order)
      reads this
    {
      Listing(entries, order)
    }

    constructor (maxSize: nat, maxMemoryMb: nat, etagOf: seq<byte> -> string)
      ensures Valid() && Contents() == []
      ensures limits == Limits(maxSize, maxMemoryMb * 1024 * 1024) && this.etagOf == etagOf
    {
      limits := Limits(maxSize, maxMemoryMb * 1024 * 1024);
      this.etagOf := etagOf;
      entries := map[];
      order := [];
      currentMemory, nextSeq, hits, misses := 0, 0, 0, 0;
    }

    method Get(key: string) returns (r: Option<CachedFile>)
      requires Valid()
      modifies this
      ensures Valid() && Contents() == Touched(old(Contents()), key)
      ensures var i := IndexOf(old(Contents()), key);
              r == if i < |old(Contents())|
                  then Some(CachedFile(old(Contents())[i].data, etagOf(old(Contents())[i].data),
                                       old(Contents())[i].encodings))
                   else None
      ensures hits + misses == old(hits) + old(misses) + 1 && hits == old(hits) + if r.Some? then 1 else 0
    {
      hide Points, Sorted, KeysIn, Total, IndexOf;
      ghost var list := Contents();
      if key !in entries {
        NoPosition(entries, order, key);
        misses := misses + 1;
        return None;
      }
      var entry := entries[key];
      ghost var i := Position(entries, order, key);
      EntryRemoved(entries, order, currentMemory, key);
      var moved := entry.(seqNo := nextSeq);
      EntryAdded(entries - {key}, Removed(order, entry.seqNo), currentMemory - entry.size, key, moved);
      assert (entries - {key})[key := moved] == entries[key := moved];
      entries := entries[key := moved];
      order := Removed(order, entry.seqNo);
      order := Added(order, Access(nextSeq, key));
      nextSeq := nextSeq + 1;
      hits := hits + 1;
      return Some(CachedFile(entry.data, entry.etag, entry.encodings));
    }

    method EvictOldest(ghost away: Option<string>)
      requires Consistent(away)
      modifies this`entries, this`order, this`currentMemory
      ensures Consistent(away) && InStep(entries, order)
      ensures Contents() == if old(Contents()) == [] then [] else old(Contents())[1..]
      ensures away.Some? ==> away.value in entries && entries[away.value] == old(entries[away.value])
      ensures entries.Keys <= old(entries).Keys
      ensures order == if old(order) == [] then [] else old(order)[1..]
    {
      hide Points, Sorted, KeysIn, Total;
      if order == [] {
        return;
      }
      OldestEvicted(entries, order, currentMemory, away);
      var oldest := order[0];
      order := Removed(order, oldest.seqNo);
      currentMemory := currentMemory - entries[oldest.key].size;
      entries := entries - {oldest.key};
    }

    /** `evict_for`: after the entry count fits, the bytes are made to fit. */
    method EvictFor(incoming: nat)
      requires Valid()
      modifies this`entries, this`order, this`currentMemory
      ensures Valid() && entries.Keys <= old(entries).Keys
      ensures |old(Contents())| < limits.entries || old(Contents()) == [] ==>
                Contents() == Evicted(old(Contents()), limits, incoming)
    {
      hide InStep, KeysIn, Total, Stamped, Excess;
      while currentMemory + incoming > limits.bytes && |entries| > 0
        invariant Valid() && entries.Keys <= old(entries).Keys
        invariant |Contents()| <= |old(Contents())|
        invariant Evicted(Contents(), limits, incoming) == Evicted(old(Contents()), limits, incoming)
        decreases |Contents()|
      {
        EntryCount(entries, order);
        EvictStep(Contents(), limits, incoming);
        EvictOldest(None);
      }
      EntryCount(entries, order);
      EvictStep(Contents(), limits, incoming);
    }

    /** The first step of `insert`: an older entry under the key goes. */
    method Displace(key: string)
      requires Valid()
      modifies this`entries, this`order, this`currentMemory
      ensures Valid() && key !in entries && Contents() == Without(old(Contents()), key)
    {
      hide Points, Sorted, KeysIn, Total, IndexOf;
      if key in entries {
        EntryRemoved(entries, order, currentMemory, key);
        var displaced := entries[key];
        currentMemory := currentMemory - displaced.size;
        order := Removed(order, displaced.seqNo);
        entries := entries - {key};
      } else {
        NoPosition(entries, order, key);
      }
    }

    /** The second step of `insert`: entries go until the count fits, then until the bytes fit. */
    method MakeRoom(key: string, size: nat)
      requires Valid() && key !in entries
      modifies this`entries, this`order, this`currentMemory
      ensures Valid() && key !in entries && Contents() == Evicted(old(Contents()), limits, size)
    {
      hide InStep, KeysIn, Total, Excess, Stamped;
      while |entries| >= limits.entries && |entries| > 0
        invariant Valid() && key !in entries
        invariant Evicted(Contents(), limits, size) == Evicted(old(Contents()), limits, size)
        decreases |Contents()|
      {
        EntryCount(entries, order);
        EvictStep(Contents(), limits, size);
        EvictOldest(None);
      }
      EntryCount(entries, order);
      EvictFor(size);
    }

    method Insert(key: string, data: seq<byte>) returns (file: CachedFile)
      requires Valid()
      modifies this
      ensures Valid() && fresh(file.encodings) && file.encodings.gzip == Untried
      ensures file.data == data && file.etag == etagOf(data)
      ensures Contents() == if Keeps(limits, |data|)
                            then Inserted(old(Contents()), Item(key, data, file.encodings, |data|), limits)
                            else old(Contents())
    {
      hide Agrees, Total, Excess, IndexOf, Without, Points, Sorted, Added;
      var etag := etagOf(data);
      var encodings := new Encodings();
      file := CachedFile(data, etag, encodings);
      if !Keeps(limits, |data|) {
        return;
      }
      Displace(key);
      MakeRoom(key, |data|);
      var entry := Entry(data, etag, encodings, |data|, nextSeq);
      EntryAdded(entries, order, currentMemory, key, entry);
      nextSeq := nextSeq + 1;
      order := Added(order, Access(entry.seqNo, key));
      entries := entries[key := entry];
      currentMemory := currentMemory + |data|;
    }

    /** The loop of `add_encoding`: the oldest others go until the total, with the entry out of the order, fits. */
    method MakeRoomBeside(key: string) returns (ghost n: nat)
      requires Consistent(Some(key)) && InStep(entries, order) && key in entries
      modifies this`entries, this`order, this`currentMemory
      ensures Consistent(Some(key)) && InStep(entries, order) && key in entries && entries[key] == old(entries[key])
      ensures n == Overflow(old(Contents()), limits.bytes - entries[key].size)
      ensures order == old(order)[n..] && Contents() == old(Contents())[n..]
    {
      hide Agrees, InStep, Total, Overflow, Stamped;
      ghost var others, rest, room: int := Contents(), order, limits.bytes - entries[key].size;
      n := 0;
      while currentMemory > limits.bytes && |order| > 0
        invariant InStep(entries, order) && Consistent(Some(key)) && key in entries && entries[key] == old(entries[key])
        invariant n <= |rest| && order == rest[n..] && Contents() == others[n..]
        invariant n + Overflow(others[n..], room) == Overflow(others, room)
        decreases |order|
      {
        AwayMemory(entries, order, currentMemory, key);
        OverflowStep(others[n..], room);
        EvictOldest(Some(key));
        assert others[n..][1..] == others[n + 1..] && rest[n..][1..] == rest[n + 1..];
        n := n + 1;
      }
      AwayMemory(entries, order, currentMemory, key);
      OverflowStep(others[n..], room);
    }

    /**
     Counting a newly made encoding: if the copy is still the cached one, its entry is taken out of the order while the
     oldest others make room, and put back where it was.
     */
    method AddEncoding(key: string, file: CachedFile, bytes: nat)
      requires Valid()
      modifies this`entries, this`order, this`currentMemory
      ensures Valid() && Contents() == Grown(old(Contents()), key, file.encodings, bytes, limits)
    {
      hide Agrees, InStep, Total, IndexOf, Overflow, KeptAround, Stamped, Grown, Listing, Points, Sorted, Added,
        Removed;
      EncodingsAt(entries, order, currentMemory, key, file.encodings);
      ghost var list, before := Contents(), order;
      if key !in entries || entries[key].encodings != file.encodings {
        GrownNowhere(list, key, file.encodings, bytes, limits);
        return;
      }
      var entry := entries[key].(size := entries[key].size + bytes);
      ghost var i := EntryAway(entries, order, currentMemory, key, bytes);
      GrownAt(list, key, file.encodings, bytes, limits, i, ItemOf(key, entry));
      StampedGrows(entries, etagOf, nextSeq, key, entry.size);
      entries := entries[key := entry];
      order := Removed(order, entry.seqNo);
      currentMemory := currentMemory + bytes;
      ghost var m := MakeRoomBeside(key);
      EntryBack(entries, before, order, currentMemory, i, m, key, list);
      order := Added(order, Access(entry.seqNo, key));
    }
  }

  lemma OverflowStep<E>(list: seq<Item<E>>, room: int)
    ensures Overflow(list, room) == if list == [] || Total(list) <= room then 0 else 1 + Overflow(list[1..], room)
  {
  }

  lemma AwayMemory(entries: map<string, Entry>, order: seq<Access>, memory: nat, key: string)
    requires Agrees(entries, order, memory, Some(key)) && key in entries
    ensures InStep(entries, order) && memory == Total(Listing(entries, order)) + entries[key].size
  {
  }

  lemma StampedGrows(entries: map<string, Entry>, etagOf: seq<byte> -> string, nextSeq: nat, key: string, size: nat)
    requires Stamped(entries, etagOf, nextSeq) && key in entries
    ensures Stamped(entries[key := entries[key].(size := size)], etagOf, nextSeq)
  {
  }

  /** What the list says about the entry of a key. */
  lemma EncodingsAt(entries: map<string, Entry>, order: seq<Access>, memory: nat, key: string, encodings: Encodings)
    requires Agrees(entries, order, memory, None)
    ensures InStep(entries, order)
    ensures var list := Listing(entries, order);
            var i := IndexOf(list, key);
            if key in entries then i < |list| && list[i] == ItemOf(key, entries[key]) else i == |list|
  {
    if key in entries {
      var _ := Position(entries, order, key);
    } else {
      NoPosition(entries, order, key);
    }
  }

  /** Growing an entry and taking it out of the order. */
  lemma EntryAway(entries: map<string, Entry>, order: seq<Access>, memory: nat, key: string, bytes: nat)
    returns (i: nat)
    requires Agrees(entries, order, memory, None) && key in entries
    ensures InStep(entries, order) && i < |order| && order[i] == Access(entries[key].seqNo, key)
    ensures i == IndexOf(Listing(entries, order), key)
    ensures var after := entries[key := entries[key].(size := entries[key].size + bytes)];
            var rest := Removed(order, entries[key].seqNo);
            && rest == order[..i] + order[i + 1..]
            && Agrees(after, rest, memory + bytes, Some(key))
            && InStep(after, rest) &&
                Listing(after, rest) == Listing(entries, order)[..i] + Listing(entries, order)[i + 1..]
  {
    hide Points, Sorted, KeysIn, Total, IndexOf;
    i := Position(entries, order, key);
    TakeOut(entries, order, i);
    Elsewhere(entries, order[..i] + order[i + 1..], key, entries[key].(size := entries[key].size + bytes));
    TotalWithout(Listing(entries, order), key);
  }

  lemma PutAround<T>(list: seq<T>, i: nat, x: T, n: nat)
    requires i < |list| && n <= |list| - 1
    ensures var others, p := (list[..i] + list[i + 1..])[n..], if n <= i then i - n else 0;
            others[..p] + [x] + others[p..] == if n <= i then list[n..i] + [x] + list[i + 1..] else [x] + list[n + 1..]
  {
  }

  lemma TotalWith<E>(list: seq<Item<E>>, p: nat, item: Item<E>)
    requires p <= |list|
    ensures Total(list[..p] + [item] + list[p..]) == Total(list) + item.size
  {
    TotalDrop(list, p);
    TotalAppend(list[..p] + [item], list[p..]);
    TotalAppend(list[..p], [item]);
    TotalOne(item);
  }

  lemma RestAround(before: seq<Access>, i: nat, n: nat)
    requires Sorted(before) && i < |before| && n <= |before| - 1
    ensures var order, p := (before[..i] + before[i + 1..])[n..], if n <= i then i - n else 0;
            && p <= |order|
            && (forall j | 0 <= j < p :: order[j].seqNo < before[i].seqNo)
            && (forall j | p <= j < |order| :: before[i].seqNo < order[j].seqNo)
  {
    SortedParts(before, i);
  }

  /** Putting the grown entry back where it was, after the oldest `n` others have gone. */
  lemma EntryBack(entries: map<string, Entry>, before: seq<Access>, order: seq<Access>, memory: nat, i: nat, n: nat,
                  key: string, list: seq<Item<Encodings>>)
    requires Agrees(entries, order, memory, Some(key)) && key in entries && InStep(entries, order)
    requires Sorted(before) && i < |before| == |list| && n <= |before| - 1 &&
             before[i] == Access(entries[key].seqNo, key)
    requires order == (before[..i] + before[i + 1..])[n..]
    requires Listing(entries, order) == (list[..i] + list[i + 1..])[n..]
    ensures var after := Added(order, Access(entries[key].seqNo, key));
            && Agrees(entries, after, memory, None) && InStep(entries, after)
            && Listing(entries, after) == KeptAround(list, i, ItemOf(key, entries[key]), n)
  {
    hide Points, Sorted, KeysIn, Total;
    var p := if n <= i then i - n else 0;
    RestAround(before, i, n);
    PutBack(entries, order, p, key);
    PutAround(list, i, ItemOf(key, entries[key]), n);
    TotalWith(Listing(entries, order), p, ItemOf(key, entries[key]));
  }
}
