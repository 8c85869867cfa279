/** Every interleaving of cache calls and of encodings made outside the cache's lock (src/cache.rs, src/client.rs). */
module CacheRuns {
  import opened Bytes
  import opened Library
  import opened Recency
  import opened Cache

  /** A copy of a file that an insert handed out: whoever holds it may encode it, cached or not. */
  datatype Copy = Copy(key: string, data: seq<byte>, slot: Slot)

  /** The recency list, every copy handed out so far, and the copies whose new encoding is not yet counted. */
  datatype State = State(list: seq<Item<nat>>, copies: seq<Copy>, pending: set<nat>)

  /** The steps of all callers, each atomic: the cache's lock or the slot's own guards it. */
  datatype Event =
    | Get(key: string)
    | Insert(key: string, data: seq<byte>)
    | Encode(copy: nat)
    | Count(copy: nat)

  /** What a slot holds after its one initialisation: the encoding if it came out smaller. */
  function Initialised(data: seq<byte>, encoded: seq<byte>): Slot {
    if |encoded| < |data| then Made(encoded) else NoSmaller
  }

  ghost function Next(limits: Limits, encode: seq<byte> -> seq<byte>, s: State, event: Event): State {
    match event
    case Get(key) => s.(list := Touched(s.list, key))
    case Insert(key, data) =>
      var item := Item(key, data, |s.copies|, |data|);
      s.(list := if Keeps(limits, |data|) then Inserted(s.list, item, limits) else s.list,
         copies := s.copies + [Copy(key, data, Untried)])
    case Encode(id) =>
      if id < |s.copies| && s.copies[id].slot.Untried? && Keeps(limits, |s.copies[id].data|) then
        var slot := Initialised(s.copies[id].data, encode(s.copies[id].data));
        s.(copies := s.copies[id := s.copies[id].(slot := slot)],
           pending := if slot.Made? then s.pending + {id} else s.pending)
      else s
    case Count(id) =>
      if id in s.pending && id < |s.copies| && s.copies[id].slot.Made? then
        s.(list := Grown(s.list, s.copies[id].key, id, |s.copies[id].slot.bytes|, limits), pending := s.pending - {id})
      else s
  }

  ghost function After(limits: Limits, encode: seq<byte> -> seq<byte>, events: seq<Event>): State {
    if events == [] then State([], [], {})
    else Next(limits, encode, After(limits, encode, events[..|events| - 1]), events[|events| - 1])
  }

  /** The bytes of an encoding that have been counted. */
  ghost function Counted(s: State, id: nat): nat
    requires id < |s.copies|
  {
    if s.copies[id].slot.Made? && id !in s.pending then |s.copies[id].slot.bytes| else 0
  }

  /** A cached item is a copy that the cache keeps, sized by its data and its counted encoding. */
  ghost predicate IsCopy(limits: Limits, s: State, item: Item<nat>) {
    && item.encodings < |s.copies|
    && var copy := s.copies[item.encodings];
       && copy.key == item.key && copy.data == item.data && Keeps(limits, |item.data|)
       && item.size == |item.data| + Counted(s, item.encodings)
  }

  ghost predicate SlotsSmaller(s: State) {
    && (forall id <- s.pending :: id < |s.copies| && s.copies[id].slot.Made?)
    && (forall id | 0 <= id < |s.copies| :: s.copies[id].slot.Made? ==> |s.copies[id].slot.bytes| < |s.copies[id].data|)
  }

  ghost predicate Safe(limits: Limits, s: State) {
    && Distinct(s.list) && |s.list| <= limits.entries && Total(s.list) <= limits.bytes
    && SlotsSmaller(s)
    && forall i | 0 <= i < |s.list| :: IsCopy(limits, s, s.list[i])
  }

  lemma ByMembers(limits: Limits, s: State)
    ensures (forall i | 0 <= i < |s.list| :: IsCopy(limits, s, s.list[i])) <==>
            forall item <- s.list :: IsCopy(limits, s, item)
  {
    if forall i | 0 <= i < |s.list| :: IsCopy(limits, s, s.list[i]) {
      forall item <- s.list
        ensures IsCopy(limits, s, item)
      {
        var i :| 0 <= i < |s.list| && s.list[i] == item;
      }
    }
  }

  lemma GetKeepsSafe(limits: Limits, encode: seq<byte> -> seq<byte>, s: State, key: string)
    requires Safe(limits, s)
    ensures Safe(limits, Next(limits, encode, s, Get(key)))
  {
    hide Distinct, Total, Touched;
    var after := Next(limits, encode, s, Get(key));
    assert after.list == Touched(s.list, key);
    TouchedKeeps(s.list, key);
    ByMembers(limits, s);
    forall item <- after.list
      ensures IsCopy(limits, after, item)
    {
      assert IsCopy(limits, s, item);
    }
    ByMembers(limits, after);
  }

  lemma InsertKeepsSafe(limits: Limits, encode: seq<byte> -> seq<byte>, s: State, key: string, data: seq<byte>)
    requires Safe(limits, s)
    ensures Safe(limits, Next(limits, encode, s, Insert(key, data)))
  {
    hide Distinct, Total, Inserted;
    var event := Insert(key, data);
    var after, item := Next(limits, encode, s, event), Item(key, data, |s.copies|, |data|);
    if Keeps(limits, |data|) {
      InsertedKeeps(s.list, item, limits);
    }
    ByMembers(limits, s);
    forall x <- after.list
      ensures IsCopy(limits, after, x)
    {
      if x in s.list {
        assert IsCopy(limits, s, x);
        assert after.copies[x.encodings] == s.copies[x.encodings];
      }
    }
    ByMembers(limits, after);
  }

  lemma EncodeKeepsSafe(limits: Limits, encode: seq<byte> -> seq<byte>, s: State, id: nat)
    requires Safe(limits, s)
    ensures Safe(limits, Next(limits, encode, s, Encode(id)))
  {
    hide Distinct, Total;
    var after := Next(limits, encode, s, Encode(id));
    forall i | 0 <= i < |s.list|
      ensures IsCopy(limits, after, s.list[i])
    {
      assert IsCopy(limits, s, s.list[i]);
    }
  }

  lemma CountKeepsSafe(limits: Limits, encode: seq<byte> -> seq<byte>, s: State, id: nat)
    requires Safe(limits, s)
    ensures Safe(limits, Next(limits, encode, s, Count(id)))
  {
    hide Distinct, Total, KeptAround, IndexOf, Overflow;
    var after := Next(limits, encode, s, Count(id));
    if id in s.pending {
      var key, bytes := s.copies[id].key, |s.copies[id].slot.bytes|;
      var i := IndexOf(s.list, key);
      if i < |s.list| && s.list[i].encodings == id {
        assert IsCopy(limits, s, s.list[i]);
      }
      GrownKeeps(s.list, key, id, bytes, limits);
      GrownMembers(s.list, key, id, bytes, limits);
      ByMembers(limits, s);
      forall x <- after.list
        ensures IsCopy(limits, after, x)
      {
        if x in s.list && (x.key != key || x.encodings != id) {
          assert IsCopy(limits, s, x);
        } else {
          assert i < |s.list| && x == s.list[i].(size := s.list[i].size + bytes);
        }
      }
      ByMembers(limits, after);
    }
  }

  /** Growing keeps other items, and replaces the one it grows. */
  lemma GrownMembers<E>(list: seq<Item<E>>, key: string, encodings: E, bytes: nat, limits: Limits)
    requires Distinct(list)
    ensures var i := IndexOf(list, key);
            forall x <- Grown(list, key, encodings, bytes, limits) ::
              || (x in list && (x.key != key || x.encodings != encodings))
              || (i < |list| && list[i].encodings == encodings && x == list[i].(size := list[i].size + bytes))
  {
    hide KeptAround, IndexOf, Overflow;
    var i := IndexOf(list, key);
    if i < |list| && list[i].encodings == encodings {
      var item := list[i].(size := list[i].size + bytes);
      KeptAroundKeeps(list, i, item, Overflow(list[..i] + list[i + 1..], limits.bytes - item.size));
    } else {
      forall x <- list
        ensures x.key != key || x.encodings != encodings
      {
        if x.key == key {
          OnlyAt(list, key, x);
        }
      }
    }
  }

  lemma OnlyAt<E>(list: seq<Item<E>>, key: string, x: Item<E>)
    requires Distinct(list) && x in list && x.key == key
    ensures IndexOf(list, key) < |list| && list[IndexOf(list, key)] == x
  {
    var j :| 0 <= j < |list| && list[j] == x;
    HasAt(list, j);
  }

  /**
   In every state that any interleaving reaches, keys are distinct, both limits hold, and every cached item is sized by
   its data and the part of its encoding counted so far.
   */
  lemma {:induction false} EveryRunIsSafe(limits: Limits, encode: seq<byte> -> seq<byte>, events: seq<Event>)
    ensures Safe(limits, After(limits, encode, events))
  {
    hide Safe, Next;
    if events == [] {
      NothingIsSafe(limits);
    } else {
      var before := After(limits, encode, events[..|events| - 1]);
      EveryRunIsSafe(limits, encode, events[..|events| - 1]);
      match events[|events| - 1]
      case Get(key) => GetKeepsSafe(limits, encode, before, key);
      case Insert(key, data) => InsertKeepsSafe(limits, encode, before, key, data);
      case Encode(id) => EncodeKeepsSafe(limits, encode, before, id);
      case Count(id) => CountKeepsSafe(limits, encode, before, id);
    }
  }

  lemma NothingIsSafe(limits: Limits)
    ensures Safe(limits, State([], [], {}))
  {
  }

  // ---------------------------------------------------------------- exact accounting

  /** The bytes a cached copy really holds: its data and its encoding. */
  ghost function TrueSize(s: State, id: nat): nat
    requires id < |s.copies|
  {
    |s.copies[id].data| + if s.copies[id].slot.Made? then |s.copies[id].slot.bytes| else 0
  }

  ghost function Resident(s: State, list: seq<Item<nat>>): nat
    requires forall i | 0 <= i < |list| :: list[i].encodings < |s.copies|
  {
    if list == [] then 0 else TrueSize(s, list[0].encodings) + Resident(s, list[1..])
  }

  /** What cached copies hold beyond what is counted. */
  ghost function InFlight(s: State, list: seq<Item<nat>>): nat
    requires forall i | 0 <= i < |list| :: list[i].encodings < |s.copies|
  {
    if list == [] then 0
    else
      var id := list[0].encodings;
      (if id in s.pending && s.copies[id].slot.Made? then |s.copies[id].slot.bytes| else 0) + InFlight(s, list[1..])
  }

  lemma {:induction false} SizesAddUp(limits: Limits, s: State, list: seq<Item<nat>>)
    requires forall i | 0 <= i < |list| :: list[i].encodings < |s.copies| && IsCopy(limits, s, list[i])
    ensures Total(list) + InFlight(s, list) == Resident(s, list)
    ensures s.pending == {} ==> InFlight(s, list) == 0
  {
    if list != [] {
      SizesAddUp(limits, s, list[1..]);
      assert IsCopy(limits, s, list[0]);
    }
  }

  /**
   The running total is exactly what the cached copies hold less the encodings still in flight; with none in flight it
   is exactly what they hold.
   */
  lemma AccountingIsExact(limits: Limits, encode: seq<byte> -> seq<byte>, events: seq<Event>)
    ensures var s := After(limits, encode, events);
            && (forall i | 0 <= i < |s.list| :: s.list[i].encodings < |s.copies|)
            && Total(s.list) + InFlight(s, s.list) == Resident(s, s.list)
            && (s.pending == {} ==> Total(s.list) == Resident(s, s.list))
  {
    hide After, Total, Resident, InFlight, Distinct, SlotsSmaller;
    EveryRunIsSafe(limits, encode, events);
    var s := After(limits, encode, events);
    assert forall i | 0 <= i < |s.list| :: IsCopy(limits, s, s.list[i]);
    SizesAddUp(limits, s, s.list);
  }

  // ---------------------------------------------------------------- what a get answers

  /** The data of the latest insert under a key that the cache keeps. */
  ghost function LatestKept(limits: Limits, events: seq<Event>, key: string): Option<seq<byte>> {
    if events == [] then None
    else
      match events[|events| - 1]
      case Insert(k, data) =>
        if k == key && Keeps(limits, |data|) then Some(data) else LatestKept(limits, events[..|events| - 1], key)
      case _ => LatestKept(limits, events[..|events| - 1], key)
  }

  ghost function Answer(s: State, key: string): Option<seq<byte>> {
    var i := IndexOf(s.list, key);
    if i < |s.list| then Some(s.list[i].data) else None
  }

  ghost predicate AllLatest(limits: Limits, events: seq<Event>, s: State) {
    forall item <- s.list :: LatestKept(limits, events, item.key) == Some(item.data)
  }

  lemma {:induction false} ItemsAreLatest(limits: Limits, encode: seq<byte> -> seq<byte>, events: seq<Event>)
    ensures AllLatest(limits, events, After(limits, encode, events))
  {
    hide Distinct, Touched, Inserted, Grown, IndexOf, Total, Without;
    if events != [] {
      var front, event := events[..|events| - 1], events[|events| - 1];
      var before, after := After(limits, encode, front), After(limits, encode, events);
      ItemsAreLatest(limits, encode, front);
      EveryRunIsSafe(limits, encode, front);
      match event
      case Get(key) => TouchedKeeps(before.list, key);
      case Insert(key, data) =>
        if Keeps(limits, |data|) {
          InsertedKeeps(before.list, Item(key, data, |before.copies|, |data|), limits);
        }
      case Encode(id) =>
      case Count(id) =>
        if id in before.pending && id < |before.copies| && before.copies[id].slot.Made? {
          GrownMembers(before.list, before.copies[id].key, id, |before.copies[id].slot.bytes|, limits);
        }
    }
  }

  /** After any run, a get is a miss or answers with the latest kept insert under its key. */
  lemma GetIsLatestKept(limits: Limits, encode: seq<byte> -> seq<byte>, events: seq<Event>, key: string)
    ensures var r := Answer(After(limits, encode, events), key);
            r == None || r == LatestKept(limits, events, key)
  {
    hide LatestKept, After, IndexOf;
    ItemsAreLatest(limits, encode, events);
    var s := After(limits, encode, events);
    var i := IndexOf(s.list, key);
    if i < |s.list| {
      assert s.list[i] in s.list;
    }
  }

  /**
   An insert is answered from then on exactly when the cache holds entries and the file is at most a tenth of its
   budget; otherwise what it had under the key stays.
   */
  lemma InsertIsAnswered(limits: Limits, encode: seq<byte> -> seq<byte>, events: seq<Event>, key: string,
                         data: seq<byte>)
    ensures var before := After(limits, encode, events);
            Answer(After(limits, encode, events + [Insert(key, data)]), key) ==
            if limits.entries > 0 && 10 * |data| <= limits.bytes then Some(data) else Answer(before, key)
  {
    hide IndexOf, Evicted, Without, Distinct, Total;
    var before, all := After(limits, encode, events), events + [Insert(key, data)];
    assert all[..|all| - 1] == events;
    EveryRunIsSafe(limits, encode, events);
    if Keeps(limits, |data|) {
      var item := Item(key, data, |before.copies|, |data|);
      InsertedKeeps(before.list, item, limits);
      var list := Inserted(before.list, item, limits);
      HasAt(list, |list| - 1);
    }
  }

  // ---------------------------------------------------------------- which item is the newest

  /** The key an event uses: that of a hit, or of an insert the cache keeps. */
  ghost function UsedKey(limits: Limits, s: State, event: Event): Option<string> {
    match event
    case Get(key) => if Has(s.list, key) then Some(key) else None
    case Insert(key, data) => if Keeps(limits, |data|) then Some(key) else None
    case _ => None
  }

  /** Event `j` of a run uses `key`. */
  ghost predicate Uses(limits: Limits, encode: seq<byte> -> seq<byte>, events: seq<Event>, j: nat, key: string) {
    j < |events| && UsedKey(limits, After(limits, encode, events[..j]), events[j]) == Some(key)
  }

  /** Some event uses `key`, and after it none uses another. */
  ghost predicate UsedLast(limits: Limits, encode: seq<byte> -> seq<byte>, events: seq<Event>, key: string) {
    exists j: nat ::
      && Uses(limits, encode, events, j, key)
      && forall k: nat, other :: j < k && Uses(limits, encode, events, k, other) ==> other == key
  }

  /** The key of the last use. */
  ghost function LastUsed(limits: Limits, encode: seq<byte> -> seq<byte>, events: seq<Event>): Option<string> {
    if events == [] then None
    else
      var front := events[..|events| - 1];
      var used := UsedKey(limits, After(limits, encode, front), events[|events| - 1]);
      if used.Some? then used else LastUsed(limits, encode, front)
  }

  /** The last use, if there is any. */
  lemma {:induction false} LastUseAt(limits: Limits, encode: seq<byte> -> seq<byte>,
                                     events: seq<Event>) returns (j: nat)
    ensures var last := LastUsed(limits, encode, events);
            && (last.Some? ==> Uses(limits, encode, events, j, last.value))
            && (forall k: nat, other :: Uses(limits, encode, events, k, other) ==> last.Some? && k <= j)
  {
    hide After, UsedKey;
    j := 0;
    if events != [] {
      var n := |events| - 1;
      var front := events[..n];
      var before := LastUseAt(limits, encode, front);
      if UsedKey(limits, After(limits, encode, front), events[n]).Some? {
        j := n;
      } else {
        j := before;
      }
      forall k: nat, other | Uses(limits, encode, events, k, other) && k < n
        ensures Uses(limits, encode, front, k, other)
      {
        assert front[..k] == events[..k];
      }
      if j < n {
        assert front[..j] == events[..j];
      }
    }
  }

  lemma UsedLastIs(limits: Limits, encode: seq<byte> -> seq<byte>, events: seq<Event>, key: string)
    ensures UsedLast(limits, encode, events, key) <==> LastUsed(limits, encode, events) == Some(key)
  {
    hide LastUsed;
    var last := LastUseAt(limits, encode, events);
    if LastUsed(limits, encode, events) == Some(key) {
      assert Uses(limits, encode, events, last, key);
    }
    if UsedLast(limits, encode, events, key) {
      var j: nat :| Uses(limits, encode, events, j, key) &&
               forall k: nat, other :: j < k && Uses(limits, encode, events, k, other) ==> other == key;
      SameUse(limits, encode, events, last, LastUsed(limits, encode, events).value, key);
    }
  }

  lemma SameUse(limits: Limits, encode: seq<byte> -> seq<byte>, events: seq<Event>, j: nat, a: string, b: string)
    requires Uses(limits, encode, events, j, a)
    ensures Uses(limits, encode, events, j, b) ==> a == b
  {
  }

  /** The key at the newest end. */
  ghost function NewestKey<E>(list: seq<Item<E>>): Option<string> {
    if list == [] then None else Some(list[|list| - 1].key)
  }

  /** Growing an item leaves the newest end to the key that had it, as long as the two items fit together. */
  lemma GrownKeepsNewest<E>(list: seq<Item<E>>, key: string, encodings: E, bytes: nat, limits: Limits)
    requires var i, n := IndexOf(list, key), |list|;
             i < n && list[i].encodings == encodings ==> list[i].size + bytes + list[n - 1].size <= limits.bytes
    ensures NewestKey(Grown(list, key, encodings, bytes, limits)) == NewestKey(list)
  {
    hide IndexOf, Overflow, Grown;
    var i := IndexOf(list, key);
    if i < |list| && list[i].encodings == encodings {
      var item, others := list[i].(size := list[i].size + bytes), list[..i] + list[i + 1..];
      var room := limits.bytes - item.size;
      GrownAt(list, key, encodings, bytes, limits, i, item);
      OverflowIsLeast(others, room);
      if i < |list| - 1 {
        var last := |others| - 1;
        assert others[last..] == [list[|list| - 1]];
        TotalOne(list[|list| - 1]);
      }
    } else {
      GrownNowhere(list, key, encodings, bytes, limits);
    }
  }

  /** Two items of a reachable state fit together, even with an encoding more. */
  lemma SmallItems(limits: Limits, s: State, item: Item<nat>)
    requires SlotsSmaller(s) && IsCopy(limits, s, item)
    ensures 5 * item.size <= limits.bytes
    ensures item.encodings in s.pending ==> 5 * (item.size + |s.copies[item.encodings].slot.bytes|) <= limits.bytes
  {
  }

  lemma CountKeepsNewest(limits: Limits, encode: seq<byte> -> seq<byte>, s: State, id: nat)
    requires Safe(limits, s)
    ensures NewestKey(Next(limits, encode, s, Count(id)).list) == NewestKey(s.list)
  {
    hide Distinct, Total, Grown, IndexOf;
    if id in s.pending {
      var key := s.copies[id].key;
      var i, n := IndexOf(s.list, key), |s.list|;
      if i < n && s.list[i].encodings == id {
        assert IsCopy(limits, s, s.list[i]) && IsCopy(limits, s, s.list[n - 1]);
        SmallItems(limits, s, s.list[i]);
        SmallItems(limits, s, s.list[n - 1]);
      }
      GrownKeepsNewest(s.list, key, id, |s.copies[id].slot.bytes|, limits);
    }
  }

  /** Hits and kept inserts take the newest end; nothing else moves it. */
  lemma {:induction false} NewestIsLastUsed(limits: Limits, encode: seq<byte> -> seq<byte>, events: seq<Event>)
    ensures NewestKey(After(limits, encode, events).list) == LastUsed(limits, encode, events)
  {
    hide Safe, Inserted, IndexOf, Grown;
    if events != [] {
      var front, event := events[..|events| - 1], events[|events| - 1];
      var before := After(limits, encode, front);
      NewestIsLastUsed(limits, encode, front);
      EveryRunIsSafe(limits, encode, front);
      match event
      case Get(key) => TouchedNewest(before.list, key);
      case Insert(key, data) => InsertedNewest(before.list, Item(key, data, |before.copies|, |data|), limits);
      case Encode(id) =>
      case Count(id) => CountKeepsNewest(limits, encode, before, id);
    }
  }

  lemma TouchedNewest<E>(list: seq<Item<E>>, key: string)
    ensures NewestKey(Touched(list, key)) == if Has(list, key) then Some(key) else NewestKey(list)
  {
    hide Without;
  }

  lemma InsertedNewest<E>(list: seq<Item<E>>, item: Item<E>, limits: Limits)
    ensures NewestKey(Inserted(list, item, limits)) == Some(item.key)
  {
    hide Without, Evicted;
  }

  /**
   In every reachable state a cached item is the newest if and only if no hit and no kept insert of another key came
   after the last of its own.
   */
  lemma NewestIff(limits: Limits, encode: seq<byte> -> seq<byte>, events: seq<Event>, i: nat)
    requires i < |After(limits, encode, events).list|
    ensures var list := After(limits, encode, events).list;
            i == |list| - 1 <==> UsedLast(limits, encode, events, list[i].key)
  {
    hide After, LastUsed, UsedLast, Total;
    var list := After(limits, encode, events).list;
    NewestIsLastUsed(limits, encode, events);
    EveryRunIsSafe(limits, encode, events);
    UsedLastIs(limits, encode, events, list[i].key);
  }

  /** The item that a count grows: the cached copy under its key, if it is still that copy. */
  ghost predicate Grows(s: State, id: nat) {
    && id in s.pending && id < |s.copies| && s.copies[id].slot.Made?
    && Has(s.list, s.copies[id].key) && s.list[IndexOf(s.list, s.copies[id].key)].encodings == id
  }

  /**
   The item that a count grows is the newest, before and after, if and only if no hit and no kept insert of another key
   came after the last of its own while the encoding was made.
   */
  lemma GrownIsNewestIff(limits: Limits, encode: seq<byte> -> seq<byte>, events: seq<Event>, id: nat)
    requires Grows(After(limits, encode, events), id)
    ensures var s := After(limits, encode, events);
            var key := s.copies[id].key;
            && (IndexOf(s.list, key) == |s.list| - 1 <==> UsedLast(limits, encode, events, key))
            && (NewestKey(Next(limits, encode, s, Count(id)).list) == Some(key) <==>
                UsedLast(limits, encode, events, key))
  {
    hide After, UsedLast, Next, IndexOf, LastUsed;
    var s := After(limits, encode, events);
    NewestIff(limits, encode, events, IndexOf(s.list, s.copies[id].key));
    EveryRunIsSafe(limits, encode, events);
    CountKeepsNewest(limits, encode, s, id);
    NewestIsLastUsed(limits, encode, events);
    UsedLastIs(limits, encode, events, s.copies[id].key);
  }

  lemma AfterOneMore(limits: Limits, encode: seq<byte> -> seq<byte>, events: seq<Event>, event: Event)
    ensures After(limits, encode, events + [event]) == Next(limits, encode, After(limits, encode, events), event)
  {
    hide Next;
    assert (events + [event])[..|events|] == events;
  }

  lemma FillsUp(a: Item<nat>, b: Item<nat>, limits: Limits)
    requires a.key != b.key && limits.entries >= 2 && a.size + b.size <= limits.bytes
    ensures Inserted([], a, limits) == [a] && Inserted([a], b, limits) == [a, b]
  {
    TotalOne(a);
    assert Without<nat>([], a.key) == [] && Without([a], b.key) == [a];
  }

  lemma FirstGrows(a: Item<nat>, b: Item<nat>, bytes: nat, limits: Limits)
    requires a.key != b.key && a.size + bytes + b.size <= limits.bytes
    ensures IndexOf([a, b], a.key) == 0
    ensures Grown([a, b], a.key, a.encodings, bytes, limits) == [a.(size := a.size + bytes), b]
  {
    TotalOne(b);
    assert [a, b][..0] + [a, b][1..] == [b];
    GrownAt([a, b], a.key, a.encodings, bytes, limits, 0, a.(size := a.size + bytes));
  }

  /** A run in which the grown item is the oldest: its encoding was made while another file was inserted. */
  lemma GrownNeedNotBeNewest()
    ensures var limits, encode := Limits(10, 100), (_: seq<byte>) => [9];
            var events := [Insert("a", [1, 1]), Insert("b", [2]), Encode(0)];
            && Grows(After(limits, encode, events), 0)
            && After(limits, encode, events + [Count(0)]).list == [Item("a", [1, 1], 0, 3), Item("b", [2], 1, 1)]
  {
    hide Inserted, Grown, IndexOf, After;
    var limits, encode := Limits(10, 100), (_: seq<byte>) => [9];
    var a, b := Item("a", [1, 1], 0, 2), Item("b", [2], 1, 1);
    var e0: seq<Event> := [];
    var e1 := e0 + [Insert("a", [1, 1])];
    var e2 := e1 + [Insert("b", [2])];
    var e3 := e2 + [Encode(0)];
    AfterNone(limits, encode);
    AfterOneMore(limits, encode, e0, Insert("a", [1, 1]));
    AfterOneMore(limits, encode, e1, Insert("b", [2]));
    AfterOneMore(limits, encode, e2, Encode(0));
    AfterOneMore(limits, encode, e3, Count(0));
    assert a.key[0] != b.key[0];
    FillsUp(a, b, limits);
    FirstGrows(a, b, 1, limits);
    assert e3 == [Insert("a", [1, 1]), Insert("b", [2]), Encode(0)];
  }

  lemma AfterNone(limits: Limits, encode: seq<byte> -> seq<byte>)
    ensures After(limits, encode, []) == State([], [], {})
  {
  }
}
