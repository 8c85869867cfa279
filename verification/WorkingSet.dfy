/** What a cache holds, without its evictions: the files used since the last use of each (src/cache.rs). */
module WorkingSet {
  import opened Recency

  /** The files that were used and may be kept, each once, in the order of their last uses. */
  ghost function Used<E>(limits: Limits, files: string -> Item<E>, keys: seq<string>): seq<Item<E>> {
    if keys == [] then []
    else
      var before, file := Used(limits, files, keys[..|keys| - 1]), files(keys[|keys| - 1]);
      if MayStay(limits, file) then Without(before, file.key) + [file] else before
  }

  /** A file of at most a tenth of the budget, in a cache that holds any. */
  predicate MayStay<E>(limits: Limits, file: Item<E>) {
    limits.entries > 0 && 10 * file.size <= limits.bytes
  }

  ghost predicate Within<E>(list: seq<Item<E>>, limits: Limits) {
    |list| <= limits.entries && Total(list) <= limits.bytes
  }

  /** A list that is cut in two, the second part being the longest within the limits. */
  ghost predicate Longest<E>(gone: seq<Item<E>>, list: seq<Item<E>>, limits: Limits) {
    Within(list, limits) && (gone != [] ==> !Within([gone[|gone| - 1]] + list, limits))
  }

  lemma WithinIs<E>(a: seq<Item<E>>, item: Item<E>, b: seq<Item<E>>, limits: Limits)
    ensures Within(a + [item] + b, limits) <==>
            |a| + |b| < limits.entries && Total(a) + item.size + Total(b) <= limits.bytes
  {
    TotalAppend(a + [item], b);
    TotalAppend(a, [item]);
    TotalOne(item);
  }

  lemma WithoutIn<E>(a: seq<Item<E>>, b: seq<Item<E>>, key: string)
    requires Distinct(a + b)
    ensures Has(b, key) ==> Without(a + b, key) == a + Without(b, key)
    ensures !Has(b, key) ==> Without(a + b, key) == Without(a, key) + b
  {
    hide IndexOf, Distinct, Without;
    WhereIn(a, b, key);
    WithoutAt(a, key);
    WithoutAt(b, key);
    WithoutAt(a + b, key);
    RemovedIn(a, b, IndexOf(a + b, key));
  }

  lemma RemovedIn<T>(a: seq<T>, b: seq<T>, i: nat)
    ensures i < |a| ==> (a + b)[..i] + (a + b)[i + 1..] == (a[..i] + a[i + 1..]) + b
    ensures |a| <= i < |a| + |b| ==>
              var j := i - |a|; (a + b)[..i] + (a + b)[i + 1..] == a + (b[..j] + b[j + 1..])
  {
  }

  lemma WhereIn<E>(a: seq<Item<E>>, b: seq<Item<E>>, key: string)
    requires Distinct(a + b)
    ensures IndexOf(a + b, key) ==
            if Has(b, key) then |a| + IndexOf(b, key) else if Has(a, key) then IndexOf(a, key) else |a| + |b|
  {
    hide IndexOf;
    var i, j := IndexOf(a, key), IndexOf(b, key);
    if j < |b| {
      assert (a + b)[|a| + j].key == key;
      HasAt(a + b, |a| + j);
    } else if i < |a| {
      assert (a + b)[i].key == key;
      HasAt(a + b, i);
    } else {
      assert forall k | 0 <= k < |a| + |b| :: (a + b)[k].key != key;
    }
  }

  /** A hit only moves its file to the newest place. */
  lemma HitKeepsLongest<E>(gone: seq<Item<E>>, list: seq<Item<E>>, limits: Limits, key: string)
    requires Longest(gone, list, limits) && Has(list, key)
    ensures Longest(gone, Touched(list, key), limits)
  {
    hide Total, IndexOf, Without;
    var i := IndexOf(list, key);
    var file, rest := list[i], Without(list, key);
    TotalWithout(list, key);
    WithoutLength(list, key);
    WithinIs(rest, file, [], limits);
    assert rest + [file] + [] == Touched(list, key);
    TotalAppend(rest, [file]);
    TotalOne(file);
    if gone != [] {
      WithinIs([], gone[|gone| - 1], list, limits);
      WithinIs([], gone[|gone| - 1], Touched(list, key), limits);
      assert [] + [gone[|gone| - 1]] == [gone[|gone| - 1]];
    }
  }

  /** A miss evicts what no longer fits behind the new file, which cannot have been the next to come back. */
  lemma MissKeepsLongest<E>(gone: seq<Item<E>>, list: seq<Item<E>>, limits: Limits, file: Item<E>, n: nat)
    requires Longest(gone, list, limits) && MayStay(limits, file) && n == Excess(list, limits, file.size)
    requires forall item <- gone :: item.key == file.key ==> item == file
    ensures Longest(Without(gone, file.key) + list[..n], list[n..] + [file], limits)
  {
    hide Total, IndexOf, Without, Excess;
    ExcessIsLeast(list, limits, file.size);
    WithinIs(list[n..], file, [], limits);
    TotalNothing(list[n..]);
    TotalNothing<E>([]);
    assert list[n..] + [file] + [] == list[n..] + [file];
    if n > 0 {
      var next := list[n - 1];
      assert !Fits(list[n - 1..], limits, file.size);
      WithinIs(list[n - 1..], file, [], limits);
      assert list[n - 1..] + [file] + [] == [next] + (list[n..] + [file]);
      assert (Without(gone, file.key) + list[..n])[|Without(gone, file.key)| + n - 1] == next;
    } else if Without(gone, file.key) != [] {
      assert Without(gone, file.key) + list[..0] == Without(gone, file.key) && list[0..] == list;
      NextStays(gone, list, limits, file);
    }
  }

  lemma NextStays<E>(gone: seq<Item<E>>, list: seq<Item<E>>, limits: Limits, file: Item<E>)
    requires Longest(gone, list, limits) && Within(list + [file], limits) && Without(gone, file.key) != []
    requires forall item <- gone :: item.key == file.key ==> item == file
    ensures var left := Without(gone, file.key); !Within([left[|left| - 1]] + (list + [file]), limits)
  {
    hide Total, IndexOf, Without;
    WithoutAt(gone, file.key);
    var next, left := gone[|gone| - 1], Without(gone, file.key);
    WithinIs([], next, list, limits);
    WithinIs(list, file, [], limits);
    TotalNothing<E>([]);
    assert [] + [next] + list == [next] + list && list + [file] + [] == list + [file];
    assert next in gone;
    assert next.key != file.key;
    assert left[|left| - 1] == next;
    WithinIs([], next, list + [file], limits);
    TotalAppend(list, [file]);
    TotalOne(file);
    assert [] + [next] + (list + [file]) == [next] + (list + [file]);
  }

  lemma {:induction false} UsedHolds<E>(limits: Limits, files: string -> Item<E>, keys: seq<string>)
    requires forall key :: files(key).key == key
    ensures Holds(Used(limits, files, keys), files)
    ensures forall file <- Used(limits, files, keys) :: MayStay(limits, file) && file.key in keys
  {
    if keys != [] {
      hide Without, Distinct;
      var before, file := Used(limits, files, keys[..|keys| - 1]), files(keys[|keys| - 1]);
      UsedHolds(limits, files, keys[..|keys| - 1]);
      if MayStay(limits, file) {
        DistinctWithout(before, file.key);
        AppendItem(Without(before, file.key), file);
        var after := Without(before, file.key) + [file];
        assert forall i | 0 <= i < |after| :: after[i] in after;
      }
    }
  }

  /** What the cache has evicted of the files used. */
  ghost function Gone<E>(limits: Limits, files: string -> Item<E>, keys: seq<string>): seq<Item<E>> {
    var used, list := Used(limits, files, keys), Run(limits, files, keys);
    if |list| <= |used| then used[..|used| - |list|] else []
  }

  lemma UsedStep<E>(limits: Limits, files: string -> Item<E>, keys: seq<string>)
    requires keys != []
    ensures var front, file := keys[..|keys| - 1], files(keys[|keys| - 1]);
            && Run(limits, files, keys) == Resolved(Run(limits, files, front), limits, file)
            && Used(limits, files, keys) ==
               if MayStay(limits, file) then Without(Used(limits, files, front), file.key) + [file]
               else Used(limits, files, front)
  {
  }

  lemma GoneIs<E>(limits: Limits, files: string -> Item<E>, keys: seq<string>, gone: seq<Item<E>>)
    requires Used(limits, files, keys) == gone + Run(limits, files, keys)
    ensures Gone(limits, files, keys) == gone
  {
    hide Used, Run;
  }

  lemma HitStays<E>(list: seq<Item<E>>, limits: Limits, files: string -> Item<E>, key: string)
    requires Has(list, key) && forall item <- list :: item == files(item.key) && MayStay(limits, item)
    ensures Touched(list, key) == Without(list, key) + [files(key)] && MayStay(limits, files(key))
  {
    hide Without;
    assert list[IndexOf(list, key)] in list;
  }

  lemma InsertedIs<E>(list: seq<Item<E>>, file: Item<E>, limits: Limits)
    requires !Has(list, file.key)
    ensures Inserted(list, file, limits) == list[Excess(list, limits, file.size)..] + [file]
  {
    NoSuch(list, file.key);
  }

  /** One resolve: the files used and the longest end of them change together. */
  lemma StepKeepsLongest<E>(gone: seq<Item<E>>, list: seq<Item<E>>, limits: Limits, files: string -> Item<E>,
                            key: string) returns (after: seq<Item<E>>)
    requires Longest(gone, list, limits) && Holds(gone + list, files) && files(key).key == key
    requires forall file <- gone + list :: MayStay(limits, file)
    ensures var r := Resolved(list, limits, files(key));
            && Longest(after, r, limits)
            && after + r ==
               if MayStay(limits, files(key)) then Without(gone + list, key) + [files(key)] else gone + list
  {
    hide Longest, Has, Without, Touched, Inserted, Distinct, Excess;
    var file := files(key);
    AllAre(gone, list, limits, files);
    WithoutIn(gone, list, key);
    if Has(list, key) {
      HitStays(list, limits, files, key);
      HitKeepsLongest(gone, list, limits, key);
      after := gone;
    } else if MayStay(limits, file) {
      var n := Excess(list, limits, file.size);
      MissKeepsLongest(gone, list, limits, file, n);
      InsertedIs(list, file, limits);
      after := Without(gone, key) + list[..n];
      assert list == list[..n] + list[n..];
    } else {
      after := gone;
    }
  }

  lemma AllAre<E>(gone: seq<Item<E>>, list: seq<Item<E>>, limits: Limits, files: string -> Item<E>)
    requires Holds(gone + list, files) && forall file <- gone + list :: MayStay(limits, file)
    ensures forall item <- gone :: item == files(item.key)
    ensures forall item <- list :: item == files(item.key) && MayStay(limits, item)
  {
    var all := gone + list;
    assert forall i | 0 <= i < |gone| :: all[i] == gone[i];
    assert forall i | 0 <= i < |list| :: all[|gone| + i] == list[i];
    assert forall item <- list :: item in all;
  }

  /**
   After any run of resolves with a fixed file per key, the cache holds the longest end of the files used, in the order
   of their last uses, that is within its limits.
   */
  lemma {:induction false} HoldsTheLongest<E>(limits: Limits, files: string -> Item<E>, keys: seq<string>)
    requires forall key :: files(key).key == key
    ensures var gone, list := Gone(limits, files, keys), Run(limits, files, keys);
            Used(limits, files, keys) == gone + list && Longest(gone, list, limits)
  {
    if keys != [] {
      hide Used, Run, Gone, Longest, Without, Resolved, Distinct, MayStay;
      var front, key := keys[..|keys| - 1], keys[|keys| - 1];
      HoldsTheLongest(limits, files, front);
      UsedHolds(limits, files, front);
      UsedStep(limits, files, keys);
      var after := StepKeepsLongest(Gone(limits, files, front), Run(limits, files, front), limits, files, key);
      GoneIs(limits, files, keys, after);
    }
  }

  // ---------------------------------------------------------------- when a key is a hit

  lemma {:induction false} UsedOfEnd<E>(limits: Limits, files: string -> Item<E>, a: seq<string>, b: seq<string>)
    requires forall key :: files(key).key == key
    ensures IsSuffix(Used(limits, files, b), Used(limits, files, a + b))
    decreases |b|
  {
    if b != [] {
      hide Used, Without, IsSuffix, MayStay, Distinct;
      var front := b[..|b| - 1];
      UsedOfEnd(limits, files, a, front);
      UsedHolds(limits, files, a + front);
      assert (a + b)[..|a + b| - 1] == a + front;
      UsedStep(limits, files, b);
      UsedStep(limits, files, a + b);
      var key := b[|b| - 1];
      SuffixWithout(Used(limits, files, front), Used(limits, files, a + front), key);
      SuffixAppend(Without(Used(limits, files, front), key), Without(Used(limits, files, a + front), key), files(key));
    } else {
      EmptySuffix(Used(limits, files, a + b));
    }
  }

  lemma EmptySuffix<T>(s: seq<T>)
    ensures IsSuffix([], s)
  {
  }

  lemma UsedNothing<E>(limits: Limits, files: string -> Item<E>)
    ensures Used(limits, files, []) == []
    ensures forall key :: Without<E>([], key) == []
  {
  }

  lemma FirstStays<E>(list: seq<Item<E>>, key: string)
    requires list != [] && list[0].key != key
    ensures Without(list, key) != [] && Without(list, key)[0] == list[0]
  {
  }

  /** Since its last use a file is the first of those used. */
  lemma {:induction false} FirstUsed<E>(limits: Limits, files: string -> Item<E>, key: string, later: seq<string>)
    requires forall k :: files(k).key == k
    requires MayStay(limits, files(key)) && key !in later
    ensures var used := Used(limits, files, [key] + later); used != [] && used[0] == files(key)
    decreases |later|
  {
    hide Used, MayStay, Distinct;
    var keys := [key] + later;
    UsedStep(limits, files, keys);
    if later == [] {
      assert keys[..0] == [];
      UsedNothing(limits, files);
    } else {
      var front := later[..|later| - 1];
      assert keys[..|keys| - 1] == [key] + front;
      FirstUsed(limits, files, key, front);
      FirstStays(Used(limits, files, [key] + front), later[|later| - 1]);
    }
  }

  /**
   The exact condition for a hit. A key used before is still cached exactly when its file may stay and all the files
   used since its last use, itself included, are together within the limits.
   */
  lemma HitExactlyWhen<E>(limits: Limits, files: string -> Item<E>, earlier: seq<string>, key: string,
                          later: seq<string>)
    requires (forall k :: files(k).key == k) && key !in later
    ensures Has(Run(limits, files, earlier + [key] + later), key) <==>
            MayStay(limits, files(key)) && Within(Used(limits, files, [key] + later), limits)
  {
    hide Used, Run, Distinct, Gone, Longest, IsSuffix, IndexOf;
    var keys, since := earlier + [key] + later, Used(limits, files, [key] + later);
    assert keys == earlier + ([key] + later);
    HeldWereUsed(limits, files, keys);
    HoldsTheLongest(limits, files, keys);
    UsedHolds(limits, files, keys);
    var gone, list := Gone(limits, files, keys), Run(limits, files, keys);
    if MayStay(limits, files(key)) {
      UsedOfEnd(limits, files, earlier, [key] + later);
      FirstUsed(limits, files, key, later);
      StartsAt(gone, list, since);
      LongestEnds(gone, list, limits, since);
    } else {
      KeyIn(list, key);
    }
  }

  /** Among distinct keys, the one an end starts with is in the second part exactly when the end starts there. */
  lemma StartsAt<E>(gone: seq<Item<E>>, list: seq<Item<E>>, end: seq<Item<E>>)
    requires Distinct(gone + list) && IsSuffix(end, gone + list) && end != []
    ensures Has(list, end[0].key) <==> |end| <= |list|
  {
    hide IndexOf, Distinct;
    var at := |gone + list| - |end|;
    assert (gone + list)[at] == end[0];
    HasAt(gone + list, at);
    WhereIn(gone, list, end[0].key);
  }

  lemma LongestEnds<E>(gone: seq<Item<E>>, list: seq<Item<E>>, limits: Limits, end: seq<Item<E>>)
    requires Longest(gone, list, limits) && IsSuffix(end, gone + list)
    ensures Within(end, limits) <==> |end| <= |list|
  {
    var at := |gone + list| - |end|;
    if |end| <= |list| {
      assert end == list[at - |gone|..];
      WithinShorter(list, limits, at - |gone|);
    } else {
      var longer := [gone[|gone| - 1]] + list;
      assert end[|end| - |longer|..] == longer;
      WithinShorter(end, limits, |end| - |longer|);
    }
  }

  lemma WithinShorter<E>(list: seq<Item<E>>, limits: Limits, n: nat)
    requires n <= |list|
    ensures Within(list, limits) ==> Within(list[n..], limits)
  {
    TotalDrop(list, n);
  }

  lemma KeyIn<E>(list: seq<Item<E>>, key: string)
    ensures Has(list, key) ==> exists item <- list :: item.key == key
  {
    hide IndexOf;
    var i := IndexOf(list, key);
    if i < |list| {
      assert list[i] in list;
    }
  }

  lemma HeldWereUsed<E>(limits: Limits, files: string -> Item<E>, keys: seq<string>)
    requires forall key :: files(key).key == key
    ensures forall file <- Run(limits, files, keys) ::
              MayStay(limits, file) && file.key in keys && file == files(file.key)
  {
    hide Used, Run, Distinct, Gone, Longest, MayStay;
    HoldsTheLongest(limits, files, keys);
    UsedHolds(limits, files, keys);
  }

  /** A key that was never used is a miss. */
  lemma NeverUsed<E>(limits: Limits, files: string -> Item<E>, keys: seq<string>, key: string)
    requires (forall k :: files(k).key == k) && key !in keys
    ensures !Has(Run(limits, files, keys), key)
  {
    hide Run;
    HeldWereUsed(limits, files, keys);
    KeyIn(Run(limits, files, keys), key);
  }
}
