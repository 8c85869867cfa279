/** The merged index over all archives, by every spelling of a name (src/index.rs). */
module AssetIndex {
  import opened Library

  /** How names are spelt: case folding, and CP949 bytes read as Latin-1. */
  datatype Spelling = Spelling(lower: string -> string, mojibake: string -> string)

  datatype IndexedFile<E> = IndexedFile(grf: nat, name: string, entry: E)

  datatype AssetIndex<E> = AssetIndex(files: seq<IndexedFile<E>>, keys: map<string, nat>, reachable: seq<nat>,
      mojibakeKeys: nat)

  // ---------------------------------------------------------------- slashes

  function Slash(c: char): char {
    if c == '\\' then '/' else c
  }

  function Backslash(c: char): char {
    if c == '/' then '\\' else c
  }

  function Slashed(s: string): (r: string)
    ensures |r| == |s|
  {
    seq(|s|, i requires 0 <= i < |s| => Slash(s[i]))
  }

  function Backslashed(s: string): (r: string)
    ensures |r| == |s|
  {
    seq(|s|, i requires 0 <= i < |s| => Backslash(s[i]))
  }

  /** The two directions tell strings apart in the same way, and agree where they coincide. */
  lemma SlashDirections(s: string, t: string)
    ensures Slashed(s) == Slashed(t) <==> Backslashed(s) == Backslashed(t)
    ensures Slashed(s) == Backslashed(t) ==> Slashed(s) == Slashed(t)
    ensures Slashed(Slashed(s)) == Slashed(s) == Slashed(Backslashed(s))
  {
    assert Slashed(Backslashed(t)) == Slashed(t) && Backslashed(Slashed(t)) == Backslashed(t);
    assert Slashed(Backslashed(s)) == Slashed(s) && Backslashed(Slashed(s)) == Backslashed(s);
    assert Slashed(Slashed(s)) == Slashed(s);
  }

  function NormForward(sp: Spelling, path: string): string {
    Slashed(sp.lower(path))
  }

  function NormBackward(sp: Spelling, path: string): string {
    Backslashed(sp.lower(path))
  }

  // ---------------------------------------------------------------- the plain overlay

  /** Two paths are the same up to case and slash direction. */
  predicate SamePath(sp: Spelling, a: string, b: string) {
    NormForward(sp, a) == NormForward(sp, b)
  }

  /** Two paths are the same when their lower-case letters are, any slash standing for either. */
  lemma SamePathIs(sp: Spelling, a: string, b: string)
    ensures var x, y := sp.lower(a), sp.lower(b);
            SamePath(sp, a, b) <==>
            |x| == |y| && forall i | 0 <= i < |x| ::
                            x[i] == y[i] || (x[i] == '/' && y[i] == '\\') || (x[i] == '\\' && y[i] == '/')
  {
    var x, y := sp.lower(a), sp.lower(b);
    assert forall i | 0 <= i < |x| :: NormForward(sp, a)[i] == Slash(x[i]);
    assert forall i | 0 <= i < |y| :: NormForward(sp, b)[i] == Slash(y[i]);
  }

  /** A file answers to a path that is its stored or its mojibake name, up to case and slash direction. */
  predicate AnswersTo<E>(sp: Spelling, file: IndexedFile<E>, path: string) {
    SamePath(sp, file.name, path) || SamePath(sp, sp.mojibake(file.name), path)
  }

  /** One of a file's spellings normalises to `key`. */
  predicate Spelt<E>(sp: Spelling, file: IndexedFile<E>, key: string) {
    NormForward(sp, file.name) == key || NormForward(sp, sp.mojibake(file.name)) == key
  }

  /** The first file, in archive order, with a spelling that normalises to `key`. */
  function FirstOwner<E>(sp: Spelling, files: seq<IndexedFile<E>>, key: string): (i: Option<nat>)
    ensures match i
            case None => forall j | 0 <= j < |files| :: !Spelt(sp, files[j], key)
            case Some(k) =>
              k < |files| && Spelt(sp, files[k], key) && forall j | 0 <= j < k :: !Spelt(sp, files[j], key)
  {
    if files == [] then None
    else
      match FirstOwner(sp, files[..|files| - 1], key)
      case Some(k) => Some(k)
      case None => if Spelt(sp, files[|files| - 1], key) then Some(|files| - 1) else None
  }

  /** The plain overlay: the first file of a scan in archive order that answers to a path. */
  ghost predicate IsFirstAnswer<E>(sp: Spelling, files: seq<IndexedFile<E>>, path: string, i: Option<nat>) {
    match i
    case None => forall j | 0 <= j < |files| :: !AnswersTo(sp, files[j], path)
    case Some(k) =>
      k < |files| && AnswersTo(sp, files[k], path) && forall j | 0 <= j < k :: !AnswersTo(sp, files[j], path)
  }

  // ---------------------------------------------------------------- claims

  function Get(keys: map<string, nat>, key: string): Option<nat> {
    if key in keys then Some(keys[key]) else None
  }

  /** The first claimer of a key keeps it. */
  function Claim(keys: map<string, nat>, key: string, slot: nat): map<string, nat> {
    if key in keys then keys else keys[key := slot]
  }

  /** The first claimer of each key, by its slashed form; both directions of a key have the same one. */
  ghost predicate Claims(keys: map<string, nat>, owner: string -> Option<nat>) {
    forall t: string :: Get(keys, Slashed(t)) == owner(Slashed(t)) && Get(keys, Backslashed(t)) == owner(Slashed(t))
  }

  /** Claiming both directions of one spelling. */
  ghost function WithClaim(owner: string -> Option<nat>, key: string, slot: nat): string -> Option<nat> {
    (k: string) => if owner(k).Some? then owner(k) else if k == key then Some(slot) else None
  }

  function ClaimBoth(keys: map<string, nat>, spelling: string, slot: nat): map<string, nat> {
    Claim(Claim(keys, Slashed(spelling), slot), Backslashed(spelling), slot)
  }

  lemma ClaimedBoth(keys: map<string, nat>, owner: string -> Option<nat>, spelling: string, slot: nat)
    requires Claims(keys, owner)
    ensures Claims(ClaimBoth(keys, spelling, slot), WithClaim(owner, Slashed(spelling), slot))
    ensures Slashed(spelling) in keys <==> owner(Slashed(spelling)).Some?
    ensures Slashed(spelling) in keys ==> Backslashed(spelling) in keys
  {
    var after, owner' := ClaimBoth(keys, spelling, slot), WithClaim(owner, Slashed(spelling), slot);
    forall t: string
      ensures Get(after, Slashed(t)) == owner'(Slashed(t)) && Get(after, Backslashed(t)) == owner'(Slashed(t))
    {
      SlashDirections(t, spelling);
      SlashDirections(spelling, t);
      assert Get(keys, Slashed(t)) == owner(Slashed(t)) && Get(keys, Backslashed(t)) == owner(Slashed(t));
      assert Get(keys, Slashed(spelling)) == owner(Slashed(spelling));
      assert Get(keys, Backslashed(spelling)) == owner(Slashed(spelling));
    }
    assert Get(keys, Slashed(spelling)) == owner(Slashed(spelling));
    assert Get(keys, Backslashed(spelling)) == owner(Slashed(spelling));
  }

  ghost function Owner<E>(sp: Spelling, files: seq<IndexedFile<E>>): string -> Option<nat> {
    (key: string) => FirstOwner(sp, files, key)
  }

  lemma OneMoreFile<E>(sp: Spelling, files: seq<IndexedFile<E>>, file: IndexedFile<E>, key: string)
    ensures var n := |files|;
            Owner(sp, files + [file])(key) ==
              WithClaim(WithClaim(Owner(sp, files), NormForward(sp, file.name), n),
                        NormForward(sp, sp.mojibake(file.name)), n)(key)
  {
    assert (files + [file])[..|files|] == files;
  }

  lemma SameClaims(keys: map<string, nat>, owner: string -> Option<nat>, other: string -> Option<nat>)
    requires Claims(keys, owner) && forall key :: owner(key) == other(key)
    ensures Claims(keys, other)
  {
    forall t: string
      ensures Get(keys, Slashed(t)) == other(Slashed(t)) && Get(keys, Backslashed(t)) == other(Slashed(t))
    {
      assert Get(keys, Slashed(t)) == owner(Slashed(t)) && Get(keys, Backslashed(t)) == owner(Slashed(t));
    }
  }

  // ---------------------------------------------------------------- building

  /** The files of all archives in load order, each with its archive's number. */
  function Flat<E>(grfs: seq<seq<(string, E)>>): seq<IndexedFile<E>> {
    if grfs == [] then [] else Flat(grfs[..|grfs| - 1]) + Numbered(|grfs| - 1, grfs[|grfs| - 1])
  }

  function Numbered<E>(grf: nat, files: seq<(string, E)>): (r: seq<IndexedFile<E>>)
    ensures |r| == |files|
  {
    seq(|files|, i requires 0 <= i < |files| => IndexedFile(grf, files[i].0, files[i].1))
  }

  /** Whether a file has a spelling that no file before it has. */
  predicate Wins<E>(sp: Spelling, before: seq<IndexedFile<E>>, name: string) {
    FirstOwner(sp, before, NormForward(sp, name)).None? ||
        FirstOwner(sp, before, NormForward(sp, sp.mojibake(name))).None?
  }

  /** Whether its mojibake spelling is a new key of its own. */
  predicate WinsMojibake<E>(sp: Spelling, before: seq<IndexedFile<E>>, name: string) {
    var key := NormForward(sp, sp.mojibake(name));
    sp.mojibake(name) != name && key != NormForward(sp, name) && FirstOwner(sp, before, key).None?
  }

  function Winners<E>(sp: Spelling, files: seq<IndexedFile<E>>): seq<nat> {
    if files == [] then []
    else
      var n := |files| - 1;
      Winners(sp, files[..n]) + if Wins(sp, files[..n], files[n].name) then [n] else []
  }

  function MojibakeWinners<E>(sp: Spelling, files: seq<IndexedFile<E>>): nat {
    if files == [] then 0
    else
      var n := |files| - 1;
      MojibakeWinners(sp, files[..n]) + if WinsMojibake(sp, files[..n], files[n].name) then 1 else 0
  }

  ghost predicate InBounds(keys: map<string, nat>, n: nat) {
    forall key <- keys :: keys[key] < n
  }

  /** An index that is the plain overlay of its files. */
  ghost predicate IsOverlay<E>(sp: Spelling, index: AssetIndex<E>) {
    && Claims(index.keys, Owner(sp, index.files)) && InBounds(index.keys, |index.files|)
    && index.reachable == Winners(sp, index.files)
    && index.mojibakeKeys == MojibakeWinners(sp, index.files)
  }

  /** The claims of one file: stored and mojibake name, each in both directions. */
  method ClaimFile<E>(sp: Spelling, keys: map<string, nat>, name: string, ghost files: seq<IndexedFile<E>>, slot: nat)
    returns (after: map<string, nat>, wonAny: bool, wonMojibake: bool)
    requires Claims(keys, Owner(sp, files)) && slot == |files|
    ensures forall file: IndexedFile<E> :: file.name == name ==> Claims(after, Owner(sp, files + [file]))
    ensures InBounds(keys, slot) ==> InBounds(after, slot + 1)
    ensures wonAny == Wins(sp, files, name) && wonMojibake == WinsMojibake(sp, files, name)
  {
    hide Claims, FirstOwner, Slashed, Backslashed;
    var forward, backward := NormForward(sp, name), NormBackward(sp, name);
    ghost var owner := Owner(sp, files);
    ghost var owner1 := WithClaim(owner, forward, slot);
    ClaimedBoth(keys, owner, sp.lower(name), slot);
    wonAny := forward !in keys;
    after := Claim(keys, forward, slot);
    wonAny := wonAny || backward !in after;
    StillThere(keys, forward, slot, backward);
    after := Claim(after, backward, slot);
    var mojibake := sp.mojibake(name);
    wonMojibake := false;
    ghost var key := NormForward(sp, mojibake);
    ghost var owner2 := WithClaim(owner1, key, slot);
    ClaimedBoth(after, owner1, sp.lower(mojibake), slot);
    if mojibake != name {
      ghost var middle := after;
      wonMojibake := NormForward(sp, mojibake) !in after;
      wonAny := wonAny || wonMojibake;
      after := Claim(after, NormForward(sp, mojibake), slot);
      wonAny := wonAny || NormBackward(sp, mojibake) !in after;
      StillThere(middle, key, slot, NormBackward(sp, mojibake));
      after := Claim(after, NormBackward(sp, mojibake), slot);
    } else {
      SameClaims(after, owner1, owner2);
    }
    forall file: IndexedFile<E> | file.name == name
      ensures Claims(after, Owner(sp, files + [file]))
    {
      forall k {
        OneMoreFile(sp, files, file, k);
      }
      SameClaims(after, owner2, Owner(sp, files + [file]));
    }
  }

  lemma StillThere(keys: map<string, nat>, key: string, slot: nat, other: string)
    ensures other in keys ==> other in Claim(keys, key, slot)
  {
  }

  lemma NoClaims<E>(sp: Spelling)
    ensures Claims(map[], Owner<E>(sp, []))
  {
  }

  lemma OneMoreWinner<E>(sp: Spelling, files: seq<IndexedFile<E>>, file: IndexedFile<E>)
    ensures Winners(sp, files + [file]) == Winners(sp, files) + if Wins(sp, files, file.name) then [|files|] else []
    ensures MojibakeWinners(sp, files + [file]) ==
              MojibakeWinners(sp, files) + if WinsMojibake(sp, files, file.name) then 1 else 0
  {
    assert (files + [file])[..|files|] == files;
  }

  /** `AssetIndex::build`: all archives in load order, each file claiming its spellings in turn. */
  method Build<E>(sp: Spelling, grfs: seq<seq<(string, E)>>) returns (index: AssetIndex<E>)
    ensures index.files == Flat(grfs) && IsOverlay(sp, index)
  {
    hide Claims, Wins, WinsMojibake, Winners, MojibakeWinners;
    var files: seq<IndexedFile<E>>, keys: map<string, nat>, reachable: seq<nat>, count := [], map[], [], 0;
    NoClaims<E>(sp);
    NoWinners<E>(sp);
    for g := 0 to |grfs|
      invariant files == Flat(grfs[..g])
      invariant Claims(keys, Owner(sp, files)) && InBounds(keys, |files|) && reachable == Winners(sp, files) &&
          count == MojibakeWinners(sp, files)
    {
      var grf := grfs[g];
      ghost var before := files;
      assert grfs[..g + 1][..g] == grfs[..g];
      for i := 0 to |grf|
        invariant files == before + Numbered(g, grf)[..i]
        invariant Claims(keys, Owner(sp, files)) && InBounds(keys, |files|) && reachable == Winners(sp, files) &&
            count == MojibakeWinners(sp, files)
      {
        var slot, file := |files|, IndexedFile(g, grf[i].0, grf[i].1);
        var after, wonAny, wonMojibake := ClaimFile(sp, keys, file.name, files, slot);
        OneMoreWinner(sp, files, file);
        keys := after;
        if wonMojibake {
          count := count + 1;
        }
        if wonAny {
          reachable := reachable + [slot];
        }
        files := files + [file];
        assert Numbered(g, grf)[..i + 1] == Numbered(g, grf)[..i] + [file];
      }
      assert Numbered(g, grf)[..|grf|] == Numbered(g, grf);
    }
    assert grfs[..|grfs|] == grfs;
    index := AssetIndex(files, keys, reachable, count);
  }

  lemma NoWinners<E>(sp: Spelling)
    ensures Winners<E>(sp, []) == [] && MojibakeWinners<E>(sp, []) == 0
  {
  }

  // ---------------------------------------------------------------- looking up

  /** `lookup`: the forward spelling of a path, then the backward one. */
  function LookupSlot<E>(sp: Spelling, index: AssetIndex<E>, path: string): Option<nat> {
    match Get(index.keys, NormForward(sp, path))
    case Some(i) => Some(i)
    case None => Get(index.keys, NormBackward(sp, path))
  }

  /**
   The index answers a path with the first file, in archive order, that answers to it; the second probe never matters.
   */
  lemma LookupIsOverlay<E>(sp: Spelling, index: AssetIndex<E>, path: string)
    requires IsOverlay(sp, index)
    ensures IsFirstAnswer(sp, index.files, path, LookupSlot(sp, index, path))
    ensures LookupSlot(sp, index, path) == Get(index.keys, NormForward(sp, path))
  {
    hide LookupSlot, FirstOwner, Claims, Winners, NormForward, NormBackward;
    LookupIsOwner(sp, index, path);
    var key := NormForward(sp, path);
    assert forall j | 0 <= j < |index.files| :: AnswersTo(sp, index.files[j], path) == Spelt(sp, index.files[j], key);
  }

  lemma {:induction false} WinnersAre<E>(sp: Spelling, files: seq<IndexedFile<E>>, i: nat)
    ensures i in Winners(sp, files) <==> i < |files| && Wins(sp, files[..i], files[i].name)
  {
    hide Wins;
    if files != [] {
      var n := |files| - 1;
      WinnersAre(sp, files[..n], i);
      if i < n {
        assert files[..n][..i] == files[..i];
      }
    }
  }

  lemma {:induction false} OwnerOfPrefix<E>(sp: Spelling, files: seq<IndexedFile<E>>, i: nat, key: string)
    requires i < |files|
    ensures FirstOwner(sp, files, key) == Some(i) <==> Spelt(sp, files[i], key) && FirstOwner(sp, files[..i], key).None?
  {
    assert forall j | 0 <= j < i :: files[..i][j] == files[j];
  }

  /** A file is reachable exactly when some lookup returns it. */
  lemma ReachableIffFound<E>(sp: Spelling, index: AssetIndex<E>, i: nat)
    requires IsOverlay(sp, index)
    ensures i in index.reachable <==> exists path :: LookupSlot(sp, index, path) == Some(i)
  {
    hide FirstOwner, Claims, Winners, NormForward, NormBackward;
    var files := index.files;
    WinnersAre(sp, files, i);
    if i < |files| {
      forall path
        ensures LookupSlot(sp, index, path) == Some(i) <==> FirstOwner(sp, files, NormForward(sp, path)) == Some(i)
      {
        LookupIsOwner(sp, index, path);
      }
      forall path {
        OwnerOfPrefix(sp, files, i, NormForward(sp, path));
      }
      var name := files[i].name;
      if i in index.reachable {
        assert LookupSlot(sp, index, name) == Some(i) || LookupSlot(sp, index, sp.mojibake(name)) == Some(i);
      }
    } else {
      forall path
        ensures LookupSlot(sp, index, path) != Some(i)
      {
        LookupIsOverlay(sp, index, path);
      }
    }
  }

  lemma LookupIsOwner<E>(sp: Spelling, index: AssetIndex<E>, path: string)
    requires IsOverlay(sp, index)
    ensures LookupSlot(sp, index, path) == FirstOwner(sp, index.files, NormForward(sp, path))
    ensures LookupSlot(sp, index, path) == Get(index.keys, NormForward(sp, path))
  {
    hide Slashed, Backslashed, FirstOwner, Winners;
    var t := sp.lower(path);
    assert Get(index.keys, Slashed(t)) == Owner(sp, index.files)(Slashed(t));
    assert Get(index.keys, Backslashed(t)) == Owner(sp, index.files)(Slashed(t));
  }

  /**
   A spelling of a file finds it exactly when no earlier file shares that spelling, up to case and slash direction.
   */
  lemma SpellingFinds<E>(sp: Spelling, index: AssetIndex<E>, i: nat, path: string)
    requires IsOverlay(sp, index) && i < |index.files| && AnswersTo(sp, index.files[i], path)
    ensures LookupSlot(sp, index, path) == Some(i) <==> forall j | 0 <= j < i :: !AnswersTo(sp, index.files[j], path)
  {
    hide Claims, AnswersTo;
    LookupIsOverlay(sp, index, path);
  }

  method Lookup<E>(sp: Spelling, index: AssetIndex<E>, path: string) returns (r: Option<IndexedFile<E>>)
    requires InBounds(index.keys, |index.files|)
    ensures match LookupSlot(sp, index, path)
            case None => r == None
            case Some(i) => i < |index.files| && r == Some(index.files[i])
  {
    var forward := NormForward(sp, path);
    if forward in index.keys {
      return Some(index.files[index.keys[forward]]);
    }
    var backward := NormBackward(sp, path);
    if backward in index.keys {
      return Some(index.files[index.keys[backward]]);
    }
    return None;
  }
}
