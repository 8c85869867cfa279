/**
 When a cached client answers like its sources: over every run of resolves, probes, warm-up and encodings
 (src/client.rs).
 */
module ClientRuns {
  import opened Bytes
  import opened Library
  import opened Recency
  import opened AssetIndex
  import opened Client

  /** What a deployment does besides plain resolves: warming up certain names, and resolves without game data. */
  datatype Mode = Mode(warms: string -> bool, withoutGameData: bool)

  /**
   The steps of all callers. A resolve is two: a look into the cache, and, if that missed, a later fill with what the
   sources gave; other callers' steps may come in between.
   */
  datatype Event =
    | Start(path: string, gameData: bool)
    | Fill(path: string, gameData: bool)
    | Peek(path: string)
    | Warm(file: nat)
    | Grow(key: string, copy: nat, bytes: nat)

  /** The recency list, how many copies were handed out, and the resolves that missed and have not yet filled. */
  datatype State = State(list: seq<Item<nat>>, copies: nat, missed: multiset<(string, bool)>)

  const EMPTY: State := State([], 0, multiset{})

  predicate Allowed(mode: Mode, event: Event) {
    event.Start? ==> event.gameData || mode.withoutGameData
  }

  /** What warming up one file stores: its archive bytes, under its mojibake spelling with forward slashes. */
  function Warmed<E>(w: World<E>, mode: Mode, file: nat): Option<(string, seq<byte>)>
  {
    if file !in w.index.reachable || file >= |w.index.files| || !mode.warms(w.index.files[file].name) then None
    else
      var f := w.index.files[file];
      match w.entryBytes(f)
      case None => None
      case Some(content) => Some((NormForward(w.spelling, w.spelling.mojibake(f.name)), content))
  }

  ghost function Next<E>(w: World<E>, limits: Limits, mode: Mode, s: State, event: Event): State
    requires w.Valid()
  {
    match event
    case Start(path, gameData) =>
      if !w.Admits(path) then s
      else if IsHit(w, s.list, path, gameData) then s.(list := Touched(s.list, w.Key(path)))
      else s.(missed := s.missed + multiset{(path, gameData)})
    case Fill(path, gameData) =>
      if (path, gameData) !in s.missed then s
      else
        (match Uncached(w, path, gameData)
         case None => s.(missed := s.missed - multiset{(path, gameData)})
         case Some((content, _)) =>
           State(Filled(limits, s.list, w.Key(path), content, s.copies), s.copies + 1,
                 s.missed - multiset{(path, gameData)}))
    case Peek(path) => s.(list := if w.isPublic(path) then Touched(s.list, w.Key(path)) else s.list)
    case Warm(file) =>
      (match Warmed(w, mode, file)
       case None => s
       case Some((key, content)) => State(Filled(limits, s.list, key, content, s.copies), s.copies + 1, s.missed))
    case Grow(key, copy, bytes) => s.(list := Grown(s.list, key, copy, bytes, limits))
  }

  ghost function After<E>(w: World<E>, limits: Limits, mode: Mode, events: seq<Event>): State
    requires w.Valid()
  {
    if events == [] then EMPTY
    else Next(w, limits, mode, After(w, limits, mode, events[..|events| - 1]), events[|events| - 1])
  }

  /** The content the sources give a path when nothing is cached. */
  ghost function Wanted<E>(w: World<E>, path: string): Option<seq<byte>>
    requires w.Valid()
  {
    ContentOf(Uncached(w, path, true))
  }

  /** What a step answers its caller, if it is the one that answers. */
  ghost function Answer<E>(w: World<E>, s: State, event: Event): Option<Option<seq<byte>>>
    requires w.Valid()
  {
    match event
    case Start(path, gameData) =>
      if !w.Admits(path) then Some(None)
      else if IsHit(w, s.list, path, gameData) then Some(Some(s.list[IndexOf(s.list, w.Key(path))].data))
      else None
    case Fill(path, gameData) =>
      if (path, gameData) in s.missed then Some(ContentOf(Uncached(w, path, gameData))) else None
    case Peek(path) => if PeekAnswer(w, s.list, path).Some? then Some(PeekAnswer(w, s.list, path)) else None
    case _ => None
  }

  /** A step that answers gives what the sources would. */
  ghost predicate Faithful<E>(w: World<E>, s: State, event: Event)
    requires w.Valid()
  {
    match Answer(w, s, event)
    case None => true
    case Some(answer) =>
      match event
      case Start(path, gameData) => answer == ContentOf(Uncached(w, path, gameData))
      case Fill(path, gameData) => answer == ContentOf(Uncached(w, path, gameData))
      case Peek(path) => answer == Wanted(w, path)
      case _ => true
  }

  /** A resolve alone is its two steps, one after the other. */
  lemma ResolveIsStartAndFill<E>(w: World<E>, limits: Limits, mode: Mode, s: State, path: string, gameData: bool)
    requires w.Valid() && s.missed == multiset{}
    ensures var started := Next(w, limits, mode, s, Start(path, gameData));
            var filled := Next(w, limits, mode, started, Fill(path, gameData));
            var first := Answer(w, s, Start(path, gameData));
            && filled.list == ResolveList(w, limits, s.list, path, gameData, s.copies) && filled.missed == multiset{}
            && (if first.Some? then first else Answer(w, started, Fill(path, gameData))) ==
               Some(ContentOf(ResolveAnswer(w, s.list, path, gameData)))
  {
    hide Touched, Inserted, IndexOf, ArchiveFile, ClientFile;
    var started := Next(w, limits, mode, s, Start(path, gameData));
    if w.Admits(path) && !IsHit(w, s.list, path, gameData) {
      assert started.missed - multiset{(path, gameData)} == multiset{};
    }
  }

  ghost predicate AllAllowed(mode: Mode, events: seq<Event>) {
    forall k | 0 <= k < |events| :: Allowed(mode, events[k])
  }

  /** Every step of a run is faithful, whatever was evicted in between. */
  ghost predicate Transparent<E>(w: World<E>, limits: Limits, mode: Mode, events: seq<Event>)
    requires w.Valid()
  {
    forall k | 0 <= k < |events| :: Faithful(w, After(w, limits, mode, events[..k]), events[k])
  }

  // ---------------------------------------------------------------- fills

  ghost predicate ResolveFills<E>(w: World<E>, mode: Mode, path: string, gameData: bool, key: string,
                                  content: seq<byte>)
    requires w.Valid()
  {
    (gameData || mode.withoutGameData) && key == w.Key(path) && ContentOf(Uncached(w, path, gameData)) == Some(content)
  }

  /** Some step stores `content` under `key` if the cache keeps it. */
  ghost predicate IsFill<E>(w: World<E>, mode: Mode, key: string, content: seq<byte>)
    requires w.Valid()
  {
    || (exists path, gameData :: ResolveFills(w, mode, path, gameData, key, content))
    || (exists file :: Warmed(w, mode, file) == Some((key, content)))
  }

  /** What a fill stores is what the sources give every public path under that key. */
  ghost predicate Agrees<E>(w: World<E>, key: string, content: seq<byte>)
    requires w.Valid()
  {
    forall path :: w.isPublic(path) && w.Key(path) == key ==> Wanted(w, path) == Some(content)
  }

  ghost predicate FillsAgree<E>(w: World<E>, limits: Limits, mode: Mode)
    requires w.Valid()
  {
    forall key, content :: IsFill(w, mode, key, content) && Keeps(limits, |content|) ==> Agrees(w, key, content)
  }

  ghost predicate AllAgree<E>(w: World<E>, list: seq<Item<nat>>)
    requires w.Valid()
  {
    Distinct(list) && forall item <- list :: Agrees(w, item.key, item.data)
  }

  lemma FilledAgrees<E>(w: World<E>, limits: Limits, list: seq<Item<nat>>, key: string, content: seq<byte>, copy: nat)
    requires w.Valid() && AllAgree(w, list) && (Keeps(limits, |content|) ==> Agrees(w, key, content))
    ensures AllAgree(w, Filled(limits, list, key, content, copy))
  {
    hide Distinct, Inserted, Agrees;
    if Keeps(limits, |content|) {
      InsertedKeeps(list, Item(key, content, copy, |content|), limits);
    }
  }

  lemma TouchedAgrees<E>(w: World<E>, list: seq<Item<nat>>, key: string)
    requires w.Valid() && AllAgree(w, list)
    ensures AllAgree(w, Touched(list, key))
  {
    hide Distinct, Touched, Agrees;
    TouchedKeeps(list, key);
  }

  /** Growing an item changes nothing but its size. */
  lemma GrownAgrees<E>(w: World<E>, list: seq<Item<nat>>, key: string, copy: nat, bytes: nat, limits: Limits)
    requires w.Valid() && AllAgree(w, list)
    ensures AllAgree(w, Grown(list, key, copy, bytes, limits))
  {
    hide Distinct, Agrees, KeptAround, IndexOf, Overflow;
    var i := IndexOf(list, key);
    if i < |list| && list[i].encodings == copy {
      var item := list[i].(size := list[i].size + bytes);
      KeptAroundKeeps(list, i, item, Overflow(list[..i] + list[i + 1..], limits.bytes - item.size));
      assert list[i] in list;
    }
  }

  /** Every resolve that is under way was allowed to start. */
  ghost predicate MissesAllowed(mode: Mode, s: State) {
    forall path, gameData | (path, gameData) in s.missed :: gameData || mode.withoutGameData
  }

  lemma {:induction false} RunMissesAllowed<E>(w: World<E>, limits: Limits, mode: Mode, events: seq<Event>)
    requires w.Valid() && AllAllowed(mode, events)
    ensures MissesAllowed(mode, After(w, limits, mode, events))
  {
    hide Uncached, IsHit, Filled, Touched, Grown, Warmed;
    if events != [] {
      var front := events[..|events| - 1];
      RunMissesAllowed(w, limits, mode, front);
      assert Allowed(mode, events[|events| - 1]);
    }
  }

  lemma StepAgrees<E>(w: World<E>, limits: Limits, mode: Mode, s: State, event: Event)
    requires w.Valid() && FillsAgree(w, limits, mode) && AllAgree(w, s.list) && MissesAllowed(mode, s)
    ensures AllAgree(w, Next(w, limits, mode, s, event).list)
  {
    hide AllAgree, Agrees, Filled, Touched, Grown, Uncached, Warmed, IsHit;
    match event
    case Start(path, gameData) => TouchedAgrees(w, s.list, w.Key(path));
    case Fill(path, gameData) =>
      var found := Uncached(w, path, gameData);
      if found.Some? && (path, gameData) in s.missed {
        assert ResolveFills(w, mode, path, gameData, w.Key(path), found.value.0);
        FilledAgrees(w, limits, s.list, w.Key(path), found.value.0, s.copies);
      }
    case Peek(path) => TouchedAgrees(w, s.list, w.Key(path));
    case Warm(file) =>
      var warmed := Warmed(w, mode, file);
      if warmed.Some? {
        assert IsFill(w, mode, warmed.value.0, warmed.value.1);
        FilledAgrees(w, limits, s.list, warmed.value.0, warmed.value.1, s.copies);
      }
    case Grow(key, copy, bytes) => GrownAgrees(w, s.list, key, copy, bytes, limits);
  }

  lemma {:induction false} RunAgrees<E>(w: World<E>, limits: Limits, mode: Mode, events: seq<Event>)
    requires w.Valid() && FillsAgree(w, limits, mode) && AllAllowed(mode, events)
    ensures AllAgree(w, After(w, limits, mode, events).list)
  {
    hide FillsAgree, Next, Agrees, MissesAllowed;
    if events != [] {
      var front := events[..|events| - 1];
      RunAgrees(w, limits, mode, front);
      RunMissesAllowed(w, limits, mode, front);
      StepAgrees(w, limits, mode, After(w, limits, mode, front), events[|events| - 1]);
    }
  }

  lemma AgreeingIsFaithful<E>(w: World<E>, s: State, event: Event)
    requires w.Valid() && AllAgree(w, s.list)
    ensures Faithful(w, s, event)
  {
    hide Distinct, IndexOf, ArchiveFile, ClientFile;
    match event
    case Start(path, gameData) =>
      if IsHit(w, s.list, path, gameData) {
        assert s.list[IndexOf(s.list, w.Key(path))] in s.list;
      }
    case Peek(path) =>
      if Has(s.list, w.Key(path)) {
        assert s.list[IndexOf(s.list, w.Key(path))] in s.list;
      }
    case _ =>
  }

  /** The steps that perform a fill from an empty cache. */
  lemma FillingEvents<E>(w: World<E>, limits: Limits, mode: Mode, key: string,
                         content: seq<byte>) returns (events: seq<Event>)
    requires w.Valid() && IsFill(w, mode, key, content) && Keeps(limits, |content|)
    ensures AllAllowed(mode, events) && After(w, limits, mode, events).list == [Item(key, content, 0, |content|)]
  {
    hide Uncached, Warmed, Filled;
    FirstFill(limits, key, content);
    NothingHit<nat>();
    if exists path, gameData :: ResolveFills(w, mode, path, gameData, key, content) {
      var path, gameData :| ResolveFills(w, mode, path, gameData, key, content);
      FillIsAdmitted(w, path, gameData, content);
      events := [Start(path, gameData), Fill(path, gameData)];
      assert events[..1] == [Start(path, gameData)];
      AfterOne(w, limits, mode, Start(path, gameData));
    } else {
      var file :| Warmed(w, mode, file) == Some((key, content));
      events := [Warm(file)];
      AfterOne(w, limits, mode, Warm(file));
    }
  }

  lemma FillIsAdmitted<E>(w: World<E>, path: string, gameData: bool, content: seq<byte>)
    requires w.Valid() && ContentOf(Uncached(w, path, gameData)) == Some(content)
    ensures w.Admits(path)
  {
  }

  lemma NothingHit<F>()
    ensures forall key :: !Has<F>([], key)
  {
  }

  lemma AfterOne<E>(w: World<E>, limits: Limits, mode: Mode, event: Event)
    requires w.Valid()
    ensures After(w, limits, mode, [event]) == Next(w, limits, mode, EMPTY, event)
  {
    assert [event][..0] == [];
  }

  lemma FirstFill(limits: Limits, key: string, content: seq<byte>)
    requires Keeps(limits, |content|)
    ensures Filled<nat>(limits, [], key, content, 0) == [Item(key, content, 0, |content|)]
  {
    assert Without<nat>([], key) == [];
  }

  /** A fill that disagrees shows in the very next probe. */
  lemma DisagreementShows<E>(w: World<E>, limits: Limits, mode: Mode, key: string, content: seq<byte>,
      path: string) returns (events: seq<Event>)
    requires w.Valid() && IsFill(w, mode, key, content) && Keeps(limits, |content|)
    requires w.isPublic(path) && w.Key(path) == key && Wanted(w, path) != Some(content)
    ensures AllAllowed(mode, events) && !Transparent(w, limits, mode, events)
  {
    hide After, Wanted, IsFill;
    var filling := FillingEvents(w, limits, mode, key, content);
    events := filling + [Peek(path)];
    assert events[..|filling|] == filling;
    var s := After(w, limits, mode, events[..|filling|]);
    assert s.list == [Item(key, content, 0, |content|)];
    assert !Faithful(w, s, events[|filling|]);
  }

  /**
   Cache transparency, exactly: every run the deployment allows, however its resolves interleave, answers what the
   sources alone would, whatever was evicted, if and only if everything a step may store and the cache keeps is what
   the sources give every public path that shares its key.
   */
  lemma TransparentIffFillsAgree<E>(w: World<E>, limits: Limits, mode: Mode)
    requires w.Valid()
    ensures (forall events :: AllAllowed(mode, events) ==> Transparent(w, limits, mode, events))
            <==> FillsAgree(w, limits, mode)
  {
    hide After, Faithful, IsFill, Wanted;
    if FillsAgree(w, limits, mode) {
      forall events, k | AllAllowed(mode, events) && 0 <= k < |events|
        ensures Faithful(w, After(w, limits, mode, events[..k]), events[k])
      {
        RunAgrees(w, limits, mode, events[..k]);
        AgreeingIsFaithful(w, After(w, limits, mode, events[..k]), events[k]);
      }
    }
    if forall events :: AllAllowed(mode, events) ==> Transparent(w, limits, mode, events) {
      forall key, content, path | IsFill(w, mode, key, content) && Keeps(limits, |content|) && w.isPublic(path) &&
          w.Key(path) == key
        ensures Wanted(w, path) == Some(content)
      {
        if Wanted(w, path) != Some(content) {
          var events := DisagreementShows(w, limits, mode, key, content, path);
          assert false;
        }
      }
    }
  }

  /**
   Sources that do not tell paths of equal case-folding apart. Of the archives nothing is asked but that the two ways to
   respell a path keep such paths together: their index folds case by itself.
   */
  ghost predicate CaseBlind<E>(w: World<E>) {
    forall p, q | w.Key(p) == w.Key(q) ::
      && (w.Admits(p) && w.isPublic(q) ==> w.Admits(q))
      && w.root(p) == w.root(q) && ClientFile(w, p) == ClientFile(w, q)
      && LookIn(w.overrides, WithoutData(p)) == LookIn(w.overrides, WithoutData(q))
      && w.Key(w.decodeMojibake(p)) == w.Key(w.decodeMojibake(q))
      && SameLatin1(w, w.toLatin1(p), w.toLatin1(q))
  }

  ghost predicate SameLatin1<E>(w: World<E>, a: Option<string>, b: Option<string>) {
    match (a, b)
    case (Some(p), Some(q)) => w.Key(p) == w.Key(q) && w.Key(w.decodeMojibake(p)) == w.Key(w.decodeMojibake(q))
    case (None, None) => true
    case _ => false
  }

  lemma FindIsCaseBlind<E>(w: World<E>, p: string, q: string)
    requires w.Key(p) == w.Key(q)
    ensures Find(w, p) == Find(w, q)
  {
  }

  lemma ArchivesAreCaseBlind<E>(w: World<E>, p: string, q: string)
    requires w.Valid() && CaseBlind(w) && w.Key(p) == w.Key(q)
    ensures ArchiveFile(w, p) == ArchiveFile(w, q)
  {
    hide Find, ClientFile, LookIn;
    FindIsCaseBlind(w, p, q);
    FindIsCaseBlind(w, w.decodeMojibake(p), w.decodeMojibake(q));
    var a, b := w.toLatin1(p), w.toLatin1(q);
    if a.Some? {
      FindIsCaseBlind(w, a.value, b.value);
      FindIsCaseBlind(w, w.decodeMojibake(a.value), w.decodeMojibake(b.value));
    }
  }

  lemma WantedIsCaseBlind<E>(w: World<E>, p: string, q: string)
    requires w.Valid() && CaseBlind(w) && w.Key(p) == w.Key(q) && w.Admits(p) && w.isPublic(q)
    ensures Wanted(w, p) == Wanted(w, q)
  {
    hide ArchiveFile, ClientFile, LookIn;
    ArchivesAreCaseBlind(w, p, q);
  }

  /** Without warm-up and with game data everywhere, case-blind sources suffice. */
  lemma CaseBlindSourcesAreTransparent<E>(w: World<E>, limits: Limits, events: seq<Event>)
    requires w.Valid() && forall e <- events :: e.Start? ==> e.gameData
    requires CaseBlind(w)
    ensures Transparent(w, limits, Mode(_ => false, false), events)
  {
    hide Transparent, Wanted, CaseBlind;
    var mode := Mode(_ => false, false);
    forall key, content, path | IsFill(w, mode, key, content) && w.isPublic(path) && w.Key(path) == key
      ensures Wanted(w, path) == Some(content)
    {
      var p, gameData :| ResolveFills(w, mode, p, gameData, key, content);
      FillIsWanted(w, p, content);
      WantedIsCaseBlind(w, p, path);
    }
    TransparentIffFillsAgree(w, limits, mode);
    assert AllAllowed(mode, events) by {
      forall k | 0 <= k < |events|
        ensures Allowed(mode, events[k])
      {
        assert events[k] in events;
      }
    }
  }

  lemma FillIsWanted<E>(w: World<E>, path: string, content: seq<byte>)
    requires w.Valid() && ContentOf(Uncached(w, path, true)) == Some(content)
    ensures w.Admits(path) && Wanted(w, path) == Some(content)
  {
  }

  // ---------------------------------------------------------------- the two exceptions

  /** A client with a selected music directory and an override directory that hold different bytes for one path. */
  function TwoDirectories(): World<nat> {
    World(Spelling(s => s, s => s), AssetIndex([], map[], [], 0), _ => None, _ => true, _ => true, _ => None,
          Some((_: string) => Some([1])), None, Some((_: string) => Some([2])), s => s, _ => None)
  }

  /** A resolve without game data may leave bytes in the cache that the full chain would not have given. */
  lemma WithoutGameDataPollutes()
    ensures var w, limits := TwoDirectories(), Limits(10, 100);
            && w.Valid()
            && FillsAgree(w, limits, Mode(_ => false, false))
            && !FillsAgree(w, limits, Mode(_ => false, true))
  {
    var w, limits := TwoDirectories(), Limits(10, 100);
    var path := "BGM/x";
    assert Slashed(path) == path && FirstSlash(path) == 3 && path[..3] == "BGM";
    assert ClientFile(w, path) == Some([1]);
    assert ResolveFills(w, Mode(_ => false, true), path, false, path, [2]);
    assert IsFill(w, Mode(_ => false, true), path, [2]) && Keeps(limits, 1) && Wanted(w, path) == Some([1]);
  }

  /** A client with a loose file over an archived one. */
  function LooseOverArchive(): World<seq<byte>> {
    World(Spelling(s => s, s => s), AssetIndex([IndexedFile(0, "a", [2])], map["a" := 0], [0], 0),
          (f: IndexedFile<seq<byte>>) => Some(f.entry),
          _ => true, _ => true, _ => Some([1]), None, None, None, s => s, _ => None)
  }

  /** Warming up stores archive bytes that a loose file or the override would have shadowed. */
  lemma WarmUpPollutes()
    ensures var w, limits := LooseOverArchive(), Limits(10, 100);
            && w.Valid()
            && FillsAgree(w, limits, Mode(_ => false, true))
            && !FillsAgree(w, limits, Mode(_ => true, false))
  {
    var w, limits, mode := LooseOverArchive(), Limits(10, 100), Mode(_ => true, false);
    assert Slashed("a") == "a";
    assert Warmed(w, mode, 0) == Some(("a", [2]));
    assert IsFill(w, mode, "a", [2]) && Keeps(limits, 1) && Wanted(w, "a") == Some([1]);
  }
}
