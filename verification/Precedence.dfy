/** In which order a client asks its sources, for every world (src/client.rs). */
module Precedence {
  import opened Bytes
  import opened Library
  import opened AssetIndex
  import opened Client

  // ---------------------------------------------------------------- segments of a path

  predicate IsSlash(c: char) {
    c == '/' || c == '\\'
  }

  predicate NamesBgm(segment: string) {
    && |segment| == 3 && (segment[0] == 'B' || segment[0] == 'b') && (segment[1] == 'G' || segment[1] == 'g')
    && (segment[2] == 'M' || segment[2] == 'm')
  }

  predicate NamesAi(segment: string) {
    |segment| == 2 && (segment[0] == 'A' || segment[0] == 'a') && (segment[1] == 'I' || segment[1] == 'i')
  }

  predicate NamesData(segment: string) {
    && |segment| == 4 && (segment[0] == 'D' || segment[0] == 'd') && (segment[1] == 'A' || segment[1] == 'a')
    && (segment[2] == 'T' || segment[2] == 't') && (segment[3] == 'A' || segment[3] == 'a')
  }

  predicate NoSlash(s: string) {
    forall i | 0 <= i < |s| :: !IsSlash(s[i])
  }

  lemma {:induction false} FirstSlashIs(s: string, n: nat)
    requires n < |s| && s[n] == '/' && forall i | 0 <= i < n :: s[i] != '/'
    ensures FirstSlash(s) == n
  {
    if n > 0 {
      FirstSlashIs(s[1..], n - 1);
    }
  }

  lemma CaseOf(c: char)
    ensures AsciiLower(c) == 'b' <==> c == 'B' || c == 'b'
    ensures AsciiLower(c) == 'g' <==> c == 'G' || c == 'g'
    ensures AsciiLower(c) == 'm' <==> c == 'M' || c == 'm'
    ensures AsciiLower(c) == 'a' <==> c == 'A' || c == 'a'
    ensures AsciiLower(c) == 'i' <==> c == 'I' || c == 'i'
    ensures AsciiLower(c) == 'd' <==> c == 'D' || c == 'd'
    ensures AsciiLower(c) == 't' <==> c == 'T' || c == 't'
    ensures AsciiLower(c) == '/' <==> c == '/'
    ensures AsciiLower(c) == '\\' <==> c == '\\'
  {
  }

  lemma SegmentIs(segment: string)
    ensures EqualsIgnoringCase(segment, "BGM") <==> NamesBgm(segment)
    ensures EqualsIgnoringCase(segment, "AI") <==> NamesAi(segment)
  {
    hide AsciiLower;
    forall i | 0 <= i < |segment| {
      CaseOf(segment[i]);
    }
    CaseOf('B');
    CaseOf('G');
    CaseOf('M');
    CaseOf('A');
    CaseOf('I');
  }

  /** A path by its first segment. */
  lemma SelectedDirectory<E>(w: World<E>, segment: string, slash: char, rest: string)
    requires NoSlash(segment) && IsSlash(slash)
    ensures ClientFile(w, segment + [slash] + rest) ==
            if NamesBgm(segment) then LookIn(w.bgm, Slashed(rest))
            else if NamesAi(segment) then LookIn(w.ai, Slashed(rest))
            else None
  {
    hide EqualsIgnoringCase, FirstSlash;
    var path := segment + [slash] + rest;
    var p := Slashed(path);
    var n := |segment|;
    assert p[n] == '/' && forall i | 0 <= i < n :: p[i] == segment[i];
    FirstSlashIs(p, n);
    assert p[..n] == segment && p[n + 1..] == Slashed(rest);
    SegmentIs(segment);
  }

  lemma NoSelectedDirectory<E>(w: World<E>, path: string)
    requires NoSlash(path)
    ensures ClientFile(w, path) == None
  {
    var p := Slashed(path);
    assert forall i | 0 <= i < |p| :: p[i] == path[i];
  }

  lemma DataPrefix(path: string)
    ensures WithoutData(path) ==
            if |path| >= 5 && NamesData(path[..4]) && IsSlash(path[4]) then path[5..] else path
  {
    hide AsciiLower;
    if |path| >= 5 {
      var front := path[..5];
      assert path[..4] == front[..4] && path[4] == front[4];
      CaseOf(front[0]);
      CaseOf(front[1]);
      CaseOf(front[2]);
      CaseOf(front[3]);
      CaseOf(front[4]);
      CaseOf('d');
      CaseOf('a');
      CaseOf('t');
      CaseOf('/');
      CaseOf('\\');
    }
  }

  // ---------------------------------------------------------------- the order of the sources

  /** Nothing is answered for a path that is not public or cannot be joined to the root. */
  lemma RefusedPath<E>(w: World<E>, path: string, gameData: bool)
    requires w.Valid() && !(w.isPublic(path) && w.isJoinable(path))
    ensures Uncached(w, path, gameData) == None
  {
  }

  /** A loose file comes before everything else. */
  lemma LooseFileFirst<E>(w: World<E>, path: string, gameData: bool, content: seq<byte>)
    requires w.Valid() && w.Admits(path) && w.root(path) == Some(content)
    ensures Uncached(w, path, gameData) == Some((content, LocalFile))
  {
  }

  /** Then the selected directory, for `BGM` and `AI` in any case before either slash, but only as game data. */
  lemma SelectedDirectoryNext<E>(w: World<E>, segment: string, slash: char, rest: string, content: seq<byte>)
    requires w.Valid() && w.Admits(segment + [slash] + rest) && w.root(segment + [slash] + rest) == None
    requires IsSlash(slash) && (NamesBgm(segment) || NamesAi(segment))
    requires var directory := if NamesBgm(segment) then w.bgm else w.ai;
             directory.Some? && directory.value(Slashed(rest)) == Some(content)
    ensures Uncached(w, segment + [slash] + rest, true) == Some((content, ClientDirectory))
  {
    hide ClientFile;
    SelectedDirectory(w, segment, slash, rest);
  }

  /** Then the override directory, which is asked without a leading `data/`. */
  lemma OverrideNext<E>(w: World<E>, path: string, gameData: bool, content: seq<byte>)
    requires w.Valid() && w.Admits(path) && w.root(path) == None && (gameData ==> ClientFile(w, path) == None)
    requires var inside := if |path| >= 5 && NamesData(path[..4]) && IsSlash(path[4]) then path[5..] else path;
             w.overrides.Some? && w.overrides.value(inside) == Some(content)
    ensures Uncached(w, path, gameData) == Some((content, DataOverride))
  {
    hide ClientFile, WithoutData;
    DataPrefix(path);
  }

  /** The path is left to the archives. */
  ghost predicate OnlyArchived<E>(w: World<E>, path: string) {
    && w.Admits(path) && w.root(path) == None && ClientFile(w, path) == None
    && LookIn(w.overrides, WithoutData(path)) == None
  }

  /** What a file of the index is served as; one that cannot be read is not looked for elsewhere. */
  function Served<E>(w: World<E>, slot: nat): Option<(seq<byte>, Source)>
    requires slot < |w.index.files|
  {
    var file := w.index.files[slot];
    match w.entryBytes(file)
    case None => None
    case Some(content) => Some((content, Grf(file.grf)))
  }

  /** `slot` is the first file, in archive order, that a spelling names. */
  ghost predicate Names<E>(w: World<E>, path: string, slot: nat) {
    slot < |w.index.files| && AnswersTo(w.spelling, w.index.files[slot], path) &&
    forall j | 0 <= j < slot :: !AnswersTo(w.spelling, w.index.files[j], path)
  }

  /** No file has that spelling. */
  ghost predicate NamesNone<E>(w: World<E>, path: string) {
    forall j | 0 <= j < |w.index.files| :: !AnswersTo(w.spelling, w.index.files[j], path)
  }

  lemma FindIs<E>(w: World<E>, path: string, slot: nat)
    requires IsOverlay(w.spelling, w.index)
    ensures NamesNone(w, path) <==> Find(w, path) == None
    ensures Names(w, path, slot) <==> Find(w, path) == Some(slot)
  {
    hide AnswersTo, LookupSlot, IsOverlay;
    LookupIsOverlay(w.spelling, w.index, path);
  }

  /** The archives come last, and first under the path as it was asked for. */
  lemma ArchivesLast<E>(w: World<E>, path: string, slot: nat)
    requires IsOverlay(w.spelling, w.index) && w.Valid() && OnlyArchived(w, path) && Names(w, path, slot)
    ensures Uncached(w, path, true) == Served(w, slot)
  {
    hide AnswersTo, LookupSlot, IsOverlay, ClientFile, WithoutData;
    FindIs(w, path, slot);
  }

  /** A file that only the Korean reading of the path names is found under it. */
  lemma DecodedSpelling<E>(w: World<E>, path: string, slot: nat)
    requires IsOverlay(w.spelling, w.index) && w.Valid() && OnlyArchived(w, path)
    requires NamesNone(w, path) && Names(w, w.decodeMojibake(path), slot)
    ensures Uncached(w, path, true) == Served(w, slot)
  {
    hide AnswersTo, LookupSlot, IsOverlay, ClientFile, WithoutData;
    FindIs(w, path, slot);
    FindIs(w, w.decodeMojibake(path), slot);
  }

  /** A file that only the path with its windows-1252 letters put back names is found under that, or its reading. */
  lemma Latin1Spelling<E>(w: World<E>, path: string, latin1: string, slot: nat)
    requires IsOverlay(w.spelling, w.index) && w.Valid() && OnlyArchived(w, path)
    requires NamesNone(w, path) && NamesNone(w, w.decodeMojibake(path)) && w.toLatin1(path) == Some(latin1)
    requires Names(w, latin1, slot) || (NamesNone(w, latin1) && Names(w, w.decodeMojibake(latin1), slot))
    ensures Uncached(w, path, true) == Served(w, slot)
  {
    hide AnswersTo, LookupSlot, IsOverlay, ClientFile, WithoutData;
    FindIs(w, path, slot);
    FindIs(w, w.decodeMojibake(path), slot);
    FindIs(w, latin1, slot);
    FindIs(w, w.decodeMojibake(latin1), slot);
  }

  /** A path that no spelling names is a miss. */
  lemma NoSpelling<E>(w: World<E>, path: string)
    requires IsOverlay(w.spelling, w.index) && w.Valid() && OnlyArchived(w, path)
    requires NamesNone(w, path) && NamesNone(w, w.decodeMojibake(path))
    requires match w.toLatin1(path)
             case None => true
             case Some(latin1) => NamesNone(w, latin1) && NamesNone(w, w.decodeMojibake(latin1))
    ensures Uncached(w, path, true) == None
  {
    hide AnswersTo, LookupSlot, IsOverlay, ClientFile, WithoutData, NamesNone;
    FindIs(w, path, 0);
    FindIs(w, w.decodeMojibake(path), 0);
    if w.toLatin1(path).Some? {
      FindIs(w, w.toLatin1(path).value, 0);
      FindIs(w, w.decodeMojibake(w.toLatin1(path).value), 0);
    }
  }

  /** Without game data neither archives nor selected directories are asked. */
  lemma WithoutGameData<E>(w: World<E>, path: string)
    requires w.Valid() && w.Admits(path)
    ensures Uncached(w, path, false) ==
            match w.root(path)
            case Some(content) => Some((content, LocalFile))
            case None =>
              match LookIn(w.overrides, WithoutData(path))
              case Some(content) => Some((content, DataOverride))
              case None => None
  {
    hide ClientFile, WithoutData;
  }
}
