/** Resolving request paths through the cache and the source chain (src/client.rs). */
module Client {
  import opened Bytes
  import opened Library
  import opened Recency
  import opened Cache
  import opened AssetIndex

  datatype Source = FromCache | LocalFile | ClientDirectory | DataOverride | Grf(number: nat)

  type Directory = string -> Option<seq<byte>>

  /** Everything a client reads from, fixed while it runs: `None` is a file that is missing or cannot be read. */
  datatype World<!E> = World(
    spelling: Spelling,
    index: AssetIndex<E>,
    entryBytes: IndexedFile<E> -> Option<seq<byte>>,
    isPublic: string -> bool,
    isJoinable: string -> bool,
    root: Directory,
    bgm: Option<Directory>,
    ai: Option<Directory>,
    overrides: Option<Directory>,
    decodeMojibake: string -> string,
    toLatin1: string -> Option<string>
  ) {
    ghost predicate Valid() {
      InBounds(index.keys, |index.files|)
    }

    function Key(path: string): string {
      spelling.lower(path)
    }

    predicate Admits(path: string) {
      isPublic(path) && isJoinable(path)
    }
  }

  // ---------------------------------------------------------------- the source chain

  function AsciiLower(c: char): char {
    if 'A' <= c <= 'Z' then c - 'A' + 'a' else c
  }

  predicate EqualsIgnoringCase(a: string, b: string) {
    |a| == |b| && forall i | 0 <= i < |a| :: AsciiLower(a[i]) == AsciiLower(b[i])
  }

  /** Where the first slash is, or the length. */
  function FirstSlash(s: string): (i: nat)
    ensures i <= |s|
    ensures i < |s| ==> s[i] == '/'
  {
    if s == [] || s[0] == '/' then 0 else 1 + FirstSlash(s[1..])
  }

  /** The path without a leading `data/` in either slash direction. */
  function WithoutData(path: string): string {
    if |path| >= 5 && (EqualsIgnoringCase(path[..5], "data/") || EqualsIgnoringCase(path[..5], "data\\")) then
        path[5..] else path
  }

  function LookIn(directory: Option<Directory>, path: string): Option<seq<byte>> {
    match directory
    case None => None
    case Some(d) => d(path)
  }

  /** The selected client directory a path names, by its first segment. */
  function ClientFile<E>(w: World<E>, path: string): Option<seq<byte>> {
    var p := Slashed(path);
    var i := FirstSlash(p);
    if i == |p| then None
    else if EqualsIgnoringCase(p[..i], "BGM") then LookIn(w.bgm, p[i + 1..])
    else if EqualsIgnoringCase(p[..i], "AI") then LookIn(w.ai, p[i + 1..])
    else None
  }

  function Find<E>(w: World<E>, path: string): Option<nat> {
    LookupSlot(w.spelling, w.index, path)
  }

  function OrElse<T>(first: Option<T>, second: Option<T>): Option<T> {
    if first.Some? then first else second
  }

  /**
   The archives, under the requested spelling, its Korean reading, and both with windows-1252 letters put back to
   bytes.
   */
  function ArchiveSlot<E>(w: World<E>, path: string): Option<nat> {
    var latin1 := w.toLatin1(path);
    OrElse(Find(w, path),
    OrElse(Find(w, w.decodeMojibake(path)),
    OrElse(if latin1.Some? then Find(w, latin1.value) else None,
           if latin1.Some? then Find(w, w.decodeMojibake(latin1.value)) else None)))
  }

  function ArchiveFile<E>(w: World<E>, path: string): Option<(seq<byte>, Source)>
    requires w.Valid()
  {
    match ArchiveSlot(w, path)
    case None => None
    case Some(i) =>
      SlotInBounds(w, path);
      match w.entryBytes(w.index.files[i])
      case None => None
      case Some(content) => Some((content, Grf(w.index.files[i].grf)))
  }

  lemma SlotInBounds<E>(w: World<E>, path: string)
    requires w.Valid()
    ensures ArchiveSlot(w, path).Some? ==> ArchiveSlot(w, path).value < |w.index.files|
  {
  }

  function From(content: Option<seq<byte>>, source: Source): Option<(seq<byte>, Source)> {
    match content
    case None => None
    case Some(c) => Some((c, source))
  }

  /**
   What the sources alone answer: loose file, client directory, override, archives; the second and last only as game
   data.
   */
  function Uncached<E>(w: World<E>, path: string, gameData: bool): Option<(seq<byte>, Source)>
    requires w.Valid()
  {
    if !w.Admits(path) then None
    else
      OrElse(From(w.root(path), LocalFile),
      OrElse(if gameData then From(ClientFile(w, path), ClientDirectory) else None,
      OrElse(From(LookIn(w.overrides, WithoutData(path)), DataOverride),
             if gameData then ArchiveFile(w, path) else None)))
  }

  function ContentOf(found: Option<(seq<byte>, Source)>): Option<seq<byte>> {
    match found
    case None => None
    case Some((content, _)) => Some(content)
  }

  // ---------------------------------------------------------------- resolving

  ghost predicate IsHit<E, F>(w: World<E>, list: seq<Item<F>>, path: string, gameData: bool)
  {
    w.Admits(path) && gameData && Has(list, w.Key(path))
  }

  /** What a resolve answers. */
  ghost function ResolveAnswer<E, F>(w: World<E>, list: seq<Item<F>>, path: string, gameData: bool)
    : Option<(seq<byte>, Source)>
    requires w.Valid()
  {
    if IsHit(w, list, path, gameData) then Some((list[IndexOf(list, w.Key(path))].data, FromCache))
    else Uncached(w, path, gameData)
  }

  /** What a resolve leaves in the cache; `encodings` are those of the copy it stores. */
  ghost function ResolveList<E, F>(w: World<E>, limits: Limits, list: seq<Item<F>>, path: string, gameData: bool,
      encodings: F): seq<Item<F>>
    requires w.Valid()
  {
    if IsHit(w, list, path, gameData) then Touched(list, w.Key(path))
    else
      match Uncached(w, path, gameData)
      case None => list
      case Some((content, _)) => Filled(limits, list, w.Key(path), content, encodings)
  }

  ghost function Filled<F>(limits: Limits, list: seq<Item<F>>, key: string, content: seq<byte>,
                           encodings: F): seq<Item<F>> {
    if Keeps(limits, |content|) then Inserted(list, Item(key, content, encodings, |content|), limits) else list
  }

  /** The archive search of `resolve_with`, probe by probe. */
  method FindInArchives<E>(w: World<E>, path: string) returns (hit: Option<nat>)
    ensures hit == ArchiveSlot(w, path)
  {
    hit := Find(w, path);
    if hit.None? {
      var decoded := w.decodeMojibake(path);
      if decoded != path {
        hit := Find(w, decoded);
      }
    }
    if hit.None? {
      var latin1 := w.toLatin1(path);
      if latin1.Some? {
        hit := Find(w, latin1.value);
        if hit.None? {
          hit := Find(w, w.decodeMojibake(latin1.value));
        }
      }
    }
  }

  /** `resolve_with` */
  method ResolveWith<E>(cache: FileCache, w: World<E>, path: string,
                        gameData: bool) returns (r: Option<(CachedFile, Source)>)
    requires cache.Valid() && w.Valid()
    modifies cache
    ensures cache.Valid()
    ensures var answer := ResolveAnswer(w, old(cache.Contents()), path, gameData);
            match r
            case None => answer == None && cache.Contents() == old(cache.Contents())
            case Some((file, source)) =>
              && answer == Some((file.data, source)) && file.etag == cache.etagOf(file.data)
              && cache.Contents() == ResolveList(w, cache.limits, old(cache.Contents()), path, gameData, file.encodings)
  {
    hide IndexOf, Inserted, Touched, ArchiveSlot, ClientFile;
    if !w.Admits(path) {
      return None;
    }
    var key := w.Key(path);
    if gameData {
      var hit := cache.Get(key);
      if hit.Some? {
        return Some((hit.value, FromCache));
      }
      MissLeavesList(old(cache.Contents()), key);
    }
    var local := w.root(path);
    if local.Some? {
      var file := cache.Insert(key, local.value);
      return Some((file, LocalFile));
    }
    var selected := ClientFile(w, path);
    if gameData && selected.Some? {
      var file := cache.Insert(key, selected.value);
      return Some((file, ClientDirectory));
    }
    var overriding := LookIn(w.overrides, WithoutData(path));
    if overriding.Some? {
      var file := cache.Insert(key, overriding.value);
      return Some((file, DataOverride));
    }
    if !gameData {
      return None;
    }
    var found := FindInArchives(w, path);
    if found.Some? {
      SlotInBounds(w, path);
      var entry := w.index.files[found.value];
      var content := w.entryBytes(entry);
      if content.Some? {
        var file := cache.Insert(key, content.value);
        return Some((file, Grf(entry.grf)));
      }
    }
    return None;
  }

  lemma MissLeavesList<F>(list: seq<Item<F>>, key: string)
    ensures !Has(list, key) ==> Touched(list, key) == list
  {
  }

  /** `cached`: the fast path, which asks only whether the path is public. */
  method Cached<E>(cache: FileCache, w: World<E>, path: string) returns (r: Option<CachedFile>)
    requires cache.Valid() && w.Valid()
    modifies cache
    ensures cache.Valid()
    ensures cache.Contents() == if w.isPublic(path) then Touched(old(cache.Contents()), w.Key(path))
            else old(cache.Contents())
    ensures match r
            case None => PeekAnswer(w, old(cache.Contents()), path) == None
            case Some(file) => PeekAnswer(w, old(cache.Contents()), path) == Some(file.data)
  {
    hide IndexOf, Touched;
    if !w.isPublic(path) {
      return None;
    }
    r := cache.Get(w.Key(path));
  }

  ghost function PeekAnswer<E, F>(w: World<E>, list: seq<Item<F>>, path: string): Option<seq<byte>> {
    if w.isPublic(path) && Has(list, w.Key(path)) then Some(list[IndexOf(list, w.Key(path))].data) else None
  }

  /** `encoded`: a kept file is encoded once, in its slot, and counted; any other is encoded for each request. */
  method Encoded(cache: FileCache, key: string, file: CachedFile,
                 encode: (seq<byte>, bool) -> seq<byte>) returns (r: Option<seq<byte>>)
    requires cache.Valid()
    modifies cache, file.encodings
    ensures cache.Valid()
    ensures var slot, kept := old(file.encodings.gzip), Keeps(cache.limits, |file.data|);
            var made := encode(file.data, kept);
            var tried := if |made| < |file.data| then Made(made) else NoSmaller;
            && r == (match (if slot.Untried? then tried else slot)
                     case Made(bytes) => Some(bytes)
                     case _ => None)
            && file.encodings.gzip == (if slot.Untried? && kept then tried else slot)
            && cache.Contents() == (if slot.Untried? && kept && tried.Made? then
                                      Grown(old(cache.Contents()), key, file.encodings, |made|, cache.limits)
                                    else old(cache.Contents()))
  {
    hide Grown;
    match file.encodings.gzip
    case Made(bytes) => return Some(bytes);
    case NoSmaller => return None;
    case Untried =>
      var kept := Keeps(cache.limits, |file.data|);
      var made := encode(file.data, kept);
      if |made| >= |file.data| {
        if kept {
          file.encodings.gzip := NoSmaller;
        }
        return None;
      }
      if kept {
        file.encodings.gzip := Made(made);
        cache.AddEncoding(key, file, |made|);
      }
      return Some(made);
  }
}
