/** The metadata-cache coordinator shared by both versions of `Resource`:
    the stored row per requested id, the decision to re-fetch it, the
    insert-or-update of the refreshed row, the on-disk layout of cached
    files and the purge of those files when the repository hash changes.
    The database is a map from id to row and the file system is a set of
    directories plus a set of regular files. */
module MetadataCache {
  import opened Results
  import opened PhpStrings
  import opened ResourceMetaModel

  /** One row of the `resources` table. `checkDate` is in seconds. */
  datatype MetaRow = MetaRow(
    url: string,
    checkDate: int,
    repoHash: string,
    mime: string,
    sizeMb: int,
    realUrl: string)

  type Store = map<string, MetaRow>

  /** A regular file, addressed by its directory and its base name. */
  datatype FilePath = FilePath(dir: string, name: string)

  /** The cache on disk: the directories known to exist and the regular
      files in them. A recursive `mkdir` also creates missing parents such
      as the cache base directory; only the leaf directory is recorded. */
  datatype Fs = Fs(dirs: set<string>, files: set<FilePath>)

  /** The two versions of the coordinator differ in a few places. */
  datatype Variant = Arche | Repo

  /** The last URL the HEAD request visited: `history` is the redirect
      history the HTTP client reports (empty when there was no redirect). */
  function ResolveUrl(url: string, history: seq<string>): (r: string)
    ensures history == [] ==> r == url
    ensures history != [] ==> r == history[|history| - 1]
    ensures r in [url] + history
  {
    var visited := [url] + history;
    visited[|visited| - 1]
  }

  // ---- staleness ----

  /** The value `diff` starts with before a stored row is looked at. */
  function InitialDiff(variant: Variant, keepAlive: int): int {
    match variant
    case Arche => if keepAlive > 999999999 then keepAlive else 999999999
    case Repo => keepAlive
  }

  /** Seconds since the stored row was checked; `DateTime::diff` measures
      the distance whichever way the clocks lie. */
  function Diff(variant: Variant, prev: Option<MetaRow>, now: int, keepAlive: int): int {
    match prev
    case None => InitialDiff(variant, keepAlive)
    case Some(row) => Abs(now - row.checkDate)
  }

  /** `empty($checkDate) || $diff > cacheKeepAlive`: a missing row always
      counts as empty, a stored date never does. */
  predicate NeedsRefresh(variant: Variant, prev: Option<MetaRow>, now: int, keepAlive: int) {
    prev.None? || Diff(variant, prev, now, keepAlive) > keepAlive
  }

  /** Whatever `diff` starts as, the decision is the same: re-fetch when
      there is no row or when the row is older than the keep-alive time, in
      either direction. */
  lemma NeedsRefreshIff(variant: Variant, prev: Option<MetaRow>, now: int, keepAlive: int)
    ensures NeedsRefresh(variant, prev, now, keepAlive)
        <==> prev.None? || now - prev.value.checkDate > keepAlive || prev.value.checkDate - now > keepAlive
  {
  }

  // ---- writing the row ----

  datatype Write = Insert(row: MetaRow) | Update(row: MetaRow)

  /** INSERT when there was no row for the id, UPDATE (keyed by the id)
      otherwise; either way the table then holds the new row for the id. */
  function Commit(store: Store, row: MetaRow): (r: (Write, Store))
    ensures r.0.row == row
    ensures r.0.Insert? <==> row.url !in store
    ensures row.url in r.1 && r.1[row.url] == row
    ensures r.1.Keys == store.Keys + {row.url}
    ensures forall u :: u in store && u != row.url ==> r.1[u] == store[u]
  {
    var w := if row.url in store then Update(row) else Insert(row);
    (w, store[row.url := row])
  }

  // ---- cache layout ----

  /** `dirname(getFilePath())`: one directory per real URL, named by its
      hash `H`. */
  function CacheDir(base: string, H: string -> string, realUrl: string): string {
    base + "/" + H(realUrl)
  }

  /** `%04d_%04d`. */
  function FileName(width: int, height: int): (n: string)
    ensures Explode('_', n) == [Pad(width, 4), Pad(height, 4)]
  {
    var w := Pad(width, 4);
    var h := Pad(height, 4);
    ExplodeTwo(w, h);
    w + "_" + h
  }

  function FilePathOf(base: string, H: string -> string, realUrl: string, width: int, height: int): (p: FilePath)
    ensures p.dir == CacheDir(base, H, realUrl)
  {
    FilePath(CacheDir(base, H, realUrl), FileName(width, height))
  }

  lemma ExplodeTwo(w: string, h: string)
    requires '_' !in w && '_' !in h
    ensures Explode('_', w + "_" + h) == [w, h]
  {
    var s := w + "_" + h;
    assert s[|w|] == '_';
    assert s[..|w|] == w;
    var i := IndexOf(s, '_');
    assert forall k :: 0 <= k < |w| ==> s[k] == w[k];
    assert i == |w|;
    assert s[i + 1..] == h;
  }

  /** The name of a cached file determines its dimensions: the two padded
      numbers cast back to the width and the height. */
  lemma FileNameInjective(w1: int, h1: int, w2: int, h2: int)
    requires IntMin <= w1 <= IntMax && IntMin <= h1 <= IntMax
    requires IntMin <= w2 <= IntMax && IntMin <= h2 <= IntMax
    requires FileName(w1, h1) == FileName(w2, h2)
    ensures w1 == w2 && h1 == h2
  {
    var p := Explode('_', FileName(w1, h1));
    assert p == [Pad(w1, 4), Pad(h1, 4)] && p == [Pad(w2, 4), Pad(h2, 4)];
    CastOfPad(w1, 4);
    CastOfPad(w2, 4);
    CastOfPad(h1, 4);
    CastOfPad(h2, 4);
  }

  /** The reference copy of the resource is the `(0, 0)` file. */
  lemma ReferenceFileName()
    ensures FileName(0, 0) == "0000_0000"
  {
    assert NatToDec(0) == "0";
    assert Zeros(3) == "000";
  }

  // ---- purge ----

  /** Unlink every regular file directly inside `dir`, when the hash has
      changed and the directory exists. Directories stay. */
  function Purge(fs: Fs, dir: string, oldHash: string, newHash: string): (r: Fs)
    ensures r.dirs == fs.dirs
    ensures r.files <= fs.files
    ensures forall f :: f in fs.files && f.dir != dir ==> f in r.files
    ensures oldHash != newHash && dir in fs.dirs ==> forall f :: f in r.files ==> f.dir != dir
    ensures !(oldHash != newHash && dir in fs.dirs) ==> r == fs
  {
    if oldHash != newHash && dir in fs.dirs then
      Fs(fs.dirs, set f | f in fs.files && f.dir != dir)
    else fs
  }

  // ---- the coordinator ----

  /** What a refresh learns from the repository. */
  datatype Fetched = Fetched(repoHash: string, mime: string, sizeMb: int, realUrl: string)

  /** Why a refresh can fail: the HEAD request that resolves the id fails
      (the PHP code ends the process there), no request gave a metadata
      document, or the parser rejected a search answer (its exception is
      not caught). */
  datatype CacheError = ResolutionFailed | NoMetadata | UnreadableSearchAnswer

  datatype Outcome = Outcome(row: MetaRow, store: Store, fs: Fs, write: Option<Write>)

  /** The hash of the object `maintainMetadataCache` starts from: the stored
      row's, or the empty default of a fresh record. */
  function OldHash(prev: Option<MetaRow>): string {
    match prev
    case Some(row) => row.repoHash
    case None => ""
  }

  /** `maintainMetadataCache`, given what a refresh would fetch. The purge
      looks at the directory of the row in force afterwards, i.e. of the
      refreshed real URL. */
  function Maintain(variant: Variant, store: Store, fs: Fs, url: string, now: int, keepAlive: int,
                    base: string, H: string -> string, fetched: Result<Fetched, CacheError>)
    : (r: Result<Outcome, CacheError>)
    ensures var prev := if url in store then Some(store[url]) else None;
      !NeedsRefresh(variant, prev, now, keepAlive) ==>
        r == Ok(Outcome(store[url], store, fs, None))
    ensures var prev := if url in store then Some(store[url]) else None;
      NeedsRefresh(variant, prev, now, keepAlive) && fetched.Err? ==> r == Err(fetched.error)
    ensures var prev := if url in store then Some(store[url]) else None;
      NeedsRefresh(variant, prev, now, keepAlive) && fetched.Ok? ==>
        r.Ok? &&
        var f := fetched.value;
        var row := MetaRow(url, now, f.repoHash, f.mime, f.sizeMb, f.realUrl);
        r.value.row == row &&
        r.value.store.Keys == store.Keys + {url} && r.value.store[url] == row &&
        (forall u :: u in store && u != url ==> r.value.store[u] == store[u]) &&
        r.value.write.Some? && (r.value.write.value.Insert? <==> url !in store) &&
        r.value.fs == Purge(fs, CacheDir(base, H, f.realUrl), OldHash(prev), f.repoHash)
  {
    var prev := if url in store then Some(store[url]) else None;
    if !NeedsRefresh(variant, prev, now, keepAlive) then
      var row := prev.value;
      Ok(Outcome(row, store, Purge(fs, CacheDir(base, H, row.realUrl), OldHash(prev), row.repoHash), None))
    else
      match fetched
      case Err(e) => Err(e)
      case Ok(f) =>
        var row := MetaRow(url, now, f.repoHash, f.mime, f.sizeMb, f.realUrl);
        var (w, store1) := Commit(store, row);
        Ok(Outcome(row, store1, Purge(fs, CacheDir(base, H, row.realUrl), OldHash(prev), row.repoHash), Some(w)))
  }

  /** A refresh that keeps the hash never removes a file, and one that
      changes it removes exactly the files directly in the refreshed real
      URL's directory (when that directory exists). */
  lemma MaintainPurges(variant: Variant, store: Store, fs: Fs, url: string, now: int, keepAlive: int,
                       base: string, H: string -> string, f: Fetched)
    requires url in store ==> NeedsRefresh(variant, Some(store[url]), now, keepAlive)
    ensures var r := Maintain(variant, store, fs, url, now, keepAlive, base, H, Ok(f));
      var oldHash := if url in store then store[url].repoHash else "";
      var dir := CacheDir(base, H, f.realUrl);
      r.Ok? && r.value.fs.dirs == fs.dirs &&
      (forall p :: p in r.value.fs.files <==>
        p in fs.files && !(oldHash != f.repoHash && dir in fs.dirs && p.dir == dir))
  {
  }
}
