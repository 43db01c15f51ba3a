/** How the current `Resource` (namespace `acdhOeaw\arche\thumbnails`)
    refreshes the metadata of a requested id: resolve the id by a HEAD
    request, strip `/metadata` from the URL, look for a title image that
    points at the resource with a search request, fall back to the
    resource's own metadata, and project the result into a row. The HTTP
    requests are parameters: `head` gives the redirect history (`None` when
    the request fails), `search` the outcome of the search request for a
    search base URL and an id, `getMeta` the properties read from a
    metadata document (`None` when the request fails or does not answer
    200; for a body the parser rejects, the properties read before it
    stopped, possibly none, since that exception is caught after the
    dataset was made). */
module ArcheRefresh {
  import opened Results
  import opened PhpStrings
  import opened ResourceMetaModel
  import opened MetadataCache

  const MetadataSegment := "/metadata"

  /** `preg_replace('|/metadata|', '', $realUrl)`: a URL without the
      segment is kept, and one with it loses at least one whole copy. */
  function StripMetadata(u: string): (r: string)
    ensures |r| <= |u|
    ensures !Occurs(MetadataSegment, u) ==> r == u
    ensures Occurs(MetadataSegment, u) ==> |r| <= |u| - |MetadataSegment|
  {
    RemoveAllAbsent(u, MetadataSegment);
    RemoveAllShrinks(u, MetadataSegment);
    RemoveAll(u, MetadataSegment)
  }

  /** The leftmost `/metadata` is deleted, what precedes it is kept, and the
      replacement goes on after it. */
  lemma StripMetadataLeftmost(u: string, k: nat)
    requires OccursAt(MetadataSegment, u, k)
    requires forall j: nat :: j < k ==> !OccursAt(MetadataSegment, u, j)
    ensures StripMetadata(u) == u[..k] + StripMetadata(u[k + |MetadataSegment|..])
  {
    RemoveAllFirst(u, MetadataSegment, k);
  }

  /** `/` occurs in `/metadata` only at its start, so no copy of it can
      begin inside another one. */
  lemma SegmentSlashOnlyFirst()
    ensures |MetadataSegment| == 9 && MetadataSegment[0] == '/'
    ensures forall d :: 0 < d < |MetadataSegment| ==> MetadataSegment[d] != '/'
  {
  }

  /** Text before the first `/metadata` that holds none of its own passes
      through unchanged, and the segment itself is dropped. */
  lemma StripMetadataJoin(a: string, b: string)
    requires !Occurs(MetadataSegment, a)
    ensures StripMetadata(a + MetadataSegment + b) == a + StripMetadata(b)
  {
    var pat := MetadataSegment;
    var s := a + pat + b;
    var k := |a|;
    SegmentSlashOnlyFirst();
    assert s[k..k + |pat|] == pat;
    forall j: nat | j < k
      ensures !OccursAt(pat, s, j)
    {
      if j + |pat| <= |a| {
        assert s[j..j + |pat|] == a[j..j + |pat|];
        assert !OccursAt(pat, a, j);
      } else {
        var d := k - j;
        assert s[k] == '/' && pat[d] != '/';
        assert j + |pat| <= |s| ==> s[j..j + |pat|][d] == s[k];
      }
    }
    RemoveAllFirst(s, pat, k);
    assert s[..k] == a && s[k + |pat|..] == b;
  }

  /** The usual case: a metadata URL loses its trailing `/metadata`. */
  lemma StripMetadataTrailing(u: string)
    requires !Occurs(MetadataSegment, u)
    ensures StripMetadata(u + MetadataSegment) == u
  {
    StripMetadataJoin(u, "");
    assert u + MetadataSegment + "" == u + MetadataSegment;
    assert !Occurs(MetadataSegment, "");
  }

  /** The replacement is a single pass: removing the inner `/metadata` of
      `/meta/metadatadata` joins the pieces around it into a new one, which
      stays. */
  lemma StripMetadataSinglePass()
    ensures var u := MetadataSegment[..5] + MetadataSegment + MetadataSegment[5..];
      StripMetadata(u) == MetadataSegment
  {
    var pat := MetadataSegment;
    assert |pat| == 9 && pat[0] == '/' && pat[5] == 'd';
    assert pat[1] == 'm' && pat[2] == 'e' && pat[3] == 't' && pat[4] == 'a';
    SinglePassOf(pat, 5);
  }

  /** Removing the copy of `pat` that sits inside `pat` itself, after its
      first `j` characters, leaves `pat`: the scan passes over those `j`
      characters (none of them starts a match) and never looks back. */
  lemma SinglePassOf(pat: string, j: nat)
    requires 0 < j < |pat| && pat[j] != pat[0]
    requires forall k :: 0 < k < j ==> pat[k] != pat[0]
    ensures RemoveAll(pat[..j] + pat + pat[j..], pat) == pat
  {
    var post, mid := pat[j..], pat[1..j];
    var u := pat + post;
    var s := [pat[0]] + (mid + u);
    SplitAtFirst(pat, j);
    assert s[..|pat|][j] != pat[j];
    RemoveAllStep(s, pat);
    assert s[1..] == mid + u;
    RemoveWhole(pat, post);
    assert forall k :: 0 <= k < |mid| ==> mid[k] == pat[k + 1];
    KeepsNonStarts(mid, u, pat);
  }

  /** The two ways of cutting `pat` around its `j`-th character. */
  lemma SplitAtFirst(pat: string, j: nat)
    requires 0 < j < |pat|
    ensures pat[..j] + pat + pat[j..] == [pat[0]] + (pat[1..j] + (pat + pat[j..]))
    ensures [pat[0]] + (pat[1..j] + pat[j..]) == pat
  {
    var pre, post, mid := pat[..j], pat[j..], pat[1..j];
    assert pre == [pat[0]] + mid;
    Assoc(pre, pat, post);
    Assoc([pat[0]], mid, pat + post);
    Assoc([pat[0]], mid, post);
    assert pre + post == pat;
  }

  /** A whole occurrence at the front is removed; a shorter rest stays. */
  lemma RemoveWhole(pat: string, post: string)
    requires |pat| > 0 && |post| < |pat|
    ensures RemoveAll(pat + post, pat) == post
  {
    var u := pat + post;
    assert u[..|pat|] == pat && u[|pat|..] == post;
  }

  /** Characters that differ from the pattern's first character are kept,
      whatever follows them. */
  lemma {:induction false} KeepsNonStarts(pre: string, t: string, pat: string)
    requires |pat| > 0 && |t| + 1 >= |pat|
    requires forall k :: 0 <= k < |pre| ==> pre[k] != pat[0]
    ensures RemoveAll(pre + t, pat) == pre + RemoveAll(t, pat)
    decreases |pre|
  {
    if pre == [] {
      assert pre + t == t;
    } else {
      var c, pre1 := pre[0], pre[1..];
      var rt := RemoveAll(t, pat);
      assert pre == [c] + pre1;
      KeepsNonStarts(pre1, t, pat);
      Assoc([c], pre1, t);
      RemoveAllKeeps(pat, c, pre1 + t);
      Assoc([c], pre1, rt);
    }
  }

  /** Index of the last `/` in `u`, if any. */
  function LastSlash(u: string): (r: Option<nat>)
    ensures r.Some? ==> r.value < |u| && u[r.value] == '/' && '/' !in u[r.value + 1..]
    ensures r.None? ==> '/' !in u
  {
    if |u| == 0 then None
    else if u[|u| - 1] == '/' then Some(|u| - 1)
    else
      match LastSlash(u[..|u| - 1])
      case None => assert u == u[..|u| - 1] + [u[|u| - 1]]; None
      case Some(i) =>
        assert u[i + 1..] == u[..|u| - 1][i + 1..] + [u[|u| - 1]];
        Some(i)
  }

  /** `substr($realUrl, 0, strrpos($realUrl, '/'))`: everything before the
      last slash, and the empty string when there is no slash (`strrpos`
      gives `false`, which `substr` reads as 0). */
  function SearchBase(u: string): (r: string)
    ensures |r| <= |u| && r == u[..|r|]
    ensures '/' in u ==> |r| < |u| && u[|r|] == '/' && '/' !in u[|r| + 1..]
    ensures '/' !in u ==> r == ""
  {
    match LastSlash(u)
    case Some(i) => u[..i]
    case None => ""
  }

  /** The outcome of the search for a title image pointing at the id. */
  datatype SearchOutcome =
      /** The request failed or did not answer 200. */
    | SearchFailed
      /** A 200 answer the parser rejects: only request errors are caught,
          so the refresh ends there. */
    | SearchUnreadable
      /** A 200 answer without a matching subject: the whole answer stays
          the metadata. */
    | SearchNoMatch(props: PropMap)
      /** A matching subject: its URL becomes the real URL and only its
          properties stay. */
    | SearchMatch(subject: string, props: PropMap)

  /** `round($bytes / 1024 / 1024)`: the nearest whole number of megabytes,
      halves rounded away from zero. */
  function RoundMb(n: int): (r: int)
    ensures 2 * Abs(n - r * MiB) <= MiB
    ensures 2 * Abs(n - r * MiB) == MiB ==> Abs(r * MiB) > Abs(n)
  {
    if n >= 0 then (n + MiB / 2) / MiB else -((-n + MiB / 2) / MiB)
  }

  /** `(string) <hash> ?? <modDate>`: the cast binds tighter than `??`, so
      the left side is never null and the modification date is never
      consulted. */
  function RepoHash(props: PropMap): string {
    var hashValue := Lookup(props, Hash, "");
    Some(hashValue).GetOr(Lookup(props, ModDate, ""))
  }

  lemma RepoHashIgnoresModDate(props: PropMap)
    ensures RepoHash(props) == Lookup(props, Hash, "")
    ensures Hash !in props ==> RepoHash(props) == ""
  {
  }

  /** The refreshed row's data from the metadata that was found. */
  function Project(props: PropMap, realUrl: string): (f: Fetched)
    ensures f.realUrl == realUrl
    ensures f.repoHash == Lookup(props, Hash, "")
    ensures f.mime == Lookup(props, Mime, "")
    ensures 2 * Abs(PhpIntCast(Lookup(props, Size, "")) - f.sizeMb * MiB) <= MiB
  {
    Fetched(RepoHash(props), Lookup(props, Mime, ""), RoundMb(PhpIntCast(Lookup(props, Size, ""))), realUrl)
  }

  /** The refresh of lines 331-374: resolve and strip the id, ask the
      search, and only when that gave no answer read the resource's own
      metadata. */
  function Fetch(url: string, head: string -> Option<seq<string>>, search: (string, string) -> SearchOutcome,
                 getMeta: string -> Option<PropMap>): (r: Result<Fetched, CacheError>)
    ensures r == Err(ResolutionFailed) <==> head(url).None?
    ensures head(url).Some? ==>
      var realUrl := StripMetadata(ResolveUrl(url, head(url).value));
      var found := search(SearchBase(realUrl), url);
      var own := getMeta(realUrl + MetadataSegment);
      // the refresh fails on an unreadable search answer, or when neither
      // request gave a document
      (r == Err(UnreadableSearchAnswer) <==> found.SearchUnreadable?) &&
      (r == Err(NoMetadata) <==> found.SearchFailed? && own.None?) &&
      // the real URL is the matched subject, and otherwise the stripped URL
      (r.Ok? ==> r.value.realUrl == if found.SearchMatch? then found.subject else realUrl) &&
      // the row describes the search answer when there was one, and the
      // resource's own metadata otherwise
      (r.Ok? && !found.SearchFailed? ==> r.value == Project(found.props, r.value.realUrl)) &&
      (r.Ok? && found.SearchFailed? ==> r.value == Project(own.value, r.value.realUrl))
  {
    match head(url)
    case None => Err(ResolutionFailed)
    case Some(history) =>
      var realUrl := StripMetadata(ResolveUrl(url, history));
      match search(SearchBase(realUrl), url)
      case SearchMatch(sbj, props) => Ok(Project(props, sbj))
      case SearchNoMatch(props) => Ok(Project(props, realUrl))
      case SearchUnreadable => Err(UnreadableSearchAnswer)
      case SearchFailed =>
        match getMeta(realUrl + MetadataSegment)
        case Some(props) => Ok(Project(props, realUrl))
        case None => Err(NoMetadata)
  }

  /** The resource's own metadata is consulted only when the search gave
      no answer: otherwise it cannot change the outcome. */
  lemma OwnMetadataOnlyAfterFailedSearch(url: string, head: string -> Option<seq<string>>,
                                         search: (string, string) -> SearchOutcome,
                                         getMeta1: string -> Option<PropMap>, getMeta2: string -> Option<PropMap>)
    requires head(url).Some? ==>
      !search(SearchBase(StripMetadata(ResolveUrl(url, head(url).value))), url).SearchFailed?
    ensures Fetch(url, head, search, getMeta1) == Fetch(url, head, search, getMeta2)
  {
  }

  /** A 200 answer of the resource's own metadata that the parser rejects
      at once still refreshes the row, with an empty hash and mime and
      size 0. */
  lemma UnreadableOwnMetadata(url: string, head: string -> Option<seq<string>>,
                              search: (string, string) -> SearchOutcome, getMeta: string -> Option<PropMap>)
    requires head(url).Some?
    requires var realUrl := StripMetadata(ResolveUrl(url, head(url).value));
      search(SearchBase(realUrl), url).SearchFailed? && getMeta(realUrl + MetadataSegment) == Some(map[])
    ensures var realUrl := StripMetadata(ResolveUrl(url, head(url).value));
      Fetch(url, head, search, getMeta) == Ok(Fetched("", "", 0, realUrl))
  {
    var props: PropMap := map[];
    assert Lookup(props, Hash, "") == "" && Lookup(props, Mime, "") == "" && Lookup(props, Size, "") == "";
    CastOfEmpty();
    assert RoundMb(0) == 0;
  }

  /** Without redirects and without a matching title image, the real URL is
      the id itself (when the id holds no `/metadata`). */
  lemma FetchKeepsId(url: string, head: string -> Option<seq<string>>, search: (string, string) -> SearchOutcome,
                     getMeta: string -> Option<PropMap>)
    requires head(url) == Some([]) && !Occurs(MetadataSegment, url)
    requires !search(SearchBase(url), url).SearchMatch?
    requires Fetch(url, head, search, getMeta).Ok?
    ensures Fetch(url, head, search, getMeta).value.realUrl == url
  {
  }

  /** `maintainMetadataCache` of the current version. */
  function MaintainArche(store: Store, fs: Fs, url: string, now: int, keepAlive: int, base: string,
                         H: string -> string, head: string -> Option<seq<string>>,
                         search: (string, string) -> SearchOutcome, getMeta: string -> Option<PropMap>)
    : (r: Result<Outcome, CacheError>)
    ensures url in store && Abs(now - store[url].checkDate) <= keepAlive ==>
      r == Ok(Outcome(store[url], store, fs, None))
  {
    Maintain(Arche, store, fs, url, now, keepAlive, base, H, Fetch(url, head, search, getMeta))
  }

  /** A refresh that finds a title image purges the directory of the title
      image's URL, not that of the previously stored real URL: a stale
      directory under the old real URL keeps its files. */
  lemma PurgeUsesNewRealUrl(store: Store, fs: Fs, url: string, now: int, keepAlive: int, base: string,
                            H: string -> string, head: string -> Option<seq<string>>,
                            search: (string, string) -> SearchOutcome, getMeta: string -> Option<PropMap>,
                            f: FilePath)
    requires url in store && Abs(now - store[url].checkDate) > keepAlive
    requires head(url).Some?
    requires var realUrl := StripMetadata(ResolveUrl(url, head(url).value));
      search(SearchBase(realUrl), url).SearchMatch?
    requires f in fs.files
    requires f.dir != CacheDir(base, H, search(SearchBase(StripMetadata(ResolveUrl(url, head(url).value))), url).subject)
    ensures var r := MaintainArche(store, fs, url, now, keepAlive, base, H, head, search, getMeta);
      r.Ok? && f in r.value.fs.files
  {
    var fetched := Fetch(url, head, search, getMeta);
    assert fetched.Ok?;
  }
}
