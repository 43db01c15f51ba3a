/** How the older `Resource` (namespace `acdhOeaw\repo\thumbnails`)
    refreshes the metadata of a requested id: resolve the id by a HEAD
    request, read the resource's description, and when the description
    names a title image, resolve that instead and read its description. The
    HTTP requests are parameters: `head` gives the redirect history (`None`
    when the request fails) and `describe` the properties that the metadata
    document of a URL states about that URL. */
module RepoRefresh {
  import opened Results
  import opened PhpStrings
  import opened ResourceMetaModel
  import opened MetadataCache
  import ArcheRefresh

  /** `(string) (<hash> ?? <modDate>)`: here the cast is applied to the
      whole alternative, so the modification date stands in for a missing
      hash, and a description with neither gives ''. */
  function RepoHashOf(props: PropMap): (r: string)
    ensures Hash in props ==> r == props[Hash]
    ensures Hash !in props && ModDate in props ==> r == props[ModDate]
    ensures Hash !in props && ModDate !in props ==> r == ""
  {
    if Hash in props then props[Hash] else Lookup(props, ModDate, "")
  }

  /** The two versions disagree exactly on descriptions that carry a
      modification date but no hash. */
  lemma HashFallbackDiffers(props: PropMap)
    ensures RepoHashOf(props) != ArcheRefresh.RepoHash(props)
        <==> Hash !in props && ModDate in props && props[ModDate] != ""
  {
    ArcheRefresh.RepoHashIgnoresModDate(props);
  }

  /** The refreshed row's data from the description that was read. */
  function ProjectRepo(props: PropMap, realUrl: string): (f: Fetched)
    ensures f.realUrl == realUrl
    ensures f.repoHash == RepoHashOf(props)
    ensures f.mime == Lookup(props, Mime, "")
    ensures 2 * Abs(PhpIntCast(Lookup(props, Size, "")) - f.sizeMb * MiB) <= MiB
  {
    Fetched(RepoHashOf(props), Lookup(props, Mime, ""), ArcheRefresh.RoundMb(PhpIntCast(Lookup(props, Size, ""))), realUrl)
  }

  /** The refresh: `Err(ResolutionFailed)` when either HEAD request fails.
      A title image counts when its IRI is not PHP-empty (neither '' nor
      '0'); the requested id itself is not part of the result, so the row
      keeps it as its key whichever URL the data came from. */
  function FetchRepo(url: string, head: string -> Option<seq<string>>, describe: string -> PropMap)
    : (r: Result<Fetched, CacheError>)
    // a failed HEAD request is the only error
    ensures r.Err? ==> r == Err(ResolutionFailed)
    ensures head(url).None? ==> r.Err?
    // the row always describes its own real URL
    ensures r.Ok? ==> r.value == ProjectRepo(describe(r.value.realUrl), r.value.realUrl)
    ensures head(url).Some? ==>
      var realUrl := ResolveUrl(url, head(url).value);
      var titleImage := Lookup(describe(realUrl), TitleImage, "");
      // the title image is followed when there is one, and it must resolve
      (r.Ok? <==> PhpEmpty(titleImage) || head(titleImage).Some?) &&
      (r.Ok? ==> r.value.realUrl == if PhpEmpty(titleImage) then realUrl
                                    else ResolveUrl(titleImage, head(titleImage).value))
  {
    match head(url)
    case None => Err(ResolutionFailed)
    case Some(history) =>
      var realUrl := ResolveUrl(url, history);
      var meta := describe(realUrl);
      var titleImage := Lookup(meta, TitleImage, "");
      if PhpEmpty(titleImage) then Ok(ProjectRepo(meta, realUrl))
      else
        match head(titleImage)
        case None => Err(ResolutionFailed)
        case Some(history2) =>
          var imageUrl := ResolveUrl(titleImage, history2);
          Ok(ProjectRepo(describe(imageUrl), imageUrl))
  }

  /** `maintainMetadataCache` of the older version. */
  function MaintainRepo(store: Store, fs: Fs, url: string, now: int, keepAlive: int, base: string,
                        H: string -> string, head: string -> Option<seq<string>>, describe: string -> PropMap)
    : (r: Result<Outcome, CacheError>)
    ensures url in store && Abs(now - store[url].checkDate) <= keepAlive ==>
      r == Ok(Outcome(store[url], store, fs, None))
  {
    Maintain(Repo, store, fs, url, now, keepAlive, base, H, FetchRepo(url, head, describe))
  }

  /** Without a stored row, `diff` starts at the keep-alive time, which never
      exceeds itself; the refresh happens through the empty check date alone,
      and the row is inserted. */
  lemma NoRowStillRefreshes(store: Store, fs: Fs, url: string, now: int, keepAlive: int, base: string,
                            H: string -> string, head: string -> Option<seq<string>>, describe: string -> PropMap)
    requires url !in store
    requires head(url).Some?
    ensures !(Diff(Repo, None, now, keepAlive) > keepAlive)
    ensures var r := MaintainRepo(store, fs, url, now, keepAlive, base, H, head, describe);
      var f := FetchRepo(url, head, describe);
      f.Ok? ==> r.Ok? && r.value.write == Some(Insert(MetaRow(url, now, f.value.repoHash, f.value.mime,
                                                                  f.value.sizeMb, f.value.realUrl)))
  {
  }

  /** With a title image, the row stays keyed by the requested id while its
      real URL, and so its cache directory, is the resolved title image. */
  lemma TitleImageIndirection(store: Store, fs: Fs, url: string, now: int, keepAlive: int, base: string,
                              H: string -> string, head: string -> Option<seq<string>>,
                              describe: string -> PropMap)
    requires url in store ==> Abs(now - store[url].checkDate) > keepAlive
    requires head(url).Some?
    requires var titleImage := Lookup(describe(ResolveUrl(url, head(url).value)), TitleImage, "");
      !PhpEmpty(titleImage) && head(titleImage).Some?
    ensures var titleImage := Lookup(describe(ResolveUrl(url, head(url).value)), TitleImage, "");
      var imageUrl := ResolveUrl(titleImage, head(titleImage).value);
      var r := MaintainRepo(store, fs, url, now, keepAlive, base, H, head, describe);
      r.Ok? && r.value.row.url == url && r.value.row.realUrl == imageUrl &&
      r.value.row.repoHash == RepoHashOf(describe(imageUrl)) &&
      r.value.store[url] == r.value.row
  {
  }
}
