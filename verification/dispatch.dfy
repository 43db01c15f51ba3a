/** Serving thumbnails from the cache, shared by both versions of
    `Resource`: the registry from mime type to handler, the dispatch of
    `getThumbnail` to the registered handler and then to the fallback
    handler, the lookup of an already cached file in `getThumbnailPath`
    with the size guard of `fetchResourceFile`, and the listing of cached
    dimensions in `getCachedFiles`. A handler's effect is a parameter:
    `run(handler, width, height)` says whether the call left a file at the
    target path and whether it threw. */
module Dispatch {
  import opened Results
  import opened PhpStrings
  import opened MetadataCache

  // ---- handlers and the registry ----

  /** What the coordinator asks of a handler class: the mime types it
      declares and whether it keeps the aspect ratio of the source. */
  datatype HandlerDesc = HandlerDesc(name: string, mimes: seq<string>, keepsAspect: bool)

  const ImageHandler := HandlerDesc("Image", ["image/png", "image/jpeg", "image/tiff", "image/svg+xml"], true)
  const TextHandler := HandlerDesc("Text",
    ["application/json", "application/vnd.geo+json", "application/xml", "text/xml", "text/plain"], false)
  /** The fallback declares no mime type and does not keep the aspect
      ratio: it needs both dimensions. */
  const FallbackHandler := HandlerDesc("Fallback", [], false)

  type Registry = map<string, HandlerDesc>

  /** `$this->handlers[$j] = $handler` for each declared mime type. */
  function RegisterMimes(reg: Registry, mimes: seq<string>, h: HandlerDesc): (r: Registry)
    ensures r.Keys == reg.Keys + set m | m in mimes
    ensures forall m :: m in mimes ==> r[m] == h
    ensures forall m :: m in reg && m !in mimes ==> r[m] == reg[m]
    decreases |mimes|
  {
    if mimes == [] then reg
    else
      var r := RegisterMimes(reg[mimes[0] := h], mimes[1..], h);
      assert forall m :: m in mimes <==> m == mimes[0] || m in mimes[1..];
      r
  }

  /** The registry loop of the constructor, over the configured handler
      classes in order. */
  function BuildRegistry(handlers: seq<HandlerDesc>): Registry
    decreases |handlers|
  {
    if handlers == [] then map[]
    else
      var last := handlers[|handlers| - 1];
      RegisterMimes(BuildRegistry(handlers[..|handlers| - 1]), last.mimes, last)
  }

  /** Reference definition: the last configured handler declaring `m`. */
  function LastHandlerFor(handlers: seq<HandlerDesc>, m: string): (r: Option<HandlerDesc>)
    ensures r.Some? ==> r.value in handlers && m in r.value.mimes
    ensures r.None? ==> forall h :: h in handlers ==> m !in h.mimes
    decreases |handlers|
  {
    if handlers == [] then None
    else
      var last := handlers[|handlers| - 1];
      var prefix := handlers[..|handlers| - 1];
      assert handlers == prefix + [last];
      if m in last.mimes then Some(last) else LastHandlerFor(prefix, m)
  }

  /** The registry maps each mime type to the last configured handler that
      declares it, and holds no other mime type. */
  lemma {:induction false} RegistryLastWins(handlers: seq<HandlerDesc>, m: string)
    ensures m in BuildRegistry(handlers) <==> LastHandlerFor(handlers, m).Some?
    ensures m in BuildRegistry(handlers) ==> BuildRegistry(handlers)[m] == LastHandlerFor(handlers, m).value
    decreases |handlers|
  {
    if handlers != [] {
      RegistryLastWins(handlers[..|handlers| - 1], m);
    }
  }

  /** Listing the fallback among the handlers changes nothing. */
  lemma FallbackRegistersNothing(handlers: seq<HandlerDesc>)
    ensures BuildRegistry(handlers + [FallbackHandler]) == BuildRegistry(handlers)
  {
    assert (handlers + [FallbackHandler])[..|handlers|] == handlers;
  }

  /** With both rendering handlers configured, every declared mime type goes
      to its own handler. Building each handler is taken to succeed. */
  lemma DefaultRegistry(m: string)
    ensures var reg := BuildRegistry([ImageHandler, TextHandler]);
      (m in reg <==> m in ImageHandler.mimes || m in TextHandler.mimes) &&
      (m in ImageHandler.mimes ==> reg[m] == ImageHandler) &&
      (m in TextHandler.mimes ==> reg[m] == TextHandler)
  {
    var hs := [ImageHandler, TextHandler];
    assert hs[..1] == [ImageHandler];
    assert [ImageHandler][..0] == [];
    RegistryLastWins(hs, m);
    DisjointMimes(m);
  }

  /** Image types all start with `i`, text types never do. */
  lemma DisjointMimes(m: string)
    ensures !(m in ImageHandler.mimes && m in TextHandler.mimes)
  {
    ImageMimesStart();
    TextMimesStart();
  }

  lemma ImageMimesStart()
    ensures forall i :: 0 <= i < |ImageHandler.mimes| ==> |ImageHandler.mimes[i]| > 0 && ImageHandler.mimes[i][0] == 'i'
  {
    var im := ImageHandler.mimes;
    assert im[0][0] == im[1][0] == im[2][0] == im[3][0] == 'i';
  }

  lemma TextMimesStart()
    ensures forall i :: 0 <= i < |TextHandler.mimes| ==> |TextHandler.mimes[i]| > 0 && TextHandler.mimes[i][0] != 'i'
  {
    var tm := TextHandler.mimes;
    assert tm[0][0] == tm[1][0] == tm[2][0] == 'a' && tm[3][0] == tm[4][0] == 't';
  }

  // ---- getThumbnail ----

  /** Zero (or negative) dimensions become the configured defaults for a
      handler that does not keep the aspect ratio; positive ones stay. */
  function AdjustDims(h: HandlerDesc, width: int, height: int, defaultWidth: int, defaultHeight: int)
    : (r: (int, int))
    ensures h.keepsAspect ==> r == (width, height)
    ensures !h.keepsAspect ==> (width > 0 ==> r.0 == width) && (width <= 0 ==> r.0 == defaultWidth)
    ensures !h.keepsAspect ==> (height > 0 ==> r.1 == height) && (height <= 0 ==> r.1 == defaultHeight)
  {
    if h.keepsAspect then (width, height)
    else (if width > 0 then width else defaultWidth, if height > 0 then height else defaultHeight)
  }

  /** Adjusting twice is adjusting once: the fallback, adjusting what the
      registered handler already adjusted, sees the same dimensions. */
  lemma AdjustDimsIdempotent(h: HandlerDesc, g: HandlerDesc, width: int, height: int, dw: int, dh: int)
    requires !h.keepsAspect
    ensures var r := AdjustDims(h, width, height, dw, dh);
      AdjustDims(g, r.0, r.1, dw, dh) == r
  {
  }

  /** What one handler call did. */
  datatype RunResult = RunResult(created: bool, threw: bool)

  /** One handler call, as the coordinator made it. */
  datatype Call = Call(primary: bool, handler: HandlerDesc, width: int, height: int)

  /** The fallback's exception propagates to the caller. */
  datatype ThumbError = FallbackFailed

  datatype Served = Served(result: Result<FilePath, ThumbError>, fs: Fs, calls: seq<Call>)

  function CreatedBy(run: (HandlerDesc, int, int) -> RunResult, c: Call): bool {
    run(c.handler, c.width, c.height).created
  }

  /** The file system after a call: the target path exists if the handler
      created it. */
  function AfterCall(fs: Fs, path: FilePath, created: bool): (r: Fs)
    ensures r.dirs == fs.dirs
    ensures r.files == if created then fs.files + {path} else fs.files
  {
    if created then Fs(fs.dirs, fs.files + {path}) else fs
  }

  /** The arche version logs `getResourcePath()` before it runs the
      registered handler, inside the same `try`: a missing reference copy is
      then fetched, and refusing it as too large skips the handler. */
  predicate ReferenceRefused(variant: Variant, fs: Fs, ref: FilePath, sizeMb: int, limit: int) {
    variant == Arche && ref !in fs.files && sizeMb > limit
  }

  /** Fetching the reference copy before the handler writes the requested
      file itself, when that is the reference copy. */
  predicate ProbeWritesPath(variant: Variant, mime: string, reg: Registry, path: FilePath, ref: FilePath,
                            sizeMb: int, limit: int) {
    variant == Arche && mime in reg && path == ref && sizeMb <= limit
  }

  /** `getThumbnail`: make the directory; when the file is missing and the
      mime type has a handler, fetch the reference copy (arche version
      only) and run the handler, swallowing either exception; then run the
      fallback when the file is still missing, letting its exception
      through. The file is the `(width, height)` copy in the real URL's
      directory; `sizeMb` and `limit` are what `fetchResourceFile`
      compares. */
  function GetThumbnail(variant: Variant, reg: Registry, mime: string, fallback: HandlerDesc,
                        defaultWidth: int, defaultHeight: int, fs: Fs, base: string, H: string -> string,
                        realUrl: string, sizeMb: int, limit: int, width: int, height: int,
                        run: (HandlerDesc, int, int) -> RunResult): (r: Served)
    ensures r.fs.dirs == fs.dirs + {FilePathOf(base, H, realUrl, width, height).dir}
    ensures FilePathOf(base, H, realUrl, width, height) in fs.files ==>
      r.calls == [] && r.result == Ok(FilePathOf(base, H, realUrl, width, height))
    ensures r.result.Ok? ==> r.result.value == FilePathOf(base, H, realUrl, width, height)
  {
    var path := FilePathOf(base, H, realUrl, width, height);
    var fs0 := Fs(fs.dirs + {path.dir}, fs.files);
    if path !in fs.files && mime in reg then
      var (w1, h1) := AdjustDims(reg[mime], width, height, defaultWidth, defaultHeight);
      if variant == Arche then
        var (probe, fs1) := GetResourcePath(fs0, base, H, realUrl, sizeMb, limit);
        if probe.Err? then RunFallback(fallback, defaultWidth, defaultHeight, fs1, path, [], w1, h1, run)
        else RunPrimary(reg[mime], fallback, defaultWidth, defaultHeight, fs1, path, w1, h1, run)
      else RunPrimary(reg[mime], fallback, defaultWidth, defaultHeight, fs0, path, w1, h1, run)
    else if path in fs.files then Served(Ok(path), fs0, [])
    else RunFallback(fallback, defaultWidth, defaultHeight, fs0, path, [], width, height, run)
  }

  /** The registered handler, then the fallback when the file is still
      missing. */
  function RunPrimary(h: HandlerDesc, fallback: HandlerDesc, defaultWidth: int, defaultHeight: int, fs: Fs,
                      path: FilePath, width: int, height: int, run: (HandlerDesc, int, int) -> RunResult)
    : (r: Served)
    ensures |r.calls| >= 1 && r.calls[0] == Call(true, h, width, height)
    ensures var fs1 := AfterCall(fs, path, run(h, width, height).created);
      (path in fs1.files ==> r == Served(Ok(path), fs1, [r.calls[0]])) &&
      (path !in fs1.files ==>
        r == RunFallback(fallback, defaultWidth, defaultHeight, fs1, path, [r.calls[0]], width, height, run))
  {
    var c := Call(true, h, width, height);
    var fs1 := AfterCall(fs, path, CreatedBy(run, c));
    if path in fs1.files then Served(Ok(path), fs1, [c])
    else RunFallback(fallback, defaultWidth, defaultHeight, fs1, path, [c], width, height, run)
  }

  /** The last chance: the fallback handler, after the calls made so far. */
  function RunFallback(fallback: HandlerDesc, defaultWidth: int, defaultHeight: int, fs: Fs, path: FilePath,
                       calls: seq<Call>, width: int, height: int, run: (HandlerDesc, int, int) -> RunResult)
    : (r: Served)
    ensures |r.calls| == |calls| + 1 && r.calls[..|calls|] == calls
    ensures var (w, h) := AdjustDims(fallback, width, height, defaultWidth, defaultHeight);
      r.calls[|calls|] == Call(false, fallback, w, h) &&
      r.fs == AfterCall(fs, path, run(fallback, w, h).created) &&
      r.result == if run(fallback, w, h).threw then Err(FallbackFailed) else Ok(path)
  {
    var (w, h) := AdjustDims(fallback, width, height, defaultWidth, defaultHeight);
    var res := run(fallback, w, h);
    Served(if res.threw then Err(FallbackFailed) else Ok(path), AfterCall(fs, path, res.created),
           calls + [Call(false, fallback, w, h)])
  }

  /** `getThumbnail` removes nothing; only the requested file and the
      reference copy can appear, the reference copy only through the arche
      version's fetch. */
  lemma GetThumbnailFrame(variant: Variant, reg: Registry, mime: string, fallback: HandlerDesc, dw: int, dh: int,
                          fs: Fs, base: string, H: string -> string, realUrl: string, sizeMb: int, limit: int,
                          width: int, height: int, run: (HandlerDesc, int, int) -> RunResult)
    ensures var r := GetThumbnail(variant, reg, mime, fallback, dw, dh, fs, base, H, realUrl, sizeMb, limit,
                                  width, height, run);
      var path := FilePathOf(base, H, realUrl, width, height);
      var ref := FilePathOf(base, H, realUrl, 0, 0);
      fs.files <= r.fs.files <= fs.files + {path, ref} &&
      (ref != path && ref in r.fs.files && ref !in fs.files ==>
        variant == Arche && mime in reg && path !in fs.files && sizeMb <= limit)
  {
    var r := GetThumbnail(variant, reg, mime, fallback, dw, dh, fs, base, H, realUrl, sizeMb, limit,
                          width, height, run);
    var path := FilePathOf(base, H, realUrl, width, height);
    var ref := FilePathOf(base, H, realUrl, 0, 0);
    var fs0 := Fs(fs.dirs + {path.dir}, fs.files);
    if path in fs.files {
      assert r == Served(Ok(path), fs0, []);
    } else if mime !in reg {
      assert r == RunFallback(fallback, dw, dh, fs0, path, [], width, height, run);
    } else {
      var (w1, h1) := AdjustDims(reg[mime], width, height, dw, dh);
      if variant == Repo {
        assert r == RunPrimary(reg[mime], fallback, dw, dh, fs0, path, w1, h1, run);
      } else if ReferenceRefused(variant, fs, ref, sizeMb, limit) {
        assert r == RunFallback(fallback, dw, dh, fs0, path, [], w1, h1, run);
      } else {
        var fs1 := GetResourcePath(fs0, base, H, realUrl, sizeMb, limit).1;
        assert r == RunPrimary(reg[mime], fallback, dw, dh, fs1, path, w1, h1, run);
      }
    }
  }

  /** The requested file exists afterwards exactly when it did before,
      the fetch of the reference copy wrote it, or the last handler called
      created it. */
  lemma GetThumbnailCreates(variant: Variant, reg: Registry, mime: string, fallback: HandlerDesc, dw: int, dh: int,
                          fs: Fs, base: string, H: string -> string, realUrl: string, sizeMb: int, limit: int,
                          width: int, height: int, run: (HandlerDesc, int, int) -> RunResult)
    ensures var r := GetThumbnail(variant, reg, mime, fallback, dw, dh, fs, base, H, realUrl, sizeMb, limit,
                                  width, height, run);
      var path := FilePathOf(base, H, realUrl, width, height);
      var ref := FilePathOf(base, H, realUrl, 0, 0);
      (path in r.fs.files <==> path in fs.files || ProbeWritesPath(variant, mime, reg, path, ref, sizeMb, limit) ||
                               (|r.calls| > 0 && CreatedBy(run, r.calls[|r.calls| - 1])))
  {
    var r := GetThumbnail(variant, reg, mime, fallback, dw, dh, fs, base, H, realUrl, sizeMb, limit,
                          width, height, run);
    var path := FilePathOf(base, H, realUrl, width, height);
    var ref := FilePathOf(base, H, realUrl, 0, 0);
    var fs0 := Fs(fs.dirs + {path.dir}, fs.files);
    if path in fs.files {
      assert r == Served(Ok(path), fs0, []);
    } else if mime !in reg {
      assert r == RunFallback(fallback, dw, dh, fs0, path, [], width, height, run);
    } else {
      var (w1, h1) := AdjustDims(reg[mime], width, height, dw, dh);
      if variant == Repo {
        assert r == RunPrimary(reg[mime], fallback, dw, dh, fs0, path, w1, h1, run);
      } else if ReferenceRefused(variant, fs, ref, sizeMb, limit) {
        assert r == RunFallback(fallback, dw, dh, fs0, path, [], w1, h1, run);
      } else {
        var fs1 := GetResourcePath(fs0, base, H, realUrl, sizeMb, limit).1;
        assert r == RunPrimary(reg[mime], fallback, dw, dh, fs1, path, w1, h1, run);
      }
    }
  }

  /** The registered handler runs, as the first call, unless the file
      exists, the mime type has no handler, or the reference copy is
      refused; it gets its adjusted dimensions and, in the arche version,
      finds the reference copy in place. */
  lemma GetThumbnailPrimary(variant: Variant, reg: Registry, mime: string, fallback: HandlerDesc, dw: int, dh: int,
                          fs: Fs, base: string, H: string -> string, realUrl: string, sizeMb: int, limit: int,
                          width: int, height: int, run: (HandlerDesc, int, int) -> RunResult)
    ensures var r := GetThumbnail(variant, reg, mime, fallback, dw, dh, fs, base, H, realUrl, sizeMb, limit,
                                  width, height, run);
      var path := FilePathOf(base, H, realUrl, width, height);
      var ref := FilePathOf(base, H, realUrl, 0, 0);
      |r.calls| <= 2 &&
      (forall i :: 0 <= i < |r.calls| ==>
        (r.calls[i].primary <==>
          i == 0 && path !in fs.files && mime in reg && !ReferenceRefused(variant, fs, ref, sizeMb, limit))) &&
      (path !in fs.files && mime in reg && !ReferenceRefused(variant, fs, ref, sizeMb, limit) ==>
        |r.calls| >= 1 &&
        r.calls[0] == Call(true, reg[mime], AdjustDims(reg[mime], width, height, dw, dh).0,
                                            AdjustDims(reg[mime], width, height, dw, dh).1)) &&
      (variant == Arche && |r.calls| > 0 && r.calls[0].primary ==> ref in r.fs.files)
  {
    var r := GetThumbnail(variant, reg, mime, fallback, dw, dh, fs, base, H, realUrl, sizeMb, limit,
                          width, height, run);
    var path := FilePathOf(base, H, realUrl, width, height);
    var ref := FilePathOf(base, H, realUrl, 0, 0);
    var fs0 := Fs(fs.dirs + {path.dir}, fs.files);
    if path in fs.files {
      assert r == Served(Ok(path), fs0, []);
    } else if mime !in reg {
      assert r == RunFallback(fallback, dw, dh, fs0, path, [], width, height, run);
    } else {
      var (w1, h1) := AdjustDims(reg[mime], width, height, dw, dh);
      if variant == Repo {
        assert r == RunPrimary(reg[mime], fallback, dw, dh, fs0, path, w1, h1, run);
      } else if ReferenceRefused(variant, fs, ref, sizeMb, limit) {
        assert r == RunFallback(fallback, dw, dh, fs0, path, [], w1, h1, run);
      } else {
        var fs1 := GetResourcePath(fs0, base, H, realUrl, sizeMb, limit).1;
        assert r == RunPrimary(reg[mime], fallback, dw, dh, fs1, path, w1, h1, run);
      }
    }
  }

  /** The fallback runs exactly when the file is still missing after the
      registered handler (or the refused fetch). */
  lemma GetThumbnailFallback(variant: Variant, reg: Registry, mime: string, fallback: HandlerDesc, dw: int, dh: int,
                          fs: Fs, base: string, H: string -> string, realUrl: string, sizeMb: int, limit: int,
                          width: int, height: int, run: (HandlerDesc, int, int) -> RunResult)
    ensures var r := GetThumbnail(variant, reg, mime, fallback, dw, dh, fs, base, H, realUrl, sizeMb, limit,
                                  width, height, run);
      var path := FilePathOf(base, H, realUrl, width, height);
      var ref := FilePathOf(base, H, realUrl, 0, 0);
      ((|r.calls| > 0 && !r.calls[|r.calls| - 1].primary) <==>
        path !in fs.files && !ProbeWritesPath(variant, mime, reg, path, ref, sizeMb, limit) &&
        !(|r.calls| > 0 && r.calls[0].primary && CreatedBy(run, r.calls[0])))
  {
    var r := GetThumbnail(variant, reg, mime, fallback, dw, dh, fs, base, H, realUrl, sizeMb, limit,
                          width, height, run);
    var path := FilePathOf(base, H, realUrl, width, height);
    var ref := FilePathOf(base, H, realUrl, 0, 0);
    var fs0 := Fs(fs.dirs + {path.dir}, fs.files);
    if path in fs.files {
      assert r == Served(Ok(path), fs0, []);
    } else if mime !in reg {
      assert r == RunFallback(fallback, dw, dh, fs0, path, [], width, height, run);
    } else {
      var (w1, h1) := AdjustDims(reg[mime], width, height, dw, dh);
      if variant == Repo {
        assert r == RunPrimary(reg[mime], fallback, dw, dh, fs0, path, w1, h1, run);
      } else if ReferenceRefused(variant, fs, ref, sizeMb, limit) {
        assert r == RunFallback(fallback, dw, dh, fs0, path, [], w1, h1, run);
      } else {
        var fs1 := GetResourcePath(fs0, base, H, realUrl, sizeMb, limit).1;
        assert r == RunPrimary(reg[mime], fallback, dw, dh, fs1, path, w1, h1, run);
      }
    }
  }

  /** The fallback, when it runs, is the last call, and gets the
      dimensions the registered handler got, adjusted again. */
  lemma GetThumbnailFallbackCall(variant: Variant, reg: Registry, mime: string, fallback: HandlerDesc, dw: int, dh: int,
                          fs: Fs, base: string, H: string -> string, realUrl: string, sizeMb: int, limit: int,
                          width: int, height: int, run: (HandlerDesc, int, int) -> RunResult)
    ensures var r := GetThumbnail(variant, reg, mime, fallback, dw, dh, fs, base, H, realUrl, sizeMb, limit,
                                  width, height, run);
      var path := FilePathOf(base, H, realUrl, width, height);
      var ref := FilePathOf(base, H, realUrl, 0, 0);
      (forall i :: 0 <= i < |r.calls| && !r.calls[i].primary ==>
        i == |r.calls| - 1 && r.calls[i].handler == fallback &&
        var (w0, h0) := if mime in reg then AdjustDims(reg[mime], width, height, dw, dh) else (width, height);
        (r.calls[i].width, r.calls[i].height) == AdjustDims(fallback, w0, h0, dw, dh))
  {
    var r := GetThumbnail(variant, reg, mime, fallback, dw, dh, fs, base, H, realUrl, sizeMb, limit,
                          width, height, run);
    var path := FilePathOf(base, H, realUrl, width, height);
    var ref := FilePathOf(base, H, realUrl, 0, 0);
    var fs0 := Fs(fs.dirs + {path.dir}, fs.files);
    if path in fs.files {
      assert r == Served(Ok(path), fs0, []);
    } else if mime !in reg {
      assert r == RunFallback(fallback, dw, dh, fs0, path, [], width, height, run);
    } else {
      var (w1, h1) := AdjustDims(reg[mime], width, height, dw, dh);
      if variant == Repo {
        assert r == RunPrimary(reg[mime], fallback, dw, dh, fs0, path, w1, h1, run);
      } else if ReferenceRefused(variant, fs, ref, sizeMb, limit) {
        assert r == RunFallback(fallback, dw, dh, fs0, path, [], w1, h1, run);
      } else {
        var fs1 := GetResourcePath(fs0, base, H, realUrl, sizeMb, limit).1;
        assert r == RunPrimary(reg[mime], fallback, dw, dh, fs1, path, w1, h1, run);
      }
    }
  }

  /** The request fails exactly when the fallback ran and threw. */
  lemma GetThumbnailFails(variant: Variant, reg: Registry, mime: string, fallback: HandlerDesc, dw: int, dh: int,
                          fs: Fs, base: string, H: string -> string, realUrl: string, sizeMb: int, limit: int,
                          width: int, height: int, run: (HandlerDesc, int, int) -> RunResult)
    ensures var r := GetThumbnail(variant, reg, mime, fallback, dw, dh, fs, base, H, realUrl, sizeMb, limit,
                                  width, height, run);
      r.result.Err? <==>
        |r.calls| >= 1 && !r.calls[|r.calls| - 1].primary &&
        run(fallback, r.calls[|r.calls| - 1].width, r.calls[|r.calls| - 1].height).threw
  {
    var r := GetThumbnail(variant, reg, mime, fallback, dw, dh, fs, base, H, realUrl, sizeMb, limit,
                          width, height, run);
    var path := FilePathOf(base, H, realUrl, width, height);
    var ref := FilePathOf(base, H, realUrl, 0, 0);
    var fs0 := Fs(fs.dirs + {path.dir}, fs.files);
    if path in fs.files {
      assert r == Served(Ok(path), fs0, []);
    } else if mime !in reg {
      assert r == RunFallback(fallback, dw, dh, fs0, path, [], width, height, run);
    } else {
      var (w1, h1) := AdjustDims(reg[mime], width, height, dw, dh);
      if variant == Repo {
        assert r == RunPrimary(reg[mime], fallback, dw, dh, fs0, path, w1, h1, run);
      } else if ReferenceRefused(variant, fs, ref, sizeMb, limit) {
        assert r == RunFallback(fallback, dw, dh, fs0, path, [], w1, h1, run);
      } else {
        var fs1 := GetResourcePath(fs0, base, H, realUrl, sizeMb, limit).1;
        assert r == RunPrimary(reg[mime], fallback, dw, dh, fs1, path, w1, h1, run);
      }
    }
  }

  /** Once a request has left the file in place, the next request for the
      same dimensions is served from the cache: no handler runs and the
      file system stays as it is. */
  lemma ServedFromCache(variant: Variant, reg: Registry, mime: string, fallback: HandlerDesc, dw: int, dh: int,
                        fs: Fs, base: string, H: string -> string, realUrl: string, sizeMb: int, limit: int,
                        width: int, height: int, run: (HandlerDesc, int, int) -> RunResult)
    ensures var r := GetThumbnail(variant, reg, mime, fallback, dw, dh, fs, base, H, realUrl, sizeMb, limit,
                                  width, height, run);
      FilePathOf(base, H, realUrl, width, height) in r.fs.files ==>
        GetThumbnail(variant, reg, mime, fallback, dw, dh, r.fs, base, H, realUrl, sizeMb, limit, width, height, run)
          == Served(Ok(FilePathOf(base, H, realUrl, width, height)), r.fs, [])
  {
    var r := GetThumbnail(variant, reg, mime, fallback, dw, dh, fs, base, H, realUrl, sizeMb, limit,
                          width, height, run);
    assert r.fs.dirs + {FilePathOf(base, H, realUrl, width, height).dir} == r.fs.dirs;
  }

  /** A mime type without a registered handler goes straight to the
      fallback, with zero dimensions replaced by the defaults. */
  lemma UnregisteredMimeUsesFallback(variant: Variant, reg: Registry, mime: string, dw: int, dh: int, fs: Fs,
                                     base: string, H: string -> string, realUrl: string, sizeMb: int, limit: int,
                                     run: (HandlerDesc, int, int) -> RunResult)
    requires mime !in reg && FilePathOf(base, H, realUrl, 0, 0) !in fs.files
    ensures GetThumbnail(variant, reg, mime, FallbackHandler, dw, dh, fs, base, H, realUrl, sizeMb, limit,
                         0, 0, run).calls == [Call(false, FallbackHandler, dw, dh)]
  {
  }

  /** In the arche version a resource over the size limit whose reference
      copy is not cached never reaches its registered handler: the request
      goes to the fallback with the handler's dimensions, and no file but
      the requested one can appear. */
  lemma TooLargeSkipsHandler(reg: Registry, mime: string, fallback: HandlerDesc, dw: int, dh: int, fs: Fs,
                             base: string, H: string -> string, realUrl: string, sizeMb: int, limit: int,
                             width: int, height: int, run: (HandlerDesc, int, int) -> RunResult)
    requires FilePathOf(base, H, realUrl, 0, 0) !in fs.files && sizeMb > limit
    ensures var r := GetThumbnail(Arche, reg, mime, fallback, dw, dh, fs, base, H, realUrl, sizeMb, limit,
                                  width, height, run);
      var path := FilePathOf(base, H, realUrl, width, height);
      (forall i :: 0 <= i < |r.calls| ==> !r.calls[i].primary) &&
      r.fs.files <= fs.files + {path} &&
      (path !in fs.files ==> |r.calls| == 1 && r.calls[0].handler == fallback)
  {
  }

  /** The older version has no such guard: a registered handler runs
      whatever the size of the resource. */
  lemma RepoIgnoresSize(reg: Registry, mime: string, fallback: HandlerDesc, dw: int, dh: int, fs: Fs,
                        base: string, H: string -> string, realUrl: string, sizeMb: int, limit: int,
                        width: int, height: int, run: (HandlerDesc, int, int) -> RunResult)
    requires mime in reg && FilePathOf(base, H, realUrl, width, height) !in fs.files
    ensures var r := GetThumbnail(Repo, reg, mime, fallback, dw, dh, fs, base, H, realUrl, sizeMb, limit,
                                  width, height, run);
      |r.calls| >= 1 && r.calls[0].primary && r.calls[0].handler == reg[mime] &&
      r.fs.files <= fs.files + {FilePathOf(base, H, realUrl, width, height)}
  {
  }

  // ---- getThumbnailPath and fetchResourceFile ----

  datatype PathError = NoSuchFile | FileTooLarge(sizeMb: int, limit: int)

  /** `getThumbnailPath`: an existing file is returned as it is; a missing
      reference file `(0, 0)` is fetched unless the resource is larger than
      the limit, which is checked before the directory or the file is
      created; any other missing file is an error. */
  function GetThumbnailPath(fs: Fs, base: string, H: string -> string, realUrl: string, width: int, height: int,
                            sizeMb: int, limit: int): (r: (Result<FilePath, PathError>, Fs))
    ensures var path := FilePathOf(base, H, realUrl, width, height);
      (r.0.Ok? ==> r.0.value == path && path in r.1.files) &&
      (r.0.Err? ==> r.1 == fs) &&
      (path in fs.files ==> r == (Ok(path), fs)) &&
      (r.0 == Err(NoSuchFile) <==> path !in fs.files && !(width == 0 && height == 0)) &&
      (r.0.Err? && r.0.error.FileTooLarge? <==> path !in fs.files && width == 0 && height == 0 && sizeMb > limit)
    ensures fs.files <= r.1.files <= fs.files + {FilePathOf(base, H, realUrl, width, height)}
    ensures fs.dirs <= r.1.dirs <= fs.dirs + {FilePathOf(base, H, realUrl, width, height).dir}
  {
    var path := FilePathOf(base, H, realUrl, width, height);
    if path in fs.files then (Ok(path), fs)
    else if width == 0 && height == 0 then
      match FetchResourceFile(fs, base, H, realUrl, sizeMb, limit)
      case (Ok(p), fs1) => (Ok(path), fs1)
      case (Err(e), fs1) => (Err(e), fs1)
    else (Err(NoSuchFile), fs)
  }

  /** `fetchResourceFile`: refuse a resource larger than the limit;
      otherwise make the directory and write the reference file. */
  function FetchResourceFile(fs: Fs, base: string, H: string -> string, realUrl: string, sizeMb: int, limit: int)
    : (r: (Result<FilePath, PathError>, Fs))
    ensures sizeMb > limit ==> r == (Err(FileTooLarge(sizeMb, limit)), fs)
    ensures sizeMb <= limit ==>
      var path := FilePathOf(base, H, realUrl, 0, 0);
      r.0 == Ok(path) && r.1.dirs == fs.dirs + {path.dir} && r.1.files == fs.files + {path}
  {
    var path := FilePathOf(base, H, realUrl, 0, 0);
    if sizeMb > limit then (Err(FileTooLarge(sizeMb, limit)), fs)
    else (Ok(path), Fs(fs.dirs + {path.dir}, fs.files + {path}))
  }

  /** `getResourcePath`: the reference copy `(0, 0)`, fetched when it is
      missing; refused, with nothing changed, when it is missing and the
      resource is over the limit. */
  function GetResourcePath(fs: Fs, base: string, H: string -> string, realUrl: string, sizeMb: int, limit: int)
    : (r: (Result<FilePath, PathError>, Fs))
    ensures var ref := FilePathOf(base, H, realUrl, 0, 0);
      (r.0.Err? <==> ref !in fs.files && sizeMb > limit) &&
      (r.0.Err? ==> r.1 == fs) &&
      (r.0.Ok? ==> r.0.value == ref && r.1.files == fs.files + {ref} &&
                   fs.dirs <= r.1.dirs <= fs.dirs + {ref.dir})
  {
    GetThumbnailPath(fs, base, H, realUrl, 0, 0, sizeMb, limit)
  }

  // ---- getCachedFiles ----

  /** The width key and height entry `getCachedFiles` reads from a file
      name: the parts before and after the first `_`, each cast to an
      integer and printed with `%05d`. `None` for a name without `_`. */
  function ParseCachedName(name: string): (r: Option<(string, string)>)
    ensures r.None? <==> '_' !in name
    ensures r.Some? ==> |r.value.0| >= 5 && |r.value.1| >= 5
  {
    var parts := Explode('_', name);
    if |parts| > 1 then Some((Pad(PhpIntCast(parts[0]), 5), Pad(PhpIntCast(parts[1]), 5))) else None
  }

  /** The loop of `getCachedFiles` over the directory listing, in listing
      order: each height is appended under its width. */
  function Collect(names: seq<string>): map<string, seq<string>>
    decreases |names|
  {
    if names == [] then map[]
    else
      var acc := Collect(names[..|names| - 1]);
      match ParseCachedName(names[|names| - 1])
      case None => acc
      case Some((w, h)) => acc[w := Lookup(acc, w, []) + [h]]
  }

  /** `getCachedFiles`: nothing for a missing directory. */
  function CachedFiles(dirExists: bool, names: seq<string>): (r: map<string, seq<string>>)
    ensures !dirExists ==> r == map[]
    ensures forall w :: w in r ==> |w| >= 5
  {
    if dirExists then
      CollectKeys(names);
      Collect(names)
    else map[]
  }

  lemma {:induction false} CollectKeys(names: seq<string>)
    ensures forall w :: w in Collect(names) ==> |w| >= 5
    decreases |names|
  {
    if names != [] {
      CollectKeys(names[..|names| - 1]);
    }
  }

  /** Reference definition: the heights listed under width key `w`, in
      listing order. */
  function HeightsFor(names: seq<string>, w: string): seq<string>
    decreases |names|
  {
    if names == [] then []
    else
      var earlier := HeightsFor(names[..|names| - 1], w);
      match ParseCachedName(names[|names| - 1])
      case Some((w1, h)) => if w1 == w then earlier + [h] else earlier
      case None => earlier
  }

  /** A width is listed exactly when some name yields it, and its list holds
      the heights of those names in listing order. */
  lemma {:induction false} CollectIsHeightsFor(names: seq<string>, w: string)
    ensures w in Collect(names) <==> HeightsFor(names, w) != []
    ensures w in Collect(names) ==> Collect(names)[w] == HeightsFor(names, w)
    decreases |names|
  {
    if names != [] {
      CollectIsHeightsFor(names[..|names| - 1], w);
    }
  }

  /** `.` and `..` hold no `_` and are skipped. */
  lemma DotsSkipped(names: seq<string>)
    ensures Collect(names + [".", ".."]) == Collect(names)
  {
    var n1 := names + ["."];
    assert (names + [".", ".."])[..|n1|] == n1;
    assert n1[..|names|] == names;
  }

  /** The name of a file written for dimensions `(w, h)` lists `w` with `h`
      among its heights, both printed with five digits. */
  lemma CachedFileListed(names: seq<string>, i: nat, w: int, h: int)
    requires IntMin <= w <= IntMax && IntMin <= h <= IntMax
    requires i < |names| && names[i] == FileName(w, h)
    ensures Pad(w, 5) in CachedFiles(true, names)
    ensures Pad(h, 5) in CachedFiles(true, names)[Pad(w, 5)]
  {
    CastOfPad(w, 4);
    CastOfPad(h, 4);
    assert ParseCachedName(FileName(w, h)) == Some((Pad(w, 5), Pad(h, 5)));
    HeightsForListed(names, i);
    CollectIsHeightsFor(names, Pad(w, 5));
  }

  /** A name that parses puts its height among the heights of its width. */
  lemma {:induction false} HeightsForListed(names: seq<string>, i: nat)
    requires i < |names|
    ensures var p := ParseCachedName(names[i]);
      p.Some? ==> p.value.1 in HeightsFor(names, p.value.0)
    decreases |names|
  {
    if i < |names| - 1 {
      var prefix := names[..|names| - 1];
      assert prefix[i] == names[i];
      HeightsForListed(prefix, i);
    }
  }
}
