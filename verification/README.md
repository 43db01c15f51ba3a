# arche-thumbnails: the cache coordinator in Dafny

The thumbnail service answers a request for a repository resource by serving
a cached image or by creating one. This project models the decisions it
makes along the way and proves properties about them:

- **Metadata cache** (`MetadataCache`, `ArcheRefresh`, `RepoRefresh`). This
  covers four steps.
  - It keeps one stored row per requested id and decides whether to
    re-fetch it.
  - It resolves the id through its redirects and finds the real URL. The
    current `acdhOeaw\arche` version strips `/metadata` and searches for a
    title image. The older `acdhOeaw\repo` version reads the resource's
    title image property.
  - It inserts or updates the row.
  - It purges the cached files of the real URL's directory when the
    repository hash changes.
- **Cache layout** (`MetadataCache`, `Dispatch`). Files live at
  `cacheDir/H(realUrl)/WWWW_HHHH`. `getCachedFiles` lists them back as
  widths with their heights.
- **Dispatch** (`Dispatch`). The registry maps each mime type to a handler.
  `getThumbnail` runs the registered handler, then falls back to the
  fallback handler. The arche version first fetches the reference copy
  through `getResourcePath`, and a resource over the size limit skips the
  registered handler. `getThumbnailPath` looks up a cached file, and
  `fetchResourceFile` guards the resource size.
- **Resource record** (`ResourceMetaModel`, `PhpSerialize`). `fromDatasetNode`
  projects a resource's description into the record, with its defaults. The
  record survives a `serialize`/`unserialize` round trip.
- **Fallback icon** (`FallbackIcon`). The label is cut from the mime type or
  the class. There are three icon sources, and the generic drawing has an
  integer upscale factor.
- **Cache eviction** (`ClearCache`). `clean` validates the mode, chooses
  files greedily by size or age, and removes empty top-level directories.
- **PHP semantics** that the code relies on (`PhpStrings`): `sprintf('%0Nd')`,
  the `(int)` cast, `explode`, `empty`, and the single-pass `preg_replace`.

Everything outside the process is an input:

- HTTP requests are function-typed parameters: `head` gives the redirect
  history, `search`, `getMeta` and `describe` give metadata.
- The database is a map from id to row.
- The file system is a set of directories and a set of files.
- The clock is the integer `now`, and `sha1` is an uninterpreted
  `H: string -> string`.
- A handler's effect is `run(handler, width, height)`, which says whether
  the call created the file and whether it threw.

Source paths below are relative to the repository root.

Where the code and its description differ, the model follows the code:

- The arche variant's `(string) <hash> ?? <modDate>` never consults the
  modification date.
- The purge looks at the directory of the refreshed real URL, not the
  stored one.
- `ClearCache::clean` reports the files it selects and never unlinks them.
- Nothing checks file modification times for freshness. Nothing writes to a
  temporary file and renames it. A failed refresh does not keep the old
  metadata: the arche version ends the process when resolution fails.
- In the fallback handler, `class ?? 'Collection'` can only pick
  `'Collection'` for a null class. The typed `ResourceMeta` always holds a
  string, so the model keeps the branch (`cls: Option<string>`) for
  completeness.

## Model

| member | source | states |
|---|---|---|
| MetadataCache.ResolveUrl | src/acdhOeaw/arche/thumbnails/Resource.php:73-74 | the resolved URL is the last redirect target, and the id itself when there was no redirect |
| MetadataCache.NeedsRefreshIff | src/acdhOeaw/arche/thumbnails/Resource.php:319-326 | a re-fetch happens exactly when no row is stored or the stored check date is more than `cacheKeepAlive` seconds away from now, in either direction, whatever `diff` starts as |
| MetadataCache.Commit | src/acdhOeaw/arche/thumbnails/Resource.php:389-409 | INSERT exactly when the id has no row, UPDATE otherwise; afterwards the id maps to the new row and every other row is unchanged |
| MetadataCache.Maintain | src/acdhOeaw/arche/thumbnails/Resource.php:299-426 | a fresh row is kept and nothing is written or removed; a stale or missing row is replaced by one dated `now` with the fetched hash, mime, size and real URL, and the cache directory of the new real URL is purged when the hash changed; a failed fetch is reported as an error |
| MetadataCache.MaintainPurges | src/acdhOeaw/arche/thumbnails/Resource.php:416-425 | a refresh removes exactly the regular files directly in the new real URL's directory, and only when the hash changed and that directory exists; directories stay |
| MetadataCache.Purge | src/acdhOeaw/repo/thumbnails/Resource.php:350-359 | on a hash change with an existing directory every file in it is unlinked and nothing else changes; otherwise the file system is untouched |
| MetadataCache.FileName | src/acdhOeaw/arche/thumbnails/Resource.php:263 | the base name splits on `_` into exactly the two `%04d` renderings of width and height |
| MetadataCache.FileNameInjective | src/acdhOeaw/arche/thumbnails/Resource.php:260-264 | two dimension pairs (within PHP's integer range) with the same file name are equal |
| MetadataCache.ReferenceFileName | src/acdhOeaw/arche/thumbnails/Resource.php:260 | the reference copy `(0, 0)` is the file `0000_0000` |
| ArcheRefresh.StripMetadata | src/acdhOeaw/arche/thumbnails/Resource.php:332 | a URL without `/metadata` is kept as it is, and a URL holding it loses at least one whole copy |
| ArcheRefresh.StripMetadataLeftmost | src/acdhOeaw/arche/thumbnails/Resource.php:332 | the leftmost `/metadata` is deleted, the text before it is kept, and the replacement goes on after it |
| ArcheRefresh.StripMetadataJoin | src/acdhOeaw/arche/thumbnails/Resource.php:332 | text before the first `/metadata` that holds none itself passes through, the segment is dropped, and the rest is stripped on its own |
| ArcheRefresh.StripMetadataTrailing | src/acdhOeaw/arche/thumbnails/Resource.php:331-332 | a metadata URL `…/metadata` whose prefix holds no `/metadata` resolves to that prefix |
| ArcheRefresh.StripMetadataSinglePass | src/acdhOeaw/arche/thumbnails/Resource.php:332 | the removal is one left-to-right pass: `/meta/metadatadata` becomes `/metadata`, which is not removed again |
| ArcheRefresh.SinglePassOf | src/acdhOeaw/arche/thumbnails/Resource.php:332 | for any pattern, removing a copy of it nested after a prefix that cannot start a match leaves the pattern itself |
| ArcheRefresh.SearchBase | src/acdhOeaw/arche/thumbnails/Resource.php:335 | the search base is the prefix before the last `/`, and empty when there is no `/` |
| ArcheRefresh.RoundMb | src/acdhOeaw/arche/thumbnails/Resource.php:385 | the size in megabytes is the nearest whole number to bytes / 2^20, with halves rounded away from zero |
| ArcheRefresh.RepoHashIgnoresModDate | src/acdhOeaw/arche/thumbnails/Resource.php:383 | the stored hash is the hash value or '', never the modification date |
| ArcheRefresh.Project | src/acdhOeaw/arche/thumbnails/Resource.php:376-387 | the refreshed row takes hash, mime and rounded size from the metadata found and the given real URL |
| ArcheRefresh.Fetch | src/acdhOeaw/arche/thumbnails/Resource.php:331-374 | the refresh fails with `ResolutionFailed` exactly when the HEAD request fails, with `UnreadableSearchAnswer` exactly when the parser rejects a 200 search answer, and with `NoMetadata` exactly when neither request answers; otherwise the real URL is the matched subject or else the stripped URL, and the row describes the search answer when there was one and the resource's own metadata otherwise |
| ArcheRefresh.OwnMetadataOnlyAfterFailedSearch | src/acdhOeaw/arche/thumbnails/Resource.php:360-374 | when the search answered, the resource's own metadata cannot change the outcome |
| ArcheRefresh.UnreadableOwnMetadata | src/acdhOeaw/arche/thumbnails/Resource.php:363-373 | a 200 answer for the resource's own metadata that the parser rejects at once still refreshes the row, with empty hash and mime and size 0, under the stripped URL |
| ArcheRefresh.FetchKeepsId | src/acdhOeaw/arche/thumbnails/Resource.php:331-352 | without redirects, without `/metadata` and without a matching title image the real URL is the id |
| ArcheRefresh.MaintainArche | src/acdhOeaw/arche/thumbnails/Resource.php:410-412 | within the keep-alive time the stored row is served as it is, with no write and no purge |
| ArcheRefresh.PurgeUsesNewRealUrl | src/acdhOeaw/arche/thumbnails/Resource.php:416-417 | after a title-image match every file outside the new real URL's directory survives the purge, including the files under the previously stored real URL |
| RepoRefresh.RepoHashOf | src/acdhOeaw/repo/thumbnails/Resource.php:320 | the hash is the hash literal, else the modification date literal, else '' |
| RepoRefresh.HashFallbackDiffers | src/acdhOeaw/repo/thumbnails/Resource.php:320 | the two versions store different hashes exactly when a description has a non-empty modification date and no hash |
| RepoRefresh.ProjectRepo | src/acdhOeaw/repo/thumbnails/Resource.php:317-324 | the refreshed row takes the fallback hash, the mime, the rounded size and the given real URL |
| RepoRefresh.FetchRepo | src/acdhOeaw/repo/thumbnails/Resource.php:304-315 | the only error is a failed HEAD request, of the id or of a non-empty title image; a successful row always describes its own real URL, which is the title image's resolution when there is one and the id's otherwise |
| RepoRefresh.NoRowStillRefreshes | src/acdhOeaw/repo/thumbnails/Resource.php:296-303 | with no stored row `diff` does not exceed the keep-alive time, yet the row is fetched and inserted |
| RepoRefresh.TitleImageIndirection | src/acdhOeaw/repo/thumbnails/Resource.php:309-324 | with a title image the row stays keyed by the requested id while its real URL and hash come from the title image |
| RepoRefresh.MaintainRepo | src/acdhOeaw/repo/thumbnails/Resource.php:293-303 | within the keep-alive time the stored row is served as it is, with no write and no purge |
| Dispatch.RegisterMimes | src/acdhOeaw/arche/thumbnails/Resource.php:126-128 | registering a handler maps each of its mime types to it and leaves every other mapping alone |
| Dispatch.RegistryLastWins | src/acdhOeaw/arche/thumbnails/Resource.php:124-129 | the registry holds exactly the declared mime types, each mapped to the last configured handler declaring it |
| Dispatch.FallbackRegistersNothing | src/acdhOeaw/arche/thumbnails/handler/Fallback.php:50-52 | configuring the fallback among the handlers leaves the registry unchanged |
| Dispatch.DefaultRegistry | src/acdhOeaw/arche/thumbnails/handler/Text.php:52-58 | with the image and text handlers configured, and assuming both can be built, each declared type goes to its own handler and no other type is registered |
| Dispatch.DisjointMimes | src/acdhOeaw/arche/thumbnails/handler/Image.php:48-49 | no mime type is declared by both the image and the text handler |
| Dispatch.AdjustDims | src/acdhOeaw/arche/thumbnails/Resource.php:154-157 | a handler that keeps the aspect ratio gets the dimensions as asked; otherwise non-positive ones become the configured defaults |
| Dispatch.AdjustDimsIdempotent | src/acdhOeaw/arche/thumbnails/Resource.php:171-174 | adjusting dimensions already adjusted changes nothing |
| Dispatch.GetThumbnail | src/acdhOeaw/arche/thumbnails/Resource.php:141-181 | the directory of the requested file exists afterwards; an existing file is served with no handler run; a successful request returns the requested path |
| Dispatch.GetThumbnailFrame | src/acdhOeaw/arche/thumbnails/Resource.php:146-177 | nothing is removed; only the requested file and the reference copy can appear, and the reference copy only through the arche version's fetch of a resource within the size limit |
| Dispatch.GetThumbnailCreates | src/acdhOeaw/arche/thumbnails/Resource.php:153-168 | the requested file exists afterwards exactly when it did before, the fetch of the reference copy wrote it, or the last handler called created it |
| Dispatch.GetThumbnailPrimary | src/acdhOeaw/arche/thumbnails/Resource.php:152-161 | the registered handler runs as the first call exactly when the file is missing, the mime type has a handler and the reference copy is not refused; it gets the adjusted dimensions and, in the arche version, finds the reference copy in place |
| Dispatch.GetThumbnailFallback | src/acdhOeaw/arche/thumbnails/Resource.php:167-168 | the fallback runs exactly when the file is still missing after the registered handler or the refused fetch |
| Dispatch.GetThumbnailFallbackCall | src/acdhOeaw/arche/thumbnails/Resource.php:168-177 | the fallback is the last call, and gets the registered handler's dimensions adjusted again |
| Dispatch.GetThumbnailFails | src/acdhOeaw/arche/thumbnails/Resource.php:158-177 | the request fails exactly when the fallback ran and threw; the registered handler's exception is swallowed |
| Dispatch.TooLargeSkipsHandler | src/acdhOeaw/arche/thumbnails/Resource.php:158-164 | in the arche version, a resource over the size limit whose reference copy is not cached never reaches its registered handler and goes to the fallback |
| Dispatch.RepoIgnoresSize | src/acdhOeaw/repo/thumbnails/Resource.php:134-143 | in the older version the registered handler runs for a missing file whatever the size of the resource |
| Dispatch.GetResourcePath | src/acdhOeaw/arche/thumbnails/Resource.php:187-189 | the reference copy is returned, fetched when missing, and refused with nothing changed when it is missing and the resource is over the limit |
| Dispatch.ServedFromCache | src/acdhOeaw/arche/thumbnails/Resource.php:153 | once a request has left the file in place, repeating it runs no handler and changes nothing |
| Dispatch.UnregisteredMimeUsesFallback | src/acdhOeaw/arche/thumbnails/Resource.php:167-177 | a mime type without a handler goes straight to the fallback, with the default dimensions, in either version |
| Dispatch.GetThumbnailPath | src/acdhOeaw/repo/thumbnails/Resource.php:182-193 | an existing path is returned unchanged; a missing `(0, 0)` is fetched; any other missing path is `NoSuchFile`; an error leaves the file system as it was |
| Dispatch.FetchResourceFile | src/acdhOeaw/repo/thumbnails/Resource.php:248-258 | a resource larger than the limit is refused before any directory or file is made; otherwise the reference file is written in its directory |
| Dispatch.ParseCachedName | src/acdhOeaw/repo/thumbnails/Resource.php:216-219 | a name yields a width and a height exactly when it contains `_`; both are at least five characters |
| Dispatch.CachedFiles | src/acdhOeaw/repo/thumbnails/Resource.php:208-212 | a missing directory lists nothing; every width key has at least five characters |
| Dispatch.CollectIsHeightsFor | src/acdhOeaw/repo/thumbnails/Resource.php:214-226 | a width is listed exactly when some name yields it, with the heights of those names in listing order |
| Dispatch.DotsSkipped | src/acdhOeaw/repo/thumbnails/Resource.php:215-217 | the entries `.` and `..` add nothing |
| Dispatch.CachedFileListed | src/acdhOeaw/repo/thumbnails/Resource.php:237-241 | the name written for `(w, h)` lists `pad5(w)` with `pad5(h)` among its heights |
| ClearCache.Clean | src/acdhOeaw/repo/thumbnails/ClearCache.php:63-103 | an unknown mode fails before anything is read; the chosen files come in eviction order and before every file not chosen; each was chosen while the rest still exceeded the limit; choosing stops at the limit or when every file is chosen; nothing is chosen when the total is within the limit; no file is removed; the removed directories are exactly the empty top-level ones |
| ClearCache.PickFirst | src/acdhOeaw/repo/thumbnails/ClearCache.php:83-90 | the file popped next is the biggest (or oldest), the later one in the walk among equals |
| ClearCache.EmptyDirs | src/acdhOeaw/repo/thumbnails/ClearCache.php:97-102 | a top-level directory is removed exactly when it holds no entries |
| ResourceMetaModel.FromDatasetNode | src/acdhOeaw/arche/thumbnails/ResourceMeta.php:40-50 | `url` is the node; `realUrl` is the title image or the node; hash, mime and class take their value or their default; the size is floored to whole megabytes |
| ResourceMetaModel.FromDatasetNodeDefaults | src/acdhOeaw/arche/thumbnails/ResourceMeta.php:44-47 | a node with no properties but its date gets `__no hash__`, '', `__no class__`, size 0 and itself as real URL |
| ResourceMetaModel.FromDatasetNodeSize | src/acdhOeaw/arche/thumbnails/ResourceMeta.php:46 | a size of `n << 20` bytes projects to `n` megabytes |
| ResourceMetaModel.ShiftRight20 | src/acdhOeaw/arche/thumbnails/ResourceMeta.php:46 | `>> 20` is the floor of the division by 2^20, for negative sizes too |
| ResourceMetaModel.Fresh | src/acdhOeaw/arche/thumbnails/ResourceMeta.php:56-62 | a new record has '' hash, mime and class, size 0, and `url`, `realUrl` and `modDate` uninitialised |
| ResourceMetaModel.DeserializeSerialize | src/acdhOeaw/arche/thumbnails/ResourceMeta.php:52-66 | deserializing a serialized record gives the record back |
| PhpSerialize.DecodeValueOf | src/acdhOeaw/arche/thumbnails/ResourceMeta.php:64-66 | decoding the serialized text of any value gives the value back and leaves whatever followed |
| FallbackIcon.FallbackDescriptor | src/acdhOeaw/arche/thumbnails/handler/Fallback.php:50-56 | the fallback declares no mime type, does not keep the aspect ratio, and so registers nothing |
| FallbackIcon.Label | src/acdhOeaw/arche/thumbnails/handler/Fallback.php:60-71 | the label holds no `/`; it is the whole source when that has no `/`, else the segment after the first `/` up to the next one |
| FallbackIcon.LabelOfMime | src/acdhOeaw/arche/thumbnails/handler/Fallback.php:66-71 | the mime type `type/subtype` is labelled `subtype` |
| FallbackIcon.LabelOfClass | src/acdhOeaw/arche/thumbnails/handler/Fallback.php:62-65 | with an empty mime type the label is the class IRI's local name after its last `/` or `#` |
| FallbackIcon.LabelExample | tests/FallbackTest.php:55-57 | the class `https://foo/bar#Publication` is labelled `Publication` |
| FallbackIcon.ChooseIcon | src/acdhOeaw/arche/thumbnails/handler/Fallback.php:73-91 | exactly one source: the configured icon when the label is mapped, else the template when one is configured, else the generic drawing, each captioned with the label |
| FallbackIcon.Upscale | src/acdhOeaw/arche/thumbnails/handler/Fallback.php:167-168 | a zero side divides by zero; otherwise the factor is 1 for a negative side and the least factor bringing the shorter side to 400 pixels |
| PhpStrings.Pad | src/acdhOeaw/arche/thumbnails/Resource.php:263 | `%0Nd` is at least N characters: a sign or digit, then digits |
| PhpStrings.PadWidth | src/acdhOeaw/arche/thumbnails/Resource.php:263 | a number below 10^N is printed in exactly N characters |
| PhpStrings.CastOfPad | src/acdhOeaw/repo/thumbnails/Resource.php:218-219 | casting a `%0Nd` rendering back with `(int)` gives the number |
| PhpStrings.PhpIntCast | src/acdhOeaw/arche/thumbnails/ResourceMeta.php:46 | the cast stays within the 64-bit range |
| PhpStrings.ImplodeExplode | src/acdhOeaw/repo/thumbnails/Resource.php:216 | joining the parts of `explode` with the separator gives the text back |
| PhpStrings.StripIriPrefix | src/acdhOeaw/arche/thumbnails/handler/Fallback.php:64 | the result is a suffix of the text with no `/` or `#` before the first line break, and text without one on its first line stays as it is |

## Left out

- HTTP, RDF parsing and the search request are not modelled: their
  results are parameters. This includes `urlencode` of the search query
  and the `exit` on a failed resolution, which is modelled as the error
  `ResolutionFailed`.
- SQL text and PDO are not modelled: the table is a map from id to row.
  The `fetchObject` of a row into the older `ResourceMeta` is taken to give
  back the stored columns.
- `DateTime` parsing and formatting are not modelled. Dates are integers in
  seconds, and the `DateTime::diff` sum is their absolute difference.
- `sha1` is not modelled: it is the parameter `H`. Two real URLs may
  therefore share a directory only if `H` says so.
- The copy loop of `fetchResourceFile` (`fopen`, `fread`, and the
  `10 ^ 6` chunk size) is not modelled, and neither are failures of
  `file_get_contents` or `fopen`. Fetching writes the reference file.
- All Imagick rendering is left out:
  - the bodies of the image and text handlers;
  - `createFromMap`, `createFromTemplate` and the generic geometry;
  - `findFontSize`.

  The fallback model stops at the icon source and the upscale factor.
- The `Image` handler of the older version is not modelled: it calls a
  method that does not exist.
- `index.php`, `clearCache.php` and `ResourceInterface.php` are front
  controller, command line and declarations only.
- Floating point is not modelled: `clean` compares sizes in megabytes as
  float sums. The model compares exact byte counts against
  `maxSizeMb * 2^20`, which differs only by float rounding.
- ArcheRefresh.Fetch: when both the search and the resource's own metadata
  request fail, the source goes on with a null dataset. The dataset helper
  it calls is not part of this model, so this case is `Err(NoMetadata)`.
  A body that the parser rejects part-way is modelled through `getMeta`,
  which gives the properties read before the parser stopped; which
  properties those are depends on the parser and is not modelled.
- RepoRefresh.FetchRepo: the metadata of a URL is a total function, so a
  failed or unparsable `file_get_contents` is left out.
- Dispatch.BuildRegistry: constructing every configured handler with no
  arguments is assumed to succeed. The arche `Text` handler's constructor
  requires a config object (arche handler/Text.php:44). Configuring it under
  `new $i()` (arche Resource.php:125) therefore throws before any type is
  registered. `DefaultRegistry` describes the registry as if it could be
  built; the older version's `Text` (repo handler/Text.php:41) takes no
  arguments.
- Dispatch.GetThumbnail: `mkdir($dir, 0700, true)` also creates a missing
  cache base directory; the file system model records only the leaf
  directory of the requested file.
- Dispatch.CachedFiles: PHP stores a key such as `"12345"` as the
  integer 12345, while `%05d` keys with a leading zero stay strings; the
  model keeps every key a string. The order of keys in the resulting array
  is not modelled either: the result is a map from width to heights.
- ClearCache.Clean: a regular file directly in the cache directory would
  make `scandir` fail in the directory pruning. The top-level entries are
  taken to be directories, as the cache layout creates them.
- ClearCache.Clean: it relies on the stable `asort`/`arsort` of PHP 8
  (ties keep walk order); earlier PHP versions did not promise this.
- PhpSerialize.EncodeString: `s:<length>:` counts characters, where PHP
  counts bytes. Strings are one byte per character throughout this model,
  so a URL or class with non-ASCII characters serializes with a different
  length prefix in PHP.
- MetadataCache.Maintain: the hash the refresh compares against when no
  row is stored is '', the default of the arche `ResourceMeta`. The older
  version's `ResourceMeta` class is not part of this model. If its
  `repoHash` starts as null, a first fetch with an empty hash purges there,
  and the model does not.
- PhpStrings.PhpIntCast: it covers leading whitespace, a sign, a run of
  digits and saturation at the 64-bit limits. Strings in float or
  exponent notation (`"1e3"`, `"1.5"`) are left out.
- The command-line mapping of the clean mode (any value other than
  `'size'` means by modification time) is left out with `clearCache.php`.
