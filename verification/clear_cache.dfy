/** `ClearCache::clean`: check the mode, walk the cache for regular files,
    choose files in eviction order until the total size no longer exceeds
    the limit, and remove the empty directories directly under the cache
    directory. The chosen files are reported, not unlinked. The walk is an
    input: the regular files in the order the iterator yields them, and the
    top-level entries with the number of entries each holds (`.` and `..`
    not counted). Sizes are in bytes; the megabyte comparisons of the
    source are made exact by multiplying the limit by 2^20. */
module ClearCache {
  import opened Results

  const ByModTime := 1
  const BySize := 2

  const MiB: nat := 0x10_0000

  datatype FileInfo = FileInfo(path: string, sizeBytes: nat, mtime: int)

  /** A direct child of the cache directory and how many entries it holds. */
  datatype Entry = Entry(name: string, entries: nat)

  datatype CleanError = BadMethodCall

  /** What `clean` did: the indexes (into the walk) of the files it chose,
      in the order chosen, their paths as reported, the directories it
      removed, and the files left in the cache. */
  datatype Report = Report(chosen: seq<nat>, reported: seq<string>, removedDirs: set<string>,
                           remaining: seq<FileInfo>)

  function Limit(maxSizeMb: int): int {
    maxSizeMb * MiB
  }

  /** The sort key: the size for `BY_SIZE`, the age for `BY_MOD_TIME`. */
  function Key(files: seq<FileInfo>, mode: int, i: nat): int
    requires i < |files|
  {
    if mode == BySize then files[i].sizeBytes else -files[i].mtime
  }

  /** Eviction order. `asort`/`arsort` are stable and `array_pop` takes
      from the end, so the biggest (or oldest) file goes first, and among
      equal keys the one found later in the walk. */
  predicate Before(files: seq<FileInfo>, mode: int, i: nat, j: nat)
    requires i < |files| && j < |files|
  {
    Key(files, mode, i) > Key(files, mode, j) || (Key(files, mode, i) == Key(files, mode, j) && i > j)
  }

  /** The total size of the walk. */
  function SumAll(files: seq<FileInfo>): nat
    decreases |files|
  {
    if files == [] then 0 else SumAll(files[..|files| - 1]) + files[|files| - 1].sizeBytes
  }

  /** The total size of the chosen files. */
  function SumSel(files: seq<FileInfo>, sel: seq<nat>): int
    requires forall k :: 0 <= k < |sel| ==> sel[k] < |files|
    decreases |sel|
  {
    if sel == [] then 0 else SumSel(files, sel[..|sel| - 1]) + files[sel[|sel| - 1]].sizeBytes
  }

  /** The position in `remaining` of the file that goes first. */
  method PickFirst(files: seq<FileInfo>, mode: int, remaining: seq<nat>) returns (best: nat)
    requires |remaining| > 0
    requires forall k :: 0 <= k < |remaining| ==> remaining[k] < |files|
    ensures best < |remaining|
    ensures forall j :: 0 <= j < |remaining| && remaining[j] != remaining[best] ==>
      Before(files, mode, remaining[best], remaining[j])
  {
    best := 0;
    var t := 1;
    while t < |remaining|
      invariant best < t <= |remaining|
      invariant forall j :: 0 <= j < t && remaining[j] != remaining[best] ==>
        Before(files, mode, remaining[best], remaining[j])
    {
      if Before(files, mode, remaining[t], remaining[best]) {
        best := t;
      }
      t := t + 1;
    }
  }

  /** The directories `clean` removes: the direct children with no entries. */
  function EmptyDirs(top: seq<Entry>): (r: set<string>)
    ensures forall e :: e in top && e.entries == 0 ==> e.name in r
    ensures forall d :: d in r ==> exists e :: e in top && e.name == d && e.entries == 0
  {
    set e | e in top && e.entries == 0 :: e.name
  }

  // ---- the loop state of `clean` ----

  /** Every file is either chosen or still to be considered; the files
      still to be considered are listed once each. */
  predicate Partition(files: seq<FileInfo>, remaining: seq<nat>, chosen: seq<nat>) {
    (forall k :: 0 <= k < |remaining| ==> remaining[k] < |files|) &&
    (forall a, b :: 0 <= a < b < |remaining| ==> remaining[a] != remaining[b]) &&
    (forall k :: 0 <= k < |chosen| ==> chosen[k] < |files|) &&
    (forall i :: 0 <= i < |files| ==> i in chosen || i in remaining)
  }

  /** The chosen files are in eviction order and come before the rest. */
  predicate Ordered(files: seq<FileInfo>, mode: int, remaining: seq<nat>, chosen: seq<nat>)
    requires Partition(files, remaining, chosen)
  {
    (forall a, b :: 0 <= a < b < |chosen| ==> Before(files, mode, chosen[a], chosen[b])) &&
    (forall k, j :: 0 <= k < |chosen| && 0 <= j < |remaining| ==> Before(files, mode, chosen[k], remaining[j]))
  }

  /** Each file was chosen while the total without the earlier choices
      still exceeded the limit. */
  predicate Minimal(files: seq<FileInfo>, limit: int, chosen: seq<nat>)
    requires forall k :: 0 <= k < |chosen| ==> chosen[k] < |files|
  {
    forall k :: 0 <= k < |chosen| ==> SumAll(files) - SumSel(files, chosen[..k]) > limit
  }

  /** The list `remaining` without its element at `best`. */
  function Without(remaining: seq<nat>, best: nat): (r: seq<nat>)
    requires best < |remaining|
    ensures |r| == |remaining| - 1
    ensures forall j :: 0 <= j < |r| ==> r[j] == if j < best then remaining[j] else remaining[j + 1]
  {
    remaining[..best] + remaining[best + 1..]
  }

  /** Before the first choice every file is still to be considered. */
  lemma InitialState(files: seq<FileInfo>, mode: int)
    ensures Partition(files, seq(|files|, i => i), [])
    ensures Ordered(files, mode, seq(|files|, i => i), [])
  {
    var remaining: seq<nat> := seq(|files|, i => i);
    forall i | 0 <= i < |files|
      ensures i in remaining
    {
      assert remaining[i] == i;
    }
  }

  lemma PartitionStep(files: seq<FileInfo>, remaining: seq<nat>, chosen: seq<nat>, best: nat)
    requires Partition(files, remaining, chosen) && best < |remaining|
    ensures Partition(files, Without(remaining, best), chosen + [remaining[best]])
    ensures remaining[best] !in Without(remaining, best)
  {
    var p, rest := remaining[best], Without(remaining, best);
    forall i | 0 <= i < |files|
      ensures i in chosen + [p] || i in rest
    {
      if i !in chosen && i != p {
        var j :| 0 <= j < |remaining| && remaining[j] == i;
        assert rest[if j < best then j else j - 1] == i;
      }
    }
  }

  lemma OrderedStep(files: seq<FileInfo>, mode: int, remaining: seq<nat>, chosen: seq<nat>, best: nat)
    requires Partition(files, remaining, chosen) && Ordered(files, mode, remaining, chosen)
    requires best < |remaining|
    requires forall j :: 0 <= j < |remaining| && remaining[j] != remaining[best] ==>
      Before(files, mode, remaining[best], remaining[j])
    ensures Partition(files, Without(remaining, best), chosen + [remaining[best]])
    ensures Ordered(files, mode, Without(remaining, best), chosen + [remaining[best]])
  {
    PartitionStep(files, remaining, chosen, best);
  }

  lemma MinimalStep(files: seq<FileInfo>, limit: int, chosen: seq<nat>, p: nat)
    requires forall k :: 0 <= k < |chosen| ==> chosen[k] < |files|
    requires p < |files|
    requires Minimal(files, limit, chosen) && SumAll(files) - SumSel(files, chosen) > limit
    ensures Minimal(files, limit, chosen + [p])
    ensures SumSel(files, chosen + [p]) == SumSel(files, chosen) + files[p].sizeBytes
  {
    var c := chosen + [p];
    assert c[..|chosen|] == chosen;
    assert forall k :: 0 <= k < |chosen| ==> c[..k] == chosen[..k];
  }

  method Clean(files: seq<FileInfo>, top: seq<Entry>, maxSizeMb: int, mode: int)
    returns (r: Result<Report, CleanError>)
    ensures r.Err? <==> mode != ByModTime && mode != BySize
    ensures r.Ok? ==> r.value.remaining == files
    ensures r.Ok? ==> r.value.removedDirs == EmptyDirs(top)
    ensures r.Ok? ==>
      var c := r.value.chosen;
      (forall k :: 0 <= k < |c| ==> c[k] < |files|) &&
      |r.value.reported| == |c| &&
      (forall k :: 0 <= k < |c| ==> r.value.reported[k] == files[c[k]].path) &&
      // chosen in eviction order ...
      (forall a, b :: 0 <= a < b < |c| ==> Before(files, mode, c[a], c[b])) &&
      // ... and before every file not chosen
      (forall k, i :: 0 <= k < |c| && 0 <= i < |files| && i !in c ==> Before(files, mode, c[k], i)) &&
      // each choice was made while the rest still exceeded the limit ...
      (forall k :: 0 <= k < |c| ==> SumAll(files) - SumSel(files, c[..k]) > Limit(maxSizeMb)) &&
      // ... and choosing stops at the limit or when every file is chosen
      (SumAll(files) - SumSel(files, c) <= Limit(maxSizeMb) || forall i :: 0 <= i < |files| ==> i in c)
    ensures r.Ok? && SumAll(files) <= Limit(maxSizeMb) ==> r.value.chosen == []
  {
    if mode != ByModTime && mode != BySize {
      return Err(BadMethodCall);
    }
    var sizeSum := SumAll(files);
    var remaining: seq<nat> := seq(|files|, i => i);
    var chosen: seq<nat> := [];
    var reported: seq<string> := [];
    InitialState(files, mode);
    while sizeSum > Limit(maxSizeMb) && |remaining| > 0
      invariant Partition(files, remaining, chosen)
      invariant Ordered(files, mode, remaining, chosen)
      invariant Minimal(files, Limit(maxSizeMb), chosen)
      invariant sizeSum == SumAll(files) - SumSel(files, chosen)
      invariant |reported| == |chosen|
      invariant forall k :: 0 <= k < |chosen| ==> reported[k] == files[chosen[k]].path
      decreases |remaining|
    {
      var best := PickFirst(files, mode, remaining);
      var p := remaining[best];
      OrderedStep(files, mode, remaining, chosen, best);
      MinimalStep(files, Limit(maxSizeMb), chosen, p);
      sizeSum := sizeSum - files[p].sizeBytes;
      chosen := chosen + [p];
      reported := reported + [files[p].path];
      remaining := Without(remaining, best);
    }
    assert |chosen| > 0 ==> chosen[..0] == [];
    r := Ok(Report(chosen, reported, EmptyDirs(top), files));
  }
}
