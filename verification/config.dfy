/**
 * The `ExternalSort` constructors: optional configuration fields resolved to their defaults, and
 * the memory budget with its shares. The budget arithmetic of the source is floating point with
 * the factors 0.9, 0.2, 0.6, 0.8 and 0.1; here it is exact arithmetic on integer tenths.
 */
module Config {
  import opened Wrappers
  import opened Comparator

  /** `ExternalSortConfig` as a caller passes it; absent optional fields are `None`. */
  datatype Options = Options(
    outputFile: string,
    entryFile: string,
    chunkDir: string,
    orderBy: Option<string>,
    heatSize: nat,
    removeChunks: Option<bool>,
    useLocaleOrder: Option<bool>,
    chunksPointerLimit: Option<int>,
    chunkFilename: Option<string>)

  /** The fields an `ExternalSort` instance works with. */
  datatype Settings = Settings(
    outputFile: string,
    entryFile: string,
    heatSize: nat,
    chunkDir: string,
    removeChunks: bool,
    orderBy: SortOrder,
    useLocaleOrder: bool,
    limit: nat,
    chunkFilename: string)

  /** `Math.ceil(x * 0.9)` on a whole number, computed exactly. */
  function NinetyPercentUp(x: nat): (r: nat)
    ensures 10 * r >= 9 * x && 10 * r < 9 * x + 10
  {
    (9 * x + 9) / 10
  }

  /** The constructor of src/ExternalSort.ts. */
  function Configure(o: Options): (s: Settings)
    ensures s.limit >= 2
    ensures o.chunksPointerLimit.Some? && o.chunksPointerLimit.value >= 2 ==> s.limit == o.chunksPointerLimit.value
    ensures !(o.chunksPointerLimit.Some? && o.chunksPointerLimit.value >= 2) ==> s.limit == 50
    ensures s.removeChunks == (o.removeChunks == Some(true))
    ensures s.useLocaleOrder == (o.useLocaleOrder != Some(false))
    ensures s.orderBy == Desc <==> o.orderBy == Some("desc")
    ensures s.chunkFilename == (if o.chunkFilename.Some? then o.chunkFilename.value else "chunk")
    ensures s.heatSize == NinetyPercentUp(o.heatSize)
    ensures s.outputFile == o.outputFile && s.entryFile == o.entryFile && s.chunkDir == o.chunkDir
  {
    Settings(
      o.outputFile,
      o.entryFile,
      NinetyPercentUp(o.heatSize),
      o.chunkDir,
      o.removeChunks.GetOr(false),
      if o.orderBy.GetOr("asc") == "desc" then Desc else Asc,
      o.useLocaleOrder.GetOr(true),
      if o.chunksPointerLimit.Some? && o.chunksPointerLimit.value >= 2 then o.chunksPointerLimit.value else 50,
      o.chunkFilename.GetOr("chunk"))
  }

  /**
   * The constructors of the older ExternalSort.ts and ExternalSort.js: no cursor limit and no file
   * name prefix; ExternalSort.js lower-cases `orderBy` first.
   */
  function LegacyConfigure(o: Options, lowerCaseOrder: bool): (s: Settings)
    ensures s.removeChunks == (o.removeChunks == Some(true))
    ensures s.useLocaleOrder == (o.useLocaleOrder != Some(false))
    ensures !lowerCaseOrder ==> (s.orderBy == Desc <==> o.orderBy == Some("desc"))
    ensures lowerCaseOrder ==> s.orderBy == LegacyOrder(o.orderBy)
    ensures s.chunkFilename == "chunk"
    ensures s.heatSize == NinetyPercentUp(o.heatSize)
    ensures s.outputFile == o.outputFile && s.entryFile == o.entryFile && s.chunkDir == o.chunkDir
    ensures s.limit == 0
  {
    Settings(
      o.outputFile,
      o.entryFile,
      NinetyPercentUp(o.heatSize),
      o.chunkDir,
      o.removeChunks.GetOr(false),
      if lowerCaseOrder then LegacyOrder(o.orderBy) else if o.orderBy.GetOr("asc") == "desc" then Desc else Asc,
      o.useLocaleOrder.GetOr(true),
      0,
      "chunk")
  }

  /** `Math.floor(x * tenths / 10)` computed exactly. */
  function Share(x: nat, tenths: nat): (r: nat)
    ensures 10 * r <= tenths * x < 10 * r + 10
  {
    tenths * x / 10
  }

  /**
   * How a reader's `highWaterMark` comes from its share of the heat size: `Floored` as the source
   * computes it, where a share below one byte gives 0 and Node's read stream then ends without
   * reading anything; `AtLeastOne` raised to one byte, so every reader reads its whole file.
   */
  datatype Buffering = Floored | AtLeastOne

  /** The heat size of an instance and how its readers' buffers are derived from it. */
  datatype Reading = Reading(heat: nat, buffering: Buffering)

  function Buffer(b: Buffering, share: nat): nat {
    if b == AtLeastOne && share == 0 then 1 else share
  }

  /** `readerHeatSize` of `_SplitIntoChunks`: two tenths of the heat size. */
  function SplitReader(rd: Reading): nat {
    Buffer(rd.buffering, Share(rd.heat, 2))
  }

  /** `readerHeatSize` of `_MergeChunksByPointers` for `n` files: eight tenths of the heat size shared by `n`. */
  function MergeReader(rd: Reading, n: nat): nat
    requires n > 0
  {
    Buffer(rd.buffering, Share(rd.heat, 8) / n)
  }

  /** Every cursor of a merge of `n` files gets a buffer of at least one byte; vacuously so when there are none. */
  predicate MergeFed(rd: Reading, n: nat) {
    n == 0 || MergeReader(rd, n) >= 1
  }

  /** The reader of the entry file reads something exactly when buffers are raised or the heat size is at least 5. */
  lemma SplitReaderFeeds(rd: Reading)
    ensures SplitReader(rd) >= 1 <==> rd.buffering == AtLeastOne || rd.heat >= 5
  {
  }

  /** Each of `n` merge readers reads something exactly when buffers are raised or `10 * n <= 8 * heat`. */
  lemma MergeReaderFeeds(rd: Reading, n: nat)
    requires n > 0
    ensures MergeReader(rd, n) >= 1 <==> rd.buffering == AtLeastOne || 10 * n <= 8 * rd.heat
  {
    var s := Share(rd.heat, 8);
    assert s / n >= 1 <==> n <= s by {
      if n <= s {
        DivAtLeastOne(s, n);
      } else {
        assert s / n == 0;
      }
    }
  }

  lemma DivAtLeastOne(s: nat, n: nat)
    requires 0 < n <= s
    ensures s / n >= 1
  {
    assert s == n * (s / n) + s % n && s % n < n;
  }

  /** Fewer files share at least as much: a merge reader of a smaller merge gets at least one byte when one of a larger merge does. */
  lemma MergeReaderFewer(rd: Reading, n: nat, m: nat)
    requires 0 < n <= m && MergeReader(rd, m) >= 1
    ensures MergeReader(rd, n) >= 1
  {
    MergeReaderFeeds(rd, m);
    MergeReaderFeeds(rd, n);
  }

  /**
   * The configured heat size is `Math.ceil(heatSize * 0.9)`, so the entry file's reader of the
   * current sorter and of the older ones gets a buffer of 0 bytes exactly when `heatSize` is at most 4.
   */
  lemma ConfiguredSplitStarves(x: nat)
    ensures Share(NinetyPercentUp(x), 2) == 0 <==> x <= 4
  {
    var h := NinetyPercentUp(x);
    assert x <= 4 <==> h <= 4;
  }
}
