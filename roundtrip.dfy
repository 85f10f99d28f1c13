/**
 * Splitting a table and merging the archives back: the merge finds exactly
 * the archives the split wrote, reads each chunk back, and, as long as
 * there are at most ten parts, appends them in index order, giving back
 * the original table.
 */
module RoundTrip {
  import opened Wrappers
  import opened Strings
  import opened Paths
  import opened Storage
  import opened Glob
  import opened Splitter
  import opened Merger

  // ------------------------------------------------------------------
  // How `sorted` orders part names
  // ------------------------------------------------------------------

  /** Up to index 9 the names sort in index order. */
  lemma SingleDigitOrder(base: string, i: nat, j: nat, extension: string)
    requires i < j < 10
    ensures Less(PartName(base, i, extension), PartName(base, j, extension))
  {
    var prefix := base + "_part_";
    var a, b := [DigitChar(i)] + extension, [DigitChar(j)] + extension;
    assert PartName(base, i, extension) == prefix + a;
    assert PartName(base, j, extension) == prefix + b;
    assert a[0] < b[0];
    LessCommonPrefix(prefix, a, b);
  }

  /** Part 10 sorts before part 2: "10" < "2" on strings. */
  lemma TenBeforeTwo(base: string, extension: string)
    ensures Less(PartName(base, 10, extension), PartName(base, 2, extension))
  {
    var prefix := base + "_part_";
    assert DecimalString(10) == DecimalString(1) + [DigitChar(0)] == "10";
    var a, b := "10" + extension, "2" + extension;
    assert PartName(base, 10, extension) == prefix + a;
    assert PartName(base, 2, extension) == prefix + b;
    assert a[0] == '1' && b[0] == '2';
    LessCommonPrefix(prefix, a, b);
  }

  lemma PartNamesElements(base: string, n: nat, extension: string)
    ensures forall x :: x in PartNames(base, n, extension) <==> x in PartSet(base, n, extension)
  {
    var names := PartNames(base, n, extension);
    forall x | x in names
      ensures x in PartSet(base, n, extension)
    {
      var i :| 0 <= i < n && names[i] == x;
    }
    forall x | x in PartSet(base, n, extension)
      ensures x in names
    {
      var i :| 0 <= i < n && x == PartName(base, i, extension);
      assert names[i] == x;
    }
  }

  /**
   * `sorted` puts the parts of one split in index order exactly when there
   * are at most ten of them; from eleven parts on, part 10 comes before part 2.
   */
  lemma SortedIndexOrderIff(base: string, n: nat, extension: string)
    ensures SortSet(PartSet(base, n, extension)) == PartNames(base, n, extension) <==> n <= 10
  {
    var sorted, names := SortSet(PartSet(base, n, extension)), PartNames(base, n, extension);
    if n <= 10 {
      forall i, j | 0 <= i < j < |names|
        ensures Less(names[i], names[j])
      {
        SingleDigitOrder(base, i, j, extension);
      }
      PartNamesElements(base, n, extension);
      SortedUnique(sorted, names);
    } else {
      TenBeforeTwo(base, extension);
      LessAsymmetric(names[10], names[2]);
      assert !StrictlySorted(names);
    }
  }

  // ------------------------------------------------------------------
  // Which names the patterns pick up
  // ------------------------------------------------------------------

  /**
   * With a non-empty base, the merge pattern matches every archive name of
   * that base and no CSV name.
   */
  lemma PartMatches(base: string, i: nat)
    requires base != ""
    ensures GlobMatch(base + "_part_*.zip", PartName(base, i, ".zip"))
    ensures !GlobMatch(base + "_part_*.zip", PartName(base, i, ".csv"))
  {
    var prefix, digits := base + "_part_", DecimalString(i);
    TailMatches(".zip", digits);
    assert "*" + ".zip" == "*.zip";
    assert base + "_part_*.zip" == prefix + "*.zip";
    assert PartName(base, i, ".zip") == prefix + (digits + ".zip");
    PrefixMatch(prefix, "*.zip", digits + ".zip");
    var csv := PartName(base, i, ".csv");
    assert csv[|csv| - 4..][1] == 'c';
    assert base + "_part_*.zip" == (base + "_part_*") + ".zip";
    if FnMatch((base + "_part_*") + ".zip", csv) {
      LiteralSuffix(base + "_part_*", ".zip", csv);
      assert false;
    }
  }

  /** The cleanup pattern of a non-empty base matches both files of every chunk. */
  lemma PartCleanupMatches(base: string, i: nat)
    requires base != ""
    ensures GlobMatch(base + "_part_*.*", PartName(base, i, ".zip"))
    ensures GlobMatch(base + "_part_*.*", PartName(base, i, ".csv"))
  {
    var prefix, digits := base + "_part_", DecimalString(i);
    DotStarMatches("zip");
    DotStarMatches("csv");
    StarAbsorbs(".*", digits, ".zip");
    StarAbsorbs(".*", digits, ".csv");
    assert "*" + ".*" == "*.*";
    assert base + "_part_*.*" == prefix + "*.*";
    assert PartName(base, i, ".zip") == prefix + (digits + ".zip");
    assert PartName(base, i, ".csv") == prefix + (digits + ".csv");
    PrefixMatch(prefix, "*.*", digits + ".zip");
    PrefixMatch(prefix, "*.*", digits + ".csv");
  }

  lemma TailMatches(s: string, u: string)
    ensures FnMatch("*" + s, u + s)
  {
    SelfMatch(s);
    StarAbsorbs(s, u, s);
  }

  lemma PrefixMatch(prefix: string, tail: string, rest: string)
    requires prefix != [] && FnMatch(tail, rest)
    ensures GlobMatch(prefix + tail, prefix + rest)
  {
    SelfMatch(prefix);
    MatchConcat(prefix, prefix, tail, rest);
    assert (prefix + tail)[0] == prefix[0] == (prefix + rest)[0];
  }

  /**
   * Right after a split, the archives the merge pattern finds are exactly the
   * ones written, provided no other file of the directory matches it.
   */
  lemma SplitArchivesFound(files: Files, base: string, parts: seq<Part>)
    requires base != ""
    requires forall x :: x in files && GlobMatch(base + "_part_*.zip", x) ==> x in PartSet(base, |parts|, ".zip")
    ensures GlobSet(WriteParts(files, base, parts), base + "_part_*.zip") == PartSet(base, |parts|, ".zip")
  {
    var out, pattern, n := WriteParts(files, base, parts), base + "_part_*.zip", |parts|;
    WritePartsKeys(files, base, parts);
    forall x | x in out && GlobMatch(pattern, x)
      ensures x in PartSet(base, n, ".zip")
    {
      if x in PartSet(base, n, ".csv") {
        var i :| 0 <= i < n && x == PartName(base, i, ".csv");
        PartMatches(base, i);
        assert false;
      }
    }
    forall x | x in PartSet(base, n, ".zip")
      ensures x in out && GlobMatch(pattern, x)
    {
      var i :| 0 <= i < n && x == PartName(base, i, ".zip");
      PartMatches(base, i);
    }
  }

  // ------------------------------------------------------------------
  // Reading the chunks back
  // ------------------------------------------------------------------

  /** A written archive reads back as its chunk: its one entry is named `*.csv`. */
  lemma ChunkArchiveReads(outputDir: string, base: string, idx: nat, chunk: Table)
    ensures ReadArchive(ChunkArchive(outputDir, base, idx, chunk)) == Read(chunk)
  {
    var name := PartName(base, idx, ".csv");
    assert EndsWith(name, ".csv");
    JoinedCsvName(outputDir, name);
    SingleCsvEntryReads(BaseName(Join(outputDir, name)), chunk);
  }

  /** The base name of a joined `*.csv` name still ends in ".csv". */
  lemma JoinedCsvName(directory: string, name: string)
    requires EndsWith(name, ".csv")
    ensures IsCsvName(BaseName(Join(directory, name)))
  {
    var path := Join(directory, name);
    EndsWithTransitive(path, name, ".csv");
    BaseNameKeepsSuffix(path, ".csv");
  }

  /** An archive whose one entry is named `*.csv` and parses reads as that entry's table. */
  lemma SingleCsvEntryReads(name: string, chunk: Table)
    requires IsCsvName(name)
    ensures ReadArchive(Archive([Entry(name, Parsed(chunk))])) == Read(chunk)
  {
    var e := Entry(name, Parsed(chunk));
    assert CsvEntries([e]) == [e] + CsvEntries([]);
    assert LastNamed([e], name) == 0;
  }

  /** Archive `i` of a split reads back as chunk `i` under the header. */
  lemma ReadWrittenArchive(files: Files, outputDir: string, base: string, header: Row,
                           chunks: seq<seq<Row>>, i: nat)
    requires i < |chunks|
    ensures ReadAt(SplitFiles(files, outputDir, base, header, chunks), PartName(base, i, ".zip"))
         == Read(Table(header, chunks[i]))
  {
    SplitFilesAt(files, outputDir, base, header, chunks, i);
    ChunkArchiveReads(outputDir, base, i, Table(header, chunks[i]));
  }

  lemma FlattenPrefix(chunks: seq<seq<Row>>, m: nat)
    requires 0 < m <= |chunks|
    ensures Flatten(chunks[..m]) == Flatten(chunks[..m - 1]) + chunks[m - 1]
    ensures m == 1 ==> Flatten(chunks[..m]) == chunks[0]
  {
    assert chunks[..m] == chunks[..m - 1] + [chunks[m - 1]];
    FlattenAppend(chunks[..m - 1], chunks[m - 1]);
    assert chunks[..0] == [];
  }

  /** Archives that read back as the chunks: merging the first `m` gives those chunks, appended. */
  lemma {:induction false} MergeReadsChunks(out: Files, base: string, header: Row, chunks: seq<seq<Row>>, m: nat)
    requires m <= |chunks|
    requires forall i :: 0 <= i < |chunks| ==> ReadAt(out, PartName(base, i, ".zip")) == Read(Table(header, chunks[i]))
    ensures MergeFold(out, PartNames(base, m, ".zip"))
         == if m == 0 then None else Some(Table(header, Flatten(chunks[..m])))
  {
    if m > 0 {
      var k := m - 1;
      MergeReadsChunks(out, base, header, chunks, k);
      assert ReadAt(out, PartName(base, k, ".zip")) == Read(Table(header, chunks[k]));
      assert PartNames(base, m, ".zip") == PartNames(base, k, ".zip") + [PartName(base, k, ".zip")];
      MergeFoldStep(out, PartNames(base, k, ".zip"), PartName(base, k, ".zip"));
      FlattenPrefix(chunks, m);
    }
  }

  /** Archives that all read back: none of the first `m` is skipped. */
  lemma {:induction false} MergeSkipsNone(out: Files, base: string, header: Row, chunks: seq<seq<Row>>, m: nat)
    requires m <= |chunks|
    requires forall i :: 0 <= i < |chunks| ==> ReadAt(out, PartName(base, i, ".zip")) == Read(Table(header, chunks[i]))
    ensures SkippedOf(out, PartNames(base, m, ".zip")) == []
  {
    if m > 0 {
      var k := m - 1;
      assert PartNames(base, m, ".zip")[..k] == PartNames(base, k, ".zip");
      MergeSkipsNone(out, base, header, chunks, k);
    }
  }

  // ------------------------------------------------------------------
  // The round trip
  // ------------------------------------------------------------------

  /** Every archive a split writes reads back as its chunk under the header. */
  lemma SplitReadsBack(files: Files, outputDir: string, base: string, header: Row, chunks: seq<seq<Row>>)
    ensures forall i :: 0 <= i < |chunks| ==>
      ReadAt(SplitFiles(files, outputDir, base, header, chunks), PartName(base, i, ".zip")) == Read(Table(header, chunks[i]))
  {
    forall i | 0 <= i < |chunks|
      ensures ReadAt(SplitFiles(files, outputDir, base, header, chunks), PartName(base, i, ".zip"))
           == Read(Table(header, chunks[i]))
    {
      ReadWrittenArchive(files, outputDir, base, header, chunks, i);
    }
  }

  /**
   * When the archives the merge pattern finds are parts `0 .. n-1` with
   * `1 <= n <= 10`, the merge visits them in index order.
   */
  lemma MergeOfParts(out: Files, base: string, n: nat)
    requires 1 <= n <= 10
    requires GlobSet(out, base + "_part_*.zip") == PartSet(base, n, ".zip")
    ensures var names := PartNames(base, n, ".zip");
      MergeFold(out, names).Some? ==>
        MergeOf(true, out, base + "_part_*.zip") == Merged(MergeFold(out, names).value, SkippedOf(out, names))
  {
    SortedIndexOrderIff(base, n, ".zip");
  }

  /**
   * Splitting a table into chunks of `size` rows under a non-empty base and
   * merging with that base gives back the table and skips nothing, when the
   * split makes at most ten parts (`|rows| <= 10 * size`) and no other file
   * of the directory looks like one of its archives.
   */
  lemma SplitThenMerge(files: Files, outputDir: string, base: string, t: Table, size: nat, pattern: string)
    requires size > 0 && base != "" && |t.rows| <= 10 * size
    requires forall i :: 0 <= i < |base| ==> base[i] != '?' && base[i] != '['
    requires forall x :: x in files && GlobMatch(base + "_part_*.zip", x)
                         ==> x in PartSet(base, |Chunks(t.rows, size)|, ".zip")
    ensures MergeOf(true, SplitFiles(files, outputDir, base, t.header, Chunks(t.rows, size)),
                    SearchPattern(pattern, Some(base)))
         == Merged(t, [])
  {
    var chunks := Chunks(t.rows, size);
    var n := |chunks|;
    assert SearchPattern(pattern, Some(base)) == base + "_part_*.zip";
    ChunksCount(t.rows, size);
    if n > 10 {
      MultiplyMonotone(10, n - 1, size);
    }
    var parts := ChunkParts(outputDir, base, t.header, chunks);
    SplitArchivesFound(files, base, parts);
    var out := SplitFiles(files, outputDir, base, t.header, chunks);
    assert out == WriteParts(files, base, parts);
    assert GlobSet(out, base + "_part_*.zip") == PartSet(base, n, ".zip");
    SplitReadsBack(files, outputDir, base, t.header, chunks);
    ChunksFlatten(t.rows, size);
    MergeOfReadableParts(out, base, t.header, chunks);
  }

  /**
   * A directory whose merge pattern finds exactly parts `0 .. n-1`, with
   * `1 <= n <= 10`, each reading back as its chunk: the merge appends the
   * chunks in index order and skips nothing.
   */
  lemma MergeOfReadableParts(out: Files, base: string, header: Row, chunks: seq<seq<Row>>)
    requires 1 <= |chunks| <= 10
    requires GlobSet(out, base + "_part_*.zip") == PartSet(base, |chunks|, ".zip")
    requires forall i :: 0 <= i < |chunks| ==> ReadAt(out, PartName(base, i, ".zip")) == Read(Table(header, chunks[i]))
    ensures MergeOf(true, out, base + "_part_*.zip") == Merged(Table(header, Flatten(chunks)), [])
  {
    var n := |chunks|;
    MergeReadsChunks(out, base, header, chunks, n);
    MergeSkipsNone(out, base, header, chunks, n);
    assert chunks[..n] == chunks;
    MergeOfParts(out, base, n);
  }
}
