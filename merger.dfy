/**
 * `merge_zipped_data` and `merge_zipped_data_with_cleanup`: find the part
 * archives in a directory, read the first CSV entry of each one in sorted
 * name order, append the tables, write the result, and optionally remove
 * the intermediate files.
 */
module Merger {
  import opened Wrappers
  import opened Strings
  import opened Storage
  import opened Glob

  // ------------------------------------------------------------------
  // Patterns
  // ------------------------------------------------------------------

  /** The archives to merge: `{base_name}_part_*.zip` when the base name is truthy, else `pattern`. */
  function SearchPattern(pattern: string, baseName: Option<string>): string
  {
    if Truthy(baseName) then baseName.value + "_part_*.zip" else pattern
  }

  /** The files to remove: `{base_name}_part_*.*`, else `pattern` with every ".zip" turned into ".*". */
  function CleanupPattern(pattern: string, baseName: Option<string>): string
  {
    if Truthy(baseName) then baseName.value + "_part_*.*" else ReplaceAll(pattern, ".zip", ".*")
  }

  /**
   * A non-empty base name decides the search pattern and `pattern` is then
   * ignored; an empty or absent one leaves `pattern` as given.
   */
  lemma SearchPatternChoice(pattern: string, other: string, b: string)
    ensures SearchPattern(pattern, Some("")) == SearchPattern(pattern, None) == pattern
    ensures b != "" ==> SearchPattern(pattern, Some(b)) == SearchPattern(other, Some(b)) == b + "_part_*.zip"
  {
  }

  /**
   * The cleanup pattern widens the base's archives to every extension; without
   * a base it is `pattern` with ".zip" widened, which for the default pattern
   * `*_part_*.zip` is `*_part_*.*`.
   */
  lemma CleanupPatternChoice(pattern: string, other: string, b: string)
    ensures b != "" ==> CleanupPattern(pattern, Some(b)) == CleanupPattern(other, Some(b)) == b + "_part_*.*"
    ensures CleanupPattern(pattern, Some("")) == CleanupPattern(pattern, None) == ReplaceAll(pattern, ".zip", ".*")
    ensures CleanupPattern("*_part_*.zip", None) == "*_part_*.*"
  {
    var prefix := "*_part_*";
    assert "*_part_*.zip" == prefix + ".zip" + "";
    forall i | 0 <= i < |prefix|
      ensures !OccursAt(prefix + ".zip" + "", ".zip", i)
    {
      assert (prefix + ".zip" + "")[i] == prefix[i] != '.';
    }
    ReplaceAllOnce(prefix, ".zip", ".*", "");
    assert prefix + ".*" + "" == "*_part_*.*";
  }

  /** Every name the merge looks at is also a name the cleanup removes. */
  lemma SearchWithinCleanup(pattern: string, baseName: Option<string>, name: string)
    requires GlobMatch(SearchPattern(pattern, baseName), name)
    ensures GlobMatch(CleanupPattern(pattern, baseName), name)
  {
    if Truthy(baseName) {
      var q := baseName.value + "_part_*";
      assert SearchPattern(pattern, baseName) == q + ".zip";
      assert CleanupPattern(pattern, baseName) == q + ".*";
      WidenZipSuffix(q, name);
      assert Hidden(q + ".zip") <==> Hidden(q + ".*");
    } else {
      ReplaceZipGlobWidens(pattern, name);
    }
  }

  /** The files the cleanup globs include every archive the merge globbed. */
  lemma SearchGlobWithinCleanup(files: Files, pattern: string, baseName: Option<string>)
    ensures GlobSet(files, SearchPattern(pattern, baseName)) <= GlobSet(files, CleanupPattern(pattern, baseName))
  {
    forall name | name in GlobSet(files, SearchPattern(pattern, baseName))
      ensures name in GlobSet(files, CleanupPattern(pattern, baseName))
    {
      SearchWithinCleanup(pattern, baseName, name);
    }
  }

  // ------------------------------------------------------------------
  // Reading one archive (the body of the `try`)
  // ------------------------------------------------------------------

  predicate IsCsvName(name: string)
  {
    EndsWith(name, ".csv")
  }

  /** `[f for f in zipf.namelist() if f.endswith('.csv')]`, kept with the entries' payloads. */
  function CsvEntries(entries: seq<Entry>): (r: seq<Entry>)
    ensures |r| <= |entries|
    ensures forall k :: 0 <= k < |r| ==> r[k] in entries && IsCsvName(r[k].name)
    ensures forall k :: 0 <= k < |entries| && IsCsvName(entries[k].name) ==> entries[k] in r
  {
    if entries == [] then []
    else (if IsCsvName(entries[0].name) then [entries[0]] else []) + CsvEntries(entries[1..])
  }

  /** The position of the first CSV entry, or `|entries|` when there is none. */
  function FirstCsv(entries: seq<Entry>): (i: nat)
    ensures i <= |entries|
    ensures i < |entries| ==> IsCsvName(entries[i].name)
    ensures forall j :: 0 <= j < i ==> !IsCsvName(entries[j].name)
  {
    if entries == [] then 0
    else if IsCsvName(entries[0].name) then 0
    else 1 + FirstCsv(entries[1..])
  }

  /** `csv_files[0]` is the first entry, in archive order, whose name ends in ".csv". */
  lemma {:induction false} CsvEntriesHead(entries: seq<Entry>)
    ensures CsvEntries(entries) == [] <==> FirstCsv(entries) == |entries|
    ensures CsvEntries(entries) != [] ==> CsvEntries(entries)[0] == entries[FirstCsv(entries)]
  {
    if entries != [] && !IsCsvName(entries[0].name) {
      CsvEntriesHead(entries[1..]);
      assert CsvEntries(entries) == CsvEntries(entries[1..]);
    }
  }

  datatype Skip =
    | NoCsvEntry   // the archive opened but lists no ".csv" entry: `continue`
    | ReadFailed   // opening the archive or parsing its entry raised: `except ... continue`

  datatype ReadResult = Read(table: Table) | Unread(reason: Skip)

  /**
   * The entry `zipf.open(name)` opens. The zip reader indexes the entries by
   * name while listing them, so of several entries sharing a name the last
   * one wins; -1 when no entry has the name.
   */
  function LastNamed(entries: seq<Entry>, name: string): (i: int)
    ensures -1 <= i < |entries|
    ensures i >= 0 ==> entries[i].name == name
    ensures forall j :: i < j < |entries| ==> entries[j].name != name
  {
    if entries == [] then -1
    else if entries[|entries| - 1].name == name then |entries| - 1
    else LastNamed(entries[..|entries| - 1], name)
  }

  /** With distinct entry names, the entry opened by a name is the one listed under it. */
  lemma LastNamedDistinct(entries: seq<Entry>, k: nat)
    requires k < |entries|
    requires forall i, j :: 0 <= i < j < |entries| ==> entries[i].name != entries[j].name
    ensures LastNamed(entries, entries[k].name) == k
  {
  }

  /** What the `try` block makes of one file's content. */
  function ReadArchive(c: Content): ReadResult
  {
    match c
    case Archive(entries) =>
      var csvFiles := CsvEntries(entries);
      if csvFiles == [] then Unread(NoCsvEntry)
      else (
        var chosen := LastNamed(entries, csvFiles[0].name);
        if entries[chosen].payload.Parsed? then Read(entries[chosen].payload.table)
        else Unread(ReadFailed))
    case _ => Unread(ReadFailed)
  }

  /**
   * An archive is skipped for want of a CSV entry exactly when none of its
   * entries is named `*.csv`. Otherwise the name of the first such entry is
   * opened, which reaches the last entry listed under that name; the archive
   * yields a table exactly when that entry parses, and the table is that
   * entry's. Anything else is skipped as a failed read, and so is a file
   * that is not an archive.
   */
  lemma ReadArchiveFirstCsv(c: Content)
    ensures ReadArchive(c) == Unread(NoCsvEntry) <==> c.Archive? && FirstCsv(c.entries) == |c.entries|
    ensures ReadArchive(c).Read? <==>
      && c.Archive? && FirstCsv(c.entries) < |c.entries|
      && var o := LastNamed(c.entries, c.entries[FirstCsv(c.entries)].name);
         0 <= o && c.entries[o].payload.Parsed?
    ensures ReadArchive(c).Read? ==>
      var o := LastNamed(c.entries, c.entries[FirstCsv(c.entries)].name);
      0 <= o && ReadArchive(c).table == c.entries[o].payload.table
  {
    if c.Archive? {
      CsvEntriesHead(c.entries);
    }
  }

  /** When no two entries share a name, the table read is that of the first CSV entry. */
  lemma ReadArchiveDistinctNames(c: Content)
    requires c.Archive?
    requires forall i, j :: 0 <= i < j < |c.entries| ==> c.entries[i].name != c.entries[j].name
    ensures ReadArchive(c).Read? <==>
      FirstCsv(c.entries) < |c.entries| && c.entries[FirstCsv(c.entries)].payload.Parsed?
    ensures ReadArchive(c).Read? ==> ReadArchive(c).table == c.entries[FirstCsv(c.entries)].payload.table
  {
    ReadArchiveFirstCsv(c);
    if FirstCsv(c.entries) < |c.entries| {
      LastNamedDistinct(c.entries, FirstCsv(c.entries));
    }
  }

  /** Reading the file `name`; a file that is gone raises, and is skipped like any error. */
  function ReadAt(files: Files, name: string): ReadResult
  {
    if name in files then ReadArchive(files[name]) else Unread(ReadFailed)
  }

  // ------------------------------------------------------------------
  // The loop over the archives
  // ------------------------------------------------------------------

  /** `merged_df = df` the first time, `pd.concat([merged_df, df], ignore_index=True)` after. */
  function Accumulate(merged: Option<Table>, t: Table): Table
  {
    if merged.None? then t else Table(merged.value.header, merged.value.rows + t.rows)
  }

  /** `merged_df` after processing `names` in order. */
  function MergeFold(files: Files, names: seq<string>): Option<Table>
  {
    if names == [] then None
    else
      var prev := MergeFold(files, names[..|names| - 1]);
      match ReadAt(files, names[|names| - 1])
      case Read(t) => Some(Accumulate(prev, t))
      case Unread(_) => prev
  }

  /** Processing one more archive. */
  lemma MergeFoldStep(files: Files, names: seq<string>, name: string)
    ensures MergeFold(files, names + [name])
         == if ReadAt(files, name).Read? then Some(Accumulate(MergeFold(files, names), ReadAt(files, name).table))
            else MergeFold(files, names)
  {
    assert (names + [name])[..|names|] == names;
  }

  datatype Skipped = Skipped(name: string, reason: Skip)

  /** The archives the loop skipped, in order, each with the reason it gave. */
  function SkippedOf(files: Files, names: seq<string>): (r: seq<Skipped>)
    ensures |r| <= |names|
    ensures forall k :: 0 <= k < |r| ==> r[k].name in names && ReadAt(files, r[k].name) == Unread(r[k].reason)
    ensures forall n :: n in names && ReadAt(files, n).Unread? ==> Skipped(n, ReadAt(files, n).reason) in r
  {
    if names == [] then []
    else
      var prev := SkippedOf(files, names[..|names| - 1]);
      var last := names[|names| - 1];
      match ReadAt(files, last)
      case Read(_) => prev
      case Unread(reason) => prev + [Skipped(last, reason)]
  }

  /** The tables that were read, in the order of `names`. */
  function Successes(files: Files, names: seq<string>): (r: seq<Table>)
    ensures |r| <= |names|
    ensures r == [] <==> forall n :: n in names ==> ReadAt(files, n).Unread?
  {
    if names == [] then []
    else
      var prev := Successes(files, names[..|names| - 1]);
      match ReadAt(files, names[|names| - 1])
      case Read(t) => prev + [t]
      case Unread(_) => prev
  }

  /** The rows of several tables, appended in order. */
  function RowsOf(tables: seq<Table>): seq<Row>
  {
    if tables == [] then [] else RowsOf(tables[..|tables| - 1]) + tables[|tables| - 1].rows
  }

  /**
   * The merged table is the concatenation of every table read, under the
   * header of the first one; there is none exactly when nothing was read.
   */
  lemma {:induction false} MergeFoldIsConcatenation(files: Files, names: seq<string>)
    ensures var ts := Successes(files, names);
      MergeFold(files, names) == if ts == [] then None else Some(Table(ts[0].header, RowsOf(ts)))
  {
    if names != [] {
      var init, last := names[..|names| - 1], names[|names| - 1];
      assert names == init + [last];
      MergeFoldIsConcatenation(files, init);
      MergeFoldStep(files, init, last);
      SuccessesStep(files, init, last);
      var ts := Successes(files, init);
      if ReadAt(files, last).Read? {
        var t := ReadAt(files, last).table;
        RowsOfStep(ts, t);
        if ts == [] {
          assert ts + [t] == [t] && RowsOf(ts) == [];
          assert RowsOf([t]) == t.rows;
          assert Table(t.header, t.rows) == t;
        } else {
          assert (ts + [t])[0] == ts[0];
        }
      }
    }
  }

  lemma SuccessesStep(files: Files, names: seq<string>, name: string)
    ensures Successes(files, names + [name])
         == if ReadAt(files, name).Read? then Successes(files, names) + [ReadAt(files, name).table]
            else Successes(files, names)
  {
    assert (names + [name])[..|names|] == names;
  }

  lemma RowsOfStep(tables: seq<Table>, t: Table)
    ensures RowsOf(tables + [t]) == RowsOf(tables) + t.rows
  {
    assert (tables + [t])[..|tables|] == tables;
  }

  // ------------------------------------------------------------------
  // `merge_zipped_data`
  // ------------------------------------------------------------------

  datatype MergeOutcome =
    | DirectoryNotFound                                // `FileNotFoundError` is raised
    | NoArchives                                       // no file matches: warns and returns
    | NothingMerged(skipped: seq<Skipped>)             // every archive skipped: nothing written
    | Merged(table: Table, skipped: seq<Skipped>)      // the merged table was written

  /** What a merge of `files`, with archives chosen by `search`, reports. */
  ghost function MergeOf(present: bool, files: Files, search: string): MergeOutcome
  {
    if !present then DirectoryNotFound
    else
      var names := SortSet(GlobSet(files, search));
      if names == [] then NoArchives
      else
        var merged := MergeFold(files, names);
        if merged.None? then NothingMerged(SkippedOf(files, names))
        else Merged(merged.value, SkippedOf(files, names))
  }

  /** The directory after the merge: the output file is written only for a merged table. */
  function AfterMerge(files: Files, outputFile: string, outcome: MergeOutcome): (r: Files)
    ensures outcome.Merged? ==> r.Keys == files.Keys + {outputFile} && r[outputFile] == Csv(outcome.table)
    ensures outcome.Merged? ==> forall n :: n in files && n != outputFile ==> r[n] == files[n]
    ensures !outcome.Merged? ==> r == files
  {
    if outcome.Merged? then files[outputFile := Csv(outcome.table)] else files
  }

  /**
   * The output file is written exactly when some matching archive yields a
   * table, and it then holds every such table's rows, in sorted name order,
   * under the first one's header.
   */
  lemma MergeWritesIffSomeRead(files: Files, search: string)
    ensures var names := SortSet(GlobSet(files, search));
      && (MergeOf(true, files, search).Merged? <==> exists n :: n in names && ReadAt(files, n).Read?)
      && (MergeOf(true, files, search).Merged? ==>
            var ts := Successes(files, names);
            MergeOf(true, files, search).table == Table(ts[0].header, RowsOf(ts)))
  {
    var names := SortSet(GlobSet(files, search));
    MergeFoldIsConcatenation(files, names);
  }

  /** One more name for the skip list. */
  lemma SkippedOfStep(files: Files, names: seq<string>, name: string)
    ensures SkippedOf(files, names + [name])
         == if ReadAt(files, name).Read? then SkippedOf(files, names)
            else SkippedOf(files, names) + [Skipped(name, ReadAt(files, name).reason)]
  {
    assert (names + [name])[..|names|] == names;
  }

  /** One turn of the loop over archive `idx` extends both the merge and the skipped list. */
  lemma MergeArchivesStep(files: Files, zipFiles: seq<string>, idx: nat)
    requires idx < |zipFiles|
    ensures var r := ReadAt(files, zipFiles[idx]);
      && MergeFold(files, zipFiles[..idx + 1])
         == (if r.Read? then Some(Accumulate(MergeFold(files, zipFiles[..idx]), r.table)) else MergeFold(files, zipFiles[..idx]))
      && SkippedOf(files, zipFiles[..idx + 1])
         == (if r.Read? then SkippedOf(files, zipFiles[..idx]) else SkippedOf(files, zipFiles[..idx]) + [Skipped(zipFiles[idx], r.reason)])
  {
    assert zipFiles[..idx + 1] == zipFiles[..idx] + [zipFiles[idx]];
    MergeFoldStep(files, zipFiles[..idx], zipFiles[idx]);
    SkippedOfStep(files, zipFiles[..idx], zipFiles[idx]);
  }

  /**
   * The `for zip_file in zip_files` loop: each archive that reads is appended
   * to `merged_df`, each one that does not is skipped with its reason.
   */
  method MergeArchives(files: Files, zipFiles: seq<string>) returns (merged: Option<Table>, skipped: seq<Skipped>)
    ensures merged == MergeFold(files, zipFiles)
    ensures skipped == SkippedOf(files, zipFiles)
  {
    merged, skipped := None, [];
    for idx := 0 to |zipFiles|
      invariant merged == MergeFold(files, zipFiles[..idx])
      invariant skipped == SkippedOf(files, zipFiles[..idx])
    {
      var zipFile := zipFiles[idx];
      MergeArchivesStep(files, zipFiles, idx);
      match ReadAt(files, zipFile)
      case Read(df) =>
        merged := Some(Accumulate(merged, df));
      case Unread(reason) =>
        skipped := skipped + [Skipped(zipFile, reason)];
    }
    assert zipFiles[..|zipFiles|] == zipFiles;
  }

  /** `merge_zipped_data(input_dir, output_file, pattern, base_name)`, with `dir` as `input_dir`. */
  method MergeZipped(dir: Directory, outputFile: string, pattern: string, baseName: Option<string>)
    returns (outcome: MergeOutcome)
    modifies dir
    ensures dir.present == old(dir.present)
    ensures outcome == MergeOf(old(dir.present), old(dir.files), SearchPattern(pattern, baseName))
    ensures dir.files == AfterMerge(old(dir.files), outputFile, outcome)
  {
    if !dir.present {
      return DirectoryNotFound;
    }
    var search := SearchPattern(pattern, baseName);
    var zipFiles := SortedGlob(dir.files, search);
    if zipFiles == [] {
      return NoArchives;
    }
    var merged, skipped := MergeArchives(dir.files, zipFiles);
    if merged.Some? {
      dir.files := dir.files[outputFile := Csv(merged.value)];
      outcome := Merged(merged.value, skipped);
    } else {
      outcome := NothingMerged(skipped);
    }
  }

  // ------------------------------------------------------------------
  // `merge_zipped_data_with_cleanup`
  // ------------------------------------------------------------------

  /** The directory after removing every file matching `pattern` except the ones that refuse removal. */
  function Cleaned(files: Files, pattern: string, undeletable: set<string>): (r: Files)
    ensures forall n :: n in r <==> n in files && (!GlobMatch(pattern, n) || n in undeletable)
    ensures forall n :: n in r ==> r[n] == files[n]
  {
    files - (GlobSet(files, pattern) - undeletable)
  }

  /**
   * `merge_zipped_data_with_cleanup(input_dir, output_file, pattern, base_name, cleanup)`.
   * `undeletable` holds the names whose `os.remove` raises; such a name is
   * reported and kept, and the loop goes on. A missing directory raises in
   * the merge, so no cleanup happens.
   */
  method MergeWithCleanup(dir: Directory, outputFile: string, pattern: string, baseName: Option<string>,
                          cleanup: bool, undeletable: set<string>)
    returns (outcome: MergeOutcome)
    modifies dir
    ensures dir.present == old(dir.present)
    ensures outcome == MergeOf(old(dir.present), old(dir.files), SearchPattern(pattern, baseName))
    ensures var merged := AfterMerge(old(dir.files), outputFile, outcome);
      dir.files == if cleanup && outcome != DirectoryNotFound
                   then Cleaned(merged, CleanupPattern(pattern, baseName), undeletable)
                   else merged
  {
    outcome := MergeZipped(dir, outputFile, pattern, baseName);
    if outcome == DirectoryNotFound || !cleanup {
      return;
    }
    var filesToRemove := GlobSet(dir.files, CleanupPattern(pattern, baseName));
    RemoveFiles(dir, filesToRemove, undeletable);
  }

  /**
   * `for file_path in files_to_remove: os.remove(file_path)`: a removal that
   * raises (a name in `undeletable`) is reported and the loop goes on.
   */
  method RemoveFiles(dir: Directory, filesToRemove: set<string>, undeletable: set<string>)
    modifies dir
    ensures dir.present == old(dir.present)
    ensures dir.files == old(dir.files) - (filesToRemove - undeletable)
  {
    var remaining := filesToRemove;
    while remaining != {}
      invariant dir.present == old(dir.present)
      invariant remaining <= filesToRemove
      invariant dir.files == old(dir.files) - ((filesToRemove - remaining) - undeletable)
      decreases |remaining|
    {
      var filePath :| filePath in remaining;
      if filePath !in undeletable {
        dir.files := dir.files - {filePath};
      }
      remaining := remaining - {filePath};
    }
    assert filesToRemove - remaining == filesToRemove;
  }

  /**
   * With cleanup on, every archive the merge looked at is gone afterwards,
   * unless its removal failed.
   */
  lemma CleanupRemovesArchives(files: Files, outputFile: string, pattern: string,
                               baseName: Option<string>, undeletable: set<string>, name: string)
    requires name in GlobSet(files, SearchPattern(pattern, baseName)) && name !in undeletable
    ensures var merged := AfterMerge(files, outputFile, MergeOf(true, files, SearchPattern(pattern, baseName)));
      name !in Cleaned(merged, CleanupPattern(pattern, baseName), undeletable)
  {
    SearchWithinCleanup(pattern, baseName, name);
  }
}
