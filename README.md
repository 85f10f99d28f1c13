# Split and merge of chunked CSV archives

Two scripts form one round trip:

- `split_and_zip_data` cuts a CSV table into numbered chunks. For each chunk it writes `{base}_part_{idx}.csv` and a single-entry archive `{base}_part_{idx}.zip`.
- `merge_zipped_data` finds the part archives with a glob pattern and sorts their names as strings. For each archive it opens the name of the first `.csv` entry, appends the tables read, and writes the result. When several entries share that name, the zip reader opens the last of them.
- `merge_zipped_data_with_cleanup` runs the merge and then, if asked, removes every file matching a derived pattern.

The model works over an abstract directory. `Storage.Directory` is a class with two fields:

- `present`, which says whether the directory exists.
- `files`, a map from bare file name to content.

A content is one of three things:

- a CSV file holding a `Table` (a header row and data rows);
- an archive, which is a sequence of named entries, each parsed to a table or unparseable;
- `Corrupt`, for bytes that are neither.

The two loops that write or delete files are methods that update that map. Each is proved against a function of the old state:

- `SplitFiles` describes the split.
- `MergeOf` and `AfterMerge` describe the merge.
- `Cleaned` describes the cleanup.

The lemmas state what the scripts promise about those functions. The main ones:

- The chunks concatenate back to the rows.
- The produced names are distinct.
- Re-running a split adds no file.
- The merge writes output exactly when some archive reads.
- Cleanup removes every merged archive that can be removed.
- Splitting and then merging with the same base gives back the table when four conditions hold: the split made at most ten parts, the base is non-empty, the base holds no `?` or `[`, and no other file in the directory matches `{base}_part_*.zip`. A leftover archive from an earlier, longer split under the same base would be merged too.
- From eleven parts on, `sorted` no longer follows index order, because string order puts `_part_10` before `_part_2`.

Modules:

- `Wrappers`: `Option`.
- `Strings`: Python `str` ordering, `endswith`, `rfind`, `replace`, `str(int)` and truthiness.
- `Paths`: `os.path.join`, `os.path.basename` and `pathlib` stem.
- `Glob`: `*`-only `fnmatch`, the hidden-file rule of `glob`, and `sorted`.
- `Storage`: tables, archives and the directory.
- `Splitter`: `split_data_file.py`.
- `Merger`: `merge_data_files.py`.
- `RoundTrip`: the facts that involve both files.

## Model

| member | source | states |
|---|---|---|
| Splitter.BaseForChoice | split_data_file.py:25-28 | The base is `base_name` when it is non-empty. An empty or absent `base_name` gives the stem of `csv_path`. |
| Merger.SearchPatternChoice | merge_data_files.py:24-27 | A non-empty `base_name` gives `{base_name}_part_*.zip` whatever `pattern` is. An empty or absent one gives `pattern` unchanged. |
| Merger.CleanupPatternChoice | merge_data_files.py:104-107 | A non-empty `base_name` gives `{base_name}_part_*.*` whatever `pattern` is. Otherwise the pattern is `pattern.replace('.zip', '.*')`, which turns the default `*_part_*.zip` into `*_part_*.*`. |
| Strings.ReplaceAllAbsent | merge_data_files.py:107 | A pattern in which ".zip" does not occur is left unchanged by `replace`. |
| Strings.ReplaceAllOnce | merge_data_files.py:107 | Scanning from the left, the first occurrence is replaced and the scan resumes after it, so occurrences never overlap. |
| Paths.StemOf | split_data_file.py:28 | The stem is the whole name when the name has no inner suffix. Otherwise it is the part before the last '.', which is neither the first nor the last character, and no '.' follows it. |
| Splitter.ChunksFlatten | split_data_file.py:20 | Appending the chunks in index order gives back exactly the source rows. |
| Splitter.ChunkAt | split_data_file.py:20 | Chunk `i` is the contiguous slice of rows that starts at `i * chunk_size` and ends at the next multiple or at the end of the table. |
| Splitter.ChunkLengths | split_data_file.py:20 | Every chunk has at most `chunk_size` rows, and every chunk except the last has exactly `chunk_size`. |
| Splitter.ChunksCount | split_data_file.py:20 | With `R > 0` rows the chunk count `n` satisfies `(n-1)*size < R <= n*size`. With no rows the reader yields one empty chunk. |
| Splitter.ChunksCountCeiling | split_data_file.py:20 | With `R > 0` rows there are `ceil(R / chunk_size)` chunks. |
| Splitter.PartNameInjective | split_data_file.py:35 | Two part names with extensions of equal length are equal only for the same index and the same extension. |
| Splitter.SplitFilesKeys | split_data_file.py:33-42 | After a split the directory holds its old names plus, for each chunk, one CSV name and one archive name, and nothing else. |
| Splitter.SplitFilesAt | split_data_file.py:35-42 | File `{base}_part_{i}.csv` holds chunk `i` under the header. Archive `{base}_part_{i}.zip` holds one entry, named by the CSV path's base name, which holds that chunk. |
| Splitter.SplitFilesElsewhere | split_data_file.py:33-42 | A file whose name is none of the produced names is left as it was. |
| Splitter.SplitIdempotent | split_data_file.py:35-41 | Splitting the same rows under the same base again overwrites the same files and leaves the directory as the first split left it. |
| Splitter.WriteChunks | split_data_file.py:33-44 | If the reader raises on chunk `k`, the loop stops there. It writes parts up to that point, or all of them, and leaves the directory as `SplitFiles` of those chunks gives. `chunk_files` and `zip_files` hold the joined paths of the same parts, in index order. |
| Splitter.PartPathsAt | split_data_file.py:35-44 | Entry `i` of each path list is `{base}_part_{i}` with the list's extension, joined to the output directory. |
| Splitter.SplitAndZip | split_data_file.py:6-46 | A directory that does not exist yet holds no files. The output directory exists afterwards. A chunk size below 1, or a source the reader cannot open, fails with the files unchanged. A reader that raises on chunk `k` leaves parts `0 .. k-1` written and the exception raised. Otherwise the directory is the split of the old one and both path lists have one entry per chunk. `zip_file` affects nothing. |
| Merger.SearchWithinCleanup | merge_data_files.py:104-107 | Every name the merge's pattern matches, the cleanup's pattern matches too, with or without a base name. |
| Merger.SearchGlobWithinCleanup | merge_data_files.py:109 | The cleanup's glob finds every file the merge's glob found. |
| Merger.CsvEntries | merge_data_files.py:47 | The listed entries are exactly the archive's entries whose names end in ".csv". |
| Merger.CsvEntriesHead | merge_data_files.py:47-54 | `csv_files` is empty exactly when no entry ends in ".csv". Otherwise `csv_files[0]` is the first such entry in archive order. |
| Merger.LastNamed | merge_data_files.py:55 | `zipf.open(csv_name)` reaches an entry with that name, and no later entry has it. The result is -1 only when no entry has the name. |
| Merger.ReadArchiveFirstCsv | merge_data_files.py:44-69 | An archive is skipped for lack of a CSV entry exactly when it has none. Otherwise the first CSV entry's name is opened, which reaches the last entry listed under that name. The archive yields a table exactly when that entry parses, and the table is that entry's. Every other case is a failed read, including a file that is not an archive. |
| Merger.ReadArchiveDistinctNames | merge_data_files.py:47-56 | When no two entries share a name, an archive reads as its first CSV entry's table, and does so exactly when that entry parses. |
| Merger.SkippedOf | merge_data_files.py:49-51 | Every skipped name is one of the names looked at and was unreadable for the recorded reason. Every unreadable name is recorded. |
| Merger.Successes | merge_data_files.py:54-63 | No table is read exactly when every archive looked at is skipped. |
| Merger.MergeFoldIsConcatenation | merge_data_files.py:41-69 | The accumulated table holds the rows of every archive that was read, in the order visited, under the first one's header. It is absent exactly when nothing was read. |
| Merger.MergeArchives | merge_data_files.py:41-69 | The loop's accumulator and skip list equal the fold over the sorted names. |
| Merger.MergeWritesIffSomeRead | merge_data_files.py:72-74 | The merge writes output exactly when some matching archive reads. The table then holds all read rows in sorted name order. |
| Merger.AfterMerge | merge_data_files.py:72-81 | Only a merged table is written, to `output_file`. Every other file keeps its content, and without a merged table nothing changes. |
| Merger.MergeZipped | merge_data_files.py:18-81 | A missing directory fails and leaves everything unchanged. Otherwise the search pattern is `{base}_part_*.zip` or `pattern`, names are visited in ascending string order, and the outcome and the directory are the ones `MergeOf` and `AfterMerge` give. |
| Glob.SortedGlob | merge_data_files.py:30 | The matching names, each once, in strictly ascending string order. |
| Glob.LiteralMatch | merge_data_files.py:30 | A pattern without `*` matches exactly itself. |
| Glob.StarAbsorbs | merge_data_files.py:30 | A leading `*` matches any run of characters in front of what the rest of the pattern matches. |
| Glob.MatchConcat | merge_data_files.py:30 | Matched pieces concatenate: two patterns matching two names make one pattern that matches the joined name. |
| Glob.MatchSplit | merge_data_files.py:30 | Conversely, a name matching a concatenated pattern splits into two pieces that match the parts. |
| Glob.LiteralSuffix | merge_data_files.py:30 | A pattern ending in a literal such as ".zip" matches only names with that ending. |
| Glob.ReplaceZipWidens | merge_data_files.py:107-109 | Turning every ".zip" of a pattern into ".*" keeps every name the pattern matched. |
| Strings.LessIrreflexive | merge_data_files.py:30 | No name sorts before itself. |
| Strings.LessTransitive | merge_data_files.py:30 | The string order `sorted` uses is transitive. |
| Strings.LessTotal | merge_data_files.py:30 | Of two different names, one sorts before the other. |
| Strings.LessCommonPrefix | merge_data_files.py:30 | A common prefix does not change how two names compare. |
| Merger.Cleaned | merge_data_files.py:109-116 | A cleaned directory keeps exactly the non-matching files and the matching ones that refuse removal, each with its content. |
| Merger.RemoveFiles | merge_data_files.py:111-116 | Every file to remove is gone afterwards unless its removal fails. A failed removal does not stop the loop, and no other file changes. |
| Merger.MergeWithCleanup | merge_data_files.py:98-116 | The merge always runs first. When `cleanup` is set, and unless the merge raised FileNotFoundError for a missing directory, every file matching `{base}_part_*.*`, or `pattern` with ".zip" turned into ".*", is removed unless removal fails. Cleanup also runs when nothing matched or no archive could be read. |
| Merger.CleanupRemovesArchives | merge_data_files.py:101-116 | With cleanup on, every archive the merge looked at is gone afterwards unless its removal failed. |
| RoundTrip.PartMatches | merge_data_files.py:25 | The pattern `{base}_part_*.zip` matches every produced archive name and no produced CSV name. |
| RoundTrip.PartCleanupMatches | merge_data_files.py:105 | The pattern `{base}_part_*.*` matches both files of every chunk. |
| RoundTrip.SplitArchivesFound | merge_data_files.py:25-30 | Right after a split, the merge with the same base finds exactly the archives written, provided no other file matches. |
| RoundTrip.ChunkArchiveReads | merge_data_files.py:47-56 | A written archive reads back as its chunk, because its single entry is named `*.csv`. |
| RoundTrip.TenBeforeTwo | merge_data_files.py:30 | Part 10 sorts before part 2. |
| RoundTrip.SortedIndexOrderIff | merge_data_files.py:30 | The sorted part names are in index order if and only if there are at most ten parts. |
| RoundTrip.SplitThenMerge | merge_data_files.py:25-74 | Consider a split into at most ten chunks under a non-empty base with no `?` or `[`, followed by a merge with that base. The merge gives back the original table and skips nothing, whatever `pattern` is, provided no other file looks like one of the archives. |
| Strings.DecimalString | split_data_file.py:35 | `str(idx)` is a non-empty run of decimal digits, one digit long exactly for `idx < 10`. |
| Strings.DecimalStringInjective | split_data_file.py:35 | Different indices give different digit strings. |
| Paths.BaseNameShape | split_data_file.py:42 | `os.path.basename` gives the longest slash-free ending of the path. |
| Paths.JoinKeepsOrder | merge_data_files.py:25-30 | Within one directory, joined paths sort as the bare names do, so sorting names models sorting paths. |

## Left out

- CSV parsing and writing (`pd.read_csv`, `to_csv`) are not modelled. A chunk written as CSV reads back as the same table, and a source file is given as an optional table.
- The pandas chunked reader's internals are not modelled. A table with no data rows yields one empty chunk. A chunk size below 1 is refused after the directory has been created.
- The zip format and DEFLATE compression are not modelled. An archive is its entry list, and `Corrupt` stands for a file the zip reader refuses.
- The filesystem's failure causes are not modelled. The set `undeletable` names the files whose `os.remove` raises. A missing input directory is the `present` flag.
- Splitter.SplitAndZip does not model which rows the reader fails to parse. The chunk on which it raises is a parameter, `failsAt`.
- An empty merge `pattern` or one ending in '/' is not modelled. There the real glob returns the directory itself, whose open fails, so the program reports no data where the model reports no archives; the files are the same either way.
- Glob metacharacters other than `*` (`?`, `[...]`) are not modelled. Neither are names holding '/', glob matching subdirectories, or recursive patterns.
- `os.path.join` with an `output_file` that holds '/' or names another directory is not modelled. Files are keyed by bare name inside one directory.
- Column alignment in `pd.concat` when two archives have different headers is not modelled. The merged table keeps the first header and appends the rows.
- The `print` progress and warning messages are not modelled, and neither are the `__main__` blocks.
- Merger.MergeOf (a ghost function) is defined with a sort specified as a function, `SortSet`. `MergeZipped` computes it with a selection loop in `Glob.SortedGlob`.
- Merger.RemoveFiles: the order of `files_to_remove` is not modelled, because `glob` lists names in an unspecified order. The loop takes the names of a set in any order, which does not affect the result.
- Paths.StemOf follows the `pathlib` rule of Python 3.13 and earlier. Python 3.14 changed how a name ending in '.' is split.
- RoundTrip.SplitThenMerge assumes at most ten parts. SortedIndexOrderIff shows that with more parts the merge visits them out of index order.
- RoundTrip.SplitThenMerge requires a base without `?` or `[`. The real glob reads those as metacharacters, so it can miss the written archives or pick up other files.
