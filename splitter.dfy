/**
 * `split_and_zip_data`: cut a table into numbered chunks of at most
 * `chunk_size` rows, write each one as `{base}_part_{idx}.csv` and wrap it
 * in its own single-entry archive `{base}_part_{idx}.zip`.
 */
module Splitter {
  import opened Wrappers
  import opened Strings
  import opened Paths
  import opened Storage

  // ------------------------------------------------------------------
  // The base name
  // ------------------------------------------------------------------

  /** The prefix of every produced file: `base_name` when truthy, else the stem of `csv_path`. */
  function BaseFor(csvPath: string, baseName: Option<string>): string
  {
    if Truthy(baseName) then baseName.value else Stem(csvPath)
  }

  /** An empty `base_name` counts as absent; any other one is used as given. */
  lemma BaseForChoice(csvPath: string, b: string)
    ensures BaseFor(csvPath, Some("")) == BaseFor(csvPath, None) == Stem(csvPath)
    ensures b != "" ==> BaseFor(csvPath, Some(b)) == b
  {
  }

  // ------------------------------------------------------------------
  // Chunking, as `pd.read_csv(csv_path, chunksize=size)` delivers it
  // ------------------------------------------------------------------

  function Min(a: int, b: int): int
  {
    if a <= b then a else b
  }

  /**
   * The chunks the reader yields: full chunks of `size` rows and a shorter
   * last one. A table without data rows still yields one empty chunk.
   */
  function Chunks(rows: seq<Row>, size: nat): (chunks: seq<seq<Row>>)
    requires size > 0
    ensures |chunks| >= 1
    decreases |rows|
  {
    if |rows| <= size then [rows] else [rows[..size]] + Chunks(rows[size..], size)
  }

  /** Appending the chunks in index order gives back the rows. */
  lemma {:induction false} ChunksFlatten(rows: seq<Row>, size: nat)
    requires size > 0
    ensures Flatten(Chunks(rows, size)) == rows
    decreases |rows|
  {
    var chunks := Chunks(rows, size);
    if |rows| <= size {
      assert Flatten(chunks) == rows + Flatten([]);
    } else {
      ChunksFlatten(rows[size..], size);
      assert chunks[0] == rows[..size] && chunks[1..] == Chunks(rows[size..], size);
      assert rows == rows[..size] + rows[size..];
    }
  }

  /** Chunk `i` is the contiguous slice of rows starting at `i * size`. */
  lemma ChunkAt(rows: seq<Row>, size: nat, i: nat)
    requires size > 0 && i < |Chunks(rows, size)|
    ensures i * size <= |rows|
    ensures rows != [] ==> i * size < |rows|
    ensures Chunks(rows, size)[i] == rows[i * size .. Min(i * size + size, |rows|)]
  {
    ChunkAtOffset(rows, size, i);
    OffsetIsProduct(i, size);
  }

  /** `i * size`, counted up one chunk at a time. */
  function Offset(i: nat, size: nat): nat
  {
    if i == 0 then 0 else Offset(i - 1, size) + size
  }

  lemma {:induction false} OffsetIsProduct(i: nat, size: nat)
    ensures Offset(i, size) == i * size
  {
    if i > 0 {
      OffsetIsProduct(i - 1, size);
      assert (i - 1) * size + size == i * size;
    }
  }

  lemma ChunksMany(rows: seq<Row>, size: nat)
    requires size > 0 && |Chunks(rows, size)| > 1
    ensures |rows| > size
  {
  }

  /** Past the first chunk, the chunks are those of the rows after the first `size`. */
  lemma ChunksTail(rows: seq<Row>, size: nat, i: nat)
    requires size > 0 && 0 < i < |Chunks(rows, size)|
    ensures |rows| > size && i - 1 < |Chunks(rows[size..], size)|
    ensures Chunks(rows, size)[i] == Chunks(rows[size..], size)[i - 1]
  {
    ChunksMany(rows, size);
    var head, tail := [rows[..size]], Chunks(rows[size..], size);
    assert Chunks(rows, size) == head + tail;
    assert (head + tail)[i] == tail[i - 1];
  }

  lemma {:induction false} ChunkAtOffset(rows: seq<Row>, size: nat, i: nat)
    requires size > 0 && i < |Chunks(rows, size)|
    ensures Offset(i, size) <= |rows|
    ensures rows != [] ==> Offset(i, size) < |rows|
    ensures Chunks(rows, size)[i] == rows[Offset(i, size) .. Min(Offset(i, size) + size, |rows|)]
    decreases |rows|
  {
    if i > 0 {
      var rest := rows[size..];
      ChunksTail(rows, size, i);
      ChunkAtOffset(rest, size, i - 1);
      SliceOfRest(rows, size, Offset(i - 1, size));
    }
  }

  lemma SliceOfRest(rows: seq<Row>, size: nat, start: nat)
    requires size <= |rows| && start <= |rows| - size
    ensures rows[size..][start .. Min(start + size, |rows| - size)] == rows[start + size .. Min(start + size + size, |rows|)]
  {
  }

  /**
   * With `R > 0` rows there are ceil(R / size) chunks: the count `n` is the one
   * with `(n - 1) * size < R <= n * size`. With no rows there is one chunk.
   */
  lemma {:induction false} ChunksCount(rows: seq<Row>, size: nat)
    requires size > 0
    ensures var n := |Chunks(rows, size)|;
      if rows == [] then n == 1 else (n - 1) * size < |rows| <= n * size
    decreases |rows|
  {
    if |rows| > size {
      ChunksCount(rows[size..], size);
      var n := |Chunks(rows[size..], size)|;
      assert |Chunks(rows, size)| == n + 1;
      assert (n + 1 - 1) * size == (n - 1) * size + size;
      assert (n + 1) * size == n * size + size;
    }
  }

  /** No chunk is longer than `size`, and every chunk but the last is exactly `size` long. */
  lemma ChunkLengths(rows: seq<Row>, size: nat, i: nat)
    requires size > 0 && i < |Chunks(rows, size)|
    ensures |Chunks(rows, size)[i]| <= size
    ensures i < |Chunks(rows, size)| - 1 ==> |Chunks(rows, size)[i]| == size
  {
    ChunkAt(rows, size, i);
    ChunksCount(rows, size);
    var n := |Chunks(rows, size)|;
    if i < n - 1 {
      MultiplyMonotone(i + 1, n - 1, size);
      assert (i + 1) * size == i * size + size;
    }
  }

  /** The same count, written as the ceiling division `(R + size - 1) / size`. */
  lemma ChunksCountCeiling(rows: seq<Row>, size: nat)
    requires size > 0 && rows != []
    ensures |Chunks(rows, size)| == (|rows| + size - 1) / size
  {
    ChunksCount(rows, size);
    var n, r := |Chunks(rows, size)|, |rows|;
    assert (n - 1) * size == n * size - size;
    DivisionByBounds(r + size - 1, size, n);
  }

  /** `q` is `a / d` as soon as `q * d <= a < q * d + d`. */
  lemma DivisionByBounds(a: int, d: int, q: int)
    requires d > 0 && q * d <= a < q * d + d
    ensures a / d == q
  {
    var k := a / d;
    assert k * d <= a < k * d + d;
    if k < q {
      MultiplyMonotone(k + 1, q, d);
    } else if k > q {
      MultiplyMonotone(q + 1, k, d);
    }
  }

  lemma MultiplyMonotone(x: int, y: int, d: int)
    requires x <= y && d >= 0
    ensures x * d <= y * d
  {
    assert y * d - x * d == (y - x) * d;
  }

  // ------------------------------------------------------------------
  // File names
  // ------------------------------------------------------------------

  /** `f'{base}_part_{idx}{extension}'`. */
  function PartName(base: string, idx: nat, extension: string): string
  {
    base + "_part_" + DecimalString(idx) + extension
  }

  /** Part names of equal-length extensions coincide only for the same index and extension. */
  lemma PartNameInjective(base: string, i: nat, j: nat, e: string, f: string)
    requires |e| == |f|
    ensures PartName(base, i, e) == PartName(base, j, f) <==> i == j && e == f
  {
    var s, t := PartName(base, i, e), PartName(base, j, f);
    if s == t {
      assert e == s[|s| - |e|..] == t[|t| - |f|..] == f;
      assert DecimalString(i) == s[|base| + 6 .. |s| - |e|];
      assert DecimalString(j) == t[|base| + 6 .. |t| - |f|];
      DecimalStringInjective(i, j);
    }
  }

  /** The names of parts `0 .. n-1`, in index order. */
  function PartNames(base: string, n: nat, extension: string): (names: seq<string>)
    ensures |names| == n
    ensures forall i :: 0 <= i < n ==> names[i] == PartName(base, i, extension)
  {
    if n == 0 then [] else PartNames(base, n - 1, extension) + [PartName(base, n - 1, extension)]
  }

  function PartSet(base: string, n: nat, extension: string): set<string>
  {
    set i | 0 <= i < n :: PartName(base, i, extension)
  }

  lemma PartSetGrows(base: string, n: nat, extension: string)
    ensures PartSet(base, n + 1, extension) == PartSet(base, n, extension) + {PartName(base, n, extension)}
  {
    var bigger, smaller := PartSet(base, n + 1, extension), PartSet(base, n, extension);
    forall x | x in bigger
      ensures x in smaller + {PartName(base, n, extension)}
    {
      var i :| 0 <= i < n + 1 && x == PartName(base, i, extension);
      if i < n {
        assert x in smaller;
      }
    }
    forall x | x in smaller
      ensures x in bigger
    {
      var i :| 0 <= i < n && x == PartName(base, i, extension);
    }
  }

  /** The paths collected in `chunk_files` / `zip_files`: `os.path.join(output_dir, name)`. */
  function PartPaths(outputDir: string, base: string, n: nat, extension: string): (paths: seq<string>)
    ensures |paths| == n
  {
    if n == 0 then [] else PartPaths(outputDir, base, n - 1, extension) + [Join(outputDir, PartName(base, n - 1, extension))]
  }

  /** Path `i` of the list is part `i`'s name joined to the output directory. */
  lemma {:induction false} PartPathsAt(outputDir: string, base: string, n: nat, extension: string, i: nat)
    requires i < n
    ensures PartPaths(outputDir, base, n, extension)[i] == Join(outputDir, PartName(base, i, extension))
  {
    if i < n - 1 {
      PartPathsAt(outputDir, base, n - 1, extension, i);
    }
  }

  // ------------------------------------------------------------------
  // What one run leaves in the output directory
  // ------------------------------------------------------------------

  /** Archive `idx`: one entry, named by the base name of the chunk's CSV path, holding the chunk. */
  function ChunkArchive(outputDir: string, base: string, idx: nat, chunk: Table): Content
  {
    Archive([Entry(BaseName(Join(outputDir, PartName(base, idx, ".csv"))), Parsed(chunk))])
  }

  /** What one chunk puts in the directory: its CSV file and its archive. */
  datatype Part = Part(csv: Content, zip: Content)

  /** The parts written for the chunks, in index order. */
  function ChunkParts(outputDir: string, base: string, header: Row, chunks: seq<seq<Row>>): seq<Part>
  {
    seq(|chunks|, i requires 0 <= i < |chunks| =>
      Part(Csv(Table(header, chunks[i])), ChunkArchive(outputDir, base, i, Table(header, chunks[i]))))
  }

  /** Writing part `i` as `{base}_part_{i}.csv` and `{base}_part_{i}.zip`, for each part in index order. */
  function WriteParts(files: Files, base: string, parts: seq<Part>): Files
    decreases |parts|
  {
    if parts == [] then files
    else
      var idx := |parts| - 1;
      WriteParts(files, base, parts[..idx])
        [PartName(base, idx, ".csv") := parts[idx].csv]
        [PartName(base, idx, ".zip") := parts[idx].zip]
  }

  /** The directory after writing the CSV file and the archive of every chunk, in index order. */
  function SplitFiles(files: Files, outputDir: string, base: string, header: Row, chunks: seq<seq<Row>>): Files
  {
    WriteParts(files, base, ChunkParts(outputDir, base, header, chunks))
  }

  /** Writing part `idx` on top of the first `idx` parts. */
  lemma WritePartsStep(files: Files, base: string, parts: seq<Part>, idx: nat)
    requires idx < |parts|
    ensures WriteParts(files, base, parts[..idx + 1])
         == WriteParts(files, base, parts[..idx])
              [PartName(base, idx, ".csv") := parts[idx].csv]
              [PartName(base, idx, ".zip") := parts[idx].zip]
  {
    assert parts[..idx + 1][..idx] == parts[..idx];
  }

  lemma {:induction false} WritePartsKeys(files: Files, base: string, parts: seq<Part>)
    ensures WriteParts(files, base, parts).Keys
         == files.Keys + PartSet(base, |parts|, ".csv") + PartSet(base, |parts|, ".zip")
    decreases |parts|
  {
    if parts != [] {
      var m := |parts| - 1;
      WritePartsKeys(files, base, parts[..m]);
      PartSetGrows(base, m, ".csv");
      PartSetGrows(base, m, ".zip");
    }
  }

  /** Part names differ unless index and extension agree. */
  lemma PartNamesDiffer(base: string, i: nat, j: nat, e: string, f: string)
    requires |e| == |f| && (i != j || e != f)
    ensures PartName(base, i, e) != PartName(base, j, f)
  {
    PartNameInjective(base, i, j, e, f);
  }

  lemma {:induction false} WritePartsAt(files: Files, base: string, parts: seq<Part>, i: nat)
    requires i < |parts|
    ensures var out := WriteParts(files, base, parts);
      && PartName(base, i, ".csv") in out && out[PartName(base, i, ".csv")] == parts[i].csv
      && PartName(base, i, ".zip") in out && out[PartName(base, i, ".zip")] == parts[i].zip
    decreases |parts|
  {
    var m := |parts| - 1;
    assert ".csv"[1] != ".zip"[1];
    PartNamesDiffer(base, m, m, ".csv", ".zip");
    if i < m {
      WritePartsAt(files, base, parts[..m], i);
      PartNamesDiffer(base, i, m, ".csv", ".csv");
      PartNamesDiffer(base, i, m, ".csv", ".zip");
      PartNamesDiffer(base, i, m, ".zip", ".csv");
      PartNamesDiffer(base, i, m, ".zip", ".zip");
      assert parts[..m][i] == parts[i];
    }
  }

  lemma {:induction false} WritePartsElsewhere(files: Files, base: string, parts: seq<Part>, x: string)
    requires x in files
    requires x !in PartSet(base, |parts|, ".csv") && x !in PartSet(base, |parts|, ".zip")
    ensures x in WriteParts(files, base, parts) && WriteParts(files, base, parts)[x] == files[x]
    decreases |parts|
  {
    if parts != [] {
      var m := |parts| - 1;
      PartSetGrows(base, m, ".csv");
      PartSetGrows(base, m, ".zip");
      WritePartsElsewhere(files, base, parts[..m], x);
    }
  }

  lemma {:induction false} WritePartsOverlay(files: Files, base: string, parts: seq<Part>)
    ensures WriteParts(files, base, parts) == files + WriteParts(map[], base, parts)
    decreases |parts|
  {
    if parts != [] {
      var m := |parts| - 1;
      WritePartsOverlay(files, base, parts[..m]);
      var written := WriteParts(map[], base, parts[..m]);
      var csv, zip := PartName(base, m, ".csv"), PartName(base, m, ".zip");
      assert (files + written)[csv := parts[m].csv][zip := parts[m].zip]
          == files + written[csv := parts[m].csv][zip := parts[m].zip];
    }
  }

  /** After a split the directory holds exactly the old names plus the CSV file and the archive of each chunk. */
  lemma SplitFilesKeys(files: Files, outputDir: string, base: string, header: Row, chunks: seq<seq<Row>>)
    ensures SplitFiles(files, outputDir, base, header, chunks).Keys
         == files.Keys + PartSet(base, |chunks|, ".csv") + PartSet(base, |chunks|, ".zip")
  {
    WritePartsKeys(files, base, ChunkParts(outputDir, base, header, chunks));
  }

  /** Chunk `i`'s CSV file holds the chunk under the header, and its archive wraps that file. */
  lemma SplitFilesAt(files: Files, outputDir: string, base: string, header: Row, chunks: seq<seq<Row>>, i: nat)
    requires i < |chunks|
    ensures var out := SplitFiles(files, outputDir, base, header, chunks);
      && PartName(base, i, ".csv") in out && PartName(base, i, ".zip") in out
      && out[PartName(base, i, ".csv")] == Csv(Table(header, chunks[i]))
      && out[PartName(base, i, ".zip")] == ChunkArchive(outputDir, base, i, Table(header, chunks[i]))
  {
    WritePartsAt(files, base, ChunkParts(outputDir, base, header, chunks), i);
  }

  /** A file whose name is none of the produced names is left as it was. */
  lemma SplitFilesElsewhere(files: Files, outputDir: string, base: string, header: Row, chunks: seq<seq<Row>>, x: string)
    requires x in files
    requires x !in PartSet(base, |chunks|, ".csv") && x !in PartSet(base, |chunks|, ".zip")
    ensures x in SplitFiles(files, outputDir, base, header, chunks)
    ensures SplitFiles(files, outputDir, base, header, chunks)[x] == files[x]
  {
    WritePartsElsewhere(files, base, ChunkParts(outputDir, base, header, chunks), x);
  }

  /** Re-running a split with the same base and rows overwrites the same files and adds none. */
  lemma SplitIdempotent(files: Files, outputDir: string, base: string, header: Row, chunks: seq<seq<Row>>)
    ensures var once := SplitFiles(files, outputDir, base, header, chunks);
      SplitFiles(once, outputDir, base, header, chunks) == once
  {
    var parts := ChunkParts(outputDir, base, header, chunks);
    var written := WriteParts(map[], base, parts);
    WritePartsOverlay(files, base, parts);
    WritePartsOverlay(files + written, base, parts);
    assert (files + written) + written == files + written;
  }

  // ------------------------------------------------------------------
  // The loop of `split_and_zip_data`
  // ------------------------------------------------------------------

  /** One turn of the loop adds chunk `idx`'s CSV file, then its archive. */
  lemma WriteChunkStep(files: Files, outputDir: string, base: string, header: Row, chunks: seq<seq<Row>>, idx: nat)
    requires idx < |chunks|
    ensures var chunk := Table(header, chunks[idx]);
      var chunkPath := Join(outputDir, PartName(base, idx, ".csv"));
      SplitFiles(files, outputDir, base, header, chunks[..idx + 1])
      == SplitFiles(files, outputDir, base, header, chunks[..idx])
           [PartName(base, idx, ".csv") := Csv(chunk)]
           [PartName(base, idx, ".zip") := Archive([Entry(BaseName(chunkPath), Parsed(chunk))])]
  {
    var parts := ChunkParts(outputDir, base, header, chunks);
    ChunkPartsPrefix(outputDir, base, header, chunks, idx);
    ChunkPartsPrefix(outputDir, base, header, chunks, idx + 1);
    WritePartsStep(files, base, parts, idx);
  }

  /**
   * How many chunks the loop gets through: all of them, unless the reader
   * raises on chunk `k` (a row it cannot parse), in which case chunks
   * `0 .. k-1` have been written and the exception ends the function.
   */
  function ChunksReached(count: nat, failsAt: Option<nat>): nat
  {
    if failsAt.Some? && failsAt.value < count then failsAt.value else count
  }

  /** The loop goes on past chunk `idx` only when the reader does not raise on it. */
  lemma ChunksReachedStep(count: nat, failsAt: Option<nat>, idx: nat)
    requires idx <= ChunksReached(count, failsAt)
    ensures idx < count && failsAt != Some(idx) ==> idx + 1 <= ChunksReached(count, failsAt)
    ensures !(idx < count && failsAt != Some(idx)) ==> idx == ChunksReached(count, failsAt)
  {
  }

  /** The parts of a prefix of the chunks are the prefix of the parts. */
  lemma ChunkPartsPrefix(outputDir: string, base: string, header: Row, chunks: seq<seq<Row>>, n: nat)
    requires n <= |chunks|
    ensures ChunkParts(outputDir, base, header, chunks[..n]) == ChunkParts(outputDir, base, header, chunks)[..n]
  {
  }

  /**
   * One turn of the loop: write chunk `idx` as a CSV file, then write its
   * archive, on top of the parts before it; return both paths.
   */
  method WriteChunk(dir: Directory, ghost files: Files, outputDir: string, base: string, header: Row,
                    chunks: seq<seq<Row>>, idx: nat)
    returns (chunkPath: string, zipPath: string)
    requires idx < |chunks|
    requires dir.files == SplitFiles(files, outputDir, base, header, chunks[..idx])
    modifies dir
    ensures dir.present == old(dir.present)
    ensures chunkPath == Join(outputDir, PartName(base, idx, ".csv"))
    ensures zipPath == Join(outputDir, PartName(base, idx, ".zip"))
    ensures dir.files == SplitFiles(files, outputDir, base, header, chunks[..idx + 1])
  {
    var chunk := Table(header, chunks[idx]);
    chunkPath := Join(outputDir, PartName(base, idx, ".csv"));
    dir.files := dir.files[PartName(base, idx, ".csv") := Csv(chunk)];
    zipPath := Join(outputDir, PartName(base, idx, ".zip"));
    dir.files := dir.files[PartName(base, idx, ".zip") := Archive([Entry(BaseName(chunkPath), Parsed(chunk))])];
    WriteChunkStep(files, outputDir, base, header, chunks, idx);
  }

  /** The path lists grow by one path each per turn. */
  lemma PartPathsStep(outputDir: string, base: string, idx: nat)
    ensures PartPaths(outputDir, base, idx + 1, ".csv")
         == PartPaths(outputDir, base, idx, ".csv") + [Join(outputDir, PartName(base, idx, ".csv"))]
    ensures PartPaths(outputDir, base, idx + 1, ".zip")
         == PartPaths(outputDir, base, idx, ".zip") + [Join(outputDir, PartName(base, idx, ".zip"))]
  {
  }

  /**
   * The `for idx, chunk in enumerate(chunks)` loop: write each chunk's CSV
   * file, then its archive, and collect both paths. When the reader raises
   * on chunk `failsAt`, the loop stops there with the earlier parts written.
   */
  method WriteChunks(dir: Directory, outputDir: string, base: string, header: Row, chunks: seq<seq<Row>>,
                     failsAt: Option<nat>)
    returns (chunkFiles: seq<string>, zipFiles: seq<string>)
    modifies dir
    ensures var n := ChunksReached(|chunks|, failsAt);
      && dir.present == old(dir.present)
      && chunkFiles == PartPaths(outputDir, base, n, ".csv")
      && zipFiles == PartPaths(outputDir, base, n, ".zip")
      && dir.files == SplitFiles(old(dir.files), outputDir, base, header, chunks[..n])
  {
    chunkFiles, zipFiles := [], [];
    var idx := 0;
    while idx < |chunks| && failsAt != Some(idx)
      invariant idx <= ChunksReached(|chunks|, failsAt)
      invariant dir.present == old(dir.present)
      invariant chunkFiles == PartPaths(outputDir, base, idx, ".csv")
      invariant zipFiles == PartPaths(outputDir, base, idx, ".zip")
      invariant dir.files == SplitFiles(old(dir.files), outputDir, base, header, chunks[..idx])
      decreases |chunks| - idx
    {
      var chunkPath, zipPath := WriteChunk(dir, old(dir.files), outputDir, base, header, chunks, idx);
      chunkFiles := chunkFiles + [chunkPath];
      zipFiles := zipFiles + [zipPath];
      PartPathsStep(outputDir, base, idx);
      ChunksReachedStep(|chunks|, failsAt, idx);
      idx := idx + 1;
    }
    ChunksReachedStep(|chunks|, failsAt, idx);
  }

  datatype SplitOutcome =
    | BadChunkSize            // the reader refuses a chunk size below 1
    | SourceUnreadable        // the reader could not open the source or read its header
    | RaisedAtChunk(idx: nat) // the reader raised on chunk `idx`, after parts 0 .. idx-1 were written
    | Written(chunkFiles: seq<string>, zipFiles: seq<string>)

  /**
   * `split_and_zip_data(csv_path, output_dir, chunk_size, zip_file, base_name)`.
   * `dir` is the output directory. `source` is what the reader makes of
   * `csv_path` when it opens it (the header and, read lazily, the rows), and
   * `failsAt` the chunk on which it raises, if any. The `zip_file` argument
   * is accepted and has no effect. A directory that does not exist yet holds
   * no files, so `mkdir` creates it empty.
   */
  method SplitAndZip(dir: Directory, csvPath: string, outputDir: string, source: Option<Table>,
                     failsAt: Option<nat>, chunkSize: int, zipFile: string, baseName: Option<string>)
    returns (outcome: SplitOutcome)
    requires dir.present || dir.files == map[]
    modifies dir
    ensures dir.present
    ensures chunkSize < 1 ==> outcome == BadChunkSize && dir.files == old(dir.files)
    ensures chunkSize >= 1 && source.None? ==> outcome == SourceUnreadable && dir.files == old(dir.files)
    ensures chunkSize >= 1 && source.Some? ==>
      var base := BaseFor(csvPath, baseName);
      var chunks := Chunks(source.value.rows, chunkSize);
      var n := ChunksReached(|chunks|, failsAt);
      && dir.files == SplitFiles(old(dir.files), outputDir, base, source.value.header, chunks[..n])
      && outcome == if n < |chunks| then RaisedAtChunk(n)
                    else Written(PartPaths(outputDir, base, n, ".csv"), PartPaths(outputDir, base, n, ".zip"))
  {
    dir.present := true;
    if chunkSize < 1 {
      return BadChunkSize;
    }
    if source.None? {
      return SourceUnreadable;
    }
    var chunks := Chunks(source.value.rows, chunkSize);
    var base := BaseFor(csvPath, baseName);
    var chunkFiles, zipFiles := WriteChunks(dir, outputDir, base, source.value.header, chunks, failsAt);
    if failsAt.Some? && failsAt.value < |chunks| {
      return RaisedAtChunk(failsAt.value);
    }
    outcome := Written(chunkFiles, zipFiles);
  }
}
