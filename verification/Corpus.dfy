/** The benchmark text corpus: the chunker and the list builder of the fetch script, and
    the benchmark's reader of what it produced. Characters are Unicode code points and
    `isSpace`, the hash, the encoded length and the row path are parameters. */
module Corpus {
  import opened Wire

  const CHUNK_CHAR_COUNT: nat := 384
  const CHUNK_CHAR_STRIDE: nat := 256
  const CHUNK_MIN_CHARS: nat := 96
  const TARGET_CHUNK_COUNT: nat := 65536

  datatype Host = Host(isSpace: char -> bool, sha256: string -> string, encodedLen: string -> nat,
      rowPath: nat -> string)

  // ---- Stripping ----

  function LeadingSpaces(isSpace: char -> bool, s: string): (i: nat)
    ensures i <= |s|
    ensures forall k :: 0 <= k < i ==> isSpace(s[k])
    ensures i < |s| ==> !isSpace(s[i])
  {
    if s == [] || !isSpace(s[0]) then 0 else 1 + LeadingSpaces(isSpace, s[1..])
  }

  function TrailingSpaces(isSpace: char -> bool, s: string): (i: nat)
    ensures i <= |s|
    ensures forall k :: |s| - i <= k < |s| ==> isSpace(s[k])
    ensures i < |s| ==> !isSpace(s[|s| - 1 - i])
  {
    if s == [] || !isSpace(s[|s| - 1]) then 0 else 1 + TrailingSpaces(isSpace, s[..|s| - 1])
  }

  /** `t` neither starts nor ends with a space. */
  ghost predicate Trimmed(isSpace: char -> bool, t: string) {
    t != [] ==> !isSpace(t[0]) && !isSpace(t[|t| - 1])
  }

  /** `t` is a contiguous piece of `s`. */
  ghost predicate PieceOf(t: string, s: string) {
    exists i: nat, j: nat :: i <= j <= |s| && t == s[i..j]
  }

  function Strip(isSpace: char -> bool, s: string): (t: string)
    ensures Trimmed(isSpace, t) && PieceOf(t, s)
    ensures t == [] <==> forall c :: c in s ==> isSpace(c)
    ensures Trimmed(isSpace, s) ==> t == s
  {
    var i := LeadingSpaces(isSpace, s);
    if i == |s| then
      assert [] == s[0..0];
      assert forall c :: c in s ==> isSpace(c);
      []
    else
      assert s[i] in s;
      var j := |s| - TrailingSpaces(isSpace, s);
      assert s[i..j][0] == s[i] && s[i..j][j - i - 1] == s[j - 1];
      s[i..j]
  }

  // ---- Windows ----

  /** How many windows a trimmed text of `n` characters is cut into. */
  function WindowCount(n: nat): (count: nat)
    requires n > 0
    ensures count > 0
  {
    if n <= CHUNK_CHAR_COUNT then 1
    else 1 + (n - CHUNK_CHAR_COUNT + CHUNK_CHAR_STRIDE - 1) / CHUNK_CHAR_STRIDE
  }

  function WindowStart(i: nat): nat {
    CHUNK_CHAR_STRIDE * i
  }

  function WindowEnd(n: nat, i: nat): nat {
    if WindowStart(i) + CHUNK_CHAR_COUNT < n then WindowStart(i) + CHUNK_CHAR_COUNT else n
  }

  /** Exactly the last window ends at the end of the text, and no window starts beyond it. */
  lemma LastWindow(n: nat, i: nat)
    requires n > 0 && i < WindowCount(n)
    ensures WindowStart(i) < WindowEnd(n, i) <= n
    ensures WindowEnd(n, i) == n <==> i == WindowCount(n) - 1
    ensures i < WindowCount(n) - 1 ==> WindowEnd(n, i) == WindowStart(i + 1) + (CHUNK_CHAR_COUNT - CHUNK_CHAR_STRIDE)
    ensures WindowCount(n) > 1 ==> WindowEnd(n, i) - WindowStart(i) > CHUNK_CHAR_COUNT - CHUNK_CHAR_STRIDE
  {
  }

  /** Every position of the text lies in a window. */
  lemma WindowsCover(n: nat, position: nat)
    requires position < n
    ensures exists i: nat :: i < WindowCount(n) && WindowStart(i) <= position < WindowEnd(n, i)
  {
    var i := position / CHUNK_CHAR_STRIDE;
    if i < WindowCount(n) {
      assert WindowStart(i) <= position < WindowEnd(n, i);
    } else {
      var last := WindowCount(n) - 1;
      LastWindow(n, last);
      assert WindowStart(last) <= position < WindowEnd(n, last);
    }
  }

  function Window(s: string, i: nat): string
    requires s != [] && i < WindowCount(|s|)
  {
    LastWindow(|s|, i);
    s[WindowStart(i)..WindowEnd(|s|, i)]
  }

  /** The first window, then each next one without the characters it shares with the one before. */
  function Joined(s: string, count: nat): string
    requires s != [] && count <= WindowCount(|s|)
  {
    if count == 0 then []
    else if count == 1 then Window(s, 0)
    else
      LastWindow(|s|, count - 1);
      Joined(s, count - 1) + Window(s, count - 1)[CHUNK_CHAR_COUNT - CHUNK_CHAR_STRIDE..]
  }

  /** Neighbouring windows share 128 characters; dropping the repeats gives the text back. */
  lemma {:induction false} WindowsRejoin(s: string, count: nat)
    requires s != [] && 0 < count <= WindowCount(|s|)
    ensures Joined(s, count) == s[..WindowEnd(|s|, count - 1)]
    ensures count == WindowCount(|s|) ==> Joined(s, count) == s
  {
    hide WindowCount;
    LastWindow(|s|, count - 1);
    if count > 1 {
      WindowsRejoin(s, count - 1);
      LastWindow(|s|, count - 2);
      var shared := CHUNK_CHAR_COUNT - CHUNK_CHAR_STRIDE;
      assert Window(s, count - 1)[shared..] == s[WindowStart(count - 1) + shared..WindowEnd(|s|, count - 1)];
    }
  }

  // ---- The chunker ----

  /** The stripped windows that are long enough, in order, of the first `count` windows. */
  function KeptWindows(isSpace: char -> bool, s: string, count: nat): seq<string>
    requires s != [] && count <= WindowCount(|s|)
  {
    if count == 0 then []
    else
      var chunk := Strip(isSpace, Window(s, count - 1));
      KeptWindows(isSpace, s, count - 1) + if |chunk| >= CHUNK_MIN_CHARS then [chunk] else []
  }

  function TextChunks(isSpace: char -> bool, text: string): seq<string> {
    var trimmed := Strip(isSpace, text);
    if |trimmed| < CHUNK_MIN_CHARS then []
    else
      var kept := KeptWindows(isSpace, trimmed, WindowCount(|trimmed|));
      if kept == [] then [trimmed] else kept
  }

  method SplitTextIntoChunks(isSpace: char -> bool, text: string) returns (chunks: seq<string>)
    ensures chunks == TextChunks(isSpace, text)
  {
    hide Strip, PieceOf, Trimmed, WindowCount;
    var trimmed := Strip(isSpace, text);
    if trimmed == [] {
      return [];
    }
    if |trimmed| < CHUNK_MIN_CHARS {
      return [];
    }
    chunks := [];
    var start := 0;
    ghost var i: nat := 0;
    while true
      invariant i < WindowCount(|trimmed|) && start == WindowStart(i)
      invariant chunks == KeptWindows(isSpace, trimmed, i)
      decreases |trimmed| - start
    {
      LastWindow(|trimmed|, i);
      var end := if start + CHUNK_CHAR_COUNT < |trimmed| then start + CHUNK_CHAR_COUNT else |trimmed|;
      var chunk := Strip(isSpace, trimmed[start..end]);
      if |chunk| >= CHUNK_MIN_CHARS {
        chunks := chunks + [chunk];
      }
      i := i + 1;
      if end == |trimmed| {
        break;
      }
      start := start + CHUNK_CHAR_STRIDE;
      if start >= |trimmed| {
        assert false;  // the break above comes first
        break;
      }
    }
    assert i == WindowCount(|trimmed|);
    if chunks == [] {
      chunks := [trimmed];
    }
  }

  /** A row is skipped exactly when fewer than 96 characters are left after stripping. */
  lemma NoChunksExactlyWhenShort(isSpace: char -> bool, text: string)
    ensures TextChunks(isSpace, text) == [] <==> |Strip(isSpace, text)| < CHUNK_MIN_CHARS
  {
  }

  /** What a chunk promises: long enough, trimmed, a piece of the text, and no longer than
      a window unless it is the whole text, which is then the only chunk. */
  ghost predicate GoodChunk(isSpace: char -> bool, s: string, chunk: string) {
    && CHUNK_MIN_CHARS <= |chunk|
    && Trimmed(isSpace, chunk)
    && PieceOf(chunk, s)
  }

  lemma PieceIsShorter(t: string, s: string)
    requires PieceOf(t, s)
    ensures |t| <= |s|
  {
  }

  lemma PieceOfPiece(t: string, s: string, from: nat, to: nat)
    requires from <= to <= |s| && PieceOf(t, s[from..to])
    ensures PieceOf(t, s)
  {
    var i: nat, j: nat :| i <= j <= to - from && t == s[from..to][i..j];
    assert from + i <= from + j <= |s|;
    forall k | 0 <= k < j - i ensures t[k] == s[from + i..from + j][k] {
    }
    assert t == s[from + i..from + j];
  }

  lemma {:induction false} KeptWindowsAreGood(isSpace: char -> bool, s: string, count: nat)
    requires s != [] && count <= WindowCount(|s|)
    ensures forall chunk :: chunk in KeptWindows(isSpace, s, count) ==>
              GoodChunk(isSpace, s, chunk) && |chunk| <= CHUNK_CHAR_COUNT
  {
    hide Strip, PieceOf, Trimmed, WindowCount;
    if count > 0 {
      KeptWindowsAreGood(isSpace, s, count - 1);
      LastWindow(|s|, count - 1);
      var chunk := Strip(isSpace, Window(s, count - 1));
      PieceIsShorter(chunk, Window(s, count - 1));
      PieceOfPiece(chunk, s, WindowStart(count - 1), WindowEnd(|s|, count - 1));
    }
  }

  lemma ChunksAreGood(isSpace: char -> bool, text: string)
    ensures var trimmed, chunks := Strip(isSpace, text), TextChunks(isSpace, text);
            forall chunk :: chunk in chunks ==>
              GoodChunk(isSpace, trimmed, chunk) && (|chunk| <= CHUNK_CHAR_COUNT || chunks == [trimmed])
  {
    var trimmed := Strip(isSpace, text);
    if |trimmed| >= CHUNK_MIN_CHARS {
      KeptWindowsAreGood(isSpace, trimmed, WindowCount(|trimmed|));
      assert trimmed == trimmed[0..|trimmed|];
    }
  }

  // ---- The writer ----

  datatype CorpusKind = Wikitext103Raw | WebImage50

  datatype ManifestFile = ManifestFile(relativePath: string, sha256: string, byteLen: nat, chunkCount: nat)

  datatype Manifest = Manifest(
    kind: CorpusKind, chunkCharCount: Option<nat>, chunkCharStride: Option<nat>, chunkMinChars: Option<nat>,
    fileCount: nat, chunkCount: nat, files: seq<ManifestFile>)

  datatype ChunkRecord = ChunkRecord(fileIndex: nat, chunkIndex: nat, fileSha256: string, chunkSha256: string,
      text: string)

  datatype Streamed = Streamed(manifest: Manifest, chunks: seq<ChunkRecord>)

  function FileOf(h: Host, index: nat, row: string): ManifestFile {
    ManifestFile(h.rowPath(index), h.sha256(row), h.encodedLen(row), |TextChunks(h.isSpace, row)|)
  }

  function RecordOf(h: Host, index: nat, row: string, chunkIndex: nat): ChunkRecord
    requires chunkIndex < |TextChunks(h.isSpace, row)|
  {
    var text := TextChunks(h.isSpace, row)[chunkIndex];
    ChunkRecord(index, chunkIndex, h.sha256(row), h.sha256(text), text)
  }

  /** One manifest entry per row that has chunks, in row order. */
  function FilesOf(h: Host, rows: seq<string>): seq<ManifestFile> {
    if rows == [] then []
    else
      var before, row := FilesOf(h, rows[..|rows| - 1]), rows[|rows| - 1];
      if TextChunks(h.isSpace, row) == [] then before else before + [FileOf(h, |before|, row)]
  }

  function RowRecords(h: Host, index: nat, row: string): (records: seq<ChunkRecord>)
    ensures |records| == |TextChunks(h.isSpace, row)|
  {
    seq(|TextChunks(h.isSpace, row)|, j requires 0 <= j < |TextChunks(h.isSpace, row)| => RecordOf(h, index, row, j))
  }

  /** Every chunk of every row, in order. */
  function RecordsOf(h: Host, rows: seq<string>): seq<ChunkRecord> {
    if rows == [] then []
    else
      var last := |rows| - 1;
      RecordsOf(h, rows[..last]) + RowRecords(h, |FilesOf(h, rows[..last])|, rows[last])
  }

  function ManifestOf(files: seq<ManifestFile>, chunkCount: nat): Manifest {
    Manifest(Wikitext103Raw, Some(CHUNK_CHAR_COUNT), Some(CHUNK_CHAR_STRIDE), Some(CHUNK_MIN_CHARS),
             |files|, chunkCount, files)
  }

  /** What is written when these rows are used. */
  function Written(h: Host, rows: seq<string>): Streamed {
    Streamed(ManifestOf(FilesOf(h, rows), |RecordsOf(h, rows)|), RecordsOf(h, rows))
  }

  /** `used` rows are needed, and no fewer, to reach the target. */
  ghost predicate Enough(h: Host, rows: seq<string>, used: nat) {
    && used <= |rows|
    && |RecordsOf(h, rows[..used])| >= TARGET_CHUNK_COUNT
    && forall fewer: nat :: fewer < used ==> |RecordsOf(h, rows[..fewer])| < TARGET_CHUNK_COUNT
  }

  lemma {:induction false} RecordsGrow(h: Host, rows: seq<string>, n: nat)
    requires n <= |rows|
    ensures |RecordsOf(h, rows[..n])| <= |RecordsOf(h, rows)|
    decreases |rows|
  {
    if n < |rows| {
      RecordsGrow(h, rows[..|rows| - 1], n);
      assert rows[..|rows| - 1][..n] == rows[..n];
    } else {
      assert rows[..n] == rows;
    }
  }

  lemma NothingWritten(h: Host)
    ensures FilesOf(h, []) == [] && RecordsOf(h, []) == []
  {
  }

  lemma OneRowFurther(h: Host, rows: seq<string>, n: nat)
    requires n < |rows|
    ensures var files := FilesOf(h, rows[..n]);
            && FilesOf(h, rows[..n + 1]) ==
                 (if TextChunks(h.isSpace, rows[n]) == [] then files else files + [FileOf(h, |files|, rows[n])])
            && RecordsOf(h, rows[..n + 1]) == RecordsOf(h, rows[..n]) + RowRecords(h, |files|, rows[n])
  {
    hide TextChunks, RowRecords;
    assert rows[..n + 1][..n] == rows[..n];
  }

  method BuildCorpus(h: Host, rows: seq<string>) returns (r: Option<Streamed>)
    ensures r.Some? <==> |RecordsOf(h, rows)| >= TARGET_CHUNK_COUNT
    ensures r.Some? ==> exists used: nat :: Enough(h, rows, used) && r.value == Written(h, rows[..used])
  {
    hide TextChunks, FilesOf, RecordsOf;
    NothingWritten(h);
    var manifestFiles: seq<ManifestFile> := [];
    var chunkRecords: seq<ChunkRecord> := [];
    var chunkCount, fileIndex, row := 0, 0, 0;
    while row < |rows|
      invariant row <= |rows|
      invariant manifestFiles == FilesOf(h, rows[..row]) && fileIndex == |manifestFiles|
      invariant chunkRecords == RecordsOf(h, rows[..row]) && chunkCount == |chunkRecords|
      invariant forall fewer: nat :: fewer <= row ==> |RecordsOf(h, rows[..fewer])| < TARGET_CHUNK_COUNT
    {
      var rowText := rows[row];
      var rowChunks := SplitTextIntoChunks(h.isSpace, rowText);
      OneRowFurther(h, rows, row);
      row := row + 1;
      if rowChunks == [] {
        continue;
      }
      var path, sha256, byteLen := h.rowPath(fileIndex), h.sha256(rowText), h.encodedLen(rowText);
      manifestFiles := manifestFiles + [ManifestFile(path, sha256, byteLen, |rowChunks|)];
      ghost var all := RowRecords(h, fileIndex, rowText);
      ghost var before := chunkRecords;
      for chunkIndex := 0 to |rowChunks|
        invariant chunkRecords == before + all[..chunkIndex] && chunkCount == |chunkRecords|
      {
        var chunkText := rowChunks[chunkIndex];
        chunkRecords := chunkRecords +
            [ChunkRecord(fileIndex, chunkIndex, h.sha256(rowText), h.sha256(chunkText), chunkText)];
        chunkCount := chunkCount + 1;
        assert all[..chunkIndex + 1] == all[..chunkIndex] + [all[chunkIndex]];
      }
      assert all[..|rowChunks|] == all;
      fileIndex := fileIndex + 1;
      if chunkCount >= TARGET_CHUNK_COUNT {
        break;
      }
    }
    assert rows[..|rows|] == rows;
    if chunkCount < TARGET_CHUNK_COUNT {
      return None;
    }
    RecordsGrow(h, rows, row);
    assert Enough(h, rows, row);
    r := Some(Streamed(ManifestOf(manifestFiles, chunkCount), chunkRecords));
  }

  // ---- The reader ----

  datatype InputCorpusChunk = InputCorpusChunk(fileIndex: nat, fileSha256: string, chunkIndex: nat,
                                               chunkSha256: string, name: string, text: string)

  datatype InputCorpusFile = InputCorpusFile(firstChunkIndex: nat, chunkCount: nat)

  datatype InputCorpus = InputCorpus(manifest: Manifest, files: seq<InputCorpusFile>, chunks: seq<InputCorpusChunk>)

  datatype ReadError =
    | KindMismatch
    | ChunkingMismatch
    | EndedEarly(file: nat, chunk: nat)
    | OrderingMismatch(file: nat, chunk: nat)
    | ChecksumMismatch(file: nat, chunk: nat)
    | TrailingRecords(count: nat)
    | EmptyCorpus

  datatype ReadResult = Ok(corpus: InputCorpus) | Err(error: ReadError)

  /** Where file `i` starts: the chunk counts of the files before it. */
  function FirstChunk(files: seq<ManifestFile>, i: nat): nat
    requires i <= |files|
  {
    if i == 0 then 0 else FirstChunk(files, i - 1) + files[i - 1].chunkCount
  }

  /** The file and chunk index of every record a manifest announces, in order. */
  function Places(files: seq<ManifestFile>): seq<(nat, nat)> {
    if files == [] then []
    else
      var last := |files| - 1;
      Places(files[..last]) + seq(files[last].chunkCount, j requires 0 <= j => (last, j))
  }

  lemma {:induction false} FirstChunkOfPrefix(files: seq<ManifestFile>, n: nat, i: nat)
    requires i <= n <= |files|
    ensures FirstChunk(files[..n], i) == FirstChunk(files, i)
  {
    if i > 0 {
      FirstChunkOfPrefix(files, n, i - 1);
    }
  }

  /** File `i` occupies the places from its first chunk on. */
  lemma {:induction false} PlaceAt(files: seq<ManifestFile>, i: nat, j: nat)
    requires i < |files| && j < files[i].chunkCount
    ensures FirstChunk(files, i) + j < |Places(files)| && Places(files)[FirstChunk(files, i) + j] == (i, j)
    decreases |files|
  {
    var last := |files| - 1;
    PlacesCounted(files[..last]);
    FirstChunkOfPrefix(files, last, last);
    if i < last {
      PlaceAt(files[..last], i, j);
      FirstChunkOfPrefix(files, last, i);
    }
  }

  lemma {:induction false} PlacesCounted(files: seq<ManifestFile>)
    ensures |Places(files)| == FirstChunk(files, |files|)
  {
    if files != [] {
      PlacesCounted(files[..|files| - 1]);
      FirstChunkOfPrefix(files, |files| - 1, |files| - 1);
    }
  }

  lemma {:induction false} PlacesAreInside(files: seq<ManifestFile>)
    ensures forall k :: 0 <= k < |Places(files)| ==>
              var (i, j) := Places(files)[k]; i < |files| && j < files[i].chunkCount && k == FirstChunk(files, i) + j
  {
    if files != [] {
      var last := |files| - 1;
      PlacesAreInside(files[..last]);
      PlacesCounted(files[..last]);
      FirstChunkOfPrefix(files, last, last);
      forall k | 0 <= k < |Places(files)|
        ensures var (i, j) := Places(files)[k]; i < |files| && j < files[i].chunkCount && k == FirstChunk(files, i) + j
      {
        if k < |Places(files[..last])| {
          FirstChunkOfPrefix(files, last, Places(files)[k].0);
        }
      }
    }
  }

  predicate InOrder(files: seq<ManifestFile>, record: ChunkRecord, place: (nat, nat)) {
    && place.0 < |files|
    && record.fileIndex == place.0
    && record.chunkIndex == place.1
    && record.fileSha256 == files[place.0].sha256
  }

  predicate Genuine(h: Host, record: ChunkRecord) {
    h.sha256(record.text) == record.chunkSha256
  }

  /** The first `n` records are the announced ones. */
  ghost predicate GoodUpTo(h: Host, files: seq<ManifestFile>, records: seq<ChunkRecord>, n: nat) {
    && n <= |records| && n <= |Places(files)|
    && forall k :: 0 <= k < n ==> InOrder(files, records[k], Places(files)[k]) && Genuine(h, records[k])
  }

  predicate RightChunking(m: Manifest) {
    && m.chunkCharCount == Some(CHUNK_CHAR_COUNT)
    && m.chunkCharStride == Some(CHUNK_CHAR_STRIDE)
    && m.chunkMinChars == Some(CHUNK_MIN_CHARS)
  }

  /** What the reader accepts: the records are exactly the announced ones, and there is at least one. */
  ghost predicate Accepted(h: Host, s: Streamed) {
    && s.manifest.kind == Wikitext103Raw
    && RightChunking(s.manifest)
    && GoodUpTo(h, s.manifest.files, s.chunks, |s.chunks|)
    && |s.chunks| == |Places(s.manifest.files)| > 0
  }

  /** The corpus `c` is the one the manifest and records describe. */
  ghost predicate Describes(s: Streamed, c: InputCorpus) {
    var files := s.manifest.files;
    && c.manifest == s.manifest.(fileCount := |files|, chunkCount := |s.chunks|)
    && |c.files| == |files| && |c.chunks| == |s.chunks| == |Places(files)|
    && ChunksRead(files, s.chunks, c.chunks)
    && forall i :: 0 <= i < |files| ==> c.files[i] == InputCorpusFile(FirstChunk(files, i), files[i].chunkCount)
  }

  /** The chunks made so far, each from the record and the place with its number. */
  ghost predicate ChunksRead(files: seq<ManifestFile>, records: seq<ChunkRecord>, chunks: seq<InputCorpusChunk>) {
    && |chunks| <= |records| && |chunks| <= |Places(files)|
    && forall k :: 0 <= k < |chunks| ==>
         Places(files)[k].0 < |files| && chunks[k] == ChunkFor(files, records[k], Places(files)[k])
  }

  function ChunkFor(files: seq<ManifestFile>, record: ChunkRecord, place: (nat, nat)): InputCorpusChunk
    requires place.0 < |files|
  {
    InputCorpusChunk(place.0, record.fileSha256, place.1, record.chunkSha256, files[place.0].relativePath, record.text)
  }

  /** Which fault each error reports; everything before it was good. */
  ghost predicate Fault(h: Host, s: Streamed, error: ReadError) {
    var m, files, records := s.manifest, s.manifest.files, s.chunks;
    if m.kind != Wikitext103Raw then error == KindMismatch
    else if !RightChunking(m) then error == ChunkingMismatch
    else
      match error
      case KindMismatch | ChunkingMismatch => false
      case EndedEarly(i, j) =>
        GoodUpTo(h, files, records, |records|) && |records| < |Places(files)| && Places(files)[|records|] == (i, j)
      case OrderingMismatch(i, j) =>
        i < |files| &&
        var k := FirstChunk(files, i) + j;
        GoodUpTo(h, files, records, k) && k < |records| && k < |Places(files)| && Places(files)[k] == (i, j) &&
        !InOrder(files, records[k], (i, j))
      case ChecksumMismatch(i, j) =>
        i < |files| &&
        var k := FirstChunk(files, i) + j;
        GoodUpTo(h, files, records, k) && k < |records| && k < |Places(files)| && Places(files)[k] == (i, j) &&
        InOrder(files, records[k], (i, j)) && !Genuine(h, records[k])
      case TrailingRecords(count) =>
        GoodUpTo(h, files, records, |Places(files)|) && count == |records| - |Places(files)| > 0
      case EmptyCorpus => records == [] && |Places(files)| == 0
  }

  /** A stream with a fault is not accepted, so the reader's two answers exclude each other. */
  lemma FaultyIsNotAccepted(h: Host, s: Streamed, error: ReadError)
    requires Fault(h, s, error)
    ensures !Accepted(h, s)
  {
    hide Places, FirstChunk;
  }

  lemma BadHeader(h: Host, s: Streamed)
    ensures GoodUpTo(h, s.manifest.files, s.chunks, 0)
    ensures s.manifest.kind != Wikitext103Raw ==> Fault(h, s, KindMismatch) && !Accepted(h, s)
    ensures s.manifest.kind == Wikitext103Raw && !RightChunking(s.manifest) ==>
            Fault(h, s, ChunkingMismatch) && !Accepted(h, s)
  {
  }

  lemma GoodFits(h: Host, files: seq<ManifestFile>, records: seq<ChunkRecord>, n: nat)
    requires GoodUpTo(h, files, records, n)
    ensures n <= |records| && n <= |Places(files)|
  {
  }

  /** What the record due at place `i`, `j` settles, when all before it were good. */
  lemma Examined(h: Host, s: Streamed, i: nat, j: nat)
    requires s.manifest.kind == Wikitext103Raw && RightChunking(s.manifest)
    requires i < |s.manifest.files| && j < s.manifest.files[i].chunkCount
    requires GoodUpTo(h, s.manifest.files, s.chunks, FirstChunk(s.manifest.files, i) + j)
    ensures var files, k := s.manifest.files, FirstChunk(s.manifest.files, i) + j;
            if k == |s.chunks| then Fault(h, s, EndedEarly(i, j)) && !Accepted(h, s)
            else if !InOrder(files, s.chunks[k], (i, j)) then Fault(h, s, OrderingMismatch(i, j)) && !Accepted(h, s)
            else if !Genuine(h, s.chunks[k]) then Fault(h, s, ChecksumMismatch(i, j)) && !Accepted(h, s)
            else GoodUpTo(h, files, s.chunks, k + 1)
  {
    hide Places, FirstChunk;
    PlaceAt(s.manifest.files, i, j);
  }

  /** What the end settles, when every announced record was there and good. */
  lemma ExaminedAll(h: Host, s: Streamed)
    requires s.manifest.kind == Wikitext103Raw && RightChunking(s.manifest)
    requires GoodUpTo(h, s.manifest.files, s.chunks, |Places(s.manifest.files)|)
    ensures var n := |Places(s.manifest.files)|;
            if |s.chunks| > n then Fault(h, s, TrailingRecords(|s.chunks| - n)) && !Accepted(h, s)
            else if n == 0 then Fault(h, s, EmptyCorpus) && !Accepted(h, s)
            else Accepted(h, s)
  {
    hide Places, FirstChunk;
  }

  method BuildWikitextInputCorpus(h: Host, streamed: Streamed) returns (r: ReadResult)
    ensures r.Ok? <==> Accepted(h, streamed)
    ensures r.Ok? ==> Describes(streamed, r.corpus)
    ensures r.Err? ==> Fault(h, streamed, r.error)
  {
    hide Places, FirstChunk, GoodUpTo, Fault, Accepted;
    var manifest := streamed.manifest;
    BadHeader(h, streamed);
    if manifest.kind != Wikitext103Raw {
      return Err(KindMismatch);
    }
    if !RightChunking(manifest) {
      return Err(ChunkingMismatch);
    }
    var records, sources := streamed.chunks, manifest.files;
    var chunks: seq<InputCorpusChunk>, files: seq<InputCorpusFile> := [], [];
    var offset := 0;
    FirstChunkSteps(sources);
    PlacesCounted(sources);
    for fileIndex := 0 to |sources|
      invariant offset == |chunks| == FirstChunk(sources, fileIndex)
      invariant GoodUpTo(h, sources, records, offset)
      invariant ChunksRead(sources, records, chunks)
      invariant |files| == fileIndex
      invariant forall i :: 0 <= i < fileIndex ==>
                files[i] == InputCorpusFile(FirstChunk(sources, i), sources[i].chunkCount)
    {
      var file := sources[fileIndex];
      var firstChunkIndex := |chunks|;
      for expected := 0 to file.chunkCount
        invariant offset == |chunks| == firstChunkIndex + expected
        invariant GoodUpTo(h, sources, records, offset)
        invariant ChunksRead(sources, records, chunks)
      {
        PlaceAt(sources, fileIndex, expected);
        GoodFits(h, sources, records, offset);
        Examined(h, streamed, fileIndex, expected);
        if offset >= |records| {
          return Err(EndedEarly(fileIndex, expected));
        }
        var record := records[offset];
        if record.fileIndex != fileIndex || record.chunkIndex != expected || record.fileSha256 != file.sha256 {
          return Err(OrderingMismatch(fileIndex, expected));
        }
        var chunkSha256 := h.sha256(record.text);
        if chunkSha256 != record.chunkSha256 {
          return Err(ChecksumMismatch(fileIndex, expected));
        }
        var name := file.relativePath;
        chunks := chunks + [InputCorpusChunk(fileIndex, record.fileSha256, expected, chunkSha256, name, record.text)];
        offset := offset + 1;
      }
      files := files + [InputCorpusFile(firstChunkIndex, file.chunkCount)];
    }
    GoodFits(h, sources, records, offset);
    ExaminedAll(h, streamed);
    if offset != |records| {
      return Err(TrailingRecords(|records| - offset));
    }
    if files == [] || chunks == [] {
      NoFilesNoPlaces(sources);
      return Err(EmptyCorpus);
    }
    r := Ok(InputCorpus(manifest.(fileCount := |sources|, chunkCount := |chunks|), files, chunks));
  }

  lemma FirstChunkSteps(files: seq<ManifestFile>)
    ensures FirstChunk(files, 0) == 0
    ensures forall i :: 0 <= i < |files| ==> FirstChunk(files, i + 1) == FirstChunk(files, i) + files[i].chunkCount
  {
  }

  lemma NoFilesNoPlaces(files: seq<ManifestFile>)
    ensures files == [] ==> Places(files) == []
  {
  }

  // ---- Writer and reader together, and the layout the workload relies on ----

  lemma OneMoreRow(h: Host, files: seq<ManifestFile>, records: seq<ChunkRecord>, row: string)
    requires |records| == |Places(files)| && GoodUpTo(h, files, records, |records|)
    ensures var more, all := files + [FileOf(h, |files|, row)], records + RowRecords(h, |files|, row);
            |all| == |Places(more)| && GoodUpTo(h, more, all, |all|)
  {
    hide TextChunks;
    var more := files + [FileOf(h, |files|, row)];
    assert more[..|files|] == files;
  }

  /** The records the script writes are the ones its manifest announces. */
  lemma {:induction false} WrittenRecordsAreGood(h: Host, rows: seq<string>)
    ensures |RecordsOf(h, rows)| == |Places(FilesOf(h, rows))|
    ensures GoodUpTo(h, FilesOf(h, rows), RecordsOf(h, rows), |RecordsOf(h, rows)|)
  {
    hide TextChunks, Places, RowRecords, InOrder, Genuine;
    if rows != [] {
      var last := |rows| - 1;
      var before, row := rows[..last], rows[last];
      WrittenRecordsAreGood(h, before);
      var filesBefore := FilesOf(h, before);
      if TextChunks(h.isSpace, row) == [] {
        assert RecordsOf(h, rows) == RecordsOf(h, before) + [];
      } else {
        OneMoreRow(h, filesBefore, RecordsOf(h, before), row);
      }
    } else {
      NoFilesNoPlaces([]);
    }
  }

  /** The reader accepts whatever the script writes. */
  lemma WrittenIsAccepted(h: Host, rows: seq<string>, used: nat)
    requires Enough(h, rows, used)
    ensures Accepted(h, Written(h, rows[..used]))
  {
    WrittenRecordsAreGood(h, rows[..used]);
  }

  /** Each file's chunks stand together, in order, and every chunk knows its file and its number in it. */
  ghost predicate Layout(c: InputCorpus) {
    && c.chunks != []
    && (forall i: nat, j: nat :: i < |c.files| && j < c.files[i].chunkCount ==> StandsAt(c, i, j))
    && forall k :: 0 <= k < |c.chunks| ==>
         var chunk := c.chunks[k];
         && chunk.fileIndex < |c.files|
         && chunk.chunkIndex < c.files[chunk.fileIndex].chunkCount
         && k == c.files[chunk.fileIndex].firstChunkIndex + chunk.chunkIndex
  }

  ghost predicate StandsAt(c: InputCorpus, i: nat, j: nat)
    requires i < |c.files|
  {
    var k := c.files[i].firstChunkIndex + j;
    k < |c.chunks| && c.chunks[k].fileIndex == i && c.chunks[k].chunkIndex == j
  }

  lemma ReadCorpusHasLayout(s: Streamed, c: InputCorpus)
    requires Describes(s, c) && s.chunks != []
    ensures Layout(c)
  {
    hide Places, FirstChunk;
    var files := s.manifest.files;
    PlacesAreInside(files);
    forall i: nat, j: nat | i < |c.files| && j < c.files[i].chunkCount ensures StandsAt(c, i, j) {
      PlaceAt(files, i, j);
    }
    forall k | 0 <= k < |c.chunks|
      ensures var chunk := c.chunks[k];
              chunk.fileIndex < |c.files| && chunk.chunkIndex < c.files[chunk.fileIndex].chunkCount &&
              k == c.files[chunk.fileIndex].firstChunkIndex + chunk.chunkIndex
    {
      var (i, j) := Places(files)[k];
      assert c.files[i] == InputCorpusFile(FirstChunk(files, i), files[i].chunkCount);
    }
  }

  method WriteThenRead(h: Host, rows: seq<string>) returns (r: Option<InputCorpus>)
    ensures r.Some? <==> |RecordsOf(h, rows)| >= TARGET_CHUNK_COUNT
    ensures r.Some? ==> Layout(r.value)
    ensures r.Some? ==> exists used: nat :: Enough(h, rows, used) && Describes(Written(h, rows[..used]), r.value)
  {
    hide Accepted, Fault, RecordsOf, FilesOf, Places;
    var written := BuildCorpus(h, rows);
    if written.None? {
      return None;
    }
    ghost var used: nat :| Enough(h, rows, used) && written.value == Written(h, rows[..used]);
    WrittenIsAccepted(h, rows, used);
    var corpus := BuildWikitextInputCorpus(h, written.value);
    ReadCorpusHasLayout(written.value, corpus.corpus);
    r := Some(corpus.corpus);
  }
}
