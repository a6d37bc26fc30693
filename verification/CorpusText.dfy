/** Which windows of a text become chunks, when the chunks give the text back, and where the
    texts of the rows stand in the corpus that is read. */
module CorpusText {
  import opened Wire
  import opened Corpus

  // ---- Stripping ----

  /** `t` is `s` without the spaces at its two ends, and only without these. */
  ghost predicate OnlySpacesLost(isSpace: char -> bool, s: string, t: string) {
    exists i: nat, j: nat ::
      && i <= j <= |s| && t == s[i..j]
      && forall k :: 0 <= k < |s| && !(i <= k < j) ==> isSpace(s[k])
  }

  lemma StripLosesSpaces(isSpace: char -> bool, s: string)
    ensures OnlySpacesLost(isSpace, s, Strip(isSpace, s))
  {
    var i := LeadingSpaces(isSpace, s);
    if i == |s| {
      assert s[0..0] == [];
    }
  }

  // ---- Which windows are chunks ----

  /** Window `i` starts at 256 times `i` and has 384 characters, or what is left. */
  lemma WindowSlice(s: string, i: nat)
    requires s != [] && i < WindowCount(|s|)
    ensures 256 * i < |s| && Window(s, i) == s[256 * i..if 256 * i + 384 < |s| then 256 * i + 384 else |s|]
    ensures i < WindowCount(|s|) - 1 ==> 256 * i + 384 < |s|
  {
    LastWindow(|s|, i);
  }

  predicate LongWindow(isSpace: char -> bool, s: string, i: nat)
    requires s != [] && i < WindowCount(|s|)
  {
    |Strip(isSpace, Window(s, i))| >= 96
  }

  /** The windows with these numbers, ascending, are the long ones among the first `count`. */
  ghost predicate LongOnes(isSpace: char -> bool, s: string, count: nat, numbers: seq<nat>)
    requires s != [] && count <= WindowCount(|s|)
  {
    && (forall j, k :: 0 <= j < k < |numbers| ==> numbers[j] < numbers[k])
    && (forall k :: 0 <= k < |numbers| ==> numbers[k] < count)
    && forall i :: 0 <= i < count ==> (LongWindow(isSpace, s, i) <==> i in numbers)
  }

  ghost predicate AreWindows(isSpace: char -> bool, s: string, numbers: seq<nat>, chunks: seq<string>)
    requires s != [] && forall k :: 0 <= k < |numbers| ==> numbers[k] < WindowCount(|s|)
  {
    && |chunks| == |numbers|
    && forall k :: 0 <= k < |chunks| ==> chunks[k] == Strip(isSpace, Window(s, numbers[k]))
  }

  lemma {:induction false} KeptAreLong(isSpace: char -> bool, s: string, count: nat) returns (numbers: seq<nat>)
    requires s != [] && count <= WindowCount(|s|)
    ensures LongOnes(isSpace, s, count, numbers)
    ensures AreWindows(isSpace, s, numbers, KeptWindows(isSpace, s, count))
  {
    hide Strip, WindowCount, Window;
    numbers := [];
    if count > 0 {
      numbers := KeptAreLong(isSpace, s, count - 1);
      if LongWindow(isSpace, s, count - 1) {
        numbers := numbers + [count - 1];
      }
    }
  }

  /** The chunks of a text with 96 characters or more are its windows, stripped, that keep 96 characters
      or more, all of them and in their order; and only if there is none, the whole text. */
  lemma ChunksAreLongWindows(isSpace: char -> bool, text: string) returns (numbers: seq<nat>)
    requires |Strip(isSpace, text)| >= 96
    ensures var s := Strip(isSpace, text);
            && LongOnes(isSpace, s, WindowCount(|s|), numbers)
            && if numbers == [] then TextChunks(isSpace, text) == [s]
               else AreWindows(isSpace, s, numbers, TextChunks(isSpace, text))
  {
    hide Strip, WindowCount;
    var s := Strip(isSpace, text);
    numbers := KeptAreLong(isSpace, s, WindowCount(|s|));
  }

  // ---- Chunks that give the text back ----

  /** The first chunk, then each next one without its first 128 characters. */
  function Rejoined(chunks: seq<string>): string {
    if chunks == [] then []
    else if |chunks| == 1 then chunks[0]
    else
      var last := chunks[|chunks| - 1];
      Rejoined(chunks[..|chunks| - 1]) + if |last| < 128 then [] else last[128..]
  }

  /** No window is cut at a space. */
  ghost predicate CleanCuts(isSpace: char -> bool, s: string)
    requires s != []
  {
    forall i: nat :: i < WindowCount(|s|) ==> Trimmed(isSpace, Window(s, i))
  }

  lemma {:induction false} KeptAreAll(isSpace: char -> bool, s: string, count: nat)
    requires |s| >= 96 && count <= WindowCount(|s|) && CleanCuts(isSpace, s)
    ensures var kept := KeptWindows(isSpace, s, count);
            && |kept| == count && (forall i :: 0 <= i < count ==> kept[i] == Window(s, i))
            && Rejoined(kept) == Joined(s, count)
  {
    hide Strip, WindowCount, Window, CleanCuts, Rejoined;
    if count > 0 {
      var last := Window(s, count - 1);
      KeptAreAll(isSpace, s, count - 1);
      WindowIsLong(s, count - 1);
      CleanWindow(isSpace, s, count - 1);
      RejoinedOne(KeptWindows(isSpace, s, count - 1), last);
    } else {
      NothingRejoined();
    }
  }

  lemma CleanWindow(isSpace: char -> bool, s: string, i: nat)
    requires s != [] && i < WindowCount(|s|) && CleanCuts(isSpace, s)
    ensures Strip(isSpace, Window(s, i)) == Window(s, i)
  {
    hide WindowCount, Window, Trimmed;
  }

  lemma NothingRejoined()
    ensures Rejoined([]) == []
  {
  }

  lemma RejoinedOne(chunks: seq<string>, last: string)
    ensures Rejoined(chunks + [last]) ==
            if chunks == [] then last else Rejoined(chunks) + if |last| < 128 then [] else last[128..]
  {
    assert (chunks + [last])[..|chunks|] == chunks;
  }

  lemma WindowIsLong(s: string, i: nat)
    requires |s| >= 96 && i < WindowCount(|s|)
    ensures |Window(s, i)| >= 96
    ensures WindowCount(|s|) > 1 ==> |Window(s, i)| > 128
  {
    LastWindow(|s|, i);
  }

  /** If no window is cut at a space, every window is a chunk, so there are as many as the closed form
      says, and joining them without the characters neighbours share gives the text back. */
  lemma ChunksRejoin(isSpace: char -> bool, text: string)
    requires |Strip(isSpace, text)| >= 96 && CleanCuts(isSpace, Strip(isSpace, text))
    ensures var s, chunks := Strip(isSpace, text), TextChunks(isSpace, text);
            && |chunks| == (if |s| <= 384 then 1 else 1 + (|s| - 384 + 255) / 256)
            && Rejoined(chunks) == s
  {
    hide Strip, Trimmed, Joined;
    var s := Strip(isSpace, text);
    KeptAreAll(isSpace, s, WindowCount(|s|));
    WindowsRejoin(s, WindowCount(|s|));
  }

  /** A text without spaces is never cut at one. */
  lemma UnspacedRejoins(isSpace: char -> bool, text: string)
    requires |text| >= 96 && forall c :: c in text ==> !isSpace(c)
    ensures Rejoined(TextChunks(isSpace, text)) == text
    ensures |TextChunks(isSpace, text)| == WindowCount(|text|)
  {
    hide Strip, WindowCount;
    assert Trimmed(isSpace, text);
    forall i: nat | i < WindowCount(|text|) ensures Trimmed(isSpace, Window(text, i)) {
      LastWindow(|text|, i);
      var window := Window(text, i);
      assert window[0] in text && window[|window| - 1] in text;
    }
    ChunksRejoin(isSpace, text);
    KeptAreAll(isSpace, text, WindowCount(|text|));
  }

  // ---- From the rows to the corpus ----

  /** The rows that have chunks, in order. */
  function UsedRows(isSpace: char -> bool, rows: seq<string>): seq<string> {
    if rows == [] then []
    else
      var before, row := UsedRows(isSpace, rows[..|rows| - 1]), rows[|rows| - 1];
      if |Strip(isSpace, row)| >= 96 then before + [row] else before
  }

  /** The manifest entry and the records of one used row. */
  ghost predicate RowWritten(h: Host, s: Streamed, i: nat, row: string)
    requires i < |s.manifest.files|
  {
    var file, texts := s.manifest.files[i], TextChunks(h.isSpace, row);
    && file == ManifestFile(h.rowPath(i), h.sha256(row), h.encodedLen(row), |texts|)
    && FirstChunk(s.manifest.files, i) + |texts| <= |s.chunks|
    && forall j :: 0 <= j < |texts| ==>
         s.chunks[FirstChunk(s.manifest.files, i) + j] ==
         ChunkRecord(i, j, h.sha256(row), h.sha256(texts[j]), texts[j])
  }

  lemma RowWrittenBefore(h: Host, before: Streamed, after: Streamed, i: nat, row: string)
    requires before.manifest.files <= after.manifest.files && before.chunks <= after.chunks
    requires i < |before.manifest.files| && RowWritten(h, before, i, row)
    ensures RowWritten(h, after, i, row)
  {
    hide TextChunks, FirstChunk;
    var n := |before.manifest.files|;
    FirstChunkOfPrefix(after.manifest.files, n, i);
    assert after.manifest.files[..n] == before.manifest.files;
  }

  /** Every used row is written, one after the other, and nothing else is. */
  lemma {:induction false} RowsWritten(h: Host, rows: seq<string>)
    ensures var used, s := UsedRows(h.isSpace, rows), Written(h, rows);
            && |s.manifest.files| == |used| == s.manifest.fileCount
            && |s.chunks| == FirstChunk(s.manifest.files, |used|) == s.manifest.chunkCount
            && forall i :: 0 <= i < |used| ==> RowWritten(h, s, i, used[i])
  {
    hide Strip, FirstChunk, Written, RowWritten;
    WrittenCounted(h, rows);
    if rows != [] {
      var last := |rows| - 1;
      var before, row := rows[..last], rows[last];
      RowsWritten(h, before);
      var used, s := UsedRows(h.isSpace, before), Written(h, before);
      WrittenGrows(h, rows);
      LastRowWritten(h, rows);
      forall i | 0 <= i < |used| ensures RowWritten(h, Written(h, rows), i, used[i]) {
        RowWrittenBefore(h, s, Written(h, rows), i, used[i]);
      }
    }
  }

  lemma WrittenCounted(h: Host, rows: seq<string>)
    ensures var s := Written(h, rows);
            && s.manifest.fileCount == |s.manifest.files|
            && |s.chunks| == FirstChunk(s.manifest.files, |s.manifest.files|) == s.manifest.chunkCount
    ensures rows == [] ==> Written(h, rows).manifest.files == []
  {
    hide TextChunks, FirstChunk, GoodUpTo;
    WrittenRecordsAreGood(h, rows);
    PlacesCounted(FilesOf(h, rows));
  }

  lemma WrittenGrows(h: Host, rows: seq<string>)
    requires rows != []
    ensures var s, t := Written(h, rows[..|rows| - 1]), Written(h, rows);
            && s.manifest.files <= t.manifest.files && s.chunks <= t.chunks
            && if |Strip(h.isSpace, rows[|rows| - 1])| >= 96 then
                 |t.manifest.files| == |s.manifest.files| + 1 && TextChunks(h.isSpace, rows[|rows| - 1]) != []
               else |t.manifest.files| == |s.manifest.files|
  {
    hide TextChunks, Strip;
    NoChunksExactlyWhenShort(h.isSpace, rows[|rows| - 1]);
  }

  lemma LastRowWritten(h: Host, rows: seq<string>)
    requires rows != []
    ensures var s, row := Written(h, rows), rows[|rows| - 1];
            TextChunks(h.isSpace, row) != [] ==>
              s.manifest.files != [] && RowWritten(h, s, |s.manifest.files| - 1, row)
  {
    hide TextChunks, FirstChunk;
    var before, row := rows[..|rows| - 1], rows[|rows| - 1];
    if TextChunks(h.isSpace, row) != [] {
      var filesBefore := FilesOf(h, before);
      WrittenRecordsAreGood(h, before);
      PlacesCounted(filesBefore);
      var files := FilesOf(h, rows);
      assert files[..|filesBefore|] == filesBefore;
      FirstChunkOfPrefix(files, |filesBefore|, |filesBefore|);
    }
  }

  /** The corpus that is read has, for every used row and every chunk of it, that chunk where the file
      and the number say, under the row's path and with the row's hash. */
  lemma CorpusHoldsRows(h: Host, rows: seq<string>, c: InputCorpus)
    requires Describes(Written(h, rows), c)
    ensures var used := UsedRows(h.isSpace, rows);
            && |c.files| == |used|
            && forall i, j ::
                 0 <= i < |used| && 0 <= j < |TextChunks(h.isSpace, used[i])| ==>
                   var text := TextChunks(h.isSpace, used[i])[j];
                   && c.files[i].firstChunkIndex + j < |c.chunks|
                   && c.chunks[c.files[i].firstChunkIndex + j] ==
                        InputCorpusChunk(i, h.sha256(used[i]), j, h.sha256(text), h.rowPath(i), text)
  {
    hide TextChunks, UsedRows, Places, FirstChunk, Written;
    RowsWritten(h, rows);
    var used, s := UsedRows(h.isSpace, rows), Written(h, rows);
    forall i, j | 0 <= i < |used| && 0 <= j < |TextChunks(h.isSpace, used[i])|
      ensures var text := TextChunks(h.isSpace, used[i])[j];
              && c.files[i].firstChunkIndex + j < |c.chunks|
              && c.chunks[c.files[i].firstChunkIndex + j] ==
                   InputCorpusChunk(i, h.sha256(used[i]), j, h.sha256(text), h.rowPath(i), text)
    {
      assert RowWritten(h, s, i, used[i]);
      PlaceAt(s.manifest.files, i, j);
    }
  }

  // ---- Streams that were changed on the way ----

  /** Put into an accepted stream in place of another record, a record is accepted exactly if it names
      the same place and file hash and has the hash of its text. */
  lemma ChangedIsRefused(h: Host, s: Streamed, k: nat, record: ChunkRecord)
    requires Accepted(h, s) && k < |s.chunks|
    ensures Accepted(h, s.(chunks := s.chunks[k := record])) <==>
            && record.fileIndex == s.chunks[k].fileIndex && record.chunkIndex == s.chunks[k].chunkIndex
            && record.fileSha256 == s.chunks[k].fileSha256 && record.chunkSha256 == h.sha256(record.text)
  {
    hide Places;
    var changed := s.chunks[k := record];
    assert InOrder(s.manifest.files, s.chunks[k], Places(s.manifest.files)[k]);
    assert changed[k] == record;
  }

  /** A stream with records missing or added is not accepted under the same manifest. */
  lemma CutOrGrownIsRefused(h: Host, s: Streamed, chunks: seq<ChunkRecord>)
    requires Accepted(h, s) && |chunks| != |s.chunks|
    ensures !Accepted(h, s.(chunks := chunks))
  {
  }
}
