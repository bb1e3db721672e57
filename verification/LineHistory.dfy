/**
 What the line backend's state means (src/backend/line_cli.rs): the bounded
 history against the batch reading of the whole stream, the edges a chunk
 makes, and the viewport/scrollback split.
*/
module LineHistory {
  import opened Common
  import opened LineText
  import opened LineEngine

  lemma {:induction false} EngineFoldsStream(size: Size, chunks: seq<string>)
    ensures Run(size, chunks).text == Stream(chunks)
  {
    if chunks != [] { EngineFoldsStream(size, chunks[..|chunks| - 1]); }
  }

  /**
   The line history of the backend is the batch reading of everything it was
   sent, cut to the newest 10 000 lines, exactly when no chunk boundary drops a
   line between a carriage return and its newline. Nothing else about the
   chunking matters.
  */
  lemma StreamingHistory(size: Size, chunks: seq<string>)
    ensures var e, whole := Run(size, chunks), Batch(Concat(chunks));
            && (LosslessCuts(chunks) <==> e.text == whole)
            && (LosslessCuts(chunks) ==>
                  && Retained(e) == LastN(whole.committed, MAX_LINES)
                  && e.evicted + |Retained(e)| == |whole.committed|
                  && e.text.pending == whole.pending && e.text.bells == whole.bells)
  {
    EngineFoldsStream(size, chunks);
    StreamEqualsBatch(chunks);
  }

  /** Two ways of cutting the same stream lose nothing and agree. */
  lemma ChunkingDoesNotMatter(size: Size, chunks: seq<string>, others: seq<string>)
    requires Concat(chunks) == Concat(others) && LosslessCuts(chunks) && LosslessCuts(others)
    ensures Run(size, chunks).text == Run(size, others).text
    ensures Run(size, chunks).evicted == Run(size, others).evicted
    ensures LiveScreen(size, Run(size, chunks)) == LiveScreen(size, Run(size, others))
  {
    StreamingHistory(size, chunks);
    StreamingHistory(size, others);
  }

  /** The stream "a\r\n" read as two chunks commits an empty line. */
  lemma SplitReturnLosesALine()
    ensures Stream(["a\r", "\n"]) == Text([""], "", 0)
    ensures Stream(["a\r\n"]) == Text(["a"], "", 0)
  {
    assert ["a\r", "\n"][..1] == ["a\r"];
    assert FoldTo(Blank, "a\r", 1) == Text([], "a", 0);
    assert Fold(Blank, "a\r") == Text([], "", 0);
    assert FoldTo(Text([], "", 0), "\n", 1) == Text([""], "", 0);
    assert FoldTo(Blank, "a\r\n", 1) == Text([], "a", 0);
    assert FoldTo(Blank, "a\r\n", 2) == Text([], "a", 0);
  }

  // ----- edges ------------------------------------------------------------

  lemma NewlinesTo(s: string, n: nat)
    requires n < |s|
    ensures Newlines(s[..n + 1]) == Newlines(s[..n]) + (if s[n] == LF then 1 else 0)
  {
    assert s[..n + 1][..n] == s[..n];
  }

  /** A chunk makes one edge per newline, each showing the screen right after it. */
  lemma {:induction false} EdgePerNewline(size: Size, e: Engine, chunk: string, n: nat)
    requires WellFormed(e) && n <= |chunk|
    ensures |CommitEdges(size, e, chunk, n)| == Newlines(chunk[..n])
    ensures forall p :: 0 <= p < n && chunk[p] == LF ==>
              Newlines(chunk[..p]) < Newlines(chunk[..n])
              && CommitEdges(size, e, chunk, n)[Newlines(chunk[..p])] == ScreenAfter(size, e, chunk, p + 1)
  {
    if n > 0 {
      EdgePerNewline(size, e, chunk, n - 1);
      NewlinesTo(chunk, n - 1);
      hide ScreenAfter, Newlines;
    }
  }

  lemma {:induction false} UntouchedPending(t: Text, chunk: string, n: nat)
    requires n <= |chunk| && LF !in chunk && !Touched(t, chunk, n)
    ensures FoldTo(t, chunk, n).committed == t.committed && FoldTo(t, chunk, n).pending == t.pending
  {
    if n > 0 { UntouchedPending(t, chunk, n - 1); }
  }

  /** No visible change goes without an edge: a chunk that makes none leaves the screen alone. */
  lemma ChangeMakesAnEdge(size: Size, e: Engine, chunk: string)
    requires WellFormed(e)
    ensures Ingested(size, e, chunk).edges == e.edges ==>
              LiveScreen(size, Ingested(size, e, chunk)) == LiveScreen(size, e)
  {
    if LF in chunk {
      var p: nat :| p < |chunk| && chunk[p] == LF;
      EdgePerNewline(size, e, chunk, |chunk|);
      assert |Ingested(size, e, chunk).edges| > |e.edges|;
    } else if !Touched(e.text, chunk, |chunk|) {
      UntouchedPending(e.text, chunk, |chunk|);
    } else {
      assert |Ingested(size, e, chunk).edges| == |e.edges| + 1;
    }
  }

  lemma {:induction false} PendingSince(t: Text, s: string, p: nat, n: nat)
    requires p < n <= |s| && s[p] == LF && forall i :: p < i < n ==> s[i] != LF
    ensures n == |s| || s[n] != LF ==> FoldTo(t, s, n).pending == PendingOf(s[p + 1..n])
  {
    if n > p + 1 {
      assert s[p + 1..n] == s[p + 1..n - 1] + [s[n - 1]];
      PendingSince(t, s, p, n - 1);
      SnocPending(s[p + 1..n - 1], s[n - 1]);
    }
  }

  lemma {:induction false} LastNewline(s: string) returns (p: nat)
    requires LF in s
    ensures p < |s| && s[p] == LF && LF !in s[p + 1..] && Tail(s) == s[p + 1..]
  {
    TailMeaning(s);
    var r := Tail(s);
    assert |r| == |s| ==> r == s;
    p := |s| - |r| - 1;
  }

  /** After a chunk with a newline the live line is that of the chunk's own tail. */
  lemma PendingAfterNewline(t: Text, chunk: string)
    requires LF in chunk
    ensures Fold(t, chunk).pending == PendingOf(Tail(chunk))
  {
    hide FoldTo, PendingOf, Tail;
    var p := LastNewline(chunk);
    forall i | p < i < |chunk|
      ensures chunk[i] != LF
    {
      assert chunk[i] == chunk[p + 1..][i - p - 1];
    }
    PendingSince(t, chunk, p, |chunk|);
    assert chunk[p + 1..|chunk|] == chunk[p + 1..];
  }

  lemma {:induction false} CommittedSince(t: Text, s: string, p: nat, n: nat)
    requires p < n <= |s| && forall i :: p < i < n ==> s[i] != LF
    ensures FoldTo(t, s, n).committed == FoldTo(t, s, p + 1).committed
  {
    if n > p + 1 { CommittedSince(t, s, p, n - 1); }
  }

  /** The newest edge of a chunk with a newline shows every line committed so far and no live line. */
  lemma NewestEdge(size: Size, e: Engine, chunk: string)
    requires WellFormed(e) && LF in chunk
    ensures var edges := Ingested(size, e, chunk).edges;
            && edges != []
            && e.text.committed <= Fold(e.text, chunk).committed
            && edges[|edges| - 1] == Shown(size, Fold(e.text, chunk).committed[e.evicted..], "")
  {
    var p := LastNewline(chunk);
    forall i | p < i < |chunk|
      ensures chunk[i] != LF
    {
      assert chunk[i] == chunk[p + 1..][i - p - 1];
    }
    EdgePerNewline(size, e, chunk, |chunk|);
    NoLaterNewlines(chunk, p, |chunk|);
    CommittedSince(e.text, chunk, p, |chunk|);
    CommittedGrows(e.text, chunk, 0, |chunk|);
    assert FoldTo(e.text, chunk, p + 1).pending == "";
  }

  lemma {:induction false} NoLaterNewlines(s: string, p: nat, n: nat)
    requires p < n <= |s| && s[p] == LF && forall i :: p < i < n ==> s[i] != LF
    ensures Newlines(s[..n]) == Newlines(s[..p]) + 1
  {
    NewlinesTo(s, n - 1);
    if n > p + 1 { NoLaterNewlines(s, p, n - 1); }
  }

  lemma {:induction false} CommittedCounts(t: Text, s: string, n: nat)
    requires n <= |s|
    ensures |FoldTo(t, s, n).committed| == |t.committed| + Newlines(s[..n])
  {
    if n > 0 {
      CommittedCounts(t, s, n - 1);
      NewlinesTo(s, n - 1);
    }
  }

  /** What a live line hides: nothing, if it looks like every row it could push up. */
  predicate LooksAlike(size: Size, lines: seq<string>, pending: string) {
    |lines| >= size.rows
    && forall k :: |lines| - size.rows <= k < |lines| ==>
         Truncated(lines[k], size.cols) == Truncated(pending, size.cols)
  }

  lemma PendingIsVisible(size: Size, lines: seq<string>, pending: string)
    requires size.rows > 0 && pending != ""
    ensures Shown(size, lines, "") == Shown(size, lines, pending) <==> LooksAlike(size, lines, pending)
  {
    var n, rows := |lines|, size.rows;
    var plain, live := Viewport(size, lines, ""), Viewport(size, lines, pending);
    if n < rows {
      assert |plain| == n && |live| == n + 1;
    } else {
      assert |plain| == |live| == rows;
      assert forall i :: 0 <= i < rows ==> plain[i] == Truncated(lines[n - rows + i], size.cols);
      assert forall i :: 0 <= i < rows - 1 ==> live[i] == plain[i + 1];
      assert live[rows - 1] == Truncated(pending, size.cols);
      hide Viewport;
      AlikeRows(plain, live, size, lines, pending);
    }
  }

  lemma {:induction false} AllAlikeFrom(rows: seq<string>, k: nat)
    requires k < |rows| && forall i :: 0 <= i < |rows| - 1 ==> rows[i] == rows[i + 1]
    ensures rows[k] == rows[|rows| - 1]
    decreases |rows| - k
  {
    if k + 1 < |rows| { AllAlikeFrom(rows, k + 1); }
  }

  lemma AllAlike(rows: seq<string>)
    ensures (forall i :: 0 <= i < |rows| - 1 ==> rows[i] == rows[i + 1]) ==>
              forall k :: 0 <= k < |rows| ==> rows[k] == rows[|rows| - 1]
  {
    if forall i :: 0 <= i < |rows| - 1 ==> rows[i] == rows[i + 1] {
      forall k | 0 <= k < |rows|
        ensures rows[k] == rows[|rows| - 1]
      {
        AllAlikeFrom(rows, k);
      }
    }
  }

  lemma AlikeRows(plain: seq<string>, live: seq<string>, size: Size, lines: seq<string>, pending: string)
    requires 0 < size.rows <= |lines| && |plain| == |live| == size.rows
    requires forall i :: 0 <= i < size.rows ==> plain[i] == Truncated(lines[|lines| - size.rows + i], size.cols)
    requires forall i :: 0 <= i < size.rows - 1 ==> live[i] == plain[i + 1]
    requires live[size.rows - 1] == Truncated(pending, size.cols)
    ensures plain == live <==> LooksAlike(size, lines, pending)
  {
    hide Truncated;
    var n, rows := |lines|, size.rows;
    if plain == live {
      AllAlike(plain);
      forall k | n - rows <= k < n
        ensures Truncated(lines[k], size.cols) == Truncated(pending, size.cols)
      {
        assert plain[k - (n - rows)] == plain[rows - 1];
      }
    }
    if LooksAlike(size, lines, pending) {
      assert forall i :: 0 <= i < rows ==> plain[i] == Truncated(pending, size.cols);
      assert forall i :: 0 <= i < rows ==> live[i] == Truncated(pending, size.cols);
    }
  }

  /** The same against a live screen that has lost its oldest `k` lines. */
  lemma EvictedIsVisible(size: Size, lines: seq<string>, k: nat, pending: string)
    requires 0 < k && |lines| == MAX_LINES + k
    ensures Shown(size, lines, "") == Shown(size, lines[k..], pending)
            <==> size.rows > MAX_LINES && k == 1 && pending != ""
                 && forall i :: 0 <= i < |lines| ==> Truncated(lines[i], size.cols) == Truncated(pending, size.cols)
  {
    var plain, live := Shown(size, lines, ""), Shown(size, lines[k..], pending);
    if size.rows <= MAX_LINES {
      assert |plain.scrollback| > |live.scrollback|;
    } else if |lines| > size.rows {
      assert |plain.scrollback| > 0 == |live.scrollback|;
    } else {
      EvictedRows(size, lines, k, pending);
    }
  }

  lemma EvictedRows(size: Size, lines: seq<string>, k: nat, pending: string)
    requires 0 < k && |lines| == MAX_LINES + k <= size.rows
    ensures Shown(size, lines, "") == Shown(size, lines[k..], pending)
            <==> k == 1 && pending != ""
                 && forall i :: 0 <= i < |lines| ==> Truncated(lines[i], size.cols) == Truncated(pending, size.cols)
  {
    var n := |lines|;
    var plain, live := Viewport(size, lines, ""), Viewport(size, lines[k..], pending);
    assert lines[0..] + [] == lines && lines[k..][0..] == lines[k..];
    assert |plain| == n && |live| == MAX_LINES + (if pending == "" then 0 else 1);
    assert Shown(size, lines, "").scrollback == [] == Shown(size, lines[k..], pending).scrollback;
    if k == 1 && pending != "" {
      assert forall i :: 0 <= i < n ==> plain[i] == Truncated(lines[i], size.cols);
      assert forall i :: 0 <= i < n - 1 ==> live[i] == plain[i + 1];
      assert live[n - 1] == Truncated(pending, size.cols);
      hide Viewport, Shown;
      ShiftedRows(plain, live);
      hide Truncated;
    }
  }

  /** A list is its own tail with `x` behind it exactly if it is `x` throughout. */
  lemma ShiftedRows(plain: seq<string>, live: seq<string>)
    requires |plain| == |live| > 0
    requires forall i :: 0 <= i < |plain| - 1 ==> live[i] == plain[i + 1]
    ensures plain == live <==> forall i :: 0 <= i < |plain| ==> plain[i] == live[|plain| - 1]
  {
    if plain == live { AllAlike(plain); }
  }

  /** The live line behind the newest edge cannot be told from it. */
  predicate Unseen(size: Size, lines: seq<string>, pending: string) {
    pending == "" || (size.rows > 0 && LooksAlike(size, lines, pending))
  }

  /** A single line was evicted from a screen that holds them all, and every row looks like the live line. */
  predicate UnseenEviction(size: Size, lines: seq<string>, pending: string) {
    && size.rows > MAX_LINES && |lines| == MAX_LINES + 1 && pending != ""
    && forall i :: 0 <= i < |lines| ==> Truncated(lines[i], size.cols) == Truncated(pending, size.cols)
  }

  /** What the newest edge of a chunk with a newline has in its snapshot. */
  function AtNewestEdge(e: Engine, chunk: string): seq<string>
    requires WellFormed(e)
  {
    CommittedGrows(e.text, chunk, 0, |chunk|);
    Fold(e.text, chunk).committed[e.evicted..]
  }

  /**
   A commit edge's snapshot is documented to reflect the final state of its
   chunk. It is taken behind the chunk's last newline and before the eviction, so
   it does exactly if nothing is evicted and no live line can be told behind that
   newline, or if both changes cancel on a screen of more than 10 000 equal rows.
  */
  lemma NewestEdgeIsLive(size: Size, e: Engine, chunk: string)
    requires WellFormed(e) && LF in chunk
    ensures var r, pending := Ingested(size, e, chunk), PendingOf(Tail(chunk));
            && r.edges != []
            && (r.edges[|r.edges| - 1] == LiveScreen(size, r)
                <==> if r.evicted == e.evicted then Unseen(size, Retained(r), pending)
                     else UnseenEviction(size, AtNewestEdge(e, chunk), pending))
  {
    hide FoldTo, Shown, LooksAlike, CommitEdges, Tail, PendingOf;
    NewestEdge(size, e, chunk);
    PendingAfterNewline(e.text, chunk);
    CommittedGrows(e.text, chunk, 0, |chunk|);
    var r, pending, lines := Ingested(size, e, chunk), PendingOf(Tail(chunk)), AtNewestEdge(e, chunk);
    if r.evicted == e.evicted {
      NoRowsShown(size, lines, pending);
      if size.rows > 0 && pending != "" { PendingIsVisible(size, lines, pending); }
    } else {
      var k: nat := r.evicted - e.evicted;
      assert lines[k..] == Retained(r);
      EvictedIsVisible(size, lines, k, pending);
    }
  }

  lemma NoRowsShown(size: Size, lines: seq<string>, pending: string)
    ensures size.rows == 0 && pending != "" ==> Shown(size, lines, "") != Shown(size, lines, pending)
  {
    if size.rows == 0 && pending != "" {
      assert |Viewport(size, lines, "")| == 0 && |Viewport(size, lines, pending)| == 1;
    }
  }

  /**
   Once 10 000 lines are retained every commit evicts: on a screen of at most
   that many rows no commit edge shows the final state any more.
  */
  lemma FullHistoryIsStale(size: Size, e: Engine, chunk: string)
    requires WellFormed(e) && LF in chunk && |Retained(e)| == MAX_LINES && size.rows <= MAX_LINES
    ensures var r := Ingested(size, e, chunk);
            && r.evicted == e.evicted + Newlines(chunk) > e.evicted
            && r.edges != [] && r.edges[|r.edges| - 1] != LiveScreen(size, r)
  {
    var p: nat :| p < |chunk| && chunk[p] == LF;
    EdgePerNewline(size, e, chunk, |chunk|);
    CommittedCounts(e.text, chunk, |chunk|);
    assert chunk[..|chunk|] == chunk;
    NewestEdgeIsLive(size, e, chunk);
    hide FoldTo, CommitEdges, LiveScreen, Newlines;
  }

  // ----- the viewport/scrollback split -----------------------------------

  /** The rendered split covers every retained row once and fits the grid. */
  lemma SynthPartition(size: Size, lines: seq<string>, pending: string)
    requires size.rows > 0
    ensures var all := lines + (if pending == "" then [] else [pending]);
            var s := Synth(size, lines, pending);
            && s.scrollback + LastN(all, size.rows) == all
            && s.viewport == TruncateAll(LastN(all, size.rows), size.cols)
  {
    var start := ViewportStart(size, lines, pending);
    if pending == "" {
      assert lines + [] == lines && lines[start..] + [] == LastN(lines, size.rows);
      assert lines[..start] + lines[start..] == lines;
    } else {
      var all := lines + [pending];
      assert lines[start..] + [pending] == LastN(all, size.rows);
      assert lines[..start] + (lines[start..] + [pending]) == all;
    }
  }

  /** Snapshots and waits cut the scrollback one row early while a line is pending. */
  lemma ShownDropsARow(size: Size, lines: seq<string>, pending: string)
    requires size.rows > 0
    ensures Shown(size, lines, pending) == Synth(size, lines, pending)
            <==> pending == "" || |lines| < size.rows
    ensures pending != "" && |lines| >= size.rows ==>
              Synth(size, lines, pending).scrollback
              == Shown(size, lines, pending).scrollback + [lines[|lines| - size.rows]]
  {
    if pending != "" && |lines| >= size.rows {
      var k := |lines| - size.rows;
      assert lines[..k + 1] == lines[..k] + [lines[k]];
      assert |Synth(size, lines, pending).scrollback| == |Shown(size, lines, pending).scrollback| + 1;
    }
  }
}
