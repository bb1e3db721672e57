/**
 The pipe backend (src/backend/pipe.rs): one line store per stream beside one
 fused screen history, over bytes that each become one character.
*/
module PipeStreams {
  import opened Common
  import T = LineText

  const MAX_LINES: nat := 10_000

  predicate IsVisible(c: char) { c != T.LF && c != T.CR && c != T.BEL }

  /** No byte that a line store reacts to. */
  predicate Silent(chunk: string) { forall i :: 0 <= i < |chunk| ==> chunk[i] == T.CR || chunk[i] == T.BEL }

  // ----- lines measured in bytes ------------------------------------------

  /** A byte from 0x80 on is pushed as a character of two bytes. */
  function CharLen(c: char): nat { if c < '\U{80}' then 1 else 2 }

  /** `String::len`. */
  function ByteLen(s: string): nat {
    if s == "" then 0 else ByteLen(s[..|s| - 1]) + CharLen(s[|s| - 1])
  }

  /** The longest prefix that fits the width. */
  function Cut(s: string, cols: nat): string {
    if ByteLen(s) <= cols then s else Cut(s[..|s| - 1], cols)
  }

  /** The width falls inside a character: there `String::truncate` panics. */
  predicate Straddles(s: string, cols: nat) {
    ByteLen(s) > cols && forall k :: 0 <= k <= |s| ==> ByteLen(s[..k]) != cols
  }

  lemma ByteLenSnoc(s: string, c: char)
    ensures ByteLen(s + [c]) == ByteLen(s) + CharLen(c)
  {
    assert (s + [c])[..|s|] == s;
  }

  lemma {:induction false} ByteLenGrows(s: string, k: nat)
    requires k <= |s|
    ensures ByteLen(s[..k]) <= ByteLen(s)
    ensures k < |s| ==> ByteLen(s[..k]) < ByteLen(s)
  {
    if k == |s| {
      assert s[..k] == s;
    } else {
      var init := s[..|s| - 1];
      ByteLenGrows(init, k);
      assert init[..k] == s[..k];
    }
  }

  lemma {:induction false} CutIsLongest(s: string, cols: nat)
    ensures Cut(s, cols) <= s && ByteLen(Cut(s, cols)) <= cols
    ensures |Cut(s, cols)| < |s| ==> ByteLen(s[..|Cut(s, cols)| + 1]) > cols
  {
    hide ByteLen;
    NoBytesLong();
    if ByteLen(s) > cols {
      var init := s[..|s| - 1];
      CutIsLongest(init, cols);
      var n := |Cut(init, cols)|;
      if n == |init| { assert s[..n + 1] == s && init == s[..n]; } else { assert s[..n + 1] == init[..n + 1]; }
    }
  }

  lemma NoBytesLong()
    ensures ByteLen("") == 0
  {
  }

  /** A character is split exactly if the longest prefix that fits does not reach the width. */
  lemma CutMeaning(s: string, cols: nat)
    ensures Straddles(s, cols) <==> ByteLen(s) > cols && ByteLen(Cut(s, cols)) != cols
  {
    hide Cut, ByteLen;
    CutIsLongest(s, cols);
    var r, n := Cut(s, cols), |Cut(s, cols)|;
    assert s[..n] == r;
    assert s[..|s|] == s;
    forall k | 0 <= k <= |s| && ByteLen(s[..k]) == cols
      ensures ByteLen(s) > cols ==> ByteLen(r) == cols
    {
      if k < n {
        assert s[..n][..k] == s[..k];
        ByteLenGrows(s[..n], k);
      } else if k > n {
        assert s[..k][..n + 1] == s[..n + 1];
        ByteLenGrows(s[..k], n + 1);
      }
    }
  }

  /** ASCII lines never straddle. */
  lemma {:induction false} AsciiLen(s: string)
    requires forall i :: 0 <= i < |s| ==> s[i] < '\U{80}'
    ensures ByteLen(s) == |s|
  {
    if s != "" { AsciiLen(s[..|s| - 1]); }
  }

  lemma AsciiIsCut(s: string, cols: nat)
    requires forall i :: 0 <= i < |s| ==> s[i] < '\U{80}'
    ensures !Straddles(s, cols) && Cut(s, cols) == Truncated(s, cols)
  {
    AsciiLen(s);
    CutIsLongest(s, cols);
    CutMeaning(s, cols);
    var n := |Cut(s, cols)|;
    AsciiLen(s[..n]);
    if n < |s| { AsciiLen(s[..n + 1]); }
    if |s| > cols { AsciiLen(s[..cols]); }
  }

  /** A full line takes no further character, so it can only be a byte too long. */
  function Kept(s: string, cols: nat): string {
    if s == "" then ""
    else
      var kept := Kept(s[..|s| - 1], cols);
      if ByteLen(kept) < cols then kept + [s[|s| - 1]] else kept
  }

  lemma {:induction false} KeptMeaning(s: string, cols: nat)
    ensures Kept(s, cols) <= s && (Kept(s, cols) != s ==> ByteLen(Kept(s, cols)) >= cols)
    ensures Kept(s, cols) != "" ==> ByteLen(Kept(s, cols)[..|Kept(s, cols)| - 1]) < cols
  {
    hide ByteLen;
    if s != "" {
      var init, last := s[..|s| - 1], s[|s| - 1];
      KeptMeaning(init, cols);
      assert s == init + [last];
      var kept := Kept(init, cols);
      assert (kept + [last])[..|kept|] == kept;
    }
  }

  /** The kept text is cut like the whole, and splits a character exactly if it is one byte too long. */
  lemma KeptIsEnough(s: string, cols: nat)
    ensures Cut(Kept(s, cols), cols) == Cut(s, cols)
    ensures Straddles(Kept(s, cols), cols) <==> Straddles(s, cols)
    ensures Straddles(s, cols) <==> ByteLen(Kept(s, cols)) == cols + 1
  {
    hide Cut, Straddles, Kept;
    KeptMeaning(s, cols);
    var kept := Kept(s, cols);
    CutMeaning(s, cols);
    CutMeaning(kept, cols);
    SameCut(s, kept, cols);
    if kept != "" {
      var init := kept[..|kept| - 1];
      assert ByteLen(kept) == ByteLen(init) + CharLen(kept[|kept| - 1]);
      if ByteLen(kept) > cols {
        assert kept[..|init| + 1] == kept;
        CutIs(kept, init, cols);
      }
    }
    assert s[..|kept|] == kept;
    ByteLenGrows(s, |kept|);
    CutFits(kept, cols);
  }

  lemma CutFits(s: string, cols: nat)
    ensures ByteLen(s) <= cols ==> Cut(s, cols) == s
  {
  }

  /** The longest prefix that fits, told by the one that comes next. */
  lemma CutIs(s: string, p: string, cols: nat)
    requires p <= s && ByteLen(p) <= cols
    requires |p| < |s| ==> ByteLen(s[..|p| + 1]) > cols
    ensures Cut(s, cols) == p
  {
    hide Cut, ByteLen;
    CutIsLongest(s, cols);
    var n := |Cut(s, cols)|;
    assert s[..n] == Cut(s, cols);
    if n < |p| {
      assert p[..n + 1] == s[..n + 1];
      ByteLenGrows(p, n + 1);
    } else if n > |p| {
      assert s[..n][..|p| + 1] == s[..|p| + 1];
      ByteLenGrows(s[..n], |p| + 1);
    }
    assert s[..n] == s[..|p|];
  }

  lemma SameCut(s: string, kept: string, cols: nat)
    requires kept <= s && (kept != s ==> ByteLen(kept) >= cols)
    ensures Cut(kept, cols) == Cut(s, cols)
  {
    hide Cut, ByteLen;
    CutIsLongest(kept, cols);
    var n := |Cut(kept, cols)|;
    assert s[..n] == kept[..n] == Cut(kept, cols);
    if n < |kept| {
      assert s[..n + 1] == kept[..n + 1];
    } else if n < |s| {
      assert s[..n + 1][..n] == kept;
      ByteLenGrows(s[..n + 1], n);
    }
    CutIs(s, kept[..n], cols);
  }

  // ----- a stream's own line split ----------------------------------------

  datatype Split = Split(lines: seq<string>, partial: string)

  function Step(cols: nat, s: Split, c: char): Split {
    if c == T.LF then Split(s.lines + [Cut(s.partial, cols)], "")
    else if IsVisible(c) then s.(partial := s.partial + [c])
    else s
  }

  function Fold(cols: nat, s: Split, text: string): Split {
    if text == "" then s else Step(cols, Fold(cols, s, text[..|text| - 1]), text[|text| - 1])
  }

  const Empty: Split := Split([], "")

  /** What a store shows: the lines, and the partial line if it has any text. */
  function Shown(s: Split): seq<string> { s.lines + (if s.partial == "" then [] else [s.partial]) }

  function VisibleOf(s: string): string {
    if s == "" then ""
    else VisibleOf(s[..|s| - 1]) + (if IsVisible(s[|s| - 1]) then [s[|s| - 1]] else "")
  }

  function LinesOf(cols: nat, segments: seq<string>): seq<string> {
    seq(|segments|, i requires 0 <= i < |segments| => Cut(VisibleOf(segments[i]), cols))
  }

  lemma {:induction false} FoldConcat(cols: nat, s: Split, a: string, b: string)
    ensures Fold(cols, s, a + b) == Fold(cols, Fold(cols, s, a), b)
  {
    if b == "" {
      assert a + b == a;
    } else {
      assert (a + b)[..|a + b| - 1] == a + b[..|b| - 1];
      FoldConcat(cols, s, a, b[..|b| - 1]);
    }
  }

  /** The fold is the split at newlines, with the invisible bytes dropped. */
  lemma {:induction false} FoldIsOwnSplit(cols: nat, text: string)
    ensures Fold(cols, Empty, text) == Split(LinesOf(cols, T.Segments(text)), VisibleOf(T.Tail(text)))
  {
    if text == "" {
      assert LinesOf(cols, T.Segments(text)) == [];
    } else {
      var init, c := text[..|text| - 1], text[|text| - 1];
      FoldIsOwnSplit(cols, init);
      T.TailSnoc(init, c);
      assert init + [c] == text;
      if c == T.LF {
        LinesOfSnoc(cols, T.Segments(init), T.Tail(init));
      } else {
        assert (T.Tail(init) + [c])[..|T.Tail(init)|] == T.Tail(init);
        assert !IsVisible(c) ==> VisibleOf(T.Tail(init)) + "" == VisibleOf(T.Tail(init));
      }
    }
  }

  lemma LinesOfSnoc(cols: nat, segments: seq<string>, last: string)
    ensures LinesOf(cols, segments + [last]) == LinesOf(cols, segments) + [Cut(VisibleOf(last), cols)]
  {
  }

  // ----- the store the code keeps -----------------------------------------

  /** `all` starts with the `evicted` lines no longer kept; `open` is `trailing_unterminated`. */
  datatype Store = Store(all: seq<string>, evicted: nat, open: bool)

  const NoLines: Store := Store([], 0, false)

  /** The line the next chunk continues, taken off the kept lines when the store is open. */
  function Reopened(s: Store): Split {
    if s.open && s.evicted < |s.all| then Split(s.all[..|s.all| - 1], s.all[|s.all| - 1]) else Split(s.all, "")
  }

  function Stored(cols: nat, s: Store, chunk: string): Store {
    var all := Shown(Fold(cols, Reopened(s), chunk));
    Store(all, Max(s.evicted, |all| - MAX_LINES), T.LF !in chunk)
  }

  function StoredAll(cols: nat, chunks: seq<string>): Store {
    if chunks == [] then NoLines
    else Stored(cols, StoredAll(cols, chunks[..|chunks| - 1]), chunks[|chunks| - 1])
  }

  /** Eviction always leaves something to show. */
  predicate Lively(s: Store) { if s.all == [] then s.evicted == 0 else s.evicted < |s.all| }

  /**
   The next chunk is filed wrongly: it starts a new line behind an unfinished
   one, or goes on with a line that was already finished.
  */
  predicate Misfiled(own: Split, open: bool, chunk: string) {
    || (!open && own.partial != "" && !Silent(chunk))
    || (open && own.partial == "" && own.lines != []
        && !(Silent(chunk) && own.lines[|own.lines| - 1] != ""))
  }

  /** After the first chunk, a store is open exactly when the last chunk held no newline. */
  predicate OpenAfter(chunks: seq<string>) { chunks != [] && T.LF !in chunks[|chunks| - 1] }

  predicate WellFiled(cols: nat, chunks: seq<string>) {
    chunks != [] ==>
      var init := chunks[..|chunks| - 1];
      WellFiled(cols, init)
      && !Misfiled(Fold(cols, Empty, Concat(init)), OpenAfter(init), chunks[|chunks| - 1])
  }

  /** How many entries a store shows after a chunk. */
  lemma {:induction false} ShownCount(cols: nat, s: Split, chunk: string)
    ensures |Fold(cols, s, chunk).lines| == |s.lines| + T.Newlines(chunk)
    ensures Fold(cols, s, chunk).partial
         == if T.Newlines(chunk) == 0 then s.partial + VisibleOf(chunk) else Fold(cols, Empty, chunk).partial
  {
    if chunk == "" {
      assert s.partial + "" == s.partial;
    } else {
      var init, c := chunk[..|chunk| - 1], chunk[|chunk| - 1];
      ShownCount(cols, s, init);
      if IsVisible(c) { assert s.partial + (VisibleOf(init) + [c]) == (s.partial + VisibleOf(init)) + [c]; }
    }
  }

  lemma {:induction false} SilentChunk(cols: nat, s: Split, chunk: string)
    ensures Silent(chunk) <==> T.Newlines(chunk) == 0 && VisibleOf(chunk) == ""
    ensures Silent(chunk) ==> Fold(cols, s, chunk) == s
    ensures T.LF in chunk <==> T.Newlines(chunk) > 0
  {
    if chunk != "" {
      var init, c := chunk[..|chunk| - 1], chunk[|chunk| - 1];
      SilentChunk(cols, s, init);
      assert chunk == init + [c];
    }
  }

  /** The chunk continues what the stream itself would continue. */
  lemma ChunkContinued(cols: nat, own: Split, s: Store, chunk: string)
    requires s.all == Shown(own) && Reopened(s) == own
    ensures Stored(cols, s, chunk).all == Shown(Fold(cols, own, chunk))
  {
  }

  /** The chunk starts a line behind the unfinished one. */
  lemma ChunkSplitsLine(cols: nat, own: Split, s: Store, chunk: string)
    requires s.all == Shown(own) && !s.open && own.partial != ""
    ensures Stored(cols, s, chunk).all == Shown(Fold(cols, own, chunk)) <==> Silent(chunk)
  {
    var r := Split(own.lines + [own.partial], "");
    ShownCount(cols, own, chunk);
    ShownCount(cols, r, chunk);
    SilentChunk(cols, own, chunk);
    SilentChunk(cols, r, chunk);
    hide Fold, T.Newlines, VisibleOf, Silent;
  }

  /** The chunk goes on with the last finished line. */
  lemma ChunkReopensLine(cols: nat, own: Split, s: Store, chunk: string)
    requires s.all == Shown(own) && Lively(s) && s.open && own.partial == "" && own.lines != []
    ensures Stored(cols, s, chunk).all == Shown(Fold(cols, own, chunk))
            <==> Silent(chunk) && own.lines[|own.lines| - 1] != ""
  {
    var n := |own.lines|;
    var r := Split(own.lines[..n - 1], own.lines[n - 1]);
    assert own.lines + [] == own.lines;
    assert own.lines[..n - 1] + [own.lines[n - 1]] == own.lines;
    ShownCount(cols, own, chunk);
    ShownCount(cols, r, chunk);
    SilentChunk(cols, own, chunk);
    SilentChunk(cols, r, chunk);
    hide Fold, T.Newlines, VisibleOf, Silent;
  }

  /** A correct store stays correct through a chunk exactly when the chunk is not misfiled. */
  lemma ChunkStep(cols: nat, own: Split, s: Store, chunk: string)
    requires s.all == Shown(own) && Lively(s)
    ensures Stored(cols, s, chunk).all == Shown(Fold(cols, own, chunk)) <==> !Misfiled(own, s.open, chunk)
  {
    hide Stored, Fold, Silent;
    if own.partial != "" && s.open {
      assert (own.lines + [own.partial])[..|own.lines|] == own.lines;
      ChunkContinued(cols, own, s, chunk);
    } else if own.partial != "" {
      ChunkSplitsLine(cols, own, s, chunk);
    } else if s.open && own.lines != [] {
      ChunkReopensLine(cols, own, s, chunk);
    } else {
      assert own.lines + [] == own.lines;
      ChunkContinued(cols, own, s, chunk);
    }
  }

  lemma StaysLively(cols: nat, own: Split, s: Store, chunk: string)
    requires s.all == Shown(own) && Lively(s)
    requires Stored(cols, s, chunk).all == Shown(Fold(cols, own, chunk))
    ensures Lively(Stored(cols, s, chunk))
  {
    ShownCount(cols, own, chunk);
    hide Fold, T.Newlines, VisibleOf;
    assert |Shown(Fold(cols, own, chunk))| >= |Shown(own)|;
  }

  lemma {:induction false} OpenFlag(cols: nat, chunks: seq<string>)
    ensures StoredAll(cols, chunks).open == OpenAfter(chunks)
  {
  }

  /** Correct after every chunk so far. */
  ghost predicate AlwaysOwnSplit(cols: nat, chunks: seq<string>) {
    forall k: nat {:trigger StoredAll(cols, chunks[..k])} :: k <= |chunks| ==>
      StoredAll(cols, chunks[..k]).all == Shown(Fold(cols, Empty, Concat(chunks[..k])))
  }

  /**
   A stream's store is that stream's own line split, after every chunk, exactly
   when no chunk is misfiled.
  */
  lemma {:induction false} StoreIsOwnSplit(cols: nat, chunks: seq<string>)
    ensures AlwaysOwnSplit(cols, chunks) <==> WellFiled(cols, chunks)
    ensures WellFiled(cols, chunks) ==> Lively(StoredAll(cols, chunks))
  {
    if chunks == [] {
      assert forall k: nat :: k <= |chunks| ==> chunks[..k] == [];
    } else {
      var init, last := chunks[..|chunks| - 1], chunks[|chunks| - 1];
      StoreIsOwnSplit(cols, init);
      AlwaysSnoc(cols, init, chunks);
      if AlwaysOwnSplit(cols, init) {
        assert init[..|init|] == init;
        OpenFlag(cols, init);
        FoldConcat(cols, Empty, Concat(init), last);
        var own := Fold(cols, Empty, Concat(init));
        ChunkStep(cols, own, StoredAll(cols, init), last);
        if !Misfiled(own, OpenAfter(init), last) { StaysLively(cols, own, StoredAll(cols, init), last); }
      }
    }
  }

  lemma AlwaysSnoc(cols: nat, init: seq<string>, chunks: seq<string>)
    requires chunks != [] && init == chunks[..|chunks| - 1]
    ensures AlwaysOwnSplit(cols, chunks)
            <==> AlwaysOwnSplit(cols, init)
                 && StoredAll(cols, chunks).all == Shown(Fold(cols, Empty, Concat(chunks)))
  {
    hide StoredAll, Fold, Shown, Concat;
    assert chunks[..|chunks|] == chunks;
    forall k: nat | k <= |init|
      ensures chunks[..k] == init[..k]
    {
    }
    if AlwaysOwnSplit(cols, chunks) {
      forall k: nat | k <= |init|
        ensures StoredAll(cols, init[..k]).all == Shown(Fold(cols, Empty, Concat(init[..k])))
      {
        assert StoredAll(cols, chunks[..k]) == StoredAll(cols, init[..k]);
      }
      assert StoredAll(cols, chunks[..|chunks|]).all == Shown(Fold(cols, Empty, Concat(chunks[..|chunks|])));
    }
  }

  /** Line-buffered output: a newline only at the end of a chunk, some text in every other chunk. */
  predicate LineBuffered(chunk: string) {
    if T.LF in chunk then chunk[|chunk| - 1] == T.LF else !Silent(chunk)
  }

  /** Line-buffered chunks are always filed correctly. */
  lemma {:induction false} LineBufferedIsWellFiled(cols: nat, chunks: seq<string>)
    requires forall i :: 0 <= i < |chunks| ==> LineBuffered(chunks[i])
    ensures WellFiled(cols, chunks)
    ensures OpenAfter(chunks) <==> Fold(cols, Empty, Concat(chunks)).partial != ""
  {
    if chunks != [] {
      var init, last := chunks[..|chunks| - 1], chunks[|chunks| - 1];
      LineBufferedIsWellFiled(cols, init);
      FoldConcat(cols, Empty, Concat(init), last);
      var own := Fold(cols, Empty, Concat(init));
      ShownCount(cols, own, last);
      SilentChunk(cols, own, last);
      if T.LF in last { assert Fold(cols, own, last).partial == ""; }
      hide Fold, T.Newlines, VisibleOf;
    }
  }

  predicate AllVisible(text: string) { forall i :: 0 <= i < |text| ==> IsVisible(text[i]) }

  lemma {:induction false} VisibleAppends(cols: nat, s: Split, text: string)
    requires AllVisible(text)
    ensures Fold(cols, s, text) == Split(s.lines, s.partial + text)
  {
    if text == "" {
      assert s.partial + "" == s.partial;
    } else {
      VisibleAppends(cols, s, text[..|text| - 1]);
      assert text == text[..|text| - 1] + [text[|text| - 1]];
    }
  }

  lemma NewlineFold(cols: nat, s: Split)
    ensures Fold(cols, s, [T.LF]) == Split(s.lines + [Cut(s.partial, cols)], "")
  {
  }

  /** A chunk that ends in the middle of a line, behind a newline, spoils the store. */
  lemma UnfinishedLineIsMisfiled(cols: nat, y: string, next: string)
    requires AllVisible(y) && y != "" && !Silent(next)
    ensures !AlwaysOwnSplit(cols, [[T.LF] + y, next])
  {
    var first := [T.LF] + y;
    FoldConcat(cols, Empty, [T.LF], y);
    NewlineFold(cols, Empty);
    VisibleAppends(cols, Fold(cols, Empty, [T.LF]), y);
    hide Fold, Silent;
    assert "" + first == first && [first, next][..1] == [first] && [first][..0] == [];
    assert Misfiled(Fold(cols, Empty, first), OpenAfter([first]), next);
    StoreIsOwnSplit(cols, [first, next]);
  }

  // ----- the fused screen history -----------------------------------------

  datatype Fused = Fused(lines: seq<string>, pending: string, bells: nat, edges: nat)

  const Dark: Fused := Fused([], "", 0, 0)

  /** `ingest_fused`: every visible byte beyond the width is dropped, every return clears. */
  function FusedStep(cols: nat, f: Fused, c: char): Fused {
    if c == T.LF then Fused(f.lines + [Cut(f.pending, cols)], "", f.bells, f.edges + 1)
    else if c == T.CR then (if f.pending == "" then f else f.(pending := "", edges := f.edges + 1))
    else if c == T.BEL then f.(bells := f.bells + 1)
    else if ByteLen(f.pending) < cols then f.(pending := f.pending + [c], edges := f.edges + 1)
    else f
  }

  function FusedFold(cols: nat, f: Fused, text: string): Fused {
    if text == "" then f else FusedStep(cols, FusedFold(cols, f, text[..|text| - 1]), text[|text| - 1])
  }

  lemma {:induction false} FusedConcat(cols: nat, f: Fused, a: string, b: string)
    ensures FusedFold(cols, f, a + b) == FusedFold(cols, FusedFold(cols, f, a), b)
  {
    if b == "" {
      assert a + b == a;
    } else {
      assert (a + b)[..|a + b| - 1] == a + b[..|b| - 1];
      FusedConcat(cols, f, a, b[..|b| - 1]);
    }
  }

  /** What the fused screen shows differs. */
  predicate Differ(f: Fused, f': Fused) { f'.lines != f.lines || f'.pending != f.pending }

  /** How many of the bytes change what the fused screen shows. */
  function Changes(cols: nat, f: Fused, text: string): nat {
    if text == "" then 0
    else
      var init := text[..|text| - 1];
      Changes(cols, f, init) + (if Differ(FusedFold(cols, f, init), FusedFold(cols, f, text)) then 1 else 0)
  }

  /** Every change is an edge, and every edge is a change. */
  lemma {:induction false} EdgesCountChanges(cols: nat, f: Fused, text: string)
    ensures FusedFold(cols, f, text).edges == f.edges + Changes(cols, f, text)
  {
    hide ByteLen, Cut;
    if text != "" {
      var init := text[..|text| - 1];
      EdgesCountChanges(cols, f, init);
      EdgeIsAChange(cols, FusedFold(cols, f, init), text[|text| - 1]);
    }
  }

  lemma EdgeIsAChange(cols: nat, f: Fused, c: char)
    ensures FusedStep(cols, f, c).edges == f.edges + (if Differ(f, FusedStep(cols, f, c)) then 1 else 0)
  {
    hide ByteLen, Cut;
    var r := FusedStep(cols, f, c);
    assert |r.lines| > |f.lines| || r.lines == f.lines;
    if r.pending == f.pending + [c] { assert |r.pending| > |f.pending|; }
  }

  function FusedLines(cols: nat, segments: seq<string>): seq<string> {
    seq(|segments|, i requires 0 <= i < |segments| => Cut(T.PendingOf(segments[i]), cols))
  }

  lemma FusedLinesSnoc(cols: nat, segments: seq<string>, last: string)
    ensures FusedLines(cols, segments + [last]) == FusedLines(cols, segments) + [Cut(T.PendingOf(last), cols)]
  {
  }

  /** What the fused history holds after a text. */
  predicate FusedReads(cols: nat, f: Fused, text: string) {
    && f.lines == FusedLines(cols, T.Segments(text)) && f.bells == T.Bells(text)
    && f.pending == Kept(T.PendingOf(T.Tail(text)), cols)
  }

  lemma KeptSnoc(s: string, c: char, cols: nat)
    ensures Kept(s + [c], cols) == if ByteLen(Kept(s, cols)) < cols then Kept(s, cols) + [c] else Kept(s, cols)
    ensures Kept("", cols) == ""
  {
    assert (s + [c])[..|s|] == s;
  }

  lemma FusedReadsOn(cols: nat, f: Fused, text: string, c: char)
    requires FusedReads(cols, f, text)
    ensures FusedReads(cols, FusedStep(cols, f, c), text + [c])
  {
    hide T.PendingOf, T.Tail, T.Segments, T.Bells, FusedLines, Cut, Kept, ByteLen;
    var pending := T.PendingOf(T.Tail(text));
    T.TailSnoc(text, c);
    KeptSnoc(pending, c, cols);
    KeptIsEnough(pending, cols);
    if c == T.LF {
      FusedLinesSnoc(cols, T.Segments(text), T.Tail(text));
      EmptyPending();
    } else {
      T.SnocPending(T.Tail(text), c);
    }
  }

  lemma EmptyPending()
    ensures T.PendingOf("") == ""
  {
  }

  /** The fused history is the text cut at newlines, each line what follows its last return. */
  lemma {:induction false} FusedMeaning(cols: nat, text: string)
    ensures FusedReads(cols, FusedFold(cols, Dark, text), text)
  {
    if text == "" {
      assert FusedLines(cols, T.Segments(text)) == [];
    } else {
      var init, c := text[..|text| - 1], text[|text| - 1];
      FusedMeaning(cols, init);
      hide FusedReads, FusedStep;
      FusedReadsOn(cols, FusedFold(cols, Dark, init), init, c);
      assert init + [c] == text;
    }
  }

  /** What the line backend commits, cut to the width. */
  function LineBackendLines(cols: nat, segments: seq<string>): seq<string> {
    seq(|segments|, i requires 0 <= i < |segments| => Cut(T.LineOf(segments[i]), cols))
  }

  /** A return before the newline, behind something to show. */
  predicate Returned(cols: nat, segment: string) {
    segment != "" && segment[|segment| - 1] == T.CR && Cut(T.LineOf(segment), cols) != ""
  }

  /**
   The fused history is documented to mirror the line backend's contract. It
   does exactly while no nonempty line ends in a return and a newline.
  */
  lemma FusedMirrorsLines(cols: nat, text: string)
    ensures FusedFold(cols, Dark, text).lines == LineBackendLines(cols, T.Segments(text))
            <==> forall i :: 0 <= i < |T.Segments(text)| ==> !Returned(cols, T.Segments(text)[i])
  {
    FusedMeaning(cols, text);
    var segments := T.Segments(text);
    hide FusedFold, T.Segments;
    forall i | 0 <= i < |segments|
      ensures Cut(T.PendingOf(segments[i]), cols) == Cut(T.LineOf(segments[i]), cols)
              <==> !Returned(cols, segments[i])
    {
      PendingOrReturned(segments[i]);
    }
    hide T.PendingOf, T.LineOf, Returned, Cut;
    if i :| 0 <= i < |segments| && Returned(cols, segments[i]) {
      assert FusedLines(cols, segments)[i] != LineBackendLines(cols, segments)[i];
    }
  }

  lemma PendingOrReturned(segment: string)
    ensures segment != "" && segment[|segment| - 1] == T.CR ==> T.PendingOf(segment) == ""
    ensures !(segment != "" && segment[|segment| - 1] == T.CR) ==> T.LineOf(segment) == T.PendingOf(segment)
  {
  }

  /** A return before a newline empties the fused line, though the store keeps it. */
  lemma FusedLosesReturnedLine(cols: nat, line: string)
    requires AllVisible(line)
    requires line != "" && ByteLen(line) <= cols
    ensures FusedFold(cols, Dark, line + "\r\n").lines == [""]
    ensures Shown(Fold(cols, Empty, line + "\r\n")) == [line]
  {
    hide AllVisible, FusedFold, Fold, Cut;
    VisibleLine(cols, line);
    assert line + "\r\n" == line + "\r" + "\n";
    OneMore(cols, line, T.CR);
    OneMore(cols, line + "\r", T.LF);
    CutFits("", cols);
    CutFits(line, cols);
  }

  lemma OneMore(cols: nat, text: string, c: char)
    ensures FusedFold(cols, Dark, text + [c]) == FusedStep(cols, FusedFold(cols, Dark, text), c)
    ensures Fold(cols, Empty, text + [c]) == Step(cols, Fold(cols, Empty, text), c)
  {
    assert (text + [c])[..|text|] == text;
  }

  lemma {:induction false} VisibleLine(cols: nat, line: string)
    requires AllVisible(line) && ByteLen(line) <= cols
    ensures FusedFold(cols, Dark, line).pending == line && FusedFold(cols, Dark, line).lines == []
    ensures Fold(cols, Empty, line) == Split([], line)
  {
    if line != "" {
      var init, last := line[..|line| - 1], line[|line| - 1];
      assert line == init + [last] && IsVisible(last);
      VisibleLine(cols, init);
    }
  }

  // ----- which bytes are taken at all -------------------------------------

  /** No newline finds the width inside a character of the line it commits. */
  predicate Commits(cols: nat, s: Split, text: string) {
    text == "" ||
    var init, c := text[..|text| - 1], text[|text| - 1];
    Commits(cols, s, init) && (c == T.LF ==> !Straddles(Fold(cols, s, init).partial, cols))
  }

  predicate FusedCommits(cols: nat, f: Fused, text: string) {
    text == "" ||
    var init, c := text[..|text| - 1], text[|text| - 1];
    FusedCommits(cols, f, init) && (c == T.LF ==> !Straddles(FusedFold(cols, f, init).pending, cols))
  }

  lemma {:induction false} CommitsTo(cols: nat, s: Split, text: string, n: nat)
    requires n <= |text|
    ensures Commits(cols, s, text) ==> Commits(cols, s, text[..n])
  {
    if n == |text| {
      assert text[..n] == text;
    } else {
      CommitsTo(cols, s, text[..|text| - 1], n);
      assert text[..|text| - 1][..n] == text[..n];
    }
  }

  lemma {:induction false} FusedCommitsTo(cols: nat, f: Fused, text: string, n: nat)
    requires n <= |text|
    ensures FusedCommits(cols, f, text) ==> FusedCommits(cols, f, text[..n])
  {
    if n == |text| {
      assert text[..n] == text;
    } else {
      FusedCommitsTo(cols, f, text[..|text| - 1], n);
      assert text[..|text| - 1][..n] == text[..n];
    }
  }

  predicate NoneStraddles(lines: seq<string>, cols: nat) {
    forall i :: 0 <= i < |lines| ==> !Straddles(lines[i], cols)
  }

  function Visibles(segments: seq<string>): seq<string> {
    seq(|segments|, i requires 0 <= i < |segments| => VisibleOf(segments[i]))
  }

  function Pendings(segments: seq<string>): seq<string> {
    seq(|segments|, i requires 0 <= i < |segments| => T.PendingOf(segments[i]))
  }

  lemma NoneStraddlesSnoc(segments: seq<string>, last: string, cols: nat)
    ensures NoneStraddles(Visibles(segments + [last]), cols)
            <==> NoneStraddles(Visibles(segments), cols) && !Straddles(VisibleOf(last), cols)
    ensures NoneStraddles(Pendings(segments + [last]), cols)
            <==> NoneStraddles(Pendings(segments), cols) && !Straddles(T.PendingOf(last), cols)
  {
    hide Straddles, VisibleOf, T.PendingOf;
    var n := |segments|;
    assert Visibles(segments + [last]) == Visibles(segments) + [VisibleOf(last)];
    assert Pendings(segments + [last]) == Pendings(segments) + [T.PendingOf(last)];
    assert (Visibles(segments) + [VisibleOf(last)])[n] == VisibleOf(last);
    assert (Pendings(segments) + [T.PendingOf(last)])[n] == T.PendingOf(last);
    forall i | 0 <= i < n
      ensures (Visibles(segments) + [VisibleOf(last)])[i] == Visibles(segments)[i]
      ensures (Pendings(segments) + [T.PendingOf(last)])[i] == Pendings(segments)[i]
    {
    }
  }

  /** A stream is read without a panic exactly if the width splits no character of a finished line. */
  lemma {:induction false} StoreCommits(cols: nat, text: string)
    ensures Commits(cols, Empty, text) <==> NoneStraddles(Visibles(T.Segments(text)), cols)
  {
    hide Straddles, VisibleOf;
    if text != "" {
      var init, c := text[..|text| - 1], text[|text| - 1];
      StoreCommits(cols, init);
      FoldIsOwnSplit(cols, init);
      NoneStraddlesSnoc(T.Segments(init), T.Tail(init), cols);
      hide Fold;
    }
  }

  /** So is the fused history, where a full line is too long by one byte exactly then. */
  lemma {:induction false} FusedCommitsMeaning(cols: nat, text: string)
    ensures FusedCommits(cols, Dark, text) <==> NoneStraddles(Pendings(T.Segments(text)), cols)
    ensures var pending := FusedFold(cols, Dark, text).pending;
            Straddles(pending, cols) <==> ByteLen(pending) == cols + 1
  {
    hide Straddles, T.PendingOf, FusedFold, Kept, Cut, ByteLen;
    FusedMeaning(cols, text);
    KeptIsEnough(T.PendingOf(T.Tail(text)), cols);
    if text != "" {
      var init, c := text[..|text| - 1], text[|text| - 1];
      FusedCommitsMeaning(cols, init);
      FusedMeaning(cols, init);
      KeptIsEnough(T.PendingOf(T.Tail(init)), cols);
      NoneStraddlesSnoc(T.Segments(init), T.Tail(init), cols);
    }
  }

  /** A line that fills the width but for one byte, a byte from 0x80 on, and a newline: neither is read. */
  lemma SplitCharacterPanics(cols: nat, line: string, c: char)
    requires AllVisible(line) && ByteLen(line) + 1 == cols && c >= '\U{80}'
    ensures !Commits(cols, Empty, line + [c] + "\n") && !FusedCommits(cols, Dark, line + [c] + "\n")
  {
    hide AllVisible, FusedFold, Fold, Cut;
    VisibleLine(cols, line);
    OneMore(cols, line, c);
    ByteLenSnoc(line, c);
    var full := line + [c];
    assert (full + "\n")[..|full|] == full;
    forall k | 0 <= k <= |full|
      ensures ByteLen(full[..k]) != cols
    {
      if k <= |line| {
        assert full[..k] == line[..k];
        ByteLenGrows(line, k);
      } else {
        assert full[..k] == full;
      }
    }
  }

  predicate IsAscii(text: string) { forall i :: 0 <= i < |text| ==> text[i] < '\U{80}' }

  /** ASCII output is always read. */
  lemma {:induction false} AsciiIsRead(cols: nat, s: Split, f: Fused, text: string)
    requires IsAscii(text) && IsAscii(s.partial) && IsAscii(f.pending)
    ensures Commits(cols, s, text) && IsAscii(Fold(cols, s, text).partial)
    ensures FusedCommits(cols, f, text) && IsAscii(FusedFold(cols, f, text).pending)
  {
    if text != "" {
      var init := text[..|text| - 1];
      AsciiIsRead(cols, s, f, init);
      AsciiIsCut(Fold(cols, s, init).partial, cols);
      AsciiIsCut(FusedFold(cols, f, init).pending, cols);
      hide Straddles, Cut, ByteLen;
    }
  }

  // ----- the backend ------------------------------------------------------

  datatype Stream = Stdout | Stderr

  datatype Chunk = Chunk(stream: Stream, bytes: string)

  /** The chunks of one stream, in their own order. */
  function Only(stream: Stream, log: seq<Chunk>): seq<string> {
    if log == [] then []
    else
      var last := log[|log| - 1];
      Only(stream, log[..|log| - 1]) + (if last.stream == stream then [last.bytes] else [])
  }

  function Arrived(log: seq<Chunk>): string {
    if log == [] then "" else Arrived(log[..|log| - 1]) + log[|log| - 1].bytes
  }

  lemma LogSnoc(log: seq<Chunk>, chunk: Chunk)
    ensures Arrived(log + [chunk]) == Arrived(log) + chunk.bytes
    ensures Only(chunk.stream, log + [chunk]) == Only(chunk.stream, log) + [chunk.bytes]
    ensures forall s :: s != chunk.stream ==> Only(s, log + [chunk]) == Only(s, log)
  {
  }

  lemma FoldSnoc(cols: nat, s: Split, text: string, i: nat)
    requires i < |text|
    ensures Fold(cols, s, text[..i + 1]) == Step(cols, Fold(cols, s, text[..i]), text[i])
    ensures Commits(cols, s, text[..i + 1])
            <==> Commits(cols, s, text[..i])
                 && (text[i] == T.LF ==> !Straddles(Fold(cols, s, text[..i]).partial, cols))
  {
    assert text[..i + 1][..i] == text[..i];
  }

  lemma NoBytes(cols: nat, s: Split, text: string)
    ensures Fold(cols, s, text[..0]) == s && Commits(cols, s, text[..0])
  {
  }

  lemma StoredOf(cols: nat, s: Store, chunk: string, gone: seq<string>, lines: seq<string>, cur: string)
    requires Fold(cols, Reopened(s), chunk) == Split(gone + lines, cur)
    ensures var r := Stored(cols, s, chunk);
            && r.all == gone + (if cur == "" then lines else lines + [cur])
            && r.evicted == Max(s.evicted, |r.all| - MAX_LINES) && r.open == (T.LF !in chunk)
  {
  }

  class LineStore {
    var lines: seq<string>
    var trailingUnterminated: bool

    ghost predicate Holds(s: Store)
      reads this
    {
      && s.evicted <= |s.all| && lines == s.all[s.evicted..] && |lines| <= MAX_LINES
      && trailingUnterminated == s.open
    }

    constructor ()
      ensures Holds(NoLines)
    {
      lines, trailingUnterminated := [], false;
    }

    /** Take the line to continue off the store. */
    method Reopen(ghost s: Store) returns (cur: string)
      requires Holds(s)
      modifies this
      ensures Reopened(s) == Split(s.all[..s.evicted] + lines, cur)
      ensures |lines| <= MAX_LINES && trailingUnterminated
    {
      cur := "";
      if trailingUnterminated && lines != [] {
        cur := lines[|lines| - 1];
        lines := lines[..|lines| - 1];
      }
      trailingUnterminated := true;
      if s.open && s.evicted < |s.all| { assert s.all[..|s.all| - 1] == s.all[..s.evicted] + lines; }
      else { assert s.all == s.all[..s.evicted] + lines; }
    }

    /**
     The per-stream half of `ingest_stream`; returns how many lines were evicted,
     or not `ok` when it panicked on a character across the width.
    */
    method Ingest(cols: nat, bytes: string, ghost s: Store) returns (ok: bool, dropped: nat)
      requires Holds(s)
      modifies this
      ensures ok <==> Commits(cols, Reopened(s), bytes)
      ensures ok ==> Holds(Stored(cols, s, bytes)) && Stored(cols, s, bytes).evicted == s.evicted + dropped
    {
      hide Fold, Shown, Reopened, Stored, Commits, Straddles, Cut;
      var cur := Reopen(s);
      ghost var r, gone := Reopened(s), s.all[..s.evicted];
      assert bytes[..|bytes|] == bytes;
      NoBytes(cols, r, bytes);
      ok := true;
      for i := 0 to |bytes|
        invariant Commits(cols, r, bytes[..i])
        invariant Fold(cols, r, bytes[..i]) == Split(gone + lines, cur)
        invariant trailingUnterminated == (T.LF !in bytes[..i])
      {
        var b := bytes[i];
        FoldSnoc(cols, r, bytes, i);
        assert bytes[..i + 1] == bytes[..i] + [b];
        if b == T.LF {
          if Straddles(cur, cols) {
            CommitsTo(cols, r, bytes, i + 1);
            return false, 0;
          }
          assert (gone + lines) + [Cut(cur, cols)] == gone + (lines + [Cut(cur, cols)]);
          lines := lines + [Cut(cur, cols)];
          cur := "";
          trailingUnterminated := false;
        } else if IsVisible(b) {
          cur := cur + [b];
        }
      }
      StoredOf(cols, s, bytes, gone, lines, cur);
      if cur != "" {
        lines := lines + [cur];
      }
      dropped := EvictOldest(Stored(cols, s, bytes).all, s.evicted);
    }

    method EvictOldest(ghost all: seq<string>, ghost evicted: nat) returns (dropped: nat)
      requires evicted <= |all| && lines == all[evicted..]
      modifies this`lines
      ensures evicted + dropped == Max(evicted, |all| - MAX_LINES)
      ensures evicted + dropped <= |all| && lines == all[evicted + dropped..] && |lines| <= MAX_LINES
    {
      dropped := 0;
      while |lines| > MAX_LINES
        invariant evicted + dropped <= |all| && lines == all[evicted + dropped..]
        invariant dropped == 0 || |lines| >= MAX_LINES
      {
        lines := lines[1..];
        dropped := dropped + 1;
      }
    }
  }

  class PipeBackend {
    const cols: nat
    const stdout: LineStore
    const stderr: LineStore
    var lines: seq<string>
    var pending: string
    var linesEvicted: nat
    var bellSeq: nat
    var screenSeq: nat
    var contentSeq: nat
    /** Every chunk ingested, in arrival order. */
    ghost var log: seq<Chunk>
    /** How many of the evicted lines are fused ones. */
    ghost var fusedEvicted: nat

    /** The state of one stream's store: a function of that stream's own chunks. */
    ghost function StoreOf(stream: Stream): Store
      reads this`log
    {
      StoredAll(cols, Only(stream, log))
    }

    ghost predicate FusedHolds(f: Fused)
      reads this`lines, this`pending, this`bellSeq, this`screenSeq, this`contentSeq, this`fusedEvicted
    {
      && fusedEvicted == Max(|f.lines| - MAX_LINES, 0) && lines == f.lines[fusedEvicted..]
      && pending == f.pending && bellSeq == f.bells && screenSeq == contentSeq == f.edges
    }

    ghost predicate Valid()
      reads this, stdout, stderr
    {
      && stdout != stderr
      && stdout.Holds(StoreOf(Stdout)) && stderr.Holds(StoreOf(Stderr))
      && FusedHolds(FusedFold(cols, Dark, Arrived(log)))
      && linesEvicted == fusedEvicted + StoreOf(Stdout).evicted + StoreOf(Stderr).evicted
    }

    constructor (cols: nat, stdout: LineStore, stderr: LineStore)
      requires stdout != stderr && stdout.Holds(NoLines) && stderr.Holds(NoLines)
      ensures Valid() && log == [] && this.cols == cols && this.stdout == stdout && this.stderr == stderr
    {
      this.cols, this.stdout, this.stderr := cols, stdout, stderr;
      lines, pending, linesEvicted, bellSeq, screenSeq, contentSeq := [], "", 0, 0, 0, 0;
      log, fusedEvicted := [], 0;
    }

    /** `ingest_fused`; not `ok` when it panics on a character across the width. */
    method IngestFused(byte: char, ghost f: Fused) returns (ok: bool)
      requires FusedHolds(f)
      modifies this`lines, this`pending, this`linesEvicted, this`bellSeq, this`screenSeq, this`contentSeq,
               this`fusedEvicted
      ensures ok <==> !(byte == T.LF && Straddles(f.pending, cols))
      ensures ok ==> FusedHolds(FusedStep(cols, f, byte))
      ensures ok ==> var seen := if byte == T.LF || pending != old(pending) then 1 else 0;
                     screenSeq == old(screenSeq) + seen && contentSeq == old(contentSeq) + seen
      ensures linesEvicted - fusedEvicted == old(linesEvicted - fusedEvicted)
    {
      hide Straddles, Cut, ByteLen;
      ok := true;
      var changed, pendingChanged := false, false;
      if byte == T.LF {
        if Straddles(pending, cols) {
          return false;
        }
        lines, pending := lines + [Cut(pending, cols)], "";
        if |lines| > MAX_LINES {
          var excess := |lines| - MAX_LINES;
          lines := lines[excess..];
          linesEvicted, fusedEvicted := linesEvicted + excess, fusedEvicted + excess;
        }
        changed := true;
      } else if byte == T.CR {
        if pending != "" {
          pending := "";
          pendingChanged := true;
        }
      } else if byte == T.BEL {
        bellSeq := bellSeq + 1;
      } else if ByteLen(pending) < cols {
        pending := pending + [byte];
        pendingChanged := true;
      }
      if changed || pendingChanged {
        contentSeq, screenSeq := contentSeq + 1, screenSeq + 1;
      }
    }

    /**
     `ingest_stream`: the stream's own store first, then the fused history. Each
     panics at a newline that finds the width inside a character; otherwise the
     chunk is in both.
    */
    method IngestStream(chunk: Chunk) returns (ok: bool)
      requires Valid()
      modifies this, if chunk.stream == Stdout then stdout else stderr
      ensures ok <==> Commits(cols, Reopened(old(StoreOf(chunk.stream))), chunk.bytes)
                      && FusedCommits(cols, FusedFold(cols, Dark, Arrived(old(log))), chunk.bytes)
      ensures ok ==> Valid() && log == old(log) + [chunk]
      ensures ok ==> var changes := Changes(cols, FusedFold(cols, Dark, Arrived(old(log))), chunk.bytes);
                     screenSeq == old(screenSeq) + changes && contentSeq == old(contentSeq) + changes
    {
      hide StoredAll, Stored, Reopened, Commits, FusedCommits, FusedFold, Only, Arrived, FusedHolds, LineStore.Holds,
           Changes;
      var store := if chunk.stream == Stdout then stdout else stderr;
      ghost var s := StoreOf(chunk.stream);
      var stored, dropped := store.Ingest(cols, chunk.bytes, s);
      if !stored {
        return false;
      }
      linesEvicted := linesEvicted + dropped;
      ghost var f := FusedFold(cols, Dark, Arrived(log));
      ok := FusedBytes(chunk.bytes, f);
      if !ok {
        return;
      }
      LogSnoc(log, chunk);
      FusedConcat(cols, Dark, Arrived(log), chunk.bytes);
      EdgesCountChanges(cols, f, chunk.bytes);
      StoredSnoc(cols, Only(chunk.stream, log), chunk.bytes);
      log := log + [chunk];
    }

    method FusedBytes(bytes: string, ghost f: Fused) returns (ok: bool)
      requires FusedHolds(f)
      modifies this`lines, this`pending, this`linesEvicted, this`bellSeq, this`screenSeq, this`contentSeq,
               this`fusedEvicted
      ensures ok <==> FusedCommits(cols, f, bytes)
      ensures ok ==> FusedHolds(FusedFold(cols, f, bytes))
      ensures ok ==> var edges := FusedFold(cols, f, bytes).edges;
                     screenSeq - old(screenSeq) == contentSeq - old(contentSeq) == edges - f.edges
      ensures linesEvicted - fusedEvicted == old(linesEvicted - fusedEvicted)
    {
      hide FusedStep, Straddles;
      assert bytes[..|bytes|] == bytes;
      ok := true;
      for i := 0 to |bytes|
        invariant ok && FusedCommits(cols, f, bytes[..i]) && FusedHolds(FusedFold(cols, f, bytes[..i]))
        invariant linesEvicted - fusedEvicted == old(linesEvicted - fusedEvicted)
        invariant screenSeq == contentSeq == FusedFold(cols, f, bytes[..i]).edges
      {
        assert bytes[..i + 1][..i] == bytes[..i];
        ok := IngestFused(bytes[i], FusedFold(cols, f, bytes[..i]));
        if !ok {
          FusedCommitsTo(cols, f, bytes, i + 1);
          return;
        }
      }
    }
  }

  lemma StoredSnoc(cols: nat, chunks: seq<string>, chunk: string)
    ensures StoredAll(cols, chunks + [chunk]) == Stored(cols, StoredAll(cols, chunks), chunk)
  {
  }
}
