/**
 The text half of the PTY line backend's `ingest` (src/backend/line_cli.rs):
 how decoded characters fold into committed lines, one live pending line and a
 bell count, and what that fold means on the whole stream.
*/
module LineText {
  import opened Common

  const LF: char := '\n'
  const CR: char := '\r'
  const BEL: char := '\U{7}'

  /** Everything ever committed, the unterminated line, and the bells rung. */
  datatype Text = Text(committed: seq<string>, pending: string, bells: nat)

  const Blank: Text := Text([], "", 0)

  /** One turn of the character loop; `beforeLf` is the one-character peek. */
  function Step(t: Text, ch: char, beforeLf: bool): Text {
    if ch == LF then Text(t.committed + [t.pending], "", t.bells)
    else if ch == CR then (if beforeLf then t else t.(pending := ""))
    else if ch == BEL then t.(bells := t.bells + 1)
    else t.(pending := t.pending + [ch])
  }

  predicate PeekLf(s: string, n: nat) { n < |s| && s[n] == LF }

  /** The state after the first `n` characters of `s`, peeking only inside `s`. */
  function FoldTo(t: Text, s: string, n: nat): Text
    requires n <= |s|
  {
    if n == 0 then t else Step(FoldTo(t, s, n - 1), s[n - 1], PeekLf(s, n))
  }

  function Fold(t: Text, s: string): Text { FoldTo(t, s, |s|) }

  /** Chunk by chunk, as the pump delivers them. */
  function Stream(chunks: seq<string>): Text {
    if chunks == [] then Blank
    else Fold(Stream(chunks[..|chunks| - 1]), chunks[|chunks| - 1])
  }

  // ----- what the fold of one uncut text means ---------------------------

  /** The text after the last newline. */
  function Tail(s: string): string {
    if s == "" || s[|s| - 1] == LF then "" else Tail(s[..|s| - 1]) + [s[|s| - 1]]
  }

  /** The newline-terminated segments, oldest first, without their newlines. */
  function Segments(s: string): seq<string> {
    if s == "" then []
    else if s[|s| - 1] == LF then Segments(s[..|s| - 1]) + [Tail(s[..|s| - 1])]
    else Segments(s[..|s| - 1])
  }

  function Newlines(s: string): nat {
    if s == "" then 0 else Newlines(s[..|s| - 1]) + (if s[|s| - 1] == LF then 1 else 0)
  }

  /** Everything after the last carriage return. */
  function AfterLastCr(s: string): string {
    if s == "" || s[|s| - 1] == CR then "" else AfterLastCr(s[..|s| - 1]) + [s[|s| - 1]]
  }

  function Printable(s: string): string {
    if s == "" then ""
    else Printable(s[..|s| - 1]) + (if s[|s| - 1] == BEL then "" else [s[|s| - 1]])
  }

  /** An unterminated segment: every carriage return in it is bare. */
  function PendingOf(segment: string): string { Printable(AfterLastCr(segment)) }

  /** A terminated segment: a return directly before the newline is not bare. */
  function LineOf(segment: string): string {
    if segment != "" && segment[|segment| - 1] == CR
    then PendingOf(segment[..|segment| - 1])
    else PendingOf(segment)
  }

  function LinesOf(segments: seq<string>): seq<string> {
    seq(|segments|, i requires 0 <= i < |segments| => LineOf(segments[i]))
  }

  function Bells(s: string): nat {
    if s == "" then 0 else Bells(s[..|s| - 1]) + (if s[|s| - 1] == BEL then 1 else 0)
  }

  /** The batch reading of a whole text. */
  function Batch(s: string): Text {
    Text(LinesOf(Segments(s)), PendingOf(Tail(s)), Bells(s))
  }

  /** `r` is what follows the last `mark` in `s`, or all of `s`. */
  predicate IsAfterLast(s: string, mark: char, r: string) {
    && mark !in r
    && |r| <= |s| && s[|s| - |r|..] == r
    && (|r| < |s| ==> s[|s| - |r| - 1] == mark)
  }

  lemma {:induction false} TailMeaning(s: string)
    ensures IsAfterLast(s, LF, Tail(s))
  {
    if s != "" && s[|s| - 1] != LF {
      TailMeaning(s[..|s| - 1]);
      assert s[|s| - |Tail(s)|..] == Tail(s);
    }
  }

  function Rejoin(segments: seq<string>): string {
    if segments == [] then ""
    else Rejoin(segments[..|segments| - 1]) + segments[|segments| - 1] + [LF]
  }

  lemma RejoinSnoc(segments: seq<string>, last: string)
    ensures Rejoin(segments + [last]) == Rejoin(segments) + last + [LF]
  {
    assert (segments + [last])[..|segments|] == segments;
  }

  /** `Segments` and `Tail` cut the text and lose nothing. */
  lemma {:induction false} SegmentsRejoin(s: string)
    ensures Rejoin(Segments(s)) + Tail(s) == s
  {
    if s != "" {
      var init, ch := s[..|s| - 1], s[|s| - 1];
      SegmentsRejoin(init);
      RejoinStep(init, ch);
      assert init + [ch] == s;
    }
  }

  lemma RejoinStep(init: string, ch: char)
    requires Rejoin(Segments(init)) + Tail(init) == init
    ensures Rejoin(Segments(init + [ch])) + Tail(init + [ch]) == init + [ch]
  {
    var joined, tail := Rejoin(Segments(init)), Tail(init);
    TailSnoc(init, ch);
    if ch == LF {
      RejoinSnoc(Segments(init), tail);
      assert (joined + tail + [LF]) + "" == init + [ch];
    } else {
      assert joined + (tail + [ch]) == (joined + tail) + [ch];
    }
  }

  /** They cut it at every newline. */
  lemma {:induction false} SegmentsAreLines(s: string)
    ensures forall i :: 0 <= i < |Segments(s)| ==> LF !in Segments(s)[i]
  {
    if s != "" {
      SegmentsAreLines(s[..|s| - 1]);
      TailMeaning(s[..|s| - 1]);
    }
  }

  lemma {:induction false} AfterLastCrMeaning(s: string)
    ensures IsAfterLast(s, CR, AfterLastCr(s))
  {
    if s != "" && s[|s| - 1] != CR {
      AfterLastCrMeaning(s[..|s| - 1]);
      assert s[|s| - |AfterLastCr(s)|..] == AfterLastCr(s);
    }
  }

  // ----- the fold computes the batch reading -----------------------------

  lemma {:induction false} FoldToIgnoresSuffix(t: Text, s: string, u: string, n: nat)
    requires n < |s| || (n == |s| && (u == "" || u[0] != LF))
    ensures FoldTo(t, s + u, n) == FoldTo(t, s, n)
  {
    if n > 0 {
      FoldToIgnoresSuffix(t, s, u, n - 1);
      assert (s + u)[n - 1] == s[n - 1];
    }
  }

  /** A carriage return at the very end, before a newline the fold will see. */
  function Lookahead(t: Text, s: string, beforeLf: bool): Text
  {
    if s == "" then t
    else Step(FoldTo(t, s, |s| - 1), s[|s| - 1], beforeLf)
  }

  lemma {:induction false} LookaheadIsPending(s: string)
    ensures Fold(Blank, s) == Batch(s)
    ensures Lookahead(Blank, s, true) == Batch(s).(pending := LineOf(Tail(s)))
  {
    if s == "" {
      assert LinesOf(Segments(s)) == [];
    } else {
      var init, ch := s[..|s| - 1], s[|s| - 1];
      assert s == init + [ch];
      LookaheadIsPending(init);
      BatchSnoc(init, ch);
      if ch == LF {
        FoldBeforeLf(init, [ch]);
      } else {
        FoldToIgnoresSuffix(Blank, init, [ch], |init|);
      }
    }
  }

  lemma TailSnoc(s: string, ch: char)
    ensures Tail(s + [ch]) == if ch == LF then "" else Tail(s) + [ch]
    ensures Segments(s + [ch]) == if ch == LF then Segments(s) + [Tail(s)] else Segments(s)
    ensures Bells(s + [ch]) == Bells(s) + (if ch == BEL then 1 else 0)
  {
    assert (s + [ch])[..|s|] == s;
  }

  lemma LinesOfSnoc(segments: seq<string>, last: string)
    ensures LinesOf(segments + [last]) == LinesOf(segments) + [LineOf(last)]
  {
  }

  /** How one more character changes the batch reading. */
  lemma {:induction false} BatchSnoc(s: string, ch: char)
    ensures ch == LF ==>
              Batch(s + [ch]) == Text(Batch(s).committed + [LineOf(Tail(s))], "", Batch(s).bells)
    ensures ch != LF ==> Batch(s + [ch]) == Step(Batch(s), ch, false)
    ensures LineOf(Tail(s + [ch])) == if ch == CR then Batch(s).pending else Batch(s + [ch]).pending
  {
    TailSnoc(s, ch);
    if ch == LF {
      LinesOfSnoc(Segments(s), Tail(s));
    } else {
      SnocPending(Tail(s), ch);
    }
  }

  /** The last character before a newline is folded with the newline in sight. */
  lemma {:induction false} FoldBeforeLf(a: string, b: string)
    requires b != "" && b[0] == LF
    ensures FoldTo(Blank, a + b, |a|) == Lookahead(Blank, a, true)
  {
    if a != "" {
      var s, n := a + b, |a|;
      FoldToIgnoresSuffix(Blank, a, b, n - 1);
      assert s[n - 1] == a[n - 1] && s[n] == b[0];
      assert FoldTo(Blank, s, n) == Step(FoldTo(Blank, s, n - 1), s[n - 1], true);
    }
  }

  lemma {:induction false} SnocPending(seg: string, ch: char)
    requires ch != LF
    ensures PendingOf(seg + [ch])
         == if ch == CR then "" else if ch == BEL then PendingOf(seg) else PendingOf(seg) + [ch]
    ensures ch != CR ==> LineOf(seg + [ch]) == PendingOf(seg + [ch])
    ensures ch == CR ==> LineOf(seg + [ch]) == PendingOf(seg)
  {
    var s := seg + [ch];
    assert s[..|s| - 1] == seg;
    if ch != CR {
      assert AfterLastCr(s) == AfterLastCr(seg) + [ch];
      assert AfterLastCr(s)[..|AfterLastCr(s)| - 1] == AfterLastCr(seg);
    }
  }

  // ----- chunked delivery against the batch reading ----------------------

  /** The chunk boundary falls between a carriage return and its newline. */
  predicate SplitsCrLf(before: string, chunk: string) {
    before != "" && before[|before| - 1] == CR && chunk != "" && chunk[0] == LF
  }

  /** The line that such a boundary makes the fold forget. */
  function LineAtStake(before: string): string
    requires before != ""
  {
    PendingOf(Tail(before[..|before| - 1]))
  }

  predicate LossyCut(before: string, chunk: string) {
    SplitsCrLf(before, chunk) && LineAtStake(before) != ""
  }

  predicate LosslessCuts(chunks: seq<string>) {
    chunks != [] ==>
      var init := chunks[..|chunks| - 1];
      LosslessCuts(init) && !LossyCut(Concat(init), chunks[|chunks| - 1])
  }

  /** The pending line when a newline is still to be folded. */
  function HeldLine(a: string): string { Lookahead(Blank, a, true).pending }

  lemma {:induction false} HeldLineAtCut(a: string, b: string)
    requires b != "" && b[0] == LF
    ensures FoldTo(Blank, a + b, |a|) == Fold(Blank, a).(pending := HeldLine(a))
    ensures !SplitsCrLf(a, b) ==> HeldLine(a) == Fold(Blank, a).pending
    ensures SplitsCrLf(a, b) ==> HeldLine(a) == LineAtStake(a) && Fold(Blank, a).pending == ""
  {
    hide Tail, PendingOf;
    FoldBeforeLf(a, b);
    if SplitsCrLf(a, b) { HeldAfterCr(a[..|a| - 1], a); }
  }

  lemma HeldAfterCr(init: string, a: string)
    requires a == init + [CR]
    ensures HeldLine(a) == PendingOf(Tail(init))
  {
    LookaheadIsPending(init);
    FoldToIgnoresSuffix(Blank, init, [CR], |init|);
  }

  lemma FoldOnStep(a: string, b: string, n: nat)
    requires 0 < n <= |b|
    ensures FoldTo(Blank, a + b, |a| + n)
         == Step(FoldTo(Blank, a + b, |a| + n - 1), b[n - 1], PeekLf(b, n))
  {
    var s, m := a + b, |a| + n;
    assert s[m - 1] == b[n - 1];
    assert PeekLf(s, m) == PeekLf(b, n);
  }

  /** Folding `b` on from the fold of `a`, when no line is at stake. */
  lemma {:induction false} FoldOnTo(a: string, b: string, n: nat)
    requires 0 < n <= |b|
    requires !LossyCut(a, b)
    ensures FoldTo(Fold(Blank, a), b, n) == FoldTo(Blank, a + b, |a| + n)
  {
    FoldOnStep(a, b, n);
    if n > 1 {
      FoldOnTo(a, b, n - 1);
    } else if b[0] == LF {
      HeldLineAtCut(a, b);
    } else {
      FoldToIgnoresSuffix(Blank, a, b, |a|);
    }
  }

  lemma {:induction false} CommittedGrows(t: Text, s: string, n: nat, m: nat)
    requires n <= m <= |s|
    ensures FoldTo(t, s, n).committed <= FoldTo(t, s, m).committed
    decreases m - n
  {
    if n < m { CommittedGrows(t, s, n, m - 1); }
  }

  lemma {:induction false} FoldCommittedGrows(a: string, b: string)
    ensures Fold(Blank, a).committed <= Fold(Blank, a + b).committed
  {
    CommittedGrows(Blank, a + b, |a|, |a + b|);
    if b != "" && b[0] == LF { HeldLineAtCut(a, b); } else { FoldToIgnoresSuffix(Blank, a, b, |a|); }
  }

  /** The two readings disagree about some committed line. */
  ghost predicate Disagree(x: Text, y: Text) {
    exists i: nat :: i < |x.committed| && i < |y.committed| && x.committed[i] != y.committed[i]
  }

  lemma {:induction false} DisagreementLasts(x: Text, y: Text, x': Text, y': Text)
    requires Disagree(x, y) && x.committed <= x'.committed && y.committed <= y'.committed
    ensures Disagree(x', y')
  {
    var i: nat :| i < |x.committed| && i < |y.committed| && x.committed[i] != y.committed[i];
    assert x'.committed[i] == x.committed[i] && y'.committed[i] == y.committed[i];
  }

  lemma {:induction false} LossyCutLosesALine(a: string, b: string)
    requires LossyCut(a, b)
    ensures Disagree(Fold(Fold(Blank, a), b), Fold(Blank, a + b))
  {
    var x, y := FoldTo(Fold(Blank, a), b, 1), FoldTo(Blank, a + b, |a| + 1);
    var i := |Fold(Blank, a).committed|;
    HeldLineAtCut(a, b);
    FoldOnStep(a, b, 1);
    assert x == Step(FoldTo(Fold(Blank, a), b, 0), LF, PeekLf(b, 1));
    assert x.committed[i] == "" && y.committed[i] == LineAtStake(a);
    CommittedGrows(Fold(Blank, a), b, 1, |b|);
    CommittedGrows(Blank, a + b, |a| + 1, |a + b|);
    DisagreementLasts(x, y, Fold(Fold(Blank, a), b), Fold(Blank, a + b));
  }

  lemma {:induction false} StreamEqualsFold(chunks: seq<string>)
    ensures LosslessCuts(chunks) <==> Stream(chunks) == Fold(Blank, Concat(chunks))
    ensures !LosslessCuts(chunks) ==> Disagree(Stream(chunks), Fold(Blank, Concat(chunks)))
  {
    if chunks != [] {
      var init, last := chunks[..|chunks| - 1], chunks[|chunks| - 1];
      var a := Concat(init);
      StreamEqualsFold(init);
      if !LosslessCuts(init) {
        CommittedGrows(Stream(init), last, 0, |last|);
        FoldCommittedGrows(a, last);
        DisagreementLasts(Stream(init), Fold(Blank, a), Stream(chunks), Fold(Blank, a + last));
      } else if LossyCut(a, last) {
        LossyCutLosesALine(a, last);
      } else if last == "" {
        assert a + last == a;
      } else {
        FoldOnTo(a, last, |last|);
      }
    }
  }

  /**
   Streaming equals the batch reading exactly when no chunk boundary separates
   a carriage return from its newline while the line before it is nonempty.
   When one does, a committed line is wrong for good.
  */
  lemma StreamEqualsBatch(chunks: seq<string>)
    ensures LosslessCuts(chunks) <==> Stream(chunks) == Batch(Concat(chunks))
    ensures !LosslessCuts(chunks) ==> Disagree(Stream(chunks), Batch(Concat(chunks)))
  {
    StreamEqualsFold(chunks);
    LookaheadIsPending(Concat(chunks));
  }
}
