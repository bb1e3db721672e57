/**
 The tmux control-mode framer (`take_control_blocks` and the pending carry-over
 of `TmuxControlMode::drain`, src/backend/tmux.rs) over ASCII text.
*/
module ControlFraming {
  import opened Common

  const BEGIN: string := "%begin "
  const END: string := "\n%end "
  const CAPACITY: nat := 262_144

  predicate IsSpace(c: char) {
    c == ' ' || c == '\t' || c == '\n' || c == '\U{b}' || c == '\U{c}' || c == '\r'
  }

  function SkipSpace(s: string): (r: string)
    ensures |r| <= |s| && (r != "" ==> !IsSpace(r[0]))
  {
    if s != "" && IsSpace(s[0]) then SkipSpace(s[1..]) else s
  }

  function WordLength(s: string): (n: nat)
    ensures n <= |s| && (s != "" && !IsSpace(s[0]) ==> n > 0)
  {
    if s == "" || IsSpace(s[0]) then 0 else 1 + WordLength(s[1..])
  }

  /** `split_whitespace`. */
  function Words(s: string): seq<string>
    decreases |s|
  {
    var rest := SkipSpace(s);
    if rest == "" then [] else [rest[..WordLength(rest)]] + Words(rest[WordLength(rest)..])
  }

  /** The footer searched for: the second number of the `%begin` line. */
  function EndNeedle(beginLine: string): (r: string)
    ensures |r| > 0
  {
    var words := Words(beginLine);
    END + (if |words| > 2 then words[2] else "")
  }

  /** A block's text is `[at, stop)`; the scan resumes at `next`. */
  datatype Frame = Frame(at: nat, stop: nat, next: nat)

  function HeaderEnd(text: string, at: nat): (end: nat)
    requires at <= |text|
    ensures at <= end <= |text|
  {
    var nl := Find(text[at..], "\n");
    if nl.Some? then at + nl.value + 1 else |text|
  }

  /** One turn of the scan. */
  function FirstFrame(text: string): (r: Option<Frame>)
    ensures r.Some? ==> r.value.at < r.value.next <= |text| && r.value.at <= r.value.stop <= r.value.next
  {
    var found := Find(text, BEGIN);
    if found.None? then None
    else
      var headerEnd := HeaderEnd(text, found.value);
      var needle := EndNeedle(text[found.value..headerEnd]);
      var end := Find(text[headerEnd..], needle);
      if end.None? then None
      else Some(Frame(found.value, headerEnd + end.value, headerEnd + end.value + |needle|))
  }

  /** The block texts of a whole stream, and the suffix no block has claimed. */
  function Blocks(text: string): seq<string>
    decreases |text|
  {
    var f := FirstFrame(text);
    if f.None? then [] else [text[f.value.at..f.value.stop]] + Blocks(text[f.value.next..])
  }

  function Rest(text: string): string
    decreases |text|
  {
    var f := FirstFrame(text);
    if f.None? then text else Rest(text[f.value.next..])
  }

  /** Frames that lie one after the other inside a prefix of the input. */
  ghost predicate InOrder(frames: seq<Frame>, consumed: nat) {
    && (forall i :: 0 <= i < |frames| ==> frames[i].at <= frames[i].stop <= frames[i].next <= consumed)
    && (forall i, j :: 0 <= i < j < |frames| ==> frames[i].next <= frames[j].at)
  }

  method TakeControlBlocks(text: string)
    returns (blocks: seq<string>, consumed: nat, ghost frames: seq<Frame>)
    ensures consumed <= |text|
    ensures blocks == Blocks(text) && text[consumed..] == Rest(text)
    ensures |frames| == |blocks| && InOrder(frames, consumed)
    ensures forall i :: 0 <= i < |blocks| ==> blocks[i] == text[frames[i].at..frames[i].stop]
  {
    hide FirstFrame;
    blocks, consumed, frames := [], 0, [];
    assert text[0..] == text;
    while true
      invariant consumed <= |text|
      invariant blocks + Blocks(text[consumed..]) == Blocks(text)
      invariant Rest(text[consumed..]) == Rest(text)
      invariant |frames| == |blocks| && InOrder(frames, consumed)
      invariant forall i :: 0 <= i < |blocks| ==> blocks[i] == text[frames[i].at..frames[i].stop]
      decreases |text| - consumed
    {
      var f := FirstFrame(text[consumed..]);
      if f.None? {
        break;
      }
      var at, stop, next := consumed + f.value.at, consumed + f.value.stop, consumed + f.value.next;
      assert text[consumed..][f.value.at..f.value.stop] == text[at..stop];
      assert text[consumed..][f.value.next..] == text[next..];
      blocks, frames := blocks + [text[at..stop]], frames + [Frame(at, stop, next)];
      consumed := next;
    }
  }

  // ----- framing does not depend on where the stream is cut ---------------

  lemma {:induction false} FindExtends(hay: string, needle: string, more: string)
    requires Find(hay, needle).Some?
    ensures Find(hay + more, needle) == Find(hay, needle)
  {
    var i := Find(hay, needle).value;
    assert OccursAt(hay + more, needle, i) by { assert (hay + more)[i..i + |needle|] == hay[i..i + |needle|]; }
    forall j: nat | j < i
      ensures !OccursAt(hay + more, needle, j)
    {
      assert !OccursAt(hay, needle, j);
      assert (hay + more)[j..j + |needle|] == hay[j..j + |needle|];
    }
  }

  /** A complete block stays the first block whatever arrives after it. */
  lemma FirstFrameExtends(text: string, more: string)
    requires FirstFrame(text).Some?
    ensures FirstFrame(text + more) == FirstFrame(text)
  {
    hide Words, Find;
    var at := Find(text, BEGIN).value;
    FindExtends(text, BEGIN, more);
    HeaderExtends(text, at, more);
    var headerEnd := HeaderEnd(text, at);
    assert (text + more)[at..headerEnd] == text[at..headerEnd];
    assert (text + more)[headerEnd..] == text[headerEnd..] + more;
    FindExtends(text[headerEnd..], EndNeedle(text[at..headerEnd]), more);
  }

  /** A footer can only be found behind a complete header line. */
  lemma HeaderExtends(text: string, at: nat, more: string)
    requires at <= |text|
    requires Find(text[HeaderEnd(text, at)..], EndNeedle(text[at..HeaderEnd(text, at)])).Some?
    ensures HeaderEnd(text + more, at) == HeaderEnd(text, at)
  {
    hide EndNeedle;
    NotInEmpty(EndNeedle(text[at..HeaderEnd(text, at)]));
    assert text[|text|..] == "";
    assert (text + more)[at..] == text[at..] + more;
    FindExtends(text[at..], "\n", more);
  }

  lemma NotInEmpty(needle: string)
    requires needle != ""
    ensures Find("", needle).None?
  {
  }

  /** Carrying the unclaimed suffix over gives the same blocks as one run on everything. */
  lemma {:induction false} CarryOver(text: string, more: string)
    ensures Blocks(text + more) == Blocks(text) + Blocks(Rest(text) + more)
    ensures Rest(text + more) == Rest(Rest(text) + more)
    decreases |text|
  {
    var f := FirstFrame(text);
    hide FirstFrame;
    if f.Some? {
      var next := f.value.next;
      FirstFrameExtends(text, more);
      assert (text + more)[f.value.at..f.value.stop] == text[f.value.at..f.value.stop];
      assert (text + more)[next..] == text[next..] + more;
      CarryOver(text[next..], more);
    }
  }

  /** What the reader has framed after a list of chunks, carrying the rest over. */
  datatype Reader = Reader(pending: string, blocks: seq<string>)

  function Fed(r: Reader, chunk: string): Reader {
    Reader(Rest(r.pending + chunk), r.blocks + Blocks(r.pending + chunk))
  }

  function FedAll(chunks: seq<string>): Reader {
    if chunks == [] then Reader("", []) else Fed(FedAll(chunks[..|chunks| - 1]), chunks[|chunks| - 1])
  }

  lemma {:induction false} FramingIgnoresCuts(chunks: seq<string>)
    ensures FedAll(chunks) == Reader(Rest(Concat(chunks)), Blocks(Concat(chunks)))
  {
    if chunks == [] {
      NotInEmpty(BEGIN);
    } else {
      var init, last := chunks[..|chunks| - 1], chunks[|chunks| - 1];
      FramingIgnoresCuts(init);
      CarryOver(Concat(init), last);
    }
  }

  lemma FedAllSnoc(chunks: seq<string>, chunk: string)
    ensures FedAll(chunks + [chunk]) == Fed(FedAll(chunks), chunk)
  {
    assert (chunks + [chunk])[..|chunks|] == chunks;
  }

  lemma ConcatSnoc(parts: seq<string>, part: string)
    ensures Concat(parts + [part]) == Concat(parts) + part
  {
    assert (parts + [part])[..|parts|] == parts;
  }

  /** The reader object: what `drain` keeps between calls. */
  class ControlReader {
    var pending: string
    var blocks: seq<string>
    var bytesTotal: nat
    var bytesDropped: nat
    /** Everything received from the control client, one entry per drain. */
    ghost var received: seq<string>

    ghost predicate Valid()
      reads this
    {
      && (bytesDropped == 0 ==> Reader(pending, blocks) == FedAll(received))
      && bytesTotal == |Concat(blocks)|
    }

    constructor ()
      ensures Valid() && received == [] && pending == "" && blocks == [] && bytesDropped == 0
    {
      pending, blocks, bytesTotal, bytesDropped, received := "", [], 0, 0, [];
    }

    /** One drain of `chunk`, the bytes currently available. */
    method Drain(chunk: string)
      requires Valid()
      modifies this
      ensures Valid() && received == old(received) + [chunk]
      ensures var r := Fed(Reader(old(pending), old(blocks)), chunk);
              && blocks == r.blocks && pending == LastN(r.pending, CAPACITY)
              && bytesDropped == old(bytesDropped) + Max(|r.pending| - CAPACITY, 0)
    {
      hide Blocks, Rest, FedAll, Concat;
      FedAllSnoc(received, chunk);
      pending := pending + chunk;
      var taken, consumed, _ := TakeControlBlocks(pending);
      pending := pending[consumed..];
      for i := 0 to |taken|
        invariant pending == Rest(old(pending) + chunk) && blocks == old(blocks) + taken[..i]
        invariant bytesTotal == |Concat(blocks)|
        invariant bytesDropped == old(bytesDropped) && received == old(received)
      {
        ConcatSnoc(blocks, taken[i]);
        bytesTotal := bytesTotal + |taken[i]|;
        blocks := blocks + [taken[i]];
      }
      if |pending| > CAPACITY {
        var drop := |pending| - CAPACITY;
        pending := pending[drop..];
        bytesDropped := bytesDropped + drop;
      }
      received := received + [chunk];
    }
  }

  // ----- which tmux blocks are recognised ---------------------------------

  predicate IsNumber(w: string) { w != "" && forall i :: 0 <= i < |w| ==> '0' <= w[i] <= '9' }

  /** A block as tmux writes it: the same three numbers open and close it, the output stands line by line between. */
  datatype Block = Block(time: string, number: string, flags: string, lines: seq<string>)

  predicate WellFormed(b: Block) {
    && IsNumber(b.time) && IsNumber(b.number) && IsNumber(b.flags)
    && forall i :: 0 <= i < |b.lines| ==> '\n' !in b.lines[i]
  }

  function Stamp(b: Block): string { b.time + " " + b.number + " " + b.flags + "\n" }

  function Header(b: Block): string { BEGIN + Stamp(b) }

  function Joined(lines: seq<string>): string {
    if lines == [] then ""
    else if |lines| == 1 then lines[0]
    else Joined(lines[..|lines| - 1]) + "\n" + lines[|lines| - 1]
  }

  function Body(b: Block): string { Joined(b.lines) }

  /** What follows the header line: without output the footer stands right there. */
  function Behind(b: Block): string {
    if b.lines == [] then END[1..] + Stamp(b) else Body(b) + (END + Stamp(b))
  }

  function Render(b: Block): string { Header(b) + Behind(b) }

  /**
   Some output, a number that is a prefix of the time, and no output line after
   the first that starts like the footer searched for.
  */
  predicate Recognisable(b: Block) {
    b.lines != [] && b.number <= b.time && Find(Body(b), END + b.number).None?
  }

  lemma {:induction false} WordLengthOf(w: string, rest: string)
    requires forall i :: 0 <= i < |w| ==> !IsSpace(w[i])
    requires rest == "" || IsSpace(rest[0])
    ensures WordLength(w + rest) == |w|
  {
    if w != "" {
      assert (w + rest)[1..] == w[1..] + rest;
      WordLengthOf(w[1..], rest);
    } else {
      assert w + rest == rest;
    }
  }

  lemma WordsCons(w: string, rest: string)
    requires w != "" && forall i :: 0 <= i < |w| ==> !IsSpace(w[i])
    requires rest != "" && IsSpace(rest[0])
    ensures Words(w + rest) == [w] + Words(rest[1..])
  {
    WordLengthOf(w, rest);
    assert SkipSpace(w + rest) == w + rest;
    assert (w + rest)[..|w|] == w && (w + rest)[|w|..] == rest;
    assert SkipSpace(rest) == SkipSpace(rest[1..]);
  }

  lemma NumberIsWord(w: string)
    requires IsNumber(w)
    ensures w != "" && forall i :: 0 <= i < |w| ==> !IsSpace(w[i])
  {
  }

  lemma HeaderWords(b: Block)
    requires WellFormed(b)
    ensures EndNeedle(Header(b)) == END + b.number
  {
    hide Words, IsNumber;
    NumberIsWord(b.time);
    NumberIsWord(b.number);
    var r2 := " " + b.flags + "\n";
    var r1 := " " + b.number + r2;
    var r0 := " " + b.time + r1;
    assert Header(b) == "%begin" + r0;
    WordsCons("%begin", r0);
    assert r0[1..] == b.time + r1;
    WordsCons(b.time, r1);
    assert r1[1..] == b.number + r2;
    WordsCons(b.number, r2);
  }

  lemma EndHasOneNewline(d: nat)
    requires 0 < d < |END|
    ensures END[d] != END[0]
  {
  }

  /** No number holds a newline either, so the footer searched for has one, at its front. */
  lemma NeedleHasOneNewline(b: Block, d: nat)
    requires WellFormed(b) && 0 < d < |END + b.number|
    ensures (END + b.number)[d] != '\n'
  {
    if d < |END| { EndHasOneNewline(d); }
  }

  lemma OccursBehind(before: string, front: string, x: string, y: string)
    ensures OccursAt(before + (front + y), front + x, |before|) <==> x <= y
  {
    var hay, n := before + (front + y), |front + x|;
    if |before| + n <= |hay| {
      assert hay[|before|..|before| + n] == front + y[..|x|];
      assert (front + y[..|x|])[|front|..] == y[..|x|] && (front + x)[|front|..] == x;
    }
  }

  lemma NumberInStamp(b: Block, rest: string)
    requires WellFormed(b)
    ensures b.number <= Stamp(b) + rest <==> b.number <= b.time
  {
    var line := Stamp(b) + rest;
    assert line[..|b.time|] == b.time && line[|b.time|] == ' ';
    assert ' ' !in b.number;
  }

  lemma FooterAtBody(b: Block, rest: string)
    requires WellFormed(b) && b.lines != []
    ensures OccursAt(Behind(b) + rest, END + b.number, |Body(b)|) <==> b.number <= b.time
  {
    hide Joined, OccursAt;
    NumberInStamp(b, rest);
    OccursBehind(Body(b), END, b.number, Stamp(b) + rest);
    hide Stamp;
    assert Behind(b) + rest == Body(b) + (END + (Stamp(b) + rest));
  }

  lemma SliceBefore(body: string, tail: string, i: nat, n: nat)
    requires i + n <= |body|
    ensures (body + tail)[i..i + n] == body[i..i + n]
  {
  }

  /** Before the end of the body, the footer occurs where the body itself has it. */
  lemma FooterInBody(b: Block, rest: string, i: nat)
    requires WellFormed(b) && b.lines != [] && i < |Body(b)|
    ensures OccursAt(Behind(b) + rest, END + b.number, i) <==> OccursAt(Body(b), END + b.number, i)
  {
    hide Joined;
    var body, needle := Body(b), END + b.number;
    var tail := END + Stamp(b) + rest;
    assert Behind(b) + rest == body + tail;
    if i + |needle| <= |body| {
      SliceBefore(body, tail, i, |needle|);
    } else if i + |needle| <= |body + tail| {
      var d := |body| - i;
      assert (body + tail)[i..i + |needle|][d] == tail[0] == '\n';
      NeedleHasOneNewline(b, d);
    }
  }

  /** The search finds the end of the body exactly in a recognisable block, whatever follows it. */
  lemma FooterSearch(b: Block, rest: string)
    requires WellFormed(b)
    ensures Find(Behind(b) + rest, END + b.number) == Some(|Body(b)|) <==> Recognisable(b)
  {
    hide Joined;
    var hay, needle := Behind(b) + rest, END + b.number;
    if b.lines == [] {
      assert hay[0] == END[1] != END[0];
      assert Body(b) == "" by { NoBody(); }
      OtherStart(hay, needle);
    } else {
      FooterAtBody(b, rest);
      forall i: nat | i < |Body(b)|
        ensures OccursAt(hay, needle, i) <==> OccursAt(Body(b), needle, i)
      {
        FooterInBody(b, rest, i);
      }
      assert forall i: nat :: OccursAt(Body(b), needle, i) ==> i < |Body(b)|;
      hide WellFormed, Body, Behind, OccursAt;
      SearchesAgree(hay, Body(b), needle);
    }
  }

  lemma OtherStart(hay: string, needle: string)
    requires hay != "" && needle != "" && hay[0] != needle[0]
    ensures !OccursAt(hay, needle, 0)
  {
    if |needle| <= |hay| { assert hay[0..|needle|][0] == hay[0]; }
  }

  lemma NoBody()
    ensures Joined([]) == ""
  {
  }

  lemma SearchesAgree(hay: string, body: string, needle: string)
    requires forall i: nat :: i < |body| ==> (OccursAt(hay, needle, i) <==> OccursAt(body, needle, i))
    requires forall i: nat :: OccursAt(body, needle, i) ==> i < |body|
    ensures Find(hay, needle) == Some(|body|) <==> OccursAt(hay, needle, |body|) && Find(body, needle).None?
  {
    hide OccursAt;
    if OccursAt(hay, needle, |body|) && Find(body, needle).None? { FindIs(hay, needle, |body|); }
  }

  /** The frame of a block: its header and its whole output. */
  function Whole(b: Block): Frame {
    Frame(0, |Header(b)| + |Body(b)|, |Header(b)| + |Body(b)| + |END + b.number|)
  }

  /**
   The documentation promises complete blocks; the scan looks for the block's
   number where the footer carries its time, behind a newline that a block
   without output does not have. Whatever follows, a well-formed block is framed
   as its header and output exactly when it is recognisable.
  */
  lemma RecognisedBlocks(b: Block, rest: string)
    requires WellFormed(b)
    ensures FirstFrame(Render(b) + rest) == Some(Whole(b)) <==> Recognisable(b)
    ensures var f := FirstFrame(Render(b) + rest);
            f.Some? ==> f.value.at == 0 && (f.value.stop == Whole(b).stop ==> f.value == Whole(b))
  {
    hide Joined, EndNeedle, HeaderEnd, IsNumber;
    var text := Render(b) + rest;
    assert text[0..|BEGIN|] == BEGIN && OccursAt(text, BEGIN, 0);
    assert Find(text, BEGIN) == Some(0);
    HeaderLine(b, rest);
    assert text[0..|Header(b)|] == Header(b);
    assert text[|Header(b)|..] == Behind(b) + rest;
    HeaderWords(b);
    FooterSearch(b, rest);
    hide Find, Behind, Recognisable, Body;
  }

  lemma FirstNewline(line: string, rest: string)
    requires '\n' !in line
    ensures Find(line + "\n" + rest, "\n") == Some(|line|)
  {
    var text := line + "\n" + rest;
    assert text[|line|..|line| + 1] == "\n";
    forall i: nat | i < |line|
      ensures !OccursAt(text, "\n", i)
    {
      assert text[i..i + 1][0] == line[i];
    }
    FindIs(text, "\n", |line|);
  }

  lemma HeaderLine(b: Block, rest: string)
    requires WellFormed(b)
    ensures HeaderEnd(Render(b) + rest, 0) == |Header(b)|
  {
    var line := BEGIN + (b.time + " " + b.number + " " + b.flags);
    assert '\n' !in line;
    FirstNewline(line, Behind(b) + rest);
    var text := Render(b) + rest;
    hide Find, Behind, WellFormed;
    assert text == line + "\n" + (Behind(b) + rest) && text[0..] == text;
  }

  /** `mark` starts some line after the first. */
  predicate StartsALine(lines: seq<string>, mark: string) {
    exists k :: 1 <= k < |lines| && mark <= lines[k]
  }

  lemma LastLine(before: string, last: string, mark: string, i: nat)
    requires '\n' !in last && '\n' !in mark
    ensures OccursAt(before + "\n" + last, "\n" + mark, i)
            <==> OccursAt(before, "\n" + mark, i) || (i == |before| && mark <= last)
  {
    var hay, needle := before + "\n" + last, "\n" + mark;
    if i + |needle| <= |hay| {
      var window := hay[i..i + |needle|];
      if i + |needle| <= |before| {
        assert window == before[i..i + |needle|];
      } else if i < |before| {
        assert window[|before| - i] == '\n' && needle[|before| - i] == mark[|before| - i - 1];
      } else if i == |before| {
        assert window == "\n" + last[..|mark|];
        assert window[1..] == last[..|mark|] && needle[1..] == mark;
      } else {
        assert window[0] == last[i - |before| - 1];
      }
    }
  }

  /** The body holds the footer searched for exactly when an output line after the first starts like it. */
  lemma {:induction false} FooterIsALine(lines: seq<string>, mark: string)
    requires '\n' !in mark && forall i :: 0 <= i < |lines| ==> '\n' !in lines[i]
    ensures Find(Joined(lines), "\n" + mark).None? <==> !StartsALine(lines, mark)
  {
    var needle := "\n" + mark;
    if |lines| <= 1 {
      forall i: nat
        ensures !OccursAt(Joined(lines), needle, i)
      {
        if i + |needle| <= |Joined(lines)| { assert Joined(lines)[i..i + |needle|][0] == lines[0][i]; }
      }
      FindIsNone(Joined(lines), needle);
    } else {
      var n := |lines| - 1;
      var init, last := lines[..n], lines[n];
      FooterIsALine(init, mark);
      assert StartsALine(lines, mark) <==> StartsALine(init, mark) || mark <= last by {
        if k :| 1 <= k < |init| && mark <= init[k] { assert mark <= lines[k]; }
        if k :| 1 <= k < |lines| && mark <= lines[k] { assert k < n ==> mark <= init[k]; }
      }
      forall i: nat
        ensures OccursAt(Joined(lines), needle, i)
                <==> OccursAt(Joined(init), needle, i) || (i == |Joined(init)| && mark <= last)
      {
        LastLine(Joined(init), last, mark, i);
      }
      hide Joined, OccursAt, StartsALine;
      var found := Find(Joined(init), needle);
      if found.Some? { assert OccursAt(Joined(lines), needle, found.value); }
      if mark <= last { assert OccursAt(Joined(lines), needle, |Joined(init)|); }
    }
  }

  /** Recognisable, line by line. */
  lemma RecognisableLines(b: Block)
    requires WellFormed(b)
    ensures Recognisable(b)
            <==> b.lines != [] && b.number <= b.time && !StartsALine(b.lines, END[1..] + b.number)
  {
    assert END + b.number == "\n" + (END[1..] + b.number);
    FooterIsALine(b.lines, END[1..] + b.number);
    hide Joined, StartsALine, Find;
  }

  /** On its own, a block whose output does not mimic its footer is recognised or not seen at all. */
  lemma RecognisedOrMissed(b: Block)
    requires WellFormed(b) && Find(Body(b), END + b.number).None?
    ensures FirstFrame(Render(b)) == if b.lines != [] && b.number <= b.time then Some(Whole(b)) else None
  {
    RecognisedBlocks(b, "");
    assert Render(b) + "" == Render(b) && Behind(b) + "" == Behind(b);
    if !Recognisable(b) {
      NoFooterAtAll(b);
      var text := Render(b);
      HeaderLine(b, "");
      HeaderWords(b);
      hide Joined, EndNeedle, HeaderEnd, IsNumber, Behind;
      assert text[0..|BEGIN|] == BEGIN && OccursAt(text, BEGIN, 0);
      assert Find(text, BEGIN) == Some(0);
      hide Find;
      assert text[0..|Header(b)|] == Header(b);
      assert text[|Header(b)|..] == Behind(b);
    }
  }

  lemma NoFooterAtAll(b: Block)
    requires WellFormed(b) && Find(Body(b), END + b.number).None? && !Recognisable(b)
    ensures Find(Behind(b), END + b.number).None?
  {
    var hay, needle := Behind(b), END + b.number;
    forall i: nat
      ensures !OccursAt(hay, needle, i)
    {
      hide Joined;
      assert hay + "" == hay;
      if b.lines != [] && i < |Body(b)| {
        FooterInBody(b, "", i);
      } else if b.lines != [] && i == |Body(b)| {
        FooterAtBody(b, "");
      } else if i + |needle| <= |hay| {
        hide Find, Recognisable;
        StampNewline(b, i);
        assert hay[i..i + |needle|][0] == hay[i];
      }
    }
    FindIsNone(hay, needle);
  }

  /** Behind the body's end, the only newline closes the footer line. */
  lemma StampNewline(b: Block, i: nat)
    requires WellFormed(b) && i < |Behind(b)| - 1
    requires b.lines == [] || i > |Body(b)|
    ensures Behind(b)[i] != '\n'
  {
    hide Joined;
    var k := if b.lines == [] then i + 1 else i - |Body(b)|;
    assert Behind(b)[i] == (END + Stamp(b))[k];
    if k < |END| { EndHasOneNewline(k); }
  }

  /** tmux numbers blocks independently of the clock, so real blocks are missed. */
  lemma RealBlockIsMissed()
    ensures var b := Block("1363006971", "2", "1", ["QQ"]);
            WellFormed(b) && FirstFrame(Render(b)).None?
  {
    var b := Block("1363006971", "2", "1", ["QQ"]);
    FindIsNone("QQ", END + "2");
    assert "2"[0] != "1363006971"[0];
    hide Find;
    RecognisedOrMissed(b);
  }

  /** So is a block without output, though its number is a prefix of its time. */
  lemma EmptyBlockIsMissed()
    ensures var b := Block("22", "2", "1", []);
            WellFormed(b) && b.number <= b.time
            && Render(b) == "%begin 22 2 1\n%end 22 2 1\n" && FirstFrame(Render(b)).None?
  {
    EmptyBlockText();
    var b := Block("22", "2", "1", []);
    FindIsNone("", END + "2");
    hide Find, Render, FirstFrame, Recognisable;
    RecognisedOrMissed(b);
  }

  lemma EmptyBlockText()
    ensures Render(Block("22", "2", "1", [])) == "%begin 22 2 1\n%end 22 2 1\n"
  {
  }

  function RenderAll(bs: seq<Block>): string {
    if bs == [] then "" else Render(bs[0]) + RenderAll(bs[1..])
  }

  lemma SkipOne(c: char, rest: string)
    requires c != '%'
    ensures Blocks([c] + rest) == Blocks(rest)
  {
    hide FirstFrame;
    FirstFrameBehind(c, rest);
    var f := FirstFrame(rest);
    if f.Some? {
      SliceBehind(c, rest, f.value.at, f.value.stop);
      SliceBehind(c, rest, f.value.next, f.value.next);
    }
  }

  lemma SliceBehind(c: char, rest: string, i: nat, j: nat)
    requires i <= j <= |rest|
    ensures ([c] + rest)[i + 1..j + 1] == rest[i..j] && ([c] + rest)[i + 1..] == rest[i..]
  {
  }

  lemma FirstFrameBehind(c: char, rest: string)
    requires c != '%'
    ensures var f := FirstFrame(rest);
            FirstFrame([c] + rest)
            == if f.None? then None else Some(Frame(f.value.at + 1, f.value.stop + 1, f.value.next + 1))
  {
    hide Find, HeaderEnd, EndNeedle;
    FindBehind(c, rest);
    var found := Find(rest, BEGIN);
    if found.Some? {
      var at, text := found.value, [c] + rest;
      HeaderEndBehind(c, rest, at);
      var end := HeaderEnd(rest, at);
      assert text[at + 1..end + 1] == rest[at..end];
      assert text[end + 1..] == rest[end..];
    }
  }

  lemma HeaderEndBehind(c: char, rest: string, at: nat)
    requires at <= |rest|
    ensures HeaderEnd([c] + rest, at + 1) == HeaderEnd(rest, at) + 1
  {
    hide Find;
    assert ([c] + rest)[at + 1..] == rest[at..];
  }

  lemma FindBehind(c: char, rest: string)
    requires c != '%'
    ensures Find([c] + rest, BEGIN)
         == if Find(rest, BEGIN).Some? then Some(Find(rest, BEGIN).value + 1) else None
  {
    var text := [c] + rest;
    forall i: nat
      ensures OccursAt(text, BEGIN, i) <==> i > 0 && OccursAt(rest, BEGIN, i - 1)
    {
      if i + |BEGIN| <= |text| {
        if i > 0 { assert text[i..i + |BEGIN|] == rest[i - 1..i - 1 + |BEGIN|]; }
        else { assert text[0..|BEGIN|][0] == c && BEGIN[0] == '%'; }
      }
    }
    if Find(rest, BEGIN).Some? { FindIs(text, BEGIN, Find(rest, BEGIN).value + 1); }
    else { FindIsNone(text, BEGIN); }
  }

  lemma {:induction false} SkipFooterTail(tail: string, rest: string)
    requires forall i :: 0 <= i < |tail| ==> tail[i] != '%'
    ensures Blocks(tail + rest) == Blocks(rest)
  {
    hide Blocks;
    if tail == "" {
      assert tail + rest == rest;
    } else {
      SkipFooterTail(tail[1..], rest);
      SkipOne(tail[0], tail[1..] + rest);
      assert tail + rest == [tail[0]] + (tail[1..] + rest);
    }
  }

  function BlockText(b: Block): string { Header(b) + Body(b) }

  function BlockTexts(bs: seq<Block>): seq<string> {
    if bs == [] then [] else [BlockText(bs[0])] + BlockTexts(bs[1..])
  }

  predicate AllWellFormed(bs: seq<Block>) { forall i :: 0 <= i < |bs| ==> WellFormed(bs[i]) }

  predicate AllRecognisable(bs: seq<Block>) { forall i :: 0 <= i < |bs| ==> Recognisable(bs[i]) }

  lemma AllOf(bs: seq<Block>)
    requires bs != []
    ensures AllWellFormed(bs) <==> WellFormed(bs[0]) && AllWellFormed(bs[1..])
    ensures AllRecognisable(bs) <==> Recognisable(bs[0]) && AllRecognisable(bs[1..])
  {
    hide WellFormed, Recognisable;
    assert forall i :: 0 < i < |bs| ==> bs[i] == bs[1..][i - 1];
  }

  /** A stream of well-formed blocks is framed block by block exactly when each of them is recognisable. */
  lemma {:induction false} RecognisedStream(bs: seq<Block>)
    requires AllWellFormed(bs)
    ensures Blocks(RenderAll(bs)) == BlockTexts(bs) <==> AllRecognisable(bs)
  {
    if bs == [] {
      NotInEmpty(BEGIN);
    } else {
      AllOf(bs);
      hide Blocks, WellFormed, Render, BlockText, Recognisable, AllWellFormed, AllRecognisable;
      RecognisedStream(bs[1..]);
      StreamStep(bs[0], RenderAll(bs[1..]), BlockTexts(bs[1..]));
    }
  }

  lemma StreamStep(b: Block, rest: string, texts: seq<string>)
    requires WellFormed(b)
    ensures Blocks(Render(b) + rest) == [BlockText(b)] + texts <==> Recognisable(b) && Blocks(rest) == texts
  {
    hide Blocks, WellFormed, Render, BlockText, Recognisable;
    if Recognisable(b) {
      RecognisedFirst(b, rest);
      SameHead(BlockText(b), Blocks(rest), texts);
    } else {
      MangledFirst(b, rest);
    }
  }

  lemma SameHead(head: string, a: seq<string>, b: seq<string>)
    ensures [head] + a == [head] + b <==> a == b
  {
    assert ([head] + a)[1..] == a && ([head] + b)[1..] == b;
  }

  lemma RecognisedFirst(b: Block, rest: string)
    requires WellFormed(b) && Recognisable(b)
    ensures Blocks(Render(b) + rest) == [BlockText(b)] + Blocks(rest)
  {
    hide FirstFrame, WellFormed, Joined, Find;
    var text := Render(b) + rest;
    RecognisedBlocks(b, rest);
    assert text[0..Whole(b).stop] == BlockText(b);
    var tail := Stamp(b)[|b.number|..];
    assert text[Whole(b).next..] == tail + rest;
    StampHasNoPercent(b);
    SkipFooterTail(tail, rest);
  }

  /** The first text framed is another one, if any is. */
  lemma MangledFirst(b: Block, rest: string)
    requires WellFormed(b) && !Recognisable(b)
    ensures var blocks := Blocks(Render(b) + rest); blocks == [] || blocks[0] != BlockText(b)
  {
    RecognisedBlocks(b, rest);
    hide FirstFrame, WellFormed, Joined, Find, Recognisable, Render;
  }

  lemma StampHasNoPercent(b: Block)
    requires WellFormed(b)
    ensures forall i :: 0 <= i < |Stamp(b)| ==> Stamp(b)[i] != '%'
  {
  }
}
