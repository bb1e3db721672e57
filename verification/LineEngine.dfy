/**
 The PTY line backend (src/backend/line_cli.rs): a bounded line history with a
 live pending line, one sequence number per screen edge, and a 64-slot ring of
 edge snapshots that anchored waits are served from.
*/
module LineEngine {
  import opened ChildProcess
  import opened Common
  import opened LineText
  import W = WaitConditions

  const MAX_LINES: nat := 10_000
  const EDGE_SNAP_CAP: nat := 64

  /** A screen as the split the backend hands on: visible rows and history. */
  datatype Screen = Screen(viewport: seq<string>, scrollback: seq<string>)

  datatype Size = Size(cols: nat, rows: nat)

  function TruncateAll(rows: seq<string>, cols: nat): seq<string> {
    seq(|rows|, i requires 0 <= i < |rows| => Truncated(rows[i], cols))
  }

  /** First history line that is visible (`synth_screen`). */
  function ViewportStart(size: Size, lines: seq<string>, pending: string): nat {
    var viewportRows := if pending == "" then size.rows else Max(size.rows - 1, 0);
    Max(|lines| - viewportRows, 0)
  }

  function Viewport(size: Size, lines: seq<string>, pending: string): seq<string> {
    var start := ViewportStart(size, lines, pending);
    TruncateAll(lines[start..] + (if pending == "" then [] else [pending]), size.cols)
  }

  /** `synth_screen`. */
  function Synth(size: Size, lines: seq<string>, pending: string): Screen {
    Screen(Viewport(size, lines, pending), lines[..ViewportStart(size, lines, pending)])
  }

  /** The variant that edge snapshots and waits store: scrollback cut at `rows`. */
  function Shown(size: Size, lines: seq<string>, pending: string): Screen {
    Synth(size, lines, pending).(scrollback := lines[..Max(|lines| - size.rows, 0)])
  }

  // ----- specification: what the whole delivery means --------------------

  /** `text` keeps every line ever committed; `edges` every screen edge. */
  datatype Engine = Engine(text: Text, evicted: nat, contentSeq: nat, edges: seq<Screen>)

  const Fresh: Engine := Engine(Blank, 0, 0, [])

  predicate WellFormed(e: Engine) {
    && e.evicted == Max(|e.text.committed| - MAX_LINES, 0)
  }

  function Retained(e: Engine): seq<string>
    requires WellFormed(e)
  {
    e.text.committed[e.evicted..]
  }

  function LiveScreen(size: Size, e: Engine): Screen
    requires WellFormed(e)
  {
    Shown(size, Retained(e), e.text.pending)
  }

  /** The screen after the first `n` characters of a chunk, before eviction. */
  function ScreenAfter(size: Size, e: Engine, chunk: string, n: nat): Screen
    requires WellFormed(e) && n <= |chunk|
  {
    var t := FoldTo(e.text, chunk, n);
    CommittedGrows(e.text, chunk, 0, n);
    Shown(size, t.committed[e.evicted..], t.pending)
  }

  /** One edge per newline among the first `n` characters. */
  function CommitEdges(size: Size, e: Engine, chunk: string, n: nat): seq<Screen>
    requires WellFormed(e) && n <= |chunk|
  {
    if n == 0 then []
    else CommitEdges(size, e, chunk, n - 1)
         + (if chunk[n - 1] == LF then [ScreenAfter(size, e, chunk, n)] else [])
  }

  /** The live line was touched within the first `n` characters. */
  predicate Touched(t: Text, chunk: string, n: nat)
    requires n <= |chunk|
  {
    n > 0 &&
    (Touched(t, chunk, n - 1)
     || (chunk[n - 1] != LF && chunk[n - 1] != CR && chunk[n - 1] != BEL)
     || (chunk[n - 1] == CR && !PeekLf(chunk, n) && FoldTo(t, chunk, n - 1).pending != ""))
  }

  function ChunkEdges(size: Size, e: Engine, chunk: string): seq<Screen>
    requires WellFormed(e)
  {
    if LF in chunk then CommitEdges(size, e, chunk, |chunk|)
    else if Touched(e.text, chunk, |chunk|) then [ScreenAfter(size, e, chunk, |chunk|)]
    else []
  }

  function Ingested(size: Size, e: Engine, chunk: string): (r: Engine)
    requires WellFormed(e)
    ensures WellFormed(r)
  {
    var t := Fold(e.text, chunk);
    var visible := LF in chunk || Touched(e.text, chunk, |chunk|);
    Engine(t, Max(|t.committed| - MAX_LINES, 0),
           e.contentSeq + (if visible then 1 else 0),
           e.edges + ChunkEdges(size, e, chunk))
  }

  function Run(size: Size, chunks: seq<string>): (e: Engine)
    ensures WellFormed(e)
  {
    if chunks == [] then Fresh
    else Ingested(size, Run(size, chunks[..|chunks| - 1]), chunks[|chunks| - 1])
  }

  lemma {:induction false} SomeCommitEdges(size: Size, e: Engine, chunk: string, n: nat)
    requires WellFormed(e) && n <= |chunk|
    ensures CommitEdges(size, e, chunk, n) != [] <==> LF in chunk[..n]
  {
    if n > 0 {
      SomeCommitEdges(size, e, chunk, n - 1);
      assert chunk[..n] == chunk[..n - 1] + [chunk[n - 1]];
    }
  }

  /** Content moves by one exactly with a chunk that makes an edge. */
  lemma ContentMovesWithEdges(size: Size, e: Engine, chunk: string)
    requires WellFormed(e)
    ensures var r := Ingested(size, e, chunk);
            && e.edges <= r.edges
            && r.contentSeq == e.contentSeq + (if |r.edges| > |e.edges| then 1 else 0)
  {
    hide FoldTo, Touched, CommitEdges, ScreenAfter;
    SomeCommitEdges(size, e, chunk, |chunk|);
    assert chunk[..|chunk|] == chunk;
  }

  lemma {:induction false} ContentOverChunks(size: Size, earlier: seq<string>, later: seq<string>)
    requires earlier <= later
    ensures Run(size, earlier).contentSeq <= Run(size, later).contentSeq
    ensures |Run(size, earlier).edges| <= |Run(size, later).edges|
    ensures Run(size, later).contentSeq > Run(size, earlier).contentSeq
            <==> |Run(size, later).edges| > |Run(size, earlier).edges|
    decreases |later|
  {
    if |earlier| < |later| {
      ContentOverChunks(size, earlier, later[..|later| - 1]);
      ContentMovesWithEdges(size, Run(size, later[..|later| - 1]), later[|later| - 1]);
      hide Ingested;
    } else {
      assert earlier == later;
    }
  }

  /** The ring: the last 64 edges, each with its sequence number. */
  function Ring(edges: seq<Screen>): seq<(nat, Screen)> {
    var m := Min(|edges|, EDGE_SNAP_CAP);
    seq(m, i requires 0 <= i < m => (|edges| - m + i + 1, edges[|edges| - m + i]))
  }

  function Lookup(snaps: seq<(nat, Screen)>, want: nat): Option<Screen> {
    if snaps == [] then None
    else if snaps[0].0 == want then Some(snaps[0].1)
    else Lookup(snaps[1..], want)
  }

  lemma {:induction false} NoCommitEdges(size: Size, e: Engine, chunk: string, n: nat)
    requires WellFormed(e) && n <= |chunk| && LF !in chunk
    ensures CommitEdges(size, e, chunk, n) == []
  {
    if n > 0 { NoCommitEdges(size, e, chunk, n - 1); }
  }

  lemma RingPush(edges: seq<Screen>, s: Screen)
    ensures var pushed := Ring(edges) + [(|edges| + 1, s)];
            Ring(edges + [s]) == if |pushed| > EDGE_SNAP_CAP then pushed[1..] else pushed
  {
  }

  lemma {:induction false} LookupFrom(edges: seq<Screen>, k: nat, want: nat)
    requires k <= |Ring(edges)|
    ensures Lookup(Ring(edges)[k..], want)
         == if |edges| - |Ring(edges)| + k < want <= |edges| then Some(edges[want - 1]) else None
    decreases |Ring(edges)| - k
  {
    if k < |Ring(edges)| {
      LookupFrom(edges, k + 1, want);
      assert Ring(edges)[k..][1..] == Ring(edges)[k + 1..];
    }
  }

  /** The ring holds exactly the last 64 edges, under their own numbers. */
  lemma RingServes(edges: seq<Screen>, want: nat)
    ensures Lookup(Ring(edges), want)
         == if 0 < want <= |edges| && |edges| - want < EDGE_SNAP_CAP then Some(edges[want - 1]) else None
  {
    LookupFrom(edges, 0, want);
    assert Ring(edges)[0..] == Ring(edges);
  }

  /** What an anchored stability wait hands back, and the number it reports. */
  function Served(size: Size, e: Engine, cond: W.WaitCond): (Screen, nat)
    requires WellFormed(e)
  {
    if cond.ScreenStable? && cond.afterScreenSeq.Some?
       && cond.afterScreenSeq.value < |e.edges| <= cond.afterScreenSeq.value + EDGE_SNAP_CAP
    then (e.edges[cond.afterScreenSeq.value], cond.afterScreenSeq.value + 1)
    else (LiveScreen(size, e), |e.edges|)
  }

  /** What one turn of the wait loop reads. */
  datatype Tick = Tick(screen: Screen, running: bool, screenSeq: nat, bellSeq: nat, outputSeq: nat,
                       sinceChange: nat, sinceOutput: nat)

  datatype Baselines = Baselines(bellSeq: nat, interactionSeq: nat, screenSeq: nat)

  function BaselinesAt(cond: W.WaitCond, screenSeq: nat, bellSeq: nat): Baselines {
    Baselines(if cond.Bell? && cond.afterBellSeq.Some? then cond.afterBellSeq.value else bellSeq,
              screenSeq + bellSeq, screenSeq)
  }

  /** The condition match inside the wait loop of this backend. */
  function Evaluate(cond: W.WaitCond, tick: Tick, base: Baselines): (bool, W.WaitReason) {
    match cond
    case Text(t) =>
      (W.AnyRowContains(tick.screen.viewport, t) || W.AnyRowContains(tick.screen.scrollback, t), W.ByText)
    case TextAbsent(t) => (!W.AnyRowContains(tick.screen.viewport, t), W.ByTextAbsent)
    case ScreenChange => (tick.screenSeq > base.screenSeq, W.ByScreenChange)
    case ScreenStable(quietFor, after) =>
      (W.Past(after, tick.screenSeq) && tick.sinceChange >= quietFor, W.ByScreenStable)
    case ProcessExit => (!tick.running, W.ByProcessExit)
    case Title(_) => (false, W.ByTitle)
    case Bell(_) => (tick.bellSeq > base.bellSeq, W.ByBell)
    case AnyActivity(after) =>
      (tick.screenSeq + tick.bellSeq > (if after.Some? then after.value else base.interactionSeq),
       W.ByScreenChange)
    case Idle(quietFor, after) =>
      (W.Past(after, tick.outputSeq) && tick.sinceOutput >= quietFor, W.ByIdle)
    case CommandDone(_) => (false, W.ByTimeout)
    case CommandOutput(_, _) => (false, W.ByTimeout)
  }

  datatype WaitOutcome = WaitOutcome(met: bool, reason: W.WaitReason, screenSeq: nat, outputSeq: nat,
                                     state: Screen)

  /** What has come in, and when output and a visible change last did. */
  datatype View = View(delivered: seq<string>, outputAt: nat, changedAt: nat)

  /** The view after one more beat. */
  function Looked(size: Size, v: View, beat: Beat<string>): View {
    if beat.Nap? then v
    else
      var all := v.delivered + beat.chunks;
      View(all, if beat.chunks != [] then beat.at else v.outputAt,
           if Run(size, all).contentSeq > Run(size, v.delivered).contentSeq then beat.at else v.changedAt)
  }

  function LookedAll(size: Size, v: View, beats: seq<Beat<string>>): View {
    if beats == [] then v else Looked(size, LookedAll(size, v, beats[..|beats| - 1]), beats[|beats| - 1])
  }

  /** The tick a condition is evaluated on when the last beat is a look. */
  function TickAfter(size: Size, cond: W.WaitCond, v: View, beats: seq<Beat<string>>): Tick
    requires EndsInLook(beats)
  {
    var now, look := LookedAll(size, v, beats), beats[|beats| - 1];
    var e := Run(size, now.delivered);
    Tick(Served(size, e, cond).0, look.running, |e.edges|, e.text.bells, |now.delivered|,
         Elapsed(look.at, now.changedAt), Elapsed(look.at, now.outputAt))
  }

  /** The first `n` beats gave no reason to stop: at every look the condition failed and budget was left. */
  ghost predicate GoesOn(size: Size, cond: W.WaitCond, base: Baselines, v: View, beats: seq<Beat<string>>, n: nat,
                         deadline: nat)
  {
    n <= |beats| &&
    forall i :: 0 <= i < n && beats[i].Look? ==>
      beats[i].at < deadline && !Evaluate(cond, TickAfter(size, cond, v, beats[..i + 1]), base).0
  }

  // ----- what a condition waits for ----------------------------------------

  /** The looks that found a new edge. */
  ghost function EdgeLooks(size: Size, delivered: seq<string>, beats: seq<Beat<string>>): set<nat> {
    set i: nat | i < |beats| && beats[i].Look?
                 && |Run(size, delivered + Arrived(beats[..i + 1])).edges|
                    > |Run(size, delivered + Arrived(beats[..i])).edges|
  }

  /** The condition holds at the last of these looks, in terms of all that has arrived and when. */
  ghost predicate Fulfilled(size: Size, cond: W.WaitCond, v: View, beats: seq<Beat<string>>)
    requires EndsInLook(beats)
  {
    var entry, all := Run(size, v.delivered), v.delivered + Arrived(beats);
    var e := Run(size, all);
    var live := LiveScreen(size, e);
    match cond
    case Text(t) => W.ShowsText(live.viewport, t) || W.ShowsText(live.scrollback, t)
    case TextAbsent(t) => !W.ShowsText(live.viewport, t)
    case ScreenChange => |e.edges| > |entry.edges|
    case ScreenStable(q, after) =>
      W.Past(after, |e.edges|) && Quiet(beats, EdgeLooks(size, v.delivered, beats), v.changedAt, q)
    case ProcessExit => !beats[|beats| - 1].running
    case Title(_) => false
    case Bell(after) => e.text.bells > if after.Some? then after.value else entry.text.bells
    case AnyActivity(after) =>
      |e.edges| + e.text.bells > if after.Some? then after.value else |entry.edges| + entry.text.bells
    case Idle(q, after) => W.Past(after, |all|) && Quiet(beats, OutputLooks(beats), v.outputAt, q)
    case CommandDone(_) => false
    case CommandOutput(_, _) => false
  }

  /** The first `n` beats gave no reason to stop. */
  ghost predicate Unfulfilled(size: Size, cond: W.WaitCond, v: View, beats: seq<Beat<string>>, n: nat, deadline: nat) {
    n <= |beats| &&
    forall i :: 0 <= i < n && beats[i].Look? ==>
      beats[i].at < deadline && !Fulfilled(size, cond, v, beats[..i + 1])
  }

  /** The change instant is that of the newest look that found an edge. */
  lemma {:induction false} ChangedAtIsNewest(size: Size, v: View, beats: seq<Beat<string>>)
    ensures var hits := EdgeLooks(size, v.delivered, beats);
            AreLooks(beats, hits) && NewestOf(beats, hits, v.changedAt, LookedAll(size, v, beats).changedAt)
  {
    hide Run, Arrived, EdgeLooks, NewestOf, AreLooks;
    if beats == [] {
      NoLooks(size, v);
    } else {
      var init, last := beats[..|beats| - 1], beats[|beats| - 1];
      ChangedAtIsNewest(size, v, init);
      DeliveredArrives(size, v, init);
      NewestSnoc(init, EdgeLooks(size, v.delivered, init), v.changedAt, LookedAll(size, v, init).changedAt, last);
      assert beats == init + [last];
      EdgeLooksSnoc(size, v.delivered, init, last);
      var hits := EdgeLooks(size, v.delivered, init);
      assert hits + {} == hits;
      if last.Look? {
        ArrivedSnoc(init, last);
        var d := v.delivered + Arrived(init);
        assert v.delivered + Arrived(beats) == d + last.chunks;
        ContentOverChunks(size, d, d + last.chunks);
      }
    }
  }

  lemma NoLooks(size: Size, v: View)
    ensures EdgeLooks(size, v.delivered, []) == {} && AreLooks<string>([], {})
    ensures NewestOf<string>([], {}, v.changedAt, v.changedAt)
  {
  }

  lemma EdgeLooksSnoc(size: Size, delivered: seq<string>, beats: seq<Beat<string>>, last: Beat<string>)
    ensures var more := delivered + Arrived(beats + [last]);
            EdgeLooks(size, delivered, beats + [last])
            == EdgeLooks(size, delivered, beats)
               + (if last.Look? && |Run(size, more).edges| > |Run(size, delivered + Arrived(beats)).edges|
                  then {|beats|} else {})
  {
    hide Run, Arrived;
    var all := beats + [last];
    forall i: nat | i <= |beats|
      ensures all[..i] == beats[..i]
    {
    }
    assert all[..|beats| + 1] == all && beats[..|beats|] == beats;
    forall i: nat | i < |beats|
      ensures all[i] == beats[i] && all[..i + 1] == beats[..i + 1]
    {
    }
  }

  lemma {:induction false} OutputInstant(size: Size, v: View, beats: seq<Beat<string>>)
    ensures LookedAll(size, v, beats).outputAt == OutputAt(beats, v.outputAt)
  {
    hide Run;
    if beats != [] { OutputInstant(size, v, beats[..|beats| - 1]); }
  }

  /** What the loop computes at a look is whether the condition holds, and the reason is the condition's. */
  lemma VerdictMeans(size: Size, cond: W.WaitCond, v: View, beats: seq<Beat<string>>, now: nat)
    requires EndsInLook(beats) && InOrder(beats, now)
    ensures var entry := Run(size, v.delivered);
            var base := BaselinesAt(cond, |entry.edges|, entry.text.bells);
            var verdict := Evaluate(cond, TickAfter(size, cond, v, beats), base);
            && (verdict.0 <==> Fulfilled(size, cond, v, beats))
            && (verdict.0 ==> verdict.1 == W.ReasonOf(cond))
  {
    hide Run, LookedAll, Arrived, LiveScreen, InOrder, NewestOf, EdgeLooks, OutputLooks, OutputAt, Quiet, Elapsed,
         W.AnyRowContains, W.ShowsText;
    var e := LookedAll(size, v, beats);
    DeliveredArrives(size, v, beats);
    var live := LiveScreen(size, Run(size, v.delivered + Arrived(beats)));
    match cond
    case Text(t) =>
      W.ContainsIsShows(live.viewport, t);
      W.ContainsIsShows(live.scrollback, t);
    case TextAbsent(t) =>
      W.ContainsIsShows(live.viewport, t);
    case ScreenStable(q, _) =>
      ChangedAtIsNewest(size, v, beats);
      QuietMeans(beats, EdgeLooks(size, v.delivered, beats), v.changedAt, e.changedAt, q, now);
    case Idle(q, _) =>
      OutputAtIsNewest(beats, v.outputAt);
      OutputInstant(size, v, beats);
      QuietMeans(beats, OutputLooks(beats), v.outputAt, e.outputAt, q, now);
    case _ =>
  }

  lemma EarlierLooksFail(size: Size, cond: W.WaitCond, v: View, beats: seq<Beat<string>>, n: nat, deadline: nat,
                         now: nat)
    requires InOrder(beats, now)
    requires var entry := Run(size, v.delivered);
             GoesOn(size, cond, BaselinesAt(cond, |entry.edges|, entry.text.bells), v, beats, n, deadline)
    ensures Unfulfilled(size, cond, v, beats, n, deadline)
  {
    hide Run, Evaluate, TickAfter, Fulfilled, InOrder, BaselinesAt;
    forall i | 0 <= i < n && beats[i].Look?
      ensures beats[i].at < deadline && !Fulfilled(size, cond, v, beats[..i + 1])
    {
      InOrderTo(beats, now, i + 1);
      VerdictMeans(size, cond, v, beats[..i + 1], now);
    }
  }

  lemma LookedSnoc(size: Size, v: View, beats: seq<Beat<string>>, beat: Beat<string>)
    ensures LookedAll(size, v, beats + [beat]) == Looked(size, LookedAll(size, v, beats), beat)
  {
    assert (beats + [beat])[..|beats|] == beats;
  }

  lemma LaterBeat(size: Size, cond: W.WaitCond, base: Baselines, v: View, beats: seq<Beat<string>>, n: nat,
                  deadline: nat, beat: Beat<string>)
    requires GoesOn(size, cond, base, v, beats, n, deadline)
    ensures GoesOn(size, cond, base, v, beats + [beat], n, deadline)
  {
    hide Evaluate, TickAfter;
    forall i | 0 <= i < n
      ensures (beats + [beat])[i] == beats[i] && (beats + [beat])[..i + 1] == beats[..i + 1]
    {
    }
  }

  lemma TurnTaken(size: Size, cond: W.WaitCond, base: Baselines, v: View, beats: seq<Beat<string>>, deadline: nat,
                  look: Beat<string>)
    requires look.Look? && !EndsInLook(beats)
    requires Polling(beats, 1) && GoesOn(size, cond, base, v, beats, |beats|, deadline)
    ensures Polling(beats + [look], 1) && GoesOn(size, cond, base, v, beats + [look], |beats|, deadline)
  {
    hide GoesOn;
    PollingSnoc(beats, 1, look);
    LaterBeat(size, cond, base, v, beats, |beats|, deadline, look);
  }

  /** A failed look and the nap behind it. */
  lemma Napped(size: Size, cond: W.WaitCond, base: Baselines, v: View, beats: seq<Beat<string>>, deadline: nat)
    requires EndsInLook(beats) && beats[|beats| - 1].at < deadline
    requires Polling(beats, 1) && GoesOn(size, cond, base, v, beats, |beats| - 1, deadline)
    requires !Evaluate(cond, TickAfter(size, cond, v, beats), base).0
    ensures Polling(beats + [Nap(15)], 1) && GoesOn(size, cond, base, v, beats + [Nap(15)], |beats| + 1, deadline)
    ensures LookedAll(size, v, beats + [Nap(15)]) == LookedAll(size, v, beats)
  {
    hide Evaluate, TickAfter;
    PollingSnoc(beats, 1, Nap(15));
    LaterBeat(size, cond, base, v, beats, |beats| - 1, deadline, Nap(15));
    assert (beats + [Nap(15)])[..|beats|] == beats;
  }

  lemma RunSnoc(size: Size, chunks: seq<string>, chunk: string)
    ensures Run(size, chunks + [chunk]) == Ingested(size, Run(size, chunks), chunk)
  {
    assert (chunks + [chunk])[..|chunks|] == chunks;
  }

  lemma {:induction false} DeliveredArrives(size: Size, v: View, beats: seq<Beat<string>>)
    ensures LookedAll(size, v, beats).delivered == v.delivered + Arrived(beats)
  {
    if beats != [] { DeliveredArrives(size, v, beats[..|beats| - 1]); }
  }

  class PtyLineBackend {
    const size: Size
    var lines: seq<string>
    var pending: string
    var linesEvicted: nat
    var outputSeq: nat
    var screenSeq: nat
    var contentSeq: nat
    var bellSeq: nat
    var edgeSnaps: seq<(nat, Screen)>
    var lastOutputAt: nat
    var lastChangeAt: nat
    /** Every chunk pumped so far, in order. */
    ghost var delivered: seq<string>

    ghost predicate Shows(e: Engine)
      requires WellFormed(e)
      reads this
    {
      && lines == Retained(e) && pending == e.text.pending && linesEvicted == e.evicted
      && bellSeq == e.text.bells && contentSeq == e.contentSeq
      && screenSeq == |e.edges| && edgeSnaps == Ring(e.edges)
    }

    ghost predicate Valid()
      reads this
    {
      Shows(Run(size, delivered)) && outputSeq == |delivered|
    }

    ghost function Now(): View
      reads this
    {
      View(delivered, lastOutputAt, lastChangeAt)
    }

    constructor (cols: nat, rows: nat, now: nat)
      ensures Valid() && delivered == [] && size == Size(cols, rows) && lastOutputAt == lastChangeAt == now
    {
      size := Size(cols, rows);
      lines, pending, linesEvicted := [], "", 0;
      outputSeq, screenSeq, contentSeq, bellSeq := 0, 0, 0, 0;
      edgeSnaps, lastOutputAt, lastChangeAt := [], now, now;
      delivered := [];
    }

    method RetainEdgeSnapshot(ghost edges: seq<Screen>)
      requires screenSeq == |edges| + 1 && edgeSnaps == Ring(edges)
      modifies this`edgeSnaps
      ensures edgeSnaps == Ring(edges + [Shown(size, lines, pending)])
    {
      RingPush(edges, Shown(size, lines, pending));
      if edgeSnaps == [] || edgeSnaps[|edgeSnaps| - 1].0 != screenSeq {
        edgeSnaps := edgeSnaps + [(screenSeq, Shown(size, lines, pending))];
        if |edgeSnaps| > EDGE_SNAP_CAP {
          edgeSnaps := edgeSnaps[1..];
        }
      }
    }

    /** The character loop has folded the first `n` characters of `chunk`. */
    ghost predicate Midway(e: Engine, chunk: string, n: nat)
      requires WellFormed(e) && n <= |chunk|
      reads this
    {
      var t, edges := FoldTo(e.text, chunk, n), e.edges + CommitEdges(size, e, chunk, n);
      && e.text.committed <= t.committed
      && lines == t.committed[e.evicted..] && pending == t.pending && bellSeq == t.bells
      && screenSeq == |edges| && edgeSnaps == Ring(edges)
      && linesEvicted == e.evicted && contentSeq == e.contentSeq
    }

    lemma NothingFolded(e: Engine, chunk: string)
      requires WellFormed(e) && Shows(e)
      ensures Midway(e, chunk, 0) && !Touched(e.text, chunk, 0)
    {
    }

    /** One turn of the character loop. */
    method IngestChar(chunk: string, i: nat, ghost e: Engine) returns (committed: bool, touched: bool)
      requires i < |chunk| && WellFormed(e) && Midway(e, chunk, i)
      modifies this`lines, this`pending, this`bellSeq, this`screenSeq, this`edgeSnaps
      ensures Midway(e, chunk, i + 1)
      ensures committed <==> chunk[i] == LF
      ensures touched || Touched(e.text, chunk, i) <==> Touched(e.text, chunk, i + 1)
    {
      var ch := chunk[i];
      committed, touched := false, false;
      if ch == LF {
        ghost var edges := e.edges + CommitEdges(size, e, chunk, i);
        lines, pending := lines + [pending], "";
        committed := true;
        screenSeq := screenSeq + 1;
        RetainEdgeSnapshot(edges);
        assert Shown(size, lines, pending) == ScreenAfter(size, e, chunk, i + 1);
        assert e.edges + CommitEdges(size, e, chunk, i + 1) == edges + [Shown(size, lines, pending)];
      } else if ch == CR {
        if !PeekLf(chunk, i + 1) && pending != "" {
          pending := "";
          touched := true;
        }
      } else if ch == BEL {
        bellSeq := bellSeq + 1;
      } else {
        pending := pending + [ch];
        touched := true;
      }
    }

    method EvictOldest(ghost committed: seq<string>)
      requires linesEvicted <= |committed| && lines == committed[linesEvicted..]
      requires linesEvicted <= Max(|committed| - MAX_LINES, 0)
      modifies this`lines, this`linesEvicted
      ensures linesEvicted == Max(|committed| - MAX_LINES, 0) && lines == committed[linesEvicted..]
    {
      if |lines| > MAX_LINES {
        var drop := |lines| - MAX_LINES;
        lines := lines[drop..];
        linesEvicted := linesEvicted + drop;
      }
    }

    method Ingest(chunk: string, now: nat, ghost e: Engine)
      requires WellFormed(e) && Shows(e)
      modifies this`lines, this`pending, this`bellSeq, this`screenSeq, this`edgeSnaps,
               this`contentSeq, this`linesEvicted, this`lastChangeAt
      ensures Shows(Ingested(size, e, chunk))
      ensures contentSeq == old(contentSeq) + (if screenSeq > old(screenSeq) then 1 else 0)
      ensures lastChangeAt == if screenSeq > old(screenSeq) then now else old(lastChangeAt)
    {
      hide FoldTo, Touched, CommitEdges, Ring, Shown;
      ContentMovesWithEdges(size, e, chunk);
      NothingFolded(e, chunk);
      var changed, pendingChanged := false, false;
      for i := 0 to |chunk|
        invariant Midway(e, chunk, i)
        invariant changed <==> LF in chunk[..i]
        invariant pendingChanged <==> Touched(e.text, chunk, i)
        invariant contentSeq == old(contentSeq) && lastChangeAt == old(lastChangeAt)
      {
        assert chunk[..i + 1] == chunk[..i] + [chunk[i]];
        var committed, touched := IngestChar(chunk, i, e);
        changed, pendingChanged := changed || committed, pendingChanged || touched;
      }
      assert chunk[..|chunk|] == chunk;
      if pendingChanged && !changed {
        NoCommitEdges(size, e, chunk, |chunk|);
        screenSeq := screenSeq + 1;
        RetainEdgeSnapshot(e.edges);
      }
      if changed || pendingChanged {
        contentSeq := contentSeq + 1;
      }
      EvictOldest(Fold(e.text, chunk).committed);
      if changed || pendingChanged {
        lastChangeAt := now;
      }
      if !changed && !pendingChanged { NoCommitEdges(size, e, chunk, |chunk|); }
    }

    /** One drained chunk. */
    method Feed(chunk: string, now: nat)
      requires Valid()
      modifies this
      ensures Valid() && delivered == old(delivered) + [chunk] && lastOutputAt == now
      ensures contentSeq >= old(contentSeq)
      ensures lastChangeAt == if contentSeq > old(contentSeq) then now else old(lastChangeAt)
    {
      ghost var e := Run(size, delivered);
      RunSnoc(size, delivered, chunk);
      hide Run, Ring;
      Ingest(chunk, now, e);
      assert contentSeq >= old(contentSeq);
      outputSeq := outputSeq + 1;
      lastOutputAt := now;
      delivered := delivered + [chunk];
    }

    /** Everything that was drained, chunk by chunk. */
    method FeedAll(chunks: seq<string>, now: nat)
      requires Valid()
      modifies this
      ensures Valid() && delivered == old(delivered) + chunks && contentSeq >= old(contentSeq)
      ensures lastOutputAt == if chunks != [] then now else old(lastOutputAt)
      ensures lastChangeAt == if contentSeq > old(contentSeq) then now else old(lastChangeAt)
    {
      hide Valid;
      for i := 0 to |chunks|
        invariant Valid() && delivered == old(delivered) + chunks[..i] && contentSeq >= old(contentSeq)
        invariant lastOutputAt == if i > 0 then now else old(lastOutputAt)
        invariant lastChangeAt == if contentSeq > old(contentSeq) then now else old(lastChangeAt)
      {
        Feed(chunks[i], now);
        assert chunks[..i + 1] == chunks[..i] + [chunks[i]];
      }
      assert chunks[..|chunks|] == chunks;
    }

    /** Drain what has arrived. */
    method Pump(child: Child<string>) returns (ghost look: Beat<string>)
      requires Valid()
      modifies this, child
      ensures Valid() && child.now >= old(child.now)
      ensures look.Look? && look.at == child.now && look.running == child.running
      ensures child.log == old(child.log) + [look]
      ensures delivered == old(delivered) + look.chunks
      ensures Now() == Looked(size, old(Now()), look)
    {
      Content();
      hide Run, Valid;
      var chunks := child.Drain();
      look := Look(chunks, child.now, child.running);
      FeedAll(chunks, child.now);
      Content();
    }

    lemma Content()
      requires Valid()
      ensures contentSeq == Run(size, delivered).contentSeq
    {
    }

    /** `state`: pump, then render; the process flag comes with the screen. */
    method State(child: Child<string>) returns (screen: Screen, running: bool, ghost look: Beat<string>)
      requires Valid()
      modifies this, child
      ensures Valid() && child.now >= old(child.now)
      ensures look.Look? && look.at == child.now
      ensures child.log == old(child.log) + [look] && delivered == old(delivered) + look.chunks
      ensures screen == Synth(size, lines, pending) && running == child.running == look.running
    {
      look := Pump(child);
      screen, running := Synth(size, lines, pending), child.running;
    }

    /** The screen one turn of the wait loop works on: the anchored edge, or the live one. */
    method Serve(cond: W.WaitCond) returns (screen: Screen, seqNo: nat)
      requires Valid()
      ensures (screen, seqNo) == Served(size, Run(size, delivered), cond)
    {
      ghost var e := Run(size, delivered);
      hide Run, Ring, Lookup, Shown;
      screen, seqNo := Shown(size, lines, pending), screenSeq;
      if cond.ScreenStable? && cond.afterScreenSeq.Some? && screenSeq > cond.afterScreenSeq.value {
        var want := cond.afterScreenSeq.value + 1;
        RingServes(e.edges, want);
        var snap := Lookup(edgeSnaps, want);
        if snap.Some? {
          screen, seqNo := snap.value, want;
        }
      }
    }

    function TickOf(child: Child<string>, screen: Screen): Tick
      reads this, child
    {
      Tick(screen, child.running, screenSeq, bellSeq, outputSeq,
           Elapsed(child.now, lastChangeAt), Elapsed(child.now, lastOutputAt))
    }

    /** The wait loop has gone through these beats without a reason to stop at the first `n`. */
    ghost predicate Waiting(cond: W.WaitCond, base: Baselines, entry: View, beats: seq<Beat<string>>, n: nat,
                            deadline: nat)
      reads this
    {
      && Valid() && Now() == LookedAll(size, entry, beats) && Polling(beats, 1)
      && GoesOn(size, cond, base, entry, beats, n, deadline)
    }

    /** One turn of the wait loop. */
    method Turn(child: Child<string>, cond: W.WaitCond, base: Baselines, ghost entry: View,
                ghost beats: seq<Beat<string>>, ghost deadline: nat)
      returns (met: bool, reason: W.WaitReason, screen: Screen, seqNo: nat, ghost look: Beat<string>)
      requires Waiting(cond, base, entry, beats, |beats|, deadline) && !EndsInLook(beats)
      modifies this, child
      ensures Waiting(cond, base, entry, beats + [look], |beats|, deadline) && child.now >= old(child.now)
      ensures look.Look? && look.at == child.now && child.log == old(child.log) + [look]
      ensures (met, reason) == Evaluate(cond, TickAfter(size, cond, entry, beats + [look]), base)
      ensures (screen, seqNo) == Served(size, Run(size, delivered), cond)
    {
      look := Pump(child);
      LookedSnoc(size, entry, beats, look);
      TurnTaken(size, cond, base, entry, beats, deadline, look);
      hide GoesOn, Polling;
      screen, seqNo := Serve(cond);
      TickIsRead(cond, entry, beats + [look], child, screen);
      hide Evaluate, Run, Served, LookedAll, Looked;
      var verdict := Evaluate(cond, TickOf(child, screen), base);
      met, reason := verdict.0, verdict.1;
    }

    lemma NothingYet(cond: W.WaitCond, base: Baselines, now: nat, deadline: nat)
      requires Valid()
      ensures InOrder<string>([], now)
      ensures Waiting(cond, base, Now(), [], 0, deadline)
      ensures screenSeq == |Run(size, delivered).edges| && bellSeq == Run(size, delivered).text.bells
    {
    }

    /** The nap between a failed look and the next. */
    lemma Naps(cond: W.WaitCond, base: Baselines, entry: View, beats: seq<Beat<string>>, deadline: nat)
      requires EndsInLook(beats) && beats[|beats| - 1].at < deadline
      requires Waiting(cond, base, entry, beats, |beats| - 1, deadline)
      requires !Evaluate(cond, TickAfter(size, cond, entry, beats), base).0
      ensures Waiting(cond, base, entry, beats + [Nap(15)], |beats| + 1, deadline)
    {
      hide Evaluate, TickAfter, GoesOn, Polling, Valid, LookedAll;
      Napped(size, cond, base, entry, beats, deadline);
    }

    /**
     Look at the child, and look again after every 15 ms, up to the first look at
     which the condition holds or the budget is spent; `beats` is what was done
     with the child.
    */
    method Wait(child: Child<string>, cond: W.WaitCond, budget: nat)
      returns (out: WaitOutcome, ghost beats: seq<Beat<string>>)
      requires Valid()
      modifies this, child
      ensures Valid() && child.now >= old(child.now)
      ensures child.log == old(child.log) + beats && Polling(beats, 1) && EndsInLook(beats)
      ensures InOrder(beats, child.now) && beats[|beats| - 1].at == child.now
      ensures delivered == old(delivered) + Arrived(beats)
      ensures Unfulfilled(size, cond, old(Now()), beats, |beats| - 1, old(child.now) + budget)
      ensures out.met <==> Fulfilled(size, cond, old(Now()), beats)
      ensures out.reason == if out.met then W.ReasonOf(cond) else W.ByTimeout
      ensures out.state == Served(size, Run(size, delivered), cond).0
      ensures out.screenSeq == if out.met then Served(size, Run(size, delivered), cond).1 else screenSeq
      ensures out.outputSeq == outputSeq
      ensures !out.met ==> child.now - old(child.now) >= budget
      ensures AlreadyMet(cond, old(screenSeq), old(bellSeq)) ==> out.met && |beats| == 1
    {
      hide Evaluate, GoesOn, Polling, LookedAll, TickAfter, Run, Served, AlreadyMet, BaselinesAt, Valid, Arrived,
           InOrder, Fulfilled, Unfulfilled;
      var start := child.now;
      var base := BaselinesAt(cond, screenSeq, bellSeq);
      ghost var entry, deadline := Now(), start + budget;
      beats := [];
      NothingYet(cond, base, child.now, deadline);
      while true
        invariant Waiting(cond, base, entry, beats, |beats|, deadline) && !EndsInLook(beats)
        invariant InOrder(beats, child.now)
        invariant child.log == old(child.log) + beats && child.now >= start
        invariant beats != [] ==> !AlreadyMet(cond, old(screenSeq), old(bellSeq))
        decreases start + budget - child.now
      {
        ghost var since := child.now;
        var met, reason, screen, seqNo, look := Turn(child, cond, base, entry, beats, deadline);
        InOrderSnoc(beats, since, look, child.now);
        beats := beats + [look];
        StaysMet(size, cond, base, entry, beats, old(screenSeq), old(bellSeq));
        if met {
          out := WaitOutcome(true, reason, seqNo, outputSeq, screen);
          break;
        }
        if child.now - start >= budget {
          out := WaitOutcome(false, W.ByTimeout, screenSeq, outputSeq, screen);
          break;
        }
        Naps(cond, base, entry, beats, deadline);
        since := child.now;
        child.Sleep(15);
        InOrderSnoc(beats, since, Nap(15), child.now);
        beats := beats + [Nap(15)];
      }
      DeliveredArrives(size, entry, beats);
      VerdictMeans(size, cond, entry, beats, child.now);
      EarlierLooksFail(size, cond, entry, beats, |beats| - 1, deadline, child.now);
    }

    /** The loop's tick is the one its beats so far account for. */
    lemma TickIsRead(cond: W.WaitCond, entry: View, beats: seq<Beat<string>>, child: Child<string>, screen: Screen)
      requires Valid() && beats != [] && Now() == LookedAll(size, entry, beats)
      requires var look := beats[|beats| - 1];
               look.Look? && look.at == child.now && look.running == child.running
      requires screen == Served(size, Run(size, delivered), cond).0
      ensures TickOf(child, screen) == TickAfter(size, cond, entry, beats)
    {
      hide Run, Served, LookedAll;
    }
  }

  /** An anchored edge condition with no quiet requirement that holds on entry. */
  predicate AlreadyMet(cond: W.WaitCond, screenSeq: nat, bellSeq: nat) {
    match cond
    case ScreenStable(quietFor, after) => quietFor == 0 && W.Past(after, screenSeq)
    case Bell(after) => after.Some? && bellSeq > after.value
    case AnyActivity(after) => after.Some? && screenSeq + bellSeq > after.value
    case _ => false
  }

  /** A wait that is met on entry is met at any look. */
  lemma StaysMet(size: Size, cond: W.WaitCond, base: Baselines, v: View, beats: seq<Beat<string>>, screenSeq: nat,
                 bellSeq: nat)
    requires EndsInLook(beats)
    requires screenSeq == |Run(size, v.delivered).edges| && bellSeq == Run(size, v.delivered).text.bells
    requires base == BaselinesAt(cond, screenSeq, bellSeq)
    ensures AlreadyMet(cond, screenSeq, bellSeq) ==> Evaluate(cond, TickAfter(size, cond, v, beats), base).0
  {
    DeliveredArrives(size, v, beats);
    CountersGrow(size, v.delivered, v.delivered + Arrived(beats));
    hide Run, Served, LookedAll, Arrived;
  }

  lemma {:induction false} CountersGrow(size: Size, earlier: seq<string>, later: seq<string>)
    requires earlier <= later
    ensures Run(size, earlier).edges <= Run(size, later).edges
    ensures Run(size, earlier).text.bells <= Run(size, later).text.bells
    decreases |later|
  {
    if |earlier| < |later| {
      CountersGrow(size, earlier, later[..|later| - 1]);
      BellsGrow(Run(size, later[..|later| - 1]).text, later[|later| - 1], |later[|later| - 1]|);
    } else {
      assert earlier == later;
    }
  }

  lemma {:induction false} BellsGrow(t: Text, s: string, n: nat)
    requires n <= |s|
    ensures t.bells <= FoldTo(t, s, n).bells
  {
    if n > 0 { BellsGrow(t, s, n - 1); }
  }
}
