/**
 Waits of the portable PTY backend (src/backend/wait.rs, the pump and wait loop
 of src/backend/portable_pty.rs): one evaluator over monotone counters, run
 tick by tick against an adversarial child.
*/
module CausalWaits {
  import opened ChildProcess
  import opened Common
  import opened EventClock
  import W = WaitConditions
  import ShellMarks

  /** The rendered grid; `look` stands for styles, cursor and size. */
  datatype Grid = Grid(text: seq<string>, look: int)

  /** What the terminal parser makes of one output chunk. */
  datatype ParserEvent =
    | Paint(grid: Grid)
    | Ring
    | Retitle(title: string)
    | Osc133(mark: ShellMarks.Mark)
    | Scroll(history: seq<string>)

  /** The emulator with its callback counters. */
  datatype Terminal = Terminal(
    grid: Grid, scrollback: seq<string>, audibleBells: nat, titles: nat, title: Option<string>,
    shell: ShellMarks.Shell)

  function Handled(t: Terminal, e: ParserEvent): Terminal {
    match e
    case Paint(grid) => t.(grid := grid)
    case Ring => t.(audibleBells := t.audibleBells + 1)
    case Retitle(title) => t.(titles := t.titles + 1, title := Some(title))
    case Osc133(mark) => t.(shell := ShellMarks.Marked(t.shell, mark))
    case Scroll(history) => t.(scrollback := history)
  }

  function Fed(t: Terminal, chunk: seq<ParserEvent>): Terminal {
    if chunk == [] then t else Handled(Fed(t, chunk[..|chunk| - 1]), chunk[|chunk| - 1])
  }

  function Blank(grid: Grid): Terminal { Terminal(grid, [], 0, 0, None, ShellMarks.Quiet) }

  /** The emulator after a list of chunks. */
  function FedAll(grid: Grid, chunks: seq<seq<ParserEvent>>): Terminal {
    if chunks == [] then Blank(grid) else Fed(FedAll(grid, chunks[..|chunks| - 1]), chunks[|chunks| - 1])
  }

  function Rings(events: seq<ParserEvent>): nat {
    if events == [] then 0
    else Rings(events[..|events| - 1]) + (if events[|events| - 1].Ring? then 1 else 0)
  }

  function Retitles(events: seq<ParserEvent>): nat {
    if events == [] then 0
    else Retitles(events[..|events| - 1]) + (if events[|events| - 1].Retitle? then 1 else 0)
  }

  function Marks(events: seq<ParserEvent>): seq<ShellMarks.Mark> {
    if events == [] then []
    else
      var last := events[|events| - 1];
      Marks(events[..|events| - 1]) + (if last.Osc133? then [last.mark] else [])
  }

  lemma {:induction false} FedConcat(t: Terminal, a: seq<ParserEvent>, b: seq<ParserEvent>)
    ensures Fed(t, a + b) == Fed(Fed(t, a), b)
  {
    if b == [] {
      assert a + b == a;
    } else {
      assert (a + b)[..|a + b| - 1] == a + b[..|b| - 1];
      FedConcat(t, a, b[..|b| - 1]);
    }
  }

  /** How the stream is cut into chunks does not change what the emulator has counted. */
  lemma {:induction false} FedAllIsFed(grid: Grid, chunks: seq<seq<ParserEvent>>)
    ensures FedAll(grid, chunks) == Fed(Blank(grid), Concat(chunks))
  {
    if chunks != [] {
      FedAllIsFed(grid, chunks[..|chunks| - 1]);
      FedConcat(Blank(grid), Concat(chunks[..|chunks| - 1]), chunks[|chunks| - 1]);
    }
  }

  lemma {:induction false} FedCounts(grid: Grid, events: seq<ParserEvent>)
    ensures Fed(Blank(grid), events).audibleBells == Rings(events)
    ensures Fed(Blank(grid), events).titles == Retitles(events)
    ensures Fed(Blank(grid), events).shell == ShellMarks.After(Marks(events))
  {
    if events != [] {
      var init, last := events[..|events| - 1], events[|events| - 1];
      FedCounts(grid, init);
      if last.Osc133? { assert Marks(events)[..|Marks(events)| - 1] == Marks(init); }
      else { assert Marks(init) + [] == Marks(init); }
    }
  }

  /** The counters a wait reads count what the child really sent. */
  lemma CountersCountEvents(grid: Grid, chunks: seq<seq<ParserEvent>>)
    ensures FedAll(grid, chunks).audibleBells == Rings(Concat(chunks))
    ensures FedAll(grid, chunks).titles == Retitles(Concat(chunks))
    ensures FedAll(grid, chunks).shell == ShellMarks.After(Marks(Concat(chunks)))
  {
    FedAllIsFed(grid, chunks);
    FedCounts(grid, Concat(chunks));
  }

  lemma {:induction false} FedCountsOn(t: Terminal, events: seq<ParserEvent>)
    ensures Fed(t, events).audibleBells == t.audibleBells + Rings(events)
    ensures Fed(t, events).titles == t.titles + Retitles(events)
  {
    if events != [] { FedCountsOn(t, events[..|events| - 1]); }
  }

  lemma {:induction false} ConcatSplits<T>(parts: seq<seq<T>>, n: nat)
    requires n <= |parts|
    ensures Concat(parts) == Concat(parts[..n]) + Concat(parts[n..])
  {
    if n == |parts| {
      assert parts[..n] == parts && parts[n..] == [];
    } else {
      var init := parts[..|parts| - 1];
      ConcatSplits(init, n);
      assert init[..n] == parts[..n] && init[n..] == parts[n..][..|parts[n..]| - 1];
    }
  }

  /** The events of the chunks received from the `n`-th on. */
  function EventsSince(received: seq<seq<ParserEvent>>, n: nat): seq<ParserEvent>
    requires n <= |received|
  {
    Concat(received[n..])
  }

  /** The counters split at any earlier point of the stream. */
  lemma CountsSplit(grid: Grid, received: seq<seq<ParserEvent>>, n: nat)
    requires n <= |received|
    ensures FedAll(grid, received).audibleBells
         == FedAll(grid, received[..n]).audibleBells + Rings(EventsSince(received, n))
    ensures FedAll(grid, received).titles == FedAll(grid, received[..n]).titles + Retitles(EventsSince(received, n))
  {
    FedAllIsFed(grid, received);
    FedAllIsFed(grid, received[..n]);
    ConcatSplits(received, n);
    FedConcat(Blank(grid), Concat(received[..n]), Concat(received[n..]));
    FedCountsOn(FedAll(grid, received[..n]), Concat(received[n..]));
    hide FedAll, Fed, Rings, Retitles, Concat;
  }

  // ----- one tick ---------------------------------------------------------

  datatype Tick = Tick(
    viewport: seq<string>, scrollback: seq<string>, running: bool, title: Option<string>,
    screenSeq: nat, outputSeq: nat, bellSeq: nat, interactionSeq: nat,
    screenQuiet: bool, outputQuiet: bool, commandSeq: nat, commandRunning: bool, grid: Grid)

  datatype Baselines = Baselines(bellSeq: nat, interactionSeq: nat, grid: Grid)

  function OrZero(anchor: Option<nat>): nat { if anchor.Some? then anchor.value else 0 }

  /** `WaitEvaluator::evaluate`; equal grids stand for equal fingerprints. */
  function Evaluate(cond: W.WaitCond, tick: Tick, base: Baselines): (bool, W.WaitReason) {
    match cond
    case Text(t) => (W.AnyRowContains(tick.viewport, t), W.ByText)
    case TextAbsent(t) => (!W.AnyRowContains(tick.viewport, t), W.ByTextAbsent)
    case ScreenChange => (tick.grid != base.grid, W.ByScreenChange)
    case ScreenStable(_, after) => (W.Past(after, tick.screenSeq) && tick.screenQuiet, W.ByScreenStable)
    case ProcessExit => (!tick.running, W.ByProcessExit)
    case Title(t) => (tick.title == Some(t), W.ByTitle)
    case Bell(_) => (tick.bellSeq > base.bellSeq, W.ByBell)
    case AnyActivity(after) =>
      (tick.interactionSeq > (if after.Some? then after.value else base.interactionSeq), W.ByScreenChange)
    case Idle(_, after) => (W.Past(after, tick.outputSeq) && tick.outputQuiet, W.ByIdle)
    case CommandDone(after) =>
      (tick.commandSeq > OrZero(after) && !tick.commandRunning, W.ByIdle)
    case CommandOutput(text, after) =>
      var inWindow := Max(tick.commandSeq - 1, 0) == OrZero(after) || tick.commandSeq == Max(OrZero(after), 1);
      (tick.commandSeq > OrZero(after) && inWindow
       && (W.AnyRowContains(tick.viewport, text) || W.AnyRowContains(tick.scrollback, text)), W.ByText)
  }

  function QuietFor(cond: W.WaitCond): nat {
    if cond.ScreenStable? || cond.Idle? then cond.quietFor else 0
  }

  // ----- what the looks of a wait show ------------------------------------

  /** The backend as a look leaves it. */
  datatype View = View(
    terminal: Terminal, screenSeq: nat, contentSeq: nat, outputSeq: nat, changedAt: nat, outputAt: nat)

  /** A look feeds what has arrived and counts at most one screen change; a nap changes nothing. */
  function Looked(v: View, beat: Beat<seq<ParserEvent>>): View {
    if beat.Nap? then v
    else
      var t := Fed(v.terminal, Concat(beat.chunks));
      var changed := t.grid != v.terminal.grid;
      View(t, v.screenSeq + (if changed then 1 else 0),
           v.contentSeq + (if t.grid.text != v.terminal.grid.text then 1 else 0), v.outputSeq + |beat.chunks|,
           if changed then beat.at else v.changedAt, if beat.chunks != [] then beat.at else v.outputAt)
  }

  function LookedAll(v: View, beats: seq<Beat<seq<ParserEvent>>>): View {
    if beats == [] then v else Looked(LookedAll(v, beats[..|beats| - 1]), beats[|beats| - 1])
  }

  /** The tick of the wait loop whose look is the last of these beats. */
  function TickAt(cond: W.WaitCond, v: View, beats: seq<Beat<seq<ParserEvent>>>): Tick
    requires EndsInLook(beats)
  {
    var now, look := LookedAll(v, beats), beats[|beats| - 1];
    var t := now.terminal;
    Tick(t.grid.text, t.scrollback, look.running, t.title,
         now.screenSeq, now.outputSeq, t.audibleBells, now.screenSeq + t.audibleBells + t.titles,
         cond.ScreenStable? && Elapsed(look.at, now.changedAt) >= QuietFor(cond),
         cond.Idle? && Elapsed(look.at, now.outputAt) >= QuietFor(cond),
         t.shell.commandSeq, t.shell.running, t.grid)
  }

  lemma LookedSnoc(v: View, beats: seq<Beat<seq<ParserEvent>>>, beat: Beat<seq<ParserEvent>>)
    ensures LookedAll(v, beats + [beat]) == Looked(LookedAll(v, beats), beat)
  {
    assert (beats + [beat])[..|beats|] == beats;
  }

  lemma {:induction false} ConcatAppend<T>(a: seq<seq<T>>, b: seq<seq<T>>)
    ensures Concat(a + b) == Concat(a) + Concat(b)
  {
    ConcatSplits(a + b, |a|);
    assert (a + b)[..|a|] == a && (a + b)[|a|..] == b;
  }

  /** What the looks show is the child's own stream, however it was cut. */
  lemma {:induction false} LooksShowTheStream(v: View, beats: seq<Beat<seq<ParserEvent>>>)
    ensures var events := Concat(Arrived(beats));
            && LookedAll(v, beats).terminal == Fed(v.terminal, events)
            && LookedAll(v, beats).terminal.audibleBells == v.terminal.audibleBells + Rings(events)
            && LookedAll(v, beats).terminal.titles == v.terminal.titles + Retitles(events)
    ensures LookedAll(v, beats).outputSeq == v.outputSeq + |Arrived(beats)|
  {
    FedCountsOn(v.terminal, Concat(Arrived(beats)));
    if beats != [] {
      var earlier, last := beats[..|beats| - 1], beats[|beats| - 1];
      LooksShowTheStream(v, earlier);
      if last.Look? {
        ConcatAppend(Arrived(earlier), last.chunks);
        FedConcat(v.terminal, Concat(Arrived(earlier)), Concat(last.chunks));
      } else {
        assert Arrived(earlier) + [] == Arrived(earlier);
      }
    }
  }

  /** The looks among the first `n` beats, the entry look aside, gave no reason to stop. */
  ghost predicate GoesOn(cond: W.WaitCond, base: Baselines, v: View, beats: seq<Beat<seq<ParserEvent>>>, n: nat,
                         deadline: nat)
  {
    n <= |beats| &&
    forall i :: 1 <= i < n && beats[i].Look? ==>
      beats[i].at < deadline && !Evaluate(cond, TickAt(cond, v, beats[..i + 1]), base).0
  }

  lemma GoesOnLonger(cond: W.WaitCond, base: Baselines, v: View, beats: seq<Beat<seq<ParserEvent>>>, n: nat,
                     deadline: nat, beat: Beat<seq<ParserEvent>>)
    requires GoesOn(cond, base, v, beats, n, deadline)
    ensures GoesOn(cond, base, v, beats + [beat], n, deadline)
  {
    hide Evaluate, TickAt;
    forall i | 0 <= i < n
      ensures (beats + [beat])[i] == beats[i] && (beats + [beat])[..i + 1] == beats[..i + 1]
    {
    }
  }

  lemma TurnTaken(cond: W.WaitCond, base: Baselines, v: View, beats: seq<Beat<seq<ParserEvent>>>, deadline: nat,
                  look: Beat<seq<ParserEvent>>)
    requires look.Look? && (|beats| == 1 || !EndsInLook(beats))
    requires Polling(beats, 2) && GoesOn(cond, base, v, beats, |beats|, deadline)
    ensures Polling(beats + [look], 2) && GoesOn(cond, base, v, beats + [look], |beats|, deadline)
  {
    hide GoesOn;
    PollingSnoc(beats, 2, look);
    GoesOnLonger(cond, base, v, beats, |beats|, deadline, look);
  }

  /** A failed look and the nap behind it. */
  lemma Napped(cond: W.WaitCond, base: Baselines, v: View, beats: seq<Beat<seq<ParserEvent>>>, deadline: nat)
    requires EndsInLook(beats) && beats[|beats| - 1].at < deadline && |beats| >= 2
    requires Polling(beats, 2) && GoesOn(cond, base, v, beats, |beats| - 1, deadline)
    requires !Evaluate(cond, TickAt(cond, v, beats), base).0
    ensures Polling(beats + [Nap(15)], 2) && GoesOn(cond, base, v, beats + [Nap(15)], |beats| + 1, deadline)
    ensures LookedAll(v, beats + [Nap(15)]) == LookedAll(v, beats)
  {
    hide Evaluate, TickAt;
    PollingSnoc(beats, 2, Nap(15));
    GoesOnLonger(cond, base, v, beats, |beats| - 1, deadline, Nap(15));
    assert (beats + [Nap(15)])[..|beats|] == beats;
  }

  // ----- what a condition waits for ----------------------------------------

  /** The terminal after the first `n` of these beats. */
  function ShownAt(v: View, beats: seq<Beat<seq<ParserEvent>>>, n: nat): Terminal
    requires n <= |beats|
  {
    Fed(v.terminal, Concat(Arrived(beats[..n])))
  }

  /** The looks that found another grid than the one before. */
  function GridLooks(v: View, beats: seq<Beat<seq<ParserEvent>>>): set<nat> {
    set i: nat | i < |beats| && beats[i].Look? && ShownAt(v, beats, i + 1).grid != ShownAt(v, beats, i).grid
  }

  /** The newest title among the events, or the one before them. */
  function LatestTitle(before: Option<string>, events: seq<ParserEvent>): Option<string> {
    if events == [] then before
    else
      var last := events[|events| - 1];
      if last.Retitle? then Some(last.title) else LatestTitle(before, events[..|events| - 1])
  }

  /** Screen edges, bells and titles together, over all that has arrived. */
  function ActivityAt(v: View, beats: seq<Beat<seq<ParserEvent>>>): nat {
    var events := Concat(Arrived(beats));
    v.screenSeq + |GridLooks(v, beats)| + v.terminal.audibleBells + Rings(events) + v.terminal.titles + Retitles(events)
  }

  /** The condition holds at the last of these looks, in terms of all that has arrived and when. */
  ghost predicate Fulfilled(cond: W.WaitCond, base: Baselines, v: View, beats: seq<Beat<seq<ParserEvent>>>)
    requires EndsInLook(beats)
  {
    var t, events := ShownAt(v, beats, |beats|), Concat(Arrived(beats));
    match cond
    case Text(s) => W.ShowsText(t.grid.text, s)
    case TextAbsent(s) => !W.ShowsText(t.grid.text, s)
    case ScreenChange => t.grid != base.grid
    case ScreenStable(q, after) =>
      W.Past(after, v.screenSeq + |GridLooks(v, beats)|) && Quiet(beats, GridLooks(v, beats), v.changedAt, q)
    case ProcessExit => !beats[|beats| - 1].running
    case Title(s) => LatestTitle(v.terminal.title, events) == Some(s)
    case Bell(_) => v.terminal.audibleBells + Rings(events) > base.bellSeq
    case AnyActivity(after) => ActivityAt(v, beats) > if after.Some? then after.value else base.interactionSeq
    case Idle(q, after) =>
      W.Past(after, v.outputSeq + |Arrived(beats)|) && Quiet(beats, OutputLooks(beats), v.outputAt, q)
    case CommandDone(after) => t.shell.commandSeq > OrZero(after) && !t.shell.running
    case CommandOutput(s, after) =>
      && t.shell.commandSeq == (if after.Some? then after.value + 1 else 1)
      && (W.ShowsText(t.grid.text, s) || W.ShowsText(t.scrollback, s))
  }

  /** The looks among the first `n` beats, the entry look aside, gave no reason to stop. */
  ghost predicate Unfulfilled(cond: W.WaitCond, base: Baselines, v: View, beats: seq<Beat<seq<ParserEvent>>>, n: nat,
                              deadline: nat)
  {
    n <= |beats| &&
    forall i :: 1 <= i < n && beats[i].Look? ==>
      beats[i].at < deadline && !Fulfilled(cond, base, v, beats[..i + 1])
  }

  function LatestGrid(before: Grid, events: seq<ParserEvent>): Grid {
    if events == [] then before
    else
      var last := events[|events| - 1];
      if last.Paint? then last.grid else LatestGrid(before, events[..|events| - 1])
  }

  function LatestHistory(before: seq<string>, events: seq<ParserEvent>): seq<string> {
    if events == [] then before
    else
      var last := events[|events| - 1];
      if last.Scroll? then last.history else LatestHistory(before, events[..|events| - 1])
  }

  /** The terminal shows the newest grid, history and title of its stream. */
  lemma {:induction false} TerminalIsLatest(t: Terminal, events: seq<ParserEvent>)
    ensures Fed(t, events).grid == LatestGrid(t.grid, events)
    ensures Fed(t, events).scrollback == LatestHistory(t.scrollback, events)
    ensures Fed(t, events).title == LatestTitle(t.title, events)
  {
    if events != [] { TerminalIsLatest(t, events[..|events| - 1]); }
  }

  lemma GridLooksSnoc(v: View, beats: seq<Beat<seq<ParserEvent>>>, last: Beat<seq<ParserEvent>>)
    ensures var all := beats + [last];
            var hit := last.Look? && ShownAt(v, all, |all|).grid != ShownAt(v, beats, |beats|).grid;
            GridLooks(v, all) == GridLooks(v, beats) + (if hit then {|beats|} else {})
  {
    hide Fed, Concat, Arrived;
    var all := beats + [last];
    forall i: nat | i <= |beats|
      ensures ShownAt(v, all, i) == ShownAt(v, beats, i)
    {
      assert all[..i] == beats[..i];
    }
    assert all[|beats|] == last && forall i :: 0 <= i < |beats| ==> all[i] == beats[i];
  }

  /** The screen counter counts the looks with another grid, and the change instant is that of the newest. */
  lemma {:induction false} GridLooksCount(v: View, beats: seq<Beat<seq<ParserEvent>>>)
    ensures var hits, now := GridLooks(v, beats), LookedAll(v, beats);
            && now.screenSeq == v.screenSeq + |hits|
            && AreLooks(beats, hits) && NewestOf(beats, hits, v.changedAt, now.changedAt)
    ensures LookedAll(v, beats).terminal == ShownAt(v, beats, |beats|)
    ensures LookedAll(v, beats).outputAt == OutputAt(beats, v.outputAt)
  {
    hide Fed, Concat, Arrived, GridLooks, NewestOf, AreLooks;
    LooksShowTheStream(v, beats);
    assert beats[..|beats|] == beats;
    if beats == [] {
      NoGridLooks(v);
    } else {
      var init, last := beats[..|beats| - 1], beats[|beats| - 1];
      GridLooksCount(v, init);
      NewestSnoc(init, GridLooks(v, init), v.changedAt, LookedAll(v, init).changedAt, last);
      assert beats == init + [last];
      GridLooksSnoc(v, init, last);
      var hits := GridLooks(v, init);
      assert hits + {} == hits;
      NotYetHit(init, hits);
    }
  }

  lemma NotYetHit(beats: seq<Beat<seq<ParserEvent>>>, hits: set<nat>)
    requires AreLooks(beats, hits)
    ensures |hits + {|beats|}| == |hits| + 1
  {
    assert |beats| !in hits;
  }

  lemma NoGridLooks(v: View)
    ensures GridLooks(v, []) == {} && AreLooks<seq<ParserEvent>>([], {})
    ensures NewestOf<seq<ParserEvent>>([], {}, v.changedAt, v.changedAt)
  {
  }

  /** The tick asks for the quiet interval of the condition, and nothing less. */
  lemma QuietIsAsked(cond: W.WaitCond, v: View, beats: seq<Beat<seq<ParserEvent>>>, now: nat)
    requires EndsInLook(beats) && InOrder(beats, now)
    ensures AreLooks(beats, GridLooks(v, beats)) && AreLooks(beats, OutputLooks(beats))
    ensures cond.ScreenStable? ==>
              (TickAt(cond, v, beats).screenQuiet <==> Quiet(beats, GridLooks(v, beats), v.changedAt, cond.quietFor))
    ensures cond.Idle? ==>
              (TickAt(cond, v, beats).outputQuiet <==> Quiet(beats, OutputLooks(beats), v.outputAt, cond.quietFor))
  {
    hide GridLooks, OutputLooks, LookedAll, NewestOf, Quiet, InOrder, Elapsed, OutputAt;
    GridLooksCount(v, beats);
    OutputAtIsNewest(beats, v.outputAt);
    var last := LookedAll(v, beats);
    if cond.ScreenStable? {
      QuietMeans(beats, GridLooks(v, beats), v.changedAt, last.changedAt, cond.quietFor, now);
    } else if cond.Idle? {
      QuietMeans(beats, OutputLooks(beats), v.outputAt, last.outputAt, cond.quietFor, now);
    }
  }

  /** What the loop computes at a look is whether the condition holds, and the reason is the condition's. */
  lemma VerdictMeans(cond: W.WaitCond, base: Baselines, v: View, beats: seq<Beat<seq<ParserEvent>>>, now: nat)
    requires EndsInLook(beats) && InOrder(beats, now)
    ensures var verdict := Evaluate(cond, TickAt(cond, v, beats), base);
            && (verdict.0 <==> Fulfilled(cond, base, v, beats))
            && verdict.1 == W.ReasonOf(cond)
  {
    hide GridLooks, OutputLooks, LookedAll, NewestOf, Quiet, InOrder, Elapsed, OutputAt, AreLooks, Arrived, Fed, Concat,
         Rings, Retitles, QuietFor, W.AnyRowContains, W.ShowsText;
    QuietIsAsked(cond, v, beats, now);
    GridLooksCount(v, beats);
    LooksShowTheStream(v, beats);
    TerminalIsLatest(v.terminal, Concat(Arrived(beats)));
    var t := LookedAll(v, beats).terminal;
    assert beats[..|beats|] == beats;
    match cond
    case Text(s) => W.ContainsIsShows(t.grid.text, s);
    case TextAbsent(s) => W.ContainsIsShows(t.grid.text, s);
    case CommandOutput(s, _) =>
      W.ContainsIsShows(t.grid.text, s);
      W.ContainsIsShows(t.scrollback, s);
    case _ =>
  }

  lemma EarlierLooksFail(cond: W.WaitCond, base: Baselines, v: View, beats: seq<Beat<seq<ParserEvent>>>, n: nat,
                         deadline: nat, now: nat)
    requires InOrder(beats, now) && GoesOn(cond, base, v, beats, n, deadline)
    ensures Unfulfilled(cond, base, v, beats, n, deadline)
  {
    hide Evaluate, TickAt, Fulfilled, InOrder;
    forall i | 1 <= i < n && beats[i].Look?
      ensures beats[i].at < deadline && !Fulfilled(cond, base, v, beats[..i + 1])
    {
      InOrderTo(beats, now, i + 1);
      VerdictMeans(cond, base, v, beats[..i + 1], now);
    }
  }

  // ----- what an anchored verdict means -----------------------------------

  predicate Anchorable(cond: W.WaitCond) {
    cond.ScreenStable? || cond.ScreenChange? || cond.Idle? || cond.Bell? || cond.AnyActivity?
    || cond.CommandDone? || cond.CommandOutput?
  }

  /** The counter a condition watches. */
  function Counter(cond: W.WaitCond, tick: Tick): nat
    requires Anchorable(cond)
  {
    match cond
    case Idle(_, _) => tick.outputSeq
    case Bell(_) => tick.bellSeq
    case AnyActivity(_) => tick.interactionSeq
    case CommandDone(_) => tick.commandSeq
    case CommandOutput(_, _) => tick.commandSeq
    case _ => tick.screenSeq
  }

  /** The value it has to pass when the wait is anchored to `b`. */
  function Anchor(cond: W.WaitCond, b: W.EventState): nat
    requires Anchorable(cond)
  {
    match cond
    case ScreenStable(_, a) => if a.Some? then a.value else b.screenSeq
    case Idle(_, a) => if a.Some? then a.value else b.outputSeq
    case Bell(a) => if a.Some? then a.value else b.bellSeq
    case AnyActivity(a) => if a.Some? then a.value else b.interactionSeq
    case CommandDone(a) => if a.Some? then a.value else b.commandSeq
    case CommandOutput(_, a) => if a.Some? then a.value else b.commandSeq
    case _ => b.screenSeq
  }

  /** What is required besides the counter. */
  predicate Settled(cond: W.WaitCond, b: W.EventState, tick: Tick)
    requires Anchorable(cond)
  {
    match cond
    case Bell(_) => true
    case AnyActivity(_) => true
    case Idle(_, _) => tick.outputQuiet
    case CommandDone(_) => !tick.commandRunning
    case CommandOutput(text, _) =>
      tick.commandSeq == Anchor(cond, b) + 1
      && (W.AnyRowContains(tick.viewport, text) || W.AnyRowContains(tick.scrollback, text))
    case _ => tick.screenQuiet
  }

  /** The watched counter is past the anchor, and the tick is settled. */
  predicate Passes(cond: W.WaitCond, b: W.EventState, tick: Tick)
    requires Anchorable(cond)
  {
    Counter(cond, tick) > Anchor(cond, b) && Settled(cond, b, tick)
  }

  function BellBaseline(cond: W.WaitCond, current: nat): nat {
    if cond.Bell? && cond.afterBellSeq.Some? then cond.afterBellSeq.value else current
  }

  /** An anchored condition is met exactly past its anchor and settled. */
  lemma AnchoredVerdict(cond: W.WaitCond, b: W.EventState, tick: Tick, base: Baselines)
    requires Anchorable(cond)
    requires base.bellSeq == BellBaseline(W.AnchoredTo(cond, b), base.bellSeq)
    ensures Evaluate(W.AnchoredTo(cond, b), tick, base).0 <==> Passes(cond, b, tick)
  {
  }

  /** How long the screen has to be quiet, once past the anchor; for `Idle`, the output. */
  function QuietAsked(cond: W.WaitCond): nat {
    if cond.ScreenStable? || cond.Idle? then cond.quietFor else if cond.ScreenChange? then 40 else 0
  }

  /** Settled means that a whole quiet interval lies between the newest such look, if any, and this one. */
  lemma SettledMeans(cond: W.WaitCond, b: W.EventState, v: View, beats: seq<Beat<seq<ParserEvent>>>, now: nat)
    requires EndsInLook(beats) && InOrder(beats, now)
    requires cond.ScreenStable? || cond.ScreenChange? || cond.Idle?
    ensures Settled(cond, b, TickAt(W.AnchoredTo(cond, b), v, beats))
            <==> if cond.Idle? then Quiet(beats, OutputLooks(beats), v.outputAt, QuietAsked(cond))
                 else Quiet(beats, GridLooks(v, beats), v.changedAt, QuietAsked(cond))
  {
    hide TickAt, Quiet, InOrder, GridLooks, OutputLooks, AreLooks;
    QuietIsAsked(W.AnchoredTo(cond, b), v, beats, now);
  }

  /** None of the looks among the first `n` beats, the entry look aside, is past the anchor and settled. */
  ghost predicate NotYet(cond: W.WaitCond, b: W.EventState, v: View, beats: seq<Beat<seq<ParserEvent>>>, n: nat)
    requires Anchorable(cond)
  {
    n <= |beats| &&
    forall i :: 1 <= i < n && beats[i].Look? ==>
      !Passes(cond, b, TickAt(W.AnchoredTo(cond, b), v, beats[..i + 1]))
  }

  /** None of them is settled. */
  ghost predicate Unsettled(cond: W.WaitCond, b: W.EventState, v: View, beats: seq<Beat<seq<ParserEvent>>>, n: nat)
    requires Anchorable(cond)
  {
    n <= |beats| &&
    forall i :: 1 <= i < n && beats[i].Look? ==>
      !Settled(cond, b, TickAt(W.AnchoredTo(cond, b), v, beats[..i + 1]))
  }

  /** Bells and titles are those the parser has counted, adopted or not. */
  predicate NoCounterAhead(b: W.EventState, v: View) {
    && b.outputSeq <= v.outputSeq && b.screenSeq <= v.screenSeq && b.contentSeq <= v.contentSeq
    && b.bellSeq <= v.terminal.audibleBells && b.titleSeq <= v.terminal.titles
    && b.commandSeq <= v.terminal.shell.commandSeq
  }

  predicate NoCounterBehind(v: View, now: View) {
    && v.screenSeq <= now.screenSeq && v.contentSeq <= now.contentSeq && v.outputSeq <= now.outputSeq
    && v.terminal.audibleBells <= now.terminal.audibleBells && v.terminal.titles <= now.terminal.titles
    && v.terminal.shell.commandSeq <= now.terminal.shell.commandSeq
  }

  /** Counters never fall from one look to the next. */
  lemma {:induction false} LooksGrow(v: View, beats: seq<Beat<seq<ParserEvent>>>)
    ensures NoCounterBehind(v, LookedAll(v, beats))
  {
    hide Fed, Concat;
    if beats != [] {
      var earlier, last := beats[..|beats| - 1], beats[|beats| - 1];
      LooksGrow(v, earlier);
      if last.Look? { FedGrows(LookedAll(v, earlier).terminal, Concat(last.chunks)); }
    }
  }

  /** The watched counter as the wait begins, bells and titles adopted. */
  function CounterIn(cond: W.WaitCond, v: View): nat
    requires Anchorable(cond)
  {
    match cond
    case Idle(_, _) => v.outputSeq
    case Bell(_) => v.terminal.audibleBells
    case AnyActivity(_) => v.screenSeq + v.terminal.audibleBells + v.terminal.titles
    case CommandDone(_) => v.terminal.shell.commandSeq
    case CommandOutput(_, _) => v.terminal.shell.commandSeq
    case _ => v.screenSeq
  }

  lemma CounterGrows(cond: W.WaitCond, b: W.EventState, v: View, beats: seq<Beat<seq<ParserEvent>>>)
    requires Anchorable(cond) && EndsInLook(beats)
    ensures Counter(cond, TickAt(W.AnchoredTo(cond, b), v, beats)) >= CounterIn(cond, v)
  {
    hide LookedAll;
    LooksGrow(v, beats);
  }

  /**
   No false and no lost reaction: of the looks that the loop takes, it stops at
   the first that is past the anchor and settled; past the anchor before it
   began, only unsettled looks keep it going.
  */
  lemma AnchoredRun(cond: W.WaitCond, b: W.EventState, base: Baselines, v: View, beats: seq<Beat<seq<ParserEvent>>>,
                    deadline: nat, now: nat)
    requires Anchorable(cond) && EndsInLook(beats) && InOrder(beats, now)
    requires base.bellSeq == BellBaseline(W.AnchoredTo(cond, b), base.bellSeq)
    requires Unfulfilled(W.AnchoredTo(cond, b), base, v, beats, |beats| - 1, deadline)
    ensures Fulfilled(W.AnchoredTo(cond, b), base, v, beats)
            <==> Passes(cond, b, TickAt(W.AnchoredTo(cond, b), v, beats))
    ensures NotYet(cond, b, v, beats, |beats| - 1)
    ensures CounterIn(cond, v) > Anchor(cond, b) ==> Unsettled(cond, b, v, beats, |beats| - 1)
  {
    hide Evaluate, W.AnchoredTo, TickAt, Settled, Counter, CounterIn, Anchor, Fulfilled, InOrder;
    VerdictMeans(W.AnchoredTo(cond, b), base, v, beats, now);
    AnchoredVerdict(cond, b, TickAt(W.AnchoredTo(cond, b), v, beats), base);
    forall i | 1 <= i < |beats| - 1 && beats[i].Look?
      ensures !Passes(cond, b, TickAt(W.AnchoredTo(cond, b), v, beats[..i + 1]))
      ensures CounterIn(cond, v) > Anchor(cond, b) ==>
                !Settled(cond, b, TickAt(W.AnchoredTo(cond, b), v, beats[..i + 1]))
    {
      InOrderTo(beats, now, i + 1);
      VerdictMeans(W.AnchoredTo(cond, b), base, v, beats[..i + 1], now);
      AnchoredVerdict(cond, b, TickAt(W.AnchoredTo(cond, b), v, beats[..i + 1]), base);
      CounterGrows(cond, b, v, beats[..i + 1]);
    }
  }

  predicate IsSum(s: W.EventState) { s.interactionSeq == s.screenSeq + s.bellSeq + s.titleSeq }

  // ----- shell-command waits ----------------------------------------------

  /** `CommandOutput` anchored at `n` is met only while the latest command is number n + 1. */
  lemma CommandOutputWindow(text: string, n: nat, t: Terminal, tick: Tick, base: Baselines)
    ensures Reads(tick, t) ==> (Evaluate(W.CommandOutput(text, Some(n)), tick, base).0 <==> OutputMet(t, text, n))
    ensures Evaluate(W.CommandOutput(text, Some(n)), tick, base).0
            <==> tick.commandSeq == n + 1
                 && (W.AnyRowContains(tick.viewport, text) || W.AnyRowContains(tick.scrollback, text))
    ensures Evaluate(W.CommandOutput(text, None), tick, base).0 ==> tick.commandSeq == 1
  {
  }

  /** The tick reads this terminal. */
  predicate Reads(tick: Tick, t: Terminal) {
    && tick.viewport == t.grid.text && tick.scrollback == t.scrollback
    && tick.commandSeq == t.shell.commandSeq && tick.commandRunning == t.shell.running
  }

  predicate HoldsText(t: Terminal, text: string) {
    W.AnyRowContains(t.grid.text, text) || W.AnyRowContains(t.scrollback, text)
  }

  /** The event paints or scrolls in rows with the text. */
  predicate Brings(e: ParserEvent, text: string) {
    (e.Paint? && W.AnyRowContains(e.grid.text, text)) || (e.Scroll? && W.AnyRowContains(e.history, text))
  }

  predicate BroughtIn(events: seq<ParserEvent>, text: string) {
    exists i :: 0 <= i < |events| && Brings(events[i], text)
  }

  /** `CommandOutput` anchored at `n`, on the tick that reads a terminal. */
  predicate OutputMet(t: Terminal, text: string, n: nat) { t.shell.commandSeq == n + 1 && HoldsText(t, text) }

  lemma {:induction false} TextIsBrought(start: Terminal, events: seq<ParserEvent>, text: string)
    requires !HoldsText(start, text) && HoldsText(Fed(start, events), text)
    ensures BroughtIn(events, text)
  {
    var init, last := events[..|events| - 1], events[|events| - 1];
    if HoldsText(Fed(start, init), text) {
      TextIsBrought(start, init, text);
      var i :| 0 <= i < |init| && Brings(init[i], text);
      assert Brings(events[i], text);
    } else {
      assert Brings(last, text);
    }
  }

  /**
   A token of an earlier command is documented not to satisfy the wait. With the
   terminal as command n + 1 starts, being met means that the text came in after
   that start, whatever follows, exactly when neither grid nor history held it.
  */
  lemma OutputIsNew(start: Terminal, text: string, n: nat)
    requires start.shell.commandSeq == n + 1
    ensures (forall events: seq<ParserEvent> :: OutputMet(Fed(start, events), text, n) ==> BroughtIn(events, text))
            <==> !HoldsText(start, text)
  {
    if HoldsText(start, text) {
      assert Fed(start, []) == start;
      assert OutputMet(Fed(start, []), text, n) && !BroughtIn([], text);
    } else {
      hide Fed, HoldsText;
      forall events: seq<ParserEvent> | OutputMet(Fed(start, events), text, n)
        ensures BroughtIn(events, text)
      {
        TextIsBrought(start, events, text);
      }
    }
  }

  predicate Ends(e: ParserEvent) { e.Osc133? && e.mark.CommandEnd? }

  predicate HoldsEnd(events: seq<ParserEvent>) { exists i :: 0 <= i < |events| && Ends(events[i]) }

  /** As long as no further command starts, the running flag says whether this one has ended. */
  lemma {:induction false} StillRunning(start: Terminal, events: seq<ParserEvent>)
    requires start.shell.running && Fed(start, events).shell.commandSeq == start.shell.commandSeq
    ensures Fed(start, events).shell.running <==> !HoldsEnd(events)
  {
    if events != [] {
      var init, last := events[..|events| - 1], events[|events| - 1];
      FedGrows(start, init);
      StillRunning(start, init);
      if i :| 0 <= i < |init| && Ends(init[i]) { assert Ends(events[i]); }
      assert HoldsEnd(events) <==> HoldsEnd(init) || Ends(last) by {
        if i :| 0 <= i < |events| && Ends(events[i]) { assert i < |init| ==> Ends(init[i]); }
        assert events[|init|] == last;
      }
    }
  }

  /**
   The text is documented to be in the output of the command. Met while the
   command still runs, the wait has it from there: it came in after the start and
   before any end. Met otherwise, the command has ended.
  */
  lemma OutputWhileRunning(start: Terminal, events: seq<ParserEvent>, text: string, n: nat)
    requires start.shell.commandSeq == n + 1 && start.shell.running && !HoldsText(start, text)
    requires OutputMet(Fed(start, events), text, n)
    ensures BroughtIn(events, text)
    ensures Fed(start, events).shell.running <==> !HoldsEnd(events)
  {
    hide HoldsText, Fed, HoldsEnd;
    TextIsBrought(start, events, text);
    StillRunning(start, events);
  }

  /** A prompt that echoes the text once the command has ended meets the wait as well. */
  lemma LateEchoSatisfies(start: Terminal, n: nat)
    requires start.shell.commandSeq == n + 1
    ensures var events := [Osc133(ShellMarks.CommandEnd(ShellMarks.NoField)), Paint(Grid(["ok"], 0))];
            && OutputMet(Fed(start, events), "ok", n) && !Fed(start, events).shell.running
            && Ends(events[0]) && !Brings(events[0], "ok")
  {
    FedTwo(start, Osc133(ShellMarks.CommandEnd(ShellMarks.NoField)), Paint(Grid(["ok"], 0)));
    assert OccursAt("ok", "ok", 0);
    assert W.RowContains(["ok"][0], "ok");
  }

  lemma FedTwo(t: Terminal, a: ParserEvent, b: ParserEvent)
    ensures Fed(t, [a, b]) == Handled(Handled(t, a), b)
  {
    assert [a][..0] == [] && Fed(t, [a]) == Handled(Fed(t, []), a);
    assert [a, b][..1] == [a] && Fed(t, [a, b]) == Handled(Fed(t, [a]), b);
  }

  /** The first command starts on a screen that already reads `ok`: the wait for its `ok` is met at once. */
  lemma OldTokenSatisfies(tick: Tick, base: Baselines)
    requires Reads(tick, Fed(Blank(Grid([], 0)), [Paint(Grid(["ok"], 0)), Osc133(ShellMarks.OutputStart)]))
    ensures Evaluate(W.CommandOutput("ok", Some(0)), tick, base).0
  {
    var events := [Paint(Grid(["ok"], 0)), Osc133(ShellMarks.OutputStart)];
    FedTwo(Blank(Grid([], 0)), events[0], events[1]);
    assert tick.viewport == ["ok"] && tick.commandSeq == 1;
    assert OccursAt("ok", "ok", 0);
    assert W.RowContains(tick.viewport[0], "ok");
  }

  /** `CommandDone` anchored at `n`, over every sequence of marks. */
  lemma CommandDoneMeans(marks: seq<ShellMarks.Mark>, n: nat, tick: Tick, base: Baselines)
    requires tick.commandSeq == ShellMarks.After(marks).commandSeq
    requires tick.commandRunning == ShellMarks.After(marks).running
    ensures Evaluate(W.CommandDone(Some(n)), tick, base).0
            <==> exists i: nat, k: nat ::
                   ShellMarks.LatestStart(marks, i) && ShellMarks.StartsCommand(marks, i, k) && k > n
                   && ShellMarks.EndsAfter(marks, i)
  {
    ShellMarks.FinishedAbove(marks, n);
    hide ShellMarks.After;
  }

  /**
   Documented as a finish edge numbered above `n`. Such an edge is seen exactly
   unless a newer command has started when the wait looks.
  */
  lemma FinishIsLostToANewerCommand(marks: seq<ShellMarks.Mark>, n: nat, tick: Tick, base: Baselines)
    requires tick.commandSeq == ShellMarks.After(marks).commandSeq
    requires tick.commandRunning == ShellMarks.After(marks).running
    ensures Evaluate(W.CommandDone(Some(n)), tick, base).0
            <==> ShellMarks.FinishAbove(marks, n) && !ShellMarks.After(marks).running
  {
    ShellMarks.FinishIsKept(marks, n);
    hide ShellMarks.After, ShellMarks.FinishAbove;
  }

  /**
   The unanchored form is documented to wait for the next end, of a command that
   also started after the wait was entered. It is met by any finished state: that
   means a new end exactly when no command was finished at entry, and a new start
   with its end exactly when none had ever started.
  */
  lemma UnanchoredDoneIsStale(before: seq<ShellMarks.Mark>, more: seq<ShellMarks.Mark>, tick: Tick, base: Baselines)
    requires tick.commandSeq == ShellMarks.After(before + more).commandSeq
    requires tick.commandRunning == ShellMarks.After(before + more).running
    ensures Evaluate(W.CommandDone(None), tick, base).0 <==> ShellMarks.Finished(before + more)
    ensures (forall later: seq<ShellMarks.Mark> :: ShellMarks.Finished(before + later) ==> ShellMarks.HoldsEnd(later))
            <==> !ShellMarks.Finished(before)
    ensures (forall later: seq<ShellMarks.Mark> :: ShellMarks.Finished(before + later) ==> ShellMarks.HoldsRun(later))
            <==> ShellMarks.After(before).commandSeq == 0
  {
    ShellMarks.FinishIsNewEnd(before);
    ShellMarks.FinishIsNewRun(before);
    hide ShellMarks.After;
  }

  /** A command that ended before the wait satisfies it, and one that was running needs only its end. */
  lemma OldCommandSatisfies()
    ensures ShellMarks.Finished([ShellMarks.OutputStart, ShellMarks.CommandEnd(ShellMarks.NoField)] + [])
    ensures ShellMarks.Finished([ShellMarks.OutputStart] + [ShellMarks.CommandEnd(ShellMarks.NoField)])
    ensures !ShellMarks.Finished([ShellMarks.OutputStart])
  {
    var marks := [ShellMarks.OutputStart, ShellMarks.CommandEnd(ShellMarks.NoField)];
    assert marks + [] == marks == [ShellMarks.OutputStart] + [ShellMarks.CommandEnd(ShellMarks.NoField)];
    assert marks[..1] == [ShellMarks.OutputStart] && [ShellMarks.OutputStart][..0] == [];
  }

  // ----- the backend ------------------------------------------------------

  datatype WaitOutcome = WaitOutcome(met: bool, reason: W.WaitReason, screenSeq: nat, outputSeq: nat)

  lemma {:induction false} FedGrows(t: Terminal, chunk: seq<ParserEvent>)
    ensures t.audibleBells <= Fed(t, chunk).audibleBells && t.titles <= Fed(t, chunk).titles
    ensures t.shell.commandSeq <= Fed(t, chunk).shell.commandSeq
  {
    if chunk != [] { FedGrows(t, chunk[..|chunk| - 1]); }
  }

  lemma FedAllSnoc(grid: Grid, chunks: seq<seq<ParserEvent>>, chunk: seq<ParserEvent>)
    ensures FedAll(grid, chunks + [chunk]) == Fed(FedAll(grid, chunks), chunk)
  {
  }

  class PortablePty {
    const clock: BackendEventClock
    const initial: Grid
    var terminal: Terminal
    /** Every chunk pumped so far. */
    ghost var received: seq<seq<ParserEvent>>

    ghost predicate Valid()
      reads this, clock
    {
      && terminal == FedAll(initial, received) && clock.outputSeq == |received|
      && clock.Valid() && clock.bellSeq <= terminal.audibleBells && clock.titleSeq <= terminal.titles
    }

    /** The clock has adopted everything the parser has counted. */
    ghost predicate Synced()
      reads this, clock
    {
      clock.bellSeq == terminal.audibleBells && clock.titleSeq == terminal.titles
    }

    ghost function Now(): View
      reads this, clock
    {
      View(terminal, clock.screenSeq, clock.contentSeq, clock.outputSeq, clock.lastScreenChangeAt, clock.lastOutputAt)
    }

    /** `event_state`. */
    function EventStateNow(): W.EventState
      reads this, clock
    {
      clock.EventStateNow(terminal.shell.commandSeq)
    }

    constructor (clock: BackendEventClock, grid: Grid)
      requires clock.Valid() && clock.outputSeq == clock.bellSeq == clock.titleSeq == 0
      ensures Valid() && Synced() && this.clock == clock && initial == grid && received == []
    {
      this.clock, initial := clock, grid;
      terminal, received := Blank(grid), [];
    }

    /** Feed one chunk to the parser and count it as output. */
    method FeedChunk(chunk: seq<ParserEvent>, now: nat)
      requires Valid()
      modifies this`terminal, this`received, clock`outputSeq, clock`lastOutputAt
      ensures Valid() && received == old(received) + [chunk] && clock.lastOutputAt == now
      ensures old(terminal.shell.commandSeq) <= terminal.shell.commandSeq
    {
      FedGrows(terminal, chunk);
      FedAllSnoc(initial, received, chunk);
      hide Fed, FedAll;
      terminal, received := Fed(terminal, chunk), received + [chunk];
      clock.OnOutput(now);
    }

    method Feed(chunks: seq<seq<ParserEvent>>, now: nat)
      requires Valid()
      modifies this`terminal, this`received, clock`outputSeq, clock`lastOutputAt
      ensures Valid() && received == old(received) + chunks
      ensures clock.lastOutputAt == if chunks == [] then old(clock.lastOutputAt) else now
      ensures old(terminal.shell.commandSeq) <= terminal.shell.commandSeq
    {
      hide FedAll;
      for i := 0 to |chunks|
        invariant Valid() && received == old(received) + chunks[..i]
        invariant clock.lastOutputAt == if i == 0 then old(clock.lastOutputAt) else now
        invariant old(terminal.shell.commandSeq) <= terminal.shell.commandSeq
      {
        FeedChunk(chunks[i], now);
      }
    }

    /** The pump on the chunks it has drained: parse them and record at most one screen change. */
    method Absorb(chunks: seq<seq<ParserEvent>>, now: nat)
      requires Valid()
      modifies this, clock
      ensures Valid() && NoEarlier(old(EventStateNow()), EventStateNow()) && received == old(received) + chunks
      ensures clock.history == old(clock.history) || |clock.history| == |old(clock.history)| + 1
      ensures clock.bellSeq == old(clock.bellSeq) && clock.titleSeq == old(clock.titleSeq)
      ensures clock.screenSeq == old(clock.screenSeq) + (if terminal.grid != old(terminal.grid) then 1 else 0)
      ensures clock.contentSeq
           == old(clock.contentSeq) + (if terminal.grid.text != old(terminal.grid.text) then 1 else 0)
      ensures clock.lastScreenChangeAt
           == if terminal.grid != old(terminal.grid) then now else old(clock.lastScreenChangeAt)
      ensures clock.lastOutputAt == if chunks != [] then now else old(clock.lastOutputAt)
    {
      hide FedAll, Fed;
      var before := terminal.grid;
      Feed(chunks, now);
      if before.text != terminal.grid.text {
        clock.BumpContent();
      }
      if before != terminal.grid {
        clock.BumpScreen();
        clock.OnScreenChange(Change(now, now), now);
      }
    }

    /** `scrollback_lines`, which like `command_state` pumps without adopting the parser's counters. */
    method ScrollbackLines(child: Child<seq<ParserEvent>>) returns (rows: seq<string>)
      requires Valid()
      modifies this, clock, child
      ensures Valid() && NoEarlier(old(EventStateNow()), EventStateNow()) && old(received) <= received
      ensures clock.bellSeq == old(clock.bellSeq) && clock.titleSeq == old(clock.titleSeq)
      ensures rows == terminal.scrollback
    {
      ghost var look := Pump(child);
      rows := terminal.scrollback;
    }

    /** Drain, parse, and record at most one screen change. */
    method Pump(child: Child<seq<ParserEvent>>) returns (ghost look: Beat<seq<ParserEvent>>)
      requires Valid()
      modifies this, clock, child
      ensures Valid() && NoEarlier(old(EventStateNow()), EventStateNow()) && child.now >= old(child.now)
      ensures look.Look? && look.at == child.now && look.running == child.running
      ensures child.log == old(child.log) + [look] && received == old(received) + look.chunks
      ensures Now() == Looked(old(Now()), look)
      ensures clock.history == old(clock.history) || |clock.history| == |old(clock.history)| + 1
      ensures clock.bellSeq == old(clock.bellSeq) && clock.titleSeq == old(clock.titleSeq)
      ensures clock.contentSeq
           == old(clock.contentSeq) + (if terminal.grid.text != old(terminal.grid.text) then 1 else 0)
    {
      hide Fed, FedAll, Concat;
      var chunks := child.Drain();
      look := Look(chunks, child.now, child.running);
      FedAllOn(initial, received, chunks);
      Absorb(chunks, child.now);
    }

    /** Adopt the parser's bell and title counters (`sync_parser_counters`). */
    method Sync()
      requires Valid()
      modifies clock`bellSeq, clock`titleSeq
      ensures Valid() && Synced() && NoEarlier(old(EventStateNow()), EventStateNow())
    {
      clock.SyncCounters(terminal.audibleBells, terminal.titles);
    }

    function TickNow(cond: W.WaitCond, now: nat, running: bool): Tick
      reads this, clock
    {
      Tick(terminal.grid.text, terminal.scrollback, running, terminal.title,
           clock.screenSeq, clock.outputSeq, clock.bellSeq, clock.InteractionSeq(),
           cond.ScreenStable? && Elapsed(now, clock.lastScreenChangeAt) >= QuietFor(cond),
           cond.Idle? && Elapsed(now, clock.lastOutputAt) >= QuietFor(cond),
           terminal.shell.commandSeq, terminal.shell.running, terminal.grid)
    }

    /** The wait loop has gone through these beats without a reason to stop at the first `n`. */
    ghost predicate Waiting(cond: W.WaitCond, base: Baselines, before: seq<seq<ParserEvent>>, entry: View,
                            beats: seq<Beat<seq<ParserEvent>>>, n: nat, deadline: nat, now: nat)
      reads this, clock
    {
      && Valid() && received == before + Arrived(beats) && Now() == LookedAll(entry, beats)
      && Polling(beats, 2) && InOrder(beats, now) && GoesOn(cond, base, entry, beats, n, deadline)
    }

    /** What one turn of the wait loop observes. */
    method Turn(child: Child<seq<ParserEvent>>, cond: W.WaitCond, ghost base: Baselines,
                ghost before: seq<seq<ParserEvent>>, ghost entry: View, ghost beats: seq<Beat<seq<ParserEvent>>>,
                ghost deadline: nat)
      returns (tick: Tick, ghost look: Beat<seq<ParserEvent>>)
      requires Waiting(cond, base, before, entry, beats, |beats|, deadline, child.now)
      requires |beats| == 1 || !EndsInLook(beats)
      modifies this, clock, child
      ensures Waiting(cond, base, before, entry, beats + [look], |beats|, deadline, child.now) && Synced()
      ensures child.now >= old(child.now) && look.Look? && look.at == child.now
      ensures child.log == old(child.log) + [look]
      ensures tick == TickNow(cond, child.now, child.running) == TickAt(cond, entry, beats + [look])
    {
      hide FedAll, Looked, LookedAll, Polling, GoesOn, Arrived, InOrder;
      ghost var since := child.now;
      look := Pump(child);
      InOrderSnoc(beats, since, look, child.now);
      LookedSnoc(entry, beats, look);
      ArrivedOn(before, beats, look);
      TurnTaken(cond, base, entry, beats, deadline, look);
      Sync();
      tick := TickNow(cond, child.now, child.running);
    }

    lemma CountersAtEntry()
      requires Valid()
      ensures IsSum(EventStateNow()) && NoCounterAhead(EventStateNow(), Now())
    {
    }

    lemma NothingYet(cond: W.WaitCond, base: Baselines, before: seq<seq<ParserEvent>>, entry: View,
                     look: Beat<seq<ParserEvent>>, deadline: nat)
      requires Valid() && look.Look? && Now() == Looked(entry, look) && received == before + look.chunks
      ensures Waiting(cond, base, before, entry, [look], 1, deadline, look.at)
      ensures LookedAll(entry, [look]) == Now()
    {
      hide FedAll, Looked;
      ArrivedOn(before, [], look);
      LookedSnoc(entry, [], look);
      PollingSnoc([], 2, look);
      assert [] + [look] == [look] && before + [] == before;
    }

    /** The nap between a failed look and the next. */
    lemma Naps(cond: W.WaitCond, base: Baselines, before: seq<seq<ParserEvent>>, entry: View,
               beats: seq<Beat<seq<ParserEvent>>>, deadline: nat, now: nat, now': nat)
      requires EndsInLook(beats) && beats[|beats| - 1].at < deadline && |beats| >= 2
      requires Waiting(cond, base, before, entry, beats, |beats| - 1, deadline, now) && now <= now'
      requires !Evaluate(cond, TickAt(cond, entry, beats), base).0
      ensures Waiting(cond, base, before, entry, beats + [Nap(15)], |beats| + 1, deadline, now')
    {
      hide Evaluate, TickAt, GoesOn, Polling, Valid, LookedAll, Arrived, InOrder;
      InOrderSnoc(beats, now, Nap(15), now');
      ArrivedOn(before, beats, Nap(15));
      Napped(cond, base, entry, beats, deadline);
    }

    /** The loop of `wait`, behind its entry look. */
    method Poll(child: Child<seq<ParserEvent>>, cond: W.WaitCond, baselines: Baselines, start: nat, budget: nat,
                ghost before: seq<seq<ParserEvent>>, ghost entry: View, ghost look: Beat<seq<ParserEvent>>)
      returns (out: WaitOutcome, ghost beats: seq<Beat<seq<ParserEvent>>>)
      requires Waiting(cond, baselines, before, entry, [look], 1, start + budget, child.now) && start <= child.now
      modifies this, clock, child
      ensures |beats| >= 2 && beats[0] == look && EndsInLook(beats) && beats[|beats| - 1].at == child.now
      ensures Waiting(cond, baselines, before, entry, beats, |beats| - 1, start + budget, child.now) && Synced()
      ensures child.log == old(child.log) + beats[1..]
      ensures TickAt(cond, entry, beats) == TickNow(cond, child.now, child.running)
      ensures out.met <==> Evaluate(cond, TickAt(cond, entry, beats), baselines).0
      ensures out.met ==> out.reason == Evaluate(cond, TickAt(cond, entry, beats), baselines).1
      ensures !out.met ==> out.reason == W.ByTimeout && child.now - start >= budget
      ensures out.screenSeq == clock.screenSeq && out.outputSeq == clock.outputSeq
    {
      hide Evaluate, Synced, TickAt, TickNow, Polling, GoesOn, Looked, LookedAll, Arrived, Valid, InOrder, Waiting;
      beats := [look];
      while true
        invariant Waiting(cond, baselines, before, entry, beats, |beats|, start + budget, child.now)
        invariant |beats| == 1 || !EndsInLook(beats)
        invariant beats != [] && beats[0] == look && start <= child.now
        invariant child.log == old(child.log) + beats[1..]
        decreases start + budget - child.now
      {
        var tick, next := Turn(child, cond, baselines, before, entry, beats, start + budget);
        beats := beats + [next];
        var (met, reason) := Evaluate(cond, tick, baselines);
        if met {
          return WaitOutcome(true, reason, clock.screenSeq, clock.outputSeq), beats;
        }
        if child.now - start >= budget {
          return WaitOutcome(false, W.ByTimeout, clock.screenSeq, clock.outputSeq), beats;
        }
        ghost var since := child.now;
        child.Sleep(15);
        Naps(cond, baselines, before, entry, beats, start + budget, since, child.now);
        beats := beats + [Nap(15)];
      }
    }

    /**
     `wait`: an entry look for the grid to compare with, then a look after every
     15 ms, up to the first at which the condition holds or the budget is spent.
     `beats` is what was done with the child.
    */
    method Wait(child: Child<seq<ParserEvent>>, cond: W.WaitCond, budget: nat)
      returns (out: WaitOutcome, ghost base: Baselines, ghost beats: seq<Beat<seq<ParserEvent>>>)
      requires Valid()
      modifies this, clock, child
      ensures Valid() && Synced() && NoEarlier(old(EventStateNow()), EventStateNow())
      ensures child.log == old(child.log) + beats && Polling(beats, 2) && EndsInLook(beats) && |beats| >= 2
      ensures InOrder(beats, child.now) && beats[|beats| - 1].at == child.now
      ensures received == old(received) + Arrived(beats) && Now() == LookedAll(old(Now()), beats)
      ensures base == Baselines(BellBaseline(cond, old(clock.bellSeq)), old(clock.InteractionSeq()),
                                LookedAll(old(Now()), beats[..1]).terminal.grid)
      ensures Unfulfilled(cond, base, old(Now()), beats, |beats| - 1, old(child.now) + budget)
      ensures TickAt(cond, old(Now()), beats) == TickNow(cond, child.now, child.running)
      ensures out.met <==> Fulfilled(cond, base, old(Now()), beats)
      ensures out.reason == if out.met then W.ReasonOf(cond) else W.ByTimeout
      ensures out.screenSeq == clock.screenSeq && out.outputSeq == clock.outputSeq
      ensures !out.met ==> child.now - old(child.now) >= budget
    {
      hide Evaluate, BellBaseline, NoEarlier, EventStateNow, Synced, TickAt, TickNow, Polling, GoesOn, Looked,
           LookedAll, Arrived, Valid, InOrder, Fulfilled, Unfulfilled, IsSum, NoCounterAhead, NoCounterBehind;
      var start := child.now;
      ghost var before, entry, earlier := received, Now(), EventStateNow();
      CountersAtEntry();
      var bellBase := BellBaseline(cond, clock.bellSeq);
      var interactionBase := clock.InteractionSeq();
      ghost var look := Pump(child);
      var baselines := Baselines(bellBase, interactionBase, terminal.grid);
      base := baselines;
      NothingYet(cond, base, before, entry, look, start + budget);
      out, beats := Poll(child, cond, baselines, start, budget, before, entry, look);
      assert beats[..1] == [look] && [look] + beats[1..] == beats;
      VerdictMeans(cond, base, entry, beats, child.now);
      EarlierLooksFail(cond, base, entry, beats, |beats| - 1, start + budget, child.now);
      LooksGrow(entry, beats);
      CountersMoveOn(earlier, entry);
    }

    /** The event state of a synced backend is no earlier than the one it began with. */
    lemma CountersMoveOn(b: W.EventState, v: View)
      requires Synced() && IsSum(b) && NoCounterAhead(b, v) && NoCounterBehind(v, Now())
      ensures NoEarlier(b, EventStateNow())
    {
    }

    /** The baseline is one this backend showed earlier. */
    predicate TakenEarlier(b: W.EventState)
      reads this, clock
    {
      IsSum(b) && NoEarlier(b, EventStateNow())
    }

    /** When it was taken, the clock had adopted every bell and title of the stream so far. */
    ghost predicate Adopted(b: W.EventState)
      requires b.outputSeq <= |received|
      reads this
    {
      var seen := FedAll(initial, received[..b.outputSeq]);
      b.bellSeq == seen.audibleBells && b.titleSeq == seen.titles
    }

    /** The events received since it was taken. */
    ghost function Since(b: W.EventState): seq<ParserEvent>
      requires b.outputSeq <= |received|
      reads this
    {
      EventsSince(received, b.outputSeq)
    }

    /**
     `wait_after`: met exactly if the watched counter passed the captured
     baseline and the look is settled, and ended by the first such look; passed
     before the wait began, only unsettled looks delay it. For a baseline of this
     backend `AnyActivity` is met exactly if screen, bell or title advanced since,
     and if everything had been adopted then, a `Bell` wait exactly if the child
     rang since.
    */
    method WaitAfter(child: Child<seq<ParserEvent>>, baseline: W.EventState, cond: W.WaitCond, budget: nat)
      returns (out: WaitOutcome, ghost beats: seq<Beat<seq<ParserEvent>>>)
      requires Valid() && Anchorable(cond)
      modifies this, clock, child
      ensures Valid() && Synced() && NoEarlier(old(EventStateNow()), EventStateNow())
      ensures child.log == old(child.log) + beats && Polling(beats, 2) && EndsInLook(beats) && |beats| >= 2
      ensures received == old(received) + Arrived(beats) && Now() == LookedAll(old(Now()), beats)
      ensures out.met <==> Passes(cond, baseline, TickAt(W.AnchoredTo(cond, baseline), old(Now()), beats))
      ensures NotYet(cond, baseline, old(Now()), beats, |beats| - 1)
      ensures old(CounterIn(cond, Now())) > Anchor(cond, baseline) ==>
                Unsettled(cond, baseline, old(Now()), beats, |beats| - 1)
      ensures InOrder(beats, child.now) && beats[|beats| - 1].at == child.now
      ensures cond.ScreenStable? || cond.ScreenChange? ==>
                AreLooks(beats, GridLooks(old(Now()), beats))
                && (out.met <==> clock.screenSeq > Anchor(cond, baseline)
                                 && Quiet(beats, GridLooks(old(Now()), beats), old(clock.lastScreenChangeAt),
                                          QuietAsked(cond)))
      ensures cond.Idle? ==>
                AreLooks(beats, OutputLooks(beats))
                && (out.met <==> clock.outputSeq > Anchor(cond, baseline)
                                 && Quiet(beats, OutputLooks(beats), old(clock.lastOutputAt), cond.quietFor))
      ensures out.reason == if out.met then W.ReasonOf(W.AnchoredTo(cond, baseline)) else W.ByTimeout
      ensures !out.met ==> child.now - old(child.now) >= budget
      ensures old(TakenEarlier(baseline)) ==> baseline.outputSeq <= |received|
      ensures old(TakenEarlier(baseline)) && cond == W.AnyActivity(None) ==>
                (out.met <==> clock.screenSeq > baseline.screenSeq || clock.bellSeq > baseline.bellSeq
                              || clock.titleSeq > baseline.titleSeq)
      ensures old(TakenEarlier(baseline)) && Adopted(baseline) && cond == W.Bell(None) ==>
                (out.met <==> Rings(Since(baseline)) > 0)
      ensures old(TakenEarlier(baseline)) && Adopted(baseline) && cond == W.AnyActivity(None) ==>
                (out.met <==> clock.screenSeq > baseline.screenSeq || Rings(Since(baseline)) > 0
                              || Retitles(Since(baseline)) > 0)
    {
      hide Evaluate, W.AnchoredTo, GoesOn, FedAll, Rings, Retitles, TickAt, Looked, LookedAll, Polling, Arrived,
           CounterIn, NotYet, Unsettled, InOrder, Quiet, GridLooks, OutputLooks, AreLooks, Fulfilled, Unfulfilled;
      ghost var entry, deadline, base := Now(), child.now + budget, Baselines(0, 0, initial);
      out, base, beats := Wait(child, W.AnchoredTo(cond, baseline), budget);
      AnchoredRun(cond, baseline, base, entry, beats, deadline, child.now);
      if cond.ScreenStable? || cond.ScreenChange? || cond.Idle? {
        SettledMeans(cond, baseline, entry, beats, child.now);
        QuietIsAsked(W.AnchoredTo(cond, baseline), entry, beats, child.now);
        TickCounters(this, W.AnchoredTo(cond, baseline), child.now, child.running);
      }
      if TakenEarlier(baseline) {
        SyncedReactions(this, baseline, cond, TickAt(W.AnchoredTo(cond, baseline), entry, beats));
      }
    }
  }

  lemma TickCounters(pty: PortablePty, cond: W.WaitCond, now: nat, running: bool)
    ensures pty.TickNow(cond, now, running).screenSeq == pty.clock.screenSeq
    ensures pty.TickNow(cond, now, running).outputSeq == pty.clock.outputSeq
  {
  }

  /** For a baseline of this backend the activity counter is past it exactly if one of its three parts is. */
  lemma ActivityMeans(pty: PortablePty, b: W.EventState)
    requires pty.TakenEarlier(b)
    ensures pty.clock.InteractionSeq() > b.interactionSeq
            <==> pty.clock.screenSeq > b.screenSeq || pty.clock.bellSeq > b.bellSeq || pty.clock.titleSeq > b.titleSeq
  {
  }

  /** What it takes for a synced tick to be past a baseline of this backend. */
  lemma SyncedReactions(pty: PortablePty, b: W.EventState, cond: W.WaitCond, tick: Tick)
    requires pty.Valid() && pty.Synced() && pty.TakenEarlier(b) && Anchorable(cond)
    requires tick.bellSeq == pty.clock.bellSeq && tick.interactionSeq == pty.clock.InteractionSeq()
    ensures b.outputSeq <= |pty.received|
    ensures cond == W.AnyActivity(None) ==>
              (Passes(cond, b, tick) <==> pty.clock.screenSeq > b.screenSeq || pty.clock.bellSeq > b.bellSeq
                                          || pty.clock.titleSeq > b.titleSeq)
    ensures pty.Adopted(b) && cond == W.Bell(None) ==> (Passes(cond, b, tick) <==> Rings(pty.Since(b)) > 0)
    ensures pty.Adopted(b) && cond == W.AnyActivity(None) ==>
              (Passes(cond, b, tick) <==> pty.clock.screenSeq > b.screenSeq || Rings(pty.Since(b)) > 0
                                          || Retitles(pty.Since(b)) > 0)
  {
    ActivityMeans(pty, b);
    CountsSplit(pty.initial, pty.received, b.outputSeq);
    hide FedAll, Rings, Retitles;
  }

  // ----- what an anchor taken at any moment is worth ----------------------

  /** The tick of a synced backend that shows this terminal after `screenSeq` edges. */
  function SyncedTick(t: Terminal, screenSeq: nat, outputSeq: nat): Tick {
    Tick(t.grid.text, t.scrollback, true, t.title, screenSeq, outputSeq, t.audibleBells,
         screenSeq + t.audibleBells + t.titles, false, false, t.shell.commandSeq, t.shell.running, t.grid)
  }

  /** Every turn of the wait loop ends on such a tick. */
  lemma TurnsAreSynced(pty: PortablePty, cond: W.WaitCond, now: nat, b: W.EventState)
    requires pty.Valid() && pty.Synced() && (cond.Bell? || cond.AnyActivity?)
    ensures Passes(cond, b, pty.TickNow(cond, now, true))
            <==> Passes(cond, b, SyncedTick(pty.terminal, pty.clock.screenSeq, pty.clock.outputSeq))
  {
  }

  /** What the backend's next synced tick reads after these events and this many screen edges. */
  ghost function TickAfter(pty: PortablePty, during: seq<ParserEvent>, edges: nat): Tick
    reads pty, pty.clock
  {
    SyncedTick(Fed(pty.terminal, during), pty.clock.screenSeq + edges, pty.clock.outputSeq)
  }

  /**
   `event_state` copies the clock without adopting what the parser has counted.
   Taken at any moment, a baseline makes a `Bell` wait react to exactly the bells
   of later events, whatever they are, if and only if the clock had adopted every
   bell by then.
  */
  lemma BellAnchorIsExact(pty: PortablePty)
    requires pty.Valid()
    ensures var b := pty.EventStateNow();
            (forall during: seq<ParserEvent>, edges: nat ::
               Passes(W.Bell(None), b, TickAfter(pty, during, edges)) <==> Rings(during) > 0)
            <==> pty.clock.bellSeq == pty.terminal.audibleBells
  {
    var b := pty.EventStateNow();
    forall during: seq<ParserEvent>, edges: nat
      ensures Passes(W.Bell(None), b, TickAfter(pty, during, edges))
              <==> pty.terminal.audibleBells + Rings(during) > pty.clock.bellSeq
    {
      FedCountsOn(pty.terminal, during);
    }
    assert Rings([]) == 0;
    assert Passes(W.Bell(None), b, TickAfter(pty, [], 0)) <==> pty.terminal.audibleBells > pty.clock.bellSeq;
    hide Passes, TickAfter, Rings;
  }

  /** The same for `AnyActivity`, whose counter sums screen edges, bells and titles. */
  lemma ActivityAnchorIsExact(pty: PortablePty)
    requires pty.Valid()
    ensures var b := pty.EventStateNow();
            (forall during: seq<ParserEvent>, edges: nat ::
               Passes(W.AnyActivity(None), b, TickAfter(pty, during, edges))
               <==> edges > 0 || Rings(during) > 0 || Retitles(during) > 0)
            <==> pty.clock.bellSeq == pty.terminal.audibleBells && pty.clock.titleSeq == pty.terminal.titles
  {
    var b := pty.EventStateNow();
    var owed := pty.terminal.audibleBells - pty.clock.bellSeq + (pty.terminal.titles - pty.clock.titleSeq);
    forall during: seq<ParserEvent>, edges: nat
      ensures Passes(W.AnyActivity(None), b, TickAfter(pty, during, edges))
              <==> owed + edges + Rings(during) + Retitles(during) > 0
    {
      FedCountsOn(pty.terminal, during);
    }
    assert Rings([]) == 0 && Retitles([]) == 0;
    assert Passes(W.AnyActivity(None), b, TickAfter(pty, [], 0)) <==> owed > 0;
    hide Passes, TickAfter, Rings, Retitles;
  }

  /**
   Unanchored, the waits are documented to react to what comes after they begin.
   They start from the clock's own counters at entry: they do, whatever comes, if
   and only if the clock had adopted every bell, and every bell and title.
  */
  lemma UnanchoredIsExact(pty: PortablePty, grid: Grid)
    requires pty.Valid()
    ensures var base := Baselines(BellBaseline(W.Bell(None), pty.clock.bellSeq), pty.clock.InteractionSeq(), grid);
            && ((forall during: seq<ParserEvent>, edges: nat ::
                   Evaluate(W.Bell(None), TickAfter(pty, during, edges), base).0 <==> Rings(during) > 0)
                <==> pty.clock.bellSeq == pty.terminal.audibleBells)
            && ((forall during: seq<ParserEvent>, edges: nat ::
                   Evaluate(W.AnyActivity(None), TickAfter(pty, during, edges), base).0
                   <==> edges > 0 || Rings(during) > 0 || Retitles(during) > 0)
                <==> pty.clock.bellSeq == pty.terminal.audibleBells && pty.clock.titleSeq == pty.terminal.titles)
  {
    hide Evaluate, Passes, TickAfter, Rings, Retitles;
    var base := Baselines(BellBaseline(W.Bell(None), pty.clock.bellSeq), pty.clock.InteractionSeq(), grid);
    BellAnchorIsExact(pty);
    ActivityAnchorIsExact(pty);
    forall during: seq<ParserEvent>, edges: nat
      ensures Evaluate(W.Bell(None), TickAfter(pty, during, edges), base).0
              <==> Passes(W.Bell(None), pty.EventStateNow(), TickAfter(pty, during, edges))
      ensures Evaluate(W.AnyActivity(None), TickAfter(pty, during, edges), base).0
              <==> Passes(W.AnyActivity(None), pty.EventStateNow(), TickAfter(pty, during, edges))
    {
      UnanchoredIsAnchoredNow(pty.EventStateNow(), TickAfter(pty, during, edges), base);
    }
  }

  /** An unanchored wait is the one anchored to the event state at its entry. */
  lemma UnanchoredIsAnchoredNow(b: W.EventState, tick: Tick, base: Baselines)
    requires base.bellSeq == b.bellSeq && base.interactionSeq == b.interactionSeq
    ensures Evaluate(W.Bell(None), tick, base).0 <==> Passes(W.Bell(None), b, tick)
    ensures Evaluate(W.AnyActivity(None), tick, base).0 <==> Passes(W.AnyActivity(None), b, tick)
  {
  }

  /**
   Such a moment is reached: a bell arrives, a query pumps it in, and a baseline
   taken then is satisfied by that older bell.
  */
  method StaleBaseline(grid: Grid, child: Child<seq<ParserEvent>>, budget: nat)
    returns (pty: PortablePty, baseline: W.EventState, met: bool)
    modifies child
    ensures pty.Valid() && pty.initial == grid && baseline.outputSeq == 1 <= |pty.received|
    ensures pty.received[..1] == [[Ring]] && baseline.bellSeq == 0
    ensures met
  {
    hide FedAll, Fed, Rings, Retitles, Quiet, GridLooks, OutputLooks, InOrder, Polling, Arrived, LookedAll, NotYet,
         Unsettled, W.AnchoredTo;
    var clock := new BackendEventClock(child.now);
    pty := new PortablePty(clock, grid);
    pty.Absorb([[Ring]], child.now);
    baseline := pty.EventStateNow();
    ghost var heard := pty.received;
    var out, beats := pty.WaitAfter(child, baseline, W.Bell(None), budget);
    met := out.met;
    RingIsCounted(grid, pty.received);
    assert pty.received[..1] == heard;
  }

  lemma RingIsCounted(grid: Grid, received: seq<seq<ParserEvent>>)
    requires [[Ring]] <= received
    ensures FedAll(grid, received).audibleBells > 0
  {
    CountsSplit(grid, received, 1);
    CountersCountEvents(grid, [[Ring]]);
    assert received[..1] == [[Ring]] && [[Ring]][..0] == [];
    assert Concat([[Ring]]) == [Ring] && [Ring][..0] == [];
  }

  /** Counters never run backwards. */
  predicate NoEarlier(a: W.EventState, b: W.EventState) {
    && a.outputSeq <= b.outputSeq && a.screenSeq <= b.screenSeq && a.contentSeq <= b.contentSeq
    && a.interactionSeq <= b.interactionSeq && a.bellSeq <= b.bellSeq && a.titleSeq <= b.titleSeq
    && a.commandSeq <= b.commandSeq
  }

  lemma ArrivedOn(before: seq<seq<ParserEvent>>, beats: seq<Beat<seq<ParserEvent>>>, beat: Beat<seq<ParserEvent>>)
    ensures before + Arrived(beats + [beat])
         == if beat.Look? then before + Arrived(beats) + beat.chunks else before + Arrived(beats)
  {
    ArrivedSnoc(beats, beat);
    assert Arrived(beats) + [] == Arrived(beats);
  }

  /** Feeding further chunks. */
  lemma FedAllOn(grid: Grid, chunks: seq<seq<ParserEvent>>, more: seq<seq<ParserEvent>>)
    ensures FedAll(grid, chunks + more) == Fed(FedAll(grid, chunks), Concat(more))
  {
    hide FedAll, Fed, Concat;
    FedAllIsFed(grid, chunks + more);
    FedAllIsFed(grid, chunks);
    ConcatAppend(chunks, more);
    FedConcat(Blank(grid), Concat(chunks), Concat(more));
  }
}
