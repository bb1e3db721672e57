/**
 `capture_frame_sequence` (src/capture/mod.rs) over the line backend: collect
 post-anchor frames edge by edge, even when the edges arrived in one burst.
*/
module FrameCapture {
  import opened ChildProcess
  import opened Common
  import opened LineEngine
  import W = WaitConditions

  datatype StopReason = CountReached | BudgetExpired | ProcessExited

  datatype Sequence = Sequence(
    requested: nat, captured: nat, frames: seq<Screen>, completed: bool, reason: StopReason,
    lastScreenSeq: nat, edgeAt: seq<nat>, edgeSeqs: seq<nat>)

  /** One collected frame, with the backend as it stood when the frame was served, after `beat` beats. */
  datatype Shot = Shot(frame: Screen, seqNo: nat, at: nat, pumped: nat, edges: seq<Screen>, live: Screen, beat: nat)

  function Frames(shots: seq<Shot>): seq<Screen> {
    seq(|shots|, i requires 0 <= i < |shots| => shots[i].frame)
  }

  function Numbers(shots: seq<Shot>): seq<nat> {
    seq(|shots|, i requires 0 <= i < |shots| => shots[i].seqNo)
  }

  function Stamps(shots: seq<Shot>): seq<nat> {
    seq(|shots|, i requires 0 <= i < |shots| => shots[i].at)
  }

  /** The cursor before frame `i`. */
  function Cursor(anchor: nat, shots: seq<Shot>, i: nat): nat
    requires i <= |shots|
  {
    if i == 0 then anchor else shots[i - 1].seqNo
  }

  /**
   Up to 64 edges past the cursor the frame is the screen of the very next
   edge; further behind it is the live screen under the newest number.
  */
  predicate IsServed(cursor: nat, shot: Shot) {
    && cursor < |shot.edges|
    && if |shot.edges| <= cursor + EDGE_SNAP_CAP
       then shot.seqNo == cursor + 1 && shot.frame == shot.edges[cursor]
       else shot.seqNo == |shot.edges| && shot.frame == shot.live
  }

  ghost predicate ServedAt(anchor: nat, shots: seq<Shot>, i: nat)
    requires i < |shots|
  {
    IsServed(Cursor(anchor, shots, i), shots[i])
  }

  ghost predicate AllServed(anchor: nat, shots: seq<Shot>) {
    forall i: nat {:trigger ServedAt(anchor, shots, i)} :: i < |shots| ==> ServedAt(anchor, shots, i)
  }

  /** A walk over a growing edge history that has reached `history`. */
  ghost predicate IsWalk(anchor: nat, shots: seq<Shot>, history: seq<Screen>) {
    && AllServed(anchor, shots)
    && forall i :: 0 <= i < |shots| ==> shots[i].edges <= history
  }

  /** The shot really shows the backend after its first `pumped` chunks. */
  ghost predicate IsTrue(size: Size, chunks: seq<string>, shot: Shot) {
    && shot.pumped <= |chunks|
    && var e := Run(size, chunks[..shot.pumped]);
       shot.edges == e.edges && shot.live == LiveScreen(size, e)
  }

  ghost predicate AllTrue(size: Size, chunks: seq<string>, shots: seq<Shot>) {
    forall i :: 0 <= i < |shots| ==> IsTrue(size, chunks, shots[i])
  }

  lemma AllTrueLater(size: Size, chunks: seq<string>, more: seq<string>, shots: seq<Shot>)
    requires chunks <= more && AllTrue(size, chunks, shots)
    ensures AllTrue(size, more, shots)
  {
    hide Run;
    forall i | 0 <= i < |shots|
      ensures IsTrue(size, more, shots[i])
    {
      assert IsTrue(size, chunks, shots[i]);
      assert more[..shots[i].pumped] == chunks[..shots[i].pumped];
    }
  }

  lemma AllTrueSnoc(size: Size, chunks: seq<string>, shots: seq<Shot>, shot: Shot)
    requires AllTrue(size, chunks, shots) && IsTrue(size, chunks, shot)
    ensures AllTrue(size, chunks, shots + [shot])
  {
  }

  lemma AllTrueEdges(size: Size, chunks: seq<string>, shots: seq<Shot>)
    requires AllTrue(size, chunks, shots)
    ensures forall i :: 0 <= i < |shots| ==> shots[i].edges <= Run(size, chunks).edges
  {
    forall i | 0 <= i < |shots|
      ensures shots[i].edges <= Run(size, chunks).edges
    {
      hide Run;
      assert IsTrue(size, chunks, shots[i]);
      CountersGrow(size, chunks[..shots[i].pumped], chunks);
    }
  }

  lemma AllServedSnoc(anchor: nat, shots: seq<Shot>, shot: Shot)
    requires AllServed(anchor, shots) && IsServed(Cursor(anchor, shots, |shots|), shot)
    ensures AllServed(anchor, shots + [shot])
  {
    hide IsServed;
    var shots' := shots + [shot];
    forall i: nat | i < |shots'|
      ensures ServedAt(anchor, shots', i)
    {
      assert Cursor(anchor, shots', i) == Cursor(anchor, shots, i);
      assert i < |shots| ==> ServedAt(anchor, shots, i);
    }
  }

  /** Edge stamps never run backwards and never ahead of the clock. */
  ghost predicate StampsOrdered(edgeAt: seq<nat>, now: nat) {
    && (forall i, j :: 0 <= i < j < |edgeAt| ==> edgeAt[i] <= edgeAt[j])
    && (forall i :: 0 <= i < |edgeAt| ==> edgeAt[i] <= now)
  }

  /** How many edges lay past the cursor when frame `i` was served. */
  function Lag(anchor: nat, shots: seq<Shot>, i: nat): int
    requires i < |shots|
  {
    |shots[i].edges| - Cursor(anchor, shots, i)
  }

  ghost predicate NoOverrun(anchor: nat, shots: seq<Shot>) {
    forall i: nat {:trigger Lag(anchor, shots, i)} :: i < |shots| ==> Lag(anchor, shots, i) <= EDGE_SNAP_CAP
  }

  lemma NextInBurst(anchor: nat, shots: seq<Shot>, shot: Shot)
    requires IsServed(Cursor(anchor, shots, |shots|), shot)
    ensures NoOverrun(anchor, shots + [shot]) ==>
              NoOverrun(anchor, shots) && shot.seqNo == Cursor(anchor, shots, |shots|) + 1
  {
    var shots' := shots + [shot];
    forall i: nat | i < |shots|
      ensures Lag(anchor, shots, i) == Lag(anchor, shots', i)
    {
    }
    assert Lag(anchor, shots', |shots|) == |shot.edges| - Cursor(anchor, shots, |shots|);
  }

  lemma StampsLater(edgeAt: seq<nat>, since: nat, now: nat)
    requires StampsOrdered(edgeAt, since) && since <= now
    ensures StampsOrdered(edgeAt, now) && StampsOrdered(edgeAt + [now], now)
  {
  }

  /** The looks among the first `n` beats were taken before the limit. */
  ghost predicate Before(beats: seq<Beat<string>>, n: nat, limit: nat) {
    n <= |beats| && forall i :: 0 <= i < n && beats[i].Look? ==> beats[i].at < limit
  }

  /** Nothing past the cursor was in at any of the first `n` beats. */
  ghost predicate NothingPast(size: Size, cursor: nat, delivered: seq<string>, beats: seq<Beat<string>>, n: nat) {
    n <= |beats| &&
    forall i :: 0 <= i < n && beats[i].Look? ==>
      |Run(size, delivered + Arrived(beats[..i + 1])).edges| <= cursor
  }

  /**
   One edge wait past the cursor; `shot` is the frame to append when it was
   passed. The first look at which an edge lies past the cursor ends it, so an
   edge that is there already is returned without a nap. `taken` beats went
   before.
  */
  method WaitForEdge(backend: PtyLineBackend, child: Child<string>, cursor: nat, budget: nat, ghost taken: nat)
    returns (w: WaitOutcome, ghost shot: Shot, ghost beats: seq<Beat<string>>)
    requires backend.Valid()
    modifies backend, child
    ensures backend.Valid() && child.now >= old(child.now)
    ensures child.log == old(child.log) + beats && Polling(beats, 1) && EndsInLook(beats)
    ensures backend.delivered == old(backend.delivered) + Arrived(beats)
    ensures NothingPast(backend.size, cursor, old(backend.delivered), beats, |beats| - 1)
    ensures Before(beats, |beats| - 1, old(child.now) + budget) && beats[|beats| - 1].at == child.now
    ensures w.screenSeq > cursor <==> |Run(backend.size, backend.delivered).edges| > cursor
    ensures old(backend.screenSeq) > cursor ==> w.screenSeq > cursor && |beats| == 1
    ensures backend.screenSeq >= old(backend.screenSeq)
    ensures shot.frame == w.state && shot.seqNo == w.screenSeq && shot.at == child.now && shot.beat == taken + |beats|
    ensures shot.pumped == |backend.delivered| && IsTrue(backend.size, backend.delivered, shot)
    ensures w.screenSeq > cursor ==> IsServed(cursor, shot)
    ensures w.screenSeq <= cursor ==> child.now - old(child.now) >= budget
  {
    hide Run, PtyLineBackend.Valid, Fulfilled, Unfulfilled, NothingPast, Before, InOrder, Polling;
    ghost var entry, entryEdges, deadline := backend.Now(), backend.screenSeq, child.now + budget;
    Numbered(backend);
    w, beats := backend.Wait(child, W.ScreenStable(0, Some(cursor)), budget);
    EdgeCondition(backend.size, cursor, entry, beats, child.now);
    EarlierLooks(backend.size, cursor, entry, beats, |beats| - 1, deadline, child.now);
    Numbered(backend);
    assert backend.screenSeq >= entryEdges by { CountersGrow(backend.size, entry.delivered, backend.delivered); }
    ghost var chunks := backend.delivered;
    assert chunks[..|chunks|] == chunks;
    ghost var e := Run(backend.size, chunks);
    shot := Shot(w.state, w.screenSeq, child.now, |chunks|, e.edges, LiveScreen(backend.size, e), taken + |beats|);
  }

  lemma Numbered(backend: PtyLineBackend)
    requires backend.Valid()
    ensures backend.screenSeq == |Run(backend.size, backend.delivered).edges|
  {
  }

  /** An edge wait asks for an edge past the cursor and nothing else. */
  lemma EdgeCondition(size: Size, cursor: nat, v: View, beats: seq<Beat<string>>, now: nat)
    requires EndsInLook(beats) && InOrder(beats, now)
    ensures Fulfilled(size, W.ScreenStable(0, Some(cursor)), v, beats)
            <==> |Run(size, v.delivered + Arrived(beats)).edges| > cursor
  {
    hide Run, Arrived;
  }

  lemma EarlierLooks(size: Size, cursor: nat, v: View, beats: seq<Beat<string>>, n: nat, deadline: nat, now: nat)
    requires Unfulfilled(size, W.ScreenStable(0, Some(cursor)), v, beats, n, deadline) && InOrder(beats, now)
    ensures NothingPast(size, cursor, v.delivered, beats, n) && Before(beats, n, deadline)
  {
    hide Run, Arrived, Fulfilled, InOrder;
    forall i | 0 <= i < n && beats[i].Look?
      ensures |Run(size, v.delivered + Arrived(beats[..i + 1])).edges| <= cursor
    {
      InOrderTo(beats, now, i + 1);
      EdgeCondition(size, cursor, v, beats[..i + 1], now);
    }
  }

  // ----- the collector's turns ----------------------------------------------

  /** One turn: an edge wait, and the state query behind one that found nothing. */
  datatype Turn = Turn(waited: seq<Beat<string>>, query: Option<Beat<string>>)

  function AtOf(beat: Beat<string>): nat { if beat.Look? then beat.at else 0 }

  /** When the turns are over; each ends in a look. */
  function EndOf(turns: seq<Turn>, start: nat): nat {
    if turns == [] then start
    else
      var last := turns[|turns| - 1];
      if last.query.Some? then AtOf(last.query.value)
      else if last.waited == [] then 0 else AtOf(last.waited[|last.waited| - 1])
  }

  function BeatsOf(turns: seq<Turn>): seq<Beat<string>> {
    if turns == [] then []
    else
      var last := turns[|turns| - 1];
      BeatsOf(turns[..|turns| - 1]) + last.waited + (if last.query.Some? then [last.query.value] else [])
  }

  /** The turns that brought a frame. */
  function FrameTurns(turns: seq<Turn>): nat {
    if turns == [] then 0
    else FrameTurns(turns[..|turns| - 1]) + (if turns[|turns| - 1].query.None? then 1 else 0)
  }

  /**
   A turn begins with budget left and polls for an edge up to 300 ms or what is
   left; only after all of that it asks for the state.
  */
  ghost predicate TurnFits(turn: Turn, start: nat, deadline: nat) {
    && start < deadline && Polling(turn.waited, 1) && EndsInLook(turn.waited)
    && var limit := start + Min(deadline - start, 300);
       && Before(turn.waited, |turn.waited| - 1, limit)
       && (turn.query.Some? ==> turn.query.value.Look? && turn.waited[|turn.waited| - 1].at >= limit)
  }

  /** One turn after the other; the queries of the first `alive` found the child running. */
  ghost predicate InTurns(turns: seq<Turn>, start: nat, deadline: nat, alive: nat) {
    turns == [] ||
    var earlier, last := turns[..|turns| - 1], turns[|turns| - 1];
    && InTurns(earlier, start, deadline, alive) && TurnFits(last, EndOf(earlier, start), deadline)
    && (|turns| <= alive && last.query.Some? ==> last.query.value.Look? && last.query.value.running)
  }

  /** The last turn ended in a query that found the child gone. */
  predicate QueryFoundExit(turns: seq<Turn>) {
    turns != [] &&
    var query := turns[|turns| - 1].query;
    query.Some? && query.value.Look? && !query.value.running
  }

  lemma TurnAdded(turns: seq<Turn>, start: nat, deadline: nat, turn: Turn)
    requires InTurns(turns, start, deadline, |turns|)
    requires var from := EndOf(turns, start);
             var limit := from + Min(Max(deadline - from, 0), 300);
             && from < deadline && Polling(turn.waited, 1) && EndsInLook(turn.waited)
             && Before(turn.waited, |turn.waited| - 1, limit)
             && (turn.query.Some? ==> turn.query.value.Look? && turn.waited[|turn.waited| - 1].at >= limit)
    ensures var turns' := turns + [turn];
            && InTurns(turns', start, deadline, |turns|)
            && (QueryFoundExit(turns') || InTurns(turns', start, deadline, |turns'|))
            && FrameTurns(turns') == FrameTurns(turns) + (if turn.query.None? then 1 else 0)
    ensures BeatsOf(turns + [turn])
         == BeatsOf(turns) + turn.waited + (if turn.query.Some? then [turn.query.value] else [])
  {
    hide Polling, Before;
    assert (turns + [turn])[..|turns|] == turns;
    AliveFurther(turns, start, deadline, |turns|, |turns| + 1);
  }

  lemma {:induction false} AliveFurther(turns: seq<Turn>, start: nat, deadline: nat, alive: nat, alive': nat)
    requires InTurns(turns, start, deadline, alive) && |turns| <= alive <= alive'
    ensures InTurns(turns, start, deadline, alive')
  {
    hide TurnFits;
    if turns != [] { AliveFurther(turns[..|turns| - 1], start, deadline, alive, alive'); }
  }

  /** Within its first `n` beats the collector naps, 15 ms at a time, only while no edge lies past the cursor. */
  ghost predicate NapsIdle(size: Size, delivered: seq<string>, beats: seq<Beat<string>>, n: nat, cursor: nat) {
    n <= |beats| &&
    forall i :: 0 <= i < n && beats[i].Nap? ==>
      beats[i].ms == 15 && |Run(size, delivered + Arrived(beats[..i])).edges| <= cursor
  }

  /** How many beats had passed when frame `k` was in, or in all. */
  function BeatsAt(shots: seq<Shot>, beats: seq<Beat<string>>, k: nat): nat
    requires k <= |shots|
  {
    if k < |shots| then shots[k].beat else |beats|
  }

  /** On the way to each frame, and behind the last one, no nap was taken while an edge was waiting. */
  ghost predicate NeverDawdles(size: Size, delivered: seq<string>, anchor: nat, shots: seq<Shot>,
                               beats: seq<Beat<string>>)
  {
    forall k: nat {:trigger BeatsAt(shots, beats, k)} :: k <= |shots| ==>
      NapsIdle(size, delivered, beats, BeatsAt(shots, beats, k), Cursor(anchor, shots, k))
  }

  /** What the collector has so far: frames served and true, and no nap while an edge was waiting. */
  ghost predicate Collected(size: Size, delivered: seq<string>, anchor: nat, shots: seq<Shot>,
                            beats: seq<Beat<string>>)
  {
    && AllServed(anchor, shots) && AllTrue(size, delivered + Arrived(beats), shots)
    && NeverDawdles(size, delivered, anchor, shots, beats)
  }

  /** How many edges there were before the last look. */
  function EdgesBeforeLastLook(size: Size, delivered: seq<string>, beats: seq<Beat<string>>): nat
    requires EndsInLook(beats)
  {
    |Run(size, delivered + Arrived(beats[..|beats| - 1])).edges|
  }

  method CaptureFrameSequence(backend: PtyLineBackend, child: Child<string>, count: nat, anchor: nat, budget: nat)
    returns (out: Sequence, ghost shots: seq<Shot>, ghost beats: seq<Beat<string>>, ghost turns: seq<Turn>)
    requires backend.Valid()
    modifies backend, child
    ensures backend.Valid() && child.log == old(child.log) + beats
    ensures BeatsOf(turns) == beats && FrameTurns(turns) == |shots|
    ensures out.reason.ProcessExited? <==> QueryFoundExit(turns)
    ensures InTurns(turns, old(child.now), old(child.now) + budget,
                    if QueryFoundExit(turns) then |turns| - 1 else |turns|)
    ensures backend.delivered == old(backend.delivered) + Arrived(beats)
    ensures out.frames == Frames(shots) && out.edgeSeqs == Numbers(shots) && out.edgeAt == Stamps(shots)
    ensures IsWalk(anchor, shots, Run(backend.size, backend.delivered).edges)
    ensures AllTrue(backend.size, backend.delivered, shots)
    ensures out.requested == count && out.captured == |out.frames| == |out.edgeSeqs| == |out.edgeAt| <= count
    ensures out.completed <==> |out.frames| == count
    ensures out.reason.CountReached? <==> out.completed && count > 0
    ensures out.lastScreenSeq == Cursor(anchor, shots, |shots|)
    ensures StampsOrdered(out.edgeAt, child.now)
    ensures out.reason.BudgetExpired? && count > 0 ==> child.now - old(child.now) >= budget
    ensures out.reason.ProcessExited? ==>
              && !child.running && EndsInLook(beats)
              && EdgesBeforeLastLook(backend.size, old(backend.delivered), beats) <= out.lastScreenSeq
    ensures NeverDawdles(backend.size, old(backend.delivered), anchor, shots, beats)
    ensures anchor < old(backend.screenSeq) && count > 0 && budget > 0 ==> out.captured > 0
    ensures anchor + count <= old(backend.screenSeq) && NoOverrun(anchor, shots) ==>
              NoNap(beats) && !out.reason.ProcessExited?
  {
    hide IsServed, IsTrue, IsWalk, Run, PtyLineBackend.Valid, NothingPast, NoOverrun, Polling, Collected, Arrived,
         Frames, Numbers, Stamps, StampsOrdered, InTurns, TurnFits, BeatsOf, FrameTurns, Before;
    var deadline := child.now + budget;
    var frames: seq<Screen>, edgeAt: seq<nat>, edgeSeqs: seq<nat> := [], [], [];
    shots, beats, turns := [], [], [];
    ghost var start := child.now;
    NoTurns(start, deadline);
    ghost var delivered := backend.delivered;
    NoShots(backend.size, delivered, anchor);
    StampsLater([], 0, child.now);
    var seenUpto := anchor;
    var reason := BudgetExpired;
    while |frames| < count
      invariant backend.Valid() && child.log == old(child.log) + beats
      invariant backend.delivered == delivered + Arrived(beats)
      invariant Collected(backend.size, delivered, anchor, shots, beats)
      invariant InTurns(turns, start, deadline, |turns|) && BeatsOf(turns) == beats && FrameTurns(turns) == |shots|
      invariant child.now == EndOf(turns, start) && !QueryFoundExit(turns)
      invariant anchor < old(backend.screenSeq) && frames == [] ==>
                  child.now == old(child.now) && backend.screenSeq == old(backend.screenSeq)
      invariant anchor + count <= old(backend.screenSeq) && NoOverrun(anchor, shots) ==>
                  NoNap(beats) && seenUpto == anchor + |shots| && backend.screenSeq >= old(backend.screenSeq)
      invariant frames == Frames(shots) && edgeSeqs == Numbers(shots) && edgeAt == Stamps(shots)
      invariant |shots| == |frames| == |edgeSeqs| == |edgeAt| <= count
      invariant seenUpto == Cursor(anchor, shots, |shots|)
      invariant StampsOrdered(edgeAt, child.now)
      invariant reason == if count > 0 && |frames| == count then CountReached else BudgetExpired
      decreases count - |frames|, deadline - child.now
    {
      if child.now >= deadline {
        break;
      }
      ghost var earlier, since := beats, child.now;
      var w, shot, waited := WaitForEdge(backend, child, seenUpto, Min(deadline - child.now, 300), |beats|);
      beats := beats + waited;
      StampsLater(edgeAt, since, child.now);
      Waited(backend.size, delivered, anchor, shots, earlier, waited);
      if w.screenSeq > seenUpto {
        FrameAdded(backend.size, delivered, anchor, shots, beats, shot);
        TurnAdded(turns, start, deadline, Turn(waited, None));
        turns := turns + [Turn(waited, None)];
        frames, edgeAt, edgeSeqs := frames + [w.state], edgeAt + [child.now], edgeSeqs + [w.screenSeq];
        shots := shots + [shot];
        seenUpto := w.screenSeq;
        if |frames| == count {
          reason := CountReached;
          break;
        }
        continue;
      }
      since := child.now;
      var _, running, look := backend.State(child);
      StampsLater(edgeAt, since, child.now);
      Queried(backend.size, delivered, anchor, shots, beats, look);
      TurnAdded(turns, start, deadline, Turn(waited, Some(look)));
      turns := turns + [Turn(waited, Some(look))];
      earlier, beats := beats, beats + [look];
      assert beats[..|beats| - 1] == earlier;
      assert EdgesBeforeLastLook(backend.size, delivered, beats) <= seenUpto;
      if !running {
        reason := ProcessExited;
        break;
      }
    }
    WalkOf(backend.size, delivered, anchor, shots, beats);
    out := Sequence(count, |frames|, frames, |frames| == count, reason, seenUpto, edgeAt, edgeSeqs);
  }

  /** A nap of an edge wait stands behind a look. */
  lemma {:induction false} NapsBehindLooks(beats: seq<Beat<string>>, i: nat)
    requires Polling(beats, 1) && i < |beats| && beats[i].Nap?
    ensures beats[i].ms == 15 && i > 0 && beats[i - 1].Look?
  {
    if i < |beats| - 1 { NapsBehindLooks(beats[..|beats| - 1], i); }
  }

  lemma WaitIdles(size: Size, cursor: nat, before: seq<string>, waited: seq<Beat<string>>)
    requires Polling(waited, 1) && EndsInLook(waited) && NothingPast(size, cursor, before, waited, |waited| - 1)
    ensures NapsIdle(size, before, waited, |waited|, cursor)
  {
    hide Run, Polling, Arrived;
    forall i | 0 <= i < |waited| && waited[i].Nap?
      ensures waited[i].ms == 15 && |Run(size, before + Arrived(waited[..i])).edges| <= cursor
    {
      NapsBehindLooks(waited, i);
      assert i - 1 + 1 == i;
    }
  }

  lemma IdlesOn(size: Size, delivered: seq<string>, beats: seq<Beat<string>>, more: seq<Beat<string>>, n: nat,
                cursor: nat)
    requires NapsIdle(size, delivered, beats, n, cursor)
    ensures NapsIdle(size, delivered, beats + more, n, cursor)
  {
    hide Run, Arrived;
    forall i | 0 <= i < n && (beats + more)[i].Nap?
      ensures (beats + more)[i].ms == 15 && |Run(size, delivered + Arrived((beats + more)[..i])).edges| <= cursor
    {
      assert (beats + more)[i] == beats[i] && (beats + more)[..i] == beats[..i];
    }
  }

  lemma IdlesThrough(size: Size, delivered: seq<string>, beats: seq<Beat<string>>, waited: seq<Beat<string>>,
                     cursor: nat)
    requires NapsIdle(size, delivered, beats, |beats|, cursor)
    requires NapsIdle(size, delivered + Arrived(beats), waited, |waited|, cursor)
    ensures NapsIdle(size, delivered, beats + waited, |beats + waited|, cursor)
  {
    hide Run, Arrived;
    var all := beats + waited;
    forall i | 0 <= i < |all| && all[i].Nap?
      ensures all[i].ms == 15 && |Run(size, delivered + Arrived(all[..i])).edges| <= cursor
    {
      if i < |beats| {
        assert all[i] == beats[i] && all[..i] == beats[..i];
      } else {
        var k := i - |beats|;
        assert all[i] == waited[k] && all[..i] == beats + waited[..k];
        ArrivedConcat(beats, waited[..k]);
        assert delivered + Arrived(beats) + Arrived(waited[..k]) == delivered + Arrived(all[..i]);
      }
    }
  }

  lemma IdlesLonger(size: Size, delivered: seq<string>, anchor: nat, shots: seq<Shot>, beats: seq<Beat<string>>,
                    waited: seq<Beat<string>>)
    requires Collected(size, delivered, anchor, shots, beats)
    requires NapsIdle(size, delivered + Arrived(beats), waited, |waited|, Cursor(anchor, shots, |shots|))
    ensures Collected(size, delivered, anchor, shots, beats + waited)
    ensures delivered + Arrived(beats) + Arrived(waited) == delivered + Arrived(beats + waited)
  {
    hide NapsIdle, AllServed, AllTrue, Arrived;
    ArrivedConcat(beats, waited);
    AllTrueLater(size, delivered + Arrived(beats), delivered + Arrived(beats + waited), shots);
    forall k: nat | k <= |shots|
      ensures NapsIdle(size, delivered, beats + waited, BeatsAt(shots, beats + waited, k), Cursor(anchor, shots, k))
    {
      var n := BeatsAt(shots, beats, k);
      if k < |shots| { IdlesOn(size, delivered, beats, waited, n, Cursor(anchor, shots, k)); }
      else { IdlesThrough(size, delivered, beats, waited, Cursor(anchor, shots, k)); }
    }
  }

  lemma Waited(size: Size, delivered: seq<string>, anchor: nat, shots: seq<Shot>, beats: seq<Beat<string>>,
               waited: seq<Beat<string>>)
    requires Collected(size, delivered, anchor, shots, beats) && Polling(waited, 1) && EndsInLook(waited)
    requires var cursor := Cursor(anchor, shots, |shots|);
             NothingPast(size, cursor, delivered + Arrived(beats), waited, |waited| - 1)
    ensures Collected(size, delivered, anchor, shots, beats + waited)
    ensures delivered + Arrived(beats) + Arrived(waited) == delivered + Arrived(beats + waited)
  {
    hide NapsIdle, Collected, NothingPast, Polling, Arrived;
    WaitIdles(size, Cursor(anchor, shots, |shots|), delivered + Arrived(beats), waited);
    IdlesLonger(size, delivered, anchor, shots, beats, waited);
  }

  lemma Queried(size: Size, delivered: seq<string>, anchor: nat, shots: seq<Shot>, beats: seq<Beat<string>>,
                look: Beat<string>)
    requires Collected(size, delivered, anchor, shots, beats) && look.Look?
    ensures Collected(size, delivered, anchor, shots, beats + [look])
    ensures delivered + Arrived(beats) + look.chunks == delivered + Arrived(beats + [look])
  {
    hide Collected, Run;
    assert [look][..0] == [];
    IdlesLonger(size, delivered, anchor, shots, beats, [look]);
  }

  lemma IdlesFurther(size: Size, delivered: seq<string>, beats: seq<Beat<string>>, n: nat, cursor: nat, cursor': nat)
    requires NapsIdle(size, delivered, beats, n, cursor) && cursor <= cursor'
    ensures NapsIdle(size, delivered, beats, n, cursor')
  {
    hide Run;
  }

  lemma IdlesWithFrame(size: Size, delivered: seq<string>, anchor: nat, shots: seq<Shot>, beats: seq<Beat<string>>,
                       shot: Shot)
    requires NeverDawdles(size, delivered, anchor, shots, beats)
    requires shot.seqNo > Cursor(anchor, shots, |shots|) && shot.beat == |beats|
    ensures NeverDawdles(size, delivered, anchor, shots + [shot], beats)
  {
    hide NapsIdle;
    var shots' := shots + [shot];
    forall k: nat | k <= |shots'|
      ensures NapsIdle(size, delivered, beats, BeatsAt(shots', beats, k), Cursor(anchor, shots', k))
    {
      var m := Min(k, |shots|);
      var n := BeatsAt(shots, beats, m);
      assert n == BeatsAt(shots', beats, k);
      IdlesFurther(size, delivered, beats, n, Cursor(anchor, shots, m), Cursor(anchor, shots', k));
    }
  }

  /** A served frame joins the collection. */
  lemma FrameAdded(size: Size, delivered: seq<string>, anchor: nat, shots: seq<Shot>, beats: seq<Beat<string>>,
                   shot: Shot)
    requires Collected(size, delivered, anchor, shots, beats) && shot.beat == |beats|
    requires IsTrue(size, delivered + Arrived(beats), shot) && IsServed(Cursor(anchor, shots, |shots|), shot)
    requires shot.seqNo > Cursor(anchor, shots, |shots|)
    ensures var shots' := shots + [shot];
            && Collected(size, delivered, anchor, shots', beats)
            && Frames(shots') == Frames(shots) + [shot.frame] && Numbers(shots') == Numbers(shots) + [shot.seqNo]
            && Stamps(shots') == Stamps(shots) + [shot.at]
            && (NoOverrun(anchor, shots') ==>
                  NoOverrun(anchor, shots) && shot.seqNo == Cursor(anchor, shots, |shots|) + 1)
  {
    hide IsTrue, IsServed, NoOverrun, NeverDawdles, AllTrue, AllServed, Arrived;
    AllTrueSnoc(size, delivered + Arrived(beats), shots, shot);
    AllServedSnoc(anchor, shots, shot);
    NextInBurst(anchor, shots, shot);
    IdlesWithFrame(size, delivered, anchor, shots, beats, shot);
  }

  lemma NoTurns(start: nat, deadline: nat)
    ensures InTurns([], start, deadline, 0) && BeatsOf([]) == [] && FrameTurns([]) == 0
  {
  }

  lemma NoShots(size: Size, delivered: seq<string>, anchor: nat)
    ensures Collected(size, delivered, anchor, [], []) && delivered + Arrived([]) == delivered
    ensures Frames([]) == [] && Numbers([]) == Stamps([]) == [] && StampsOrdered([], 0)
  {
  }

  lemma WalkOf(size: Size, delivered: seq<string>, anchor: nat, shots: seq<Shot>, beats: seq<Beat<string>>)
    requires Collected(size, delivered, anchor, shots, beats)
    ensures var all := delivered + Arrived(beats);
            IsWalk(anchor, shots, Run(size, all).edges) && AllTrue(size, all, shots)
    ensures NeverDawdles(size, delivered, anchor, shots, beats)
    ensures |Frames(shots)| == |Numbers(shots)| == |Stamps(shots)| == |shots|
  {
    hide AllServed, AllTrue, NeverDawdles, Run, Arrived;
    AllTrueEdges(size, delivered + Arrived(beats), shots);
  }

  // ----- what a walk tells the caller -------------------------------------

  predicate Consecutive(anchor: nat, shots: seq<Shot>) {
    forall i :: 0 <= i < |shots| ==> shots[i].seqNo == anchor + 1 + i
  }

  lemma ServeStep(anchor: nat, shots: seq<Shot>, history: seq<Screen>, i: nat)
    requires IsWalk(anchor, shots, history) && i < |shots|
    ensures Cursor(anchor, shots, i) < shots[i].seqNo <= |history|
    ensures Lag(anchor, shots, i) <= EDGE_SNAP_CAP <==> shots[i].seqNo == Cursor(anchor, shots, i) + 1
    ensures shots[i].seqNo == Cursor(anchor, shots, i) + 1 ==> shots[i].frame == history[Cursor(anchor, shots, i)]
  {
    assert ServedAt(anchor, shots, i) && shots[i].edges <= history;
  }

  lemma {:induction false} NumbersRise(anchor: nat, shots: seq<Shot>, history: seq<Screen>, n: nat)
    requires IsWalk(anchor, shots, history) && n <= |shots|
    ensures forall i :: 0 <= i < n ==> anchor < shots[i].seqNo <= |history|
    ensures forall i, j :: 0 <= i < j < n ==> shots[i].seqNo < shots[j].seqNo
  {
    hide IsWalk;
    if n > 0 {
      NumbersRise(anchor, shots, history, n - 1);
      ServeStep(anchor, shots, history, n - 1);
    }
  }

  lemma {:induction false} NoOverrunIsConsecutive(anchor: nat, shots: seq<Shot>, history: seq<Screen>, n: nat)
    requires IsWalk(anchor, shots, history) && NoOverrun(anchor, shots) && n <= |shots|
    ensures forall i :: 0 <= i < n ==> shots[i].seqNo == anchor + 1 + i
  {
    hide IsWalk;
    if n > 0 {
      NoOverrunIsConsecutive(anchor, shots, history, n - 1);
      ServeStep(anchor, shots, history, n - 1);
      assert Lag(anchor, shots, n - 1) <= EDGE_SNAP_CAP;
    }
  }

  lemma ConsecutiveFrames(anchor: nat, shots: seq<Shot>, history: seq<Screen>)
    requires IsWalk(anchor, shots, history) && Consecutive(anchor, shots) && shots != []
    ensures NoOverrun(anchor, shots)
    ensures anchor + |shots| <= |history|
    ensures Frames(shots) == history[anchor..anchor + |shots|]
  {
    hide IsWalk;
    forall i: nat | i < |shots|
      ensures Lag(anchor, shots, i) <= EDGE_SNAP_CAP
      ensures anchor + i < |history| && Frames(shots)[i] == history[anchor + i]
    {
      ServeStep(anchor, shots, history, i);
    }
    ServeStep(anchor, shots, history, |shots| - 1);
  }

  /**
   The walk visits edges anchor+1, anchor+2, … and shows each screen as it
   stood when that edge landed, exactly when the cursor never falls more than
   64 edges behind. Behind or not, the numbers rise strictly past the anchor.
  */
  lemma BurstWalk(anchor: nat, shots: seq<Shot>, history: seq<Screen>)
    requires IsWalk(anchor, shots, history)
    ensures NoOverrun(anchor, shots) <==> Consecutive(anchor, shots)
    ensures Consecutive(anchor, shots) && shots != [] ==>
              && anchor + |shots| <= |history|
              && Frames(shots) == history[anchor..anchor + |shots|]
    ensures forall i, j :: 0 <= i < j < |shots| ==> shots[i].seqNo < shots[j].seqNo
    ensures forall i :: 0 <= i < |shots| ==> anchor < shots[i].seqNo <= |history|
  {
    hide IsWalk, NoOverrun;
    NumbersRise(anchor, shots, history, |shots|);
    if NoOverrun(anchor, shots) { NoOverrunIsConsecutive(anchor, shots, history, |shots|); }
    if Consecutive(anchor, shots) {
      if shots == [] { NoOverrunWhenEmpty(anchor); } else { ConsecutiveFrames(anchor, shots, history); }
    }
  }

  lemma NoOverrunWhenEmpty(anchor: nat)
    ensures NoOverrun(anchor, [])
  {
  }
}
