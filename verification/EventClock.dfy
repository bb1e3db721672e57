/**
 The event clock of the portable PTY backend (src/backend/event_clock.rs): its
 counters and the two bounded per-change logs.
*/
module EventClock {
  import opened Common
  import W = WaitConditions

  const SCREEN_CHANGE_LOG_CAP: nat := 256

  /** One recorded screen change, in both time domains. */
  datatype Change = Change(unixMs: nat, monotonicMs: nat)

  function UnixLog(history: seq<Change>): seq<(nat, nat)> {
    seq(|history|, i requires 0 <= i < |history| => (i + 1, history[i].unixMs))
  }

  function MonotonicLog(history: seq<Change>): seq<(nat, nat)> {
    seq(|history|, i requires 0 <= i < |history| => (i + 1, history[i].monotonicMs))
  }

  /** `iter().filter(seq > after)`. */
  function Since(log: seq<(nat, nat)>, after: nat): seq<(nat, nat)> {
    if log == [] then []
    else (if log[0].0 > after then [log[0]] else []) + Since(log[1..], after)
  }

  class BackendEventClock {
    var outputSeq: nat
    var screenSeq: nat
    var contentSeq: nat
    var bellSeq: nat
    var titleSeq: nat
    var lastOutputAt: nat
    var lastScreenChangeAt: nat
    var screenChangeLog: seq<(nat, nat)>
    var screenChangeMonotonicLog: seq<(nat, nat)>
    /** Every screen change ever recorded; change `i` has number `i + 1`. */
    ghost var history: seq<Change>

    ghost predicate Logs()
      reads this
    {
      && screenChangeLog == LastN(UnixLog(history), SCREEN_CHANGE_LOG_CAP)
      && screenChangeMonotonicLog == LastN(MonotonicLog(history), SCREEN_CHANGE_LOG_CAP)
    }

    ghost predicate Valid()
      reads this
    {
      screenSeq == |history| && Logs()
    }

    constructor (now: nat)
      ensures Valid() && history == [] && lastOutputAt == lastScreenChangeAt == now
      ensures outputSeq == contentSeq == bellSeq == titleSeq == 0
    {
      outputSeq, screenSeq, contentSeq, bellSeq, titleSeq := 0, 0, 0, 0, 0;
      lastOutputAt, lastScreenChangeAt := now, now;
      screenChangeLog, screenChangeMonotonicLog, history := [], [], [];
    }

    method OnOutput(now: nat)
      modifies this`outputSeq, this`lastOutputAt
      ensures outputSeq == old(outputSeq) + 1 && lastOutputAt == now
    {
      outputSeq := outputSeq + 1;
      lastOutputAt := now;
    }

    method BumpContent()
      modifies this`contentSeq
      ensures contentSeq == old(contentSeq) + 1
    {
      contentSeq := contentSeq + 1;
    }

    method BumpScreen()
      modifies this`screenSeq
      ensures screenSeq == old(screenSeq) + 1
    {
      screenSeq := screenSeq + 1;
    }

    /** Record a change under the number `BumpScreen` has just given it. */
    method OnScreenChange(change: Change, now: nat)
      requires screenSeq == |history| + 1 && Logs()
      modifies this`lastScreenChangeAt, this`screenChangeLog, this`screenChangeMonotonicLog, this`history
      ensures Valid() && history == old(history) + [change] && lastScreenChangeAt == now
    {
      lastScreenChangeAt := now;
      LogPush(history, change);
      LastNPush(UnixLog(history), (screenSeq, change.unixMs), SCREEN_CHANGE_LOG_CAP);
      LastNPush(MonotonicLog(history), (screenSeq, change.monotonicMs), SCREEN_CHANGE_LOG_CAP);
      hide LastN, UnixLog, MonotonicLog;
      if |screenChangeLog| == SCREEN_CHANGE_LOG_CAP {
        screenChangeLog := screenChangeLog[1..];
        screenChangeMonotonicLog := screenChangeMonotonicLog[1..];
      }
      screenChangeLog := screenChangeLog + [(screenSeq, change.unixMs)];
      screenChangeMonotonicLog := screenChangeMonotonicLog + [(screenSeq, change.monotonicMs)];
      history := history + [change];
    }

    method SyncCounters(audibleBells: nat, titles: nat)
      modifies this`bellSeq, this`titleSeq
      ensures bellSeq == Max(old(bellSeq), audibleBells) && titleSeq == Max(old(titleSeq), titles)
    {
      if audibleBells > bellSeq {
        bellSeq := audibleBells;
      }
      if titles > titleSeq {
        titleSeq := titles;
      }
    }

    function InteractionSeq(): nat
      reads this
    {
      screenSeq + bellSeq + titleSeq
    }

    function EventStateNow(commandSeq: nat): W.EventState
      reads this
    {
      W.EventState(outputSeq, screenSeq, contentSeq, InteractionSeq(), bellSeq, titleSeq, commandSeq)
    }
  }

  lemma LogPush(history: seq<Change>, change: Change)
    ensures UnixLog(history + [change]) == UnixLog(history) + [(|history| + 1, change.unixMs)]
    ensures MonotonicLog(history + [change]) == MonotonicLog(history) + [(|history| + 1, change.monotonicMs)]
  {
  }

  /** Entries carry consecutive numbers that end at `last`. */
  predicate Numbered(log: seq<(nat, nat)>, last: nat) {
    |log| <= last && forall i :: 0 <= i < |log| ==> log[i].0 == last - |log| + i + 1
  }

  lemma {:induction false} SinceOfNumbered(log: seq<(nat, nat)>, last: nat, after: nat)
    requires Numbered(log, last)
    ensures Since(log, after) == LastN(log, Max(last - after, 0))
  {
    if log != [] {
      var rest, k := log[1..], Max(last - after, 0);
      SinceOfNumbered(rest, last, after);
      assert log == [log[0]] + rest;
      if log[0].0 > after {
        assert LastN(rest, k) == rest && LastN(log, k) == log;
      } else {
        assert LastN(rest, k) == LastN(log, k);
      }
    }
  }

  /** The documented reading of the query: entries at or after a number. */
  function AtOrAfter(log: seq<(nat, nat)>, after: nat): seq<(nat, nat)> {
    if log == [] then []
    else (if log[0].0 >= after then [log[0]] else []) + AtOrAfter(log[1..], after)
  }

  lemma {:induction false} AtOrAfterIsSince(log: seq<(nat, nat)>, after: nat)
    requires after > 0
    ensures AtOrAfter(log, after) == Since(log, after - 1)
  {
    if log != [] { AtOrAfterIsSince(log[1..], after); }
  }

  /** The code's filter is strict: it agrees with the documented one exactly if the number itself is not in the log. */
  lemma SinceIsStrict(log: seq<(nat, nat)>, last: nat, after: nat)
    requires Numbered(log, last) && after > 0
    ensures Since(log, after) == AtOrAfter(log, after) <==> !(last - |log| < after <= last)
  {
    AtOrAfterIsSince(log, after);
    SinceOfNumbered(log, last, after);
    SinceOfNumbered(log, last, after - 1);
    hide Since;
    if last - |log| < after <= last {
      assert |LastN(log, last - after)| + 1 == |LastN(log, last - after + 1)|;
    }
  }

  /**
   A query of the bounded log: it holds the newest 256 entries under their own
   consecutive numbers, and returns every entry after `after` exactly when at
   most 256 were recorded since.
  */
  ghost predicate AnswersQuery(full: seq<(nat, nat)>, after: nat) {
    var log, wanted := LastN(full, SCREEN_CHANGE_LOG_CAP), LastN(full, Max(|full| - after, 0));
    && Numbered(log, |full|)
    && (Since(log, after) == wanted <==> |full| - after <= SCREEN_CHANGE_LOG_CAP)
  }

  lemma QueryLog(full: seq<(nat, nat)>, after: nat)
    requires Numbered(full, |full|)
    ensures AnswersQuery(full, after)
  {
    SinceOfNumbered(LastN(full, SCREEN_CHANGE_LOG_CAP), |full|, after);
    LastNOfLastN(full, SCREEN_CHANGE_LOG_CAP, Max(|full| - after, 0));
    hide Since;
  }

  /** Both parallel logs answer for the full history, under the same numbers. */
  lemma ChangesSince(history: seq<Change>, after: nat)
    ensures |UnixLog(history)| == |MonotonicLog(history)| == |history|
    ensures forall i :: 0 <= i < |history| ==> UnixLog(history)[i].0 == MonotonicLog(history)[i].0 == i + 1
    ensures AnswersQuery(UnixLog(history), after) && AnswersQuery(MonotonicLog(history), after)
  {
    hide AnswersQuery;
    QueryLog(UnixLog(history), after);
    QueryLog(MonotonicLog(history), after);
  }
}
