/**
 OSC 133 shell-integration marks (`unhandled_osc`, src/backend/protocol.rs):
 the command counter and the running flag, and what they say about the marks.
*/
module ShellMarks {
  import opened Common

  /** The third field of a command end: absent, not a number, or an exit status. */
  datatype ExitField = NoField | NotANumber | Status(code: int)

  datatype Mark = PromptStart | CommandStart | OutputStart | CommandEnd(exit: ExitField) | Unknown

  datatype Phase = NoPhase | Prompt | Command | Output | Done

  datatype Shell = Shell(commandSeq: nat, running: bool, phase: Phase, lastExit: Option<int>)

  const Quiet: Shell := Shell(0, false, NoPhase, None)

  function Marked(s: Shell, m: Mark): Shell {
    match m
    case PromptStart => s.(phase := Prompt)
    case CommandStart => s.(phase := Command)
    case OutputStart => s.(commandSeq := s.commandSeq + 1, running := true, phase := Output)
    case CommandEnd(exit) =>
      s.(running := false, phase := Done,
         lastExit := if exit.NoField? then s.lastExit else if exit.Status? then Some(exit.code) else None)
    case Unknown => s
  }

  function After(marks: seq<Mark>): Shell {
    if marks == [] then Quiet else Marked(After(marks[..|marks| - 1]), marks[|marks| - 1])
  }

  /** Number of command starts among the first `n` marks. */
  function Starts(marks: seq<Mark>, n: nat): nat
    requires n <= |marks|
  {
    if n == 0 then 0 else Starts(marks, n - 1) + (if marks[n - 1].OutputStart? then 1 else 0)
  }

  /** Mark `i` starts the command numbered `k`. */
  predicate StartsCommand(marks: seq<Mark>, i: nat, k: nat) {
    i < |marks| && marks[i].OutputStart? && Starts(marks, i + 1) == k
  }

  /** No command starts after mark `i`. */
  predicate LatestStart(marks: seq<Mark>, i: nat) {
    i < |marks| && marks[i].OutputStart? && forall j :: i < j < |marks| ==> !marks[j].OutputStart?
  }

  predicate EndsAfter(marks: seq<Mark>, i: nat) {
    exists j :: i < j < |marks| && marks[j].CommandEnd?
  }

  lemma {:induction false} StartsPrefix(marks: seq<Mark>, m: Mark, n: nat)
    requires n <= |marks|
    ensures Starts(marks + [m], n) == Starts(marks, n)
  {
    if n > 0 { StartsPrefix(marks, m, n - 1); }
  }

  /** The counter is the number of the latest command; the flag says it has not ended. */
  lemma {:induction false} ShellMeaning(marks: seq<Mark>)
    ensures After(marks).commandSeq == Starts(marks, |marks|)
    ensures After(marks).commandSeq > 0 ==>
              exists i: nat :: LatestStart(marks, i) && StartsCommand(marks, i, After(marks).commandSeq)
                          && (After(marks).running <==> !EndsAfter(marks, i))
    ensures After(marks).commandSeq == 0 ==> !After(marks).running
  {
    if marks != [] {
      var init, m := marks[..|marks| - 1], marks[|marks| - 1];
      assert marks == init + [m];
      ShellMeaning(init);
      StartsPrefix(init, m, |init|);
      if m.OutputStart? {
        assert LatestStart(marks, |init|) && StartsCommand(marks, |init|, After(marks).commandSeq);
        assert !EndsAfter(marks, |init|);
      } else if After(init).commandSeq > 0 {
        var i: nat :| LatestStart(init, i) && StartsCommand(init, i, After(init).commandSeq)
                 && (After(init).running <==> !EndsAfter(init, i));
        StartsPrefix(init, m, i + 1);
        LaterEnd(init, m, i);
        assert LatestStart(marks, i) && StartsCommand(marks, i, After(marks).commandSeq);
      }
    }
  }

  /** An end that says how the command ended, or that its field is not a number. */
  predicate SaysExit(m: Mark) { m.CommandEnd? && !m.exit.NoField? }

  function StatusOf(m: Mark): Option<int> {
    if m.CommandEnd? && m.exit.Status? then Some(m.exit.code) else None
  }

  predicate LatestExit(marks: seq<Mark>, i: nat) {
    i < |marks| && SaysExit(marks[i]) && forall j :: i < j < |marks| ==> !SaysExit(marks[j])
  }

  predicate LatestKnown(marks: seq<Mark>, i: nat) {
    i < |marks| && marks[i] != Unknown && forall j :: i < j < |marks| ==> marks[j] == Unknown
  }

  function PhaseOf(m: Mark): Phase {
    match m
    case PromptStart => Prompt
    case CommandStart => Command
    case OutputStart => Output
    case CommandEnd(_) => Done
    case Unknown => NoPhase
  }

  /** The exit is that of the latest end with an exit field, and nothing if that is no number or there is none. */
  lemma {:induction false} ExitMeaning(marks: seq<Mark>)
    ensures if exists i: nat :: LatestExit(marks, i)
            then exists i: nat :: LatestExit(marks, i)
                   && After(marks).lastExit == StatusOf(marks[i])
            else After(marks).lastExit == None && forall i :: 0 <= i < |marks| ==> !SaysExit(marks[i])
  {
    if marks != [] {
      var init, m := marks[..|marks| - 1], marks[|marks| - 1];
      ExitMeaning(init);
      assert marks == init + [m];
      if SaysExit(m) {
        assert LatestExit(marks, |init|);
      } else if i: nat :| LatestExit(init, i) && After(init).lastExit == StatusOf(init[i]) {
        assert LatestExit(marks, i);
      }
    }
  }

  /** The phase is that of the latest known mark. */
  lemma {:induction false} PhaseMeaning(marks: seq<Mark>)
    ensures if exists i: nat :: LatestKnown(marks, i)
            then exists i: nat :: LatestKnown(marks, i) && After(marks).phase == PhaseOf(marks[i])
            else After(marks).phase == NoPhase && forall i :: 0 <= i < |marks| ==> marks[i] == Unknown
  {
    if marks != [] {
      var init, m := marks[..|marks| - 1], marks[|marks| - 1];
      PhaseMeaning(init);
      assert marks == init + [m];
      if m != Unknown {
        assert LatestKnown(marks, |init|);
      } else if i: nat :| LatestKnown(init, i) && After(init).phase == PhaseOf(init[i]) {
        assert LatestKnown(marks, i);
      }
    }
  }

  lemma LaterEnd(init: seq<Mark>, m: Mark, i: nat)
    requires i < |init|
    ensures EndsAfter(init + [m], i) <==> EndsAfter(init, i) || m.CommandEnd?
  {
    var marks := init + [m];
    if EndsAfter(init, i) {
      var j :| i < j < |init| && init[j].CommandEnd?;
      assert marks[j].CommandEnd?;
    }
    if m.CommandEnd? { assert marks[|init|].CommandEnd?; }
  }

  /**
   The latest command is numbered above `n` and has ended, exactly when some
   command above `n` started and an end followed the latest start.
  */
  lemma FinishedAbove(marks: seq<Mark>, n: nat)
    ensures After(marks).commandSeq > n && !After(marks).running
            <==> exists i: nat, k: nat ::
                   LatestStart(marks, i) && StartsCommand(marks, i, k) && k > n && EndsAfter(marks, i)
  {
    ShellMeaning(marks);
    if i: nat, k: nat :| LatestStart(marks, i) && StartsCommand(marks, i, k) && k > n && EndsAfter(marks, i) {
      NoStartsAfter(marks, i, |marks|);
      var l: nat :| LatestStart(marks, l) && StartsCommand(marks, l, After(marks).commandSeq)
               && (After(marks).running <==> !EndsAfter(marks, l));
      assert l == i;
    }
  }

  lemma {:induction false} NoStartsAfter(marks: seq<Mark>, i: nat, n: nat)
    requires LatestStart(marks, i) && i < n <= |marks|
    ensures Starts(marks, n) == Starts(marks, i + 1)
  {
    if n > i + 1 { NoStartsAfter(marks, i, n - 1); }
  }

  // ----- the next end -----------------------------------------------------

  /** Some command has started and the latest one has ended. */
  predicate Finished(marks: seq<Mark>) { After(marks).commandSeq > 0 && !After(marks).running }

  predicate HoldsEnd(marks: seq<Mark>) { exists j :: 0 <= j < |marks| && marks[j].CommandEnd? }

  lemma {:induction false} NoEndNoFinish(before: seq<Mark>, more: seq<Mark>)
    requires !Finished(before) && !HoldsEnd(more)
    ensures !Finished(before + more)
  {
    if more == [] {
      assert before + more == before;
    } else {
      var init, m := more[..|more| - 1], more[|more| - 1];
      assert forall j :: 0 <= j < |init| ==> init[j] == more[j];
      NoEndNoFinish(before, init);
      assert (before + more)[..|before + more| - 1] == before + init;
      assert !m.CommandEnd?;
    }
  }

  /** A finished state means an end after this point, whatever follows, exactly when it is not finished yet. */
  lemma FinishIsNewEnd(before: seq<Mark>)
    ensures (forall more: seq<Mark> :: Finished(before + more) ==> HoldsEnd(more)) <==> !Finished(before)
  {
    hide Finished;
    if Finished(before) {
      assert before + [] == before;
      assert Finished(before + []) && !HoldsEnd([]);
    } else {
      forall more: seq<Mark> | Finished(before + more)
        ensures HoldsEnd(more)
      {
        if !HoldsEnd(more) { NoEndNoFinish(before, more); }
      }
    }
  }

  // ----- the next command -------------------------------------------------

  /** Some command starts in these marks, and an end follows its start. */
  predicate HoldsRun(marks: seq<Mark>) {
    exists i, j :: 0 <= i < j < |marks| && marks[i].OutputStart? && marks[j].CommandEnd?
  }

  lemma {:induction false} NoneStarted(marks: seq<Mark>, n: nat)
    requires n <= |marks| && Starts(marks, n) == 0
    ensures forall i :: 0 <= i < n ==> !marks[i].OutputStart?
  {
    if n > 0 { NoneStarted(marks, n - 1); }
  }

  lemma FinishedRun(before: seq<Mark>, later: seq<Mark>)
    requires After(before).commandSeq == 0 && Finished(before + later)
    ensures HoldsRun(later)
  {
    var marks := before + later;
    ShellMeaning(before);
    NoneStarted(before, |before|);
    ShellMeaning(marks);
    hide After, Starts;
    var i: nat :| LatestStart(marks, i) && StartsCommand(marks, i, After(marks).commandSeq) && EndsAfter(marks, i);
    var j :| i < j < |marks| && marks[j].CommandEnd?;
    assert forall k :: 0 <= k < |before| ==> marks[k] == before[k];
    assert later[i - |before|].OutputStart? && later[j - |before|].CommandEnd?;
  }

  lemma AfterOne(before: seq<Mark>, m: Mark)
    ensures After(before + [m]) == Marked(After(before), m)
  {
    assert (before + [m])[..|before|] == before;
  }

  /**
   A finished state means a start and its end after this point, whatever
   follows, exactly when no command has started yet.
  */
  lemma FinishIsNewRun(before: seq<Mark>)
    ensures (forall later: seq<Mark> :: Finished(before + later) ==> HoldsRun(later)) <==> After(before).commandSeq == 0
  {
    forall later: seq<Mark> | After(before).commandSeq == 0 && Finished(before + later)
      ensures HoldsRun(later)
    {
      FinishedRun(before, later);
    }
    if After(before).commandSeq > 0 {
      AfterOne(before, CommandEnd(NoField));
      assert Finished(before + [CommandEnd(NoField)]) && !HoldsRun([CommandEnd(NoField)]);
    }
  }

  // ----- finish edges above a number --------------------------------------

  /** An end came while the latest command was numbered above `n`. */
  ghost predicate FinishAbove(marks: seq<Mark>, n: nat) {
    exists j: nat :: FinishesAbove(marks, j, n)
  }

  predicate FinishesAbove(marks: seq<Mark>, j: nat, n: nat) {
    j < |marks| && marks[j].CommandEnd? && Starts(marks, j) > n
  }

  lemma {:induction false} StartsGrow(marks: seq<Mark>, i: nat, j: nat)
    requires i <= j <= |marks|
    ensures Starts(marks, i) <= Starts(marks, j)
    decreases j
  {
    if i < j { StartsGrow(marks, i, j - 1); }
  }

  /**
   A finished latest command above `n` is a finish above `n`; such a finish is
   lost exactly while a newer command runs.
  */
  lemma FinishIsKept(marks: seq<Mark>, n: nat)
    ensures After(marks).commandSeq > n && !After(marks).running <==> FinishAbove(marks, n) && !After(marks).running
  {
    ShellMeaning(marks);
    FinishedAbove(marks, n);
    hide After;
    if i: nat, k: nat :| LatestStart(marks, i) && StartsCommand(marks, i, k) && k > n && EndsAfter(marks, i) {
      var j :| i < j < |marks| && marks[j].CommandEnd?;
      StartsGrow(marks, i + 1, j);
      assert FinishesAbove(marks, j, n);
    }
    if FinishAbove(marks, n) {
      var j: nat :| FinishesAbove(marks, j, n);
      StartsGrow(marks, j, |marks|);
    }
  }
}
