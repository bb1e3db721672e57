/**
 The wait vocabulary every backend shares (src/backend/mod.rs,
 src/backend/trait_def.rs): conditions, causality anchors, event counters and
 the rewriting of a condition against a captured baseline.
*/
module WaitConditions {
  import opened Common

  datatype WaitCond =
    | Text(text: string)
    | TextAbsent(text: string)
    | ScreenChange
    | ScreenStable(quietFor: nat, afterScreenSeq: Option<nat>)
    | ProcessExit
    | Title(title: string)
    | Bell(afterBellSeq: Option<nat>)
    | AnyActivity(afterInteractionSeq: Option<nat>)
    | Idle(quietFor: nat, afterOutputSeq: Option<nat>)
    | CommandDone(afterCommandSeq: Option<nat>)
    | CommandOutput(text: string, afterCommandSeq: Option<nat>)

  datatype WaitReason =
    | ByText | ByTextAbsent | ByScreenChange | ByScreenStable | ByProcessExit
    | ByTitle | ByBell | ByIdle | ByTimeout

  /** The counters a caller captures before it acts. */
  datatype EventState = EventState(
    outputSeq: nat, screenSeq: nat, contentSeq: nat, interactionSeq: nat,
    bellSeq: nat, titleSeq: nat, commandSeq: nat)

  function OrElse(anchor: Option<nat>, baseline: nat): Option<nat> {
    if anchor.None? then Some(baseline) else anchor
  }

  /** The sequence number lies strictly past the anchor, if there is one. */
  predicate Past(anchor: Option<nat>, seqNo: nat) { anchor.Some? ==> seqNo > anchor.value }

  /** `WaitCond::anchored_to`: fill in the anchor a condition was built without. */
  function AnchoredTo(cond: WaitCond, baseline: EventState): WaitCond {
    match cond
    case ScreenStable(q, a) => ScreenStable(q, OrElse(a, baseline.screenSeq))
    case Idle(q, a) => Idle(q, OrElse(a, baseline.outputSeq))
    case ScreenChange => ScreenStable(40, Some(baseline.screenSeq))
    case CommandDone(a) => CommandDone(OrElse(a, baseline.commandSeq))
    case CommandOutput(t, a) => CommandOutput(t, OrElse(a, baseline.commandSeq))
    case Bell(a) => Bell(OrElse(a, baseline.bellSeq))
    case AnyActivity(a) => AnyActivity(OrElse(a, baseline.interactionSeq))
    case _ => cond
  }

  predicate RowContains(row: string, text: string) { Find(row, text).Some? }

  predicate AnyRowContains(rows: seq<string>, text: string) {
    exists i :: 0 <= i < |rows| && RowContains(rows[i], text)
  }

  /** Some row holds the text. */
  ghost predicate ShowsText(rows: seq<string>, text: string) {
    exists r: nat, i: nat :: r < |rows| && OccursAt(rows[r], text, i)
  }

  lemma ContainsIsShows(rows: seq<string>, text: string)
    ensures AnyRowContains(rows, text) <==> ShowsText(rows, text)
  {
    if AnyRowContains(rows, text) {
      var r :| 0 <= r < |rows| && RowContains(rows[r], text);
      assert OccursAt(rows[r], text, Find(rows[r], text).value);
    }
    if ShowsText(rows, text) {
      var r: nat, i: nat :| r < |rows| && OccursAt(rows[r], text, i);
      assert RowContains(rows[r], text);
    }
  }

  /** The reason a met condition is reported with. */
  function ReasonOf(cond: WaitCond): WaitReason {
    match cond
    case Text(_) => ByText
    case CommandOutput(_, _) => ByText
    case TextAbsent(_) => ByTextAbsent
    case ScreenChange => ByScreenChange
    case AnyActivity(_) => ByScreenChange
    case ScreenStable(_, _) => ByScreenStable
    case ProcessExit => ByProcessExit
    case Title(_) => ByTitle
    case Bell(_) => ByBell
    case Idle(_, _) => ByIdle
    case CommandDone(_) => ByIdle
  }
}
