/**
 * The one-time notification about the analysis feature
 * (`TestAnalysisManager.AnalysisNotification`). The process environment and
 * the state file are inputs; the message itself is reduced to whether it
 * was shown.
 */
module AnalysisNotification {
  import opened Wrappers

  /** Setting this environment variable to exactly `"true"` turns the notification off. */
  const DisabledVariable: string := "MAESTRO_CLI_ANALYSIS_NOTIFICATION_DISABLED"

  /** The persisted record; a missing `acknowledged` field reads as `false`. */
  datatype AnalysisNotificationState = AnalysisNotificationState(acknowledged: bool)

  /**
   * The state file as found on disk: missing, a JSON object whose
   * `acknowledged` field may be absent (other fields are ignored), or text
   * that does not parse as the record.
   */
  datatype StateFile = Absent | Present(acknowledgedField: Option<bool>) | Unparsable

  /** What `ack` writes. */
  const AcknowledgedFile: StateFile := Present(Some(true))

  /** Reading a parsed record, with the field's default applied. */
  function ReadState(acknowledgedField: Option<bool>): (state: AnalysisNotificationState)
    ensures acknowledgedField == Some(true) <==> state.acknowledged
  {
    AnalysisNotificationState(acknowledgedField.GetOr(false))
  }

  /** `System.getenv(name)`: the variable's value, or `null` (`None`) when it is unset. */
  function GetEnv(env: map<string, string>, name: string): Option<string>
  {
    if name in env then Some(env[name]) else None
  }

  /** `System.getenv(…) == "true"`: a null-safe comparison, so an unset variable leaves it enabled. */
  function Disabled(env: map<string, string>): (disabled: bool)
    ensures disabled <==> DisabledVariable in env && env[DisabledVariable] == "true"
  {
    GetEnv(env, DisabledVariable) == Some("true")
  }

  /** The sticky state: the file exists and records an acknowledgment. */
  predicate Acknowledged(file: StateFile)
  {
    file.Present? && ReadState(file.acknowledgedField).acknowledged
  }

  /**
   * `shouldNotNotify`: the override is consulted first and, when it is set,
   * the file is not read. `None` stands for the exception thrown when the
   * file exists but cannot be read as the record.
   */
  function ShouldNotNotify(env: map<string, string>, file: StateFile): (r: Option<bool>)
    ensures r.None? <==> !Disabled(env) && file.Unparsable?
    ensures r == Some(true) <==> Disabled(env) || Acknowledged(file)
  {
    if Disabled(env) then Some(true)
    else
      match file
      case Absent => Some(false)
      case Present(field) => Some(ReadState(field).acknowledged)
      case Unparsable => None
  }

  /**
   * One call of the gate: whether the message was shown, the state file
   * afterwards, and whether the call ended in an exception.
   */
  datatype Outcome = Outcome(shown: bool, file: StateFile, threw: bool)

  /**
   * `maybeNotify`: unless told not to, show the message and then `ack`.
   * `writeSucceeds` says whether creating the directories and writing the
   * file succeed; when they fail the message has already been shown.
   */
  function MaybeNotify(env: map<string, string>, file: StateFile, writeSucceeds: bool): (o: Outcome)
    ensures Disabled(env) ==> o == Outcome(false, file, false)
    ensures Acknowledged(file) ==> !o.shown && o.file == file && !o.threw
    ensures o.shown <==> !Disabled(env) && (file.Absent? || (file.Present? && !Acknowledged(file)))
    ensures o.file != file ==> o.shown && o.file == AcknowledgedFile
    ensures !o.threw && !Disabled(env) ==> Acknowledged(o.file)
    ensures o.threw <==> !Disabled(env) && (file.Unparsable? || (o.shown && !writeSucceeds))
    ensures o.threw ==> o.file == file
  {
    match ShouldNotNotify(env, file)
    case None => Outcome(false, file, true)
    case Some(true) => Outcome(false, file, false)
    case Some(false) =>
      if writeSucceeds then Outcome(true, AcknowledgedFile, false)
      else Outcome(true, file, true)
  }

  /** After a call that did not fail, a second call shows nothing and writes nothing. */
  lemma {:induction false} SecondCallIsSilent(env: map<string, string>, file: StateFile, firstWrite: bool, secondWrite: bool)
    requires !MaybeNotify(env, file, firstWrite).threw
    ensures var first := MaybeNotify(env, file, firstWrite);
            var second := MaybeNotify(env, first.file, secondWrite);
            !second.shown && second.file == first.file && !second.threw
  {
  }

  /** A failed write leaves the file unacknowledged, so the next call shows the message again. */
  lemma {:induction false} FailedWriteShowsAgain(env: map<string, string>, file: StateFile, writeSucceeds: bool)
    requires !Disabled(env) && !file.Unparsable? && !Acknowledged(file)
    ensures MaybeNotify(env, file, false).shown
    ensures MaybeNotify(env, MaybeNotify(env, file, false).file, writeSucceeds).shown
  {
  }

  /** A record without the field, or with `false`, shows the message again. */
  lemma {:induction false} UnacknowledgedRecordsNotify(env: map<string, string>, writeSucceeds: bool)
    requires !Disabled(env)
    ensures MaybeNotify(env, Present(None), writeSucceeds).shown
    ensures MaybeNotify(env, Present(Some(false)), writeSucceeds).shown
  {
  }

  /** Only the exact text `"true"` disables the notification. */
  lemma {:induction false} OnlyExactTrueDisables()
    ensures Disabled(map[DisabledVariable := "true"])
    ensures !Disabled(map[DisabledVariable := "TRUE"])
    ensures !Disabled(map[DisabledVariable := "1"])
    ensures !Disabled(map[])
  {
  }

  /** One process run: its environment and whether writing the state file succeeds. */
  datatype Run = Run(env: map<string, string>, writeSucceeds: bool)

  /** The number of times the message is shown over successive runs, each seeing the file the previous left. */
  function TimesShown(file: StateFile, runs: seq<Run>): nat
    decreases |runs|
  {
    if |runs| == 0 then 0
    else
      var o := MaybeNotify(runs[0].env, file, runs[0].writeSucceeds);
      (if o.shown then 1 else 0) + TimesShown(o.file, runs[1..])
  }

  /** Once acknowledged, no later run shows the message. */
  lemma {:induction false} AcknowledgedStaysSilent(file: StateFile, runs: seq<Run>)
    requires Acknowledged(file)
    ensures TimesShown(file, runs) == 0
    decreases |runs|
  {
    if |runs| > 0 {
      AcknowledgedStaysSilent(file, runs[1..]);
    }
  }

  /** When every write succeeds, the message is shown at most once across all runs. */
  lemma {:induction false} ShownAtMostOnce(file: StateFile, runs: seq<Run>)
    requires forall r :: r in runs ==> r.writeSucceeds
    ensures TimesShown(file, runs) <= 1
    decreases |runs|
  {
    if |runs| > 0 {
      var o := MaybeNotify(runs[0].env, file, runs[0].writeSucceeds);
      assert runs[0] in runs;
      if o.shown {
        AcknowledgedStaysSilent(o.file, runs[1..]);
      } else {
        assert forall r :: r in runs[1..] ==> r in runs;
        ShownAtMostOnce(o.file, runs[1..]);
      }
    }
  }
}
