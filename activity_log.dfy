/**
 * The `hourly_logs` table as an in-memory append-only sequence of rows, and
 * the activity text a check-in answer writes into it.
 */
module ActivityLog {
  import opened Wrappers

  /** One row: the auto-assigned id, the activity text and the productivity score. */
  datatype LogEntry = LogEntry(id: nat, activity: string, score: int)

  /** The answer texts of the two dialog buttons and the label put before a note. */
  const YesAnswer: string := "إجابة: نعم"
  const NoAnswer: string := "إجابة: لا"
  const NoteLabel: string := " - ملاحظة: "

  /** A log as the table keeps it: ids positive and strictly increasing in insertion order. */
  predicate WellFormed(log: seq<LogEntry>) {
    && (forall i, j :: 0 <= i < j < |log| ==> log[i].id < log[j].id)
    && (forall i :: 0 <= i < |log| ==> log[i].id > 0)
  }

  /** The id AUTOINCREMENT gives the next row: one more than the last, 1 for an empty table. */
  function NextId(log: seq<LogEntry>): (id: nat)
    requires WellFormed(log)
    ensures id > 0
    ensures forall i :: 0 <= i < |log| ==> log[i].id < id
  {
    if log == [] then 1 else log[|log| - 1].id + 1
  }

  /**
   * `log_activity`: one INSERT. The earlier rows are kept as they are and the
   * new row comes last with a fresh, larger id.
   */
  function Record(log: seq<LogEntry>, activity: string, score: int): (r: seq<LogEntry>)
    requires WellFormed(log)
    ensures |r| == |log| + 1 && r[..|log|] == log
    ensures r[|log|].activity == activity && r[|log|].score == score
    ensures forall i :: 0 <= i < |log| ==> log[i].id < r[|log|].id
    ensures WellFormed(r)
  {
    log + [LogEntry(NextId(log), activity, score)]
  }

  /** The score of an answer: 1 for yes, 0 for no. */
  function Score(productive: bool): (s: int)
    ensures 0 <= s <= 1 && (s == 1 <==> productive)
  {
    if productive then 1 else 0
  }

  /**
   * The activity text of an answer: the button's answer text, followed by the
   * note label and the note only when the note is not empty.
   */
  function Activity(productive: bool, note: string): (r: string)
    ensures var answer := if productive then YesAnswer else NoAnswer;
      && |answer| <= |r| && r[..|answer|] == answer
      && (r == answer <==> note == "")
      && |note| <= |r| && r[|r| - |note|..] == note
  {
    (if productive then YesAnswer else NoAnswer) + (if note == "" then "" else NoteLabel + note)
  }

  /** Reads an activity text back into the answer and the note. */
  function ReadActivity(s: string): Option<(bool, string)> {
    if |YesAnswer| <= |s| && s[..|YesAnswer|] == YesAnswer then
      match ReadNote(s[|YesAnswer|..])
      case Some(note) => Some((true, note))
      case None => None
    else if |NoAnswer| <= |s| && s[..|NoAnswer|] == NoAnswer then
      match ReadNote(s[|NoAnswer|..])
      case Some(note) => Some((false, note))
      case None => None
    else None
  }

  function ReadNote(rest: string): Option<string> {
    if rest == "" then Some("")
    else if |NoteLabel| < |rest| && rest[..|NoteLabel|] == NoteLabel then Some(rest[|NoteLabel|..])
    else None
  }

  /** The answer and the note can be recovered from every activity text written. */
  lemma ReadActivityRoundTrip(productive: bool, note: string)
    ensures ReadActivity(Activity(productive, note)) == Some((productive, note))
  {
    var prefix := if productive then YesAnswer else NoAnswer;
    var rest := if note == "" then "" else NoteLabel + note;
    var s := Activity(productive, note);
    assert s == prefix + rest;
    assert s[..|prefix|] == prefix && s[|prefix|..] == rest;
    if note != "" {
      assert rest[..|NoteLabel|] == NoteLabel && rest[|NoteLabel|..] == note;
    }
    if !productive {
      assert s[7] == NoAnswer[7] != YesAnswer[7];
    }
  }
}
