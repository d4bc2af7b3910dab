/**
 * The state of one run of the app: the `DisciplineApp` fields, the activity
 * log table, and the state the screen's handlers change (the task list, the
 * two text inputs, the timer label, the progress bar and whether the
 * check-in dialog is open).
 */
module Discipline {
  import opened Clock
  import opened ActivityLog
  import opened Wrappers

  const DefaultTargetHours: nat := 10
  const DefaultFocus: string := "General Work"

  /** The choices of the daily-goal dropdown. */
  const TargetOptions: set<nat> := {3, 5, 8, 10, 12}

  /** Removes the entry at `i` and keeps the others in their order. */
  function RemoveAt(tasks: seq<string>, i: nat): (r: seq<string>)
    requires i < |tasks|
    ensures |r| == |tasks| - 1
    ensures forall j :: 0 <= j < i ==> r[j] == tasks[j]
    ensures forall j :: i <= j < |r| ==> r[j] == tasks[j + 1]
    ensures multiset(r) + multiset{tasks[i]} == multiset(tasks)
  {
    assert tasks == tasks[..i] + [tasks[i]] + tasks[i + 1..];
    tasks[..i] + tasks[i + 1..]
  }

  /** What one pass of the timer loop puts on screen: the HH:MM:SS label and the progress bar. */
  datatype Display = Display(timerText: string, progress: Ratio)

  /** Every field of a Session, as one value. */
  datatype SessionState = SessionState(
    isWorking: bool,
    workedSeconds: nat,
    dailyTarget: nat,
    currentFocus: string,
    log: seq<LogEntry>,
    checkInPending: bool,
    noteInput: string,
    taskInput: string,
    tasks: seq<string>)

  class Session {
    var isWorking: bool
    var workedSeconds: nat
    var dailyTarget: nat
    var currentFocus: string
    /** The rows of the activity table, oldest first. */
    var log: seq<LogEntry>
    /** The check-in dialog is open. */
    var checkInPending: bool
    /** The dialog's optional note field. */
    var noteInput: string
    /** The "add a task" field. */
    var taskInput: string
    /** The texts of the task rows, top to bottom; duplicates are allowed. */
    var tasks: seq<string>

    ghost function Model(): SessionState
      reads this
    {
      SessionState(isWorking, workedSeconds, dailyTarget, currentFocus, log,
                   checkInPending, noteInput, taskInput, tasks)
    }

    /**
     * The goal is one of the dropdown's choices and the log is as the table
     * keeps it. The note field lives in the dialog and is cleared whenever the
     * dialog closes, so a closed dialog has an empty note.
     */
    ghost predicate Valid()
      reads this
    {
      dailyTarget in TargetOptions && WellFormed(log) && (!checkInPending ==> noteInput == "")
    }

    /** Start-up: the table holds the rows of earlier runs; everything else starts fresh. */
    constructor (stored: seq<LogEntry>)
      requires WellFormed(stored)
      ensures Valid()
      ensures Model() == SessionState(false, 0, DefaultTargetHours, DefaultFocus, stored,
                                      false, "", "", [])
    {
      isWorking := false;
      workedSeconds := 0;
      dailyTarget := DefaultTargetHours;
      currentFocus := DefaultFocus;
      log := stored;
      checkInPending := false;
      noteInput := "";
      taskInput := "";
      tasks := [];
    }

    /** `log_activity`: appends one row with the next id. */
    method LogActivity(activity: string, score: int)
      requires Valid()
      modifies this
      ensures Valid()
      ensures Model() == old(Model()).(log := Record(old(log), activity, score))
    {
      log := Record(log, activity, score);
    }

    /**
     * The start/pause button. Starting sets the flag and, because the handler
     * awaits the timer loop, runs the loop's first pass at once: one second
     * more, shown, and the dialog opened if that reaches a check-in. Pausing
     * only clears the flag. Neither loses worked seconds, touches the log or
     * closes an open dialog. The goal dropdown is disabled exactly while working.
     */
    method Toggle() returns (checkIn: bool, shown: Option<Display>)
      requires Valid()
      modifies this
      ensures Valid()
      ensures !old(isWorking) ==> checkIn == IsCheckIn(old(workedSeconds) + 1)
      ensures !old(isWorking) ==> shown == Some(Display(FormatHms(old(workedSeconds) + 1),
                                                        Progress(old(workedSeconds) + 1, old(dailyTarget))))
      ensures !old(isWorking) ==> Model() == old(Model()).(
        isWorking := true,
        workedSeconds := old(workedSeconds) + 1,
        checkInPending := old(checkInPending) || checkIn)
      ensures old(isWorking) ==> !checkIn && shown == None && Model() == old(Model()).(isWorking := false)
    {
      if !isWorking {
        isWorking := true;
        checkIn, shown := Tick();
      } else {
        isWorking := false;
        checkIn, shown := false, None;
      }
    }

    /**
     * One pass of the timer loop. While working: one more second, the label
     * and bar for the new count, and the check-in dialog opened when the new
     * count is a positive multiple of 15 minutes; `checkIn` says whether it
     * was. When not working the loop has ended: nothing changes or is shown.
     */
    method Tick() returns (checkIn: bool, shown: Option<Display>)
      requires Valid()
      modifies this
      ensures Valid()
      ensures old(isWorking) ==> checkIn == IsCheckIn(old(workedSeconds) + 1)
      ensures old(isWorking) ==> shown == Some(Display(FormatHms(old(workedSeconds) + 1),
                                                       Progress(old(workedSeconds) + 1, old(dailyTarget))))
      ensures old(isWorking) ==> Model() == old(Model()).(
        workedSeconds := old(workedSeconds) + 1,
        checkInPending := old(checkInPending) || checkIn)
      ensures !old(isWorking) ==> !checkIn && shown == None && Model() == old(Model())
    {
      checkIn, shown := false, None;
      if isWorking {
        workedSeconds := workedSeconds + 1;
        shown := Some(Display(FormatHms(workedSeconds), Progress(workedSeconds, dailyTarget)));
        if workedSeconds % CheckInInterval == 0 && workedSeconds > 0 {
          checkInPending := true;
          checkIn := true;
        }
      }
    }

    /**
     * `n` passes of the timer loop. While working the count grows by exactly
     * `n`, and `fired` lists the counts at which the dialog opened: every
     * multiple of 15 minutes passed, once each, in order, and no other count.
     */
    method RunTicks(n: nat) returns (fired: seq<nat>)
      requires Valid()
      modifies this
      ensures Valid()
      ensures old(isWorking) ==> fired == CheckInsIn(old(workedSeconds), old(workedSeconds) + n)
      ensures old(isWorking) ==> Model() == old(Model()).(
        workedSeconds := old(workedSeconds) + n,
        checkInPending := old(checkInPending) || fired != [])
      ensures !old(isWorking) ==> fired == [] && Model() == old(Model())
    {
      fired := [];
      var i := 0;
      while i < n
        invariant 0 <= i <= n && Valid()
        invariant old(isWorking) ==> fired == CheckInsIn(old(workedSeconds), old(workedSeconds) + i)
        invariant old(isWorking) ==> Model() == old(Model()).(
          workedSeconds := old(workedSeconds) + i,
          checkInPending := old(checkInPending) || fired != [])
        invariant !old(isWorking) ==> fired == [] && Model() == old(Model())
      {
        var checkIn, _ := Tick();
        if checkIn {
          fired := fired + [workedSeconds];
        }
        i := i + 1;
      }
    }

    /**
     * A choice in the goal dropdown. It takes effect only for one of the
     * offered values and only while not working (the dropdown is disabled
     * then); otherwise nothing changes.
     */
    method SetTarget(choice: nat) returns (accepted: bool)
      requires Valid()
      modifies this
      ensures Valid()
      ensures accepted <==> !old(isWorking) && choice in TargetOptions
      ensures Model() == if accepted then old(Model()).(dailyTarget := choice) else old(Model())
    {
      accepted := !isWorking && choice in TargetOptions;
      if accepted {
        dailyTarget := choice;
      }
    }

    /** The user edits the note field of the open dialog. */
    method EditNote(text: string)
      requires Valid() && checkInPending
      modifies this
      ensures Valid()
      ensures Model() == old(Model()).(noteInput := text)
    {
      noteInput := text;
    }

    /**
     * The yes or no button of the open check-in dialog: one row with the
     * answer's text and score, the note field cleared, the dialog closed.
     */
    method Answer(productive: bool)
      requires Valid() && checkInPending
      modifies this
      ensures Valid()
      ensures Model() == old(Model()).(
        log := Record(old(log), Activity(productive, old(noteInput)), Score(productive)),
        noteInput := "",
        checkInPending := false)
    {
      LogActivity(Activity(productive, noteInput), Score(productive));
      noteInput := "";
      checkInPending := false;
    }

    /** The user edits the task field. */
    method EditTaskInput(text: string)
      requires Valid()
      modifies this
      ensures Valid()
      ensures Model() == old(Model()).(taskInput := text)
    {
      taskInput := text;
    }

    /** The add button: an empty field adds nothing; otherwise its text becomes the last row and the field is cleared. */
    method AddTask() returns (added: bool)
      requires Valid()
      modifies this
      ensures Valid()
      ensures added <==> old(taskInput) != ""
      ensures Model() == if added then old(Model()).(tasks := old(tasks) + [old(taskInput)], taskInput := "")
                         else old(Model())
    {
      added := taskInput != "";
      if added {
        tasks := tasks + [taskInput];
        taskInput := "";
      }
    }

    /** The delete button of row `i`: that row goes, the others keep their order. */
    method DeleteTask(i: nat)
      requires Valid() && i < |tasks|
      modifies this
      ensures Valid()
      ensures Model() == old(Model()).(tasks := RemoveAt(old(tasks), i))
    {
      tasks := RemoveAt(tasks, i);
    }

    /** The focus button of row `i`: that row's text becomes the current focus. */
    method SetFocus(i: nat)
      requires Valid() && i < |tasks|
      modifies this
      ensures Valid()
      ensures Model() == old(Model()).(currentFocus := old(tasks)[i])
    {
      currentFocus := tasks[i];
    }
  }
}
