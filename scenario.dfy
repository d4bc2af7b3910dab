/**
 * A client of Session that uses only the contracts: a morning with a rejected
 * goal, a start that counts its first second at once, a first check-in that
 * stays open across a pause, an answer with a note, and a resumed session
 * that keeps its seconds.
 */
module Scenario {
  import opened Clock
  import opened ActivityLog
  import opened Discipline
  import opened Wrappers

  method Morning() {
    var s := new Session([]);
    var accepted := s.SetTarget(7);
    assert !accepted && s.dailyTarget == 10;

    // Starting runs the first pass of the loop at once.
    var checkIn, shown := s.Toggle();
    assert s.workedSeconds == 1 && !checkIn;
    accepted := s.SetTarget(8);
    assert !accepted;

    var fired := s.RunTicks(899);
    CheckInsInExact(1, 900);
    assert fired[0] in fired;
    assert fired == [900];
    assert s.checkInPending;

    // Pausing neither answers nor closes the dialog.
    checkIn, shown := s.Toggle();
    assert !s.isWorking && s.checkInPending && s.log == [] && s.workedSeconds == 900;
    accepted := s.SetTarget(8);
    assert accepted && s.dailyTarget == 8;

    s.EditNote("deep work");
    s.Answer(true);
    assert s.log == [LogEntry(1, Activity(true, "deep work"), 1)];
    assert s.noteInput == "" && !s.checkInPending;

    checkIn, shown := s.Toggle();
    assert s.workedSeconds == 901;
    fired := s.RunTicks(2823);
    checkIn, shown := s.Tick();
    FormatHmsExamples();
    assert !checkIn && shown == Some(Display("01:02:05", Progress(3725, 8)));
    assert s.workedSeconds == 3725;
  }
}
