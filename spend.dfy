/**
  The spend script: posts the closed intervals of a task's logbook to a
  GitLab issue as "/spend" quick-action notes, one note per interval.
*/
module Spend {
  import opened Wrappers
  import opened Text
  import opened Times
  import opened Gitlab
  import Fetcher

  // ---------------------------------------------------------------------
  // The "/spend" note

  /** The whole hours of td.seconds; the days of td play no part. */
  function SpendHours(td: Timedelta): (h: nat)
    ensures h < 24
    ensures h * 3600 <= td.seconds < (h + 1) * 3600
  {
    td.seconds / 3600
  }

  /**
    The minutes of td.seconds within the hour, plus one when more than 30
    seconds are left over; 60 is not carried into the hours.
  */
  function SpendMinutes(td: Timedelta): (m: nat)
    ensures m <= 60
    ensures -30 <= SpendHours(td) * 3600 + m * 60 - td.seconds < 30
  {
    var remainder := td.seconds % 3600;
    var minutes := remainder / 60;
    var seconds := remainder % 60;
    assert td.seconds == SpendHours(td) * 3600 + minutes * 60 + seconds;
    if seconds > 30 then minutes + 1 else minutes
  }

  /**
    The minute count is the only one that puts the rendered time within
    [-30, +30) seconds of td.seconds: rounding to the nearest minute, with
    half a minute rounded down.
  */
  lemma SpendMinutesUnique(td: Timedelta, m: int)
    requires -30 <= SpendHours(td) * 3600 + m * 60 - td.seconds < 30
    ensures m == SpendMinutes(td)
  {
    var d := (m - SpendMinutes(td)) * 60;
    assert -60 < d < 60;
  }

  /** The minute count reaches 60 exactly when the last 29 seconds of an hour are reached. */
  lemma SixtyMinutes(td: Timedelta)
    ensures SpendMinutes(td) == 60 <==> td.seconds % 3600 >= 3571
  {
    var r := td.seconds % 3600;
    assert td.seconds == SpendHours(td) * 3600 + r;
  }

  /** to_gitlab_spend_string: "/spend {h}h{m}min YYYY-MM-DD". */
  function ToSpendString(td: Timedelta, date: Date): string {
    "/spend " + IntString(SpendHours(td)) + "h" + IntString(SpendMinutes(td)) + "min " + DateString(date)
  }

  /** The fields a "/spend" note carries. */
  datatype SpendCommand = SpendCommand(hours: nat, minutes: nat, date: Date)

  /** A decimal number followed by marker: the number and the text after the marker. */
  function ReadNumber(s: string, marker: string): Option<(nat, string)> {
    var k := LeadingDigits(s);
    var after := s[k..];
    if k == 0 || |after| < |marker| || after[..|marker|] != marker then None
    else Some((DigitsValue(s[..k]), after[|marker|..]))
  }

  /** Digits followed by text that starts with a non-digit: the digit prefix and what follows. */
  lemma NumberPrefix(digits: string, tail: string, s: string)
    requires AllDigits(digits) && (tail == [] || !IsDigit(tail[0]))
    requires s == digits + tail
    ensures LeadingDigits(s) == |digits| && s[..|digits|] == digits && s[|digits|..] == tail
  {
    LeadingDigitsOf(digits, tail);
  }

  /** The marker at the head of marker + rest, and the rest after it. */
  lemma MarkerPrefix(marker: string, rest: string, tail: string)
    requires tail == marker + rest
    ensures |tail| >= |marker| && tail[..|marker|] == marker && tail[|marker|..] == rest
  {
  }

  /** A digit string followed by a marker that starts with a non-digit reads back. */
  lemma ReadNumberOfDigits(digits: string, marker: string, rest: string, s: string)
    requires |digits| >= 1 && AllDigits(digits)
    requires marker != [] && !IsDigit(marker[0])
    requires s == digits + (marker + rest)
    ensures ReadNumber(s, marker) == Some((DigitsValue(digits), rest))
  {
    var tail := marker + rest;
    assert tail[0] == marker[0];
    NumberPrefix(digits, tail, s);
    MarkerPrefix(marker, rest, tail);
  }

  /** A rendered number followed by a marker that starts with a non-digit reads back. */
  lemma ReadNumberOf(n: nat, marker: string, rest: string)
    requires marker != [] && !IsDigit(marker[0])
    ensures ReadNumber(NatString(n) + (marker + rest), marker) == Some((n, rest))
  {
    NatStringValue(n);
    ReadNumberOfDigits(NatString(n), marker, rest, NatString(n) + (marker + rest));
  }

  /** Reads a "/spend {h}h{m}min YYYY-MM-DD" note back into its fields. */
  function ParseSpendString(s: string): Option<SpendCommand> {
    if |s| < 7 || s[..7] != "/spend " then None
    else
      match ReadNumber(s[7..], "h")
      case None => None
      case Some((hours, afterHours)) =>
        match ReadNumber(afterHours, "min ")
        case None => None
        case Some((minutes, afterMinutes)) =>
          match ParseDate(afterMinutes)
          case None => None
          case Some(date) => Some(SpendCommand(hours, minutes, date))
  }

  /** Where the fields of "/spend {h}h{m}min {d}" sit. */
  lemma SpendTextShape(h: string, m: string, d: string, s: string)
    requires s == "/spend " + h + "h" + m + "min " + d
    ensures |s| >= 7 && s[..7] == "/spend " && s[7..] == h + ("h" + (m + ("min " + d)))
  {
    assert s == "/spend " + (h + ("h" + (m + ("min " + d))));
  }

  /** How the parser reads a note whose fields each read back. */
  lemma ParseSpendFields(s: string, afterHours: string, d: string, cmd: SpendCommand)
    requires |s| >= 7 && s[..7] == "/spend "
    requires ReadNumber(s[7..], "h") == Some((cmd.hours, afterHours))
    requires ReadNumber(afterHours, "min ") == Some((cmd.minutes, d))
    requires ParseDate(d) == Some(cmd.date)
    ensures ParseSpendString(s) == Some(cmd)
  {
  }

  /** Any "/spend" text with unpadded fields reads back as those fields. */
  lemma SpendTextRoundTrip(hours: nat, minutes: nat, date: Date)
    ensures ParseSpendString("/spend " + IntString(hours) + "h" + IntString(minutes) + "min " + DateString(date))
            == Some(SpendCommand(hours, minutes, date))
  {
    IntStringRoundTrip(hours);
    IntStringRoundTrip(minutes);
    var h, m, d := NatString(hours), NatString(minutes), DateString(date);
    var s := "/spend " + h + "h" + m + "min " + d;
    SpendTextShape(h, m, d, s);
    ReadNumberOf(hours, "h", m + ("min " + d));
    ReadNumberOf(minutes, "min ", d);
    DateStringRoundTrip(date);
    ParseSpendFields(s, m + ("min " + d), d, SpendCommand(hours, minutes, date));
  }

  /** The note is unambiguous: it reads back as its hours, minutes and date. */
  lemma SpendStringRoundTrip(td: Timedelta, date: Date)
    ensures ParseSpendString(ToSpendString(td, date))
            == Some(SpendCommand(SpendHours(td), SpendMinutes(td), date))
  {
    SpendTextRoundTrip(SpendHours(td), SpendMinutes(td), date);
  }

  /** The note for td and date, given how each of its three fields is written. */
  lemma SpendStringOf(td: Timedelta, date: Date, h: string, m: string, d: string)
    requires IntString(SpendHours(td)) == h && IntString(SpendMinutes(td)) == m && DateString(date) == d
    ensures ToSpendString(td, date) == "/spend " + h + "h" + m + "min " + d
  {
  }

  /** The day the examples below are dated. */
  const MarchFirst: Date := CalendarDate(2024, 3, 1)

  lemma DigitString(n: nat)
    requires n < 10
    ensures IntString(n) == [DigitChar(n)]
  {
    IntStringRoundTrip(n);
  }

  lemma SixtyString()
    ensures IntString(60) == "60"
  {
    IntStringRoundTrip(60);
    NatStringAppend(6, '0');
  }

  lemma MarchFirstFields()
    ensures PadInt(2024, 4) == "2024" && PadInt(3, 2) == "03" && PadInt(1, 2) == "01"
  {
    NatStringAppend(2, '0');
    NatStringAppend(20, '2');
    NatStringAppend(202, '4');
  }

  lemma MarchFirstString()
    ensures DateString(MarchFirst) == "2024-03-01"
  {
    MarchFirstFields();
    assert "2024" + "-" + "03" + "-" + "01" == "2024-03-01";
  }

  lemma NoCarryText()
    ensures "/spend " + "1" + "h" + "60" + "min " + "2024-03-01" == "/spend 1h60min 2024-03-01"
  {
  }

  /** 1h59m31s rounds up to 60 minutes and is written "1h60min", not "2h0min". */
  lemma NoCarryExample()
    ensures ToSpendString(Timedelta(0, 3600 + 59 * 60 + 31), MarchFirst) == "/spend 1h60min 2024-03-01"
  {
    var td := Timedelta(0, 7171);
    SixtyMinutes(td);
    assert SpendHours(td) == 1;
    DigitString(1);
    SixtyString();
    MarchFirstString();
    SpendStringOf(td, MarchFirst, "1", "60", "2024-03-01");
    NoCarryText();
  }

  lemma DaysIgnoredText()
    ensures "/spend " + "2" + "h" + "0" + "min " + "2024-03-01" == "/spend 2h0min 2024-03-01"
  {
  }

  /** One day and two hours is written "2h0min": the day is lost. */
  lemma DaysIgnoredExample()
    ensures ToSpendString(Timedelta(1, 2 * 3600), MarchFirst) == "/spend 2h0min 2024-03-01"
  {
    var td := Timedelta(1, 7200);
    assert SpendHours(td) == 2 && SpendMinutes(td) == 0;
    DigitString(2);
    DigitString(0);
    MarchFirstString();
    SpendStringOf(td, MarchFirst, "2", "0", "2024-03-01");
    DaysIgnoredText();
  }

  lemma HalfMinuteExamples()
    ensures SpendMinutes(Timedelta(0, 90)) == 1
    ensures SpendMinutes(Timedelta(0, 91)) == 2
  {
  }

  // ---------------------------------------------------------------------
  // The logbook

  /** One logbook interval: when work started and, once closed, when it stopped. */
  datatype Entry = Entry(clockIn: Timestamp, clockOut: Option<Timestamp>)

  /** A task record as the spend script reads it; only the logbook matters. */
  datatype Task = Task(logbook: Option<seq<Entry>>)

  /** task.get('logbook', []) */
  function Logbook(task: Task): seq<Entry> {
    if task.logbook.Some? then task.logbook.value else []
  }

  /** An entry the script posts: started at or after since, and closed. */
  predicate Spendable(e: Entry, since: Timestamp) {
    e.clockIn.seconds >= since.seconds && e.clockOut.Some?
  }

  /** The note for a closed entry: out - in, dated by the day it started. */
  function SpendBody(e: Entry): string
    requires e.clockOut.Some?
  {
    ToSpendString(Elapsed(e.clockIn, e.clockOut.value), e.clockIn.date)
  }

  /** The entries the script posts, in logbook order. */
  function SpentEntries(log: seq<Entry>, since: Timestamp): (r: seq<Entry>)
    ensures |r| <= |log|
    ensures forall e | e in r :: Spendable(e, since)
  {
    if log == [] then []
    else
      var last := log[|log| - 1];
      SpentEntries(log[..|log| - 1], since) + (if Spendable(last, since) then [last] else [])
  }

  /** The note of each closed entry, in order. */
  function Notes(entries: seq<Entry>): (r: seq<string>)
    requires forall e | e in entries :: e.clockOut.Some?
    ensures |r| == |entries|
  {
    if entries == [] then []
    else
      var n := |entries| - 1;
      Notes(entries[..n]) + [SpendBody(entries[n])]
  }

  /** The notes the script attempts for a logbook, in logbook order. */
  function SpendBodies(log: seq<Entry>, since: Timestamp): seq<string> {
    Notes(SpentEntries(log, since))
  }

  lemma AppendAssoc(a: seq<string>, b: seq<string>, c: seq<string>)
    ensures (a + b) + c == a + (b + c)
  {
  }

  /** Extending a logbook prefix by one entry keeps that entry, if it is spendable. */
  lemma SpentEntriesSnoc(log: seq<Entry>, since: Timestamp, i: nat)
    requires i < |log|
    ensures SpentEntries(log[..i + 1], since)
            == SpentEntries(log[..i], since) + (if Spendable(log[i], since) then [log[i]] else [])
  {
    assert log[..i + 1][..i] == log[..i];
  }

  lemma NotesSnoc(entries: seq<Entry>, e: Entry)
    requires forall x | x in entries :: x.clockOut.Some?
    requires e.clockOut.Some?
    ensures Notes(entries + [e]) == Notes(entries) + [SpendBody(e)]
  {
    assert (entries + [e])[..|entries|] == entries;
  }

  /** Extending a logbook prefix by one entry adds that entry's note, if it is spendable. */
  lemma SpendBodiesSnoc(log: seq<Entry>, since: Timestamp, i: nat)
    requires i < |log|
    ensures SpendBodies(log[..i + 1], since)
            == SpendBodies(log[..i], since) + (if Spendable(log[i], since) then [SpendBody(log[i])] else [])
  {
    var spent := SpentEntries(log[..i], since);
    SpentEntriesSnoc(log, since, i);
    if Spendable(log[i], since) {
      NotesSnoc(spent, log[i]);
    } else {
      assert spent + [] == spent;
    }
  }

  /** Posting follows the logbook: the entries of a + b posted are those of a, then those of b. */
  lemma {:induction false} SpentEntriesAppend(a: seq<Entry>, b: seq<Entry>, since: Timestamp)
    ensures SpentEntries(a + b, since) == SpentEntries(a, since) + SpentEntries(b, since)
  {
    if b == [] {
      assert a + b == a;
    } else {
      var b' := b[..|b| - 1];
      assert (a + b)[..|a + b| - 1] == a + b';
      SpentEntriesAppend(a, b', since);
    }
  }

  lemma {:induction false} NotesAppend(a: seq<Entry>, b: seq<Entry>)
    requires forall e | e in a + b :: e.clockOut.Some?
    ensures Notes(a + b) == Notes(a) + Notes(b)
  {
    if b != [] {
      var b' := b[..|b| - 1];
      var last := b[|b| - 1];
      assert a + b == (a + b') + [last];
      assert b == b' + [last];
      NotesAppend(a, b');
      NotesSnoc(a + b', last);
      NotesSnoc(b', last);
      AppendAssoc(Notes(a), Notes(b'), [SpendBody(last)]);
    } else {
      assert a + b == a;
    }
  }

  /** Attempts follow the logbook: the notes of a + b are those of a, then those of b. */
  lemma SpendBodiesAppend(a: seq<Entry>, b: seq<Entry>, since: Timestamp)
    ensures SpendBodies(a + b, since) == SpendBodies(a, since) + SpendBodies(b, since)
  {
    SpentEntriesAppend(a, b, since);
    NotesAppend(SpentEntries(a, since), SpentEntries(b, since));
  }

  /** An entry is posted exactly when it is in the logbook and spendable. */
  lemma {:induction false} SpentEntriesMembers(log: seq<Entry>, since: Timestamp, e: Entry)
    ensures e in SpentEntries(log, since) <==> e in log && Spendable(e, since)
  {
    if log != [] {
      var n := |log| - 1;
      SpentEntriesMembers(log[..n], since, e);
      SpentEntriesSnoc(log, since, n);
      assert log[..n + 1] == log;
      assert log == log[..n] + [log[n]];
    }
  }

  /** Nothing is attempted exactly when no entry is spendable. */
  lemma SpendBodiesEmpty(log: seq<Entry>, since: Timestamp)
    ensures SpendBodies(log, since) == [] <==> forall e | e in log :: !Spendable(e, since)
  {
    var spent := SpentEntries(log, since);
    if spent != [] {
      SpentEntriesMembers(log, since, spent[0]);
    }
    forall e | e in log && Spendable(e, since)
      ensures spent != []
    {
      SpentEntriesMembers(log, since, e);
    }
  }

  /** A note is among the notes of some entries exactly when one of them renders as it. */
  lemma {:induction false} NotesMembers(entries: seq<Entry>, body: string)
    requires forall e | e in entries :: e.clockOut.Some?
    ensures body in Notes(entries) <==> exists e | e in entries :: SpendBody(e) == body
  {
    if entries != [] {
      var n := |entries| - 1;
      var prefix, last := entries[..n], entries[n];
      assert entries == prefix + [last];
      NotesSnoc(prefix, last);
      NotesMembers(prefix, body);
    }
  }

  /** Every attempted note comes from a spendable entry, and every spendable entry gives one. */
  lemma SpendBodiesMembers(log: seq<Entry>, since: Timestamp, body: string)
    ensures body in SpendBodies(log, since)
            <==> exists e | e in log :: Spendable(e, since) && SpendBody(e) == body
  {
    var spent := SpentEntries(log, since);
    NotesMembers(spent, body);
    if body in SpendBodies(log, since) {
      var e :| e in spent && SpendBody(e) == body;
      SpentEntriesMembers(log, since, e);
    }
    if exists e | e in log :: Spendable(e, since) && SpendBody(e) == body {
      var e :| e in log && Spendable(e, since) && SpendBody(e) == body;
      SpentEntriesMembers(log, since, e);
    }
  }

  /** Of three entries, only the middle one, the spendable one, is posted. */
  lemma SpentEntriesExample(a: Entry, b: Entry, c: Entry, since: Timestamp)
    requires !Spendable(a, since) && Spendable(b, since) && !Spendable(c, since)
    ensures SpentEntries([a, b, c], since) == [b]
  {
    var log := [a, b, c];
    assert [a][..0] == [];
    assert SpentEntries([a], since) == [];
    assert [a, b][..1] == [a];
    assert SpentEntries([a, b], since) == [b];
    assert log[..2] == [a, b];
  }

  /**
    A logbook with one interval from 09:00 to 11:05 on 2024-03-01, an open
    one, and one that started before since gives a single note.
  */
  lemma SpendBodiesExample()
    ensures var day := MarchFirst;
      var since := Timestamp(9 * 3600, day);
      var closed := Entry(Timestamp(9 * 3600, day), Some(Timestamp(11 * 3600 + 5 * 60, day)));
      var open := Entry(Timestamp(12 * 3600, day), None);
      var early := Entry(Timestamp(8 * 3600, day), Some(Timestamp(9 * 3600, day)));
      SpendBodies([early, closed, open], since) == ["/spend 2h5min 2024-03-01"]
  {
    var day := MarchFirst;
    var since := Timestamp(9 * 3600, day);
    var closed := Entry(Timestamp(9 * 3600, day), Some(Timestamp(11 * 3600 + 5 * 60, day)));
    var open := Entry(Timestamp(12 * 3600, day), None);
    var early := Entry(Timestamp(8 * 3600, day), Some(Timestamp(9 * 3600, day)));
    SpentEntriesExample(early, closed, open, since);
    NotesSnoc([], closed);
    assert [] + [closed] == [closed];
    assert Elapsed(closed.clockIn, closed.clockOut.value) == Timedelta(0, 7500);
    TwoHoursFiveString();
  }

  lemma TwoHoursFiveText()
    ensures "/spend " + "2" + "h" + "5" + "min " + "2024-03-01" == "/spend 2h5min 2024-03-01"
  {
  }

  lemma TwoHoursFiveString()
    ensures ToSpendString(Timedelta(0, 7500), MarchFirst) == "/spend 2h5min 2024-03-01"
  {
    var td := Timedelta(0, 7500);
    assert SpendHours(td) == 2 && SpendMinutes(td) == 5;
    DigitString(2);
    DigitString(5);
    MarchFirstString();
    SpendStringOf(td, MarchFirst, "2", "5", "2024-03-01");
    TwoHoursFiveText();
  }

  /** The attempted notes that the server accepted, given the outcome of each attempt. */
  function Delivered(bodies: seq<string>, accepted: nat -> bool): (r: seq<string>)
    ensures |r| <= |bodies|
    ensures forall b | b in r :: b in bodies
  {
    if bodies == [] then []
    else
      var n := |bodies| - 1;
      Delivered(bodies[..n], accepted) + (if accepted(n) then [bodies[n]] else [])
  }

  /** One more attempt adds its note exactly when the server accepts it. */
  lemma DeliveredSnoc(bodies: seq<string>, body: string, accepted: nat -> bool)
    ensures Delivered(bodies + [body], accepted)
            == Delivered(bodies, accepted) + (if accepted(|bodies|) then [body] else [])
  {
    var attempted := bodies + [body];
    assert attempted[..|bodies|] == bodies && attempted[|bodies|] == body;
  }

  /** When the server accepts every note, every attempt becomes a note. */
  lemma {:induction false} AllAcceptedDeliversAll(bodies: seq<string>, accepted: nat -> bool)
    requires forall k: nat :: accepted(k)
    ensures Delivered(bodies, accepted) == bodies
  {
    if bodies != [] {
      AllAcceptedDeliversAll(bodies[..|bodies| - 1], accepted);
    }
  }

  /**
    add_spent_time: render the note, print it, and create it on the issue;
    a failed creation is caught and only printed.
  */
  method AddSpentTime(issue: Issue, td: Timedelta, date: Date, accepted: bool) returns (body: string)
    modifies issue
    ensures body == ToSpendString(td, date)
    ensures issue.notes == old(issue.notes) + (if accepted then [body] else [])
  {
    body := ToSpendString(td, date);
    issue.CreateNote(body, accepted);
  }

  /**
    spend_time_on: walk the logbook in order and post one note per
    spendable entry. accepted(k) is whether the k-th attempt succeeds; a
    failure does not stop the walk. Returns the printed note bodies.
  */
  method SpendTimeOn(issue: Issue, task: Task, since: Timestamp, accepted: nat -> bool)
    returns (printed: seq<string>)
    modifies issue
    ensures printed == SpendBodies(Logbook(task), since)
    ensures issue.notes == old(issue.notes) + Delivered(printed, accepted)
  {
    var log := Logbook(task);
    printed := [];
    var i := 0;
    while i < |log|
      invariant 0 <= i <= |log|
      invariant printed == SpendBodies(log[..i], since)
      invariant issue.notes == old(issue.notes) + Delivered(printed, accepted)
    {
      var entry := log[i];
      SpendBodiesSnoc(log, since, i);
      if entry.clockIn.seconds >= since.seconds && entry.clockOut.Some? {
        var body := AddSpentTime(issue, Elapsed(entry.clockIn, entry.clockOut.value), entry.clockIn.date, accepted(|printed|));
        ghost var sent := if accepted(|printed|) then [body] else [];
        DeliveredSnoc(printed, body, accepted);
        AppendAssoc(old(issue.notes), Delivered(printed, accepted), sent);
        printed := printed + [body];
      }
      i := i + 1;
    }
    assert log[..i] == log;
  }

  // ---------------------------------------------------------------------
  // The command line

  /** How one run of the spend script ends. */
  datatype SpendOutcome =
    | NoProject             // "Could not choose a project to use."
    | ProjectNotOnServer    // projects.get raised GitlabGetError
    | UnrecognizedTaskName  // "Unrecognized task name pattern."
    | NoIssue               // "No issue found with id: ..."
    | Spent                 // the logbook was walked

  /**
    The issue the spend script posts to, or why it stops first. The parsed
    id is looked up as an issue id whether the name starts with 'i' or 'm'.
  */
  function SpendTarget(gpMap: map<string, map<string, int>>, server: Server,
                       group: string, subgroup: string, name: string): (r: Result<Issue, SpendOutcome>)
    ensures var pid, t := Fetcher.ProjectForGroup(gpMap, group, subgroup), Fetcher.ParseTaskName(name);
      && (r.Success? <==> pid.Some? && pid.value in server && t.Some? && t.value.id in server[pid.value].issues)
      && (r.Success? ==> r.value == server[pid.value].issues[t.value.id] && r.value in AllIssues(server))
      && (pid.None? ==> r == Failure(NoProject))
      && (pid.Some? && pid.value !in server ==> r == Failure(ProjectNotOnServer))
      && (pid.Some? && pid.value in server && t.None? ==> r == Failure(UnrecognizedTaskName))
      && (pid.Some? && pid.value in server && t.Some? && t.value.id !in server[pid.value].issues ==> r == Failure(NoIssue))
  {
    var pid := Fetcher.ProjectForGroup(gpMap, group, subgroup);
    if pid.None? then Failure(NoProject)
    else if pid.value !in server then Failure(ProjectNotOnServer)
    else
      match Fetcher.ParseTaskName(name)
      case None => Failure(UnrecognizedTaskName)
      case Some(t) =>
        if t.id in server[pid.value].issues then Success(server[pid.value].issues[t.id])
        else Failure(NoIssue)
  }

  /** "i<id>" and "m<id>" lead to the same issue: the one with that id in the configured project. */
  lemma SpendTargetIgnoresKind(gpMap: map<string, map<string, int>>, server: Server,
                               group: string, subgroup: string, id: nat)
    ensures SpendTarget(gpMap, server, group, subgroup, Fetcher.TaskName(Fetcher.TaskRef(Fetcher.IssueTask, id)))
            == SpendTarget(gpMap, server, group, subgroup, Fetcher.TaskName(Fetcher.TaskRef(Fetcher.MergeRequestTask, id)))
    ensures var pid := Fetcher.ProjectForGroup(gpMap, group, subgroup);
      pid.Some? && pid.value in server && id in server[pid.value].issues ==>
        SpendTarget(gpMap, server, group, subgroup, Fetcher.TaskName(Fetcher.TaskRef(Fetcher.MergeRequestTask, id)))
        == Success(server[pid.value].issues[id])
  {
    Fetcher.TaskNameRoundTrip(Fetcher.TaskRef(Fetcher.IssueTask, id));
    Fetcher.TaskNameRoundTrip(Fetcher.TaskRef(Fetcher.MergeRequestTask, id));
  }

  /**
    cli of the spend script, with the project table, the server, the loaded
    task and the interpreted since as parameters: resolve the issue, then
    spend the logbook on it; nothing is posted when resolution stops.
  */
  method Cli(gpMap: map<string, map<string, int>>, server: Server, group: string, subgroup: string,
             name: string, task: Task, since: Timestamp, accepted: nat -> bool)
    returns (outcome: SpendOutcome, printed: seq<string>)
    modifies AllIssues(server)
    ensures match SpendTarget(gpMap, server, group, subgroup, name)
      case Failure(reason) =>
        && outcome == reason && printed == []
        && forall x | x in AllIssues(server) :: x.notes == old(x.notes)
      case Success(issue) =>
        && outcome == Spent
        && printed == SpendBodies(Logbook(task), since)
        && issue.notes == old(issue.notes) + Delivered(printed, accepted)
        && forall x | x in AllIssues(server) && x != issue :: x.notes == old(x.notes)
  {
    var target := SpendTarget(gpMap, server, group, subgroup, name);
    if target.Failure? {
      return target.error, [];
    }
    printed := SpendTimeOn(target.value, task, since, accepted);
    outcome := Spent;
  }
}
