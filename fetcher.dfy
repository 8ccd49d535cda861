/**
  The fetch script: turns a GitLab issue or merge request into the JSON
  record of a time-tracker task. Also home of the duration <-> "HH:MM"
  helpers, the group/subgroup project table and the task-name pattern,
  which the spend script shares.
*/
module Fetcher {
  import opened Wrappers
  import opened Text
  import opened Times
  import opened Gitlab

  // ---------------------------------------------------------------------
  // Duration helpers

  /**
    "%02d:%02d" % (td.days + hours, minutes), with hours and minutes taken
    from td.seconds; leftover seconds are dropped.
  */
  function TimedeltaToStr(td: Timedelta): string {
    var hours := td.seconds / 3600;
    var minutes := td.seconds % 3600 / 60;
    PadInt(td.days + hours, 2) + ":" + PadInt(minutes, 2)
  }

  /**
    The two fields of TimedeltaToStr: the hour field is the day count plus
    the whole hours of td.seconds, so a day adds one to it, not 24; the
    minute field is two digits between 00 and 59.
  */
  lemma TimedeltaToStrFields(td: Timedelta)
    ensures var parts := Split(TimedeltaToStr(td), ':');
      && |parts| == 2
      && parts == [PadInt(td.days + td.seconds / 3600, 2), PadInt(td.seconds % 3600 / 60, 2)]
      && |parts[0]| >= 2 && ParseInt(parts[0]) == Some(td.days + td.seconds / 3600)
      && |parts[1]| == 2 && AllDigits(parts[1]) && ParseInt(parts[1]) == Some(td.seconds % 3600 / 60)
  {
    var hours, minutes := td.days + td.seconds / 3600, td.seconds % 3600 / 60;
    var h, m := PadInt(hours, 2), PadInt(minutes, 2);
    PadIntRoundTrip(hours, 2);
    PadIntRoundTrip(minutes, 2);
    assert Pow10(2) == 100;
    PadFieldDigits(minutes, 2);
    assert TimedeltaToStr(td) == h + ":" + m;
    SplitFields(h, m, TimedeltaToStr(td));
  }

  /** Two integer literals joined by ':' split back into the two. */
  lemma SplitFields(h: string, m: string, s: string)
    requires ParseInt(h).Some? && ParseInt(m).Some? && s == h + ":" + m
    ensures Split(s, ':') == [h, m]
  {
    ParseIntChars(h, ':');
    ParseIntChars(m, ':');
    SplitTwo(h, m, ':');
  }

  /**
    str_to_timedelta: None or "" is the zero duration; otherwise the text
    must split on ':' into exactly two integers H and M, giving H hours and
    M minutes; any other shape raises ValueError, modelled as None.
  */
  function StrToTimedelta(estimate: Option<string>): (r: Option<Timedelta>)
    ensures estimate.None? || estimate.value == [] ==> r == Some(Zero)
    ensures estimate.Some? && estimate.value != [] && Count(estimate.value, ':') != 1 ==> r == None
  {
    if estimate.None? || estimate.value == [] then Some(Zero)
    else
      var parts := Split(estimate.value, ':');
      if |parts| != 2 then None
      else
        match (ParseInt(parts[0]), ParseInt(parts[1]))
        case (Some(hours), Some(minutes)) => Some(FromSeconds(hours * 3600 + minutes * 60))
        case _ => None
  }

  /** "H:M" with two integer fields is exactly H hours plus M minutes. */
  lemma StrToTimedeltaOfFields(h: string, m: string, hours: int, minutes: int)
    requires ParseInt(h) == Some(hours) && ParseInt(m) == Some(minutes)
    ensures StrToTimedelta(Some(h + ":" + m)) == Some(FromSeconds(hours * 3600 + minutes * 60))
    ensures TotalSeconds(StrToTimedelta(Some(h + ":" + m)).value) == hours * 3600 + minutes * 60
  {
    SplitFields(h, m, h + ":" + m);
  }

  /** Two pieces split from s join back into s around the separator. */
  lemma SplitPair(s: string)
    requires |Split(s, ':')| == 2
    ensures s == Split(s, ':')[0] + ":" + Split(s, ':')[1]
  {
    var parts := Split(s, ':');
    SplitJoin(s, ':');
    assert parts[1..] == [parts[1]];
  }

  /**
    A non-empty estimate parses exactly when it is two integer literals
    joined by one ':'; a non-integer field such as "a:5" or "1:" raises
    ValueError.
  */
  lemma StrToTimedeltaSomeIff(s: string)
    requires s != []
    ensures StrToTimedelta(Some(s)).Some?
            <==> exists h, m :: s == h + ":" + m && ParseInt(h).Some? && ParseInt(m).Some?
  {
    if StrToTimedelta(Some(s)).Some? {
      SplitPair(s);
      var parts := Split(s, ':');
      assert s == parts[0] + ":" + parts[1] && ParseInt(parts[0]).Some? && ParseInt(parts[1]).Some?;
    }
    if exists h, m :: s == h + ":" + m && ParseInt(h).Some? && ParseInt(m).Some? {
      var h, m :| s == h + ":" + m && ParseInt(h).Some? && ParseInt(m).Some?;
      StrToTimedeltaOfFields(h, m, ParseInt(h).value, ParseInt(m).value);
    }
  }

  /**
    Reading back what TimedeltaToStr wrote gives the duration truncated to
    whole minutes, with each day counted as one hour.
  */
  lemma TimedeltaStrRoundTrip(td: Timedelta)
    ensures StrToTimedelta(Some(TimedeltaToStr(td)))
            == Some(FromSeconds((td.days + td.seconds / 3600) * 3600 + td.seconds % 3600 / 60 * 60))
  {
    TimedeltaToStrFields(td);
    var parts := Split(TimedeltaToStr(td), ':');
    assert TimedeltaToStr(td) != [];
  }

  /** Whole hours and whole minutes of a multiple of 60 add back up to it. */
  lemma WholeMinutes(s: int)
    requires s % 60 == 0
    ensures s / 3600 * 3600 + s % 3600 / 60 * 60 == s
  {
    assert s == s / 3600 * 3600 + s % 3600;
    assert s % 3600 == s % 3600 / 60 * 60 + s % 3600 % 60;
  }

  /** A duration under a day and in whole minutes survives the round trip. */
  lemma TimedeltaStrRoundTripExact(td: Timedelta)
    requires td.days == 0 && td.seconds % 60 == 0
    ensures StrToTimedelta(Some(TimedeltaToStr(td))) == Some(td)
  {
    TimedeltaStrRoundTrip(td);
    WholeMinutes(td.seconds);
    FromTotalSeconds(td);
  }

  /** One more day adds exactly one to the hour field, though 86400 seconds to the duration. */
  lemma DayAddsOneHour(td: Timedelta)
    ensures var next := Timedelta(td.days + 1, td.seconds);
      && TotalSeconds(next) == TotalSeconds(td) + SecondsPerDay
      && ParseInt(Split(TimedeltaToStr(next), ':')[0]) == Some(td.days + td.seconds / 3600 + 1)
  {
    TimedeltaToStrFields(Timedelta(td.days + 1, td.seconds));
  }

  lemma TwoFifteenFields()
    ensures ParseInt("02") == Some(2) && ParseInt("15") == Some(15)
  {
    UnsignedParse("02");
    UnsignedParse("15");
    assert DigitsValue("02") == 2 && DigitsValue("15") == 15;
  }

  /** "02:15" is two hours and a quarter. */
  lemma StrToTimedeltaExample()
    ensures StrToTimedelta(Some("02:15")) == Some(Timedelta(0, 8100))
  {
    TwoFifteenFields();
    StrToTimedeltaOfFields("02", "15", 2, 15);
    assert "02" + ":" + "15" == "02:15";
    assert FromSeconds(2 * 3600 + 15 * 60) == Timedelta(0, 8100);
  }

  /** Text that does not split into exactly two pieces fails to unpack. */
  lemma StrToTimedeltaRejectsExamples()
    ensures StrToTimedelta(Some("0215")) == None && StrToTimedelta(Some("1:2:3")) == None
  {
    assert Count("0215", ':') == 0;
    assert Count("1:2:3", ':') == 2;
  }

  /** A piece that is not an integer literal makes int() raise. */
  lemma StrToTimedeltaRejectsFields()
    ensures StrToTimedelta(Some("a:5")) == None && StrToTimedelta(Some("1:")) == None
  {
    SplitTwo("a", "5", ':');
    assert "a" + [':'] + "5" == "a:5";
    SplitTwo("1", "", ':');
    assert "1" + [':'] + "" == "1:";
  }

  /** One day and two hours is written "03:00". */
  lemma TimedeltaToStrExample()
    ensures TimedeltaToStr(Timedelta(1, 7200)) == "03:00"
  {
    var td := Timedelta(1, 7200);
    assert td.days + td.seconds / 3600 == 3 && td.seconds % 3600 / 60 == 0;
    assert TimedeltaToStr(td) == PadInt(3, 2) + ":" + PadInt(0, 2);
    assert PadInt(3, 2) == "03" && PadInt(0, 2) == "00";
    assert "03" + ":" + "00" == "03:00";
  }

  // ---------------------------------------------------------------------
  // Project table

  /** get_group_project_map: the table as shipped, which is empty. */
  function GroupProjectMap(): map<string, map<string, int>> {
    map[]
  }

  /**
    get_project_for_group: the project id configured for (group, subgroup),
    or None when the group or the subgroup under it is missing.
  */
  function ProjectForGroup(gpMap: map<string, map<string, int>>, group: string, subgroup: string): (r: Option<int>)
    ensures r.Some? <==> group in gpMap && subgroup in gpMap[group]
    ensures r.Some? ==> r.value == gpMap[group][subgroup]
  {
    if group !in gpMap then None
    else if subgroup !in gpMap[group] then None
    else Some(gpMap[group][subgroup])
  }

  /** With the shipped table no group resolves to a project. */
  lemma ShippedMapResolvesNothing(group: string, subgroup: string)
    ensures ProjectForGroup(GroupProjectMap(), group, subgroup) == None
  {
  }

  // ---------------------------------------------------------------------
  // Task names

  datatype TaskKind = IssueTask | MergeRequestTask

  /** What a task name refers to: an issue or a merge request, and its id. */
  datatype TaskRef = TaskRef(kind: TaskKind, id: nat)

  function KindPrefix(kind: TaskKind): char {
    match kind
    case IssueTask => 'i'
    case MergeRequestTask => 'm'
  }

  /**
    re.match(r'^(?P<type>i|m)(?P<id>\d+)$', name): 'i' names an issue, 'm' a
    merge request, and the digits that follow give the id.
  */
  function ParseTaskName(name: string): Option<TaskRef> {
    if |name| >= 2 && (name[0] == 'i' || name[0] == 'm') && AllDigits(name[1..]) then
      Some(TaskRef(if name[0] == 'i' then IssueTask else MergeRequestTask, DigitsValue(name[1..])))
    else None
  }

  /** The usual name of a task: its prefix letter and its id in decimal. */
  function TaskName(t: TaskRef): string {
    [KindPrefix(t.kind)] + NatString(t.id)
  }

  /** What a successful match tells about the name. */
  lemma ParseTaskNameFields(name: string, t: TaskRef)
    requires ParseTaskName(name) == Some(t)
    ensures |name| >= 2 && name[0] == KindPrefix(t.kind)
    ensures AllDigits(name[1..]) && t.id == DigitsValue(name[1..])
  {
  }

  /** A prefix letter followed by digits matches, with the digits' value as id. */
  lemma ParseTaskNameOf(kind: TaskKind, digits: string, name: string)
    requires name == [KindPrefix(kind)] + digits && |digits| >= 1 && AllDigits(digits)
    ensures ParseTaskName(name) == Some(TaskRef(kind, DigitsValue(digits)))
  {
    HeadTail(KindPrefix(kind), digits, name);
  }

  /** An accepted name is the prefix letter, some zeros and the id in decimal. */
  lemma ParseTaskNameShape(name: string, t: TaskRef) returns (k: nat)
    requires ParseTaskName(name) == Some(t)
    ensures name == [KindPrefix(t.kind)] + (Zeros(k) + NatString(t.id))
  {
    ParseTaskNameFields(name, t);
    var digits := name[1..];
    DigitsCanonical(digits);
    k := |digits| - |NatString(t.id)|;
    assert name == [name[0]] + digits;
  }

  /** The prefix letter, some zeros and the id in decimal is accepted as that task. */
  lemma ParseTaskNameOfShape(name: string, t: TaskRef, k: nat)
    requires name == [KindPrefix(t.kind)] + (Zeros(k) + NatString(t.id))
    ensures ParseTaskName(name) == Some(t)
  {
    LeadingZerosValue(k, NatString(t.id));
    NatStringValue(t.id);
    ParseTaskNameOf(t.kind, Zeros(k) + NatString(t.id), name);
  }

  /**
    The names the pattern accepts are exactly a prefix letter, any number
    of leading zeros and the id in decimal; the letter fixes the kind.
  */
  lemma ParseTaskNameExactly(name: string, t: TaskRef)
    ensures ParseTaskName(name) == Some(t)
            <==> exists k: nat :: name == [KindPrefix(t.kind)] + (Zeros(k) + NatString(t.id))
  {
    if ParseTaskName(name) == Some(t) {
      var k := ParseTaskNameShape(name, t);
    }
    if exists k: nat :: name == [KindPrefix(t.kind)] + (Zeros(k) + NatString(t.id)) {
      var k: nat :| name == [KindPrefix(t.kind)] + (Zeros(k) + NatString(t.id));
      ParseTaskNameOfShape(name, t, k);
    }
  }

  /** The usual name of a task parses back to it. */
  lemma TaskNameRoundTrip(t: TaskRef)
    ensures ParseTaskName(TaskName(t)) == Some(t)
  {
    NatStringValue(t.id);
    ParseTaskNameOf(t.kind, NatString(t.id), TaskName(t));
  }

  lemma TaskNameExamples()
    ensures ParseTaskName("i42") == Some(TaskRef(IssueTask, 42))
    ensures ParseTaskName("m7") == Some(TaskRef(MergeRequestTask, 7))
    ensures ParseTaskName("x1") == None && ParseTaskName("42") == None
    ensures ParseTaskName("i") == None && ParseTaskName("i4a") == None
  {
    TaskNameRoundTrip(TaskRef(IssueTask, 42));
    TaskNameRoundTrip(TaskRef(MergeRequestTask, 7));
    assert NatString(42) == "42" && NatString(7) == "7";
    assert TaskName(TaskRef(IssueTask, 42)) == "i42";
    assert TaskName(TaskRef(MergeRequestTask, 7)) == "m7";
    assert "i4a"[1..][1] == 'a';
  }

  // ---------------------------------------------------------------------
  // Task records

  /** A value under "properties": a string or a list of strings. */
  datatype PropValue = Str(text: string) | StrList(items: seq<string>)

  /** The JSON record saved for a task. */
  datatype TaskData = TaskData(title: string, properties: map<string, PropValue>)

  /** A Python exception that ends the script. */
  datatype Error = GetError | ValueError

  /** get_issue_estimate: not implemented, so every issue has no estimate. */
  function IssueEstimate(issue: Issue): Option<string> {
    None
  }

  /** Python truthiness of an optional string. */
  predicate Truthy(s: Option<string>) {
    s.Some? && s.value != []
  }

  /**
    issue_to_task_data: look the issue up (a missing one is reported and
    gives None), record its title, id and state, and add the estimate only
    when there is a non-empty one.
  */
  method IssueToTaskData(iid: int, project: Project, estimateOf: Issue -> Option<string>)
    returns (data: Option<TaskData>)
    ensures data.None? <==> iid !in project.issues
    ensures data.Some? ==>
      var issue := project.issues[iid];
      var estimate := estimateOf(issue);
      && data.value.title == issue.title
      && data.value.properties.Keys == {"issues", "status"} + (if Truthy(estimate) then {"estimate"} else {})
      && data.value.properties["issues"] == Str(IntString(iid))
      && data.value.properties["status"] == Str(issue.state)
      && (Truthy(estimate) ==> data.value.properties["estimate"] == Str(estimate.value))
  {
    if iid !in project.issues {
      return None;
    }
    var issue := project.issues[iid];
    var properties := map["issues" := Str(IntString(iid)), "status" := Str(issue.state)];
    var estimate := estimateOf(issue);
    if Truthy(estimate) {
      properties := properties["estimate" := Str(estimate.value)];
    }
    data := Some(TaskData(issue.title, properties));
  }

  /**
    sum([str_to_timedelta(get_issue_estimate(i)) for i in issues], timedelta(0))
    in seconds, or None when one of the estimates raises ValueError.
  */
  function EstimateSeconds(issues: seq<Issue>, estimateOf: Issue -> Option<string>): Option<int> {
    if issues == [] then Some(0)
    else
      match (EstimateSeconds(issues[..|issues| - 1], estimateOf), StrToTimedelta(estimateOf(issues[|issues| - 1])))
      case (Some(total), Some(td)) => Some(total + TotalSeconds(td))
      case _ => None
  }

  /** The sum fails exactly when some issue's estimate does not parse. */
  lemma {:induction false} EstimateFailsIff(issues: seq<Issue>, estimateOf: Issue -> Option<string>)
    ensures EstimateSeconds(issues, estimateOf).None?
            <==> exists k :: 0 <= k < |issues| && StrToTimedelta(estimateOf(issues[k])).None?
  {
    if issues != [] {
      var prefix := issues[..|issues| - 1];
      EstimateFailsIff(prefix, estimateOf);
      assert forall k | 0 <= k < |prefix| :: prefix[k] == issues[k];
    }
  }

  /** Summing one more issue's estimate. */
  lemma EstimateSecondsSnoc(issues: seq<Issue>, estimateOf: Issue -> Option<string>, i: nat)
    requires i < |issues|
    ensures var sum, td := EstimateSeconds(issues[..i], estimateOf), StrToTimedelta(estimateOf(issues[i]));
      EstimateSeconds(issues[..i + 1], estimateOf)
      == if sum.Some? && td.Some? then Some(sum.value + TotalSeconds(td.value)) else None
  {
    assert issues[..i + 1][..i] == issues[..i];
  }

  /** With the stub estimate every sum is zero. */
  lemma {:induction false} StubEstimateIsZero(issues: seq<Issue>)
    ensures EstimateSeconds(issues, IssueEstimate) == Some(0)
  {
    if issues != [] {
      StubEstimateIsZero(issues[..|issues| - 1]);
    }
  }

  /** [str(issue.iid) for issue in closes]: one id per closed issue, in order. */
  method ClosedIssueIds(closes: seq<Issue>) returns (ids: seq<string>)
    ensures |ids| == |closes|
    ensures forall k | 0 <= k < |closes| :: ParseInt(ids[k]) == Some(closes[k].iid)
    ensures forall k | 0 <= k < |closes| :: ids[k] == IntString(closes[k].iid)
  {
    ids := [];
    var i := 0;
    while i < |closes|
      invariant 0 <= i <= |closes| && |ids| == i
      invariant forall k | 0 <= k < i :: ids[k] == IntString(closes[k].iid)
    {
      ids := ids + [IntString(closes[i].iid)];
      i := i + 1;
    }
    forall k | 0 <= k < |closes|
      ensures ParseInt(ids[k]) == Some(closes[k].iid)
    {
      IntStringRoundTrip(closes[k].iid);
    }
  }

  /**
    The sum of the closed issues' estimates in seconds, or None as soon as
    one of them raises ValueError.
  */
  method SumEstimates(closes: seq<Issue>, estimateOf: Issue -> Option<string>) returns (total: Option<int>)
    ensures total == EstimateSeconds(closes, estimateOf)
    ensures total.None? <==> exists k :: 0 <= k < |closes| && StrToTimedelta(estimateOf(closes[k])).None?
  {
    EstimateFailsIff(closes, estimateOf);
    var sum := 0;
    var i := 0;
    while i < |closes|
      invariant 0 <= i <= |closes|
      invariant EstimateSeconds(closes[..i], estimateOf) == Some(sum)
    {
      EstimateSecondsSnoc(closes, estimateOf, i);
      var estimate := StrToTimedelta(estimateOf(closes[i]));
      if estimate.None? {
        return None;
      }
      sum := sum + TotalSeconds(estimate.value);
      i := i + 1;
    }
    assert closes[..i] == closes;
    total := Some(sum);
  }

  /**
    mergerequest_to_task_data: look the merge request up (a missing one
    raises GitlabGetError, which is not caught), record its title and id,
    the ids of the issues it closes in order, and their summed estimate
    when it is positive.
  */
  method MergeRequestToTaskData(mid: int, project: Project, estimateOf: Issue -> Option<string>)
    returns (r: Result<TaskData, Error>)
    ensures mid !in project.mergeRequests ==> r == Failure(GetError)
    ensures mid in project.mergeRequests ==>
      var mr := project.mergeRequests[mid];
      var closes := mr.closesIssues;
      match EstimateSeconds(closes, estimateOf)
      case None => r == Failure(ValueError)
      case Some(total) =>
        && r.Success?
        && r.value.title == mr.title
        && r.value.properties.Keys == {"merge-request", "issues"} + (if total > 0 then {"estimate"} else {})
        && r.value.properties["merge-request"] == Str(IntString(mid))
        && r.value.properties["issues"].StrList?
        && |r.value.properties["issues"].items| == |closes|
        && (forall k | 0 <= k < |closes| :: r.value.properties["issues"].items[k] == IntString(closes[k].iid))
        && (total > 0 ==> r.value.properties["estimate"] == Str(TimedeltaToStr(FromSeconds(total))))
  {
    if mid !in project.mergeRequests {
      return Failure(GetError);
    }
    var mr := project.mergeRequests[mid];
    var properties := map["merge-request" := Str(IntString(mid))];
    var closes := mr.closesIssues;

    var ids := ClosedIssueIds(closes);
    properties := properties["issues" := StrList(ids)];
    var estimate := SumEstimates(closes, estimateOf);
    if estimate.None? {
      return Failure(ValueError);
    }
    var total := estimate.value;
    if total > 0 {
      properties := properties["estimate" := Str(TimedeltaToStr(FromSeconds(total)))];
    }
    r := Success(TaskData(mr.title, properties));
  }

  /** How one run of the fetch script ends. */
  datatype FetchOutcome =
    | NoProject             // "Could not choose a project to use."
    | UnrecognizedTaskName  // "Unrecognized task name pattern."
    | NoData                // "Could not fetch any data."
    | Saved(data: TaskData) // the record written to the task's JSON file
    | Raised(error: Error)  // an exception ended the script

  /**
    cli of the fetch script, with the project table and the server as
    parameters and the stub estimate: resolve the project, parse the task
    name, build the record, and save it.
  */
  method Cli(gpMap: map<string, map<string, int>>, server: Server, group: string, subgroup: string, task: string)
    returns (outcome: FetchOutcome)
    ensures var pid := ProjectForGroup(gpMap, group, subgroup);
      var t := ParseTaskName(task);
      if pid.None? then outcome == NoProject
      else if pid.value !in server then outcome == Raised(GetError)
      else if t.None? then outcome == UnrecognizedTaskName
      else
        var project := server[pid.value];
        var id := t.value.id;
        if t.value.kind == IssueTask then
          if id in project.issues then
            && outcome.Saved?
            && outcome.data.title == project.issues[id].title
            && outcome.data.properties.Keys == {"issues", "status"}
          else outcome == NoData
        else
          if id in project.mergeRequests then
            && outcome.Saved?
            && outcome.data.title == project.mergeRequests[id].title
            && outcome.data.properties.Keys == {"merge-request", "issues"}
          else outcome == Raised(GetError)
  {
    var pid := ProjectForGroup(gpMap, group, subgroup);
    if pid.None? {
      return NoProject;
    }
    if pid.value !in server {
      return Raised(GetError);
    }
    var project := server[pid.value];
    var t := ParseTaskName(task);
    if t.None? {
      return UnrecognizedTaskName;
    }
    if t.value.kind == IssueTask {
      var data := IssueToTaskData(t.value.id, project, IssueEstimate);
      if data.None? {
        return NoData;
      }
      outcome := Saved(data.value);
    } else {
      if t.value.id in project.mergeRequests {
        StubEstimateIsZero(project.mergeRequests[t.value.id].closesIssues);
      }
      var r := MergeRequestToTaskData(t.value.id, project, IssueEstimate);
      if r.Failure? {
        return Raised(r.error);
      }
      outcome := Saved(r.value);
    }
  }
}
