/** The working entities of `TeamProcessor` (`be/processor.py`): the team
    records, the parse of one submitted row, and the size classification of
    `_process_team_data`. */
module Teams {

  import opened Wrappers
  import opened Collections
  import opened Text

  /** Submission times, ordered; 0 stands for `datetime.min`. */
  type Timestamp = nat

  const MIN_TIME: Timestamp := 0
  const TEAM_SIZE := 5
  /** The number of projects a complete preference list names. */
  const FULL_PREFERENCES := 25

  const LOGINS_KEY := "github-логины коллег по проекту через запятую"
  const PROJECTS_KEY := "Я хочу работать над проектом..."
  const TIME_KEY := "Время создания"

  /** One row of `csv.DictReader`: column name to cell text. */
  type Row = map<string, string>

  /** `row.get(key, '')`. */
  function Get(row: Row, key: string): (r: string)
    ensures key !in row ==> r == ""
  {
    if key in row then row[key] else ""
  }

  /** A team dict. `submissionTime` is absent exactly for the teams formed from
      leftover students; `assignedProject` is absent until allocation sets it. */
  datatype Team = Team(
    members: seq<string>,
    projects: seq<string>,
    submissionTime: Option<Timestamp>,
    allProjectsListed: bool,
    needsMoreStudents: bool,
    assignedProject: Option<string>)

  /** The submission time of a row: the parsed time, or `datetime.min` when the
      cell does not parse. */
  function SubmissionTime(field: string, parseTime: string -> Option<Timestamp>): (r: Timestamp)
    ensures parseTime(field).None? ==> r == MIN_TIME
    ensures parseTime(field).Some? ==> r == parseTime(field).value
  {
    parseTime(field).GetOr(MIN_TIME)
  }

  /** The team dict `_parse_team_row` returns for a row. */
  function ParseRow(row: Row, parseTime: string -> Option<Timestamp>): Team {
    var projects := ProjectTokens(Get(row, PROJECTS_KEY));
    Team(Logins(Get(row, LOGINS_KEY)), projects,
         Some(SubmissionTime(Get(row, TIME_KEY), parseTime)),
         |projects| >= FULL_PREFERENCES, false, None)
  }

  /** What a parsed row looks like: members are non-empty normalised logins,
      project tokens are non-empty and free of commas and whitespace, the
      completeness flag means at least 25 tokens, and the row has a time. */
  lemma ParseRowShape(row: Row, parseTime: string -> Option<Timestamp>)
    ensures var t := ParseRow(row, parseTime);
      (forall m :: m in t.members ==> m != "" && IsNormal(m) && ',' !in m)
      && (forall i :: 0 <= i < |t.projects| ==> t.projects[i] != "" && SepFree(t.projects[i]))
      && (t.allProjectsListed <==> |t.projects| >= FULL_PREFERENCES)
      && t.submissionTime.Some?
      && (parseTime(Get(row, TIME_KEY)).None? ==> t.submissionTime == Some(MIN_TIME))
      && !t.needsMoreStudents && t.assignedProject.None?
  {
    LoginsShape(Get(row, LOGINS_KEY));
    ProjectTokensShape(Get(row, PROJECTS_KEY));
  }

  /** `_parse_team_row`: the members are built with an append loop. */
  method ParseTeamRow(row: Row, parseTime: string -> Option<Timestamp>) returns (t: Team)
    ensures t == ParseRow(row, parseTime)
  {
    var logins := SplitComma(Get(row, LOGINS_KEY));
    var members: seq<string> := [];
    var i := 0;
    while i < |logins|
      invariant 0 <= i <= |logins|
      invariant members == NormalizedNonEmpty(logins[..i])
    {
      assert logins[..i + 1][..i] == logins[..i];
      var login := Normalize(logins[i]);
      if login != "" {
        members := members + [login];
      }
      i := i + 1;
    }
    assert logins[..i] == logins;
    var field := Get(row, PROJECTS_KEY);
    var projects: seq<string> := [];
    if field != "" {
      projects := CleanTokens(SplitSeps(field));
    }
    var listed := |projects| >= FULL_PREFERENCES;
    var time := SubmissionTime(Get(row, TIME_KEY), parseTime);
    t := Team(members, projects, Some(time), listed, false, None);
  }

  // ---------------------------------------------------------------------
  // Classification (`_process_team_data`)

  predicate IsOversized(t: Team) { |t.members| > TEAM_SIZE }
  predicate IsShort(t: Team) { |t.members| < TEAM_SIZE }
  predicate IsValidRow(t: Team) { |t.members| == TEAM_SIZE && t.allProjectsListed }
  predicate IsInvalidRow(t: Team) { |t.members| < TEAM_SIZE || (|t.members| == TEAM_SIZE && !t.allProjectsListed) }
  predicate IsKept(t: Team) { |t.members| <= TEAM_SIZE }

  /** The three working collections `_process_team_data` fills. */
  datatype Buckets = Buckets(valid: seq<Team>, invalid: seq<Team>, pool: set<string>)

  /** An under-sized team is flagged as needing students. */
  function MarkShort(t: Team): Team {
    if IsShort(t) then t.(needsMoreStudents := true) else t
  }

  /** One row of the classification loop. */
  function ClassifyRow(b: Buckets, t: Team): Buckets {
    if IsOversized(t) then b.(pool := b.pool + Elems(t.members))
    else if IsShort(t) then b.(invalid := b.invalid + [MarkShort(t)])
    else if t.allProjectsListed then b.(valid := b.valid + [t])
    else b.(invalid := b.invalid + [t])
  }

  /** The classification loop over the parsed rows, in row order. */
  function Classify(b: Buckets, ts: seq<Team>): Buckets
    decreases |ts|
  {
    if ts == [] then b else ClassifyRow(Classify(b, ts[..|ts| - 1]), ts[|ts| - 1])
  }

  /** `MarkShort` applied to every team, order kept. */
  function MarkAll(ts: seq<Team>): (r: seq<Team>)
    ensures |r| == |ts|
    ensures forall i :: 0 <= i < |ts| ==> r[i] == MarkShort(ts[i])
    decreases |ts|
  {
    if ts == [] then [] else MarkAll(ts[..|ts| - 1]) + [MarkShort(ts[|ts| - 1])]
  }

  /** Every login of every oversized team. */
  function OversizedMembers(ts: seq<Team>): set<string>
    decreases |ts|
  {
    if ts == [] then {}
    else
      OversizedMembers(ts[..|ts| - 1])
      + (if IsOversized(ts[|ts| - 1]) then Elems(ts[|ts| - 1].members) else {})
  }

  lemma {:induction false} OversizedMembersIn(ts: seq<Team>, m: string)
    ensures m in OversizedMembers(ts) <==>
      exists i :: 0 <= i < |ts| && IsOversized(ts[i]) && m in ts[i].members
    decreases |ts|
  {
    if ts != [] {
      var init := ts[..|ts| - 1];
      OversizedMembersIn(init, m);
      assert forall i :: 0 <= i < |init| ==> init[i] == ts[i];
    }
  }

  /** The declarative reading of the classification: valid teams are the rows
      of exactly five members with a complete preference list, invalid teams
      the other rows of at most five (short ones flagged), each in row order,
      and the pool gains every member of every oversized row. */
  function ClassifySpec(b: Buckets, ts: seq<Team>): Buckets {
    Buckets(b.valid + Filter(ts, IsValidRow),
            b.invalid + MarkAll(Filter(ts, IsInvalidRow)),
            b.pool + OversizedMembers(ts))
  }

  lemma MarkAllAppend(ts: seq<Team>, t: Team)
    ensures MarkAll(ts + [t]) == MarkAll(ts) + [MarkShort(t)]
  {
    assert (ts + [t])[..|ts + [t]| - 1] == ts;
  }

  lemma SpecValidStep(b: Buckets, init: seq<Team>, t: Team)
    ensures IsValidRow(t) ==> ClassifySpec(b, init + [t]).valid == ClassifySpec(b, init).valid + [t]
    ensures !IsValidRow(t) ==> ClassifySpec(b, init + [t]).valid == ClassifySpec(b, init).valid
  {
    FilterAppend(init, t, IsValidRow);
  }

  lemma SpecInvalidStep(b: Buckets, init: seq<Team>, t: Team)
    ensures IsInvalidRow(t) ==> ClassifySpec(b, init + [t]).invalid == ClassifySpec(b, init).invalid + [MarkShort(t)]
    ensures !IsInvalidRow(t) ==> ClassifySpec(b, init + [t]).invalid == ClassifySpec(b, init).invalid
  {
    FilterAppend(init, t, IsInvalidRow);
    MarkAllAppend(Filter(init, IsInvalidRow), t);
  }

  lemma SpecPoolStep(b: Buckets, init: seq<Team>, t: Team)
    ensures IsOversized(t) ==> ClassifySpec(b, init + [t]).pool == ClassifySpec(b, init).pool + Elems(t.members)
    ensures !IsOversized(t) ==> ClassifySpec(b, init + [t]).pool == ClassifySpec(b, init).pool
  {
    assert (init + [t])[..|init + [t]| - 1] == init;
  }

  lemma ClassifySpecStep(b: Buckets, init: seq<Team>, t: Team)
    ensures ClassifyRow(ClassifySpec(b, init), t) == ClassifySpec(b, init + [t])
  {
    SpecValidStep(b, init, t);
    SpecInvalidStep(b, init, t);
    SpecPoolStep(b, init, t);
  }

  /** The classification loop agrees with its declarative reading. */
  lemma {:induction false} ClassifyIsFilter(b: Buckets, ts: seq<Team>)
    ensures Classify(b, ts) == ClassifySpec(b, ts)
    decreases |ts|
  {
    if ts != [] {
      var init, t := ts[..|ts| - 1], ts[|ts| - 1];
      ClassifyIsFilter(b, init);
      ClassifySpecStep(b, init, t);
      assert init + [t] == ts;
    } else {
      assert Filter(ts, IsValidRow) == [] && Filter(ts, IsInvalidRow) == [];
      assert MarkAll([]) == [];
    }
  }

  /** Every row of at most five members yields exactly one team; oversized
      rows yield none. */
  lemma {:induction false} ClassifyCounts(ts: seq<Team>)
    ensures var b := Classify(Buckets([], [], {}), ts);
      |b.valid| + |b.invalid| == |Filter(ts, IsKept)|
      && |b.valid| + |b.invalid| + |Filter(ts, IsOversized)| == |ts|
    decreases |ts|
  {
    if ts != [] {
      var init, t := ts[..|ts| - 1], ts[|ts| - 1];
      ClassifyCounts(init);
      assert init + [t] == ts;
      FilterAppend(init, t, IsKept);
      FilterAppend(init, t, IsOversized);
    }
  }

  /** What each bucket holds after classification. */
  lemma ClassifyShape(b: Buckets, ts: seq<Team>)
    requires forall t :: t in b.valid ==> |t.members| == TEAM_SIZE && t.allProjectsListed
    requires forall t :: t in b.invalid ==> IsKept(t) && (t.needsMoreStudents <==> IsShort(t))
    requires forall t :: t in ts ==> !t.needsMoreStudents
    ensures var r := Classify(b, ts);
      (forall t :: t in r.valid ==> |t.members| == TEAM_SIZE && t.allProjectsListed && t in b.valid + ts)
      && (forall t :: t in r.invalid ==> IsKept(t) && (t.needsMoreStudents <==> IsShort(t)))
      && (forall t :: t in r.invalid && |t.members| == TEAM_SIZE ==> t in b.invalid || !t.allProjectsListed)
      && (forall i :: 0 <= i < |ts| && IsOversized(ts[i]) ==> Elems(ts[i].members) <= r.pool)
  {
    ClassifyIsFilter(b, ts);
    var r := Classify(b, ts);
    var inv := Filter(ts, IsInvalidRow);
    forall t | t in r.invalid
      ensures IsKept(t) && (t.needsMoreStudents <==> IsShort(t))
      ensures |t.members| == TEAM_SIZE ==> t in b.invalid || !t.allProjectsListed
    {
      if t !in b.invalid {
        var k :| 0 <= k < |MarkAll(inv)| && MarkAll(inv)[k] == t;
        assert inv[k] in ts;
      }
    }
    forall i | 0 <= i < |ts| && IsOversized(ts[i])
      ensures Elems(ts[i].members) <= r.pool
    {
      forall m | m in Elems(ts[i].members) ensures m in OversizedMembers(ts) {
        OversizedMembersIn(ts, m);
      }
    }
  }

  /** Classification keeps the shape the processor relies on: valid teams are
      full with a complete preference list, and invalid teams have at most
      five members and are flagged only while short. */
  lemma ClassifyKeepsShape(b: Buckets, ts: seq<Team>)
    requires forall i :: 0 <= i < |b.valid| ==> IsValidRow(b.valid[i])
    requires forall i :: 0 <= i < |b.invalid| ==>
      IsKept(b.invalid[i]) && (b.invalid[i].needsMoreStudents ==> IsShort(b.invalid[i]))
    requires forall i :: 0 <= i < |ts| ==> !ts[i].needsMoreStudents
    ensures var r := Classify(b, ts);
      (forall i :: 0 <= i < |r.valid| ==> IsValidRow(r.valid[i]))
      && (forall i :: 0 <= i < |r.invalid| ==>
            IsKept(r.invalid[i]) && (r.invalid[i].needsMoreStudents ==> IsShort(r.invalid[i])))
  {
    ClassifyIsFilter(b, ts);
    var r := Classify(b, ts);
    var fv, fi := Filter(ts, IsValidRow), Filter(ts, IsInvalidRow);
    forall i | 0 <= i < |r.valid| ensures IsValidRow(r.valid[i]) {
      if i >= |b.valid| {
        assert r.valid[i] == fv[i - |b.valid|];
        assert fv[i - |b.valid|] in fv;
      }
    }
    forall i | 0 <= i < |r.invalid|
      ensures IsKept(r.invalid[i]) && (r.invalid[i].needsMoreStudents ==> IsShort(r.invalid[i]))
    {
      if i >= |b.invalid| {
        var k := i - |b.invalid|;
        assert r.invalid[i] == MarkShort(fi[k]);
        assert fi[k] in fi;
        assert !fi[k].needsMoreStudents;
      }
    }
  }

  // ---------------------------------------------------------------------
  // The parsed rows and the students they name

  /** `_parse_team_row` applied to each row. */
  function ParseRows(rows: seq<Row>, parseTime: string -> Option<Timestamp>): (r: seq<Team>)
    ensures |r| == |rows|
  {
    seq(|rows|, i requires 0 <= i < |rows| => ParseRow(rows[i], parseTime))
  }

  /** The login list of each row. */
  function LoginLists(rows: seq<Row>): (r: seq<seq<string>>)
    ensures |r| == |rows|
  {
    seq(|rows|, i requires 0 <= i < |rows| => Logins(Get(rows[i], LOGINS_KEY)))
  }

  /** The classification loop, one more row. */
  lemma ClassifyPrefixStep(b: Buckets, ts: seq<Team>, i: int)
    requires 0 <= i < |ts|
    ensures Classify(b, ts[..i + 1]) == ClassifyRow(Classify(b, ts[..i]), ts[i])
  {
    assert ts[..i + 1][..i] == ts[..i];
  }

  /** Every normalised login of every row (`_collect_students_info`). */
  function StudentsOf(rows: seq<Row>): set<string> {
    UnionOf(LoginLists(rows))
  }

  /** The collected students are exactly the members of the parsed rows, so
      every team read from the file is made of collected students. */
  lemma StudentsOfMembers(rows: seq<Row>, parseTime: string -> Option<Timestamp>, m: string)
    ensures m in StudentsOf(rows) <==>
      exists i :: 0 <= i < |rows| && m in ParseRows(rows, parseTime)[i].members
  {
    UnionOfIn(LoginLists(rows), m);
    assert forall i :: 0 <= i < |rows| ==>
      ParseRows(rows, parseTime)[i].members == LoginLists(rows)[i];
  }

  /** Teams as `_parse_team_row` builds them: not flagged, no project yet,
      and a submission time. */
  predicate FreshTeams(ts: seq<Team>) {
    forall i :: 0 <= i < |ts| ==>
      !ts[i].needsMoreStudents && ts[i].assignedProject.None? && ts[i].submissionTime.Some?
  }

  /** Parsed rows are unflagged, carry no assignment and have a time. */
  lemma ParseRowsFresh(rows: seq<Row>, parseTime: string -> Option<Timestamp>)
    ensures FreshTeams(ParseRows(rows, parseTime))
  {
  }
}
