/** `TeamProcessor`: the object that reads the form rows, classifies and
    completes teams, allocates projects and reports the outcome. Team dicts are
    `Team` values held in the sequence fields; an in-place update of a dict is
    the replacement of its element. */
module Processor {

  import opened Wrappers
  import opened Collections
  import opened Text
  import opened Teams
  import opened Completion
  import opened Allocation

  /** What `_prepare_result` reports for a team that never got a project. */
  const RANDOM := "random"

  /** A team as reported: members, project, and the submission time for valid
      and invalid teams (absent for other teams). */
  datatype TeamReport = TeamReport(members: seq<string>, assignedProject: string, submissionTime: Option<Timestamp>)

  datatype Result = Result(
    validTeams: seq<TeamReport>,
    invalidTeams: seq<TeamReport>,
    otherTeams: seq<TeamReport>,
    unassignedStudents: seq<string>)

  function Report(t: Team): TeamReport {
    TeamReport(t.members, t.assignedProject.GetOr(RANDOM), t.submissionTime)
  }

  function UntimedReport(t: Team): TeamReport {
    TeamReport(t.members, t.assignedProject.GetOr(RANDOM), None)
  }

  function Reports(ts: seq<Team>): (r: seq<TeamReport>)
    ensures |r| == |ts|
  {
    seq(|ts|, i requires 0 <= i < |ts| => Report(ts[i]))
  }

  function UntimedReports(ts: seq<Team>): (r: seq<TeamReport>)
    ensures |r| == |ts|
  {
    seq(|ts|, i requires 0 <= i < |ts| => UntimedReport(ts[i]))
  }

  /** A reported team shows its project, or "random" when it has none. */
  lemma ReportShape(t: Team)
    ensures Report(t).members == t.members && UntimedReport(t).members == t.members
    ensures t.assignedProject.None? ==> Report(t).assignedProject == RANDOM
    ensures t.assignedProject.Some? ==> Report(t).assignedProject == t.assignedProject.value
    ensures UntimedReport(t).assignedProject == Report(t).assignedProject
    ensures UntimedReport(t).submissionTime.None?
  {
  }

  predicate ValidTeamsOk(ts: seq<Team>) {
    forall i :: 0 <= i < |ts| ==> IsValidRow(ts[i])
  }

  predicate OtherTeamsOk(ts: seq<Team>) {
    forall i :: 0 <= i < |ts| ==>
      |ts[i].members| == TEAM_SIZE && ts[i].projects == [] && ts[i].submissionTime.None?
  }

  /** The valid teams stay valid through sorting and allocation. */
  lemma AllocatedValidOk(ts: seq<Team>, picks: seq<Option<string>>)
    requires ValidTeamsOk(ts) && |picks| == |ts|
    ensures ValidTeamsOk(ApplyPicks(SortByTime(ts), picks))
  {
    SortByTimeMembers(ts);
    var sorted := SortByTime(ts);
    forall i | 0 <= i < |sorted| ensures IsValidRow(sorted[i]) {
      var k :| 0 <= k < |ts| && ts[k] == sorted[i];
    }
  }

  /** The fallback walk changes only assignments, so invalid and other teams
      keep their shape. */
  lemma FallbackKeepsShape(inv: seq<Team>, oth: seq<Team>, out: seq<Team>,
                           remaining: seq<string>, catalog: set<string>)
    requires FallbackAssigned(inv + oth, out, remaining, catalog)
    requires WellFlagged(inv) && OtherTeamsOk(oth)
    ensures WellFlagged(out[..|inv|]) && OtherTeamsOk(out[|inv|..])
  {
    var walk := inv + oth;
    forall i | 0 <= i < |inv| ensures walk[i] == inv[i] && out[..|inv|][i] == out[i] {
    }
    forall i | 0 <= i < |oth| ensures walk[|inv| + i] == oth[i] && out[|inv|..][i] == out[|inv| + i] {
    }
  }

  /** Teams read from rows (and any valid teams already held, when they are
      unassigned) reach the allocation unassigned. */
  lemma ClassifiedUnassigned(b: Buckets, ts: seq<Team>)
    requires forall i :: 0 <= i < |b.valid| ==> b.valid[i].assignedProject.None?
    requires forall i :: 0 <= i < |ts| ==> ts[i].assignedProject.None?
    ensures var sorted := SortByTime(Classify(b, ts).valid);
      forall i :: 0 <= i < |sorted| ==> sorted[i].assignedProject.None?
  {
    ClassifyIsFilter(b, ts);
    var valid := Classify(b, ts).valid;
    var fv := Filter(ts, IsValidRow);
    forall i | 0 <= i < |valid| ensures valid[i].assignedProject.None? {
      if i >= |b.valid| {
        assert valid[i] == fv[i - |b.valid|];
        assert fv[i - |b.valid|] in fv;
      }
    }
    SortByTimeMembers(valid);
  }

  /** What `_fill_incomplete_teams` followed by `_form_teams_from_unassigned`
      leaves, from invalid teams `ts`, pool `pool` and other teams `others`,
      given the samples `picks` and the pool order `l`: the filled teams with
      no trickle, the pool cut into new other teams, and fewer than five
      students left over. */
  ghost predicate Completed(ts: seq<Team>, pool: set<string>, others: seq<Team>,
                            picks: seq<seq<string>>, l: seq<string>,
                            ts': seq<Team>, others': seq<Team>, pool': set<string>)
  {
    |picks| == |ts| && FillOk(ts, pool, picks)
    && var f := Fill(ts, pool, picks);
    IsEnumeration(l, f.pool) && ts' == f.teams
    && others' == others + OtherTeams(Chunks(l))
    && pool' == Elems(Leftover(l)) && |pool'| < TEAM_SIZE
  }

  /** What `_distribute_projects` leaves, from valid, invalid and other teams,
      given the shuffled unclaimed projects `remaining`: the valid teams sorted
      by time and given their first free preference, then the fallback walk
      over invalid and other teams. */
  ghost predicate Distributed(valid: seq<Team>, invalid: seq<Team>, other: seq<Team>, remaining: seq<string>,
                              valid': seq<Team>, invalid': seq<Team>, other': seq<Team>)
  {
    var sorted := SortByTime(valid);
    var catalog := Catalog(sorted + invalid + other);
    var vp := ValidPicks(sorted, catalog);
    valid' == ApplyPicks(sorted, vp)
    && IsEnumeration(remaining, catalog - Taken(vp))
    && |invalid'| == |invalid| && |other'| == |other|
    && FallbackAssigned(invalid + other, invalid' + other', remaining, catalog)
  }

  /** What one run of `process_teams` leaves behind, given the buckets `b0`
      and other teams `others0` it starts from, the teams `parsed` read from
      the rows, and the random choices made: `picks` (the samples of the fill),
      `l` (the order of the pool when teams are cut) and `remaining` (the
      shuffled unclaimed projects). The second call of
      `_form_teams_from_unassigned` has changed nothing; fewer than five
      students stay unassigned; and when every valid team starts unassigned and
      the catalog has a project per team, no project is given twice. */
  ghost predicate Processed(b0: Buckets, others0: seq<Team>, parsed: seq<Team>,
                            picks: seq<seq<string>>, l: seq<string>, remaining: seq<string>,
                            valid: seq<Team>, invalid: seq<Team>, other: seq<Team>, pool: set<string>)
  {
    match Classify(b0, parsed)
    case Buckets(valid0, invalid0, pool0) =>
      |picks| == |invalid0|
      && var filled := Fill(invalid0, pool0, picks).teams;
      var others := others0 + OtherTeams(Chunks(l));
      Completed(invalid0, pool0, others0, picks, l, filled, others, pool)
      && Distributed(valid0, filled, others, remaining, valid, invalid, other)
      && ((forall i :: 0 <= i < |b0.valid| ==> b0.valid[i].assignedProject.None?)
          && |Catalog(SortByTime(valid0) + filled + others)| >= |valid| + |invalid| + |other|
          ==> AssignmentsDistinct(valid + invalid + other))
  }

  /** The passes of `process_teams` compose: from what each pass promises
      about the state it leaves, the whole run is `Processed`, and the
      processor's shape invariant holds again. */
  lemma PassesCompose(b0: Buckets, others0: seq<Team>, parsed: seq<Team>,
                      picks: seq<seq<string>>, l: seq<string>,
                      i2: seq<Team>, o2: seq<Team>, u2: set<string>,
                      remaining: seq<string>, v3: seq<Team>, i3: seq<Team>, o3: seq<Team>)
    requires ValidTeamsOk(b0.valid) && WellFlagged(b0.invalid) && OtherTeamsOk(others0)
    requires FreshTeams(parsed)
    requires var b := Classify(b0, parsed);
      Completed(b.invalid, b.pool, others0, picks, l, i2, o2, u2)
    requires Distributed(Classify(b0, parsed).valid, i2, o2, remaining, v3, i3, o3)
    ensures Processed(b0, others0, parsed, picks, l, remaining, v3, i3, o3, u2)
    ensures ValidTeamsOk(v3) && WellFlagged(i3) && OtherTeamsOk(o3)
  {
    var b := Classify(b0, parsed);
    ComposedShape(b0, others0, parsed, picks, l, i2, o2, u2, remaining, v3, i3, o3);
    var catalog := Catalog(SortByTime(b.valid) + i2 + o2);
    if (forall i :: 0 <= i < |b0.valid| ==> b0.valid[i].assignedProject.None?)
       && |catalog| >= |v3| + |i3| + |o3| {
      ComposedUnique(b0, parsed, i2, o2, remaining, v3, i3, o3);
    }
  }

  /** The shape invariant of the processor survives the passes. */
  lemma ComposedShape(b0: Buckets, others0: seq<Team>, parsed: seq<Team>,
                      picks: seq<seq<string>>, l: seq<string>,
                      i2: seq<Team>, o2: seq<Team>, u2: set<string>,
                      remaining: seq<string>, v3: seq<Team>, i3: seq<Team>, o3: seq<Team>)
    requires ValidTeamsOk(b0.valid) && WellFlagged(b0.invalid) && OtherTeamsOk(others0)
    requires FreshTeams(parsed)
    requires var b := Classify(b0, parsed);
      Completed(b.invalid, b.pool, others0, picks, l, i2, o2, u2)
    requires Distributed(Classify(b0, parsed).valid, i2, o2, remaining, v3, i3, o3)
    ensures ValidTeamsOk(v3) && WellFlagged(i3) && OtherTeamsOk(o3)
  {
    var b := Classify(b0, parsed);
    ClassifyKeepsShape(b0, parsed);
    FillLeavesNoFlagWithPool(b.invalid, b.pool, picks);
    ChunksShape(l);
    assert OtherTeamsOk(o2);
    var sorted := SortByTime(b.valid);
    var catalog := Catalog(sorted + i2 + o2);
    AllocatedValidOk(b.valid, ValidPicks(sorted, catalog));
    FallbackKeepsShape(i2, o2, i3 + o3, remaining, catalog);
    assert (i3 + o3)[..|i2|] == i3;
    assert (i3 + o3)[|i2|..] == o3;
  }

  /** When every valid team held before the run is unassigned and the catalog
      has a project per team, the run gives no project twice. */
  lemma ComposedUnique(b0: Buckets, parsed: seq<Team>, i2: seq<Team>, o2: seq<Team>,
                       remaining: seq<string>, v3: seq<Team>, i3: seq<Team>, o3: seq<Team>)
    requires forall i :: 0 <= i < |b0.valid| ==> b0.valid[i].assignedProject.None?
    requires FreshTeams(parsed)
    requires Distributed(Classify(b0, parsed).valid, i2, o2, remaining, v3, i3, o3)
    requires |Catalog(SortByTime(Classify(b0, parsed).valid) + i2 + o2)| >= |v3| + |i3| + |o3|
    ensures AssignmentsDistinct(v3 + i3 + o3)
  {
    var sorted := SortByTime(Classify(b0, parsed).valid);
    var catalog := Catalog(sorted + i2 + o2);
    ClassifiedUnassigned(b0, parsed);
    DistributionUnique(sorted, i2 + o2, i3 + o3, remaining, catalog);
    assert v3 + i3 + o3 == v3 + (i3 + o3);
  }

  class TeamProcessor {
    /** Initialised and never used by the processor. */
    var teams: seq<Team>
    var projects: set<string>

    var allStudents: set<string>
    var validTeams: seq<Team>
    var invalidTeams: seq<Team>
    var otherTeams: seq<Team>
    var unassigned: set<string>

    /** Valid teams are full with a complete preference list, invalid teams
        have at most five members and are flagged only while short, and other
        teams are five students with no preferences and no time. */
    ghost predicate Valid()
      reads this
    {
      ValidTeamsOk(validTeams) && WellFlagged(invalidTeams) && OtherTeamsOk(otherTeams)
    }

    constructor()
      ensures teams == [] && projects == {} && allStudents == {}
      ensures validTeams == [] && invalidTeams == [] && otherTeams == [] && unassigned == {}
      ensures Valid()
    {
      teams := [];
      projects := {};
      allStudents := {};
      validTeams := [];
      invalidTeams := [];
      otherTeams := [];
      unassigned := {};
    }

    /** `_collect_students_info`: every normalised login of every row. */
    method CollectStudentsInfo(rows: seq<Row>)
      modifies this`allStudents
      ensures allStudents == old(allStudents) + StudentsOf(rows)
    {
      var students := CollectLogins(allStudents, rows);
      allStudents := students;
    }

    /** The loops of `_collect_students_info`, adding to `known`. */
    static method CollectLogins(known: set<string>, rows: seq<Row>) returns (students: set<string>)
      ensures students == known + StudentsOf(rows)
    {
      students := known;
      ghost var lists := LoginLists(rows);
      var i := 0;
      while i < |rows|
        invariant 0 <= i <= |rows|
        invariant students == known + UnionOf(lists[..i])
      {
        UnionOfStep(lists, i);
        students := AddLogins(students, SplitComma(Get(rows[i], LOGINS_KEY)));
        i := i + 1;
      }
      assert lists[..i] == lists;
    }

    /** The inner loop of `_collect_students_info`: every non-empty normalised
        login of one row is added. */
    static method AddLogins(known: set<string>, logins: seq<string>) returns (students: set<string>)
      ensures students == known + Elems(NormalizedNonEmpty(logins))
    {
      students := known;
      var j := 0;
      while j < |logins|
        invariant 0 <= j <= |logins|
        invariant students == known + Elems(NormalizedNonEmpty(logins[..j]))
      {
        NormalizedNonEmptyStep(logins, j);
        var login := Normalize(logins[j]);
        if login != "" {
          students := students + {login};
        }
        j := j + 1;
      }
      assert logins[..j] == logins;
    }

    /** `_process_team_data`: parse each row, drop oversized teams into the
        pool, flag short ones, and sort the rest into valid and invalid. */
    method ProcessTeamData(rows: seq<Row>, parseTime: string -> Option<Timestamp>)
      modifies this`validTeams, this`invalidTeams, this`unassigned
      ensures Buckets(validTeams, invalidTeams, unassigned)
        == Classify(Buckets(old(validTeams), old(invalidTeams), old(unassigned)), ParseRows(rows, parseTime))
    {
      var b := ClassifyRows(Buckets(validTeams, invalidTeams, unassigned), rows, parseTime);
      validTeams, invalidTeams, unassigned := b.valid, b.invalid, b.pool;
    }

    /** The loop of `_process_team_data` on the three collections, held in `b`. */
    static method ClassifyRows(b0: Buckets, rows: seq<Row>, parseTime: string -> Option<Timestamp>)
      returns (b: Buckets)
      ensures b == Classify(b0, ParseRows(rows, parseTime))
    {
      ghost var parsed := ParseRows(rows, parseTime);
      b := b0;
      var i := 0;
      while i < |rows|
        invariant 0 <= i <= |rows|
        invariant b == Classify(b0, parsed[..i])
      {
        var t := ParseTeamRow(rows[i], parseTime);
        ClassifyPrefixStep(b0, parsed, i);
        b := ClassifyTeam(b, t);
        i := i + 1;
      }
      assert parsed[..i] == parsed;
    }

    /** One row of `_process_team_data`: an oversized team goes to the pool,
        a short one is flagged and kept as invalid, a full one is valid when
        its preference list is complete and invalid otherwise. */
    static method ClassifyTeam(b0: Buckets, t: Team) returns (b: Buckets)
      ensures b == ClassifyRow(b0, t)
    {
      b := b0;
      var size := |t.members|;
      if size > TEAM_SIZE {
        b := b.(pool := b.pool + Elems(t.members));
      } else if size < TEAM_SIZE {
        b := b.(invalid := b.invalid + [t.(needsMoreStudents := true)]);
      } else if t.allProjectsListed {
        b := b.(valid := b.valid + [t]);
      } else {
        b := b.(invalid := b.invalid + [t]);
      }
    }

    /** `_fill_incomplete_teams`: top up every flagged invalid team with a
        random sample of the pool, then form teams from what is left. `picks`
        records the samples drawn and `l` the order `list(set)` produced. */
    method FillIncompleteTeams() returns (ghost picks: seq<seq<string>>, ghost l: seq<string>)
      modifies this`invalidTeams, this`otherTeams, this`unassigned
      ensures |picks| == |old(invalidTeams)| && FillOk(old(invalidTeams), old(unassigned), picks)
      ensures var f := Fill(old(invalidTeams), old(unassigned), picks);
        IsEnumeration(l, f.pool)
        && otherTeams == old(otherTeams) + OtherTeams(Chunks(l))
        && invalidTeams == Trickle(f.teams, Leftover(l))
        && unassigned == Elems(Leftover(l))
    {
      var filled, pool;
      filled, pool, picks := FillPass(invalidTeams, unassigned);
      invalidTeams, unassigned := filled, pool;
      l := FormTeamsFromUnassigned();
    }

    /** The loop of `_fill_incomplete_teams` over the invalid teams `ts`,
        drawing from `pool0`; `picks` records the samples. */
    static method FillPass(ts: seq<Team>, pool0: set<string>)
      returns (done: seq<Team>, pool: set<string>, ghost picks: seq<seq<string>>)
      ensures |picks| == |ts| && FillOk(ts, pool0, picks)
      ensures done == Fill(ts, pool0, picks).teams && pool == Fill(ts, pool0, picks).pool
    {
      pool := pool0;
      done := [];
      picks := [];
      var i := 0;
      while i < |ts|
        invariant 0 <= i <= |ts| && |picks| == i
        invariant FillOk(ts[..i], pool0, picks)
        invariant done == Fill(ts[..i], pool0, picks).teams
        invariant pool == Fill(ts[..i], pool0, picks).pool
      {
        var team;
        ghost var pick;
        team, pool, pick := FillOne(ts[i], pool);
        FillExtend(ts, pool0, picks, i, pick);
        done := done + [team];
        picks := picks + [pick];
        i := i + 1;
      }
      assert ts[..i] == ts;
    }

    /** One iteration of the fill loop: a flagged, short team draws
        `min(needed, len(pool))` students at random from a non-empty pool,
        which loses them. */
    static method FillOne(t: Team, pool0: set<string>)
      returns (team: Team, pool: set<string>, ghost pick: seq<string>)
      ensures PickOk(t, pool0, pick)
      ensures team == FillTeam(t, pool0, pick) && pool == FillPool(t, pool0, pick)
    {
      team, pool, pick := t, pool0, [];
      if t.needsMoreStudents {
        var needed := TEAM_SIZE - |t.members|;
        if needed > 0 && pool != {} {
          var available := Min(needed, |pool|);
          SampleExists(pool, available);
          var selected: seq<string> :| IsSample(selected, pool, available);
          assert IsSample(selected, pool, available);
          var rest := pool;
          var k := 0;
          while k < |selected|
            invariant 0 <= k <= |selected|
            invariant rest == pool - Elems(selected[..k])
          {
            assert selected[k] in rest by {
              assert selected[k] in Elems(selected);
              forall m | 0 <= m < k ensures selected[..k][m] != selected[k] {
                assert selected[..k][m] == selected[m];
              }
            }
            assert selected[..k + 1] == selected[..k] + [selected[k]];
            rest := rest - {selected[k]};
            k := k + 1;
          }
          assert selected[..k] == selected;
          pool := rest;
          var members := t.members + selected;
          team := t.(members := members, needsMoreStudents := |members| < TEAM_SIZE);
          pick := selected;
        }
      }
    }

    /** `_form_teams_from_unassigned`: cut the pool, in the order `list(set)`
        gives (`l`), into teams of five, trickle the rest into flagged teams,
        and keep the rest as the pool. */
    method FormTeamsFromUnassigned() returns (ghost l: seq<string>)
      modifies this`invalidTeams, this`otherTeams, this`unassigned
      ensures IsEnumeration(l, old(unassigned))
      ensures otherTeams == old(otherTeams) + OtherTeams(Chunks(l))
      ensures invalidTeams == Trickle(old(invalidTeams), Leftover(l))
      ensures unassigned == Elems(Leftover(l))
    {
      EnumerationExists(unassigned);
      var list :| IsEnumeration(list, unassigned);
      l := list;
      var formed, rest := CutTeams(otherTeams, list);
      var teams := TrickleLeftover(invalidTeams, rest);
      otherTeams, invalidTeams, unassigned := formed, teams, Elems(rest);
    }

    /** The first loop of `_form_teams_from_unassigned`: five-student slices
        of `list` are appended to `others` as new teams; the shorter rest is
        returned. */
    static method CutTeams(others: seq<Team>, list: seq<string>) returns (formed: seq<Team>, rest: seq<string>)
      ensures formed == others + OtherTeams(Chunks(list))
      ensures rest == Leftover(list) && |rest| < TEAM_SIZE
    {
      formed, rest := others, list;
      while |rest| >= TEAM_SIZE
        invariant formed + OtherTeams(Chunks(rest)) == others + OtherTeams(Chunks(list))
        invariant Leftover(rest) == Leftover(list)
        decreases |rest|
      {
        ChunksStep(rest);
        formed := formed + [OtherTeam(rest[..TEAM_SIZE])];
        rest := rest[TEAM_SIZE..];
      }
      assert Chunks(rest) == [] && Leftover(rest) == rest;
    }

    /** The second loop of `_form_teams_from_unassigned`: each student of
        `list` joins the first team still flagged. */
    static method TrickleLeftover(ts: seq<Team>, list: seq<string>) returns (teams: seq<Team>)
      ensures teams == Trickle(ts, list)
    {
      teams := ts;
      var j := 0;
      assert list[..0] == [];
      while j < |list|
        invariant 0 <= j <= |list|
        invariant teams == Trickle(ts, list[..j])
      {
        var student := list[j];
        var k := 0;
        while k < |teams| && !teams[k].needsMoreStudents
          invariant 0 <= k <= |teams|
          invariant forall m :: 0 <= m < k ==> !teams[m].needsMoreStudents
        {
          k := k + 1;
        }
        FirstFlaggedAt(teams, k);
        TrickleStep(ts, list, j);
        if k < |teams| {
          var team := teams[k];
          var ms := team.members + [student];
          teams := teams[k := team.(members := ms,
            needsMoreStudents := if |ms| >= TEAM_SIZE then false else team.needsMoreStudents)];
        }
        j := j + 1;
      }
      assert list[..j] == list;
    }

    /** `_distribute_projects`: sort the valid teams by time, build the
        catalog, give each valid team its first free preference, then walk the
        invalid and other teams through a shuffle (`remaining`) of the rest. */
    method DistributeProjects() returns (ghost remaining: seq<string>)
      modifies this`validTeams, this`invalidTeams, this`otherTeams
      ensures Distributed(old(validTeams), old(invalidTeams), old(otherTeams), remaining,
                          validTeams, invalidTeams, otherTeams)
    {
      var valid, inv, oth;
      valid, inv, oth, remaining := Distribute(validTeams, invalidTeams, otherTeams);
      validTeams, invalidTeams, otherTeams := valid, inv, oth;
    }

    /** The body of `_distribute_projects` on the three team lists. */
    static method Distribute(valid0: seq<Team>, invalid0: seq<Team>, other0: seq<Team>)
      returns (valid: seq<Team>, invalid: seq<Team>, other: seq<Team>, ghost remaining: seq<string>)
      ensures Distributed(valid0, invalid0, other0, remaining, valid, invalid, other)
    {
      var sorted := SortByTime(valid0);
      var catalog := BuildCatalog(sorted + invalid0 + other0);
      CatalogCovers(sorted + invalid0 + other0);
      var chosen;
      valid, chosen := AllocatePreferred(sorted, catalog);
      EnumerationExists(catalog - chosen);
      var rest :| IsEnumeration(rest, catalog - chosen);
      remaining := rest;
      var n := |invalid0|;
      var out := AssignFallback(invalid0 + other0, rest, catalog);
      invalid, other := out[..n], out[n..];
      assert invalid + other == out;
    }

    /** The catalog loop of `_distribute_projects` and its default. */
    static method BuildCatalog(ts: seq<Team>) returns (catalog: set<string>)
      ensures catalog == Catalog(ts)
    {
      var all := CollectProjects(ts);
      assert all == ProjectsOf(ts) by {
        forall p ensures p in all <==> p in ProjectsOf(ts) {
          ProjectsOfIn(ts, p);
        }
      }
      catalog := if all == {} then DEFAULT_CATALOG else all;
    }

    /** `_prepare_result`; `unassigned_students` lists the pool in some order. */
    method PrepareResult() returns (r: Result)
      ensures r.validTeams == Reports(validTeams)
      ensures r.invalidTeams == Reports(invalidTeams)
      ensures r.otherTeams == UntimedReports(otherTeams)
      ensures IsEnumeration(r.unassignedStudents, unassigned)
    {
      EnumerationExists(unassigned);
      var students :| IsEnumeration(students, unassigned);
      var valid, invalid, other: seq<TeamReport> := [], [], [];
      var i := 0;
      while i < |validTeams|
        invariant 0 <= i <= |validTeams| && valid == Reports(validTeams[..i])
      {
        valid := valid + [Report(validTeams[i])];
        i := i + 1;
      }
      assert validTeams[..i] == validTeams;
      i := 0;
      while i < |invalidTeams|
        invariant 0 <= i <= |invalidTeams| && invalid == Reports(invalidTeams[..i])
      {
        invalid := invalid + [Report(invalidTeams[i])];
        i := i + 1;
      }
      assert invalidTeams[..i] == invalidTeams;
      i := 0;
      while i < |otherTeams|
        invariant 0 <= i <= |otherTeams| && other == UntimedReports(otherTeams[..i])
      {
        other := other + [UntimedReport(otherTeams[i])];
        i := i + 1;
      }
      assert otherTeams[..i] == otherTeams;
      r := Result(valid, invalid, other, students);
    }

    /** Lines 24-27 of `process_teams`: the fill pass (which forms teams from
        the pool itself) and then the second forming pass. The second pass
        meets a pool of fewer than five students and no flagged team, so it
        changes nothing; the fill leaves every invalid team unflagged. */
    method CompleteTeams() returns (ghost picks: seq<seq<string>>, ghost l: seq<string>)
      requires WellFlagged(invalidTeams)
      modifies this`invalidTeams, this`otherTeams, this`unassigned
      ensures Completed(old(invalidTeams), old(unassigned), old(otherTeams), picks, l,
                        invalidTeams, otherTeams, unassigned)
    {
      ghost var ts, pool := invalidTeams, unassigned;
      picks, l := FillIncompleteTeams();
      ghost var l2 := FormTeamsFromUnassigned();
      TrickleNeverFires(ts, pool, picks, l, l2);
      assert OtherTeams(Chunks(l2)) == [];
    }

    /** Lines 18-21 of `process_teams`: the logins of every row are
        recorded, then the rows are classified into the buckets. The buckets
        keep their shape. */
    method ReadRows(rows: seq<Row>, parseTime: string -> Option<Timestamp>)
      requires ValidTeamsOk(validTeams) && WellFlagged(invalidTeams)
      modifies this`allStudents, this`validTeams, this`invalidTeams, this`unassigned
      ensures allStudents == old(allStudents) + StudentsOf(rows)
      ensures Buckets(validTeams, invalidTeams, unassigned)
           == Classify(Buckets(old(validTeams), old(invalidTeams), old(unassigned)), ParseRows(rows, parseTime))
      ensures ValidTeamsOk(validTeams) && WellFlagged(invalidTeams)
    {
      ghost var b0 := Buckets(validTeams, invalidTeams, unassigned);
      CollectStudentsInfo(rows);
      ProcessTeamData(rows, parseTime);
      ParseRowsFresh(rows, parseTime);
      ClassifyKeepsShape(b0, ParseRows(rows, parseTime));
    }

    /** `process_teams`: the passes in order, with the random choices made
        along the way returned as ghost values: `picks` (the samples of the
        fill), `l` (the order of the pool when teams are cut) and `remaining`
        (the shuffled unclaimed projects). */
    method ProcessTeams(rows: seq<Row>, parseTime: string -> Option<Timestamp>)
      returns (r: Result, ghost picks: seq<seq<string>>, ghost l: seq<string>, ghost remaining: seq<string>)
      requires Valid()
      modifies this`allStudents, this`validTeams, this`invalidTeams, this`otherTeams, this`unassigned
      ensures Valid()
      ensures allStudents == old(allStudents) + StudentsOf(rows)
      ensures Processed(Buckets(old(validTeams), old(invalidTeams), old(unassigned)), old(otherTeams),
                        ParseRows(rows, parseTime), picks, l, remaining,
                        validTeams, invalidTeams, otherTeams, unassigned)
      ensures r.validTeams == Reports(validTeams) && r.invalidTeams == Reports(invalidTeams)
      ensures r.otherTeams == UntimedReports(otherTeams)
      ensures IsEnumeration(r.unassignedStudents, unassigned)
    {
      ghost var b0 := Buckets(validTeams, invalidTeams, unassigned);
      ghost var others0 := otherTeams;
      ghost var parsed := ParseRows(rows, parseTime);
      ReadRows(rows, parseTime);
      ParseRowsFresh(rows, parseTime);
      picks, l := CompleteTeams();
      ghost var i2, o2, u2 := invalidTeams, otherTeams, unassigned;
      remaining := DistributeProjects();
      PassesCompose(b0, others0, parsed, picks, l, i2, o2, u2,
                    remaining, validTeams, invalidTeams, otherTeams);
      r := PrepareResult();
    }
  }
}
