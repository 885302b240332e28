/** The team-completion passes of `TeamProcessor`: topping up flagged teams
    from the pool (`_fill_incomplete_teams`), cutting the pool into teams of
    five, and trickling the remainder into teams that are still short
    (`_form_teams_from_unassigned`). The random draws are explicit arguments
    (`picks`, the enumeration `l`) constrained by predicates. */
module Completion {

  import opened Wrappers
  import opened Collections
  import opened Teams

  /** How many students a team lacks (`5 - len(team_members)`). */
  function Needed(t: Team): int {
    TEAM_SIZE - |t.members|
  }

  function Min(a: int, b: int): int {
    if a <= b then a else b
  }

  /** Whether the fill loop draws for team `t` from `pool`. */
  predicate Draws(t: Team, pool: set<string>) {
    t.needsMoreStudents && Needed(t) > 0 && pool != {}
  }

  /** A possible `random.sample` for team `t`: `min(needed, |pool|)` distinct
      pool members when the loop draws, nothing otherwise. */
  predicate PickOk(t: Team, pool: set<string>, pick: seq<string>) {
    if Draws(t, pool) then IsSample(pick, pool, Min(Needed(t), |pool|)) else pick == []
  }

  /** The team after its draw. */
  function FillTeam(t: Team, pool: set<string>, pick: seq<string>): Team {
    if Draws(t, pool) then
      t.(members := t.members + pick, needsMoreStudents := |t.members + pick| < TEAM_SIZE)
    else t
  }

  /** The pool after the draw for `t`. */
  function FillPool(t: Team, pool: set<string>, pick: seq<string>): set<string> {
    if Draws(t, pool) then pool - Elems(pick) else pool
  }

  datatype FillState = FillState(teams: seq<Team>, pool: set<string>)

  /** The fill loop over the invalid teams, in list order, with the sample
      drawn for each. */
  function Fill(ts: seq<Team>, pool: set<string>, picks: seq<seq<string>>): (r: FillState)
    requires |picks| == |ts|
    ensures |r.teams| == |ts|
    decreases |ts|
  {
    if ts == [] then FillState([], pool)
    else
      var n := |ts| - 1;
      var prev := Fill(ts[..n], pool, picks[..n]);
      FillState(prev.teams + [FillTeam(ts[n], prev.pool, picks[n])],
                FillPool(ts[n], prev.pool, picks[n]))
  }

  /** One more team of the fill loop. */
  lemma FillExtend(ts: seq<Team>, pool: set<string>, picks: seq<seq<string>>, i: int, pick: seq<string>)
    requires 0 <= i < |ts| && |picks| == i
    ensures var prev := Fill(ts[..i], pool, picks);
      Fill(ts[..i + 1], pool, picks + [pick])
        == FillState(prev.teams + [FillTeam(ts[i], prev.pool, pick)], FillPool(ts[i], prev.pool, pick))
      && (FillOk(ts[..i + 1], pool, picks + [pick])
          <==> FillOk(ts[..i], pool, picks) && PickOk(ts[i], prev.pool, pick))
  {
    assert ts[..i + 1][..i] == ts[..i];
    assert (picks + [pick])[..i] == picks;
  }

  /** Every draw was a legitimate sample of the pool as it stood. */
  predicate FillOk(ts: seq<Team>, pool: set<string>, picks: seq<seq<string>>)
    requires |picks| == |ts|
    decreases |ts|
  {
    ts == [] ||
    (var n := |ts| - 1;
     FillOk(ts[..n], pool, picks[..n]) && PickOk(ts[n], Fill(ts[..n], pool, picks[..n]).pool, picks[n]))
  }

  /** The working invariant on invalid teams: at most five members, and the
      flag only on teams that are still short. */
  predicate WellFlagged(ts: seq<Team>) {
    forall i :: 0 <= i < |ts| ==> |ts[i].members| <= TEAM_SIZE && (ts[i].needsMoreStudents ==> |ts[i].members| < TEAM_SIZE)
  }

  predicate NoneFlagged(ts: seq<Team>) {
    forall i :: 0 <= i < |ts| ==> !ts[i].needsMoreStudents
  }

  /** The total shortfall of the flagged teams. */
  function Shortfall(ts: seq<Team>): int
    decreases |ts|
  {
    if ts == [] then 0
    else Shortfall(ts[..|ts| - 1]) + (if ts[|ts| - 1].needsMoreStudents then Needed(ts[|ts| - 1]) else 0)
  }

  /** One team's draw: a drawing team gains exactly `min(needed, |pool|)`
      distinct pool members, which leave the pool, and its flag becomes "still
      fewer than five"; any other team and the pool are unchanged. */
  lemma FillTeamShape(t: Team, pool: set<string>, pick: seq<string>)
    requires PickOk(t, pool, pick)
    ensures var t', pool' := FillTeam(t, pool, pick), FillPool(t, pool, pick);
      (Draws(t, pool) ==>
        t'.members == t.members + pick && |pick| == Min(Needed(t), |pool|)
        && t'.needsMoreStudents == (|t'.members| < TEAM_SIZE)
        && t'.projects == t.projects && t'.submissionTime == t.submissionTime
        && t'.allProjectsListed == t.allProjectsListed && t'.assignedProject == t.assignedProject
        && Elems(pick) <= pool && pool' == pool - Elems(pick) && |pool'| == |pool| - |pick|)
      && (!Draws(t, pool) ==> t' == t && pool' == pool && pick == [])
  {
    if Draws(t, pool) {
      DistinctCard(pick);
    }
  }

  /** The fill pass team by team: team `i` is `FillTeam` of the original team
      with the pool as the earlier draws left it. */
  lemma {:induction false} FillAt(ts: seq<Team>, pool: set<string>, picks: seq<seq<string>>, i: int)
    requires |picks| == |ts| && 0 <= i < |ts|
    ensures Fill(ts, pool, picks).teams[i] == FillTeam(ts[i], Fill(ts[..i], pool, picks[..i]).pool, picks[i])
    decreases |ts|
  {
    var n := |ts| - 1;
    if i < n {
      FillAt(ts[..n], pool, picks[..n], i);
      assert ts[..n][..i] == ts[..i];
      assert picks[..n][..i] == picks[..i];
    } else {
      assert ts[..n] == ts[..i];
    }
  }

  /** Sample legitimacy for every team. */
  lemma {:induction false} FillOkAt(ts: seq<Team>, pool: set<string>, picks: seq<seq<string>>, i: int)
    requires |picks| == |ts| && 0 <= i < |ts| && FillOk(ts, pool, picks)
    ensures PickOk(ts[i], Fill(ts[..i], pool, picks[..i]).pool, picks[i])
    decreases |ts|
  {
    var n := |ts| - 1;
    if i < n {
      FillOkAt(ts[..n], pool, picks[..n], i);
      assert ts[..n][..i] == ts[..i];
      assert picks[..n][..i] == picks[..i];
    } else {
      assert ts[..n] == ts[..i];
    }
  }

  /** The draws and the final pool partition the original pool: all drawn
      students are distinct, none is still in the pool, and together with the
      pool they are exactly the pool the loop started from. */
  lemma {:induction false} FillPartitionsPool(ts: seq<Team>, pool: set<string>, picks: seq<seq<string>>)
    requires |picks| == |ts| && FillOk(ts, pool, picks)
    ensures var r := Fill(ts, pool, picks);
      Distinct(Flatten(picks))
      && Elems(Flatten(picks)) !! r.pool
      && Elems(Flatten(picks)) + r.pool == pool
      && |r.pool| + |Flatten(picks)| == |pool|
    decreases |ts|
  {
    if ts == [] {
      assert Flatten(picks) == [];
    } else {
      var n := |ts| - 1;
      var prev := Fill(ts[..n], pool, picks[..n]);
      FillPartitionsPool(ts[..n], pool, picks[..n]);
      FillTeamShape(ts[n], prev.pool, picks[n]);
      FlattenAppend(picks[..n], [picks[n]]);
      assert picks[..n] + [picks[n]] == picks;
      assert Flatten([picks[n]]) == picks[n] by {
        assert Flatten([picks[n]]) == picks[n] + Flatten([]);
      }
      PartitionStep(pool, prev.pool, Flatten(picks[..n]), picks[n]);
    }
  }

  /** One draw keeps the partition: `before` was drawn from `pool`, leaving
      `prev`; drawing `p` from `prev` (when it is not empty) keeps it. */
  lemma PartitionStep(pool: set<string>, prev: set<string>, before: seq<string>, p: seq<string>)
    requires Distinct(before) && Elems(before) !! prev && Elems(before) + prev == pool
    requires |prev| + |before| == |pool|
    requires p == [] || (Distinct(p) && Elems(p) <= prev && |prev - Elems(p)| == |prev| - |p|)
    ensures var now := if p == [] then prev else prev - Elems(p);
      Distinct(before + p) && Elems(before + p) !! now && Elems(before + p) + now == pool
      && |now| + |before + p| == |pool|
  {
    assert Elems(before + p) == Elems(before) + Elems(p);
    DistinctConcat(before, p);
  }

  /** Two distinct sequences with disjoint elements concatenate to a distinct one. */
  lemma DistinctConcat(a: seq<string>, b: seq<string>)
    requires Distinct(a) && Distinct(b) && Elems(a) !! Elems(b)
    ensures Distinct(a + b)
  {
    forall i, j | 0 <= i < j < |a + b| ensures (a + b)[i] != (a + b)[j] {
      if j >= |a| && i < |a| {
        assert (a + b)[i] in Elems(a);
        assert (a + b)[j] in Elems(b);
      }
    }
  }

  /** The fill pass keeps the invariant, and afterwards a non-empty pool means
      no team is still flagged: a team stays flagged only when its draw emptied
      the pool. */
  lemma {:induction false} FillLeavesNoFlagWithPool(ts: seq<Team>, pool: set<string>, picks: seq<seq<string>>)
    requires |picks| == |ts| && FillOk(ts, pool, picks) && WellFlagged(ts)
    ensures var r := Fill(ts, pool, picks);
      WellFlagged(r.teams) && (r.pool != {} ==> NoneFlagged(r.teams))
      && r.pool <= pool
    decreases |ts|
  {
    if ts != [] {
      var n := |ts| - 1;
      var prev := Fill(ts[..n], pool, picks[..n]);
      assert WellFlagged(ts[..n]) by {
        assert forall i :: 0 <= i < n ==> ts[..n][i] == ts[i];
      }
      FillLeavesNoFlagWithPool(ts[..n], pool, picks[..n]);
      FillTeamShape(ts[n], prev.pool, picks[n]);
      var r := Fill(ts, pool, picks);
      assert r.teams == prev.teams + [FillTeam(ts[n], prev.pool, picks[n])];
      assert forall i :: 0 <= i < n ==> r.teams[i] == prev.teams[i];
    }
  }

  /** When the pool covers the total shortfall, the fill pass completes every
      flagged team and uses up exactly the shortfall. */
  lemma {:induction false} FillSufficient(ts: seq<Team>, pool: set<string>, picks: seq<seq<string>>)
    requires |picks| == |ts| && FillOk(ts, pool, picks) && WellFlagged(ts)
    requires |pool| >= Shortfall(ts)
    ensures var r := Fill(ts, pool, picks);
      NoneFlagged(r.teams) && |r.pool| == |pool| - Shortfall(ts)
      && forall i :: 0 <= i < |ts| && ts[i].needsMoreStudents ==> |r.teams[i].members| == TEAM_SIZE
    decreases |ts|
  {
    if ts != [] {
      var n := |ts| - 1;
      var prev := Fill(ts[..n], pool, picks[..n]);
      assert WellFlagged(ts[..n]) by {
        assert forall i :: 0 <= i < n ==> ts[..n][i] == ts[i];
      }
      assert Shortfall(ts[..n]) <= Shortfall(ts) by {
        assert ts[..n] == ts[..|ts| - 1];
      }
      FillSufficient(ts[..n], pool, picks[..n]);
      FillTeamShape(ts[n], prev.pool, picks[n]);
      var r := Fill(ts, pool, picks);
      assert r.teams == prev.teams + [FillTeam(ts[n], prev.pool, picks[n])];
      assert forall i :: 0 <= i < n ==> r.teams[i] == prev.teams[i] && ts[..n][i] == ts[i];
    }
  }

  // ---------------------------------------------------------------------
  // Forming teams of five from the pool

  /** The consecutive five-student slices the `while` loop cuts from `l`. */
  function Chunks(l: seq<string>): seq<seq<string>>
    decreases |l|
  {
    if |l| >= TEAM_SIZE then [l[..TEAM_SIZE]] + Chunks(l[TEAM_SIZE..]) else []
  }

  /** What is left of `l` when the loop stops. */
  function Leftover(l: seq<string>): seq<string>
    decreases |l|
  {
    if |l| >= TEAM_SIZE then Leftover(l[TEAM_SIZE..]) else l
  }

  /** A team formed from leftover students: no preferences, no time. */
  function OtherTeam(members: seq<string>): Team {
    Team(members, [], None, false, false, None)
  }

  function OtherTeams(cs: seq<seq<string>>): (r: seq<Team>)
    ensures |r| == |cs| && forall i :: 0 <= i < |cs| ==> r[i] == OtherTeam(cs[i])
    decreases |cs|
  {
    if cs == [] then [] else [OtherTeam(cs[0])] + OtherTeams(cs[1..])
  }

  /** `|l| div 5` slices of exactly five, then fewer than five left over, and
      slices and leftover concatenate back to `l`. */
  lemma {:induction false} ChunksShape(l: seq<string>)
    ensures |Chunks(l)| == |l| / TEAM_SIZE
    ensures forall i :: 0 <= i < |Chunks(l)| ==> |Chunks(l)[i]| == TEAM_SIZE
    ensures |Leftover(l)| == |l| % TEAM_SIZE
    ensures Flatten(Chunks(l)) + Leftover(l) == l
    decreases |l|
  {
    if |l| >= TEAM_SIZE {
      ChunksShape(l[TEAM_SIZE..]);
      var cs := Chunks(l);
      assert cs[1..] == Chunks(l[TEAM_SIZE..]);
      assert Flatten(cs) == l[..TEAM_SIZE] + Flatten(Chunks(l[TEAM_SIZE..]));
      assert l[..TEAM_SIZE] + l[TEAM_SIZE..] == l;
    }
  }

  /** Cutting an enumeration of the pool: the new teams' members and the
      leftover list are pairwise disjoint and together are the whole pool. */
  lemma ChunksPartitionPool(l: seq<string>, pool: set<string>)
    requires IsEnumeration(l, pool)
    ensures Distinct(Flatten(Chunks(l)) + Leftover(l))
    ensures Elems(Flatten(Chunks(l))) + Elems(Leftover(l)) == pool
    ensures Elems(Flatten(Chunks(l))) !! Elems(Leftover(l))
    ensures |Leftover(l)| < TEAM_SIZE && |Chunks(l)| == |pool| / TEAM_SIZE
    ensures Distinct(Leftover(l)) && |Elems(Leftover(l))| == |Leftover(l)|
  {
    ChunksShape(l);
    EnumerationLength(l, pool);
    var a, b := Flatten(Chunks(l)), Leftover(l);
    assert a + b == l;
    assert Elems(a + b) == Elems(a) + Elems(b);
    assert forall i :: 0 <= i < |a| ==> a[i] == l[i];
    assert forall j :: 0 <= j < |b| ==> b[j] == l[|a| + j];
    assert forall i, j :: 0 <= i < |a| && 0 <= j < |b| ==> a[i] != b[j];
    assert Distinct(b) by {
      assert forall i :: 0 <= i < |b| ==> b[i] == l[|a| + i];
    }
    DistinctCard(b);
  }

  // ---------------------------------------------------------------------
  // Trickling the leftover students into teams that are still short

  /** The first team still flagged, in list order. */
  function FirstFlagged(ts: seq<Team>): (r: Option<nat>)
    ensures r.Some? ==>
      (r.value < |ts| && ts[r.value].needsMoreStudents
       && forall m :: 0 <= m < r.value ==> !ts[m].needsMoreStudents)
    ensures r.None? ==> NoneFlagged(ts)
    decreases |ts|
  {
    if ts == [] then None
    else if ts[0].needsMoreStudents then Some(0)
    else
      match FirstFlagged(ts[1..])
      case None => None
      case Some(k) => Some(k + 1)
  }

  /** A linear search that stops at the first flagged team finds `FirstFlagged`. */
  lemma {:induction false} FirstFlaggedAt(ts: seq<Team>, k: nat)
    requires k <= |ts|
    requires forall m :: 0 <= m < k ==> !ts[m].needsMoreStudents
    requires k < |ts| ==> ts[k].needsMoreStudents
    ensures FirstFlagged(ts) == if k < |ts| then Some(k) else None
    decreases k
  {
    if k > 0 {
      FirstFlaggedAt(ts[1..], k - 1);
    } else if ts != [] {
      assert ts[0].needsMoreStudents;
    }
  }

  /** `team['team_members'].append(student)`, clearing the flag at five. */
  function AddStudent(t: Team, s: string): Team {
    var ms := t.members + [s];
    t.(members := ms, needsMoreStudents := if |ms| >= TEAM_SIZE then false else t.needsMoreStudents)
  }

  /** One leftover student goes to the first flagged team, if any. */
  function Absorb(ts: seq<Team>, s: string): (r: seq<Team>)
    ensures |r| == |ts|
  {
    match FirstFlagged(ts)
    case None => ts
    case Some(k) => ts[k := AddStudent(ts[k], s)]
  }

  /** The trickle loop over the leftover list, in order. */
  function Trickle(ts: seq<Team>, l: seq<string>): (r: seq<Team>)
    ensures |r| == |ts|
    decreases |l|
  {
    if l == [] then ts else Absorb(Trickle(ts, l[..|l| - 1]), l[|l| - 1])
  }

  lemma TrickleStep(ts: seq<Team>, l: seq<string>, j: int)
    requires 0 <= j < |l|
    ensures Trickle(ts, l[..j + 1]) == Absorb(Trickle(ts, l[..j]), l[j])
  {
    assert l[..j + 1][..j] == l[..j];
  }

  /** One five-student slice more. */
  lemma ChunksStep(l: seq<string>)
    requires |l| >= TEAM_SIZE
    ensures OtherTeams(Chunks(l)) == [OtherTeam(l[..TEAM_SIZE])] + OtherTeams(Chunks(l[TEAM_SIZE..]))
    ensures Leftover(l) == Leftover(l[TEAM_SIZE..])
  {
    var cs := Chunks(l);
    assert cs[1..] == Chunks(l[TEAM_SIZE..]);
  }

  /** A student is appended to the first flagged team, which keeps the flag
      only while it has fewer than five members; every other team is
      unchanged; with no flagged team nothing changes. */
  lemma AbsorbShape(ts: seq<Team>, s: string)
    ensures var r := Absorb(ts, s);
      (FirstFlagged(ts).None? ==> r == ts)
      && (FirstFlagged(ts).Some? ==>
            var k := FirstFlagged(ts).value;
            r[k].members == ts[k].members + [s]
            && (r[k].needsMoreStudents <==> |r[k].members| < TEAM_SIZE)
            && (forall m :: 0 <= m < k ==> !ts[m].needsMoreStudents)
            && (forall m :: 0 <= m < |ts| && m != k ==> r[m] == ts[m]))
  {
  }

  /** Trickling keeps the invariant on invalid teams. */
  lemma {:induction false} TrickleWellFlagged(ts: seq<Team>, l: seq<string>)
    requires WellFlagged(ts)
    ensures WellFlagged(Trickle(ts, l))
    decreases |l|
  {
    if l != [] {
      TrickleWellFlagged(ts, l[..|l| - 1]);
    }
  }

  /** With no team flagged, trickling changes nothing. */
  lemma {:induction false} TrickleNoFlagged(ts: seq<Team>, l: seq<string>)
    requires NoneFlagged(ts)
    ensures Trickle(ts, l) == ts
    decreases |l|
  {
    if l != [] {
      TrickleNoFlagged(ts, l[..|l| - 1]);
    }
  }

  /** Inside `process_teams` the trickle never fires: after the fill pass a
      non-empty pool leaves no team flagged, so neither the first nor the
      second call of `_form_teams_from_unassigned` appends anyone; the first
      leaves fewer than five students in the pool, and the second then forms no
      team and leaves the pool as it is. */
  lemma TrickleNeverFires(ts: seq<Team>, pool: set<string>, picks: seq<seq<string>>,
                          l1: seq<string>, l2: seq<string>)
    requires |picks| == |ts| && FillOk(ts, pool, picks) && WellFlagged(ts)
    requires IsEnumeration(l1, Fill(ts, pool, picks).pool)
    requires IsEnumeration(l2, Elems(Leftover(l1)))
    ensures var filled := Fill(ts, pool, picks).teams;
      Trickle(filled, Leftover(l1)) == filled
      && |Elems(Leftover(l1))| < TEAM_SIZE
      && Chunks(l2) == [] && Leftover(l2) == l2
      && Trickle(filled, Leftover(l2)) == filled
  {
    var r := Fill(ts, pool, picks);
    FillLeavesNoFlagWithPool(ts, pool, picks);
    ChunksPartitionPool(l1, r.pool);
    EnumerationLength(l2, Elems(Leftover(l1)));
    if Leftover(l1) != [] {
      assert Leftover(l1)[0] in r.pool;
      TrickleNoFlagged(r.teams, Leftover(l1));
      TrickleNoFlagged(r.teams, Leftover(l2));
    } else {
      assert l2 == [];
    }
  }
}
