/** Project allocation of `TeamProcessor._distribute_projects`: the stable
    sort of valid teams by submission time, the catalog, first-come
    preferred allocation, and the shuffled fallback for the other teams. */
module Allocation {

  import opened Wrappers
  import opened Collections
  import opened Teams

  // ---------------------------------------------------------------------
  // valid_teams.sort(key=submission_time)

  function Key(t: Team): Timestamp {
    t.submissionTime.GetOr(MIN_TIME)
  }

  predicate SortedByTime(ts: seq<Team>) {
    forall i, j :: 0 <= i < j < |ts| ==> Key(ts[i]) <= Key(ts[j])
  }

  /** Insert `t` before the first team that is not earlier than it. */
  function Insert(t: Team, s: seq<Team>): (r: seq<Team>)
    ensures |r| == |s| + 1
    decreases |s|
  {
    if s == [] || Key(t) <= Key(s[0]) then [t] + s else [s[0]] + Insert(t, s[1..])
  }

  /** The stable sort Python's `list.sort` performs, written as insertion sort. */
  function SortByTime(ts: seq<Team>): (r: seq<Team>)
    ensures |r| == |ts|
    decreases |ts|
  {
    if ts == [] then [] else Insert(ts[0], SortByTime(ts[1..]))
  }

  lemma {:induction false} InsertPerm(t: Team, s: seq<Team>)
    ensures multiset(Insert(t, s)) == multiset(s) + multiset{t}
    decreases |s|
  {
    if s != [] && Key(t) > Key(s[0]) {
      InsertPerm(t, s[1..]);
      assert s == [s[0]] + s[1..];
    }
  }

  lemma {:induction false} InsertBound(t: Team, s: seq<Team>, b: int)
    requires b <= Key(t)
    requires forall i :: 0 <= i < |s| ==> b <= Key(s[i])
    ensures forall i :: 0 <= i < |Insert(t, s)| ==> b <= Key(Insert(t, s)[i])
    decreases |s|
  {
    if s != [] && Key(t) > Key(s[0]) {
      InsertBound(t, s[1..], b);
      var r := Insert(t, s[1..]);
      assert Insert(t, s) == [s[0]] + r;
      assert forall i :: 1 <= i < |r| + 1 ==> Insert(t, s)[i] == r[i - 1];
    }
  }

  lemma {:induction false} InsertSorted(t: Team, s: seq<Team>)
    requires SortedByTime(s)
    ensures SortedByTime(Insert(t, s))
    decreases |s|
  {
    if s == [] || Key(t) <= Key(s[0]) {
      var out := [t] + s;
      forall i, j | 0 <= i < j < |out| ensures Key(out[i]) <= Key(out[j]) {
        assert out[j] == s[j - 1];
        if i > 0 {
          assert out[i] == s[i - 1];
        } else if j > 1 {
          assert Key(s[0]) <= Key(s[j - 1]);
        }
      }
    } else {
      var tail := s[1..];
      assert SortedByTime(tail) by {
        forall i, j | 0 <= i < j < |tail| ensures Key(tail[i]) <= Key(tail[j]) {
          assert tail[i] == s[i + 1] && tail[j] == s[j + 1];
        }
      }
      InsertSorted(t, tail);
      var r := Insert(t, tail);
      assert forall i :: 0 <= i < |tail| ==> Key(s[0]) <= Key(tail[i]) by {
        forall i | 0 <= i < |tail| ensures Key(s[0]) <= Key(tail[i]) {
          assert tail[i] == s[i + 1];
        }
      }
      InsertBound(t, tail, Key(s[0]));
      var out := [s[0]] + r;
      assert Insert(t, s) == out;
      forall i, j | 0 <= i < j < |out| ensures Key(out[i]) <= Key(out[j]) {
        assert out[j] == r[j - 1];
        if i > 0 {
          assert out[i] == r[i - 1];
        }
      }
    }
  }

  /** The sort orders by time and permutes the teams. */
  lemma {:induction false} SortByTimeSorted(ts: seq<Team>)
    ensures SortedByTime(SortByTime(ts))
    ensures multiset(SortByTime(ts)) == multiset(ts)
    decreases |ts|
  {
    if ts != [] {
      SortByTimeSorted(ts[1..]);
      InsertSorted(ts[0], SortByTime(ts[1..]));
      InsertPerm(ts[0], SortByTime(ts[1..]));
      assert ts == [ts[0]] + ts[1..];
    }
  }

  /** Every team of the sorted list comes from the input. */
  lemma SortByTimeMembers(ts: seq<Team>)
    ensures forall i :: 0 <= i < |SortByTime(ts)| ==> SortByTime(ts)[i] in ts
  {
    SortByTimeSorted(ts);
    forall i | 0 <= i < |SortByTime(ts)| ensures SortByTime(ts)[i] in ts {
      assert SortByTime(ts)[i] in multiset(SortByTime(ts));
    }
  }

  /** The teams of `s` submitted at time `k`, in order. */
  function WithKey(s: seq<Team>, k: Timestamp): seq<Team>
    decreases |s|
  {
    if s == [] then [] else (if Key(s[0]) == k then [s[0]] else []) + WithKey(s[1..], k)
  }

  lemma {:induction false} InsertWithKey(t: Team, s: seq<Team>, k: Timestamp)
    ensures WithKey(Insert(t, s), k) == (if Key(t) == k then [t] else []) + WithKey(s, k)
    decreases |s|
  {
    if !(s == [] || Key(t) <= Key(s[0])) {
      InsertWithKey(t, s[1..], k);
      var r := [s[0]] + Insert(t, s[1..]);
      assert r[1..] == Insert(t, s[1..]);
    } else {
      assert ([t] + s)[1..] == s;
    }
  }

  /** Stability: teams with equal submission times keep their relative order. */
  lemma {:induction false} SortByTimeStable(ts: seq<Team>, k: Timestamp)
    ensures WithKey(SortByTime(ts), k) == WithKey(ts, k)
    decreases |ts|
  {
    if ts != [] {
      SortByTimeStable(ts[1..], k);
      InsertWithKey(ts[0], SortByTime(ts[1..]), k);
    }
  }

  // ---------------------------------------------------------------------
  // The catalog

  /** Every project named in any team's preferences. */
  function ProjectsOf(ts: seq<Team>): set<string>
    decreases |ts|
  {
    if ts == [] then {} else ProjectsOf(ts[..|ts| - 1]) + Elems(ts[|ts| - 1].projects)
  }

  lemma {:induction false} ProjectsOfIn(ts: seq<Team>, p: string)
    ensures p in ProjectsOf(ts) <==> exists i :: 0 <= i < |ts| && p in ts[i].projects
    decreases |ts|
  {
    if ts != [] {
      var init := ts[..|ts| - 1];
      ProjectsOfIn(init, p);
      assert forall i :: 0 <= i < |init| ==> init[i] == ts[i];
    }
  }

  /** `set(str(i) for i in range(1, 26))`. */
  const DEFAULT_CATALOG: set<string> := {
    "1", "2", "3", "4", "5", "6", "7", "8", "9", "10", "11", "12", "13",
    "14", "15", "16", "17", "18", "19", "20", "21", "22", "23", "24", "25"}

  /** The candidate projects: the union of all preferences, or "1".."25". */
  function Catalog(ts: seq<Team>): set<string> {
    var all := ProjectsOf(ts);
    if all == {} then DEFAULT_CATALOG else all
  }

  lemma DefaultCatalogNonEmpty()
    ensures DEFAULT_CATALOG != {}
  {
    assert "1" in DEFAULT_CATALOG;
  }

  /** The catalog is never empty and holds every preference of every team. */
  lemma CatalogCovers(ts: seq<Team>)
    ensures Catalog(ts) != {}
    ensures forall i, p :: 0 <= i < |ts| && p in ts[i].projects ==> p in Catalog(ts)
  {
    DefaultCatalogNonEmpty();
    forall i, p | 0 <= i < |ts| && p in ts[i].projects ensures p in ProjectsOf(ts) {
      ProjectsOfIn(ts, p);
    }
  }

  /** The default catalog is used exactly when no team names a project. */
  lemma CatalogDefault(ts: seq<Team>)
    ensures ProjectsOf(ts) == {} <==> forall i :: 0 <= i < |ts| ==> ts[i].projects == []
  {
    var all := ProjectsOf(ts);
    if all != {} {
      var p :| p in all;
      ProjectsOfIn(ts, p);
    }
    if exists i :: 0 <= i < |ts| && ts[i].projects != [] {
      var i :| 0 <= i < |ts| && ts[i].projects != [];
      ProjectsOfIn(ts, ts[i].projects[0]);
      assert ts[i].projects[0] in all;
    }
  }

  /** The catalog-collecting loop over `valid + invalid + other`. */
  method CollectProjects(ts: seq<Team>) returns (all: set<string>)
    ensures forall p :: p in all <==> exists i :: 0 <= i < |ts| && p in ts[i].projects
  {
    all := {};
    var i := 0;
    while i < |ts|
      invariant 0 <= i <= |ts|
      invariant forall p :: p in all <==> exists k :: 0 <= k < i && p in ts[k].projects
    {
      all := all + Elems(ts[i].projects);
      i := i + 1;
    }
  }

  // ---------------------------------------------------------------------
  // Preferred allocation for the valid teams

  /** The first preference that is in the catalog and not yet taken. */
  function FirstFree(prefs: seq<string>, catalog: set<string>, taken: set<string>): (r: Option<string>)
    ensures r.Some? ==> r.value in catalog && r.value !in taken
    ensures r.Some? ==> exists j ::
      && 0 <= j < |prefs| && prefs[j] == r.value
      && (forall m :: 0 <= m < j ==> prefs[m] !in catalog || prefs[m] in taken)
    ensures r.None? ==> forall m :: 0 <= m < |prefs| ==> prefs[m] !in catalog || prefs[m] in taken
    decreases |prefs|
  {
    if prefs == [] then None
    else if prefs[0] in catalog && prefs[0] !in taken then Some(prefs[0])
    else
      var r := FirstFree(prefs[1..], catalog, taken);
      assert forall m :: 1 <= m < |prefs| ==> prefs[m] == prefs[1..][m - 1];
      r
  }

  /** The projects taken by a list of choices. */
  function Taken(picks: seq<Option<string>>): set<string>
    decreases |picks|
  {
    if picks == [] then {}
    else Taken(picks[..|picks| - 1]) + (match picks[|picks| - 1] case Some(p) => {p} case None => {})
  }

  /** The choice of each valid team, earliest first: the first of its own
      preferences not taken by an earlier team. */
  function ValidPicks(ts: seq<Team>, catalog: set<string>): (r: seq<Option<string>>)
    ensures |r| == |ts|
    decreases |ts|
  {
    if ts == [] then []
    else
      var prev := ValidPicks(ts[..|ts| - 1], catalog);
      prev + [FirstFree(ts[|ts| - 1].projects, catalog, Taken(prev))]
  }

  /** Set `assigned_project` wherever a choice was made. */
  function ApplyPicks(ts: seq<Team>, picks: seq<Option<string>>): (r: seq<Team>)
    requires |picks| == |ts|
    ensures |r| == |ts|
    ensures forall i :: 0 <= i < |ts| ==>
      r[i] == ts[i].(assignedProject := if picks[i].Some? then picks[i] else ts[i].assignedProject)
  {
    seq(|ts|, i requires 0 <= i < |ts| =>
      ts[i].(assignedProject := if picks[i].Some? then picks[i] else ts[i].assignedProject))
  }

  lemma {:induction false} TakenIn(picks: seq<Option<string>>, p: string)
    ensures p in Taken(picks) <==> exists i :: 0 <= i < |picks| && picks[i] == Some(p)
    decreases |picks|
  {
    if picks != [] {
      var init := picks[..|picks| - 1];
      TakenIn(init, p);
      assert forall i :: 0 <= i < |init| ==> init[i] == picks[i];
    }
  }

  lemma {:induction false} TakenSize(picks: seq<Option<string>>)
    ensures |Taken(picks)| <= |picks|
    decreases |picks|
  {
    if picks != [] {
      TakenSize(picks[..|picks| - 1]);
    }
  }

  lemma {:induction false} ValidPicksPrefix(ts: seq<Team>, catalog: set<string>, i: int)
    requires 0 <= i <= |ts|
    ensures ValidPicks(ts, catalog)[..i] == ValidPicks(ts[..i], catalog)
    decreases |ts|
  {
    if i < |ts| {
      var n := |ts| - 1;
      ValidPicksPrefix(ts[..n], catalog, i);
      assert ts[..n][..i] == ts[..i];
      assert ValidPicks(ts, catalog)[..n] == ValidPicks(ts[..n], catalog);
    } else {
      assert ts[..i] == ts;
    }
  }

  /** Each valid team gets the first of its own preferences that no earlier
      team has taken; a team whose every preference is taken gets nothing. */
  lemma PickIsFirstFree(ts: seq<Team>, catalog: set<string>, i: int)
    requires 0 <= i < |ts|
    ensures ValidPicks(ts, catalog)[i]
      == FirstFree(ts[i].projects, catalog, Taken(ValidPicks(ts, catalog)[..i]))
  {
    ValidPicksPrefix(ts, catalog, i + 1);
    ValidPicksPrefix(ts, catalog, i);
    assert ts[..i + 1][..i] == ts[..i];
    assert ValidPicks(ts, catalog)[..i + 1][i] == ValidPicks(ts, catalog)[i];
  }

  predicate ChoicesDistinct(ps: seq<Option<string>>) {
    forall i, j :: 0 <= i < j < |ps| && ps[j].Some? ==> ps[i] != ps[j]
  }

  /** No project is chosen twice: a project a later team chose was chosen by
      no earlier team. (That an earlier team wins a contested preference is
      `PickIsFirstFree` with `FirstFree`.) */
  lemma {:induction false} ValidPicksDistinct(ts: seq<Team>, catalog: set<string>)
    ensures ChoicesDistinct(ValidPicks(ts, catalog))
    decreases |ts|
  {
    if ts != [] {
      var n := |ts| - 1;
      var prev := ValidPicks(ts[..n], catalog);
      var ps := ValidPicks(ts, catalog);
      ValidPicksDistinct(ts[..n], catalog);
      assert ps == prev + [FirstFree(ts[n].projects, catalog, Taken(prev))];
      assert forall k :: 0 <= k < n ==> ps[k] == prev[k];
      forall i | 0 <= i < n && ps[n].Some? ensures ps[i] != ps[n] {
        TakenIn(prev, ps[n].value);
        assert ps[n].value !in Taken(prev);
        assert prev[i] == ps[i];
      }
      forall i, j | 0 <= i < j < |ps| && ps[j].Some? ensures ps[i] != ps[j] {
        if j < n {
          assert ps[i] == prev[i] && ps[j] == prev[j];
        } else {
          assert j == n;
        }
      }
    }
  }

  /** The valid teams after the preferred allocation: same teams, each with its
      choice set when it has one, and all choices distinct. */
  predicate AssignmentsDistinct(ts: seq<Team>) {
    forall i, j :: 0 <= i < j < |ts| && ts[i].assignedProject.Some? && ts[j].assignedProject.Some? ==>
      ts[i].assignedProject != ts[j].assignedProject
  }

  /** Teams that start with no assignment end the preferred allocation with
      distinct assignments, all of them in the taken set, which has at most
      one project per team. */
  lemma ValidAllocationDistinct(ts: seq<Team>, catalog: set<string>)
    requires forall i :: 0 <= i < |ts| ==> ts[i].assignedProject.None?
    ensures var ps := ValidPicks(ts, catalog);
      var out := ApplyPicks(ts, ps);
      AssignmentsDistinct(out)
      && (forall i :: 0 <= i < |out| && out[i].assignedProject.Some? ==>
            out[i].assignedProject.value in Taken(ps) && out[i].assignedProject.value in catalog)
      && (forall p :: p in Taken(ps) ==> exists i :: 0 <= i < |out| && out[i].assignedProject == Some(p))
      && |Taken(ps)| <= |ts|
  {
    var ps := ValidPicks(ts, catalog);
    var out := ApplyPicks(ts, ps);
    ValidPicksDistinct(ts, catalog);
    TakenSize(ps);
    forall i | 0 <= i < |out| && out[i].assignedProject.Some?
      ensures out[i].assignedProject.value in Taken(ps) && out[i].assignedProject.value in catalog
    {
      TakenIn(ps, out[i].assignedProject.value);
      PickIsFirstFree(ts, catalog, i);
    }
    forall p | p in Taken(ps) ensures exists i :: 0 <= i < |out| && out[i].assignedProject == Some(p) {
      TakenIn(ps, p);
    }
  }

  /** A team with its choice applied. */
  function WithPick(t: Team, pick: Option<string>): Team {
    t.(assignedProject := if pick.Some? then pick else t.assignedProject)
  }

  lemma PicksStep(ts: seq<Team>, catalog: set<string>, i: int)
    requires 0 <= i < |ts|
    ensures ValidPicks(ts[..i + 1], catalog)
      == ValidPicks(ts[..i], catalog) + [FirstFree(ts[i].projects, catalog, Taken(ValidPicks(ts[..i], catalog)))]
  {
    assert ts[..i + 1][..i] == ts[..i];
  }

  lemma TakenStep(picks: seq<Option<string>>, pick: Option<string>)
    ensures Taken(picks + [pick]) == Taken(picks) + (match pick case Some(p) => {p} case None => {})
  {
    assert (picks + [pick])[..|picks|] == picks;
  }

  /** One more valid team of the preferred allocation. */
  lemma AllocationStep(ts: seq<Team>, catalog: set<string>, i: int)
    requires 0 <= i < |ts|
    ensures var prev := ValidPicks(ts[..i], catalog);
      var pick := FirstFree(ts[i].projects, catalog, Taken(prev));
      Taken(ValidPicks(ts[..i + 1], catalog)) == Taken(prev) + (match pick case Some(p) => {p} case None => {})
      && ApplyPicks(ts[..i + 1], ValidPicks(ts[..i + 1], catalog)) == ApplyPicks(ts[..i], prev) + [WithPick(ts[i], pick)]
  {
    var prev := ValidPicks(ts[..i], catalog);
    var pick := FirstFree(ts[i].projects, catalog, Taken(prev));
    PicksStep(ts, catalog, i);
    TakenStep(prev, pick);
    ApplyPicksAppend(ts[..i], prev, ts[i], pick);
    assert ts[..i] + [ts[i]] == ts[..i + 1];
  }

  lemma ApplyPicksAppend(ts: seq<Team>, picks: seq<Option<string>>, t: Team, pick: Option<string>)
    requires |picks| == |ts|
    ensures ApplyPicks(ts + [t], picks + [pick]) == ApplyPicks(ts, picks) + [WithPick(t, pick)]
  {
    var l, r := ApplyPicks(ts + [t], picks + [pick]), ApplyPicks(ts, picks) + [WithPick(t, pick)];
    forall k | 0 <= k < |l| ensures l[k] == r[k] {
      if k < |ts| {
        assert (ts + [t])[k] == ts[k] && (picks + [pick])[k] == picks[k];
      }
    }
  }

  /** Scan one team's preferences for the first free one (the inner loop). */
  method FindFree(prefs: seq<string>, catalog: set<string>, taken: set<string>)
    returns (r: Option<string>)
    ensures r == FirstFree(prefs, catalog, taken)
  {
    var j := 0;
    while j < |prefs|
      invariant 0 <= j <= |prefs|
      invariant FirstFree(prefs, catalog, taken) == FirstFree(prefs[j..], catalog, taken)
    {
      if prefs[j] in catalog && prefs[j] !in taken {
        return Some(prefs[j]);
      }
      assert prefs[j..][1..] == prefs[j + 1..];
      j := j + 1;
    }
    return None;
  }

  /** The nested preferred-allocation loops over the sorted valid teams. */
  method AllocatePreferred(ts: seq<Team>, catalog: set<string>)
    returns (out: seq<Team>, chosen: set<string>)
    ensures out == ApplyPicks(ts, ValidPicks(ts, catalog))
    ensures chosen == Taken(ValidPicks(ts, catalog))
  {
    out := [];
    chosen := {};
    var i := 0;
    while i < |ts|
      invariant 0 <= i <= |ts|
      invariant out == ApplyPicks(ts[..i], ValidPicks(ts[..i], catalog))
      invariant chosen == Taken(ValidPicks(ts[..i], catalog))
    {
      var pick := FindFree(ts[i].projects, catalog, chosen);
      AllocationStep(ts, catalog, i);
      out := out + [WithPick(ts[i], pick)];
      if pick.Some? {
        chosen := chosen + {pick.value};
      }
      i := i + 1;
    }
    assert ts[..i] == ts;
  }

  // ---------------------------------------------------------------------
  // Fallback allocation for invalid and other teams

  /** The outcome of the fallback walk over `invalid_teams + other_teams`:
      only `assigned_project` changes; the i-th team gets the i-th shuffled
      remaining project while they last, and after that some catalog project. */
  predicate FallbackAssigned(walk: seq<Team>, out: seq<Team>, remaining: seq<string>, catalog: set<string>) {
    |out| == |walk|
    && (forall i :: 0 <= i < |walk| ==> out[i] == walk[i].(assignedProject := out[i].assignedProject))
    && (forall i :: 0 <= i < |walk| && i < |remaining| ==> out[i].assignedProject == Some(remaining[i]))
    && (forall i :: |remaining| <= i < |walk| ==>
          out[i].assignedProject.Some? && out[i].assignedProject.value in catalog)
  }

  /** The fallback loop; `random.choice` is the choice of some catalog project. */
  method AssignFallback(walk: seq<Team>, remaining: seq<string>, catalog: set<string>)
    returns (out: seq<Team>)
    requires catalog != {} || |walk| <= |remaining|
    ensures FallbackAssigned(walk, out, remaining, catalog)
  {
    out := walk;
    var i := 0;
    while i < |walk|
      invariant 0 <= i <= |walk| && |out| == |walk|
      invariant forall k :: 0 <= k < |walk| ==> out[k] == walk[k].(assignedProject := out[k].assignedProject)
      invariant forall k :: 0 <= k < i && k < |remaining| ==> out[k].assignedProject == Some(remaining[k])
      invariant forall k :: |remaining| <= k < i ==>
        out[k].assignedProject.Some? && out[k].assignedProject.value in catalog
    {
      if i < |remaining| {
        out := out[i := out[i].(assignedProject := Some(remaining[i]))];
      } else {
        var p :| p in catalog;
        out := out[i := out[i].(assignedProject := Some(p))];
      }
      i := i + 1;
    }
  }

  /** While the shuffled remainder lasts, the fallback projects are distinct
      from each other and from every valid team's project, so all chosen
      projects are unique. */
  lemma FallbackUnique(valid: seq<Team>, taken: set<string>, catalog: set<string>,
                       remaining: seq<string>, fallback: seq<Team>)
    requires AssignmentsDistinct(valid)
    requires forall i :: 0 <= i < |valid| && valid[i].assignedProject.Some? ==>
      valid[i].assignedProject.value in taken
    requires IsEnumeration(remaining, catalog - taken)
    requires |fallback| <= |remaining|
    requires forall i :: 0 <= i < |fallback| ==> fallback[i].assignedProject == Some(remaining[i])
    ensures AssignmentsDistinct(valid + fallback)
    ensures forall i :: 0 <= i < |fallback| ==> fallback[i].assignedProject.Some?
  {
    var all := valid + fallback;
    forall i, j | 0 <= i < j < |all| && all[i].assignedProject.Some? && all[j].assignedProject.Some?
      ensures all[i].assignedProject != all[j].assignedProject
    {
      if j >= |valid| {
        var pj := remaining[j - |valid|];
        assert pj in Elems(remaining);
        if i < |valid| {
          assert all[i].assignedProject.value in taken;
        } else {
          assert all[i].assignedProject == Some(remaining[i - |valid|]);
        }
      }
    }
  }

  /** When the catalog has at least as many projects as there are teams, the
      shuffled remainder covers the whole fallback walk. */
  lemma CatalogSufficient(ts: seq<Team>, catalog: set<string>, remaining: seq<string>, walkLength: nat)
    requires IsEnumeration(remaining, catalog - Taken(ValidPicks(ts, catalog)))
    requires |catalog| >= |ts| + walkLength
    ensures walkLength <= |remaining|
  {
    var taken := Taken(ValidPicks(ts, catalog));
    TakenSize(ValidPicks(ts, catalog));
    EnumerationLength(remaining, catalog - taken);
    assert catalog - taken + (catalog * taken) == catalog;
    assert |catalog * taken| <= |taken| by {
      assert catalog * taken <= taken;
    }
  }

  /** Uniqueness under sufficiency: when teams start unassigned and the catalog
      has at least one project per team, every fallback team gets a project and
      no project is assigned to two teams. */
  lemma DistributionUnique(sorted: seq<Team>, walk: seq<Team>, out: seq<Team>,
                           remaining: seq<string>, catalog: set<string>)
    requires forall i :: 0 <= i < |sorted| ==> sorted[i].assignedProject.None?
    requires IsEnumeration(remaining, catalog - Taken(ValidPicks(sorted, catalog)))
    requires FallbackAssigned(walk, out, remaining, catalog)
    requires |catalog| >= |sorted| + |walk|
    ensures AssignmentsDistinct(ApplyPicks(sorted, ValidPicks(sorted, catalog)) + out)
    ensures forall i :: 0 <= i < |out| ==> out[i].assignedProject.Some?
  {
    var ps := ValidPicks(sorted, catalog);
    ValidAllocationDistinct(sorted, catalog);
    CatalogSufficient(sorted, catalog, remaining, |walk|);
    FallbackUnique(ApplyPicks(sorted, ps), Taken(ps), catalog, remaining, out);
  }
}
