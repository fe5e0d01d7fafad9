/** The sweeps that push a changed bound down through the workspace and app stores. */
module PolicyEngine {
  import opened Wrappers
  import opened Policy

  const MASTER_WORKSPACE_ID: string := "master"

  /** The registered workspaces, in listing order, and the apps registered in each. */
  datatype Topology = Topology(realms: seq<string>, appsIn: map<string, seq<string>>) {
    function AppsOf(w: string): seq<string> { if w in appsIn then appsIn[w] else [] }

    ghost predicate Valid() {
      && Distinct(realms) && (forall w | w in appsIn :: w in realms && Distinct(appsIn[w]))
    }
  }

  ghost predicate Distinct(s: seq<string>) { forall i, j | 0 <= i < j < |s| :: s[i] != s[j] }

  /** One policies table per scope, each keyed by field. */
  datatype Store = Store(
    master: map<string, PolicySpec>,
    spaces: SpaceRows,
    apps: AppRows)

  type SpaceRows = map<(string, string), PolicySpec>

  type AppRows = map<(string, string, string), PolicySpec>

  datatype ClampOutcome =
    ClampOutcome(workspace: string, app: Option<string>, field: string, before: PolicySpec, after: PolicySpec)

  // ---- what the app sweep computes ---------------------------------------------------

  function SweptApps(apps: AppRows, w: string, ids: seq<string>, field: string, b: PolicySpec)
    : (r: AppRows)
    ensures r.Keys == apps.Keys
  {
    map k | k in apps :: if k.0 == w && k.1 in ids && k.2 == field then Fit(b, apps[k]) else apps[k]
  }

  function AppOutcome(apps: AppRows, w: string, id: string, field: string, b: PolicySpec)
    : seq<ClampOutcome>
  {
    var k := (w, id, field);
    if k in apps && !Allows(b, apps[k]) then [ClampOutcome(w, Some(id), field, apps[k], Clamp(b, apps[k]))] else []
  }

  function AppOutcomes(apps: AppRows, w: string, ids: seq<string>, field: string, b: PolicySpec)
    : seq<ClampOutcome>
  {
    if ids == [] then []
    else AppOutcomes(apps, w, ids[..|ids| - 1], field, b) + AppOutcome(apps, w, ids[|ids| - 1], field, b)
  }

  // ---- what the master sweep computes ------------------------------------------------------

  /** The bound that the apps of `w` are held to once master is `m`. */
  function Bound(s: Store, w: string, field: string, m: PolicySpec): PolicySpec {
    if (w, field) in s.spaces then Fit(m, s.spaces[(w, field)]) else m
  }

  predicate Swept(realms: seq<string>, w: string) { w in realms && w != MASTER_WORKSPACE_ID }

  function SweptSpaces(s: Store, realms: seq<string>, field: string, m: PolicySpec): (r: SpaceRows)
    ensures r.Keys == s.spaces.Keys
  {
    map k | k in s.spaces :: if Swept(realms, k.0) && k.1 == field then Fit(m, s.spaces[k]) else s.spaces[k]
  }

  function SweptBelow(s: Store, t: Topology, realms: seq<string>, field: string, m: PolicySpec)
    : (r: AppRows)
    ensures r.Keys == s.apps.Keys
  {
    map k | k in s.apps ::
      if Swept(realms, k.0) && k.1 in t.AppsOf(k.0) && k.2 == field then Fit(Bound(s, k.0, field, m), s.apps[k])
      else s.apps[k]
  }

  /** The store after a master sweep over `realms`. */
  function Sweep(s: Store, t: Topology, realms: seq<string>, field: string, m: PolicySpec): Store {
    Store(s.master, SweptSpaces(s, realms, field, m), SweptBelow(s, t, realms, field, m))
  }

  function SpaceOutcome(s: Store, w: string, field: string, m: PolicySpec): seq<ClampOutcome> {
    var k := (w, field);
    if k in s.spaces && !Allows(m, s.spaces[k])
    then [ClampOutcome(w, None, field, s.spaces[k], Clamp(m, s.spaces[k]))] else []
  }

  function RealmOutcomes(s: Store, t: Topology, w: string, field: string, m: PolicySpec): seq<ClampOutcome> {
    if w == MASTER_WORKSPACE_ID then []
    else SpaceOutcome(s, w, field, m) + AppOutcomes(s.apps, w, t.AppsOf(w), field, Bound(s, w, field, m))
  }

  /** One entry per clamped value: workspace by workspace, each workspace before its apps. */
  function Outcomes(s: Store, t: Topology, realms: seq<string>, field: string, m: PolicySpec): seq<ClampOutcome> {
    if realms == [] then []
    else Outcomes(s, t, realms[..|realms| - 1], field, m) + RealmOutcomes(s, t, realms[|realms| - 1], field, m)
  }

  /** The store that results from performing the logged writes in order. */
  function Replay(s: Store, outcomes: seq<ClampOutcome>): Store {
    if outcomes == [] then s
    else
      var before, o := Replay(s, outcomes[..|outcomes| - 1]), outcomes[|outcomes| - 1];
      match o.app
      case None => before.(spaces := before.spaces[(o.workspace, o.field) := o.after])
      case Some(id) => before.(apps := before.apps[(o.workspace, id, o.field) := o.after])
  }

  lemma {:induction false} ReplayConcat(s: Store, a: seq<ClampOutcome>, b: seq<ClampOutcome>)
    ensures Replay(s, a + b) == Replay(Replay(s, a), b)
    decreases |b|
  {
    if b == [] {
      assert a + b == a;
    } else {
      assert (a + b)[..|a + b| - 1] == a + b[..|b| - 1];
      ReplayConcat(s, a, b[..|b| - 1]);
    }
  }

  // ---- one step of each sweep ------------------------------------------------------------

  lemma AppOutcomesStep(apps: AppRows, w: string, done: seq<string>, id: string, field: string, b: PolicySpec)
    ensures AppOutcomes(apps, w, done + [id], field, b) ==
            AppOutcomes(apps, w, done, field, b) + AppOutcome(apps, w, id, field, b)
  {
    assert (done + [id])[..|done|] == done;
  }

  /** What the sweep does to one app. */
  function FitApp(apps: AppRows, k: (string, string, string), b: PolicySpec): AppRows {
    if k in apps && !Allows(b, apps[k]) then apps[k := Clamp(b, apps[k])] else apps
  }

  lemma AppStep(apps: AppRows, w: string, done: seq<string>, id: string, field: string, b: PolicySpec)
    requires id !in done
    ensures var before := SweptApps(apps, w, done, field, b);
            && SweptApps(apps, w, done + [id], field, b) == FitApp(before, (w, id, field), b)
            && AppOutcome(before, w, id, field, b) == AppOutcome(apps, w, id, field, b)
  {
    var k, before := (w, id, field), SweptApps(apps, w, done, field, b);
    var after := SweptApps(apps, w, done + [id], field, b);
    assert k in before ==> before[k] == apps[k];
    forall j | j in before && j != k ensures after[j] == before[j] {
      assert j.0 == w && j.2 == field ==> j.1 != id;
    }
  }

  /** What the sweep does to one workspace and its apps. */
  function SweepOne(s: Store, t: Topology, w: string, field: string, m: PolicySpec): Store {
    var k := (w, field);
    Store(
      s.master,
      if k in s.spaces then s.spaces[k := Fit(m, s.spaces[k])] else s.spaces,
      SweptApps(s.apps, w, t.AppsOf(w), field, Bound(s, w, field, m)))
  }

  lemma SpaceStep(s: Store, t: Topology, done: seq<string>, w: string, field: string, m: PolicySpec)
    requires w !in done && w != MASTER_WORKSPACE_ID
    ensures SweptSpaces(s, done + [w], field, m) == SweepOne(Sweep(s, t, done, field, m), t, w, field, m).spaces
  {
    var before, k := SweptSpaces(s, done, field, m), (w, field);
    var after := SweptSpaces(s, done + [w], field, m);
    assert k in before ==> before[k] == s.spaces[k];
    forall j | j in before && j != k ensures after[j] == before[j] {}
  }

  lemma BelowStep(s: Store, t: Topology, done: seq<string>, w: string, field: string, m: PolicySpec)
    requires w !in done && w != MASTER_WORKSPACE_ID
    ensures SweptBelow(s, t, done + [w], field, m) == SweepOne(Sweep(s, t, done, field, m), t, w, field, m).apps
  {
    BoundLocal(s, t, done, w, field, m);
    var before, after := SweptBelow(s, t, done, field, m), SweptBelow(s, t, done + [w], field, m);
    forall j | j in before
      ensures after[j] == SweptApps(before, w, t.AppsOf(w), field, Bound(s, w, field, m))[j]
    {
      BelowAt(s, t, done, w, field, m, j);
    }
  }

  lemma BelowAt(
      s: Store, t: Topology, done: seq<string>, w: string, field: string, m: PolicySpec, j: (string, string, string))
    requires w !in done && w != MASTER_WORKSPACE_ID && j in s.apps
    ensures SweptBelow(s, t, done + [w], field, m)[j] ==
            SweptApps(SweptBelow(s, t, done, field, m), w, t.AppsOf(w), field, Bound(s, w, field, m))[j]
  {
    if j.0 == w {
      assert SweptBelow(s, t, done, field, m)[j] == s.apps[j];
    } else {
      assert Swept(done + [w], j.0) <==> Swept(done, j.0);
    }
  }

  lemma SweepStep(s: Store, t: Topology, done: seq<string>, w: string, field: string, m: PolicySpec)
    requires w !in done && w != MASTER_WORKSPACE_ID
    ensures Sweep(s, t, done + [w], field, m) == SweepOne(Sweep(s, t, done, field, m), t, w, field, m)
  {
    SpaceStep(s, t, done, w, field, m);
    BelowStep(s, t, done, w, field, m);
  }

  lemma BoundLocal(s: Store, t: Topology, done: seq<string>, w: string, field: string, m: PolicySpec)
    requires w !in done
    ensures Bound(Sweep(s, t, done, field, m), w, field, m) == Bound(s, w, field, m)
  {
  }

  lemma OutcomesLocal(s: Store, t: Topology, done: seq<string>, w: string, field: string, m: PolicySpec)
    requires w !in done && w != MASTER_WORKSPACE_ID
    ensures RealmOutcomes(Sweep(s, t, done, field, m), t, w, field, m) == RealmOutcomes(s, t, w, field, m)
  {
    BoundLocal(s, t, done, w, field, m);
    AppOutcomesLocal(SweptBelow(s, t, done, field, m), s.apps, w, t.AppsOf(w), field, Bound(s, w, field, m));
  }

  lemma {:induction false} AppOutcomesLocal(x: AppRows,
      y: AppRows, w: string, ids: seq<string>, field: string, b: PolicySpec)
    requires x.Keys == y.Keys && forall k | k in x && k.0 == w :: x[k] == y[k]
    ensures AppOutcomes(x, w, ids, field, b) == AppOutcomes(y, w, ids, field, b)
  {
    if ids != [] { AppOutcomesLocal(x, y, w, ids[..|ids| - 1], field, b); }
  }

  lemma MasterStep(s: Store, t: Topology, done: seq<string>, field: string, m: PolicySpec)
    ensures Sweep(s, t, done + [MASTER_WORKSPACE_ID], field, m) == Sweep(s, t, done, field, m)
  {
  }

  lemma PrefixGrows(ids: seq<string>, i: nat)
    requires Distinct(ids) && i < |ids|
    ensures ids[..i + 1] == ids[..i] + [ids[i]] && ids[i] !in ids[..i]
  {
  }

  lemma SweepNone(s: Store, t: Topology, field: string, m: PolicySpec)
    ensures Sweep(s, t, [], field, m) == s
  {
  }

  lemma OutcomesStep(s: Store, t: Topology, done: seq<string>, w: string, field: string, m: PolicySpec)
    ensures Outcomes(s, t, done + [w], field, m) == Outcomes(s, t, done, field, m) + RealmOutcomes(s, t, w, field, m)
  {
    assert (done + [w])[..|done|] == done;
  }

  class PolicyTables {
    const topology: Topology
    var master: map<string, PolicySpec>
    var spaces: SpaceRows
    var apps: AppRows

    constructor (t: Topology)
      ensures topology == t && View() == Store(map[], map[], map[])
    {
      topology, master, spaces, apps := t, map[], map[], map[];
    }

    function View(): Store
      reads this
    {
      Store(master, spaces, apps)
    }

    method CascadeRealmToApps(w: string, field: string, bound: PolicySpec) returns (outcomes: seq<ClampOutcome>)
      requires topology.Valid()
      modifies this`apps
      ensures apps == SweptApps(old(apps), w, topology.AppsOf(w), field, bound)
      ensures outcomes == AppOutcomes(old(apps), w, topology.AppsOf(w), field, bound)
    {
      outcomes := [];
      var ids := topology.AppsOf(w);
      assert apps == SweptApps(old(apps), w, [], field, bound);
      for i := 0 to |ids|
        invariant apps == SweptApps(old(apps), w, ids[..i], field, bound)
        invariant outcomes == AppOutcomes(old(apps), w, ids[..i], field, bound)
      {
        PrefixGrows(ids, i);
        AppOutcomesStep(old(apps), w, ids[..i], ids[i], field, bound);
        AppStep(old(apps), w, ids[..i], ids[i], field, bound);
        var more := CascadeOneApp(w, ids[i], field, bound);
        outcomes := outcomes + more;
      }
      assert ids[..|ids|] == ids;
    }

    /** The body of both sweeps for one app. */
    method CascadeOneApp(w: string, id: string, field: string, bound: PolicySpec) returns (outcomes: seq<ClampOutcome>)
      modifies this`apps
      ensures apps == FitApp(old(apps), (w, id, field), bound)
      ensures outcomes == AppOutcome(old(apps), w, id, field, bound)
    {
      var k := (w, id, field);
      if k !in apps || Allows(bound, apps[k]) { return []; }
      var after := Clamp(bound, apps[k]);
      outcomes := [ClampOutcome(w, Some(id), field, apps[k], after)];
      apps := apps[k := after];
    }

    /** The body of the master sweep for one workspace. */
    method CascadeOneRealm(w: string, field: string, m: PolicySpec) returns (outcomes: seq<ClampOutcome>)
      requires topology.Valid() && w != MASTER_WORKSPACE_ID
      modifies this`spaces, this`apps
      ensures View() == SweepOne(old(View()), topology, w, field, m)
      ensures outcomes == RealmOutcomes(old(View()), topology, w, field, m)
    {
      outcomes := [];
      var current := m;
      var k := (w, field);
      if k in spaces {
        if !Allows(m, spaces[k]) {
          current := Clamp(m, spaces[k]);
          outcomes := outcomes + [ClampOutcome(w, None, field, spaces[k], current)];
          spaces := spaces[k := current];
        } else {
          current := spaces[k];
        }
      }
      assert current == Bound(old(View()), w, field, m);
      assert outcomes == SpaceOutcome(old(View()), w, field, m);
      var below := CascadeRealmToApps(w, field, current);
      outcomes := outcomes + below;
    }

    method CascadeMasterToRealmsAndApps(field: string, m: PolicySpec) returns (outcomes: seq<ClampOutcome>)
      requires topology.Valid()
      modifies this`spaces, this`apps
      ensures View() == Sweep(old(View()), topology, topology.realms, field, m)
      ensures outcomes == Outcomes(old(View()), topology, topology.realms, field, m)
    {
      outcomes := [];
      ghost var s, t := View(), topology;
      var realms := topology.realms;
      SweepNone(s, t, field, m);
      for i := 0 to |realms|
        invariant View() == Sweep(s, t, realms[..i], field, m)
        invariant outcomes == Outcomes(s, t, realms[..i], field, m)
      {
        var w := realms[i];
        ghost var done := realms[..i];
        PrefixGrows(realms, i);
        OutcomesStep(s, t, done, w, field, m);
        if w == MASTER_WORKSPACE_ID {
          MasterStep(s, t, done, field, m);
        } else {
          SweepStep(s, t, done, w, field, m);
          OutcomesLocal(s, t, done, w, field, m);
          var more := CascadeOneRealm(w, field, m);
          outcomes := outcomes + more;
        }
      }
      assert realms[..|realms|] == realms;
    }
  }
}
