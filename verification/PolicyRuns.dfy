/** The policy endpoints as steps over the stores, and the invariant of whole runs. */
module PolicyRuns {
  import opened Divergence
  import opened Policy
  import opened PolicyEngine
  import opened PolicySweep

  datatype Request =
    | SystemPut(field: string, spec: PolicySpec)
    | SystemDelete(field: string)
    | WorkspacePut(w: string, field: string, spec: PolicySpec)
    | WorkspaceDelete(w: string, field: string)
    | AppPut(w: string, a: string, field: string, spec: PolicySpec)
    | AppDelete(w: string, a: string, field: string)

  datatype Response =
    | Updated(cascaded: seq<ClampOutcome>)
    | Deleted
    | PolicyNotFound
    | WorkspaceNotFound
    | AppNotFound
    | Violated(violation: Violation)

  // ---- one request ----------------------------------------------------------------------

  function PutSystem(s: Store, t: Topology, field: string, spec: PolicySpec): (Store, Response) {
    var s' := s.(master := s.master[field := spec]);
    (Sweep(s', t, t.realms, field, spec), Updated(Outcomes(s', t, t.realms, field, spec)))
  }

  function PutWorkspace(s: Store, t: Topology, w: string, field: string, spec: PolicySpec): (Store, Response) {
    if w !in t.realms then (s, WorkspaceNotFound)
    else match ChainError(field, MasterLevel(s, field) + [PolicyLevel("workspace", spec)], 1)
      case Some(v) => (s, Violated(v))
      case None =>
        (s.(spaces := s.spaces[(w, field) := spec], apps := SweptApps(s.apps, w, t.AppsOf(w), field, spec)),
         Updated(AppOutcomes(s.apps, w, t.AppsOf(w), field, spec)))
  }

  function PutApp(s: Store, t: Topology, w: string, a: string, field: string, spec: PolicySpec): (Store, Response) {
    if a !in t.AppsOf(w) then (s, AppNotFound)
    else match ChainError(field, MasterLevel(s, field) + SpaceLevel(s, w, field) + [PolicyLevel("app", spec)], 1)
      case Some(v) => (s, Violated(v))
      case None => (s.(apps := s.apps[(w, a, field) := spec]), Updated([]))
  }

  function Step(s: Store, t: Topology, r: Request): (Store, Response) {
    match r
    case SystemPut(field, spec) => PutSystem(s, t, field, spec)
    case SystemDelete(field) =>
      if field in s.master then (s.(master := s.master - {field}), Deleted) else (s, PolicyNotFound)
    case WorkspacePut(w, field, spec) => PutWorkspace(s, t, w, field, spec)
    case WorkspaceDelete(w, field) =>
      if w !in t.realms then (s, WorkspaceNotFound)
      else if (w, field) in s.spaces then (s.(spaces := s.spaces - {(w, field)}), Deleted) else (s, PolicyNotFound)
    case AppPut(w, a, field, spec) => PutApp(s, t, w, a, field, spec)
    case AppDelete(w, a, field) =>
      if w !in t.realms then (s, WorkspaceNotFound)
      else if a !in t.AppsOf(w) then (s, AppNotFound)
      else if (w, a, field) in s.apps then (s.(apps := s.apps - {(w, a, field)}), Deleted) else (s, PolicyNotFound)
  }

  method HandleSystemPut(db: PolicyTables, field: string, spec: PolicySpec) returns (answer: Response)
    requires db.topology.Valid()
    modifies db
    ensures (db.View(), answer) == Step(old(db.View()), db.topology, SystemPut(field, spec))
  {
    db.master := db.master[field := spec];
    var cascaded := db.CascadeMasterToRealmsAndApps(field, spec);
    answer := Updated(cascaded);
  }

  method HandleSystemDelete(db: PolicyTables, field: string) returns (answer: Response)
    modifies db
    ensures (db.View(), answer) == Step(old(db.View()), db.topology, SystemDelete(field))
  {
    if field !in db.master { return PolicyNotFound; }
    db.master := db.master - {field};
    answer := Deleted;
  }

  method HandleWorkspacePut(db: PolicyTables, w: string, field: string, spec: PolicySpec) returns (answer: Response)
    requires db.topology.Valid()
    modifies db
    ensures (db.View(), answer) == Step(old(db.View()), db.topology, WorkspacePut(w, field, spec))
  {
    if w !in db.topology.realms { return WorkspaceNotFound; }
    var chain := [];
    if field in db.master { chain := chain + [PolicyLevel("master", db.master[field])]; }
    assert chain == MasterLevel(db.View(), field);
    chain := chain + [PolicyLevel("workspace", spec)];
    var error := ValidateChain(field, chain);
    if error.Some? { return Violated(error.value); }
    db.spaces := db.spaces[(w, field) := spec];
    var cascaded := db.CascadeRealmToApps(w, field, spec);
    answer := Updated(cascaded);
  }

  method HandleWorkspaceDelete(db: PolicyTables, w: string, field: string) returns (answer: Response)
    modifies db
    ensures (db.View(), answer) == Step(old(db.View()), db.topology, WorkspaceDelete(w, field))
  {
    if w !in db.topology.realms { return WorkspaceNotFound; }
    if (w, field) !in db.spaces { return PolicyNotFound; }
    db.spaces := db.spaces - {(w, field)};
    answer := Deleted;
  }

  method HandleAppPut(db: PolicyTables, w: string, a: string, field: string, spec: PolicySpec)
      returns (answer: Response)
    modifies db
    ensures (db.View(), answer) == Step(old(db.View()), db.topology, AppPut(w, a, field, spec))
  {
    if a !in db.topology.AppsOf(w) { return AppNotFound; }
    var chain := [];
    if field in db.master { chain := chain + [PolicyLevel("master", db.master[field])]; }
    assert chain == MasterLevel(db.View(), field);
    if (w, field) in db.spaces { chain := chain + [PolicyLevel("workspace", db.spaces[(w, field)])]; }
    assert chain == MasterLevel(db.View(), field) + SpaceLevel(db.View(), w, field);
    chain := chain + [PolicyLevel("app", spec)];
    var error := ValidateChain(field, chain);
    if error.Some? { return Violated(error.value); }
    db.apps := db.apps[(w, a, field) := spec];
    answer := Updated([]);
  }

  method HandleAppDelete(db: PolicyTables, w: string, a: string, field: string) returns (answer: Response)
    modifies db
    ensures (db.View(), answer) == Step(old(db.View()), db.topology, AppDelete(w, a, field))
  {
    if w !in db.topology.realms { return WorkspaceNotFound; }
    if a !in db.topology.AppsOf(w) { return AppNotFound; }
    if (w, a, field) !in db.apps { return PolicyNotFound; }
    db.apps := db.apps - {(w, a, field)};
    answer := Deleted;
  }

  // ---- the invariant -----------------------------------------------------------------------

  /** Every value stored for `field` outside the reserved workspace fits its nearest stored ancestor. */
  ghost predicate Fits(s: Store, field: string) {
    && (forall w | (w, field) in s.spaces && w != MASTER_WORKSPACE_ID :: SpaceFits(s, w, field))
    && (forall w, a | (w, a, field) in s.apps && w != MASTER_WORKSPACE_ID :: AppFits(s, w, a, field))
  }

  ghost predicate Inv(s: Store) { forall field: string :: Fits(s, field) }

  /** Rows exist only in the databases of registered workspaces and apps. */
  ghost predicate Placed(s: Store, t: Topology) {
    && (forall w, f | (w, f) in s.spaces :: w in t.realms)
    && (forall w, a, f | (w, a, f) in s.apps :: w in t.realms && a in t.AppsOf(w))
  }

  datatype Kind = RangeKind | ToggleKind | EnumSetKind | FreeKind

  function KindOf(p: PolicySpec): (k: Kind) {
    match p
    case Range(_, _) => RangeKind
    case Toggle(_) => ToggleKind
    case EnumSet(_) => EnumSetKind
    case Free(_) => FreeKind
  }

  predicate Conforms(kinds: map<string, Kind>, field: string, p: PolicySpec) {
    field in kinds && KindOf(p) == kinds[field] && WellFormed(p)
  }

  /** A knob has one kind at every level, and ranges are proper. */
  ghost predicate Typed(s: Store, kinds: map<string, Kind>) {
    && (forall f | f in s.master :: Conforms(kinds, f, s.master[f]))
    && (forall k | k in s.spaces :: Conforms(kinds, k.1, s.spaces[k]))
    && (forall k | k in s.apps :: Conforms(kinds, k.2, s.apps[k]))
  }

  predicate TypedRequest(r: Request, kinds: map<string, Kind>) {
    r.SystemPut? || r.WorkspacePut? || r.AppPut? ==> Conforms(kinds, r.field, r.spec)
  }

  /**
   * A workspace deletion is safe unless master locks a toggle, the workspace leaves it open, and one of
   * the workspace's apps has used that freedom to choose the other value.
   */
  predicate Safe(s: Store, t: Topology, r: Request) {
    r.WorkspaceDelete? && r.w in t.realms && r.w != MASTER_WORKSPACE_ID &&
    (r.w, r.field) in s.spaces && r.field in s.master && s.master[r.field].Toggle? && s.master[r.field].t.Locked? &&
    s.spaces[(r.w, r.field)].Toggle? && s.spaces[(r.w, r.field)].t.Open?
    ==> forall a | a in t.AppsOf(r.w) && (r.w, a, r.field) in s.apps && s.apps[(r.w, a, r.field)].Toggle? ::
          s.apps[(r.w, a, r.field)].t.Effective() == s.master[r.field].t.value
  }

  lemma FitConforms(kinds: map<string, Kind>, field: string, p: PolicySpec, c: PolicySpec)
    requires Conforms(kinds, field, p) && Conforms(kinds, field, c)
    ensures Conforms(kinds, field, Fit(p, c)) && Allows(p, Fit(p, c))
  {
    FitLaws(p, c);
  }

  /** Setting a master value makes its field fit everywhere, whatever was stored before. */
  lemma SystemPutHeals(s: Store, t: Topology, kinds: map<string, Kind>, field: string, spec: PolicySpec)
    requires t.Valid() && Placed(s, t) && Typed(s, kinds) && Conforms(kinds, field, spec)
    ensures Fits(PutSystem(s, t, field, spec).0, field)
  {
    var s' := PutSystem(s, t, field, spec).0;
    forall w | (w, field) in s'.spaces && w != MASTER_WORKSPACE_ID ensures SpaceFits(s', w, field) {
      FitConforms(kinds, field, spec, s.spaces[(w, field)]);
    }
    forall w, a | (w, a, field) in s'.apps && w != MASTER_WORKSPACE_ID ensures AppFits(s', w, a, field) {
      if (w, field) in s.spaces { FitConforms(kinds, field, spec, s.spaces[(w, field)]); }
      FitConforms(kinds, field, Bound(s.(master := s.master[field := spec]), w, field, spec), s.apps[(w, a, field)]);
    }
  }

  lemma WorkspacePutFits(s: Store, t: Topology, kinds: map<string, Kind>, w: string, field: string, spec: PolicySpec)
    requires t.Valid() && Placed(s, t) && Typed(s, kinds) && Fits(s, field) && Conforms(kinds, field, spec)
    ensures Fits(PutWorkspace(s, t, w, field, spec).0, field)
  {
    var s' := PutWorkspace(s, t, w, field, spec).0;
    var chain := MasterLevel(s, field) + [PolicyLevel("workspace", spec)];
    var i := ChainErrorIsFirst(field, chain, 1);
    if w in t.realms && ValidChain(chain) {
      if field in s.master { assert !Offends(chain, 1); }
      forall x | (x, field) in s'.spaces && x != MASTER_WORKSPACE_ID ensures SpaceFits(s', x, field) {
        if x != w { assert SpaceFits(s, x, field); }
      }
      forall x, a | (x, a, field) in s'.apps && x != MASTER_WORKSPACE_ID ensures AppFits(s', x, a, field) {
        if x == w { FitConforms(kinds, field, spec, s.apps[(x, a, field)]); } else { assert AppFits(s, x, a, field); }
      }
    }
  }

  lemma AppPutFits(s: Store, t: Topology, w: string, a: string, field: string, spec: PolicySpec)
    requires Fits(s, field)
    ensures Fits(PutApp(s, t, w, a, field, spec).0, field)
  {
    var s' := PutApp(s, t, w, a, field, spec).0;
    var chain := MasterLevel(s, field) + SpaceLevel(s, w, field) + [PolicyLevel("app", spec)];
    var i := ChainErrorIsFirst(field, chain, 1);
    if a in t.AppsOf(w) && ValidChain(chain) {
      assert |chain| > 1 ==> !Offends(chain, |chain| - 1);
      forall x | (x, field) in s'.spaces && x != MASTER_WORKSPACE_ID ensures SpaceFits(s', x, field) {
        assert SpaceFits(s, x, field);
      }
      forall x, b | (x, b, field) in s'.apps && x != MASTER_WORKSPACE_ID ensures AppFits(s', x, b, field) {
        if (x, b) != (w, a) { assert AppFits(s, x, b, field); }
      }
    }
  }

  lemma SystemDeleteFits(s: Store, field: string)
    requires Fits(s, field)
    ensures Fits(s.(master := s.master - {field}), field)
  {
    var s' := s.(master := s.master - {field});
    forall x, b | (x, b, field) in s'.apps && x != MASTER_WORKSPACE_ID ensures AppFits(s', x, b, field) {
      assert AppFits(s, x, b, field);
    }
  }

  lemma AppDeleteFits(s: Store, w: string, a: string, field: string)
    requires Fits(s, field)
    ensures Fits(s.(apps := s.apps - {(w, a, field)}), field)
  {
    var s' := s.(apps := s.apps - {(w, a, field)});
    forall x | (x, field) in s'.spaces && x != MASTER_WORKSPACE_ID ensures SpaceFits(s', x, field) {
      assert SpaceFits(s, x, field);
    }
    forall x, b | (x, b, field) in s'.apps && x != MASTER_WORKSPACE_ID ensures AppFits(s', x, b, field) {
      assert AppFits(s, x, b, field);
    }
  }

  /** Through a middle value, refinement carries over except through an open toggle below a locked one. */
  lemma AllowsThrough(a: PolicySpec, b: PolicySpec, c: PolicySpec)
    requires Allows(a, b) && Allows(b, c)
    ensures Allows(a, c) <==>
            (a.Toggle? && a.t.Locked? && b.Toggle? && b.t.Open? && c.Toggle? ==> c.t.Effective() == a.t.value)
  {
  }

  lemma WorkspaceDeleteFits(s: Store, t: Topology, w: string, field: string)
    requires Placed(s, t) && Fits(s, field) && w in t.realms && (w, field) in s.spaces
    ensures Fits(s.(spaces := s.spaces - {(w, field)}), field) <==> Safe(s, t, WorkspaceDelete(w, field))
  {
    var s' := s.(spaces := s.spaces - {(w, field)});
    forall x | (x, field) in s'.spaces && x != MASTER_WORKSPACE_ID ensures SpaceFits(s', x, field) {
      assert SpaceFits(s, x, field);
    }
    forall x, a | (x, a, field) in s.apps && x != w && x != MASTER_WORKSPACE_ID ensures AppFits(s', x, a, field) {
      assert AppFits(s, x, a, field);
    }
    if w != MASTER_WORKSPACE_ID && field in s.master {
      assert SpaceFits(s, w, field);
      forall a | (w, a, field) in s.apps
        ensures AppFits(s', w, a, field) <==>
                (s.master[field].Toggle? && s.master[field].t.Locked? && s.spaces[(w, field)].Toggle? &&
                 s.spaces[(w, field)].t.Open? && s.apps[(w, a, field)].Toggle?
                 ==> s.apps[(w, a, field)].t.Effective() == s.master[field].t.value)
      {
        assert AppFits(s, w, a, field);
        AllowsThrough(s.master[field], s.spaces[(w, field)], s.apps[(w, a, field)]);
      }
    }
  }

  /** Both stores hold the same values for `field`. */
  ghost predicate SameOn(s: Store, s': Store, field: string) {
    && (field in s.master <==> field in s'.master) && (field in s.master ==> s'.master[field] == s.master[field])
    && (forall w :: (w, field) in s'.spaces <==> (w, field) in s.spaces)
    && (forall w | (w, field) in s.spaces :: s'.spaces[(w, field)] == s.spaces[(w, field)])
    && (forall w, a :: (w, a, field) in s'.apps <==> (w, a, field) in s.apps)
    && (forall w, a | (w, a, field) in s.apps :: s'.apps[(w, a, field)] == s.apps[(w, a, field)])
  }

  /** A request touches no field but its own. */
  lemma OtherFieldsUntouched(s: Store, t: Topology, r: Request, other: string)
    requires other != r.field
    ensures SameOn(s, Step(s, t, r).0, other)
  {
    match r
    case SystemPut(field, spec) => SystemPutElsewhere(s, t, field, spec, other);
    case _ =>
  }

  lemma SystemPutElsewhere(s: Store, t: Topology, field: string, spec: PolicySpec, other: string)
    requires other != field
    ensures SameOn(s, PutSystem(s, t, field, spec).0, other)
  {
  }

  lemma SameOnFits(s: Store, s': Store, field: string)
    requires SameOn(s, s', field) && Fits(s, field)
    ensures Fits(s', field)
  {
    forall w | (w, field) in s'.spaces && w != MASTER_WORKSPACE_ID ensures SpaceFits(s', w, field) {
      assert SpaceFits(s, w, field);
    }
    forall w, a | (w, a, field) in s'.apps && w != MASTER_WORKSPACE_ID ensures AppFits(s', w, a, field) {
      assert AppFits(s, w, a, field);
    }
  }

  lemma StepKeepsShape(s: Store, t: Topology, kinds: map<string, Kind>, r: Request)
    requires t.Valid() && Placed(s, t) && Typed(s, kinds) && TypedRequest(r, kinds)
    ensures Placed(Step(s, t, r).0, t)
  {
    if r.AppPut? && r.a in t.AppsOf(r.w) { assert r.w in t.realms; }
  }

  lemma StepKeepsKinds(s: Store, t: Topology, kinds: map<string, Kind>, r: Request)
    requires Typed(s, kinds) && TypedRequest(r, kinds)
    ensures Typed(Step(s, t, r).0, kinds)
  {
    match r
    case SystemPut(field, spec) => SweepKeepsKinds(s, t, kinds, field, spec);
    case WorkspacePut(w, field, spec) =>
      forall k | k in s.apps && k.2 == field ensures Conforms(kinds, field, Fit(spec, s.apps[k])) {
        FitConforms(kinds, field, spec, s.apps[k]);
      }
    case _ =>
  }

  lemma SweepKeepsKinds(s: Store, t: Topology, kinds: map<string, Kind>, field: string, m: PolicySpec)
    requires Typed(s, kinds) && Conforms(kinds, field, m)
    ensures Typed(PutSystem(s, t, field, m).0, kinds)
  {
    var s1 := s.(master := s.master[field := m]);
    forall k | k in s.spaces && k.1 == field ensures Conforms(kinds, field, Fit(m, s.spaces[k])) {
      FitConforms(kinds, field, m, s.spaces[k]);
    }
    forall k | k in s.apps && k.2 == field ensures Conforms(kinds, field, Fit(Bound(s1, k.0, field, m), s.apps[k])) {
      FitConforms(kinds, field, Bound(s1, k.0, field, m), s.apps[k]);
    }
  }

  /** One request keeps the invariant exactly when it is safe. */
  lemma StepKeepsInv(s: Store, t: Topology, kinds: map<string, Kind>, r: Request)
    requires t.Valid() && Placed(s, t) && Typed(s, kinds) && TypedRequest(r, kinds) && Inv(s)
    ensures Inv(Step(s, t, r).0) <==> Safe(s, t, r)
  {
    var s' := Step(s, t, r).0;
    forall other: string | other != r.field ensures Fits(s', other) {
      assert Fits(s, other);
      OtherFieldsUntouched(s, t, r, other);
      SameOnFits(s, s', other);
    }
    assert Inv(s') <==> Fits(s', r.field);
    assert Fits(s, r.field);
    match r
    case SystemPut(field, spec) => SystemPutHeals(s, t, kinds, field, spec);
    case SystemDelete(field) => SystemDeleteFits(s, field);
    case WorkspacePut(w, field, spec) => WorkspacePutFits(s, t, kinds, w, field, spec);
    case WorkspaceDelete(w, field) =>
      if w in t.realms && (w, field) in s.spaces { WorkspaceDeleteFits(s, t, w, field); }
    case AppPut(w, a, field, spec) => AppPutFits(s, t, w, a, field, spec);
    case AppDelete(w, a, field) => AppDeleteFits(s, w, a, field);
  }

  // ---- whole runs ----------------------------------------------------------------------------

  /** The state reached after `requests`, starting with no stored policy. */
  function Run(t: Topology, requests: seq<Request>): Store {
    if requests == [] then Store(map[], map[], map[])
    else Step(Run(t, requests[..|requests| - 1]), t, requests[|requests| - 1]).0
  }

  predicate TypedRun(requests: seq<Request>, kinds: map<string, Kind>) {
    forall i | 0 <= i < |requests| :: TypedRequest(requests[i], kinds)
  }

  /** The invariant holds once the first `n` requests are done. */
  ghost predicate InvAt(t: Topology, requests: seq<Request>, n: nat)
    requires n <= |requests|
  {
    Inv(Run(t, requests[..n]))
  }

  ghost predicate SafeAt(t: Topology, requests: seq<Request>, n: nat)
    requires n < |requests|
  {
    Safe(Run(t, requests[..n]), t, requests[n])
  }

  lemma RunStep(t: Topology, requests: seq<Request>, n: nat)
    requires n < |requests|
    ensures Run(t, requests[..n + 1]) == Step(Run(t, requests[..n]), t, requests[n]).0
  {
    assert requests[..n + 1][..n] == requests[..n];
  }

  lemma {:induction false} RunTyped(t: Topology, requests: seq<Request>, kinds: map<string, Kind>, n: nat)
    requires t.Valid() && TypedRun(requests, kinds) && n <= |requests|
    ensures Placed(Run(t, requests[..n]), t) && Typed(Run(t, requests[..n]), kinds)
  {
    if n > 0 {
      RunTyped(t, requests, kinds, n - 1);
      RunStep(t, requests, n - 1);
      StepKeepsShape(Run(t, requests[..n - 1]), t, kinds, requests[n - 1]);
      StepKeepsKinds(Run(t, requests[..n - 1]), t, kinds, requests[n - 1]);
    }
  }

  lemma InvStep(t: Topology, requests: seq<Request>, kinds: map<string, Kind>, n: nat)
    requires t.Valid() && TypedRun(requests, kinds) && n < |requests| && InvAt(t, requests, n)
    ensures InvAt(t, requests, n + 1) <==> SafeAt(t, requests, n)
  {
    RunTyped(t, requests, kinds, n);
    RunStep(t, requests, n);
    StepKeepsInv(Run(t, requests[..n]), t, kinds, requests[n]);
  }

  lemma InvStart(t: Topology, requests: seq<Request>)
    ensures InvAt(t, requests, 0)
  {
    assert Run(t, requests[..0]) == Store(map[], map[], map[]);
  }

  /** Every reachable state keeps each value below its nearest stored ancestor, exactly over the safe runs. */
  lemma PolicyRunInvariant(t: Topology, requests: seq<Request>, kinds: map<string, Kind>)
    requires t.Valid() && TypedRun(requests, kinds)
    ensures (forall n | 0 <= n <= |requests| :: InvAt(t, requests, n)) <==>
            (forall n | 0 <= n < |requests| :: SafeAt(t, requests, n))
  {
    var kept := seq(|requests| + 1, i requires 0 <= i <= |requests| => InvAt(t, requests, i));
    var safe := seq(|requests|, i requires 0 <= i < |requests| => SafeAt(t, requests, i));
    InvStart(t, requests);
    forall i | 0 <= i < |requests| && kept[i] ensures kept[i + 1] <==> safe[i] { InvStep(t, requests, kinds, i); }
    FirstDivergence(kept, safe);
    assert forall i | 0 <= i <= |requests| :: kept[i] <==> InvAt(t, requests, i);
    assert forall i | 0 <= i < |requests| :: safe[i] <==> SafeAt(t, requests, i);
  }

  /** In particular over every run that deletes no toggle from a workspace. */
  lemma OtherKindsAlwaysSafe(t: Topology, requests: seq<Request>, kinds: map<string, Kind>)
    requires t.Valid() && TypedRun(requests, kinds)
    requires forall i | 0 <= i < |requests| && requests[i].WorkspaceDelete? ::
               requests[i].field in kinds ==> kinds[requests[i].field] != ToggleKind
    ensures forall n | 0 <= n <= |requests| :: InvAt(t, requests, n)
  {
    forall n | 0 <= n < |requests| ensures SafeAt(t, requests, n) { RunTyped(t, requests, kinds, n); }
    PolicyRunInvariant(t, requests, kinds);
  }

  /** The condition is needed: four ordinary requests leave an app contradicting master's lock. */
  lemma DeletionCanBreakToggle() returns (t: Topology, requests: seq<Request>, kinds: map<string, Kind>)
    ensures t.Valid() && |requests| == 4 && TypedRun(requests, kinds)
    ensures InvAt(t, requests, 3) && !InvAt(t, requests, 4)
  {
    var w, a, f := "acme", "shop", "signup";
    assert w != MASTER_WORKSPACE_ID by { assert w[0] == 'a'; }
    t, requests, kinds := BreakingRun(w, a, f);
  }

  function WitnessRun(w: string, a: string, f: string): seq<Request> {
    [SystemPut(f, Toggle(Locked(true))), WorkspacePut(w, f, Toggle(Open(true))), AppPut(w, a, f, Toggle(Locked(false))),
     WorkspaceDelete(w, f)]
  }

  lemma WitnessTyped(w: string, a: string, f: string)
    ensures TypedRun(WitnessRun(w, a, f), map[f := ToggleKind]) && Topology([w], map[w := [a]]).Valid()
  {
  }

  lemma UnsafeDelete(s: Store, t: Topology, w: string, a: string, f: string)
    requires t == Topology([w], map[w := [a]]) && w != MASTER_WORKSPACE_ID
    requires s.master == map[f := Toggle(Locked(true))] && s.spaces == map[(w, f) := Toggle(Open(true))]
    requires s.apps == map[(w, a, f) := Toggle(Locked(false))]
    ensures Inv(s) && !Safe(s, t, WorkspaceDelete(w, f))
  {
    assert SpaceFits(s, w, f) && AppFits(s, w, a, f);
    assert (w, a, f) in s.apps && a in t.AppsOf(w);
  }

  lemma BreakingRun(w: string, a: string, f: string)
      returns (t: Topology, requests: seq<Request>, kinds: map<string, Kind>)
    requires w != MASTER_WORKSPACE_ID
    ensures t.Valid() && |requests| == 4 && TypedRun(requests, kinds)
    ensures InvAt(t, requests, 3) && !InvAt(t, requests, 4)
  {
    t, requests, kinds := Topology([w], map[w := [a]]), WitnessRun(w, a, f), map[f := ToggleKind];
    WitnessTyped(w, a, f);
    WitnessStates(t, requests, w, a, f, Toggle(Locked(true)), Toggle(Open(true)), Toggle(Locked(false)));
    UnsafeDelete(Run(t, requests[..3]), t, w, a, f);
    InvStep(t, requests, kinds, 3);
  }

  lemma WitnessStates(t: Topology, requests: seq<Request>, w: string, a: string, f: string,
      locked: PolicySpec, open: PolicySpec, other: PolicySpec)
    requires t == Topology([w], map[w := [a]])
    requires locked == Toggle(Locked(true)) && open == Toggle(Open(true)) && other == Toggle(Locked(false))
    requires requests == [SystemPut(f, locked), WorkspacePut(w, f, open), AppPut(w, a, f, other), WorkspaceDelete(w, f)]
    ensures Run(t, requests[..2]) == Store(map[f := locked], map[(w, f) := open], map[])
    ensures Run(t, requests[..3]) == Store(map[f := locked], map[(w, f) := open], map[(w, a, f) := other])
  {
    RunStep(t, requests, 0);
    RunStep(t, requests, 1);
    RunStep(t, requests, 2);
    FirstPut(t, f, locked);
    SecondPut(t, w, f, locked, open);
    ThirdPut(t, w, a, f, locked, open, other);
  }

  lemma FirstPut(t: Topology, f: string, locked: PolicySpec)
    ensures PutSystem(Store(map[], map[], map[]), t, f, locked).0 == Store(map[f := locked], map[], map[])
  {
  }

  lemma SecondPut(t: Topology, w: string, f: string, locked: PolicySpec, open: PolicySpec)
    requires w in t.realms && Allows(locked, open)
    ensures PutWorkspace(Store(map[f := locked], map[], map[]), t, w, f, open).0 ==
            Store(map[f := locked], map[(w, f) := open], map[])
  {
    var chain := [PolicyLevel("master", locked), PolicyLevel("workspace", open)];
    assert MasterLevel(Store(map[f := locked], map[], map[]), f) + [PolicyLevel("workspace", open)] == chain;
    var i := ChainErrorIsFirst(f, chain, 1);
  }

  lemma ThirdPut(t: Topology, w: string, a: string, f: string, locked: PolicySpec, open: PolicySpec, other: PolicySpec)
    requires a in t.AppsOf(w) && Allows(locked, open) && Allows(open, other)
    ensures PutApp(Store(map[f := locked], map[(w, f) := open], map[]), t, w, a, f, other).0 ==
            Store(map[f := locked], map[(w, f) := open], map[(w, a, f) := other])
  {
    var s := Store(map[f := locked], map[(w, f) := open], map[]);
    var m, x, y := PolicyLevel("master", locked), PolicyLevel("workspace", open), PolicyLevel("app", other);
    assert MasterLevel(s, f) + SpaceLevel(s, w, f) + [y] == [m, x, y];
    ValidShort(m, x, y);
    var i := ChainErrorIsFirst(f, [m, x, y], 1);
  }
}
