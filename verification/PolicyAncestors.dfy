/** A stored value against all its stored ancestors, not only the nearest: when master's locks bind the apps. */
module PolicyAncestors {
  import opened Divergence
  import opened Policy
  import opened PolicyEngine
  import opened PolicySweep
  import opened PolicyRuns

  predicate AppUnderMaster(s: Store, w: string, a: string, field: string)
    requires (w, a, field) in s.apps
  {
    field in s.master ==> Allows(s.master[field], s.apps[(w, a, field)])
  }

  /** Every value stored for `field` outside the reserved workspace is allowed by every value stored above it. */
  ghost predicate FitsAll(s: Store, field: string) {
    && Fits(s, field)
    && (forall w, a | (w, a, field) in s.apps && w != MASTER_WORKSPACE_ID :: AppUnderMaster(s, w, a, field))
  }

  ghost predicate DeepInv(s: Store) { forall field: string :: FitsAll(s, field) }

  /** Master locks the toggle, the workspace leaves it open, and the app has chosen the other value. */
  predicate Evades(master: PolicySpec, space: PolicySpec, app: PolicySpec) {
    && master.Toggle? && master.t.Locked? && space.Toggle? && space.t.Open? && app.Toggle?
    && app.t.Effective() != master.t.value
  }

  predicate Evasion(s: Store, w: string, a: string, field: string) {
    && field in s.master && (w, field) in s.spaces && (w, a, field) in s.apps
    && Evades(s.master[field], s.spaces[(w, field)], s.apps[(w, a, field)])
  }

  lemma UnderMasterOrEvades(s: Store, w: string, a: string, field: string)
    requires Fits(s, field) && (w, a, field) in s.apps && w != MASTER_WORKSPACE_ID
    ensures AppUnderMaster(s, w, a, field) <==> !Evasion(s, w, a, field)
  {
    assert AppFits(s, w, a, field);
    if field in s.master && (w, field) in s.spaces {
      assert SpaceFits(s, w, field);
      AllowsThrough(s.master[field], s.spaces[(w, field)], s.apps[(w, a, field)]);
    }
  }

  /** The nearest ancestor decides, unless the app evades a lock through an open workspace. */
  lemma DeepIsNoEvasion(s: Store, field: string)
    requires Fits(s, field)
    ensures FitsAll(s, field) <==> forall w, a | w != MASTER_WORKSPACE_ID :: !Evasion(s, w, a, field)
  {
    forall w, a | (w, a, field) in s.apps && w != MASTER_WORKSPACE_ID
      ensures AppUnderMaster(s, w, a, field) <==> !Evasion(s, w, a, field)
    {
      UnderMasterOrEvades(s, w, a, field);
    }
  }

  /** A lock is set, or an app value put, past no open workspace with an app on the other side. */
  predicate Binding(s: Store, t: Topology, r: Request) {
    match r
    case SystemPut(field, spec) =>
      forall k | k in s.apps && k.2 == field && k.0 != MASTER_WORKSPACE_ID && (k.0, field) in s.spaces ::
        !(Evades(spec, s.spaces[(k.0, field)], s.apps[k]) && s.spaces[(k.0, field)].t.default == spec.t.value)
    case AppPut(w, a, field, spec) =>
      a in t.AppsOf(w) && w != MASTER_WORKSPACE_ID && field in s.master && (w, field) in s.spaces ==>
        !Evades(s.master[field], s.spaces[(w, field)], spec)
    case _ => true
  }

  lemma SystemPutEvasion(s: Store, t: Topology, field: string, spec: PolicySpec, w: string, a: string)
    requires Placed(s, t) && w != MASTER_WORKSPACE_ID
    ensures Evasion(PutSystem(s, t, field, spec).0, w, a, field) <==>
            && (w, field) in s.spaces && (w, a, field) in s.apps
            && Evades(spec, s.spaces[(w, field)], s.apps[(w, a, field)])
            && s.spaces[(w, field)].t.default == spec.t.value
  {
  }

  lemma SystemPutBinds(s: Store, t: Topology, kinds: map<string, Kind>, field: string, spec: PolicySpec)
    requires t.Valid() && Placed(s, t) && Typed(s, kinds) && Conforms(kinds, field, spec)
    ensures FitsAll(PutSystem(s, t, field, spec).0, field) <==> Binding(s, t, SystemPut(field, spec))
  {
    var s' := PutSystem(s, t, field, spec).0;
    SystemPutHeals(s, t, kinds, field, spec);
    DeepIsNoEvasion(s', field);
    forall w, a | w != MASTER_WORKSPACE_ID
      ensures Evasion(s', w, a, field) <==>
              && (w, field) in s.spaces && (w, a, field) in s.apps
              && Evades(spec, s.spaces[(w, field)], s.apps[(w, a, field)])
              && s.spaces[(w, field)].t.default == spec.t.value
    {
      SystemPutEvasion(s, t, field, spec, w, a);
    }
  }

  lemma WorkspacePutBinds(s: Store, t: Topology, kinds: map<string, Kind>, w: string, field: string, spec: PolicySpec)
    requires t.Valid() && Placed(s, t) && Typed(s, kinds) && FitsAll(s, field) && Conforms(kinds, field, spec)
    ensures FitsAll(PutWorkspace(s, t, w, field, spec).0, field)
  {
    var s' := PutWorkspace(s, t, w, field, spec).0;
    WorkspacePutFits(s, t, kinds, w, field, spec);
    DeepIsNoEvasion(s', field);
    DeepIsNoEvasion(s, field);
    forall x, a | x != MASTER_WORKSPACE_ID ensures !Evasion(s', x, a, field) {
      if (x, a, field) in s.apps && s' != s {
        if x == w { assert AppUnderMaster(s, x, a, field); } else { assert !Evasion(s, x, a, field); }
      } else {
        assert !Evasion(s, x, a, field);
      }
    }
  }

  /** Nothing refuses an app value that evades the lock. */
  lemma EvasionAccepted(s: Store, t: Topology, w: string, a: string, field: string, spec: PolicySpec)
    requires Fits(s, field) && a in t.AppsOf(w) && w != MASTER_WORKSPACE_ID
    requires field in s.master && (w, field) in s.spaces && Evades(s.master[field], s.spaces[(w, field)], spec)
    ensures PutApp(s, t, w, a, field, spec).1.Updated?
  {
    var m, x := PolicyLevel("master", s.master[field]), PolicyLevel("workspace", s.spaces[(w, field)]);
    var y := PolicyLevel("app", spec);
    assert SpaceFits(s, w, field);
    assert MasterLevel(s, field) + SpaceLevel(s, w, field) + [y] == [m, x, y];
    ValidShort(m, x, y);
    var i := ChainErrorIsFirst(field, [m, x, y], 1);
  }

  lemma AppPutBinds(s: Store, t: Topology, w: string, a: string, field: string, spec: PolicySpec)
    requires FitsAll(s, field)
    ensures FitsAll(PutApp(s, t, w, a, field, spec).0, field) <==> Binding(s, t, AppPut(w, a, field, spec))
  {
    var s' := PutApp(s, t, w, a, field, spec).0;
    AppPutFits(s, t, w, a, field, spec);
    DeepIsNoEvasion(s, field);
    DeepIsNoEvasion(s', field);
    if !Binding(s, t, AppPut(w, a, field, spec)) {
      EvasionAccepted(s, t, w, a, field, spec);
      assert Evasion(s', w, a, field);
    } else if PutApp(s, t, w, a, field, spec).1.Updated? {
      forall x, b | x != MASTER_WORKSPACE_ID ensures !Evasion(s', x, b, field) {
        if (x, b) != (w, a) { assert !Evasion(s, x, b, field); }
      }
    }
  }

  lemma WorkspaceDeleteBinds(s: Store, t: Topology, w: string, field: string)
    requires Placed(s, t) && FitsAll(s, field) && w in t.realms && (w, field) in s.spaces
    ensures FitsAll(s.(spaces := s.spaces - {(w, field)}), field)
  {
    var s' := s.(spaces := s.spaces - {(w, field)});
    forall a | a in t.AppsOf(w) && (w, a, field) in s.apps && w != MASTER_WORKSPACE_ID
      ensures AppUnderMaster(s, w, a, field)
    {
    }
    WorkspaceDeleteFits(s, t, w, field);
    forall x, a | (x, a, field) in s'.apps && x != MASTER_WORKSPACE_ID ensures AppUnderMaster(s', x, a, field) {
      assert AppUnderMaster(s, x, a, field);
    }
  }

  lemma DeletesBind(s: Store, w: string, a: string, field: string)
    requires FitsAll(s, field)
    ensures FitsAll(s.(master := s.master - {field}), field) && FitsAll(s.(apps := s.apps - {(w, a, field)}), field)
  {
    SystemDeleteFits(s, field);
    AppDeleteFits(s, w, a, field);
    var s' := s.(apps := s.apps - {(w, a, field)});
    forall x, b | (x, b, field) in s'.apps && x != MASTER_WORKSPACE_ID ensures AppUnderMaster(s', x, b, field) {
      assert AppUnderMaster(s, x, b, field);
    }
  }

  lemma OtherFieldsBound(s: Store, t: Topology, r: Request, other: string)
    requires other != r.field && FitsAll(s, other)
    ensures FitsAll(Step(s, t, r).0, other)
  {
    var s' := Step(s, t, r).0;
    OtherFieldsUntouched(s, t, r, other);
    SameOnFits(s, s', other);
    forall w, a | (w, a, other) in s'.apps && w != MASTER_WORKSPACE_ID ensures AppUnderMaster(s', w, a, other) {
      assert AppUnderMaster(s, w, a, other);
    }
  }

  /** One request keeps every value under all its ancestors exactly when it is binding. Deletions always do. */
  lemma StepKeepsDeepInv(s: Store, t: Topology, kinds: map<string, Kind>, r: Request)
    requires t.Valid() && Placed(s, t) && Typed(s, kinds) && TypedRequest(r, kinds) && DeepInv(s)
    ensures DeepInv(Step(s, t, r).0) <==> Binding(s, t, r)
  {
    var s' := Step(s, t, r).0;
    forall other: string | other != r.field ensures FitsAll(s', other) {
      assert FitsAll(s, other);
      OtherFieldsBound(s, t, r, other);
    }
    assert DeepInv(s') <==> FitsAll(s', r.field);
    assert FitsAll(s, r.field);
    match r
    case SystemPut(field, spec) => SystemPutBinds(s, t, kinds, field, spec);
    case SystemDelete(field) => DeletesBind(s, "", "", field);
    case WorkspacePut(w, field, spec) => WorkspacePutBinds(s, t, kinds, w, field, spec);
    case WorkspaceDelete(w, field) =>
      if w in t.realms && (w, field) in s.spaces { WorkspaceDeleteBinds(s, t, w, field); }
    case AppPut(w, a, field, spec) => AppPutBinds(s, t, w, a, field, spec);
    case AppDelete(w, a, field) => DeletesBind(s, w, a, field);
  }

  // ---- whole runs ------------------------------------------------------------------------

  ghost predicate DeepInvAt(t: Topology, requests: seq<Request>, n: nat)
    requires n <= |requests|
  {
    DeepInv(Run(t, requests[..n]))
  }

  ghost predicate BindingAt(t: Topology, requests: seq<Request>, n: nat)
    requires n < |requests|
  {
    Binding(Run(t, requests[..n]), t, requests[n])
  }

  lemma DeepStart(t: Topology, requests: seq<Request>)
    ensures DeepInvAt(t, requests, 0)
  {
    assert Run(t, requests[..0]) == Store(map[], map[], map[]);
  }

  lemma DeepStep(t: Topology, requests: seq<Request>, kinds: map<string, Kind>, n: nat)
    requires t.Valid() && TypedRun(requests, kinds) && n < |requests| && DeepInvAt(t, requests, n)
    ensures DeepInvAt(t, requests, n + 1) <==> BindingAt(t, requests, n)
  {
    RunTyped(t, requests, kinds, n);
    RunStep(t, requests, n);
    StepKeepsDeepInv(Run(t, requests[..n]), t, kinds, requests[n]);
  }

  /** In every state of a run each value is allowed by all its stored ancestors, exactly over the binding runs. */
  lemma AncestorInvariant(t: Topology, requests: seq<Request>, kinds: map<string, Kind>)
    requires t.Valid() && TypedRun(requests, kinds)
    ensures (forall n | 0 <= n <= |requests| :: DeepInvAt(t, requests, n)) <==>
            (forall n | 0 <= n < |requests| :: BindingAt(t, requests, n))
  {
    var deep := seq(|requests| + 1, i requires 0 <= i <= |requests| => DeepInvAt(t, requests, i));
    var binding := seq(|requests|, i requires 0 <= i < |requests| => BindingAt(t, requests, i));
    DeepStart(t, requests);
    forall i | 0 <= i < |requests| && deep[i] ensures deep[i + 1] <==> binding[i] { DeepStep(t, requests, kinds, i); }
    FirstDivergence(deep, binding);
    assert forall i | 0 <= i <= |requests| :: deep[i] <==> DeepInvAt(t, requests, i);
    assert forall i | 0 <= i < |requests| :: binding[i] <==> BindingAt(t, requests, i);
  }

  /** Three accepted requests store an app value that master's lock forbids. */
  lemma LocksCanBeEvaded(w: string, a: string, f: string)
      returns (t: Topology, requests: seq<Request>, kinds: map<string, Kind>)
    requires w != MASTER_WORKSPACE_ID
    ensures t.Valid() && |requests| == 4 && TypedRun(requests, kinds)
    ensures DeepInvAt(t, requests, 2) && !DeepInvAt(t, requests, 3)
    ensures Step(Run(t, requests[..2]), t, requests[2]).1.Updated?
  {
    t, requests, kinds := Topology([w], map[w := [a]]), WitnessRun(w, a, f), map[f := ToggleKind];
    WitnessTyped(w, a, f);
    WitnessStates(t, requests, w, a, f, Toggle(Locked(true)), Toggle(Open(true)), Toggle(Locked(false)));
    EvasionPossible(Run(t, requests[..2]), t, w, a, f);
    DeepStep(t, requests, kinds, 2);
  }

  lemma EvasionPossible(s: Store, t: Topology, w: string, a: string, f: string)
    requires t == Topology([w], map[w := [a]]) && w != MASTER_WORKSPACE_ID
    requires s == Store(map[f := Toggle(Locked(true))], map[(w, f) := Toggle(Open(true))], map[])
    ensures DeepInv(s) && !Binding(s, t, AppPut(w, a, f, Toggle(Locked(false))))
    ensures Step(s, t, AppPut(w, a, f, Toggle(Locked(false)))).1.Updated?
  {
    assert SpaceFits(s, w, f);
    EvasionAccepted(s, t, w, a, f, Toggle(Locked(false)));
  }
}
