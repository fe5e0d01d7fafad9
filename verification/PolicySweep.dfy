/** The sweeps against the pure cascade: paths of stored levels, replayed writes, and quiet second sweeps. */
module PolicySweep {
  import opened Wrappers
  import opened Policy
  import opened PolicyEngine


  function MasterLevel(s: Store, field: string): seq<PolicyLevel> {
    if field in s.master then [PolicyLevel("master", s.master[field])] else []
  }

  function SpaceLevel(s: Store, w: string, field: string): seq<PolicyLevel> {
    if (w, field) in s.spaces then [PolicyLevel("workspace", s.spaces[(w, field)])] else []
  }

  function AppLevel(s: Store, w: string, app: Option<string>, field: string): seq<PolicyLevel> {
    if app.Some? && (w, app.value, field) in s.apps then [PolicyLevel("app", s.apps[(w, app.value, field)])] else []
  }

  /** The values stored for `field` on the path to a workspace, or to one of its apps. */
  function Path(s: Store, w: string, app: Option<string>, field: string): seq<PolicyLevel> {
    MasterLevel(s, field) + SpaceLevel(s, w, field) + AppLevel(s, w, app, field)
  }

  predicate Registered(t: Topology, w: string, app: Option<string>) {
    w in t.realms && (app.Some? ==> app.value in t.AppsOf(w))
  }

  lemma CascadeShort(a: PolicyLevel, b: PolicyLevel, c: PolicyLevel)
    ensures Cascade([a]) == [a]
    ensures Cascade([a, b]) == [a, PolicyLevel(b.level, Fit(a.spec, b.spec))]
    ensures Cascade([a, b, c]) ==
            [a, PolicyLevel(b.level, Fit(a.spec, b.spec)), PolicyLevel(c.level, Fit(Fit(a.spec, b.spec), c.spec))]
  {
    assert Fitted([a, b], 0) == a.spec && Fitted([a, b], 1) == Fit(a.spec, b.spec);
    assert Fitted([a, b, c], 0) == a.spec && Fitted([a, b, c], 1) == Fit(a.spec, b.spec);
    assert Fitted([a, b, c], 2) == Fit(Fit(a.spec, b.spec), c.spec);
  }

  lemma ValidShort(a: PolicyLevel, b: PolicyLevel, c: PolicyLevel)
    ensures ValidChain([]) && ValidChain([a])
    ensures ValidChain([a, b]) <==> Allows(a.spec, b.spec)
    ensures ValidChain([a, b, c]) <==> Allows(a.spec, b.spec) && Allows(b.spec, c.spec)
  {
    if Allows(a.spec, b.spec) && Allows(b.spec, c.spec) {
      forall i | 0 < i < 3 ensures !Offends([a, b, c], i) { assert i == 1 || i == 2; }
    }
    if ValidChain([a, b]) { assert !Offends([a, b], 1); }
    if ValidChain([a, b, c]) { assert !Offends([a, b, c], 1) && !Offends([a, b, c], 2); }
  }

  /** On every path below a master value, the sweep leaves exactly the cascade of what was stored there. */
  lemma SweepIsCascade(s: Store, t: Topology, field: string, w: string, app: Option<string>)
    requires field in s.master && Registered(t, w, app) && w != MASTER_WORKSPACE_ID
    ensures Path(Sweep(s, t, t.realms, field, s.master[field]), w, app, field) == Cascade(Path(s, w, app, field))
  {
    var m := PolicyLevel("master", s.master[field]);
    var x := if (w, field) in s.spaces then PolicyLevel("workspace", s.spaces[(w, field)]) else m;
    if app.Some? && (w, app.value, field) in s.apps {
      var y := PolicyLevel("app", s.apps[(w, app.value, field)]);
      CascadeShort(m, x, y);
      CascadeShort(m, y, y);
      assert Path(s, w, app, field) == if (w, field) in s.spaces then [m, x, y] else [m, y];
    } else {
      CascadeShort(m, x, x);
      assert Path(s, w, app, field) == if (w, field) in s.spaces then [m, x] else [m];
    }
  }

  // ---- the outcomes are the writes -----------------------------------------------------

  lemma {:induction false} AppsReplayed(s: Store, apps: AppRows, w: string, ids: seq<string>, field: string,
      b: PolicySpec)
    requires s.apps == apps && Distinct(ids)
    ensures Replay(s, AppOutcomes(apps, w, ids, field, b)) == s.(apps := SweptApps(apps, w, ids, field, b))
    decreases |ids|
  {
    if ids == [] {
      assert SweptApps(apps, w, [], field, b) == apps;
    } else {
      var done, id := ids[..|ids| - 1], ids[|ids| - 1];
      assert ids == done + [id];
      AppsReplayed(s, apps, w, done, field, b);
      AppStep(apps, w, done, id, field, b);
      AppOutcomesStep(apps, w, done, id, field, b);
      ReplayConcat(s, AppOutcomes(apps, w, done, field, b), AppOutcome(apps, w, id, field, b));
      ReplayOne(Replay(s, AppOutcomes(apps, w, done, field, b)), AppOutcome(apps, w, id, field, b));
    }
  }

  lemma ReplayOne(s: Store, o: seq<ClampOutcome>)
    requires |o| <= 1
    ensures o == [] ==> Replay(s, o) == s
    ensures |o| == 1 && o[0].app.None? ==>
            Replay(s, o) == s.(spaces := s.spaces[(o[0].workspace, o[0].field) := o[0].after])
    ensures |o| == 1 && o[0].app.Some? ==>
            Replay(s, o) == s.(apps := s.apps[(o[0].workspace, o[0].app.value, o[0].field) := o[0].after])
  {
    if |o| == 1 { assert o[..0] == []; }
  }

  lemma RealmReplayed(s: Store, t: Topology, w: string, field: string, m: PolicySpec)
    requires t.Valid() && w != MASTER_WORKSPACE_ID
    ensures Replay(s, RealmOutcomes(s, t, w, field, m)) == SweepOne(s, t, w, field, m)
  {
    var o := SpaceOutcome(s, w, field, m);
    var b := Bound(s, w, field, m);
    ReplayConcat(s, o, AppOutcomes(s.apps, w, t.AppsOf(w), field, b));
    ReplayOne(s, o);
    var k := (w, field);
    var s' := Replay(s, o);
    assert s'.spaces == if k in s.spaces then s.spaces[k := Fit(m, s.spaces[k])] else s.spaces;
    AppsReplayed(s', s.apps, w, t.AppsOf(w), field, b);
  }

  /** Performing the reported outcomes in order, and nothing else, takes the old store to the new one. */
  lemma {:induction false} OutcomesAreTheWrites(s: Store, t: Topology, realms: seq<string>, field: string,
      m: PolicySpec)
    requires t.Valid() && Distinct(realms)
    ensures Replay(s, Outcomes(s, t, realms, field, m)) == Sweep(s, t, realms, field, m)
    decreases |realms|
  {
    if realms == [] {
      assert Sweep(s, t, [], field, m) == s;
    } else {
      var done, w := realms[..|realms| - 1], realms[|realms| - 1];
      assert realms == done + [w] && w !in done;
      OutcomesAreTheWrites(s, t, done, field, m);
      OutcomesStep(s, t, done, w, field, m);
      var before := Sweep(s, t, done, field, m);
      ReplayConcat(s, Outcomes(s, t, done, field, m), RealmOutcomes(s, t, w, field, m));
      if w == MASTER_WORKSPACE_ID {
        MasterStep(s, t, done, field, m);
      } else {
        OutcomesLocal(s, t, done, w, field, m);
        RealmReplayed(before, t, w, field, m);
        SweepStep(s, t, done, w, field, m);
      }
    }
  }

  // ---- quiet sweeps --------------------------------------------------------------------

  lemma {:induction false} AppsQuiet(apps: AppRows, w: string, ids: seq<string>, field: string, b: PolicySpec)
    ensures AppOutcomes(apps, w, ids, field, b) == [] <==>
            forall a | a in ids && (w, a, field) in apps :: Allows(b, apps[(w, a, field)])
  {
    if ids != [] {
      var done, id := ids[..|ids| - 1], ids[|ids| - 1];
      assert ids == done + [id];
      AppsQuiet(apps, w, done, field, b);
    }
  }

  ghost predicate ValidBelow(s: Store, t: Topology, w: string, field: string) {
    && ValidChain(Path(s, w, None, field))
    && (forall a | a in t.AppsOf(w) :: ValidChain(Path(s, w, Some(a), field)))
  }

  /** The value stored for an app fits the nearest value stored above it. */
  predicate AppFits(s: Store, w: string, a: string, field: string)
    requires (w, a, field) in s.apps
  {
    var v := s.apps[(w, a, field)];
    if (w, field) in s.spaces then Allows(s.spaces[(w, field)], v) else field in s.master ==> Allows(s.master[field], v)
  }

  predicate SpaceFits(s: Store, w: string, field: string)
    requires (w, field) in s.spaces
  {
    field in s.master ==> Allows(s.master[field], s.spaces[(w, field)])
  }

  lemma PathValid(s: Store, w: string, app: Option<string>, field: string)
    ensures ValidChain(Path(s, w, app, field)) <==>
            && ((w, field) in s.spaces ==> SpaceFits(s, w, field))
            && (app.Some? && (w, app.value, field) in s.apps ==> AppFits(s, w, app.value, field))
  {
    var none := PolicyLevel("", EnumSet({}));
    var m := if field in s.master then PolicyLevel("master", s.master[field]) else none;
    var x := if (w, field) in s.spaces then PolicyLevel("workspace", s.spaces[(w, field)]) else none;
    var hasApp := app.Some? && (w, app.value, field) in s.apps;
    var y := if hasApp then PolicyLevel("app", s.apps[(w, app.value, field)]) else none;
    ValidShort(m, x, y);
    ValidShort(m, y, y);
    ValidShort(x, y, y);
    ValidShort(y, y, y);
    assert Path(s, w, app, field) ==
           if field in s.master then
             (if (w, field) in s.spaces then (if hasApp then [m, x, y] else [m, x]) else if hasApp then [m, y] else [m])
           else if (w, field) in s.spaces then (if hasApp then [x, y] else [x]) else if hasApp then [y] else [];
  }

  lemma RealmQuiet(s: Store, t: Topology, w: string, field: string)
    requires field in s.master && w != MASTER_WORKSPACE_ID
    ensures RealmOutcomes(s, t, w, field, s.master[field]) == [] <==> ValidBelow(s, t, w, field)
  {
    var m := s.master[field];
    AppsQuiet(s.apps, w, t.AppsOf(w), field, Bound(s, w, field, m));
    PathValid(s, w, None, field);
    forall a | a in t.AppsOf(w)
      ensures SpaceOutcome(s, w, field, m) == [] ==>
                (ValidChain(Path(s, w, Some(a), field)) <==>
                 ((w, a, field) in s.apps ==> Allows(Bound(s, w, field, m), s.apps[(w, a, field)])))
    {
      PathValid(s, w, Some(a), field);
    }
  }

  /** A sweep reports nothing exactly when every path it visits is already valid. */
  lemma {:induction false} SweepQuiet(s: Store, t: Topology, realms: seq<string>, field: string)
    requires field in s.master
    ensures Outcomes(s, t, realms, field, s.master[field]) == [] <==>
            forall w | Swept(realms, w) :: ValidBelow(s, t, w, field)
  {
    if realms != [] {
      var done, w := realms[..|realms| - 1], realms[|realms| - 1];
      assert realms == done + [w];
      SweepQuiet(s, t, done, field);
      if w != MASTER_WORKSPACE_ID { RealmQuiet(s, t, w, field); }
    }
  }

  ghost predicate RegularBelow(s: Store, t: Topology, w: string, field: string) {
    && Regular(Path(s, w, None, field))
    && (forall a | a in t.AppsOf(w) :: Regular(Path(s, w, Some(a), field)))
  }

  /** A second sweep is silent exactly when every swept path was regular: one kind, and a proper range on top. */
  lemma SecondSweepIsSilent(s: Store, t: Topology, field: string)
    requires field in s.master
    ensures var m := s.master[field];
            Outcomes(Sweep(s, t, t.realms, field, m), t, t.realms, field, m) == [] <==>
            forall w | Swept(t.realms, w) :: RegularBelow(s, t, w, field)
  {
    var s' := Sweep(s, t, t.realms, field, s.master[field]);
    SweepQuiet(s', t, t.realms, field);
    forall w | Swept(t.realms, w) ensures ValidBelow(s', t, w, field) <==> RegularBelow(s, t, w, field) {
      SweptPath(s, t, field, w, None);
      forall a | a in t.AppsOf(w)
        ensures ValidChain(Path(s', w, Some(a), field)) <==> Regular(Path(s, w, Some(a), field))
      {
        SweptPath(s, t, field, w, Some(a));
      }
    }
  }

  lemma SweptPath(s: Store, t: Topology, field: string, w: string, app: Option<string>)
    requires field in s.master && Registered(t, w, app) && w != MASTER_WORKSPACE_ID
    ensures ValidChain(Path(Sweep(s, t, t.realms, field, s.master[field]), w, app, field)) <==>
            Regular(Path(s, w, app, field))
  {
    SweepIsCascade(s, t, field, w, app);
    CascadeRevalidates(Path(s, w, app, field));
  }
}
