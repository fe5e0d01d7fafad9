/** What each policy request answers and changes, told by the stored values themselves. */
module PolicyAnswers {
  import opened Wrappers
  import opened Policy
  import opened PolicyEngine
  import opened PolicySweep
  import opened PolicyRuns

  /** `m'` is `m` with `v` under `k` and nothing else changed. */
  ghost predicate PutInto<K(!new), V>(m: map<K, V>, m': map<K, V>, k: K, v: V) {
    && k in m' && m'[k] == v
    && forall j | j != k :: (j in m' <==> j in m) && (j in m ==> m'[j] == m[j])
  }

  /** `m'` is `m` without `k` and nothing else changed. */
  ghost predicate TakenFrom<K(!new), V>(m: map<K, V>, m': map<K, V>, k: K) {
    && k !in m'
    && forall j | j != k :: (j in m' <==> j in m) && (j in m ==> m'[j] == m[j])
  }

  predicate HasApp(t: Topology, w: string, a: string) { w in t.appsIn && a in t.appsIn[w] }

  // ---- deletes -----------------------------------------------------------------------------

  /** A master value is deleted exactly when it is stored; only its key goes. */
  lemma SystemDeleteAnswers(s: Store, t: Topology, field: string)
    ensures var (s', answer) := Step(s, t, SystemDelete(field));
            && (answer == Deleted <==> field in s.master) && (answer == PolicyNotFound <==> field !in s.master)
            && TakenFrom(s.master, s'.master, field) && s'.spaces == s.spaces && s'.apps == s.apps
  {
  }

  /** A workspace value is deleted exactly when the workspace is registered and the value stored; only its key goes. */
  lemma WorkspaceDeleteAnswers(s: Store, t: Topology, w: string, field: string)
    ensures var (s', answer) := Step(s, t, WorkspaceDelete(w, field));
            && (answer == Deleted <==> w in t.realms && (w, field) in s.spaces)
            && (answer == PolicyNotFound <==> w in t.realms && (w, field) !in s.spaces)
            && (answer == WorkspaceNotFound <==> w !in t.realms)
            && (answer == Deleted ==>
                 TakenFrom(s.spaces, s'.spaces, (w, field)) && s'.master == s.master && s'.apps == s.apps)
            && (answer != Deleted ==> s' == s)
  {
  }

  /** An app value is deleted exactly when its workspace and app are registered and it is stored; only its key goes. */
  lemma AppDeleteAnswers(s: Store, t: Topology, w: string, a: string, field: string)
    ensures var (s', answer) := Step(s, t, AppDelete(w, a, field));
            && (answer == Deleted <==> w in t.realms && HasApp(t, w, a) && (w, a, field) in s.apps)
            && (answer == WorkspaceNotFound <==> w !in t.realms)
            && (answer == AppNotFound <==> w in t.realms && !HasApp(t, w, a))
            && (answer == PolicyNotFound <==> w in t.realms && HasApp(t, w, a) && (w, a, field) !in s.apps)
            && (answer == Deleted ==>
                 TakenFrom(s.apps, s'.apps, (w, a, field)) && s'.master == s.master && s'.spaces == s.spaces)
            && (answer != Deleted ==> s' == s)
  {
  }

  // ---- puts ----------------------------------------------------------------------------------

  /** The values stored for `field` in the registered apps of `w` are fitted to `bound`; no other app value changes. */
  ghost predicate AppsHeld(s: Store, s': Store, t: Topology, w: string, field: string, bound: PolicySpec) {
    && s'.apps.Keys == s.apps.Keys
    && forall v, a, f | (v, a, f) in s.apps ::
         s'.apps[(v, a, f)] == if v == w && HasApp(t, w, a) && f == field then Fit(bound, s.apps[(v, a, f)])
                               else s.apps[(v, a, f)]
  }

  /** A workspace put is accepted exactly when the workspace is registered and master, if it has a value, allows the new
      one; then that is stored and the workspace's apps are held to it. Otherwise nothing changes, and a violation names
      the two values. */
  lemma WorkspacePutAnswers(s: Store, t: Topology, w: string, field: string, spec: PolicySpec)
    ensures var (s', answer) := Step(s, t, WorkspacePut(w, field, spec));
            var fits := field in s.master ==> Allows(s.master[field], spec);
            && (answer.Updated? <==> w in t.realms && fits)
            && (answer == WorkspaceNotFound <==> w !in t.realms)
            && (w in t.realms && !fits ==>
                 answer == Violated(Violation(field, "workspace", spec, s.master[field], "master")))
            && (!answer.Updated? ==> s' == s)
            && (answer.Updated? ==>
                 PutInto(s.spaces, s'.spaces, (w, field), spec) && s'.master == s.master &&
                 AppsHeld(s, s', t, w, field, spec))
  {
    var chain := MasterLevel(s, field) + [PolicyLevel("workspace", spec)];
    var x := PolicyLevel("workspace", spec);
    if field in s.master {
      assert chain == [PolicyLevel("master", s.master[field]), x];
    } else {
      assert chain == [x];
    }
    Verdicts(field, PolicyLevel("master", if field in s.master then s.master[field] else spec), x, x);
  }

  /** The verdicts on chains of one, two and three levels. */
  lemma Verdicts(field: string, a: PolicyLevel, b: PolicyLevel, c: PolicyLevel)
    ensures ChainError(field, [a], 1) == None
    ensures ChainError(field, [a, b], 1) ==
            if Allows(a.spec, b.spec) then None else Some(Violation(field, b.level, b.spec, a.spec, a.level))
    ensures ChainError(field, [a, b, c], 1) ==
            if !Allows(a.spec, b.spec) then Some(Violation(field, b.level, b.spec, a.spec, a.level))
            else if !Allows(b.spec, c.spec) then Some(Violation(field, c.level, c.spec, b.spec, b.level))
            else None
  {
    assert ChainError(field, [a, b], 2) == None && ChainError(field, [a, b, c], 3) == None;
  }

  /** What an app put answers on a violation: the workspace below master, or the app below its nearest ancestor. */
  function AppViolation(s: Store, w: string, field: string, spec: PolicySpec): Option<Violation> {
    if (w, field) in s.spaces then
      var x := s.spaces[(w, field)];
      if field in s.master && !Allows(s.master[field], x) then
        Some(Violation(field, "workspace", x, s.master[field], "master"))
      else if !Allows(x, spec) then Some(Violation(field, "app", spec, x, "workspace"))
      else None
    else if field in s.master && !Allows(s.master[field], spec) then
      Some(Violation(field, "app", spec, s.master[field], "master"))
    else None
  }

  /** An app put is accepted exactly when the app is registered, its nearest stored ancestor allows the value, and the
      workspace's value, if there is one, is itself allowed by master; then the value is stored and nothing else
      changes. */
  lemma AppPutAnswers(s: Store, t: Topology, w: string, a: string, field: string, spec: PolicySpec)
    ensures var (s', answer) := Step(s, t, AppPut(w, a, field, spec));
            && (answer == AppNotFound <==> !HasApp(t, w, a))
            && (HasApp(t, w, a) ==>
                 match AppViolation(s, w, field, spec)
                 case None => answer == Updated([])
                 case Some(v) => answer == Violated(v))
            && (answer.Updated? ==>
                 PutInto(s.apps, s'.apps, (w, a, field), spec) && s'.master == s.master && s'.spaces == s.spaces)
            && (!answer.Updated? ==> s' == s)
  {
    var y := PolicyLevel("app", spec);
    var m := if field in s.master then PolicyLevel("master", s.master[field]) else y;
    var x := if (w, field) in s.spaces then PolicyLevel("workspace", s.spaces[(w, field)]) else y;
    var chain := MasterLevel(s, field) + SpaceLevel(s, w, field) + [y];
    assert chain == if field in s.master then (if (w, field) in s.spaces then [m, x, y] else [m, y])
                    else if (w, field) in s.spaces then [x, y] else [y];
    Verdicts(field, m, x, y);
    Verdicts(field, m, y, y);
    Verdicts(field, x, y, y);
    Verdicts(field, y, y, y);
  }

  /** A master put is always accepted: the value is stored, every value of the field in a registered workspace other
      than the reserved one is fitted to it, every value in a registered app of these to the value then above it, and no
      other value changes. */
  lemma SystemPutAnswers(s: Store, t: Topology, field: string, spec: PolicySpec)
    ensures var (s', answer) := Step(s, t, SystemPut(field, spec));
            && answer.Updated? && PutInto(s.master, s'.master, field, spec)
            && s'.spaces.Keys == s.spaces.Keys && s'.apps.Keys == s.apps.Keys
            && (forall w, f | (w, f) in s.spaces ::
                  s'.spaces[(w, f)] ==
                    if w in t.realms && w != "master" && f == field then Fit(spec, s.spaces[(w, f)])
                    else s.spaces[(w, f)])
            && (forall w, a, f | (w, a, f) in s.apps ::
                  s'.apps[(w, a, f)] ==
                    if w in t.realms && w != "master" && HasApp(t, w, a) && f == field
                    then Fit(if (w, f) in s.spaces then Fit(spec, s.spaces[(w, f)]) else spec, s.apps[(w, a, f)])
                    else s.apps[(w, a, f)])
  {
  }

  // ---- the outcomes ----------------------------------------------------------------------------

  /** `o` tells of the app value `k` that `b` did not allow: what it was, and what it has been fitted to. */
  ghost predicate TellsOfApp(o: ClampOutcome, apps: AppRows, w: string, a: string, field: string, b: PolicySpec) {
    && (w, a, field) in apps && !Allows(b, apps[(w, a, field)])
    && o.workspace == w && o.app == Some(a) && o.field == field
    && o.before == apps[(w, a, field)] && o.after == Fit(b, apps[(w, a, field)])
  }

  ghost predicate TellsOfSpace(o: ClampOutcome, s: Store, w: string, field: string, m: PolicySpec) {
    && (w, field) in s.spaces && !Allows(m, s.spaces[(w, field)])
    && o.workspace == w && o.app == None && o.field == field
    && o.before == s.spaces[(w, field)] && o.after == Fit(m, s.spaces[(w, field)])
  }

  /** Listed with one entry before the other. */
  ghost predicate ListedBefore<T>(ids: seq<T>, x: T, y: T) {
    exists i, j | 0 <= i < j < |ids| :: ids[i] == x && ids[j] == y
  }

  ghost predicate AppsTold(apps: AppRows, w: string, ids: seq<string>, field: string, b: PolicySpec,
      os: seq<ClampOutcome>)
  {
    && (forall o | o in os :: o.app.Some? && o.app.value in ids && TellsOfApp(o, apps, w, o.app.value, field, b))
    && (forall a | a in ids && (w, a, field) in apps && !Allows(b, apps[(w, a, field)]) ::
          exists i | 0 <= i < |os| :: os[i].app == Some(a))
    && (forall i, j | 0 <= i < j < |os| ::
          os[i].app.Some? && os[j].app.Some? && ListedBefore(ids, os[i].app.value, os[j].app.value))
  }

  /** The app sweep reports exactly the values that the bound did not allow, in the order of the apps. */
  lemma {:induction false} AppOutcomesTell(apps: AppRows, w: string, ids: seq<string>, field: string, b: PolicySpec)
    ensures AppsTold(apps, w, ids, field, b, AppOutcomes(apps, w, ids, field, b))
  {
    if ids != [] {
      var done, a := ids[..|ids| - 1], ids[|ids| - 1];
      assert ids == done + [a];
      AppOutcomesTell(apps, w, done, field, b);
      OneMoreTold(apps, w, done, a, field, b, AppOutcomes(apps, w, done, field, b), AppOutcome(apps, w, a, field, b));
    }
  }

  lemma OneMoreTold(apps: AppRows, w: string, done: seq<string>, a: string, field: string, b: PolicySpec,
      os: seq<ClampOutcome>, more: seq<ClampOutcome>)
    requires AppsTold(apps, w, done, field, b, os) && more == AppOutcome(apps, w, a, field, b)
    ensures AppsTold(apps, w, done + [a], field, b, os + more)
  {
    forall c | c in done + [a] && (w, c, field) in apps && !Allows(b, apps[(w, c, field)])
      ensures exists i | 0 <= i < |os + more| :: (os + more)[i].app == Some(c)
    {
      if c in done {
        var i :| 0 <= i < |os| && os[i].app == Some(c);
        assert (os + more)[i].app == Some(c);
      } else {
        assert (os + more)[|os|].app == Some(c);
      }
    }
    forall i, j | 0 <= i < j < |os + more|
      ensures var x, y := (os + more)[i].app, (os + more)[j].app;
              x.Some? && y.Some? && ListedBefore(done + [a], x.value, y.value)
    {
      if j < |os| {
        ListedLonger(done, a, os[i].app.value, os[j].app.value);
      } else {
        assert os[i] in os;
        ListedLast(done, a, os[i].app.value);
      }
    }
  }

  lemma ListedLonger<T>(ids: seq<T>, z: T, x: T, y: T)
    requires ListedBefore(ids, x, y)
    ensures ListedBefore(ids + [z], x, y)
  {
    var i, j :| 0 <= i < j < |ids| && ids[i] == x && ids[j] == y;
    assert (ids + [z])[i] == x && (ids + [z])[j] == y;
  }

  lemma ListedLast<T>(ids: seq<T>, z: T, x: T)
    requires x in ids
    ensures ListedBefore(ids + [z], x, z)
  {
    var i :| 0 <= i < |ids| && ids[i] == x;
    assert (ids + [z])[i] == x && (ids + [z])[|ids|] == z;
  }

  /** Workspaces in the order of the listing, each before its apps, and these in the order of theirs. */
  ghost predicate InOrder(t: Topology, realms: seq<string>, o: ClampOutcome, p: ClampOutcome) {
    || ListedBefore(realms, o.workspace, p.workspace)
    || (o.workspace == p.workspace && p.app.Some? &&
        (o.app.None? || ListedBefore(t.AppsOf(o.workspace), o.app.value, p.app.value)))
  }

  ghost predicate Told(s: Store, t: Topology, field: string, m: PolicySpec, o: ClampOutcome) {
    var w := o.workspace;
    && o.workspace != "master"
    && match o.app
       case None => TellsOfSpace(o, s, w, field, m)
       case Some(a) => HasApp(t, w, a) && TellsOfApp(o, s.apps, w, a, field, Bound(s, w, field, m))
  }

  ghost predicate Tells(os: seq<ClampOutcome>, w: string, app: Option<string>) {
    exists i | 0 <= i < |os| :: os[i].workspace == w && os[i].app == app
  }

  ghost predicate RealmTold(s: Store, t: Topology, w: string, field: string, m: PolicySpec, os: seq<ClampOutcome>) {
    && ((w, field) in s.spaces && !Allows(m, s.spaces[(w, field)]) ==> Tells(os, w, None))
    && (forall a | HasApp(t, w, a) && (w, a, field) in s.apps &&
                   !Allows(Bound(s, w, field, m), s.apps[(w, a, field)]) :: Tells(os, w, Some(a)))
  }

  ghost predicate SweepTold(s: Store, t: Topology, realms: seq<string>, field: string, m: PolicySpec,
      os: seq<ClampOutcome>)
  {
    && (forall o | o in os :: o.workspace in realms && Told(s, t, field, m, o))
    && (forall w | w in realms && w != "master" :: RealmTold(s, t, w, field, m, os))
    && (forall i, j | 0 <= i < j < |os| :: InOrder(t, realms, os[i], os[j]))
  }

  lemma AppsInOrder(t: Topology, w: string, first: seq<ClampOutcome>, below: seq<ClampOutcome>)
    requires |first| <= 1 && forall o | o in first :: o.workspace == w && o.app == None
    requires forall o | o in below :: o.workspace == w
    requires forall i, j | 0 <= i < j < |below| ::
               below[i].app.Some? && below[j].app.Some? &&
               ListedBefore(t.AppsOf(w), below[i].app.value, below[j].app.value)
    requires forall o | o in below :: o.app.Some?
    ensures forall i, j | 0 <= i < j < |first + below| :: InOrder(t, [], (first + below)[i], (first + below)[j])
  {
    var os := first + below;
    forall i, j | 0 <= i < j < |os| ensures InOrder(t, [], os[i], os[j]) {
      assert os[j] == below[j - |first|] && os[j] in below;
      if i >= |first| {
        assert os[i] == below[i - |first|] && os[i] in below;
      } else {
        assert os[i] == first[i] && os[i] in first;
      }
    }
  }

  lemma AppsTells(os: seq<ClampOutcome>, w: string, a: string)
    requires (forall o | o in os :: o.workspace == w) && exists i | 0 <= i < |os| :: os[i].app == Some(a)
    ensures Tells(os, w, Some(a))
  {
    var i :| 0 <= i < |os| && os[i].app == Some(a);
    assert os[i] in os;
  }

  lemma OneRealmTold(s: Store, t: Topology, w: string, field: string, m: PolicySpec)
    requires w != "master"
    ensures var os := RealmOutcomes(s, t, w, field, m);
            && (forall o | o in os :: o.workspace == w && Told(s, t, field, m, o))
            && RealmTold(s, t, w, field, m, os)
            && forall i, j | 0 <= i < j < |os| :: InOrder(t, [], os[i], os[j])
  {
    var b := Bound(s, w, field, m);
    var first, below := SpaceOutcome(s, w, field, m), AppOutcomes(s.apps, w, t.AppsOf(w), field, b);
    AppOutcomesTell(s.apps, w, t.AppsOf(w), field, b);
    AppsInOrder(t, w, first, below);
    forall a | HasApp(t, w, a) && (w, a, field) in s.apps && !Allows(b, s.apps[(w, a, field)])
      ensures Tells(first + below, w, Some(a))
    {
      AppsTells(below, w, a);
      TellsLonger(first, below, w, Some(a));
    }
    if first != [] {
      assert first[0].workspace == w && first[0].app == None;
      TellsLonger(first, below, w, None);
    }
  }

  lemma TellsLonger(os: seq<ClampOutcome>, more: seq<ClampOutcome>, w: string, app: Option<string>)
    requires Tells(os, w, app) || Tells(more, w, app)
    ensures Tells(os + more, w, app)
  {
    if i :| 0 <= i < |os| && os[i].workspace == w && os[i].app == app {
      assert (os + more)[i] == os[i];
    } else {
      var i :| 0 <= i < |more| && more[i].workspace == w && more[i].app == app;
      assert (os + more)[|os| + i] == more[i];
    }
  }

  lemma RealmToldLonger(s: Store, t: Topology, w: string, field: string, m: PolicySpec, os: seq<ClampOutcome>,
      more: seq<ClampOutcome>)
    requires RealmTold(s, t, w, field, m, os) || RealmTold(s, t, w, field, m, more)
    ensures RealmTold(s, t, w, field, m, os + more)
  {
    forall app | Tells(os, w, app) || Tells(more, w, app) ensures Tells(os + more, w, app) {
      TellsLonger(os, more, w, app);
    }
  }

  lemma InOrderLonger(t: Topology, done: seq<string>, w: string, os: seq<ClampOutcome>, more: seq<ClampOutcome>)
    requires forall i, j | 0 <= i < j < |os| :: InOrder(t, done, os[i], os[j])
    requires forall i, j | 0 <= i < j < |more| :: InOrder(t, [], more[i], more[j])
    requires (forall o | o in os :: o.workspace in done) && (forall o | o in more :: o.workspace == w)
    ensures forall i, j | 0 <= i < j < |os + more| :: InOrder(t, done + [w], (os + more)[i], (os + more)[j])
  {
    forall i, j | 0 <= i < j < |os + more| ensures InOrder(t, done + [w], (os + more)[i], (os + more)[j]) {
      if j < |os| {
        if ListedBefore(done, os[i].workspace, os[j].workspace) {
          ListedLonger(done, w, os[i].workspace, os[j].workspace);
        }
      } else if i < |os| {
        assert os[i] in os && more[j - |os|] in more;
        ListedLast(done, w, os[i].workspace);
      } else {
        assert InOrder(t, [], more[i - |os|], more[j - |os|]);
      }
    }
  }

  /** The master sweep reports exactly the values that their bound did not allow, each with what it was and what it has
      become, workspace by workspace and each workspace before its apps. */
  lemma {:induction false} OutcomesTell(s: Store, t: Topology, realms: seq<string>, field: string, m: PolicySpec)
    ensures SweepTold(s, t, realms, field, m, Outcomes(s, t, realms, field, m))
  {
    if realms != [] {
      var done, w := realms[..|realms| - 1], realms[|realms| - 1];
      assert realms == done + [w];
      OutcomesTell(s, t, done, field, m);
      var os, more := Outcomes(s, t, done, field, m), RealmOutcomes(s, t, w, field, m);
      if w != "master" { OneRealmTold(s, t, w, field, m); }
      InOrderLonger(t, done, w, os, more);
      forall v | v in realms && v != "master" ensures RealmTold(s, t, v, field, m, os + more) {
        RealmToldLonger(s, t, v, field, m, os, more);
      }
    }
  }

  /** The answer to a master put is the report of its sweep, and that to a workspace put the report on its apps. */
  lemma PutsReport(s: Store, t: Topology, w: string, field: string, spec: PolicySpec)
    ensures Step(s, t, SystemPut(field, spec)).1.Updated?
    ensures SweepTold(s, t, t.realms, field, spec, Step(s, t, SystemPut(field, spec)).1.cascaded)
    ensures var answer := Step(s, t, WorkspacePut(w, field, spec)).1;
            answer.Updated? ==> AppsTold(s.apps, w, t.AppsOf(w), field, spec, answer.cascaded)
  {
    var s' := s.(master := s.master[field := spec]);
    var os := Outcomes(s', t, t.realms, field, spec);
    OutcomesTell(s', t, t.realms, field, spec);
    forall o | o in os ensures Told(s, t, field, spec, o) { assert Told(s', t, field, spec, o); }
    forall v | v in t.realms && v != "master" ensures RealmTold(s, t, v, field, spec, os) {
      assert RealmTold(s', t, v, field, spec, os);
    }
    AppOutcomesTell(s.apps, w, t.AppsOf(w), field, spec);
  }
}
