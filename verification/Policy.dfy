/** Policy specifications, their refinement order, and the cascade over a chain of levels. */
module Policy {
  import opened Wrappers
  import opened Positions
  import opened Json

  datatype TogglePolicy = Open(default: bool) | Locked(value: bool) {
    function Effective(): bool { match this case Open(d) => d case Locked(v) => v }
  }

  datatype PolicySpec =
    | Range(min: int, max: int)
    | Toggle(t: TogglePolicy)
    | EnumSet(allowed: set<string>)
    | Free(v: Value)

  predicate SameKind(a: PolicySpec, b: PolicySpec) {
    a.Range? == b.Range? && a.Toggle? == b.Toggle? && a.EnumSet? == b.EnumSet?
  }

  predicate WellFormed(a: PolicySpec) { a.Range? ==> a.min <= a.max }

  /** `child` is a valid refinement of `p`. */
  predicate Allows(p: PolicySpec, child: PolicySpec) {
    match (p, child)
    case (Range(lo, hi), Range(min, max)) => min >= lo && max <= hi && min <= max
    case (Toggle(Locked(v)), Toggle(c)) => c.Effective() == v
    case (Toggle(Open(_)), Toggle(_)) => true
    case (EnumSet(a), EnumSet(c)) => c <= a
    case (Free(_), Free(_)) => true
    case _ => false
  }

  function Clamp(p: PolicySpec, child: PolicySpec): PolicySpec {
    match (p, child)
    case (Range(lo, hi), Range(min, max)) =>
      var min', max' := if min > lo then min else lo, if max < hi then max else hi;
      if min' > max' then p else Range(min', max')
    case (Toggle(Locked(v)), Toggle(_)) => Toggle(Locked(v))
    case (EnumSet(a), EnumSet(c)) => EnumSet(c * a)
    case _ => child
  }

  /** A stored value after its parent is `p`: kept if allowed, clamped otherwise. */
  function Fit(p: PolicySpec, child: PolicySpec): PolicySpec {
    if Allows(p, child) then child else Clamp(p, child)
  }

  datatype PolicyLevel = PolicyLevel(level: string, spec: PolicySpec)

  datatype PolicyChange = PolicyChange(field: string, level: string, before: PolicySpec, after: PolicySpec)

  datatype Violation =
    Violation(field: string, level: string, value: PolicySpec, bound: PolicySpec, boundLevel: string)

  predicate Offends(levels: seq<PolicyLevel>, i: nat)
    requires 0 < i < |levels|
  {
    !Allows(levels[i - 1].spec, levels[i].spec)
  }

  predicate ValidChain(levels: seq<PolicyLevel>) { forall i | 0 < i < |levels| :: !Offends(levels, i) }

  function ViolationAt(field: string, levels: seq<PolicyLevel>, i: nat): Violation
    requires 0 < i < |levels|
  {
    Violation(field, levels[i].level, levels[i].spec, levels[i - 1].spec, levels[i - 1].level)
  }

  /** The verdict on a chain whose pairs before `i` have passed. */
  function ChainError(field: string, levels: seq<PolicyLevel>, i: nat): Option<Violation>
    requires i > 0
    decreases |levels| - i
  {
    if i >= |levels| then None
    else if Offends(levels, i) then Some(ViolationAt(field, levels, i))
    else ChainError(field, levels, i + 1)
  }

  /** A chain is rejected exactly if some level does not refine the one above it; the first such level is named. */
  lemma {:induction false} ChainErrorIsFirst(field: string, levels: seq<PolicyLevel>, i: nat) returns (k: nat)
    requires i > 0 && forall j | 0 < j < i && j < |levels| :: !Offends(levels, j)
    ensures ChainError(field, levels, i) == None <==> ValidChain(levels)
    ensures !ValidChain(levels) ==>
              && 0 < k < |levels| && Offends(levels, k) && (forall j | 0 < j < k :: !Offends(levels, j))
              && ChainError(field, levels, i) ==
                 Some(Violation(field, levels[k].level, levels[k].spec, levels[k - 1].spec, levels[k - 1].level))
    decreases |levels| - i
  {
    if i >= |levels| || Offends(levels, i) { k := i; } else { k := ChainErrorIsFirst(field, levels, i + 1); }
  }

  method ValidateChain(field: string, levels: seq<PolicyLevel>) returns (r: Option<Violation>)
    ensures r == ChainError(field, levels, 1)
    ensures r.None? <==> ValidChain(levels)
  {
    ghost var first := ChainErrorIsFirst(field, levels, 1);
    if levels == [] { return None; }
    for i := 1 to |levels|
      invariant ChainError(field, levels, 1) == ChainError(field, levels, i)
    {
      if !Allows(levels[i - 1].spec, levels[i].spec) {
        return Some(Violation(field, levels[i].level, levels[i].spec, levels[i - 1].spec, levels[i - 1].level));
      }
    }
    return None;
  }

  // ---- the cascade ----------------------------------------------------------------

  /** The value of level `k` once every level above it has been fitted. */
  function Fitted(levels: seq<PolicyLevel>, k: nat): PolicySpec
    requires k < |levels|
  {
    if k == 0 then levels[0].spec else Fit(Fitted(levels, k - 1), levels[k].spec)
  }

  predicate Changed(levels: seq<PolicyLevel>, k: nat)
    requires k < |levels|
  {
    k > 0 && !Allows(Fitted(levels, k - 1), levels[k].spec)
  }

  function Cascade(levels: seq<PolicyLevel>): (out: seq<PolicyLevel>)
    ensures |out| == |levels|
  {
    seq(|levels|, k requires 0 <= k < |levels| => PolicyLevel(levels[k].level, Fitted(levels, k)))
  }

  function ChangeAt(field: string, levels: seq<PolicyLevel>, k: nat): seq<PolicyChange>
    requires k < |levels|
  {
    if Changed(levels, k) then [PolicyChange(field, levels[k].level, levels[k].spec, Fitted(levels, k))] else []
  }

  /** The first `n` parts, one after the other. */
  function Joined<T>(parts: seq<seq<T>>, n: nat): seq<T>
    requires n <= |parts|
  {
    if n == 0 then [] else Joined(parts, n - 1) + parts[n - 1]
  }

  function ChangeParts(field: string, levels: seq<PolicyLevel>): (parts: seq<seq<PolicyChange>>)
    ensures |parts| == |levels|
  {
    seq(|levels|, k requires 0 <= k < |levels| => ChangeAt(field, levels, k))
  }

  /** The changes among the first `n` levels, top down. */
  function Changes(field: string, levels: seq<PolicyLevel>, n: nat): seq<PolicyChange>
    requires n <= |levels|
  {
    Joined(ChangeParts(field, levels), n)
  }

  method CascadeClamp(field: string, levels: seq<PolicyLevel>)
    returns (out: seq<PolicyLevel>, changes: seq<PolicyChange>)
    ensures out == Cascade(levels) && changes == Changes(field, levels, |levels|)
  {
    out, changes := [], [];
    for idx := 0 to |levels|
      invariant out == Cascade(levels)[..idx] && changes == Changes(field, levels, idx)
    {
      var level := levels[idx];
      assert Cascade(levels)[..idx + 1] == Cascade(levels)[..idx] + [Cascade(levels)[idx]];
      if idx == 0 {
        out := out + [level];
      } else {
        var parent := out[idx - 1].spec;
        if Allows(parent, level.spec) {
          out := out + [level];
        } else {
          var after := Clamp(parent, level.spec);
          changes := changes + [PolicyChange(field, level.level, level.spec, after)];
          out := out + [PolicyLevel(level.level, after)];
        }
      }
    }
  }

  // ---- laws of one step --------------------------------------------------------------

  lemma FitLaws(p: PolicySpec, c: PolicySpec)
    ensures SameKind(Fit(p, c), c)
    ensures Allows(p, Fit(p, c)) <==> SameKind(p, c) && WellFormed(p)
    ensures Fit(p, Fit(p, c)) == Fit(p, c)
    ensures SameKind(p, c) && WellFormed(p) ==> WellFormed(Fit(p, c))
  {
    match (p, c)
    case (EnumSet(a), EnumSet(b)) => assert b * a * a == b * a;
    case _ =>
  }

  predicate Within(n: int, lo: int, hi: int) { lo <= n <= hi }

  /** A range allows the proper ranges inside it, a set its subsets, a locked toggle the toggles whose value is its own,
      an open toggle every toggle, and a free value every free value; kinds do not mix. */
  lemma AllowsMeans(p: PolicySpec, c: PolicySpec)
    ensures Allows(p, c) <==>
            match (p, c)
            case (Range(lo, hi), Range(min, max)) => min <= max && forall n | Within(n, min, max) :: Within(n, lo, hi)
            case (EnumSet(a), EnumSet(b)) => forall x | x in b :: x in a
            case (Toggle(Locked(v)), Toggle(Locked(w))) => v == w
            case (Toggle(Locked(v)), Toggle(Open(w))) => v == w
            case (Toggle(Open(_)), Toggle(_)) => true
            case (Free(_), Free(_)) => true
            case _ => false
  {
    match (p, c)
    case (Range(lo, hi), Range(min, max)) =>
      if min <= max { assert Within(min, min, max) && Within(max, min, max); }
    case _ =>
  }

  /** The fitted value is the loosest one below both: it keeps every value that parent and child both allow, and it is
      the parent itself if there is none; once clamped, it lets through only what the parent allows. */
  lemma FitIsMeet(p: PolicySpec, c: PolicySpec)
    requires SameKind(p, c) && WellFormed(p)
    ensures forall r :: Allows(p, r) && Allows(c, r) ==> Allows(Fit(p, c), r)
    ensures (forall r :: !(Allows(p, r) && Allows(c, r))) ==> Fit(p, c) == p
    ensures !Allows(p, c) ==> forall r :: Allows(Fit(p, c), r) ==> Allows(p, r)
  {
    match (p, c)
    case (Range(lo, hi), Range(min, max)) =>
      var f := Fit(p, c);
      if f != p { assert Allows(p, f) && Allows(c, f); }
    case (Toggle(a), Toggle(b)) =>
      var r := Toggle(Locked(if a.Open? then b.Effective() else a.Effective()));
      assert a.Open? || b.Open? ==> Allows(p, r) && Allows(c, r);
    case (EnumSet(a), EnumSet(b)) => assert Allows(p, EnumSet({})) && Allows(c, EnumSet({}));
    case (Free(_), Free(_)) => assert Allows(p, c) && Allows(c, c);
  }

  /** One kind throughout, and a proper range at the top if anything lies below it. */
  predicate Regular(levels: seq<PolicyLevel>) {
    && (forall k | 0 <= k < |levels| :: SameKind(levels[0].spec, levels[k].spec))
    && (|levels| > 1 ==> WellFormed(levels[0].spec))
  }

  lemma {:induction false} FittedRegular(levels: seq<PolicyLevel>, k: nat)
    requires Regular(levels) && 0 < k < |levels|
    ensures SameKind(Fitted(levels, k), levels[k].spec) && WellFormed(Fitted(levels, k))
    ensures Allows(Fitted(levels, k - 1), Fitted(levels, k))
  {
    if k > 1 { FittedRegular(levels, k - 1); }
    assert SameKind(levels[0].spec, levels[k - 1].spec) && SameKind(levels[0].spec, levels[k].spec);
    FitLaws(Fitted(levels, k - 1), levels[k].spec);
  }

  lemma {:induction false} FittedKind(levels: seq<PolicyLevel>, k: nat)
    requires k < |levels|
    ensures SameKind(Fitted(levels, k), levels[k].spec)
  {
    if k > 0 { FitLaws(Fitted(levels, k - 1), levels[k].spec); }
  }

  /** The cascaded chain passes the chain validator exactly on regular chains. */
  lemma CascadeRevalidates(levels: seq<PolicyLevel>)
    ensures ValidChain(Cascade(levels)) <==> Regular(levels)
  {
    var out := Cascade(levels);
    if Regular(levels) {
      forall i | 0 < i < |out| ensures !Offends(out, i) { FittedRegular(levels, i); }
    }
    if ValidChain(out) {
      forall k | 0 <= k < |levels| ensures SameKind(levels[0].spec, levels[k].spec) { ValidKind(levels, k); }
      if |levels| > 1 {
        assert !Offends(out, 1);
        FitLaws(levels[0].spec, levels[1].spec);
      }
    }
  }

  lemma {:induction false} ValidKind(levels: seq<PolicyLevel>, k: nat)
    requires ValidChain(Cascade(levels)) && k < |levels|
    ensures SameKind(levels[0].spec, levels[k].spec)
  {
    FittedKind(levels, k);
    if k > 0 {
      ValidKind(levels, k - 1);
      FittedKind(levels, k - 1);
      assert !Offends(Cascade(levels), k);
    }
  }

  /** Nothing is changed exactly when the chain was valid, and then the chain is kept. */
  lemma ValidChainsKept(field: string, levels: seq<PolicyLevel>)
    ensures Changes(field, levels, |levels|) == [] <==> ValidChain(levels)
    ensures ValidChain(levels) ==> Cascade(levels) == levels
  {
    NoChanges(field, levels);
    if ValidChain(levels) {
      forall k | 0 <= k < |levels| ensures Cascade(levels)[k] == levels[k] { NoChangeTo(levels, k); }
    }
  }

  lemma {:induction false} NoChangeTo(levels: seq<PolicyLevel>, k: nat)
    requires k < |levels| && forall i | 0 < i <= k :: !Offends(levels, i)
    ensures Fitted(levels, k) == levels[k].spec
  {
    if k > 0 { NoChangeTo(levels, k - 1); assert !Offends(levels, k); }
  }

  lemma {:induction false} EmptyJoin<T>(parts: seq<seq<T>>, n: nat)
    requires n <= |parts|
    ensures Joined(parts, n) == [] <==> forall k | 0 <= k < n :: parts[k] == []
  {
    if n > 0 { EmptyJoin(parts, n - 1); }
  }

  lemma {:induction false} KeptTo(levels: seq<PolicyLevel>, k: nat)
    requires k < |levels| && forall i | 0 <= i <= k :: !Changed(levels, i)
    ensures Fitted(levels, k) == levels[k].spec
  {
    if k > 0 {
      KeptTo(levels, k - 1);
      assert !Changed(levels, k);
    }
  }

  lemma NoChanges(field: string, levels: seq<PolicyLevel>)
    ensures Changes(field, levels, |levels|) == [] <==> ValidChain(levels)
  {
    var parts := ChangeParts(field, levels);
    EmptyJoin(parts, |levels|);
    if ValidChain(levels) {
      forall k | 0 <= k < |levels| ensures parts[k] == [] {
        if k > 0 { NoChangeTo(levels, k - 1); assert !Offends(levels, k); }
      }
    }
    if forall k | 0 <= k < |levels| :: parts[k] == [] { UnchangedIsValid(field, levels, parts); }
  }

  lemma UnchangedIsValid(field: string, levels: seq<PolicyLevel>, parts: seq<seq<PolicyChange>>)
    requires parts == ChangeParts(field, levels) && forall k | 0 <= k < |levels| :: parts[k] == []
    ensures ValidChain(levels)
  {
    forall k | 0 <= k < |levels| ensures !Changed(levels, k) { assert parts[k] == []; }
    forall i | 0 < i < |levels| ensures !Offends(levels, i) {
      KeptTo(levels, i - 1);
      assert !Changed(levels, i);
    }
  }

  /** A second cascade changes no value of any chain, and logs nothing on regular ones. */
  lemma CascadeIsIdempotent(field: string, levels: seq<PolicyLevel>)
    ensures Cascade(Cascade(levels)) == Cascade(levels)
    ensures Changes(field, Cascade(levels), |levels|) == [] <==> Regular(levels)
  {
    var out := Cascade(levels);
    forall k | 0 <= k < |levels| ensures Fitted(out, k) == Fitted(levels, k) { RefitSame(levels, k); }
    CascadeRevalidates(levels);
    ValidChainsKept(field, out);
  }

  lemma {:induction false} RefitSame(levels: seq<PolicyLevel>, k: nat)
    requires k < |levels|
    ensures Fitted(Cascade(levels), k) == Fitted(levels, k)
  {
    if k > 0 {
      RefitSame(levels, k - 1);
      FitLaws(Fitted(levels, k - 1), levels[k].spec);
    }
  }

  // ---- replaying the change list ---------------------------------------------------------

  predicate DistinctNames(levels: seq<PolicyLevel>) {
    forall i, j | 0 <= i < j < |levels| :: levels[i].level != levels[j].level
  }

  /** What the first `m` entries of the change list say about the level called `name`. */
  function LastChange(changes: seq<PolicyChange>, name: string, m: nat): Option<PolicyChange>
    requires m <= |changes|
  {
    if m == 0 then None
    else if changes[m - 1].level == name then Some(changes[m - 1])
    else LastChange(changes, name, m - 1)
  }

  function Replayed(levels: seq<PolicyLevel>, changes: seq<PolicyChange>): (out: seq<PolicyLevel>)
    ensures |out| == |levels|
  {
    seq(|levels|, k requires 0 <= k < |levels| =>
      match LastChange(changes, levels[k].level, |changes|)
      case None => levels[k]
      case Some(c) => PolicyLevel(levels[k].level, c.after))
  }

  lemma {:induction false} LastOfPrefix(before: seq<PolicyChange>, last: seq<PolicyChange>, name: string, m: nat)
    requires m <= |before|
    ensures LastChange(before + last, name, m) == LastChange(before, name, m)
  {
    if m > 0 { LastOfPrefix(before, last, name, m - 1); }
  }

  lemma LastOfOne(before: seq<PolicyChange>, c: PolicyChange, name: string)
    ensures LastChange(before + [c], name, |before| + 1) == if c.level ==
            name then Some(c) else LastChange(before, name, |before|)
  {
    LastOfPrefix(before, [c], name, |before|);
  }

  lemma JoinedLast(parts: seq<seq<PolicyChange>>, n: nat, name: string)
    requires 0 < n <= |parts| && |parts[n - 1]| <= 1
    ensures LastChange(Joined(parts, n), name, |Joined(parts, n)|) ==
            if parts[n - 1] != [] && parts[n - 1][0].level == name then Some(parts[n - 1][0])
            else LastChange(Joined(parts, n - 1), name, |Joined(parts, n - 1)|)
  {
    var before := Joined(parts, n - 1);
    if parts[n - 1] == [] {
      assert Joined(parts, n) == before;
    } else {
      assert parts[n - 1] == [parts[n - 1][0]];
      LastOfOne(before, parts[n - 1][0], name);
    }
  }

  /** With distinct names, what the list says about a level is the change made at that level. */
  lemma {:induction false} ChangeOf(parts: seq<seq<PolicyChange>>, levels: seq<PolicyLevel>, n: nat, k: nat)
    requires DistinctNames(levels) && k < |levels| == |parts| && n <= |levels|
    requires forall i | 0 <= i < |parts| :: |parts[i]| <= 1 && (parts[i] != [] ==> parts[i][0].level == levels[i].level)
    ensures LastChange(Joined(parts, n), levels[k].level, |Joined(parts, n)|) ==
            if k < n && parts[k] != [] then Some(parts[k][0]) else None
  {
    if n > 0 {
      ChangeOf(parts, levels, n - 1, k);
      JoinedLast(parts, n, levels[k].level);
      assert n - 1 != k ==> levels[n - 1].level != levels[k].level;
    }
  }

  /** The audit trail is complete: replaying it on the input gives the output. */
  lemma ReplayGivesOutput(field: string, levels: seq<PolicyLevel>)
    requires DistinctNames(levels)
    ensures Replayed(levels, Changes(field, levels, |levels|)) == Cascade(levels)
  {
    var changes := Changes(field, levels, |levels|);
    forall k | 0 <= k < |levels| ensures Replayed(levels, changes)[k] == Cascade(levels)[k] {
      ChangeOf(ChangeParts(field, levels), levels, |levels|, k);
    }
  }

  /** The level above, as it is in `out`, does not allow level `k`. */
  predicate Misfit(levels: seq<PolicyLevel>, out: seq<PolicyLevel>, k: nat)
    requires k < |levels| == |out|
  {
    k > 0 && !Allows(out[k - 1].spec, levels[k].spec)
  }

  /** `at` marks the misfits among the first levels. */
  predicate MarksMisfits(levels: seq<PolicyLevel>, out: seq<PolicyLevel>, at: seq<bool>)
    requires |at| <= |levels| == |out|
  {
    forall k | 0 <= k < |at| :: at[k] == Misfit(levels, out, k)
  }

  /** Entry by entry, `cs` tells of the levels at positions `ks`: what each was, and what it is in `out`. */
  predicate TellsOf(field: string, levels: seq<PolicyLevel>, out: seq<PolicyLevel>, cs: seq<PolicyChange>, ks: seq<nat>)
    requires |levels| == |out|
  {
    |ks| == |cs| && forall i | 0 <= i < |ks| ::
      && ks[i] < |levels|
      && cs[i] == PolicyChange(field, levels[ks[i]].level, levels[ks[i]].spec, out[ks[i]].spec)
  }

  lemma TellsOneMore(field: string, levels: seq<PolicyLevel>, out: seq<PolicyLevel>, cs: seq<PolicyChange>,
      ks: seq<nat>, n: nat)
    requires n < |levels| == |out| && TellsOf(field, levels, out, cs, ks)
    ensures TellsOf(field, levels, out, cs + [PolicyChange(field, levels[n].level, levels[n].spec, out[n].spec)],
                    ks + [n])
  {
  }

  lemma MarksOneMore(levels: seq<PolicyLevel>, out: seq<PolicyLevel>, at: seq<bool>)
    requires |at| < |levels| == |out| && MarksMisfits(levels, out, at)
    ensures MarksMisfits(levels, out, at + [Misfit(levels, out, |at|)])
  {
  }

  lemma MisfitsChange(field: string, levels: seq<PolicyLevel>, out: seq<PolicyLevel>, k: nat)
    requires k < |levels| && out == Cascade(levels)
    ensures Changes(field, levels, k + 1) ==
            if Misfit(levels, out, k)
            then Changes(field, levels, k) + [PolicyChange(field, levels[k].level, levels[k].spec, out[k].spec)]
            else Changes(field, levels, k)
  {
    assert ChangeParts(field, levels)[k] == ChangeAt(field, levels, k);
  }

  /** Lists that start empty and take up one entry per misfit tell of exactly the misfits. */
  lemma {:induction false} ListTells(field: string, levels: seq<PolicyLevel>, out: seq<PolicyLevel>,
      lists: seq<seq<PolicyChange>>, n: nat) returns (at: seq<bool>, ks: seq<nat>)
    requires n <= |levels| == |out| && |lists| == |levels| + 1 && lists[0] == []
    requires forall k | 0 <= k < |levels| ::
               lists[k + 1] == if Misfit(levels, out, k)
                               then lists[k] + [PolicyChange(field, levels[k].level, levels[k].spec, out[k].spec)]
                               else lists[k]
    ensures |at| == n && MarksMisfits(levels, out, at) && Picks(ks, at) && TellsOf(field, levels, out, lists[n], ks)
  {
    at, ks := [], [];
    if n > 0 {
      at, ks := ListTells(field, levels, out, lists, n - 1);
      var b := Misfit(levels, out, n - 1);
      PicksOneMore(ks, at, b);
      MarksOneMore(levels, out, at);
      TellsOneMore(field, levels, out, lists[n - 1], ks, n - 1);
      assert lists[n - 1 + 1] == lists[n];
      at, ks := at + [b], if b then ks + [n - 1] else ks;
    }
  }

  /** The change list tells of exactly the levels that their fitted parent does not allow, from the top down. */
  lemma ChangesTell(field: string, levels: seq<PolicyLevel>) returns (at: seq<bool>, ks: seq<nat>)
    ensures |at| == |levels| && MarksMisfits(levels, Cascade(levels), at) && Picks(ks, at)
    ensures TellsOf(field, levels, Cascade(levels), Changes(field, levels, |levels|), ks)
  {
    var lists := seq(|levels| + 1, k requires 0 <= k <= |levels| => Changes(field, levels, k));
    forall k | 0 <= k < |levels| { MisfitsChange(field, levels, Cascade(levels), k); }
    at, ks := ListTells(field, levels, Cascade(levels), lists, |levels|);
  }

  // ---- intersections -----------------------------------------------------------------------

  function Common(levels: seq<PolicyLevel>, k: nat): set<string>
    requires k < |levels| && forall i | 0 <= i <= k :: levels[i].spec.EnumSet?
  {
    if k == 0 then levels[0].spec.allowed else Common(levels, k - 1) * levels[k].spec.allowed
  }

  lemma {:induction false} EnumSetsIntersect(levels: seq<PolicyLevel>, k: nat)
    requires k < |levels| && forall i | 0 <= i <= k :: levels[i].spec.EnumSet?
    ensures Fitted(levels, k) == EnumSet(Common(levels, k))
  {
    if k > 0 {
      EnumSetsIntersect(levels, k - 1);
      var a, c := Common(levels, k - 1), levels[k].spec.allowed;
      assert c * a == a * c && (c <= a ==> a * c == c);
    }
  }

  function MaxMin(levels: seq<PolicyLevel>, k: nat): int
    requires k < |levels| && forall i | 0 <= i <= k :: levels[i].spec.Range?
  {
    if k == 0 || levels[k].spec.min > MaxMin(levels, k - 1) then levels[k].spec.min else MaxMin(levels, k - 1)
  }

  function MinMax(levels: seq<PolicyLevel>, k: nat): int
    requires k < |levels| && forall i | 0 <= i <= k :: levels[i].spec.Range?
  {
    if k == 0 || levels[k].spec.max < MinMax(levels, k - 1) then levels[k].spec.max else MinMax(levels, k - 1)
  }

  /** Below a proper range, level `k` becomes the intersection of levels 0..k exactly when they overlap. */
  lemma RangesIntersectExactly(levels: seq<PolicyLevel>, k: nat)
    requires Regular(levels) && 0 < k < |levels| && levels[0].spec.Range?
    ensures forall i | 0 <= i <= k :: levels[i].spec.Range?
    ensures Fitted(levels, k) == Range(MaxMin(levels, k), MinMax(levels, k)) <==> MaxMin(levels, k) <= MinMax(levels, k)
  {
    assert forall i | 0 <= i <= k :: SameKind(levels[0].spec, levels[i].spec);
    FittedRegular(levels, k);
    if MaxMin(levels, k) <= MinMax(levels, k) { RangesIntersect(levels, k); }
  }

  lemma {:induction false} RangesIntersect(levels: seq<PolicyLevel>, k: nat)
    requires k < |levels| && forall i | 0 <= i <= k :: levels[i].spec.Range?
    requires MaxMin(levels, k) <= MinMax(levels, k)
    ensures Fitted(levels, k) == Range(MaxMin(levels, k), MinMax(levels, k))
  {
    if k > 0 { RangesIntersect(levels, k - 1); }
  }
}
