/** The daily mail quota: reserve a slot, hand over to the transport, refund on failure. */
module MailQuota {
  import opened Wrappers
  import opened Divergence
  import opened Widths
  import opened Policy

  type u32 = x: int | 0 <= x < U32

  function Inc(c: u32): u32 { if c == U32 - 1 then 0 else c + 1 }

  function Dec(c: u32): u32 { if c == 0 then U32 - 1 else c - 1 }

  /** The daily cap read from the stored policy; the range's upper bound is truncated to 32 bits. */
  function CurrentQuota(spec: Option<PolicySpec>): Option<u32> {
    match spec
    case Some(Range(_, max)) => if max >= 0 then Some(max % U32) else None
    case _ => None
  }

  /** The cap is the policy's own bound exactly when that bound fits 32 bits. */
  lemma QuotaIsPolicyBound(min: int, max: int)
    ensures max >= 0 ==> CurrentQuota(Some(Range(min, max))).Some? &&
                         (max - CurrentQuota(Some(Range(min, max))).value) % U32 == 0
    ensures (CurrentQuota(Some(Range(min, max))).Some? && CurrentQuota(Some(Range(min, max))).value == max) <==>
            0 <= max < U32
    ensures CurrentQuota(Some(Range(min, max))).None? <==> max < 0
  {
  }

  /** No policy and a policy of another kind set no cap. */
  lemma OtherPoliciesSetNoCap(spec: Option<PolicySpec>)
    requires spec.Some? ==> !spec.value.Range?
    ensures CurrentQuota(spec) == None
  {
  }

  type Counts = map<int, u32>

  function CountOf(counts: Counts, day: int): u32 { if day in counts then counts[day] else 0 }

  /** One reservation under the entry lock: bump with 32-bit wrap-around, undo if over the cap. */
  function Reserved(counts: Counts, day: int, quota: Option<u32>): (Counts, bool) {
    var bumped := Inc(CountOf(counts, day));
    if quota.Some? && bumped > quota.value then (counts[day := Dec(bumped)], false) else (counts[day := bumped], true)
  }

  function Refunded(counts: Counts, day: int): Counts {
    if day in counts && counts[day] > 0 then counts[day := counts[day] - 1] else counts
  }

  class QuotedMailer {
    var counts: Counts

    constructor ()
      ensures counts == map[]
    {
      counts := map[];
    }

    method Reserve(day: int, quota: Option<u32>) returns (ok: bool)
      modifies this
      ensures (counts, ok) == Reserved(old(counts), day, quota)
    {
      ghost var before := counts;
      if day !in counts { counts := counts[day := 0]; }
      counts := counts[day := Inc(counts[day])];
      assert counts == before[day := Inc(CountOf(before, day))];
      ok := true;
      if quota.Some? && counts[day] > quota.value {
        counts := counts[day := Dec(counts[day])];
        ok := false;
        assert counts == before[day := Dec(Inc(CountOf(before, day)))];
      }
    }

    method Refund(day: int)
      modifies this
      ensures counts == Refunded(old(counts), day)
    {
      if day in counts && counts[day] > 0 { counts := counts[day := counts[day] - 1]; }
    }
  }

  // ---- interleavings ---------------------------------------------------------------------

  /** A send is known by the day it started on; any number of them may be between two of their steps. */
  datatype Event =
    | Begin(day: int, quota: Option<u32>)
    | Delivered(day: int)
    | Failed(day: int)

  /** The counters, the sends handed to the transport, and the sends it has delivered. */
  datatype State = State(counts: Counts, flying: multiset<int>, delivered: multiset<int>)

  predicate Enabled(s: State, e: Event) { e.Begin? || s.flying[e.day] > 0 }

  function Step(s: State, e: Event): State {
    match e
    case Begin(day, quota) =>
      var (counts, ok) := Reserved(s.counts, day, quota);
      State(counts, if ok then s.flying + multiset{day} else s.flying, s.delivered)
    case Delivered(day) => State(s.counts, s.flying - multiset{day}, s.delivered + multiset{day})
    case Failed(day) => State(Refunded(s.counts, day), s.flying - multiset{day}, s.delivered)
  }

  function At(es: seq<Event>, n: nat): State
    requires n <= |es|
  {
    if n == 0 then State(map[], multiset{}, multiset{}) else Step(At(es, n - 1), es[n - 1])
  }

  predicate EnabledAt(es: seq<Event>, n: nat)
    requires n < |es|
  {
    Enabled(At(es, n), es[n])
  }

  predicate Run(es: seq<Event>) { forall n | 0 <= n < |es| :: EnabledAt(es, n) }

  function Used(s: State, day: int): int { s.flying[day] + s.delivered[day] }

  /** Each day's counter is the number of its sends in flight or delivered. */
  ghost predicate Conserved(s: State) { forall day: int :: CountOf(s.counts, day) == Used(s, day) }

  /** The counter about to be bumped is not at the top of its 32 bits. */
  predicate NoWrap(s: State, e: Event) { e.Begin? ==> CountOf(s.counts, e.day) != U32 - 1 }

  lemma StepConserves(s: State, e: Event)
    requires Enabled(s, e) && Conserved(s)
    ensures Conserved(Step(s, e)) <==> NoWrap(s, e)
  {
    var s' := Step(s, e);
    assert CountOf(s.counts, e.day) == Used(s, e.day);
    forall day: int | day != e.day ensures CountOf(s'.counts, day) == Used(s', day) {
      assert CountOf(s.counts, day) == Used(s, day);
    }
    assert Conserved(s') <==> CountOf(s'.counts, e.day) == Used(s', e.day);
  }

  ghost predicate ConservedAt(es: seq<Event>, n: nat)
    requires n <= |es|
  {
    Conserved(At(es, n))
  }

  predicate NoWrapAt(es: seq<Event>, n: nat)
    requires n < |es|
  {
    NoWrap(At(es, n), es[n])
  }

  /** Over every interleaving the counters stay exact, exactly as long as none is bumped past its 32 bits. */
  lemma QuotaConserved(es: seq<Event>)
    requires Run(es)
    ensures (forall n | 0 <= n <= |es| :: ConservedAt(es, n)) <==> (forall n | 0 <= n < |es| :: NoWrapAt(es, n))
  {
    var exact := seq(|es| + 1, i requires 0 <= i <= |es| => ConservedAt(es, i));
    var calm := seq(|es|, i requires 0 <= i < |es| => NoWrapAt(es, i));
    assert ConservedAt(es, 0);
    forall i | 0 <= i < |es| && exact[i] ensures exact[i + 1] <==> calm[i] {
      assert EnabledAt(es, i);
      StepConserves(At(es, i), es[i]);
    }
    FirstDivergence(exact, calm);
    assert forall i | 0 <= i <= |es| :: exact[i] <==> ConservedAt(es, i);
    assert forall i | 0 <= i < |es| :: calm[i] <==> NoWrapAt(es, i);
  }

  lemma {:induction false} ConservedUpTo(es: seq<Event>, n: nat)
    requires Run(es) && n <= |es| && forall i | 0 <= i < n :: NoWrapAt(es, i)
    ensures ConservedAt(es, n)
  {
    if n > 0 {
      ConservedUpTo(es, n - 1);
      assert EnabledAt(es, n - 1) && NoWrapAt(es, n - 1);
      StepConserves(At(es, n - 1), es[n - 1]);
    }
  }

  /** As long as no counter has wrapped, a refund finds a positive counter. */
  lemma RefundGuardHolds(es: seq<Event>, n: nat)
    requires Run(es) && n < |es| && es[n].Failed? && forall i | 0 <= i < n :: NoWrapAt(es, i)
    ensures var counts, day := At(es, n).counts, es[n].day; day in counts && counts[day] > 0
  {
    ConservedUpTo(es, n);
    assert EnabledAt(es, n);
    assert CountOf(At(es, n).counts, es[n].day) == Used(At(es, n), es[n].day);
  }

  /** A send is refused exactly when the day's sends in flight or delivered already fill its quota. */
  lemma RefusedExactlyWhenFull(s: State, day: int, q: u32)
    requires Conserved(s) && NoWrap(s, Begin(day, Some(q)))
    ensures !Reserved(s.counts, day, Some(q)).1 <==> Used(s, day) >= q
    ensures Step(s, Begin(day, Some(q))).flying == if Used(s, day) >= q then s.flying else s.flying + multiset{day}
  {
    assert CountOf(s.counts, day) == Used(s, day);
  }

  /** Without a quota every send goes through and is counted, at the top of the range by starting over. */
  lemma UncappedAlwaysPasses(s: State, day: int)
    ensures var s', n := Step(s, Begin(day, None)), CountOf(s.counts, day);
            && s'.flying == s.flying + multiset{day} && s'.delivered == s.delivered
            && (CountOf(s'.counts, day) == n + 1 || (n == 0xFFFF_FFFF && CountOf(s'.counts, day) == 0))
            && forall d: int | d != day :: CountOf(s'.counts, d) == CountOf(s.counts, d)
  {
  }

  /** With a quota a send goes through exactly if the counter, one further, does not exceed it; only then is it
      counted. */
  lemma CappedPassesBelow(s: State, day: int, q: u32)
    ensures var s', n := Step(s, Begin(day, Some(q))), CountOf(s.counts, day);
            var next := if n == 0xFFFF_FFFF then 0 else n + 1;
            && s'.flying == (if next <= q then s.flying + multiset{day} else s.flying) && s'.delivered == s.delivered
            && CountOf(s'.counts, day) == (if next <= q then next else n)
            && forall d: int | d != day :: CountOf(s'.counts, d) == CountOf(s.counts, d)
  {
  }

  /** A delivered send leaves the counters alone; a failed one gives its slot back, unless the counter is at zero. */
  lemma EndsExactly(s: State, day: int)
    requires s.flying[day] > 0
    ensures var s' := Step(s, Delivered(day));
            && s'.counts == s.counts
            && s'.flying + multiset{day} == s.flying && s'.delivered == s.delivered + multiset{day}
    ensures var s', n := Step(s, Failed(day)), CountOf(s.counts, day);
            && s'.flying + multiset{day} == s.flying && s'.delivered == s.delivered
            && CountOf(s'.counts, day) == (if n > 0 then n - 1 else 0)
            && forall d: int | d != day :: CountOf(s'.counts, d) == CountOf(s.counts, d)
  {
  }

  // ---- the cap ---------------------------------------------------------------------------------

  /** All sends of `day` read a quota of at most `cap`. */
  predicate ReadsAtMost(es: seq<Event>, day: int, cap: int) {
    forall n | 0 <= n < |es| && es[n].Begin? && es[n].day == day :: es[n].quota.Some? && es[n].quota.value <= cap
  }

  lemma CapStep(s: State, e: Event, day: int, cap: int)
    requires Enabled(s, e) && cap < U32 - 1 && CountOf(s.counts, day) == Used(s, day) <= cap
    requires e.Begin? && e.day == day ==> e.quota.Some? && e.quota.value <= cap
    ensures CountOf(Step(s, e).counts, day) == Used(Step(s, e), day) <= cap
  {
  }

  /** Whatever happens on other days, a day capped below the counter's top never exceeds its cap. */
  lemma {:induction false} CapHolds(es: seq<Event>, day: int, cap: int, n: nat)
    requires Run(es) && ReadsAtMost(es, day, cap) && 0 <= cap < U32 - 1 && n <= |es|
    ensures CountOf(At(es, n).counts, day) == Used(At(es, n), day) <= cap
  {
    if n > 0 {
      CapHolds(es, day, cap, n - 1);
      assert EnabledAt(es, n - 1);
      CapStep(At(es, n - 1), es[n - 1], day, cap);
    }
  }

  /** `k` sends of one day, all reading the largest quota a policy can give. */
  function Sends(day: int, k: nat): seq<Event> { seq(k, _ => Begin(day, Some(U32 - 1))) }

  lemma {:induction false} SendsCount(day: int, k: nat, n: nat)
    requires n <= k && n < U32
    ensures CountOf(At(Sends(day, k), n).counts, day) == Used(At(Sends(day, k), n), day) == n
  {
    if n > 0 {
      SendsCount(day, k, n - 1);
      assert Sends(day, k)[n - 1] == Begin(day, Some(U32 - 1));
    }
  }

  /** At the very top of the range the cap fails: of 2^32 sends that read a quota of 2^32 - 1, all are let through. */
  lemma TopCapWraps(day: int)
    ensures Run(Sends(day, U32)) && ReadsAtMost(Sends(day, U32), day, U32 - 1)
    ensures Used(At(Sends(day, U32), U32), day) == U32 && CountOf(At(Sends(day, U32), U32).counts, day) == 0
  {
    var es := Sends(day, U32);
    SendsCount(day, U32, U32 - 1);
    assert es[U32 - 1] == Begin(day, Some(U32 - 1));
    assert At(es, U32) == Step(At(es, U32 - 1), es[U32 - 1]);
    forall n | 0 <= n < |es| ensures EnabledAt(es, n) { assert es[n] == Begin(day, Some(U32 - 1)); }
  }
}
