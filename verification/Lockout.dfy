/** The login lockout: a pruned failure list per subject, against the whole history of attempts. */
module Lockout {
  import opened Wrappers

  datatype LockoutPolicy = LockoutPolicy(enabled: bool, maxFailures: nat, window: nat, lockout: nat)

  datatype AttemptState = AttemptState(failures: seq<int>, lockedUntil: Option<int>)

  type Attempts = map<string, AttemptState>

  /** The `Retry-After` value for a remaining duration in nanoseconds: whole seconds, at least one. */
  function RetryAfter(remaining: nat): (seconds: nat)
    ensures seconds >= 1 && remaining < (seconds + 1) * 1_000_000_000
    ensures seconds == 1 || seconds * 1_000_000_000 <= remaining
  {
    var seconds := remaining / 1_000_000_000;
    if seconds < 1 then 1 else seconds
  }

  /** The failures later than `cut`, in order. */
  function Inside(failures: seq<int>, cut: int): seq<int> {
    if failures == [] then []
    else
      var last := failures[|failures| - 1];
      Inside(failures[..|failures| - 1], cut) + if last > cut then [last] else []
  }

  /** Each failure is kept or not on its own, in place: exactly if it is later than `cut`. */
  lemma {:induction false} InsideSplits(a: seq<int>, t: int, b: seq<int>, cut: int)
    ensures Inside(a + b, cut) == Inside(a, cut) + Inside(b, cut)
    ensures Inside([t], cut) == if cut < t then [t] else []
    decreases |b|
  {
    assert [t][..0] == [];
    if b == [] {
      assert a + b == a;
    } else {
      assert (a + b)[..|a + b| - 1] == a + b[..|b| - 1];
      InsideSplits(a, t, b[..|b| - 1], cut);
    }
  }

  /** One failure of one subject: its new state, and the wait imposed, if any. */
  function Failed(st: AttemptState, policy: LockoutPolicy, now: int): (AttemptState, Option<nat>) {
    if st.lockedUntil.Some? && st.lockedUntil.value > now then (st, Some(RetryAfter(st.lockedUntil.value - now)))
    else if st.lockedUntil.Some? then Recount([], policy, now)
    else Recount(Inside(st.failures, now - policy.window), policy, now)
  }

  /** A failure at `now` on top of the failures still in its window. */
  function Recount(recent: seq<int>, policy: LockoutPolicy, now: int): (AttemptState, Option<nat>) {
    if |recent| + 1 >= policy.maxFailures
    then (AttemptState(recent + [now], Some(now + policy.lockout)), Some(RetryAfter(policy.lockout)))
    else (AttemptState(recent + [now], None), None)
  }

  function StateOf(inner: Attempts, subject: string): AttemptState {
    if subject in inner then inner[subject] else AttemptState([], None)
  }

  class LoginAttempts {
    var inner: Attempts

    constructor ()
      ensures inner == map[]
    {
      inner := map[];
    }

    /** Blocks exactly while an enabled policy's lock lies ahead, for about the rest of it. */
    method Check(subject: string, policy: LockoutPolicy, now: int) returns (wait: Option<nat>)
      ensures var until := StateOf(inner, subject).lockedUntil;
              if policy.enabled && until.Some? && until.value > now then wait == Some(RetryAfter(until.value - now))
              else wait == None
    {
      if !policy.enabled || subject !in inner { return None; }
      var until := inner[subject].lockedUntil;
      if until.None? { return None; }
      if until.value > now {
        return Some(RetryAfter(until.value - now));
      }
      return None;
    }

    method NoteFailure(subject: string, policy: LockoutPolicy, now: int) returns (wait: Option<nat>)
      modifies this
      ensures !policy.enabled ==> inner == old(inner) && wait == None
      ensures policy.enabled ==>
                var (st, w) := Failed(StateOf(old(inner), subject), policy, now);
                inner == old(inner)[subject := st] && wait == w
    {
      if !policy.enabled { return None; }
      var entry := StateOf(inner, subject);
      inner := inner[subject := entry];
      if entry.lockedUntil.Some? {
        if entry.lockedUntil.value > now { return Some(RetryAfter(entry.lockedUntil.value - now)); }
        entry := AttemptState([], None);
      }
      var kept := Retain(entry.failures, now - policy.window);
      entry := entry.(failures := kept + [now]);
      if |entry.failures| >= policy.maxFailures {
        entry := entry.(lockedUntil := Some(now + policy.lockout));
        wait := Some(RetryAfter(policy.lockout));
      } else {
        wait := None;
      }
      inner := inner[subject := entry];
    }

    method NoteSuccess(subject: string)
      modifies this
      ensures inner == old(inner) - {subject}
    {
      inner := inner - {subject};
    }
  }

  method Retain(failures: seq<int>, cut: int) returns (kept: seq<int>)
    ensures kept == Inside(failures, cut)
  {
    kept := [];
    for i := 0 to |failures|
      invariant kept == Inside(failures[..i], cut)
    {
      assert failures[..i + 1][..i] == failures[..i];
      if failures[i] > cut { kept := kept + [failures[i]]; }
    }
    assert failures[..|failures|] == failures;
  }

  // ---- the history specification -------------------------------------------------------------

  /** What one subject did, oldest first. */
  datatype Attempt = Failure(now: int) | Success

  predicate LockedAt(h: seq<Attempt>, policy: LockoutPolicy, now: int) {
    LockEnd(h, policy).Some? && LockEnd(h, policy).value > now
  }

  /** The failures that count: those since the last success or expired lock that did not fall inside a lock. */
  function Counted(h: seq<Attempt>, policy: LockoutPolicy): seq<int>
    decreases |h|, 0
  {
    if h == [] || h[|h| - 1].Success? then []
    else
      var before, now := h[..|h| - 1], h[|h| - 1].now;
      if LockEnd(before, policy).None? then Counted(before, policy) + [now]
      else if LockEnd(before, policy).value > now then Counted(before, policy)
      else [now]
  }

  /** Where the current or last lock ends: set by the failure that brings the count inside the window to the
      threshold. */
  function LockEnd(h: seq<Attempt>, policy: LockoutPolicy): Option<int>
    decreases |h|, 1
  {
    if h == [] || h[|h| - 1].Success? then None
    else
      var before, now := h[..|h| - 1], h[|h| - 1].now;
      var lock := LockEnd(before, policy);
      if lock.Some? && lock.value > now then lock
      else
        EndAfter(if lock.Some? then [] else Counted(before, policy), policy, now)
  }

  /** The lock set by a failure at `now` that is counted with `earlier`, if it reaches the threshold. */
  function EndAfter(earlier: seq<int>, policy: LockoutPolicy, now: int): Option<int> {
    if |Inside(earlier, now - policy.window)| + 1 >= policy.maxFailures then Some(now + policy.lockout) else None
  }

  /** The part of the counted failures that the store still holds: those in the window of the latest one. */
  function Pruned(counted: seq<int>, policy: LockoutPolicy): seq<int> {
    if counted == [] then []
    else
      var last := counted[|counted| - 1];
      Inside(counted[..|counted| - 1], last - policy.window) + [last]
  }

  lemma {:induction false} InsideTwice(s: seq<int>, a: int, b: int)
    requires a <= b
    ensures Inside(Inside(s, a), b) == Inside(s, b)
  {
    if s != [] {
      var init, last := s[..|s| - 1], s[|s| - 1];
      InsideTwice(init, a, b);
      if last > a { InsideSnoc(Inside(init, a), last, b); } else { assert Inside(s, a) == Inside(init, a); }
    }
  }

  lemma InsideSnoc(s: seq<int>, t: int, cut: int)
    ensures Inside(s + [t], cut) == Inside(s, cut) + if t > cut then [t] else []
  {
    assert (s + [t])[..|s|] == s;
  }

  ghost predicate AllBy(s: seq<int>, now: int) { forall t | t in s :: t <= now }

  lemma PrunedSnoc(s: seq<int>, t: int, policy: LockoutPolicy)
    ensures Pruned(s + [t], policy) == Inside(s, t - policy.window) + [t]
  {
    assert (s + [t])[..|s|] == s;
  }

  lemma PruneThenCut(init: seq<int>, last: int, a: int, b: int)
    requires a <= b
    ensures Inside(Inside(init, a) + [last], b) == Inside(init + [last], b)
  {
    InsideSnoc(Inside(init, a), last, b);
    InsideTwice(init, a, b);
    InsideSnoc(init, last, b);
  }

  /** Pruning early loses nothing that a later window could still see. */
  lemma PruningIsHarmless(counted: seq<int>, policy: LockoutPolicy, now: int)
    requires AllBy(counted, now)
    ensures Inside(Pruned(counted, policy), now - policy.window) == Inside(counted, now - policy.window)
  {
    if counted != [] {
      var init, last := counted[..|counted| - 1], counted[|counted| - 1];
      assert counted == init + [last] && last in counted;
      PrunedSnoc(init, last, policy);
      PruneThenCut(init, last, last - policy.window, now - policy.window);
    }
  }

  /** The stored state of a subject with history `h`. */
  ghost predicate Represents(st: AttemptState, h: seq<Attempt>, policy: LockoutPolicy) {
    st.lockedUntil == LockEnd(h, policy) && st.failures == Pruned(Counted(h, policy), policy)
  }

  /** The failures that a failure at `now` is counted with. */
  function Earlier(h: seq<Attempt>, policy: LockoutPolicy): seq<int> {
    if LockEnd(h, policy).Some? then [] else Counted(h, policy)
  }

  lemma AfterFailure(h: seq<Attempt>, policy: LockoutPolicy, now: int)
    ensures var h' := h + [Failure(now)];
            if LockedAt(h, policy, now)
            then LockEnd(h', policy) == LockEnd(h, policy) && Counted(h', policy) == Counted(h, policy)
            else
              && Counted(h', policy) == Earlier(h, policy) + [now]
              && LockEnd(h', policy) == EndAfter(Earlier(h, policy), policy, now)
  {
    assert (h + [Failure(now)])[..|h|] == h;
  }

  /** A failure on top of the windowed part of `earlier` keeps what pruning would leave of the longer list. */
  lemma RecountFailures(earlier: seq<int>, policy: LockoutPolicy, now: int)
    ensures Recount(Inside(earlier, now - policy.window), policy, now).0.failures == Pruned(earlier + [now], policy)
  {
    PrunedSnoc(earlier, now, policy);
  }

  lemma RecountLock(earlier: seq<int>, policy: LockoutPolicy, now: int)
    ensures Recount(Inside(earlier, now - policy.window), policy, now).0.lockedUntil == EndAfter(earlier, policy, now)
    ensures Recount(Inside(earlier, now - policy.window), policy, now).1.Some? <==> EndAfter(earlier, policy, now).Some?
  {
  }

  /** One failure outside a lock, told in terms of all counted failures instead of the pruned ones. */
  lemma FailedMeaning(st: AttemptState, counted: seq<int>, earlier: seq<int>, policy: LockoutPolicy, now: int)
    requires st.failures == Pruned(counted, policy) && AllBy(counted, now)
    requires earlier == if st.lockedUntil.Some? then [] else counted
    requires st.lockedUntil.Some? ==> st.lockedUntil.value <= now
    ensures Failed(st, policy, now) == Recount(Inside(earlier, now - policy.window), policy, now)
  {
    if st.lockedUntil.None? { PruningIsHarmless(counted, policy, now); }
  }

  lemma FailureRefines(st: AttemptState, h: seq<Attempt>, policy: LockoutPolicy, now: int)
    requires Represents(st, h, policy) && AllBy(Counted(h, policy), now)
    ensures Represents(Failed(st, policy, now).0, h + [Failure(now)], policy)
    ensures Failed(st, policy, now).1.Some? <==> LockEnd(h + [Failure(now)], policy).Some?
  {
    AfterFailure(h, policy, now);
    if !LockedAt(h, policy, now) {
      FailedMeaning(st, Counted(h, policy), Earlier(h, policy), policy, now);
      RecountFailures(Earlier(h, policy), policy, now);
      RecountLock(Earlier(h, policy), policy, now);
    }
  }

  // ---- runs over many subjects -------------------------------------------------------------------

  datatype Event = Fail(subject: string, now: int) | Succeed(subject: string)

  function Step(inner: Attempts, policy: LockoutPolicy, e: Event): Attempts {
    match e
    case Fail(subject, now) => inner[subject := Failed(StateOf(inner, subject), policy, now).0]
    case Succeed(subject) => inner - {subject}
  }

  function Run(es: seq<Event>, policy: LockoutPolicy): Attempts {
    if es == [] then map[] else Step(Run(es[..|es| - 1], policy), policy, es[|es| - 1])
  }

  function History(es: seq<Event>, subject: string): seq<Attempt> {
    if es == [] then []
    else
      var e := es[|es| - 1];
      History(es[..|es| - 1], subject) +
      if e.subject != subject then [] else [if e.Fail? then Failure(e.now) else Success]
  }

  /** Time does not run backwards. */
  ghost predicate InOrder(es: seq<Event>) {
    forall i, j | 0 <= i < j < |es| && es[i].Fail? && es[j].Fail? :: es[i].now <= es[j].now
  }

  lemma {:induction false} CountedBefore(es: seq<Event>, subject: string, policy: LockoutPolicy, now: int)
    requires forall i | 0 <= i < |es| && es[i].Fail? :: es[i].now <= now
    ensures AllBy(Counted(History(es, subject), policy), now)
  {
    if es != [] {
      var init, e := es[..|es| - 1], es[|es| - 1];
      CountedBefore(init, subject, policy, now);
      var h := History(init, subject);
      if e.subject == subject && e.Fail? {
        AfterFailure(h, policy, e.now);
        assert History(es, subject) == h + [Failure(e.now)];
      } else if e.subject == subject {
        assert History(es, subject) == h + [Success];
      } else {
        assert History(es, subject) == h;
      }
    }
  }

  /** Over every timed run, each subject's stored state is what its own history alone determines. */
  lemma {:induction false} LockoutRefinesHistory(es: seq<Event>, policy: LockoutPolicy, subject: string)
    requires InOrder(es)
    ensures Represents(StateOf(Run(es, policy), subject), History(es, subject), policy)
  {
    if es != [] {
      var init, e := es[..|es| - 1], es[|es| - 1];
      LockoutRefinesHistory(init, policy, subject);
      var h, st := History(init, subject), StateOf(Run(init, policy), subject);
      if e.subject != subject {
        assert History(es, subject) == h;
      } else if e.Fail? {
        CountedBefore(init, subject, policy, e.now);
        FailureRefines(st, h, policy, e.now);
      } else {
        assert History(es, subject) == h + [Success];
      }
    }
  }

  lemma FailureAnswers(st: AttemptState, h: seq<Attempt>, policy: LockoutPolicy, now: int)
    requires Represents(st, h, policy) && AllBy(Counted(h, policy), now)
    ensures var (st', wait) := Failed(st, policy, now);
            if LockedAt(h, policy, now) then wait == Some(RetryAfter(LockEnd(h, policy).value - now))
            else if |Inside(Earlier(h, policy), now - policy.window)| + 1 >= policy.maxFailures
            then wait == Some(RetryAfter(policy.lockout)) && st'.lockedUntil == Some(now + policy.lockout)
            else wait == None
  {
    if !LockedAt(h, policy, now) {
      FailedMeaning(st, Counted(h, policy), Earlier(h, policy), policy, now);
    }
  }

  /** A failure is answered with a wait exactly when it meets a running lock or brings the count to the threshold, and
      the wait is then what is left of the lock: all of it, if it has just been set. */
  lemma WaitExactly(es: seq<Event>, policy: LockoutPolicy, subject: string, now: int)
    requires InOrder(es) && forall i | 0 <= i < |es| && es[i].Fail? :: es[i].now <= now
    ensures var h := History(es, subject);
            var (st, wait) := Failed(StateOf(Run(es, policy), subject), policy, now);
            if LockedAt(h, policy, now) then wait == Some(RetryAfter(LockEnd(h, policy).value - now))
            else if |Inside(Earlier(h, policy), now - policy.window)| + 1 >= policy.maxFailures
            then wait == Some(RetryAfter(policy.lockout)) && st.lockedUntil == Some(now + policy.lockout)
            else wait == None
  {
    LockoutRefinesHistory(es, policy, subject);
    CountedBefore(es, subject, policy, now);
    FailureAnswers(StateOf(Run(es, policy), subject), History(es, subject), policy, now);
  }

  /** However many failures fall inside a lock, its end does not move and nothing more is counted. */
  lemma {:induction false} LockEndIsFixed(h: seq<Attempt>, more: seq<Attempt>, policy: LockoutPolicy)
    requires LockEnd(h, policy).Some?
    requires forall i | 0 <= i < |more| :: more[i].Failure? && more[i].now < LockEnd(h, policy).value
    ensures LockEnd(h + more, policy) == LockEnd(h, policy) && Counted(h + more, policy) == Counted(h, policy)
    decreases |more|
  {
    if more == [] {
      assert h + more == h;
    } else {
      LockEndIsFixed(h, more[..|more| - 1], policy);
      assert (h + more)[..|h + more| - 1] == h + more[..|more| - 1];
    }
  }
}
