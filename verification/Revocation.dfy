/** The revocation set: entries are forgotten lazily by lookups and in sweeps. */
module Revocation {
  import opened Wrappers
  import opened Divergence

  /** Workspace `None` marks a master admin. */
  datatype SubjectKey = SubjectKey(workspace: Option<string>, subject: string)

  type Entries = map<SubjectKey, int>

  function Kept(inner: Entries, ttl: nat, now: int): Entries {
    map k | k in inner && inner[k] > now - ttl :: inner[k]
  }

  predicate Expired(inner: Entries, ttl: nat, key: SubjectKey, now: int) { key in inner && now > inner[key] + ttl }

  predicate Revoked(inner: Entries, ttl: nat, key: SubjectKey, iat: int, now: int) {
    key in inner && now <= inner[key] + ttl && iat <= inner[key]
  }

  class RevocationSet {
    var inner: Entries
    const ttlSeconds: nat

    constructor (ttl: int)
      ensures inner == map[] && ttlSeconds == if ttl > 0 then ttl else 0
    {
      inner := map[];
      ttlSeconds := if ttl > 0 then ttl else 0;
    }

    method Revoke(key: SubjectKey, now: int)
      modifies this
      ensures inner == old(inner)[key := now]
    {
      inner := inner[key := now];
    }

    /** The first step of a check: the answer, and whether the entry read is to be removed. */
    method Lookup(key: SubjectKey, iat: int, now: int) returns (r: bool, expired: bool)
      ensures r == Revoked(inner, ttlSeconds, key, iat, now) && expired == Expired(inner, ttlSeconds, key, now)
    {
      if key !in inner { return false, false; }
      var revokedAt := inner[key];
      if now > revokedAt + ttlSeconds { return false, true; }
      return iat <= revokedAt, false;
    }

    /** The second step: whatever stands under the key by then is removed. */
    method Remove(key: SubjectKey)
      modifies this
      ensures inner == old(inner) - {key}
    {
      inner := inner - {key};
    }

    method PurgeExpired(now: int)
      modifies this
      ensures inner == Kept(old(inner), ttlSeconds, now)
    {
      var cutoff := now - ttlSeconds;
      inner := map k | k in inner && inner[k] > cutoff :: inner[k];
    }
  }

  // ---- timed interleavings ---------------------------------------------------------------

  /** `Lookup` and `Remove` are the two steps of the check running under the name `c`. */
  datatype Event =
    | Revoke(key: SubjectKey, now: int)
    | Lookup(c: nat, key: SubjectKey, now: int)
    | Remove(c: nat, now: int)
    | Purge(now: int)

  /** The entries, and the removals that checks have decided on and not yet made. */
  datatype State = State(inner: Entries, pending: map<nat, SubjectKey>)

  function Step(s: State, ttl: nat, e: Event): State {
    match e
    case Revoke(key, now) => s.(inner := s.inner[key := now])
    case Lookup(c, key, now) =>
      if c !in s.pending && Expired(s.inner, ttl, key, now) then s.(pending := s.pending[c := key]) else s
    case Remove(c, _) => if c in s.pending then State(s.inner - {s.pending[c]}, s.pending - {c}) else s
    case Purge(now) => s.(inner := Kept(s.inner, ttl, now))
  }

  function At(es: seq<Event>, ttl: nat, n: nat): State
    requires n <= |es|
  {
    if n == 0 then State(map[], map[]) else Step(At(es, ttl, n - 1), ttl, es[n - 1])
  }

  /** The set that never forgets: the latest revocation of every key. */
  function Ever(es: seq<Event>, n: nat): Entries
    requires n <= |es|
  {
    if n == 0 then map[]
    else
      var e, before := es[n - 1], Ever(es, n - 1);
      if e.Revoke? then before[e.key := e.now] else before
  }

  /** Time does not run backwards. */
  ghost predicate Timed(es: seq<Event>) { forall i, j | 0 <= i < j < |es| :: es[i].now <= es[j].now }

  predicate NoPurge(es: seq<Event>) { forall i | 0 <= i < |es| :: !es[i].Purge? }

  /** The time of the latest event. */
  function Now(es: seq<Event>, n: nat): int
    requires n <= |es|
  {
    if n == 0 then 0 else es[n - 1].now
  }

  /** Entries are never altered: what is there is the latest revocation of its key. */
  lemma {:induction false} EntriesAreLatest(es: seq<Event>, ttl: nat, n: nat)
    requires n <= |es|
    ensures forall k | k in At(es, ttl, n).inner :: k in Ever(es, n) && At(es, ttl, n).inner[k] == Ever(es, n)[k]
  {
    if n > 0 { EntriesAreLatest(es, ttl, n - 1); }
  }

  // ---- agreement on the tokens still accepted --------------------------------------------------

  /** A token is still accepted at `now`; `life` is its lifetime plus the verifier's leeway. */
  predicate Accepted(iat: int, life: int, now: int) { now <= iat + life }

  predicate EverRevoked(ever: Entries, key: SubjectKey, iat: int) { key in ever && iat <= ever[key] }

  /** At the time of the latest of the first `n` events (a lookup, say, which may come at any time), the set answers
      as the one that never forgets on every token still accepted. */
  ghost predicate AgreeAt(es: seq<Event>, ttl: nat, life: int, n: nat)
    requires n <= |es|
  {
    forall key: SubjectKey, iat: int :: Accepted(iat, life, Now(es, n)) ==>
      (Revoked(At(es, ttl, n).inner, ttl, key, iat, Now(es, n)) <==> EverRevoked(Ever(es, n), key, iat))
  }

  /** Every revocation that still matters at `now` is there. */
  ghost predicate Known(inner: Entries, ever: Entries, life: int, now: int) {
    forall k | k in ever :: k in inner || ever[k] + life < now
  }

  ghost predicate KnownAt(es: seq<Event>, ttl: nat, life: int, n: nat)
    requires n <= |es|
  {
    Known(At(es, ttl, n).inner, Ever(es, n), life, Now(es, n))
  }

  lemma AgreeIsKnown(es: seq<Event>, ttl: nat, life: int, n: nat)
    requires n <= |es| && life <= ttl
    ensures AgreeAt(es, ttl, life, n) <==> KnownAt(es, ttl, life, n)
  {
    var inner, ever, now := At(es, ttl, n).inner, Ever(es, n), Now(es, n);
    EntriesAreLatest(es, ttl, n);
    if AgreeAt(es, ttl, life, n) {
      forall k | k in ever && ever[k] + life >= now ensures k in inner {
        assert Accepted(ever[k], life, now) && EverRevoked(ever, k, ever[k]);
        assert Revoked(inner, ttl, k, ever[k], now);
      }
    }
  }

  /** Entries outlive tokens: a purge forgets one second before a lookup does. */
  predicate Outlived(life: int, ttl: nat, purged: bool) { if purged then life < ttl else life <= ttl }

  /** The removal about to happen deletes no entry that still matters. */
  predicate Timely(s: State, life: int, e: Event) {
    e.Remove? && e.c in s.pending && s.pending[e.c] in s.inner ==> s.inner[s.pending[e.c]] + life < e.now
  }

  predicate TimelyAt(es: seq<Event>, ttl: nat, life: int, n: nat)
    requires n < |es|
  {
    Timely(At(es, ttl, n), life, es[n])
  }

  lemma KnownStep(es: seq<Event>, ttl: nat, life: int, n: nat)
    requires n < |es| && Timed(es) && Outlived(life, ttl, es[n].Purge?) && KnownAt(es, ttl, life, n)
    ensures KnownAt(es, ttl, life, n + 1) <==> TimelyAt(es, ttl, life, n)
  {
    var s, s', e := At(es, ttl, n), At(es, ttl, n + 1), es[n];
    EntriesAreLatest(es, ttl, n);
    assert n > 0 ==> es[n - 1].now <= e.now;
    if e.Remove? && e.c in s.pending && s.pending[e.c] in s.inner { assert s.pending[e.c] in Ever(es, n + 1); }
  }

  // ---- a revocation between a lookup and its removal -------------------------------------------

  /** The lookup at `m` finds an expired entry and leaves its removal to the check `c`. */
  predicate Opens(es: seq<Event>, ttl: nat, m: nat, c: nat)
    requires m < |es|
  {
    && es[m].Lookup? && es[m].c == c && c !in At(es, ttl, m).pending
    && Expired(At(es, ttl, m).inner, ttl, es[m].key, es[m].now)
  }

  predicate StaysOpen(es: seq<Event>, m: nat, n: nat, c: nat)
    requires n <= |es|
  {
    forall j | m < j < n :: !(es[j].Remove? && es[j].c == c)
  }

  /** The revocation at `k` falls between the lookup at `m` and its removal at `n`. */
  ghost predicate Crosses(es: seq<Event>, ttl: nat, m: nat, k: nat, n: nat) {
    && m < k < n < |es| && es[n].Remove? && Opens(es, ttl, m, es[n].c) && StaysOpen(es, m, n, es[n].c)
    && es[k].Revoke? && es[k].key == es[m].key
  }

  /** It does, and tokens issued before it are still accepted when it is removed. */
  ghost predicate Interferes(es: seq<Event>, ttl: nat, life: int, m: nat, k: nat, n: nat) {
    Crosses(es, ttl, m, k, n) && es[k].now + life >= es[n].now
  }

  lemma {:induction false} OpenedPends(es: seq<Event>, ttl: nat, m: nat, n: nat, c: nat)
    requires m < n <= |es| && Opens(es, ttl, m, c) && StaysOpen(es, m, n, c)
    ensures c in At(es, ttl, n).pending && At(es, ttl, n).pending[c] == es[m].key
  {
    if n > m + 1 { OpenedPends(es, ttl, m, n - 1, c); }
  }

  lemma {:induction false} PendingWasOpened(es: seq<Event>, ttl: nat, n: nat, c: nat) returns (m: nat)
    requires n <= |es| && c in At(es, ttl, n).pending
    ensures m < n && Opens(es, ttl, m, c) && StaysOpen(es, m, n, c) && es[m].key == At(es, ttl, n).pending[c]
  {
    m := n - 1;
    if c in At(es, ttl, n - 1).pending { m := PendingWasOpened(es, ttl, n - 1, c); }
  }

  /** An entry was there at `m` already, or was written since. */
  lemma {:induction false} EntryHasCause(es: seq<Event>, ttl: nat, m: nat, n: nat, key: SubjectKey) returns (k: nat)
    requires m <= n <= |es| && key in At(es, ttl, n).inner
    ensures m <= k <= n
    ensures if k < n then es[k] == Revoke(key, At(es, ttl, n).inner[key])
            else key in At(es, ttl, m).inner && At(es, ttl, m).inner[key] == At(es, ttl, n).inner[key]
  {
    k := n;
    if m < n {
      if es[n - 1].Revoke? && es[n - 1].key == key {
        k := n - 1;
      } else {
        var before := EntryHasCause(es, ttl, m, n - 1, key);
        k := if before < n - 1 then before else n;
      }
    }
  }

  lemma UntimelyInterferes(es: seq<Event>, ttl: nat, life: int, n: nat) returns (m: nat, k: nat)
    requires n < |es| && Timed(es) && life <= ttl && !TimelyAt(es, ttl, life, n)
    ensures Interferes(es, ttl, life, m, k, n)
  {
    var s, e := At(es, ttl, n), es[n];
    var key := s.pending[e.c];
    m := PendingWasOpened(es, ttl, n, e.c);
    k := EntryHasCause(es, ttl, m, n, key);
    assert es[m].now <= es[n].now;
  }

  lemma {:induction false} EverGrows(es: seq<Event>, k: nat, n: nat)
    requires k < n <= |es| && Timed(es) && es[k].Revoke?
    ensures es[k].key in Ever(es, n) && Ever(es, n)[es[k].key] >= es[k].now
  {
    if k < n - 1 { EverGrows(es, k, n - 1); }
  }

  lemma InterferenceIsUntimely(es: seq<Event>, ttl: nat, life: int, m: nat, k: nat, n: nat)
    requires Timed(es) && Interferes(es, ttl, life, m, k, n) && KnownAt(es, ttl, life, n)
    ensures !TimelyAt(es, ttl, life, n)
  {
    OpenedPends(es, ttl, m, n, es[n].c);
    EverGrows(es, k, n);
    EntriesAreLatest(es, ttl, n);
    assert es[n - 1].now <= es[n].now;
  }

  lemma AllKnownIffTimely(es: seq<Event>, ttl: nat, life: int, purged: bool)
    requires Timed(es) && Outlived(life, ttl, purged) && (purged || NoPurge(es))
    ensures (forall n | 0 <= n <= |es| :: KnownAt(es, ttl, life, n)) <==>
            (forall n | 0 <= n < |es| :: TimelyAt(es, ttl, life, n))
  {
    var known := seq(|es| + 1, i requires 0 <= i <= |es| => KnownAt(es, ttl, life, i));
    var timely := seq(|es|, i requires 0 <= i < |es| => TimelyAt(es, ttl, life, i));
    assert KnownAt(es, ttl, life, 0);
    forall i | 0 <= i < |es| && known[i] ensures known[i + 1] <==> timely[i] { KnownStep(es, ttl, life, i); }
    FirstDivergence(known, timely);
    assert forall i | 0 <= i <= |es| :: known[i] <==> KnownAt(es, ttl, life, i);
    assert forall i | 0 <= i < |es| :: timely[i] <==> TimelyAt(es, ttl, life, i);
  }

  /** While entries outlive tokens, the set agrees throughout a timed interleaving with the one that never forgets,
      exactly when no revocation falls between a lookup of its key and the removal that follows, unless its tokens
      have died. */
  lemma AgreementExactly(es: seq<Event>, ttl: nat, life: int, purged: bool)
    requires Timed(es) && Outlived(life, ttl, purged) && (purged || NoPurge(es))
    ensures (forall n | 0 <= n <= |es| :: AgreeAt(es, ttl, life, n)) <==>
            (forall m: nat, k: nat, n: nat :: !Interferes(es, ttl, life, m, k, n))
  {
    AllKnownIffTimely(es, ttl, life, purged);
    forall n | 0 <= n <= |es| ensures AgreeAt(es, ttl, life, n) <==> KnownAt(es, ttl, life, n) {
      AgreeIsKnown(es, ttl, life, n);
    }
    if forall n | 0 <= n < |es| :: TimelyAt(es, ttl, life, n) {
      forall m: nat, k: nat, n: nat ensures !Interferes(es, ttl, life, m, k, n) {
        if Interferes(es, ttl, life, m, k, n) { InterferenceIsUntimely(es, ttl, life, m, k, n); }
      }
    }
    if forall m: nat, k: nat, n: nat :: !Interferes(es, ttl, life, m, k, n) {
      forall n | 0 <= n < |es| ensures TimelyAt(es, ttl, life, n) {
        if !TimelyAt(es, ttl, life, n) { var m, k := UntimelyInterferes(es, ttl, life, n); }
      }
    }
  }

  /** A revocation lost to the removal of its predecessor: the token stays accepted. */
  lemma RevocationCanBeLost(ttl: nat, life: nat, key: SubjectKey) returns (es: seq<Event>)
    ensures Timed(es) && NoPurge(es) && |es| == 4 && Interferes(es, ttl, life, 1, 2, 3)
    ensures !AgreeAt(es, ttl, life, 4)
  {
    var t := ttl + 1;
    es := [Revoke(key, 0), Lookup(0, key, t), Revoke(key, t), Remove(0, t)];
    Unfold(es, ttl, 0);
    assert At(es, ttl, 1) == State(map[key := 0], map[]);
    Unfold(es, ttl, 1);
    assert At(es, ttl, 2) == State(map[key := 0], map[0 := key]);
    Unfold(es, ttl, 2);
    assert At(es, ttl, 3) == State(map[key := t], map[0 := key]) && key in Ever(es, 3) && Ever(es, 3)[key] == t;
    Unfold(es, ttl, 3);
    assert key !in At(es, ttl, 4).inner && EverRevoked(Ever(es, 4), key, t);
    assert Accepted(t, life, Now(es, 4));
  }

  lemma Unfold(es: seq<Event>, ttl: nat, n: nat)
    requires n < |es|
    ensures At(es, ttl, n + 1) == Step(At(es, ttl, n), ttl, es[n])
    ensures Ever(es, n + 1) == if es[n].Revoke? then Ever(es, n)[es[n].key := es[n].now] else Ever(es, n)
  {
  }

  // ---- how long entries must live ---------------------------------------------------------------

  /** No revocation falls between a lookup of its key and the removal that follows. */
  ghost predicate Undisturbed(es: seq<Event>, ttl: nat) { forall m: nat, k: nat, n: nat :: !Crosses(es, ttl, m, k, n) }

  /** Over every undisturbed timed run, on every token still accepted, the set answers as the one that never forgets. */
  ghost predicate Harmless(life: int, ttl: nat, purged: bool) {
    forall es: seq<Event>, n: nat ::
      n <= |es| && Timed(es) && (purged || NoPurge(es)) && Undisturbed(es, ttl) ==> AgreeAt(es, ttl, life, n)
  }

  lemma OutlivedIsHarmless(life: int, ttl: nat, purged: bool)
    requires Outlived(life, ttl, purged)
    ensures Harmless(life, ttl, purged)
  {
    forall es: seq<Event>, n: nat | n <= |es| && Timed(es) && (purged || NoPurge(es)) && Undisturbed(es, ttl)
      ensures AgreeAt(es, ttl, life, n)
    {
      forall m: nat, k: nat, j: nat ensures !Interferes(es, ttl, life, m, k, j) { assert !Crosses(es, ttl, m, k, j); }
      AgreementExactly(es, ttl, life, purged);
    }
  }

  /** A token that outlives its revocation: the second event is a purge, or a lookup one second later. */
  lemma LongLivedDiffers(life: int, ttl: nat, key: SubjectKey) returns (es: seq<Event>)
    requires life >= ttl
    ensures |es| == 2 && Timed(es) && Undisturbed(es, ttl) && !AgreeAt(es, ttl, life, 2)
    ensures life > ttl ==> NoPurge(es)
  {
    es := [Revoke(key, 0), if life > ttl then Lookup(0, key, ttl + 1) else Purge(ttl)];
    Unfold(es, ttl, 0);
    assert At(es, ttl, 1) == State(map[key := 0], map[]);
    Unfold(es, ttl, 1);
    assert Accepted(0, life, Now(es, 2)) && EverRevoked(Ever(es, 2), key, 0);
    assert !Revoked(At(es, ttl, 2).inner, ttl, key, 0, Now(es, 2));
  }

  /** With purges, forgetting is harmless exactly when no token outlives the entry: lifetime plus leeway below the
      ttl. */
  lemma ForgettingIsHarmless(life: int, ttl: nat)
    ensures Harmless(life, ttl, true) <==> life < ttl
  {
    if life < ttl {
      OutlivedIsHarmless(life, ttl, true);
    } else {
      var es := LongLivedDiffers(life, ttl, SubjectKey(None, ""));
    }
  }

  /** With lookups alone, whose test is one second later, equality is harmless too. */
  lemma LazyForgettingIsHarmless(life: int, ttl: nat)
    ensures Harmless(life, ttl, false) <==> life <= ttl
  {
    if life <= ttl {
      OutlivedIsHarmless(life, ttl, false);
    } else {
      var es := LongLivedDiffers(life, ttl, SubjectKey(None, ""));
    }
  }

  const DEFAULT_TTL: nat := 900
  const ACCESS_TTL: nat := 900
  const LEEWAY: nat := 60

  /** The shipped defaults do not meet the condition: a token outlives its revocation by up to a minute. */
  lemma DefaultsForgetTooSoon()
    ensures !Harmless(ACCESS_TTL + LEEWAY, DEFAULT_TTL, true) && !Harmless(ACCESS_TTL + LEEWAY, DEFAULT_TTL, false)
  {
    ForgettingIsHarmless(ACCESS_TTL + LEEWAY, DEFAULT_TTL);
    LazyForgettingIsHarmless(ACCESS_TTL + LEEWAY, DEFAULT_TTL);
  }
}
