/** Secrets that work once: password reset tokens and OAuth states, each consumed by a SELECT and a guarded UPDATE. */
module OneShot {
  import opened Wrappers

  /**
   * `grant` is what a success hands back: the user id of a reset token, the redirect URI of an OAuth state.
   * A reset token has no provider. Rows are keyed by the secret, which stands for its hash.
   */
  datatype Row = Row(grant: string, provider: string, expiresAt: int, consumedAt: Option<int>)

  type Rows = map<string, Row>

  datatype Outcome =
    | Issued
    | Duplicate
    | Passed
    | Won(secret: string, grant: string, now: int)
    | Unknown
    | ProviderMismatch
    | AlreadyConsumed
    | Expired
    | Invalidated

  /** The checks made on the row that was read; `asked` is the caller's provider, if the table has one. */
  function Verdict(rows: Rows, secret: string, asked: Option<string>, now: int): Outcome {
    if secret !in rows then Unknown
    else if asked.Some? && rows[secret].provider != asked.value then ProviderMismatch
    else if rows[secret].consumedAt.Some? then AlreadyConsumed
    else if rows[secret].expiresAt <= now then Expired
    else Passed
  }

  /** The UPDATE guarded by `consumed_at IS NULL`. */
  function Claim(rows: Rows, secret: string, now: int): (Rows, bool) {
    if secret !in rows || rows[secret].consumedAt.Some? then (rows, false)
    else (rows[secret := rows[secret].(consumedAt := Some(now))], true)
  }

  function InvalidateAll(rows: Rows, user: string, now: int): Rows {
    map k | k in rows ::
      if rows[k].grant == user && rows[k].consumedAt.None? then rows[k].(consumedAt := Some(now)) else rows[k]
  }

  class PasswordResets {
    var rows: Rows

    constructor ()
      ensures rows == map[]
    {
      rows := map[];
    }

    method Issue(token: string, user: string, now: int, ttl: int) returns (ok: bool)
      modifies this
      ensures ok <==> token !in old(rows)
      ensures rows == if ok then old(rows)[token := Row(user, "", now + ttl, None)] else old(rows)
    {
      ok := token !in rows;
      if ok { rows := rows[token := Row(user, "", now + ttl, None)]; }
    }

    /** The SELECT of a consume and the checks on what it returned. */
    method ConsumeRead(token: string, now: int) returns (v: Outcome, user: string)
      ensures v == Verdict(rows, token, None, now)
      ensures v.Passed? ==> user == rows[token].grant
    {
      user := "";
      if token !in rows { return Unknown, user; }
      var row := rows[token];
      if row.consumedAt.Some? { return AlreadyConsumed, user; }
      if row.expiresAt <= now { return Expired, user; }
      return Passed, row.grant;
    }

    /** The guarded UPDATE; the caller reports success exactly if it changed a row. */
    method ConsumeWrite(token: string, now: int) returns (changed: bool)
      modifies this
      ensures (rows, changed) == Claim(old(rows), token, now)
    {
      changed := token in rows && rows[token].consumedAt.None?;
      if changed { rows := rows[token := rows[token].(consumedAt := Some(now))]; }
    }

    method InvalidateAllForUser(user: string, now: int)
      modifies this
      ensures rows == InvalidateAll(old(rows), user, now)
    {
      rows := map k | k in rows ::
        if rows[k].grant == user && rows[k].consumedAt.None? then rows[k].(consumedAt := Some(now)) else rows[k];
    }
  }

  class OAuthStates {
    var rows: Rows

    constructor ()
      ensures rows == map[]
    {
      rows := map[];
    }

    method Issue(state: string, provider: string, redirectUri: string, now: int, ttl: int) returns (ok: bool)
      modifies this
      ensures ok <==> state !in old(rows)
      ensures rows == if ok then old(rows)[state := Row(redirectUri, provider, now + ttl, None)] else old(rows)
    {
      ok := state !in rows;
      if ok { rows := rows[state := Row(redirectUri, provider, now + ttl, None)]; }
    }

    /** As for reset tokens, with the provider compared before anything else. */
    method ConsumeRead(state: string, provider: string, now: int) returns (v: Outcome, redirectUri: string)
      ensures v == Verdict(rows, state, Some(provider), now)
      ensures v.Passed? ==> redirectUri == rows[state].grant
    {
      redirectUri := "";
      if state !in rows { return Unknown, redirectUri; }
      var row := rows[state];
      if row.provider != provider { return ProviderMismatch, redirectUri; }
      if row.consumedAt.Some? { return AlreadyConsumed, redirectUri; }
      if row.expiresAt <= now { return Expired, redirectUri; }
      return Passed, row.grant;
    }

    method ConsumeWrite(state: string, now: int) returns (changed: bool)
      modifies this
      ensures (rows, changed) == Claim(old(rows), state, now)
    {
      changed := state in rows && rows[state].consumedAt.None?;
      if changed { rows := rows[state := rows[state].(consumedAt := Some(now))]; }
    }
  }

  // ---- interleavings ------------------------------------------------------------------------

  datatype Event =
    | Issuing(secret: string, grant: string, provider: string, expiresAt: int)
    | Read(c: nat, secret: string, asked: Option<string>, now: int)
    | Write(c: nat)
    | Invalidating(user: string, now: int)

  /** A consumer between its two statements, with the grant it read. */
  datatype Held = Held(secret: string, asked: Option<string>, now: int, grant: string)

  datatype State = State(rows: Rows, held: map<nat, Held>)

  function Step(s: State, e: Event): (State, Outcome) {
    match e
    case Issuing(secret, grant, provider, expiresAt) =>
      if secret in s.rows then (s, Duplicate)
      else (s.(rows := s.rows[secret := Row(grant, provider, expiresAt, None)]), Issued)
    case Read(c, secret, asked, now) =>
      var v := Verdict(s.rows, secret, asked, now);
      if !v.Passed? || c in s.held then (s, v)
      else (s.(held := s.held[c := Held(secret, asked, now, s.rows[secret].grant)]), Passed)
    case Write(c) =>
      if c !in s.held then (s, Unknown)
      else
        var h := s.held[c];
        var (rows, ok) := Claim(s.rows, h.secret, h.now);
        (State(rows, s.held - {c}), if ok then Won(h.secret, h.grant, h.now) else AlreadyConsumed)
    case Invalidating(user, now) => (s.(rows := InvalidateAll(s.rows, user, now)), Invalidated)
  }

  function At(es: seq<Event>, n: nat): State
    requires n <= |es|
  {
    if n == 0 then State(map[], map[]) else Step(At(es, n - 1), es[n - 1]).0
  }

  function OutcomeAt(es: seq<Event>, n: nat): Outcome
    requires n < |es|
  {
    Step(At(es, n), es[n]).1
  }

  predicate Spent(rows: Rows, secret: string) { secret in rows && rows[secret].consumedAt.Some? }

  /** No row disappears or changes owner, and no spent secret is restored. */
  ghost predicate Grows(before: Rows, after: Rows) {
    forall k | k in before ::
      && k in after && after[k].grant == before[k].grant && after[k].provider == before[k].provider
      && after[k].expiresAt == before[k].expiresAt && (Spent(before, k) ==> Spent(after, k))
  }

  lemma StepGrows(s: State, e: Event)
    ensures Grows(s.rows, Step(s, e).0.rows)
  {
  }

  lemma {:induction false} RunGrows(es: seq<Event>, m: nat, n: nat)
    requires m <= n <= |es|
    ensures Grows(At(es, m).rows, At(es, n).rows)
  {
    if m < n {
      RunGrows(es, m, n - 1);
      StepGrows(At(es, n - 1), es[n - 1]);
    }
  }

  lemma NoWinOnceSpent(es: seq<Event>, m: nat, n: nat, secret: string)
    requires m <= n < |es| && Spent(At(es, m).rows, secret)
    ensures !(OutcomeAt(es, n).Won? && OutcomeAt(es, n).secret == secret)
  {
    RunGrows(es, m, n);
  }

  /** However many consumers race, a secret is won at most once. */
  lemma WonAtMostOnce(es: seq<Event>, m: nat, n: nat)
    requires m < n < |es| && OutcomeAt(es, m).Won? && OutcomeAt(es, n).Won?
    ensures OutcomeAt(es, m).secret != OutcomeAt(es, n).secret
  {
    var secret := OutcomeAt(es, m).secret;
    assert At(es, m + 1) == Step(At(es, m), es[m]).0;
    NoWinOnceSpent(es, m + 1, n, secret);
  }

  /** Nothing issued to a user before an invalidation is won after it, not even by a consumer already past its checks.
      */
  lemma NoWinAfterInvalidation(es: seq<Event>, m: nat, n: nat, secret: string)
    requires m < n < |es| && es[m].Invalidating? && secret in At(es, m).rows &&
             At(es, m).rows[secret].grant == es[m].user
    ensures !(OutcomeAt(es, n).Won? && OutcomeAt(es, n).secret == secret)
  {
    assert At(es, m + 1).rows == InvalidateAll(At(es, m).rows, es[m].user, es[m].now);
    NoWinOnceSpent(es, m + 1, n, secret);
  }

  /** What a waiting consumer holds agrees with the row, which had not expired at the time of its check. */
  ghost predicate HeldOk(rows: Rows, h: Held) {
    && h.secret in rows && rows[h.secret].grant == h.grant && h.now < rows[h.secret].expiresAt
    && (h.asked.Some? ==> h.asked.value == rows[h.secret].provider)
  }

  lemma {:induction false} RunHeldOk(es: seq<Event>, n: nat, c: nat)
    requires n <= |es| && c in At(es, n).held
    ensures HeldOk(At(es, n).rows, At(es, n).held[c])
  {
    if n > 0 {
      RunGrows(es, n - 1, n);
      if c in At(es, n - 1).held { RunHeldOk(es, n - 1, c); }
    }
  }

  /** A win hands out the row's own grant, was checked before expiry, and, where a provider is asked, for the right
      one. */
  lemma WinIsEarned(es: seq<Event>, n: nat)
    requires n < |es| && OutcomeAt(es, n).Won?
    ensures var o, s := OutcomeAt(es, n), At(es, n);
            && es[n].Write? && es[n].c in s.held && HeldOk(s.rows, s.held[es[n].c])
            && o == Won(s.held[es[n].c].secret, s.rows[s.held[es[n].c].secret].grant, s.held[es[n].c].now)
            && !Spent(s.rows, o.secret)
  {
    RunHeldOk(es, n, es[n].c);
  }

  /** The answers that leave a consumer without its grant. */
  predicate Refusal(o: Outcome) {
    o.ProviderMismatch? || o.AlreadyConsumed? || o.Expired? || o.Unknown? || o.Duplicate?
  }

  /** An attempt that is turned down, for the wrong provider or any other reason, changes no row. */
  lemma RefusalChangesNothing(s: State, e: Event)
    requires Refusal(Step(s, e).1)
    ensures Step(s, e).0.rows == s.rows
  {
  }

  /** What the first half of a consume answers: unknown, wrong provider, already consumed and expired, in this order. It
      changes no row. */
  lemma ReadAnswers(s: State, c: nat, secret: string, asked: Option<string>, now: int)
    ensures var (s', answer) := Step(s, Read(c, secret, asked, now));
            && s'.rows == s.rows
            && (answer == Unknown <==> secret !in s.rows)
            && (secret in s.rows ==>
                 var row := s.rows[secret];
                 var other := asked.Some? && asked.value != row.provider;
                 && (answer == ProviderMismatch <==> other)
                 && (answer == AlreadyConsumed <==> !other && row.consumedAt != None)
                 && (answer == Expired <==> !other && row.consumedAt == None && row.expiresAt <= now)
                 && (answer == Passed <==> !other && row.consumedAt == None && now < row.expiresAt))
  {
  }

  /** Undisturbed, a consume wins exactly on a known, unspent, unexpired secret asked for by the right provider; a win
      hands out the row's grant and spends the row, and no other row changes. */
  lemma UndisturbedConsume(s: State, c: nat, secret: string, asked: Option<string>, now: int)
    requires c !in s.held
    ensures var (s', answer) := Step(Step(s, Read(c, secret, asked, now)).0, Write(c));
            && (answer.Won? <==>
                && secret in s.rows && !Spent(s.rows, secret) && now < s.rows[secret].expiresAt
                && (asked.Some? ==> asked.value == s.rows[secret].provider))
            && (answer.Won? ==>
                 answer == Won(secret, s.rows[secret].grant, now) &&
                 s' == s.(rows := s.rows[secret := s.rows[secret].(consumedAt := Some(now))]))
            && (!answer.Won? ==> s' == s)
  {
    assert s.held[c := Held(secret, asked, now, "")] - {c} == s.held;
  }

  /** A new secret gets an unspent row as given; a secret already there is left alone. */
  lemma IssuingInserts(s: State, secret: string, grant: string, provider: string, expiresAt: int)
    ensures var (s', answer) := Step(s, Issuing(secret, grant, provider, expiresAt));
            && (answer == Issued <==> secret !in s.rows) && (answer == Duplicate <==> secret in s.rows)
            && secret in s'.rows && s'.held == s.held
            && (secret !in s.rows ==> s'.rows[secret] == Row(grant, provider, expiresAt, None))
            && s'.rows.Keys == s.rows.Keys + {secret}
            && forall k | k in s.rows :: s'.rows[k] == s.rows[k]
  {
  }

  /** An invalidation spends the user's unspent secrets and changes nothing else. */
  lemma InvalidatingSpends(s: State, user: string, now: int)
    ensures var s' := Step(s, Invalidating(user, now)).0;
            && s'.rows.Keys == s.rows.Keys && s'.held == s.held
            && forall k | k in s.rows ::
                 && (s.rows[k].grant == user ==> Spent(s'.rows, k))
                 && (s.rows[k].grant != user || Spent(s.rows, k) ==> s'.rows[k] == s.rows[k])
                 && (s.rows[k].grant == user && !Spent(s.rows, k) ==>
                      s'.rows[k] == s.rows[k].(consumedAt := Some(now)))
  {
  }

  /** A spent secret has a cause: it was won, or its user's secrets were invalidated. */
  lemma {:induction false} SpentHasCause(es: seq<Event>, n: nat, secret: string) returns (m: nat)
    requires n <= |es| && Spent(At(es, n).rows, secret)
    ensures m < n
    ensures (OutcomeAt(es, m).Won? && OutcomeAt(es, m).secret == secret) ||
            (es[m].Invalidating? && secret in At(es, m).rows && es[m].user == At(es, m).rows[secret].grant)
  {
    m := n - 1;
    if Spent(At(es, n - 1).rows, secret) { m := SpentHasCause(es, n - 1, secret); }
  }
}
