/** One-time email codes: one issuing transaction, and a consume made of a SELECT and a later UPDATE. */
module EmailOtp {
  import opened Wrappers
  import opened Divergence

  const MAX_ATTEMPTS: int := 5

  /** A row's id is its position. Codes stand for their hashes, which are equal exactly when the codes are. */
  datatype Row = Row(code: string, email: string, issuedAt: int, expiresAt: int, consumedAt: Option<int>, attempts: int)

  /** What a consumer has decided to write after its SELECT: the row it saw, when, and with which guess. */
  datatype Pending = Pending(id: nat, guess: string, now: int, action: Action)

  datatype Action = Burn | Take | Charge(attempts: int)

  datatype Outcome =
    | Issued(id: nat)
    | Reading
    | Consumed(id: nat, guess: string, now: int)
    | Unknown
    | Expired(id: nat)
    | WrongCode(id: nat, left: int)
    | Locked(id: nat)

  predicate Open(rows: seq<Row>, i: nat) { i < |rows| && rows[i].consumedAt.None? }

  function Burnt(rows: seq<Row>, email: string, now: int): (r: seq<Row>)
    ensures |r| == |rows|
  {
    seq(|rows|, i requires 0 <= i < |rows| =>
      if rows[i].email == email && rows[i].consumedAt.None? then rows[i].(consumedAt := Some(now)) else rows[i])
  }

  function Issue(rows: seq<Row>, now: int, code: string, email: string, ttl: int): seq<Row> {
    Burnt(rows, email, now) + [Row(code, email, now, now + ttl, None, 0)]
  }

  /** The newest open row for `email` among the first `n`. */
  function Current(rows: seq<Row>, email: string, n: nat): (r: Option<nat>)
    requires n <= |rows|
    ensures r.Some? ==> r.value < n && rows[r.value].email == email && Open(rows, r.value)
    ensures r.None? ==> forall i | 0 <= i < n :: !(rows[i].email == email && Open(rows, i))
  {
    if n == 0 then None
    else
      var best := Current(rows, email, n - 1);
      if rows[n - 1].email == email && rows[n - 1].consumedAt.None? &&
         (best.None? || rows[best.value].issuedAt <= rows[n - 1].issuedAt)
      then Some(n - 1) else best
  }

  /** No open row of the address is newer. */
  lemma {:induction false} CurrentIsNewest(rows: seq<Row>, email: string, n: nat)
    requires n <= |rows|
    ensures forall i | 0 <= i < n && rows[i].email == email && Open(rows, i) ::
              Current(rows, email, n).Some? && rows[i].issuedAt <= rows[Current(rows, email, n).value].issuedAt
  {
    if n > 0 { CurrentIsNewest(rows, email, n - 1); }
  }

  function Decide(row: Row, id: nat, guess: string, now: int): Pending {
    Pending(id, guess, now,
      if row.expiresAt <= now then Burn else if row.code == guess then Take else Charge(row.attempts + 1))
  }

  /** The UPDATE a consumer issues: only the successful one is guarded by `consumed_at IS NULL`. */
  function Written(rows: seq<Row>, p: Pending): (seq<Row>, Outcome)
    requires p.id < |rows|
  {
    var row, done := rows[p.id], Some(p.now);
    match p.action
    case Burn => (rows[p.id := row.(consumedAt := done)], Expired(p.id))
    case Take =>
      if row.consumedAt.Some? then (rows, Unknown)
      else (rows[p.id := row.(consumedAt := done)], Consumed(p.id, p.guess, p.now))
    case Charge(n) =>
      if n >= MAX_ATTEMPTS then (rows[p.id := row.(attempts := n, consumedAt := done)], Locked(p.id))
      else (rows[p.id := row.(attempts := n)], WrongCode(p.id, MAX_ATTEMPTS - n))
  }

  class Otps {
    var rows: seq<Row>

    constructor ()
      ensures rows == []
    {
      rows := [];
    }

    /** One transaction: invalidate the open rows of the address, then insert the new one. */
    method IssueCode(now: int, code: string, email: string, ttl: int) returns (id: nat)
      modifies this
      ensures rows == Issue(old(rows), now, code, email, ttl) && id == |old(rows)|
    {
      var i := 0;
      while i < |rows|
        invariant 0 <= i <= |rows| == |old(rows)|
        invariant forall j | 0 <= j < i :: rows[j] == Burnt(old(rows), email, now)[j]
        invariant forall j | i <= j < |rows| :: rows[j] == old(rows)[j]
      {
        if rows[i].email == email && rows[i].consumedAt.None? {
          rows := rows[i := rows[i].(consumedAt := Some(now))];
        }
        i := i + 1;
      }
      id := |rows|;
      assert rows == Burnt(old(rows), email, now);
      rows := rows + [Row(code, email, now, now + ttl, None, 0)];
    }

    /** The SELECT of a consume, and the branch its caller takes on the row it saw. */
    method ConsumeRead(email: string, guess: string, now: int) returns (p: Option<Pending>)
      ensures var c := Current(rows, email, |rows|);
              p == if c.Some? then Some(Decide(rows[c.value], c.value, guess, now)) else None
    {
      var best: Option<nat> := None;
      for i := 0 to |rows|
        invariant best == Current(rows, email, i)
      {
        if rows[i].email == email && rows[i].consumedAt.None? &&
           (best.None? || rows[best.value].issuedAt <= rows[i].issuedAt) {
          best := Some(i);
        }
      }
      if best.None? { return None; }
      var row := rows[best.value];
      if row.expiresAt <= now { return Some(Pending(best.value, guess, now, Burn)); }
      if row.code == guess { return Some(Pending(best.value, guess, now, Take)); }
      return Some(Pending(best.value, guess, now, Charge(row.attempts + 1)));
    }

    method ConsumeWrite(p: Pending) returns (outcome: Outcome)
      requires p.id < |rows|
      modifies this
      ensures (rows, outcome) == Written(old(rows), p)
    {
      var row := rows[p.id];
      match p.action
      case Burn =>
        rows := rows[p.id := row.(consumedAt := Some(p.now))];
        outcome := Expired(p.id);
      case Take =>
        if row.consumedAt.Some? { return Unknown; }
        rows := rows[p.id := row.(consumedAt := Some(p.now))];
        outcome := Consumed(p.id, p.guess, p.now);
      case Charge(n) =>
        if n >= MAX_ATTEMPTS {
          rows := rows[p.id := row.(attempts := n, consumedAt := Some(p.now))];
          outcome := Locked(p.id);
        } else {
          rows := rows[p.id := row.(attempts := n)];
          outcome := WrongCode(p.id, MAX_ATTEMPTS - n);
        }
    }
  }

  // ---- interleavings ----------------------------------------------------------------------

  /** `Read` and `Write` are the two statements of the consume running under the name `c`. */
  datatype Event =
    | Issuing(now: int, code: string, email: string, ttl: int)
    | Read(c: nat, email: string, guess: string, now: int)
    | Write(c: nat)

  datatype State = State(rows: seq<Row>, pending: map<nat, Pending>)

  predicate Sound(s: State) {
    forall c | c in s.pending :: s.pending[c].id < |s.rows|
  }

  function Step(s: State, e: Event): (r: (State, Outcome))
    requires Sound(s)
    ensures Sound(r.0)
  {
    match e
    case Issuing(now, code, email, ttl) => (s.(rows := Issue(s.rows, now, code, email, ttl)), Issued(|s.rows|))
    case Read(c, email, guess, now) =>
      var current := Current(s.rows, email, |s.rows|);
      if c in s.pending then (s, Reading)
      else if current.None? then (s, Unknown)
      else (s.(pending := s.pending[c := Decide(s.rows[current.value], current.value, guess, now)]), Reading)
    case Write(c) =>
      if c !in s.pending then (s, Reading)
      else
        var (rows, outcome) := Written(s.rows, s.pending[c]);
        (State(rows, s.pending - {c}), outcome)
  }

  function At(es: seq<Event>, n: nat): (s: State)
    requires n <= |es|
    ensures Sound(s)
  {
    if n == 0 then State([], map[]) else Step(At(es, n - 1), es[n - 1]).0
  }

  function OutcomeAt(es: seq<Event>, n: nat): Outcome
    requires n < |es|
  {
    Step(At(es, n), es[n]).1
  }

  // ---- what every step keeps ------------------------------------------------------------------

  /** Rows are only appended; a row keeps its identity, and once consumed it stays consumed. */
  ghost predicate Grows(before: seq<Row>, after: seq<Row>) {
    && |before| <= |after|
    && forall i | 0 <= i < |before| ::
         && after[i].code == before[i].code && after[i].email == before[i].email
         && after[i].expiresAt == before[i].expiresAt
         && (before[i].consumedAt.Some? ==> after[i].consumedAt.Some?)
  }

  lemma StepGrows(s: State, e: Event)
    requires Sound(s)
    ensures Grows(s.rows, Step(s, e).0.rows)
  {
  }

  lemma {:induction false} RunGrows(es: seq<Event>, m: nat, n: nat)
    requires m <= n <= |es|
    ensures Grows(At(es, m).rows, At(es, n).rows)
  {
    if m < n {
      RunGrows(es, m, n - 1);
      StepGrows(At(es, n - 1), es[n - 1]);
    }
  }

  /** An open row is the last row of its address. */
  ghost predicate OnlyNewestOpen(rows: seq<Row>) {
    forall i, j | 0 <= i < j < |rows| && Open(rows, i) :: rows[j].email != rows[i].email
  }

  /** What a consumer holds is still true of the row's fixed fields, and no charge exceeds the cap. */
  ghost predicate Honest(s: State) {
    && (forall c | c in s.pending :: PendingHonest(s.rows, s.pending[c]))
    && (forall i | 0 <= i < |s.rows| :: WithinCap(s.rows, i))
  }

  lemma IssueKeeps(rows: seq<Row>, now: int, code: string, email: string, ttl: int)
    requires OnlyNewestOpen(rows)
    ensures OnlyNewestOpen(Issue(rows, now, code, email, ttl))
  {
    var after := Issue(rows, now, code, email, ttl);
    forall i, j | 0 <= i < j < |after| && Open(after, i) ensures after[j].email != after[i].email {
      assert Open(rows, i) && rows[i].email != email;
      if j < |rows| { assert after[j].email == rows[j].email; }
    }
  }

  lemma StepKeepsNewest(s: State, e: Event)
    requires Sound(s) && OnlyNewestOpen(s.rows)
    ensures OnlyNewestOpen(Step(s, e).0.rows)
  {
    match e
    case Issuing(now, code, email, ttl) => IssueKeeps(s.rows, now, code, email, ttl);
    case Read(_, _, _, _) =>
    case Write(c) =>
      var after := Step(s, e).0.rows;
      forall i, j | 0 <= i < j < |after| && Open(after, i) ensures after[j].email != after[i].email {
        assert Open(s.rows, i);
      }
  }

  ghost predicate PendingHonest(rows: seq<Row>, p: Pending) {
    && p.id < |rows|
    && (p.action.Take? ==> rows[p.id].code == p.guess && p.now < rows[p.id].expiresAt)
    && (p.action.Charge? ==> rows[p.id].code != p.guess && 1 <= p.action.attempts <= MAX_ATTEMPTS)
  }

  ghost predicate WithinCap(rows: seq<Row>, i: nat)
    requires i < |rows|
  {
    0 <= rows[i].attempts <= MAX_ATTEMPTS && (rows[i].attempts == MAX_ATTEMPTS ==> !Open(rows, i))
  }

  lemma StepKeepsHonest(s: State, e: Event)
    requires Sound(s) && Honest(s)
    ensures Honest(Step(s, e).0)
  {
    var s' := Step(s, e).0;
    StepGrows(s, e);
    forall i | 0 <= i < |s'.rows| ensures WithinCap(s'.rows, i) {
      if i < |s.rows| { assert WithinCap(s.rows, i); }
      if e.Write? && e.c in s.pending { assert PendingHonest(s.rows, s.pending[e.c]); }
    }
    forall c | c in s'.pending ensures PendingHonest(s'.rows, s'.pending[c]) {
      if c in s.pending {
        assert PendingHonest(s.rows, s.pending[c]);
      } else {
        assert WithinCap(s.rows, s'.pending[c].id);
      }
    }
  }

  lemma {:induction false} RunKeeps(es: seq<Event>, n: nat)
    requires n <= |es|
    ensures OnlyNewestOpen(At(es, n).rows) && Honest(At(es, n))
  {
    if n > 0 {
      RunKeeps(es, n - 1);
      StepKeepsNewest(At(es, n - 1), es[n - 1]);
      StepKeepsHonest(At(es, n - 1), es[n - 1]);
    }
  }

  /** At most one code is in flight per address, at every moment of every interleaving. */
  lemma {:induction false} SingleInFlight(es: seq<Event>, n: nat, i: nat, j: nat)
    requires n <= |es|
    requires var rows := At(es, n).rows; Open(rows, i) && Open(rows, j) && rows[i].email == rows[j].email
    ensures i == j
  {
    RunKeeps(es, n);
  }

  /** A row that is consumed, by whatever means, never yields a success afterwards. */
  lemma NoSuccessOnceConsumed(es: seq<Event>, m: nat, n: nat, i: nat)
    requires m <= n < |es| && i < |At(es, m).rows| && !Open(At(es, m).rows, i)
    ensures !(OutcomeAt(es, n).Consumed? && OutcomeAt(es, n).id == i)
  {
    RunGrows(es, m, n);
  }

  /** Each row yields at most one success. */
  lemma SuccessIsUnique(es: seq<Event>, m: nat, n: nat)
    requires m < n < |es| && OutcomeAt(es, m).Consumed? && OutcomeAt(es, n).Consumed?
    ensures OutcomeAt(es, m).id != OutcomeAt(es, n).id
  {
    var i := OutcomeAt(es, m).id;
    assert At(es, m + 1) == Step(At(es, m), es[m]).0;
    NoSuccessOnceConsumed(es, m + 1, n, i);
  }

  lemma IssueBurns(rows: seq<Row>, now: int, code: string, email: string, ttl: int, i: nat)
    requires i < |rows| && rows[i].email == email
    ensures i < |Issue(rows, now, code, email, ttl)| && !Open(Issue(rows, now, code, email, ttl), i)
  {
    assert Issue(rows, now, code, email, ttl)[i] == Burnt(rows, email, now)[i];
  }

  /** A later issue for the address puts an end to every earlier row. */
  lemma SupersededNeverSucceeds(es: seq<Event>, m: nat, n: nat, i: nat)
    requires m < n < |es| && es[m].Issuing? && i < |At(es, m).rows| && At(es, m).rows[i].email == es[m].email
    ensures !(OutcomeAt(es, n).Consumed? && OutcomeAt(es, n).id == i)
  {
    var e := es[m];
    assert At(es, m + 1).rows == Issue(At(es, m).rows, e.now, e.code, e.email, e.ttl);
    IssueBurns(At(es, m).rows, e.now, e.code, e.email, e.ttl, i);
    NoSuccessOnceConsumed(es, m + 1, n, i);
  }

  /** Success is earned: the guess was the row's code, presented before its expiry. */
  lemma SuccessMeansRightCode(es: seq<Event>, n: nat)
    requires n < |es| && OutcomeAt(es, n).Consumed?
    ensures var o, rows := OutcomeAt(es, n), At(es, n).rows;
            o.id < |rows| && Open(rows, o.id) && rows[o.id].code == o.guess && o.now < rows[o.id].expiresAt
  {
    RunKeeps(es, n);
  }

  // ---- what each exchange answers -----------------------------------------------------------

  /** Row `i` is the one open row of the address. */
  ghost predicate TheOpen(rows: seq<Row>, email: string, i: nat) {
    && Open(rows, i) && rows[i].email == email
    && forall j | 0 <= j < |rows| && Open(rows, j) && rows[j].email == email :: j == i
  }

  /** Issuing appends an open row that lasts for the time given and closes the open rows of the address; no other row
      changes. */
  lemma IssuingOpens(s: State, now: int, code: string, email: string, ttl: int)
    requires Sound(s)
    ensures var (s', answer) := Step(s, Issuing(now, code, email, ttl));
            && answer == Issued(|s.rows|) && s'.pending == s.pending && |s'.rows| == |s.rows| + 1
            && s'.rows[|s.rows|] == Row(code, email, now, now + ttl, None, 0)
            && TheOpen(s'.rows, email, |s.rows|)
            && forall j | 0 <= j < |s.rows| ::
                 s'.rows[j] == if s.rows[j].email == email && Open(s.rows, j) then s.rows[j].(consumedAt := Some(now))
                               else s.rows[j]
  {
  }

  /** Only row `i` may differ, and no consumer is waiting that was not before. */
  ghost predicate OnlyRow(s: State, s': State, i: nat) {
    && s'.pending == s.pending && |s'.rows| == |s.rows|
    && forall j | 0 <= j < |s.rows| && j != i :: s'.rows[j] == s.rows[j]
  }

  /** Undisturbed, a consume of an address with an open row succeeds exactly with the row's code before it expires; it
      is told expired from then on, and otherwise how many of five attempts are left, the fifth wrong one being the
      last. Only a wrong guess before the fifth leaves the row open. */
  lemma UndisturbedConsume(s: State, c: nat, email: string, guess: string, now: int, i: nat)
    requires Sound(s) && c !in s.pending && TheOpen(s.rows, email, i)
    ensures var row, read := s.rows[i], Step(s, Read(c, email, guess, now));
            var (s', answer) := Step(read.0, Write(c));
            && read.1 == Reading && read.0.rows == s.rows && OnlyRow(s, s', i)
            && (answer == Consumed(i, guess, now) <==> guess == row.code && now < row.expiresAt)
            && (answer == Expired(i) <==> row.expiresAt <= now)
            && (answer == Locked(i) <==> guess != row.code && now < row.expiresAt && row.attempts + 1 >= 5)
            && (answer == WrongCode(i, 5 - (row.attempts + 1)) <==>
                guess != row.code && now < row.expiresAt && row.attempts + 1 < 5)
            && s'.rows[i] ==
               row.(attempts := if now < row.expiresAt && guess != row.code then row.attempts + 1 else row.attempts,
                    consumedAt := if answer.WrongCode? then None else Some(now))
  {
    assert Current(s.rows, email, |s.rows|) == Some(i);
  }

  /** Without an open row there is nothing to consume and nothing changes. */
  lemma NothingToConsume(s: State, c: nat, email: string, guess: string, now: int)
    requires Sound(s) && c !in s.pending
    requires forall j | 0 <= j < |s.rows| && Open(s.rows, j) :: s.rows[j].email != email
    ensures Step(s, Read(c, email, guess, now)) == (s, Unknown)
  {
  }

  /** Of two consumers that both read the right code in time, the first to write succeeds and the other is told
      unknown. */
  lemma RaceHasOneWinner(s: State, c: nat, d: nat, email: string, i: nat, now: int, later: int)
    requires Sound(s) && c !in s.pending && d !in s.pending && c != d && TheOpen(s.rows, email, i)
    requires now < s.rows[i].expiresAt && later < s.rows[i].expiresAt
    ensures var code := s.rows[i].code;
            var both := Step(Step(s, Read(c, email, code, now)).0, Read(d, email, code, later)).0;
            var first := Step(both, Write(c));
            && first.1 == Consumed(i, code, now)
            && Step(first.0, Write(d)) == (s.(rows := s.rows[i := s.rows[i].(consumedAt := Some(now))]), Unknown)
  {
    assert Current(s.rows, email, |s.rows|) == Some(i);
    var code := s.rows[i].code;
    var both := Step(Step(s, Read(c, email, code, now)).0, Read(d, email, code, later)).0;
    assert both.rows == s.rows && both.pending - {c} - {d} == s.pending;
  }

  /** An open row closes only when a code is issued for its address or a consumer that read it finishes. */
  lemma ClosedHasCause(es: seq<Event>, n: nat, i: nat)
    requires n < |es| && Open(At(es, n).rows, i) && !Open(At(es, n + 1).rows, i)
    ensures var o := OutcomeAt(es, n);
            || (es[n].Issuing? && es[n].email == At(es, n).rows[i].email)
            || (es[n].Write? && (o.Consumed? || o.Expired? || o.Locked?) && o.id == i)
  {
    assert At(es, n + 1) == Step(At(es, n), es[n]).0;
  }

  lemma IssuedRow(es: seq<Event>, m: nat)
    requires m < |es| && es[m].Issuing?
    ensures var i, rows, e := |At(es, m).rows|, At(es, m + 1).rows, es[m];
            i < |rows| && rows[i] == Row(e.code, e.email, e.now, e.now + e.ttl, None, 0)
  {
    var e := es[m];
    assert At(es, m + 1) == Step(At(es, m), e).0;
    IssuingOpens(At(es, m), e.now, e.code, e.email, e.ttl);
  }

  lemma GrownRowIsTheOpen(first: seq<Row>, rows: seq<Row>, i: nat)
    requires i < |first| && Grows(first, rows) && OnlyNewestOpen(rows) && Open(rows, i)
    ensures TheOpen(rows, first[i].email, i)
    ensures rows[i].code == first[i].code && rows[i].expiresAt == first[i].expiresAt
  {
  }

  lemma RunNewestOpen(es: seq<Event>, n: nat)
    requires n <= |es|
    ensures OnlyNewestOpen(At(es, n).rows)
  {
    RunKeeps(es, n);
  }

  lemma RowStays(es: seq<Event>, m: nat, n: nat, i: nat)
    requires m <= n <= |es| && i < |At(es, m).rows| && Open(At(es, n).rows, i)
    ensures TheOpen(At(es, n).rows, At(es, m).rows[i].email, i)
    ensures At(es, n).rows[i].code == At(es, m).rows[i].code
    ensures At(es, n).rows[i].expiresAt == At(es, m).rows[i].expiresAt
  {
    RunGrows(es, m, n);
    RunNewestOpen(es, n);
    GrownRowIsTheOpen(At(es, m).rows, At(es, n).rows, i);
  }

  /** In every run, a code issued at one moment and whose row is still open at a later one is accepted then, without
      disturbance, exactly up to its ttl. */
  lemma IssuedCodeWorks(es: seq<Event>, m: nat, n: nat, c: nat, guess: string, now: int)
    requires m < n <= |es| && es[m].Issuing? && Open(At(es, n).rows, |At(es, m).rows|) && c !in At(es, n).pending
    ensures var i, e, read := |At(es, m).rows|, es[m], Step(At(es, n), Read(c, es[m].email, guess, now));
            Step(read.0, Write(c)).1 == Consumed(i, guess, now) <==> guess == e.code && now < e.now + e.ttl
  {
    IssuedRow(es, m);
    RowStays(es, m + 1, n, |At(es, m).rows|);
    UndisturbedConsume(At(es, n), c, es[m].email, guess, now, |At(es, m).rows|);
  }

  // ---- the attempt budget -----------------------------------------------------------------------

  predicate IsCharge(o: Outcome, i: nat) { (o.WrongCode? || o.Locked?) && o.id == i }

  /** How many wrong guesses have been answered on row `i`. */
  function Charges(es: seq<Event>, i: nat, n: nat): nat
    requires n <= |es|
  {
    if n == 0 then 0 else Charges(es, i, n - 1) + if IsCharge(OutcomeAt(es, n - 1), i) then 1 else 0
  }

  /** Every row's counter equals the number of wrong guesses answered on it. */
  ghost predicate LedgerExact(es: seq<Event>, n: nat)
    requires n <= |es|
  {
    && (forall i | 0 <= i < |At(es, n).rows| :: Charges(es, i, n) == At(es, n).rows[i].attempts)
    && (forall i: nat | i >= |At(es, n).rows| :: Charges(es, i, n) == 0)
  }

  /** The write about to happen charges the row from the counter value it still has. */
  predicate Fresh(s: State, e: Event)
    requires Sound(s)
  {
    e.Write? && e.c in s.pending && s.pending[e.c].action.Charge? ==>
      s.pending[e.c].action.attempts == s.rows[s.pending[e.c].id].attempts + 1
  }

  predicate FreshAt(es: seq<Event>, n: nat)
    requires n < |es|
  {
    Fresh(At(es, n), es[n])
  }

  lemma ChargesStep(es: seq<Event>, i: nat, n: nat)
    requires n < |es|
    ensures Charges(es, i, n + 1) == Charges(es, i, n) + if IsCharge(OutcomeAt(es, n), i) then 1 else 0
  {
  }

  /** What a step does to the counters: a write that charges sets one of them, any other event none. */
  lemma AttemptsStep(s: State, e: Event)
    requires Sound(s)
    ensures var (s', o) := Step(s, e);
            && |s'.rows| >= |s.rows|
            && (if e.Write? && e.c in s.pending && s.pending[e.c].action.Charge?
                then
                  var p := s.pending[e.c];
                  && |s'.rows| == |s.rows| && s'.rows[p.id].attempts == p.action.attempts
                  && (forall i: nat :: IsCharge(o, i) <==> i == p.id)
                  && (forall i | 0 <= i < |s.rows| && i != p.id :: s'.rows[i].attempts == s.rows[i].attempts)
                else
                  && (forall i: nat :: !IsCharge(o, i))
                  && forall i | 0 <= i < |s'.rows| ::
                       s'.rows[i].attempts == if i < |s.rows| then s.rows[i].attempts else 0)
  {
  }

  lemma LedgerStep(es: seq<Event>, n: nat)
    requires n < |es| && LedgerExact(es, n)
    ensures LedgerExact(es, n + 1) <==> FreshAt(es, n)
  {
    var s, s' := At(es, n), At(es, n + 1);
    AttemptsStep(s, es[n]);
    forall i: nat { ChargesStep(es, i, n); }
    if es[n].Write? && es[n].c in s.pending && s.pending[es[n].c].action.Charge? {
      var p := s.pending[es[n].c];
      forall i | 0 <= i < |s'.rows| && i != p.id ensures Charges(es, i, n + 1) == s'.rows[i].attempts {}
    }
  }

  /** The attempt counters stay exact throughout a run exactly when every charge is fresh. */
  lemma LedgerExactIffFresh(es: seq<Event>)
    ensures (forall n | 0 <= n <= |es| :: LedgerExact(es, n)) <==> (forall n | 0 <= n < |es| :: FreshAt(es, n))
  {
    var exact := seq(|es| + 1, i requires 0 <= i <= |es| => LedgerExact(es, i));
    var isFresh := seq(|es|, i requires 0 <= i < |es| => FreshAt(es, i));
    assert LedgerExact(es, 0);
    forall i | 0 <= i < |es| && exact[i] ensures exact[i + 1] <==> isFresh[i] { LedgerStep(es, i); }
    FirstDivergence(exact, isFresh);
    assert forall i | 0 <= i <= |es| :: exact[i] <==> LedgerExact(es, i);
    assert forall i | 0 <= i < |es| :: isFresh[i] <==> FreshAt(es, i);
  }

  /** Consumes run one at a time: none starts while another is between its two statements. */
  ghost predicate OneAtATime(es: seq<Event>) {
    forall n | 0 <= n < |es| && es[n].Read? :: At(es, n).pending == map[]
  }

  ghost predicate PendingFresh(s: State) {
    && (forall c, d | c in s.pending && d in s.pending :: c == d)
    && (forall c | c in s.pending && s.pending[c].action.Charge? ::
          s.pending[c].id < |s.rows| && s.pending[c].action.attempts == s.rows[s.pending[c].id].attempts + 1)
  }

  lemma {:induction false} OneAtATimeIsFresh(es: seq<Event>, n: nat)
    requires n <= |es| && OneAtATime(es)
    ensures PendingFresh(At(es, n))
  {
    if n > 0 {
      OneAtATimeIsFresh(es, n - 1);
      var s, e := At(es, n - 1), es[n - 1];
      assert e.Read? ==> s.pending == map[];
    }
  }

  ghost predicate FreshRun(es: seq<Event>) { forall n | 0 <= n < |es| :: FreshAt(es, n) }

  /** With fresh charges, at most five wrong guesses are answered on a row, and after the fifth it never succeeds. */
  lemma FreshBudget(es: seq<Event>, m: nat, n: nat, i: nat)
    requires FreshRun(es) && m <= n < |es|
    ensures Charges(es, i, m) <= MAX_ATTEMPTS
    ensures Charges(es, i, m) == MAX_ATTEMPTS ==> !(OutcomeAt(es, n).Consumed? && OutcomeAt(es, n).id == i)
  {
    LedgerExactIffFresh(es);
    assert LedgerExact(es, m);
    RunKeeps(es, m);
    if i < |At(es, m).rows| {
      assert WithinCap(At(es, m).rows, i);
      if Charges(es, i, m) == MAX_ATTEMPTS { NoSuccessOnceConsumed(es, m, n, i); }
    }
  }

  /** In particular for consumes run one at a time. */
  lemma BudgetHolds(es: seq<Event>, m: nat, n: nat, i: nat)
    requires OneAtATime(es) && m <= n < |es|
    ensures FreshRun(es) && Charges(es, i, m) <= MAX_ATTEMPTS
    ensures Charges(es, i, m) == MAX_ATTEMPTS ==> !(OutcomeAt(es, n).Consumed? && OutcomeAt(es, n).id == i)
  {
    forall k | 0 <= k < |es| ensures FreshAt(es, k) { OneAtATimeIsFresh(es, k); }
    FreshBudget(es, m, n, i);
  }

  /** Over every interleaving the attempts reported as left are never zero; with fresh charges they are those of the
      true count, and exactly the fifth wrong guess is answered as locked. */
  lemma AnswersCount(es: seq<Event>, n: nat)
    requires n < |es|
    ensures OutcomeAt(es, n).WrongCode? ==> 1 <= OutcomeAt(es, n).left < MAX_ATTEMPTS
    ensures FreshRun(es) && OutcomeAt(es, n).WrongCode? ==>
              OutcomeAt(es, n).left == MAX_ATTEMPTS - Charges(es, OutcomeAt(es, n).id, n + 1)
    ensures FreshRun(es) && OutcomeAt(es, n).Locked? ==> Charges(es, OutcomeAt(es, n).id, n + 1) == MAX_ATTEMPTS
  {
    RunKeeps(es, n);
    var s, o := At(es, n), OutcomeAt(es, n);
    if o.WrongCode? || o.Locked? {
      var p := s.pending[es[n].c];
      assert PendingHonest(s.rows, p);
      if FreshRun(es) {
        LedgerExactIffFresh(es);
        assert LedgerExact(es, n + 1);
        assert At(es, n + 1).rows[o.id].attempts == p.action.attempts;
      }
    }
  }

  // ---- the budget needs the condition ---------------------------------------------------------------

  /** `k` consumers read the same open row before any of them writes; then the first `j` of them write. */
  function Overlapping(k: nat, j: nat): seq<Event>
    requires j <= k
  {
    if j > 0 then Overlapping(k, j - 1) + [Write(j - 1)]
    else if k > 0 then Overlapping(k - 1, 0) + [Read(k - 1, "a", "wrong", 1)]
    else [Issuing(0, "right", "a", 10)]
  }

  lemma {:induction false} AtPrefix(es: seq<Event>, longer: seq<Event>, n: nat, i: nat)
    requires n <= |es| <= |longer| && forall j | 0 <= j < |es| :: longer[j] == es[j]
    ensures At(longer, n) == At(es, n) && Charges(longer, i, n) == Charges(es, i, n)
  {
    if n > 0 {
      AtPrefix(es, longer, n - 1, i);
      assert longer[n - 1] == es[n - 1];
      assert Step(At(longer, n - 1), longer[n - 1]) == Step(At(es, n - 1), es[n - 1]);
    }
  }

  /** The first `j` of `k` overlapping consumers have written. */
  ghost predicate Overlap(s: State, k: nat, j: nat) {
    && s.rows == [Row("right", "a", 0, 10, None, if j > 0 then 1 else 0)]
    && (forall c: nat :: c in s.pending <==> j <= c < k)
    && (forall c: nat | j <= c < k :: s.pending[c] == Pending(0, "wrong", 1, Charge(1)))
  }

  lemma OverlapRead(s: State, k: nat)
    requires Sound(s) && Overlap(s, k, 0)
    ensures Overlap(Step(s, Read(k, "a", "wrong", 1)).0, k + 1, 0)
    ensures Step(s, Read(k, "a", "wrong", 1)).1 == Reading
  {
    assert Current(s.rows, "a", 1) == Some(0) by { assert Current(s.rows, "a", 0) == None; }
    assert "wrong" != "right" by { assert "wrong"[0] != "right"[0]; }
  }

  lemma OverlapWrite(s: State, k: nat, j: nat)
    requires Sound(s) && j < k && Overlap(s, k, j)
    ensures Overlap(Step(s, Write(j)).0, k, j + 1)
    ensures IsCharge(Step(s, Write(j)).1, 0)
  {
  }

  lemma EndStep(es: seq<Event>, e: Event, i: nat)
    ensures At(es + [e], |es + [e]|) == Step(At(es, |es|), e).0
    ensures Charges(es + [e], i, |es + [e]|) ==
            Charges(es, i, |es|) + if IsCharge(Step(At(es, |es|), e).1, i) then 1 else 0
  {
    AtPrefix(es, es + [e], |es|, i);
    assert (es + [e])[|es|] == e;
  }

  lemma OverlapStart()
    ensures Overlap(At([Issuing(0, "right", "a", 10)], 1), 0, 0) && Charges([Issuing(0, "right", "a", 10)], 0, 1) == 0
  {
    var es := [Issuing(0, "right", "a", 10)];
    assert At(es, 0) == State([], map[]) && Charges(es, 0, 0) == 0;
    assert Burnt([], "a", 0) == [];
    assert OutcomeAt(es, 0) == Issued(0);
  }

  /** The state and the count at the end of an overlapping run. */
  ghost predicate Overlapped(es: seq<Event>, k: nat, j: nat) {
    Overlap(At(es, |es|), k, j) && Charges(es, 0, |es|) == j
  }

  lemma OverlapWrites(es: seq<Event>, k: nat, j: nat)
    requires j < k && Overlapped(es, k, j)
    ensures Overlapped(es + [Write(j)], k, j + 1)
  {
    EndStep(es, Write(j), 0);
    OverlapWrite(At(es, |es|), k, j);
  }

  lemma OverlapReads(es: seq<Event>, k: nat)
    requires Overlapped(es, k, 0)
    ensures Overlapped(es + [Read(k, "a", "wrong", 1)], k + 1, 0)
  {
    EndStep(es, Read(k, "a", "wrong", 1), 0);
    OverlapRead(At(es, |es|), k);
  }

  lemma {:induction false} OverlapState(k: nat, j: nat)
    requires j <= k
    ensures Overlapped(Overlapping(k, j), k, j)
    decreases k + j
  {
    if j > 0 {
      OverlapState(k, j - 1);
      OverlapWrites(Overlapping(k, j - 1), k, j - 1);
    } else if k > 0 {
      OverlapState(k - 1, 0);
      OverlapReads(Overlapping(k - 1, 0), k - 1);
    } else {
      OverlapStart();
    }
  }

  /** Without the condition there is no bound: any number of overlapping wrong guesses leaves the row open. */
  lemma OverlapEvadesBudget(k: nat)
    ensures var es := Overlapping(k, k); Charges(es, 0, |es|) == k && Open(At(es, |es|).rows, 0)
  {
    OverlapState(k, k);
  }
}
