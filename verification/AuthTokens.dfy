/**
 * One-time secrets: the token table and the statements that touch it.
 *
 * Each statement is one atomic step, and statements of different requests interleave freely.
 * A token stands for itself and its hash; tokens are random and never repeat.
 */
module AuthTokens {
  import opened Options

  type User = int
  type Token = int

  datatype Purpose = PasswordReset | EmailVerification

  datatype Row = Row(user: User, purpose: Purpose, expires: int, used: Option<int>)

  datatype Table = Table(now: int, rows: map<Token, Row>)

  datatype Event =
    | Supersede(user: User, purpose: Purpose)
    | Insert(user: User, purpose: Purpose, token: Token, ttl: int)
    | Redeem(token: Token, purpose: Purpose)
    | Purge
    | Tick(to: int)

  const SEVEN_DAYS: int := 7 * 24 * 3600 * 1000

  function Superseded(s: Table, u: User, p: Purpose): map<Token, Row> {
    map t | t in s.rows ::
      if s.rows[t].user == u && s.rows[t].purpose == p && s.rows[t].used.None?
      then s.rows[t].(used := Some(s.now)) else s.rows[t]
  }

  /** What the redeeming statement asks of a row before it marks it used. */
  predicate Redeems(s: Table, t: Token, p: Purpose) {
    t in s.rows && s.rows[t].purpose == p && s.rows[t].used.None? && s.rows[t].expires > s.now
  }

  function Used(s: Table, t: Token): map<Token, Row>
    requires t in s.rows
  {
    s.rows[t := s.rows[t].(used := Some(s.now))]
  }

  predicate IsStale(row: Row, now: int) {
    row.expires < now - SEVEN_DAYS || (row.used.Some? && row.used.value < now - SEVEN_DAYS)
  }

  function Purged(s: Table): map<Token, Row> {
    map t | t in s.rows && !IsStale(s.rows[t], s.now) :: s.rows[t]
  }

  /** A duplicate token would violate the table's unique key and insert nothing. */
  function Step(s: Table, e: Event): Table {
    match e
    case Supersede(u, p) => s.(rows := Superseded(s, u, p))
    case Insert(u, p, t, ttl) => if t in s.rows then s else s.(rows := s.rows[t := Row(u, p, s.now + ttl, None)])
    case Redeem(t, p) => if Redeems(s, t, p) then s.(rows := Used(s, t)) else s
    case Purge => s.(rows := Purged(s))
    case Tick(to) => if to > s.now then s.(now := to) else s
  }

  /** Whom a redemption answers. */
  function Answer(s: Table, e: Event): Option<User> {
    if e.Redeem? && Redeems(s, e.token, e.purpose) then Some(s.rows[e.token].user) else None
  }

  function Exec(s: Table, events: seq<Event>): Table {
    if events == [] then s else Step(Exec(s, events[..|events| - 1]), events[|events| - 1])
  }

  // ---------------------------------------------------------------------------
  // What can be redeemed, in terms of what happened
  // ---------------------------------------------------------------------------

  /** No token is inserted twice, or is in the table already. */
  ghost predicate FreshTokens(s: Table, events: seq<Event>) {
    (forall i :: 0 <= i < |events| && events[i].Insert? ==> events[i].token !in s.rows) &&
    forall i, j :: 0 <= i < j < |events| && events[i].Insert? && events[j].Insert? ==>
      events[i].token != events[j].token
  }

  /** The row as the redeeming statement would find it. */
  ghost predicate Redeemable(s: Table, t: Token, u: User, p: Purpose, expires: int) {
    t in s.rows && s.rows[t] == Row(u, p, expires, None) && expires > s.now
  }

  /** Event `k` put the token there, and nothing since has superseded or redeemed it. */
  ghost predicate Outstanding(s: Table, events: seq<Event>, k: nat, t: Token, u: User, p: Purpose, expires: int) {
    k < |events| && events[k].Insert? && events[k] == Insert(u, p, t, expires - Exec(s, events[..k]).now) &&
    forall j :: k < j < |events| ==> events[j] != Supersede(u, p) && events[j] != Redeem(t, p)
  }

  ghost predicate IsOutstanding(s: Table, events: seq<Event>, t: Token, u: User, p: Purpose, expires: int) {
    exists k: nat :: Outstanding(s, events, k, t, u, p, expires)
  }

  lemma FreshFront(s: Table, events: seq<Event>)
    requires events != [] && FreshTokens(s, events)
    ensures FreshTokens(s, events[..|events| - 1])
  {
  }

  lemma {:induction false} RowsWereInserted(s: Table, events: seq<Event>, t: Token)
    requires t in Exec(s, events).rows
    ensures t in s.rows || exists i :: 0 <= i < |events| && events[i].Insert? && events[i].token == t
  {
    if events == [] {
    } else {
      var front, last := events[..|events| - 1], events[|events| - 1];
      if t in Exec(s, front).rows {
        RowsWereInserted(s, front, t);
        if i :| 0 <= i < |front| && front[i].Insert? && front[i].token == t {
          assert events[i] == front[i];
        }
      } else {
        assert events[|events| - 1] == last;
      }
    }
  }

  lemma LastInsertIsFresh(s: Table, events: seq<Event>)
    requires events != [] && FreshTokens(s, events) && events[|events| - 1].Insert?
    ensures events[|events| - 1].token !in Exec(s, events[..|events| - 1]).rows
  {
    hide Exec;
    var front, last := events[..|events| - 1], events[|events| - 1];
    assert forall i :: 0 <= i < |front| ==> front[i] == events[i];
    if last.token in Exec(s, front).rows {
      RowsWereInserted(s, front, last.token);
    }
  }

  lemma OutstandingEarlier(s: Table, events: seq<Event>, k: nat, t: Token, u: User, p: Purpose, expires: int)
    requires k < |events| - 1
    ensures Outstanding(s, events, k, t, u, p, expires) <==>
            Outstanding(s, events[..|events| - 1], k, t, u, p, expires) &&
            events[|events| - 1] != Supersede(u, p) && events[|events| - 1] != Redeem(t, p)
  {
    hide Exec;
    var front := events[..|events| - 1];
    assert front[..k] == events[..k];
    assert forall i :: 0 <= i < |front| ==> front[i] == events[i];
  }

  /** One more event: outstanding before and not ended by it, or inserted by it. */
  lemma OutstandingSnoc(s: Table, events: seq<Event>, t: Token, u: User, p: Purpose, expires: int)
    requires events != []
    ensures var front, last := events[..|events| - 1], events[|events| - 1];
            IsOutstanding(s, events, t, u, p, expires) <==>
            last == Insert(u, p, t, expires - Exec(s, front).now) ||
            (IsOutstanding(s, front, t, u, p, expires) && last != Supersede(u, p) && last != Redeem(t, p))
  {
    hide Exec;
    var front, last := events[..|events| - 1], events[|events| - 1];
    var n := |front|;
    if IsOutstanding(s, events, t, u, p, expires) {
      var k: nat :| Outstanding(s, events, k, t, u, p, expires);
      if k < n {
        OutstandingEarlier(s, events, k, t, u, p, expires);
      }
    }
    if IsOutstanding(s, front, t, u, p, expires) && last != Supersede(u, p) && last != Redeem(t, p) {
      var k: nat :| Outstanding(s, front, k, t, u, p, expires);
      OutstandingEarlier(s, events, k, t, u, p, expires);
    }
    if last == Insert(u, p, t, expires - Exec(s, front).now) {
      assert Outstanding(s, events, n, t, u, p, expires);
    }
  }

  /** What one statement does to the redeemability of one token. */
  lemma RedeemableStep(s: Table, e: Event, t: Token, u: User, p: Purpose, expires: int)
    requires e.Insert? ==> e.token !in s.rows
    ensures Redeemable(Step(s, e), t, u, p, expires) <==>
            expires > Step(s, e).now &&
            (e == Insert(u, p, t, expires - s.now) ||
             (Redeemable(s, t, u, p, expires) && e != Supersede(u, p) && e != Redeem(t, p)))
  {
  }

  /**
   * Under any interleaving, a token can be redeemed for a user and purpose exactly when it was
   * issued to that user for that purpose, has not expired, and since then neither has the user
   * been issued another for that purpose nor has this one been redeemed.
   */
  lemma {:induction false} RedeemableExactlyWhen(
    start: Table, events: seq<Event>, t: Token, u: User, p: Purpose, expires: int)
    requires start.rows == map[] && FreshTokens(start, events)
    ensures Redeemable(Exec(start, events), t, u, p, expires) <==>
            IsOutstanding(start, events, t, u, p, expires) && expires > Exec(start, events).now
  {
    hide Redeemable, IsOutstanding, FreshTokens, Step;
    if events == [] {
      NothingOutstanding(start, t, u, p, expires);
    } else {
      var front, last := events[..|events| - 1], events[|events| - 1];
      FreshFront(start, events);
      RedeemableExactlyWhen(start, front, t, u, p, expires);
      if last.Insert? {
        LastInsertIsFresh(start, events);
      }
      var s := Exec(start, front);
      RedeemableStep(s, last, t, u, p, expires);
      OutstandingSnoc(start, events, t, u, p, expires);
      ClockForward(s, last);
    }
  }

  lemma NothingOutstanding(s: Table, t: Token, u: User, p: Purpose, expires: int)
    requires s.rows == map[]
    ensures !IsOutstanding(s, [], t, u, p, expires) && !Redeemable(s, t, u, p, expires)
  {
  }

  lemma ClockForward(s: Table, e: Event)
    ensures s.now <= Step(s, e).now
  {
  }

  lemma AnswerIsRedeemable(s: Table, t: Token, p: Purpose, u: User)
    ensures Answer(s, Redeem(t, p)) == Some(u) <==> exists expires :: Redeemable(s, t, u, p, expires)
  {
    if Answer(s, Redeem(t, p)) == Some(u) {
      assert Redeemable(s, t, u, p, s.rows[t].expires);
    }
  }

  /** A redemption that succeeds found the token issued, to that user, for that purpose, and alive. */
  lemma RedeemedHonestly(start: Table, events: seq<Event>, i: nat, u: User)
    requires start.rows == map[] && FreshTokens(start, events)
    requires i < |events| && events[i].Redeem? && Answer(Exec(start, events[..i]), events[i]) == Some(u)
    ensures exists k: nat, expires ::
              Outstanding(start, events[..i], k, events[i].token, u, events[i].purpose, expires) &&
              expires > Exec(start, events[..i]).now
  {
    hide Exec, Answer, Redeemable, Outstanding;
    var s := Exec(start, events[..i]);
    assert FreshTokens(start, events[..i]);
    AnswerIsRedeemable(s, events[i].token, events[i].purpose, u);
    var expires :| Redeemable(s, events[i].token, u, events[i].purpose, expires);
    RedeemableExactlyWhen(start, events[..i], events[i].token, u, events[i].purpose, expires);
    var k: nat :| Outstanding(start, events[..i], k, events[i].token, u, events[i].purpose, expires);
  }

  /** No token is redeemed twice, whatever else happens in between. */
  lemma RedeemedAtMostOnce(start: Table, events: seq<Event>, i: nat, j: nat)
    requires start.rows == map[] && FreshTokens(start, events)
    requires i < j < |events| && events[i].Redeem? && events[j].Redeem? && events[i].token == events[j].token
    requires Answer(Exec(start, events[..i]), events[i]).Some?
    ensures Answer(Exec(start, events[..j]), events[j]) == None
  {
    hide Exec, Answer, Outstanding, FreshTokens;
    if Answer(Exec(start, events[..j]), events[j]).Some? {
      var u := Answer(Exec(start, events[..i]), events[i]).value;
      var v := Answer(Exec(start, events[..j]), events[j]).value;
      RedeemedHonestly(start, events, i, u);
      RedeemedHonestly(start, events, j, v);
      var k: nat, x :| Outstanding(start, events[..i], k, events[i].token, u, events[i].purpose, x);
      var l: nat, y :| Outstanding(start, events[..j], l, events[j].token, v, events[j].purpose, y);
      NotOutstandingAgain(start, events, i, j, k, u, x, l, v, y);
    }
  }

  /** A token outstanding when it is redeemed is not outstanding at any later redemption of it. */
  lemma NotOutstandingAgain(
    start: Table, events: seq<Event>, i: nat, j: nat, k: nat, u: User, x: int, l: nat, v: User, y: int)
    requires FreshTokens(start, events) && i < j < |events|
    requires events[i].Redeem? && events[j].Redeem? && events[i].token == events[j].token
    requires Outstanding(start, events[..i], k, events[i].token, u, events[i].purpose, x)
    ensures !Outstanding(start, events[..j], l, events[j].token, v, events[j].purpose, y)
  {
    hide Exec;
    var before, after := events[..i], events[..j];
    assert before[k] == events[k];
    assert forall m :: 0 <= m < j ==> after[m] == events[m];
  }

  // ---------------------------------------------------------------------------
  // One live token per user and purpose, when issuing is atomic
  // ---------------------------------------------------------------------------

  /** Every insertion comes straight after the statement that supersedes its predecessors. */
  ghost predicate AtomicIssues(events: seq<Event>) {
    forall k :: 0 <= k < |events| && events[k].Insert? ==>
      k > 0 && events[k - 1] == Supersede(events[k].user, events[k].purpose)
  }

  /** The token a user can redeem for a purpose is the one issued last for it, and so the only one. */
  lemma {:induction false} LatestTokenOnly(
    start: Table, events: seq<Event>, t: Token, u: User, p: Purpose, k: nat, later: nat)
    requires start.rows == map[] && FreshTokens(start, events) && AtomicIssues(events)
    requires Answer(Exec(start, events), Redeem(t, p)) == Some(u)
    requires k < |events| && events[k].Insert? && events[k].token == t
    requires later < |events| && events[later].Insert? && events[later].user == u && events[later].purpose == p
    ensures later <= k
  {
    hide Exec, Answer, Redeemable;
    var before := events[later - 1];
    assert before == Supersede(u, p);
    AnswerIsRedeemable(Exec(start, events), t, p, u);
    var expires :| Redeemable(Exec(start, events), t, u, p, expires);
    RedeemableExactlyWhen(start, events, t, u, p, expires);
    var l: nat :| Outstanding(start, events, l, t, u, p, expires);
    assert l == k;
  }

  /** At most one token is live for a user and purpose. */
  lemma {:induction false} OneLiveToken(start: Table, events: seq<Event>, t: Token, t': Token, u: User, p: Purpose)
    requires start.rows == map[] && FreshTokens(start, events) && AtomicIssues(events)
    requires Answer(Exec(start, events), Redeem(t, p)) == Some(u)
    requires Answer(Exec(start, events), Redeem(t', p)) == Some(u)
    ensures t == t'
  {
    hide Exec, Answer;
    var k := InsertOf(start, events, t, u, p);
    var k' := InsertOf(start, events, t', u, p);
    LatestTokenOnly(start, events, t, u, p, k, k');
    LatestTokenOnly(start, events, t', u, p, k', k);
  }

  lemma InsertOf(start: Table, events: seq<Event>, t: Token, u: User, p: Purpose) returns (k: nat)
    requires start.rows == map[] && FreshTokens(start, events)
    requires Answer(Exec(start, events), Redeem(t, p)) == Some(u)
    ensures k < |events| && events[k].Insert? && events[k].token == t && events[k].user == u && events[k].purpose == p
  {
    hide Exec, Answer, Redeemable;
    AnswerIsRedeemable(Exec(start, events), t, p, u);
    var expires :| Redeemable(Exec(start, events), t, u, p, expires);
    RedeemableExactlyWhen(start, events, t, u, p, expires);
    k :| Outstanding(start, events, k, t, u, p, expires);
  }

  /** Two requests that interleave their two statements each leave two live tokens. */
  lemma InterleavedIssuesLeaveTwo(u: User, p: Purpose, t: Token, t': Token, ttl: int)
    requires t != t' && ttl > 0
    ensures var s := Exec(Table(0, map[]),
                          [Supersede(u, p), Supersede(u, p), Insert(u, p, t, ttl), Insert(u, p, t', ttl)]);
            Answer(s, Redeem(t, p)) == Some(u) && Answer(s, Redeem(t', p)) == Some(u)
  {
    var start := Table(0, map[]);
    var a, b, c, d := Supersede(u, p), Supersede(u, p), Insert(u, p, t, ttl), Insert(u, p, t', ttl);
    assert [a, b, c, d][..3] == [a, b, c] && [a, b, c][..2] == [a, b] && [a, b][..1] == [a];
    assert Exec(start, [a]) == start && Exec(start, [a, b]) == start by {
      assert Superseded(start, u, p) == map[];
      assert [a][..0] == [];
    }
    assert Exec(start, [a, b, c]) == Table(0, map[t := Row(u, p, ttl, None)]);
    assert Exec(start, [a, b, c, d]) == Table(0, map[t := Row(u, p, ttl, None), t' := Row(u, p, ttl, None)]);
  }

  // ---------------------------------------------------------------------------
  // Purging is invisible
  // ---------------------------------------------------------------------------

  predicate IsDead(row: Row, now: int) {
    row.used.Some? || row.expires <= now
  }

  /** The same table, but for rows that no redemption can find. */
  ghost predicate SameLive(s: Table, s': Table) {
    s'.now == s.now && s'.rows.Keys <= s.rows.Keys &&
    forall t :: t in s.rows ==> if t in s'.rows then s'.rows[t] == s.rows[t] else IsDead(s.rows[t], s.now)
  }

  lemma PurgeSameLive(s: Table)
    ensures SameLive(s, Step(s, Purge))
  {
  }

  lemma SameLiveStep(s: Table, s': Table, e: Event)
    requires SameLive(s, s') && (e.Insert? ==> e.token !in s.rows)
    ensures SameLive(Step(s, e), Step(s', e)) && Answer(s, e) == Answer(s', e)
  {
    hide IsStale;
    match e
    case Redeem(t, p) =>
      assert Redeems(s, t, p) <==> Redeems(s', t, p);
    case Insert(_, _, t, _) =>
      assert t !in s'.rows;
    case _ =>
      forall t | t in s.rows
        ensures t in s'.rows ==> (t in Step(s, e).rows <==> t in Step(s', e).rows)
        ensures t in s'.rows && t in Step(s, e).rows ==> Step(s', e).rows[t] == Step(s, e).rows[t]
        ensures t !in s'.rows && t in Step(s, e).rows ==> IsDead(Step(s, e).rows[t], Step(s, e).now)
      {
      }
  }

  lemma {:induction false} SameLiveRun(s: Table, s': Table, events: seq<Event>)
    requires SameLive(s, s') && FreshTokens(s, events)
    ensures SameLive(Exec(s, events), Exec(s', events))
  {
    hide SameLive, FreshTokens, Step;
    if events == [] {
    } else {
      FreshFront(s, events);
      SameLiveRun(s, s', events[..|events| - 1]);
      if events[|events| - 1].Insert? {
        LastInsertIsFresh(s, events);
      }
      SameLiveStep(Exec(s, events[..|events| - 1]), Exec(s', events[..|events| - 1]), events[|events| - 1]);
    }
  }

  /** Purging at any moment changes the answer to no later redemption. */
  lemma PurgeIsInvisible(s: Table, events: seq<Event>, t: Token, p: Purpose)
    requires FreshTokens(s, events)
    ensures Answer(Exec(Step(s, Purge), events), Redeem(t, p)) == Answer(Exec(s, events), Redeem(t, p))
  {
    hide Exec, Step, Answer, SameLive;
    PurgeSameLive(s);
    SameLiveRun(s, Step(s, Purge), events);
    SameLiveStep(Exec(s, events), Exec(Step(s, Purge), events), Redeem(t, p));
  }

  /** Purging deletes exactly the rows that expired or were used more than seven days ago. */
  lemma PurgeExact(s: Table, t: Token)
    ensures t in Step(s, Purge).rows <==>
            t in s.rows && s.now - s.rows[t].expires <= 604_800_000 &&
            (s.rows[t].used.Some? ==> s.now - s.rows[t].used.value <= 604_800_000)
    ensures t in Step(s, Purge).rows ==> Step(s, Purge).rows[t] == s.rows[t]
  {
  }

  // ---------------------------------------------------------------------------
  // The service
  // ---------------------------------------------------------------------------

  /** The token table and the service's calls on it, each without interruption. */
  class TokenStore {
    var now: int
    var rows: map<Token, Row>

    ghost function State(): Table
      reads this
    {
      Table(now, rows)
    }

    constructor (time: int)
      ensures State() == Table(time, map[])
    {
      now, rows := time, map[];
    }

    /** `token` is the random value drawn for this call. */
    method Issue(user: User, purpose: Purpose, ttl: int, token: Token) returns (issued: Token)
      requires token !in rows
      modifies this
      ensures State() == Step(Step(old(State()), Supersede(user, purpose)), Insert(user, purpose, token, ttl))
      ensures issued == token
    {
      rows := map t | t in rows ::
        if rows[t].user == user && rows[t].purpose == purpose && rows[t].used.None?
        then rows[t].(used := Some(now)) else rows[t];
      rows := rows[token := Row(user, purpose, now + ttl, None)];
      issued := token;
    }

    method RedeemToken(token: Token, purpose: Purpose) returns (user: Option<User>)
      modifies this
      ensures State() == Step(old(State()), Redeem(token, purpose))
      ensures user == Answer(old(State()), Redeem(token, purpose))
    {
      if token in rows && rows[token].purpose == purpose && rows[token].used.None? && rows[token].expires > now {
        user := Some(rows[token].user);
        rows := rows[token := rows[token].(used := Some(now))];
      } else {
        user := None;
      }
    }

    /** Returns how many rows went. */
    method PurgeExpired() returns (count: nat)
      modifies this
      ensures State() == Step(old(State()), Purge)
      ensures count == |old(rows)| - |rows|
    {
      var kept := map t | t in rows && !IsStale(rows[t], now) :: rows[t];
      PurgedIsSmaller(rows, kept);
      count := |rows| - |kept|;
      rows := kept;
    }
  }

  lemma PurgedIsSmaller(rows: map<Token, Row>, kept: map<Token, Row>)
    requires kept.Keys <= rows.Keys
    ensures |kept| <= |rows|
  {
    assert rows.Keys == kept.Keys + (rows.Keys - kept.Keys);
    assert |kept| == |kept.Keys| && |rows| == |rows.Keys|;
  }
}
