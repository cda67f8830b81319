/** Browser sessions and single-use confirmations: src/security/local-api-auth.js. */
module Auth {
  import opened Texts

  type Millis = int

  const CONFIRMATION_LIFETIME_MS := 120000
  const MAX_ACTIVE_SESSIONS := 64
  const MAX_SESSION_MINTS_PER_MINUTE := 16
  const SESSION_ABSOLUTE_LIFETIME_MS := 12 * 60 * 60 * 1000
  const SESSION_IDLE_LIFETIME_MS := 60 * 60 * 1000
  const MINT_WINDOW_MS := 60000

  /** A digest is symbolic: it is the text it was computed from. */
  datatype Digest = Digest(text: string)

  datatype Session = Session(csrf: Digest, issuedAt: Millis, lastSeenAt: Millis, generation: int)

  datatype Confirmation = Confirmation(
    digest: Digest, action: string, resource: string, sessionId: string, generation: int, issuedAt: Millis)

  datatype State = State(
    sessions: map<string, Session>, confirmations: map<string, Confirmation>, mints: seq<Millis>, generation: int)

  const CONFIRMABLE_ACTIONS := ["export", "disconnect", "delete-local", "delete-all", "delete-feedback"]
  const RESOURCE_BOUND_ACTIONS := ["delete-feedback"]

  function ConfirmationKey(action: string, resource: string): string { action + ":" + resource }

  function Expired(s: Session, now: Millis, generation: int): bool {
    now - s.issuedAt > SESSION_ABSOLUTE_LIFETIME_MS
    || now - s.lastSeenAt > SESSION_IDLE_LIFETIME_MS
    || s.generation != generation
  }

  function Unexpired(sessions: map<string, Session>, now: Millis, generation: int): map<string, Session> {
    map id | id in sessions && !Expired(sessions[id], now, generation) :: sessions[id]
  }

  function RecentMints(mints: seq<Millis>, now: Millis): seq<Millis> {
    if mints == [] then []
    else
      RecentMints(mints[..|mints| - 1], now) +
        if now - mints[|mints| - 1] < MINT_WINDOW_MS then [mints[|mints| - 1]] else []
  }

  function Pruned(confirmations: map<string, Confirmation>, now: Millis, generation: int): map<string, Confirmation> {
    map k | k in confirmations
            && now - confirmations[k].issuedAt < CONFIRMATION_LIFETIME_MS
            && confirmations[k].generation == generation
      :: confirmations[k]
  }

  datatype Op =
    | CreateSession(id: string, csrfToken: string)
    | VerifySession(id: string, presented: Option<string>, requireCsrf: bool)
    | IssueConfirmation(action: string, resource: string, sessionId: string, nonce: string)
    | ConsumeConfirmation(nonce: string, action: string, resource: string, sessionId: string)
    | InvalidateBindings(generation: int)
    | InvalidateConfirmations

  datatype Response =
    | Granted | Full | SessionInvalid | CsrfInvalid
    | ActionInvalid | ResourceInvalid
    | ConfirmationRequired | ConfirmationExpired | BindingInvalid | ConfirmationInvalid

  function IssueRefusal(action: string, resource: string): Option<Response> {
    if action !in CONFIRMABLE_ACTIONS then Some(ActionInvalid)
    else if |resource| == 0 || |resource| > 128 then Some(ResourceInvalid)
    else if (action in RESOURCE_BOUND_ACTIONS) == (resource == "*") then Some(ResourceInvalid)
    else None
  }

  function ConsumeVerdict(record: Confirmation, nonce: string, sessionId: string, now: Millis, generation: int): Response {
    if now - record.issuedAt >= CONFIRMATION_LIFETIME_MS then ConfirmationExpired
    else if record.sessionId != sessionId || record.generation != generation then BindingInvalid
    else if |nonce| == 0 || |nonce| > 256 || Digest(nonce) != record.digest then ConfirmationInvalid
    else Granted
  }

  function Next(s: State, now: Millis, op: Op): (State, Response) {
    match op
    case CreateSession(id, csrfToken) =>
      var live, recent := Unexpired(s.sessions, now, s.generation), RecentMints(s.mints, now);
      if |live| >= MAX_ACTIVE_SESSIONS || |recent| >= MAX_SESSION_MINTS_PER_MINUTE then
        (s.(sessions := live, mints := recent), Full)
      else
        (s.(sessions := live[id := Session(Digest(csrfToken), now, now, s.generation)], mints := recent + [now]), Granted)
    case VerifySession(id, presented, requireCsrf) =>
      if id !in s.sessions then (s, SessionInvalid)
      else if Expired(s.sessions[id], now, s.generation) then (s.(sessions := s.sessions - {id}), SessionInvalid)
      else if requireCsrf && (presented.None? || Digest(presented.value) != s.sessions[id].csrf) then (s, CsrfInvalid)
      else (s.(sessions := s.sessions[id := s.sessions[id].(lastSeenAt := now)]), Granted)
    case IssueConfirmation(action, resource, sessionId, nonce) =>
      if IssueRefusal(action, resource).Some? then (s, IssueRefusal(action, resource).value)
      else
        var kept := Pruned(s.confirmations, now, s.generation);
        var record := Confirmation(Digest(nonce), action, resource, sessionId, s.generation, now);
        (s.(confirmations := kept[ConfirmationKey(action, resource) := record]), Granted)
    case ConsumeConfirmation(nonce, action, resource, sessionId) =>
      var kept, key := Pruned(s.confirmations, now, s.generation), ConfirmationKey(action, resource);
      if key !in kept then (s.(confirmations := kept), ConfirmationRequired)
      else (s.(confirmations := kept - {key}), ConsumeVerdict(kept[key], nonce, sessionId, now, s.generation))
    case InvalidateBindings(generation) =>
      (s.(sessions := map[], confirmations := map[], generation := generation), Granted)
    case InvalidateConfirmations =>
      (s.(confirmations := map[]), Granted)
  }

  class LocalApiAuth {
    var sessions: map<string, Session>
    var confirmations: map<string, Confirmation>
    var mints: seq<Millis>
    var generation: int

    constructor (generation: int)
      ensures Value() == State(map[], map[], [], generation)
    {
      sessions, confirmations, mints := map[], map[], [];
      this.generation := generation;
    }

    function Value(): State
      reads this
    {
      State(sessions, confirmations, mints, generation)
    }

    method Invalidate(generation: int)
      modifies this
      ensures Value() == Next(old(Value()), 0, InvalidateBindings(generation)).0
    {
      this.generation := generation;
      sessions, confirmations := map[], map[];
    }

    method InvalidatePending()
      modifies this`confirmations
      ensures Value() == Next(old(Value()), 0, InvalidateConfirmations).0
    {
      confirmations := map[];
    }

    method DropExpired(now: Millis)
      modifies this`sessions
      ensures sessions == Unexpired(old(sessions), now, generation)
    {
      var all, todo := sessions, sessions.Keys;
      while todo != {}
        invariant todo <= all.Keys
        invariant sessions == map id | id in all && (id in todo || !Expired(all[id], now, generation)) :: all[id]
        decreases todo
      {
        var id :| id in todo;
        if Expired(all[id], now, generation) { sessions := sessions - {id}; }
        todo := todo - {id};
      }
    }

    method Create(now: Millis, id: string, csrfToken: string) returns (r: Response)
      modifies this`sessions, this`mints
      ensures (Value(), r) == Next(old(Value()), now, CreateSession(id, csrfToken))
    {
      DropExpired(now);
      var all := mints;
      mints := [];
      for i := 0 to |all|
        invariant mints == RecentMints(all[..i], now)
        modifies this`mints
      {
        assert all[..i + 1][..i] == all[..i];
        if now - all[i] < MINT_WINDOW_MS { mints := mints + [all[i]]; }
      }
      assert all[..|all|] == all && mints == RecentMints(old(mints), now);
      if |sessions| >= MAX_ACTIVE_SESSIONS || |mints| >= MAX_SESSION_MINTS_PER_MINUTE { return Full; }
      sessions := sessions[id := Session(Digest(csrfToken), now, now, generation)];
      mints := mints + [now];
      r := Granted;
    }

    method Verify(now: Millis, id: string, csrfToken: Option<string>, requireCsrf: bool) returns (r: Response)
      modifies this`sessions
      ensures (Value(), r) == Next(old(Value()), now, VerifySession(id, csrfToken, requireCsrf))
    {
      if id !in sessions { return SessionInvalid; }
      var session := sessions[id];
      if Expired(session, now, generation) {
        sessions := sessions - {id};
        return SessionInvalid;
      }
      if requireCsrf {
        if csrfToken.None? { return CsrfInvalid; }
        if Digest(csrfToken.value) != session.csrf { return CsrfInvalid; }
      }
      sessions := sessions[id := session.(lastSeenAt := now)];
      r := Granted;
    }

    method PruneConfirmations(now: Millis)
      modifies this`confirmations
      ensures confirmations == Pruned(old(confirmations), now, generation)
    {
      var all, todo := confirmations, confirmations.Keys;
      while todo != {}
        invariant todo <= all.Keys
        invariant confirmations == map k | k in all && (k in todo || k in Pruned(all, now, generation)) :: all[k]
        decreases todo
      {
        var key :| key in todo;
        if now - all[key].issuedAt >= CONFIRMATION_LIFETIME_MS || all[key].generation != generation {
          confirmations := confirmations - {key};
        }
        todo := todo - {key};
      }
    }

    method Issue(now: Millis, action: string, resource: string, sessionId: string, nonce: string) returns (r: Response)
      modifies this`confirmations
      ensures (Value(), r) == Next(old(Value()), now, IssueConfirmation(action, resource, sessionId, nonce))
    {
      if action !in CONFIRMABLE_ACTIONS { return ActionInvalid; }
      if |resource| == 0 || |resource| > 128 { return ResourceInvalid; }
      if (action in RESOURCE_BOUND_ACTIONS) == (resource == "*") { return ResourceInvalid; }
      PruneConfirmations(now);
      confirmations := confirmations[ConfirmationKey(action, resource) :=
        Confirmation(Digest(nonce), action, resource, sessionId, generation, now)];
      r := Granted;
    }

    method Consume(now: Millis, nonce: string, action: string, resource: string, sessionId: string) returns (r: Response)
      modifies this`confirmations
      ensures (Value(), r) == Next(old(Value()), now, ConsumeConfirmation(nonce, action, resource, sessionId))
    {
      PruneConfirmations(now);
      var key := ConfirmationKey(action, resource);
      if key !in confirmations { return ConfirmationRequired; }
      var record := confirmations[key];
      confirmations := confirmations - {key};
      if now - record.issuedAt >= CONFIRMATION_LIFETIME_MS { return ConfirmationExpired; }
      if record.sessionId != sessionId || record.generation != generation { return BindingInvalid; }
      if |nonce| == 0 || |nonce| > 256 || Digest(nonce) != record.digest { return ConfirmationInvalid; }
      r := Granted;
    }
  }
}
