/** Every run of the session and confirmation operations under a clock that never goes
    back. */
module AuthRuns {
  import opened Texts
  import opened Auth

  datatype Event = Event(at: Millis, op: Op)

  ghost predicate MonotoneClock(events: seq<Event>) {
    forall i, j :: 0 <= i <= j < |events| ==> events[i].at <= events[j].at
  }

  function Fresh(generation: int): State { State(map[], map[], [], generation) }

  function After(s: State, events: seq<Event>, n: nat): State
    requires n <= |events|
  {
    if n == 0 then s else Next(After(s, events, n - 1), events[n - 1].at, events[n - 1].op).0
  }

  function ResponseAt(s: State, events: seq<Event>, k: nat): Response
    requires k < |events|
  {
    Next(After(s, events, k), events[k].at, events[k].op).1
  }

  predicate Mints(s: State, events: seq<Event>, k: nat)
    requires k < |events|
  {
    events[k].op.CreateSession? && ResponseAt(s, events, k).Granted?
  }

  // ---- The mint limit -----------------------------------------------------

  /** The times at which a session was minted, in order. */
  function MintLog(s: State, events: seq<Event>, n: nat): seq<Millis>
    requires n <= |events|
  {
    if n == 0 then []
    else MintLog(s, events, n - 1) + if Mints(s, events, n - 1) then [events[n - 1].at] else []
  }

  ghost predicate Sorted(log: seq<Millis>) { forall i, j :: 0 <= i <= j < |log| ==> log[i] <= log[j] }

  /** Any 17 consecutive entries span at least a minute. */
  ghost predicate Spaced(log: seq<Millis>) {
    forall i :: 0 <= i && i + MAX_SESSION_MINTS_PER_MINUTE < |log| ==>
      log[i + MAX_SESSION_MINTS_PER_MINUTE] - log[i] >= MINT_WINDOW_MS
  }

  /** What the store remembers is the end of the log; the rest is out of the window. */
  ghost predicate Remembers(mints: seq<Millis>, log: seq<Millis>, now: Millis) {
    && |mints| <= |log| && mints == log[|log| - |mints|..]
    && forall j :: 0 <= j < |log| - |mints| ==> now - log[j] >= MINT_WINDOW_MS
  }

  /** The mints before `cut` have left the window, the others have not. */
  ghost predicate CutAt(mints: seq<Millis>, now: Millis, cut: int) {
    forall j :: 0 <= j < |mints| ==> (j < cut <==> now - mints[j] >= MINT_WINDOW_MS)
  }

  lemma CutOfLonger(front: seq<Millis>, last: Millis, now: Millis, cut: int)
    requires Sorted(front + [last]) && CutAt(front, now, cut) && 0 <= cut <= |front|
    ensures now - last < MINT_WINDOW_MS ==> CutAt(front + [last], now, cut)
    ensures now - last >= MINT_WINDOW_MS ==> CutAt(front + [last], now, |front| + 1) && cut == |front|
  {
    var mints := front + [last];
    assert mints[|front|] == last;
    assert forall j :: 0 <= j < |front| ==> mints[j] == front[j] && mints[j] <= mints[|front|];
    if cut < |front| { assert now - front[cut] < MINT_WINDOW_MS && mints[cut] <= last; }
  }

  lemma {:induction false} RecentIsSuffix(mints: seq<Millis>, now: Millis)
    requires Sorted(mints)
    ensures
      var cut := |mints| - |RecentMints(mints, now)|;
      0 <= cut && RecentMints(mints, now) == mints[cut..] && CutAt(mints, now, cut)
  {
    if mints == [] {
    } else {
      var front, last := mints[..|mints| - 1], mints[|mints| - 1];
      RecentIsSuffix(front, now);
      assert mints == front + [last];
      CutOfLonger(front, last, now, |front| - |RecentMints(front, now)|);
    }
  }

  ghost predicate LogInv(mints: seq<Millis>, log: seq<Millis>, now: Millis) {
    Sorted(log) && Spaced(log) && Remembers(mints, log, now) && forall i :: 0 <= i < |log| ==> log[i] <= now
  }

  lemma RecentKeepsLog(mints: seq<Millis>, log: seq<Millis>, now: Millis)
    requires LogInv(mints, log, now)
    ensures LogInv(RecentMints(mints, now), log, now)
  {
    RecentIsSuffix(mints, now);
  }

  /** The mint sixteen places back has left the window. */
  lemma MintKeepsSpacing(recent: seq<Millis>, log: seq<Millis>, now: Millis)
    requires LogInv(recent, log, now) && |recent| < MAX_SESSION_MINTS_PER_MINUTE
    ensures LogInv(recent + [now], log + [now], now)
  {
    var log' := log + [now];
    assert recent + [now] == log'[|log'| - |recent + [now]|..];
    assert Spaced(log') by {
      forall i | 0 <= i && i + MAX_SESSION_MINTS_PER_MINUTE < |log'|
        ensures log'[i + MAX_SESSION_MINTS_PER_MINUTE] - log'[i] >= MINT_WINDOW_MS
      {
        if i + MAX_SESSION_MINTS_PER_MINUTE < |log| {
          assert log[i + MAX_SESSION_MINTS_PER_MINUTE] - log[i] >= MINT_WINDOW_MS;
        }
      }
    }
  }

  ghost predicate MintInv(s: State, log: seq<Millis>, now: Millis) {
    LogInv(s.mints, log, now) && |s.sessions| <= MAX_ACTIVE_SESSIONS
  }

  lemma SmallerMap<T>(a: map<string, T>, b: map<string, T>)
    requires a.Keys <= b.Keys
    ensures |a| <= |b|
  {
    SmallerSet(a.Keys, b.Keys);
  }

  lemma {:induction false} SmallerSet(a: set<string>, b: set<string>)
    requires a <= b
    ensures |a| <= |b|
  {
    if a == {} {
    } else {
      var x :| x in a;
      SmallerSet(a - {x}, b - {x});
    }
  }

  lemma OneMoreSession(live: map<string, Session>, id: string, session: Session)
    requires |live| < MAX_ACTIVE_SESSIONS
    ensures |live[id := session]| <= MAX_ACTIVE_SESSIONS
  {
    assert live[id := session].Keys == live.Keys + {id};
  }

  lemma CreateKeepsMintInv(s: State, log: seq<Millis>, now: Millis, op: Op)
    requires MintInv(s, log, now) && op.CreateSession?
    ensures
      var next := Next(s, now, op);
      MintInv(next.0, if next.1.Granted? then log + [now] else log, now)
  {
    var live := Unexpired(s.sessions, now, s.generation);
    RecentKeepsLog(s.mints, log, now);
    if |RecentMints(s.mints, now)| < MAX_SESSION_MINTS_PER_MINUTE { MintKeepsSpacing(RecentMints(s.mints, now), log, now); }
    SmallerMap(live, s.sessions);
    if |live| < MAX_ACTIVE_SESSIONS {
      OneMoreSession(live, op.id, Session(Digest(op.csrfToken), now, now, s.generation));
    }
  }

  lemma NextKeepsMintInv(s: State, log: seq<Millis>, now: Millis, op: Op)
    requires MintInv(s, log, now)
    ensures
      var next := Next(s, now, op);
      MintInv(next.0, if op.CreateSession? && next.1.Granted? then log + [now] else log, now)
  {
    if op.CreateSession? {
      CreateKeepsMintInv(s, log, now, op);
    } else if op.VerifySession? {
      SmallerMap(s.sessions - {op.id}, s.sessions);
    }
  }

  lemma MintInvLater(s: State, log: seq<Millis>, now: Millis, later: Millis)
    requires MintInv(s, log, now) && now <= later
    ensures MintInv(s, log, later)
  {
  }

  lemma EventKeepsMintInv(s: State, events: seq<Event>, k: nat)
    requires k < |events| && MintInv(After(s, events, k), MintLog(s, events, k), events[k].at)
    ensures MintInv(After(s, events, k + 1), MintLog(s, events, k + 1), events[k].at)
  {
    var log := MintLog(s, events, k);
    NextKeepsMintInv(After(s, events, k), log, events[k].at, events[k].op);
    assert log + [] == log;
  }

  lemma {:induction false} RunKeepsMintInv(generation: int, events: seq<Event>, n: nat, now: Millis)
    requires MonotoneClock(events) && n <= |events| && (n > 0 ==> events[n - 1].at <= now)
    ensures MintInv(After(Fresh(generation), events, n), MintLog(Fresh(generation), events, n), now)
  {
    if n == 0 {
    } else {
      var s, at := Fresh(generation), events[n - 1].at;
      RunKeepsMintInv(generation, events, n - 1, at);
      EventKeepsMintInv(s, events, n - 1);
      MintInvLater(After(s, events, n), MintLog(s, events, n), at, now);
    }
  }

  /** The mints of a log that fall in the window opening at `from`. */
  function InWindow(log: seq<Millis>, from: Millis): set<nat> {
    set i: nat | i < |log| && from <= log[i] < from + MINT_WINDOW_MS
  }

  /** Over any run: at most 16 sessions are minted in any minute, wherever it starts, and
      never more than 64 are held. */
  lemma MintsAreRateLimited(generation: int, events: seq<Event>, n: nat, from: Millis)
    requires MonotoneClock(events) && n <= |events|
    ensures |InWindow(MintLog(Fresh(generation), events, n), from)| <= MAX_SESSION_MINTS_PER_MINUTE
    ensures |After(Fresh(generation), events, n).sessions| <= MAX_ACTIVE_SESSIONS
  {
    var log := MintLog(Fresh(generation), events, n);
    RunKeepsMintInv(generation, events, n, if n > 0 then events[n - 1].at else 0);
    var inside := InWindow(log, from);
    if inside != {} {
      var first := LeastOf(inside);
      forall i | i in inside ensures i < first + MAX_SESSION_MINTS_PER_MINUTE {
        FarMints(log, first, i);
      }
      SubsetOfRange(inside, first, MAX_SESSION_MINTS_PER_MINUTE);
    }
  }

  lemma FarMints(log: seq<Millis>, i: nat, j: nat)
    requires Sorted(log) && Spaced(log) && i < |log| && j < |log|
    ensures j >= i + MAX_SESSION_MINTS_PER_MINUTE ==> log[j] - log[i] >= MINT_WINDOW_MS
  {
    assert j >= i + MAX_SESSION_MINTS_PER_MINUTE ==> log[j] >= log[i + MAX_SESSION_MINTS_PER_MINUTE];
  }

  lemma {:induction false} LeastOf(s: set<nat>) returns (least: nat)
    requires s != {}
    ensures least in s && forall x :: x in s ==> least <= x
  {
    var y :| y in s;
    if s == {y} {
      least := y;
    } else {
      var m := LeastOf(s - {y});
      least := if m < y then m else y;
      assert s == (s - {y}) + {y};
    }
  }

  lemma {:induction false} SubsetOfRange(s: set<nat>, from: nat, size: nat)
    requires forall x :: x in s ==> from <= x < from + size
    ensures |s| <= size
  {
    if size == 0 {
    } else {
      SubsetOfRange(s - {from + size - 1}, from, size - 1);
    }
  }

  // ---- What is granted ------------------------------------------------------

  /** The places of a log whose mints are less than a minute old. */
  function RecentPlaces(log: seq<Millis>, now: Millis): set<nat> {
    set i: nat | i < |log| && now - log[i] < 60000
  }

  /** The sessions a store holds that neither age, idleness nor a change of account has ended. */
  function LiveIds(s: State, now: Millis): set<string> {
    set id | id in s.sessions
          && now - s.sessions[id].issuedAt <= 43200000 && now - s.sessions[id].lastSeenAt <= 3600000
          && s.sessions[id].generation == s.generation
  }

  function Range(from: nat, size: nat): set<nat> { if size == 0 then {} else Range(from, size - 1) + {from + size - 1} }

  lemma {:induction false} RangeSize(from: nat, size: nat)
    ensures |Range(from, size)| == size
    ensures forall i: nat :: i in Range(from, size) <==> from <= i < from + size
  {
    if size == 0 {
    } else {
      RangeSize(from, size - 1);
    }
  }

  lemma RecentCount(mints: seq<Millis>, log: seq<Millis>, now: Millis)
    requires LogInv(mints, log, now)
    ensures |RecentMints(mints, now)| == |RecentPlaces(log, now)|
  {
    RecentIsSuffix(mints, now);
    RecentKeepsLog(mints, log, now);
    var recent := RecentMints(mints, now);
    var from := |log| - |recent|;
    RangeSize(from, |recent|);
    forall i: nat ensures i in RecentPlaces(log, now) <==> i in Range(from, |recent|) {
      if from <= i < |log| { assert log[i] == recent[i - from] == mints[|mints| - |recent| + (i - from)]; }
    }
    assert RecentPlaces(log, now) == Range(from, |recent|);
  }

  lemma LiveCount(s: State, now: Millis)
    ensures |Unexpired(s.sessions, now, s.generation)| == |LiveIds(s, now)|
  {
    assert Unexpired(s.sessions, now, s.generation).Keys == LiveIds(s, now);
  }

  /** Over any run a session is minted exactly if fewer than 16 were in the last minute and fewer
      than 64 held ones are still good. */
  lemma MintIsGrantedExactly(generation: int, events: seq<Event>, k: nat)
    requires MonotoneClock(events) && k < |events| && events[k].op.CreateSession?
    ensures
      var s, now := Fresh(generation), events[k].at;
      ResponseAt(s, events, k) ==
        if |RecentPlaces(MintLog(s, events, k), now)| < 16 && |LiveIds(After(s, events, k), now)| < 64 then Granted else Full
  {
    var s, now := Fresh(generation), events[k].at;
    RunKeepsMintInv(generation, events, k, now);
    RecentCount(After(s, events, k).mints, MintLog(s, events, k), now);
    LiveCount(After(s, events, k), now);
  }

  /** A confirmation is issued exactly for erasing feedback under a resource of its own, or for
      another confirmable action without one. */
  lemma IssueIsGrantedExactly(s: State, now: Millis, action: string, resource: string, sessionId: string, nonce: string)
    ensures
      var (s', answer) := Next(s, now, IssueConfirmation(action, resource, sessionId, nonce));
      var generic := action in {"export", "disconnect", "delete-local", "delete-all"};
      && (answer == Granted <==>
            (action == "delete-feedback" && 1 <= |resource| <= 128 && resource != "*") || (generic && resource == "*"))
      && (answer == ActionInvalid <==> action != "delete-feedback" && !generic)
      && (answer != Granted ==> s' == s && answer in {ActionInvalid, ResourceInvalid})
  {
  }

  // ---- Sessions -----------------------------------------------------------

  /** The step that last minted `id` since the last invalidation of bindings. */
  function LastMint(s: State, events: seq<Event>, k: nat, id: string): Option<nat>
    requires k <= |events|
  {
    if k == 0 then None
    else
      var op := events[k - 1].op;
      if op.InvalidateBindings? then None
      else if op.CreateSession? && op.id == id && ResponseAt(s, events, k - 1).Granted? then Some(k - 1)
      else LastMint(s, events, k - 1, id)
  }

  /** The step that last minted or verified `id` since then. */
  function LastActivity(s: State, events: seq<Event>, k: nat, id: string): Option<nat>
    requires k <= |events|
  {
    if k == 0 then None
    else
      var op := events[k - 1].op;
      if op.InvalidateBindings? then None
      else if (op.CreateSession? || op.VerifySession?) && op.id == id && ResponseAt(s, events, k - 1).Granted? then Some(k - 1)
      else LastActivity(s, events, k - 1, id)
  }

  predicate StaleAt(minted: Millis, active: Millis, now: Millis) {
    now - minted > SESSION_ABSOLUTE_LIFETIME_MS || now - active > SESSION_IDLE_LIFETIME_MS
  }

  /** One session as history sees it. */
  datatype View = Unknown | Known(csrf: Digest, minted: Millis, active: Millis)

  /** The store either holds the session as history sees it, or dropped it as stale. */
  ghost predicate Tracks(s: State, id: string, v: View, now: Millis) {
    && (v.Unknown? ==> id !in s.sessions)
    && (v.Known? && id in s.sessions ==> s.sessions[id] == Session(v.csrf, v.minted, v.active, s.generation))
    && (v.Known? && id !in s.sessions ==> StaleAt(v.minted, v.active, now))
  }

  function NextView(v: View, s: State, now: Millis, op: Op, id: string): View {
    if op.InvalidateBindings? then Unknown
    else if op.CreateSession? && op.id == id && Next(s, now, op).1.Granted? then Known(Digest(op.csrfToken), now, now)
    else if op.VerifySession? && op.id == id && Next(s, now, op).1.Granted? && v.Known? then v.(active := now)
    else v
  }

  lemma StepTracks(s: State, id: string, v: View, before: Millis, now: Millis, op: Op)
    requires Tracks(s, id, v, before) && before <= now
    ensures Tracks(Next(s, now, op).0, id, NextView(v, s, now, op, id), now)
    ensures op.VerifySession? && op.id == id && Next(s, now, op).1.Granted? ==> v.Known?
  {
  }

  function ViewAfter(s: State, events: seq<Event>, k: nat, id: string): View
    requires k <= |events|
  {
    if k == 0 then Unknown
    else NextView(ViewAfter(s, events, k - 1, id), After(s, events, k - 1), events[k - 1].at, events[k - 1].op, id)
  }

  function ClockAt(events: seq<Event>, k: nat): Millis
    requires k <= |events|
  {
    if k > 0 then events[k - 1].at else 0
  }

  ghost predicate TracksAt(s: State, events: seq<Event>, k: nat, id: string)
    requires k <= |events|
  {
    Tracks(After(s, events, k), id, ViewAfter(s, events, k, id), ClockAt(events, k))
  }

  lemma EventTracks(s: State, events: seq<Event>, k: nat, id: string)
    requires MonotoneClock(events) && k < |events| && TracksAt(s, events, k, id)
    requires k == 0 ==> id !in s.sessions
    ensures TracksAt(s, events, k + 1, id)
    ensures events[k].op.VerifySession? && events[k].op.id == id && ResponseAt(s, events, k).Granted? ==>
      ViewAfter(s, events, k, id).Known?
  {
    var now := events[k].at;
    assert k > 0 ==> events[k - 1].at <= now;
    assert k == 0 ==> After(s, events, k) == s;
    StepTracks(After(s, events, k), id, ViewAfter(s, events, k, id), if k > 0 then events[k - 1].at else now, now, events[k].op);
    assert After(s, events, k + 1) == Next(After(s, events, k), now, events[k].op).0;
  }

  lemma NoSessionAtFirst(generation: int, events: seq<Event>, id: string)
    ensures TracksAt(Fresh(generation), events, 0, id)
  {
  }

  lemma {:induction false} RunTracks(generation: int, events: seq<Event>, k: nat, id: string)
    requires MonotoneClock(events) && k <= |events|
    ensures TracksAt(Fresh(generation), events, k, id)
  {
    var s := Fresh(generation);
    NoSessionAtFirst(generation, events, id);
    for n := 0 to k
      invariant TracksAt(s, events, n, id)
    {
      EventTracks(s, events, n, id);
    }
  }

  /** A view, read off the two steps that made it. */
  ghost predicate Dates(events: seq<Event>, k: nat, j: Option<nat>, m: Option<nat>, v: View)
    requires k <= |events|
  {
    && (j.None? <==> v.Unknown?) && (m.None? <==> j.None?)
    && (j.Some? ==>
          && j.value <= m.value < k && events[j.value].op.CreateSession?
          && v == Known(Digest(events[j.value].op.csrfToken), events[j.value].at, events[m.value].at))
  }

  ghost predicate DatesAt(s: State, events: seq<Event>, k: nat, id: string)
    requires k <= |events|
  {
    Dates(events, k, LastMint(s, events, k, id), LastActivity(s, events, k, id), ViewAfter(s, events, k, id))
  }

  lemma EventDates(s: State, events: seq<Event>, k: nat, id: string)
    requires k < |events| && DatesAt(s, events, k, id)
    requires events[k].op.VerifySession? && events[k].op.id == id && ResponseAt(s, events, k).Granted? ==>
      ViewAfter(s, events, k, id).Known?
    ensures DatesAt(s, events, k + 1, id)
  {
    assert ResponseAt(s, events, k) == Next(After(s, events, k), events[k].at, events[k].op).1;
  }

  lemma ViewIsHistory(generation: int, events: seq<Event>, k: nat, id: string)
    requires MonotoneClock(events) && k <= |events|
    ensures DatesAt(Fresh(generation), events, k, id)
  {
    var s := Fresh(generation);
    for n := 0 to k
      invariant DatesAt(s, events, n, id) && TracksAt(s, events, n, id)
    {
      EventTracks(s, events, n, id);
      EventDates(s, events, n, id);
    }
  }

  /** A session verifies exactly while it has been minted since the last invalidation of
      bindings, at most 12 hours ago, and was last minted or verified at most an hour ago;
      with a CSRF check, exactly if also the token is the one minted. So no session
      outlives 12 hours however active it is, and none survives an invalidation. */
  lemma SessionVerifiesExactly(generation: int, events: seq<Event>, k: nat)
    requires MonotoneClock(events) && k < |events| && events[k].op.VerifySession?
    ensures
      var s, op, now := Fresh(generation), events[k].op, events[k].at;
      var j, m := LastMint(s, events, k, op.id), LastActivity(s, events, k, op.id);
      && (j.Some? ==> m.Some? && j.value < k && m.value < k && events[j.value].op.CreateSession?)
      && (ResponseAt(s, events, k) != SessionInvalid <==>
            j.Some? && now - events[j.value].at <= SESSION_ABSOLUTE_LIFETIME_MS
            && now - events[m.value].at <= SESSION_IDLE_LIFETIME_MS)
      && (ResponseAt(s, events, k) == Granted <==>
            ResponseAt(s, events, k) != SessionInvalid
            && (op.requireCsrf ==> op.presented == Some(events[j.value].op.csrfToken)))
  {
    ViewIsHistory(generation, events, k, events[k].op.id);
    RunTracks(generation, events, k, events[k].op.id);
  }

  // ---- Confirmations ------------------------------------------------------

  lemma ConfirmableActionsHaveNoColon(action: string)
    requires action in CONFIRMABLE_ACTIONS
    ensures ':' !in action
  {
  }

  lemma FirstColon(a: string, r: string)
    requires ':' !in a
    ensures (a + ":" + r)[|a|] == ':'
    ensures forall i :: 0 <= i < |a| ==> (a + ":" + r)[i] != ':'
  {
    assert forall i :: 0 <= i < |a| ==> (a + ":" + r)[i] == a[i];
  }

  lemma ColonSplits(a: string, r: string, a': string, r': string)
    requires ':' !in a && ':' !in a' && a + ":" + r == a' + ":" + r'
    ensures a == a' && r == r'
  {
    FirstColon(a, r);
    FirstColon(a', r');
    var whole, whole' := a + ":" + r, a' + ":" + r';
    assert |a| == |a'|;
    assert a == whole[..|a|] && a' == whole'[..|a'|];
    assert r == whole[|a| + 1..] && r' == whole'[|a'| + 1..];
  }

  /** The string key stands for the pair (action, resource) as long as no action holds a
      colon, which no confirmable action does. */
  lemma KeyIsPair(a: string, r: string, a': string, r': string)
    requires a in CONFIRMABLE_ACTIONS && a' in CONFIRMABLE_ACTIONS
    ensures ConfirmationKey(a, r) == ConfirmationKey(a', r') <==> a == a' && r == r'
  {
    ConfirmableActionsHaveNoColon(a);
    ConfirmableActionsHaveNoColon(a');
    if ConfirmationKey(a, r) == ConfirmationKey(a', r') { ColonSplits(a, r, a', r'); }
  }

  /** With a colon in an action the key is no longer that pair. */
  lemma KeyNeedsColonFreeActions()
    ensures ConfirmationKey("a:b", "c") == ConfirmationKey("a", "b:c")
  {
  }

  /** Every route that consumes a confirmation names a confirmable action. */
  ghost predicate ConsumesRouteActions(events: seq<Event>) {
    forall k :: 0 <= k < |events| && events[k].op.ConsumeConfirmation? ==> events[k].op.action in CONFIRMABLE_ACTIONS
  }

  /** The issue that still stands for a pair: none since an invalidation or an attempt to
      consume it, whatever that attempt's outcome; the latest if it was re-issued. */
  function Standing(s: State, events: seq<Event>, k: nat, action: string, resource: string): Option<nat>
    requires k <= |events|
  {
    if k == 0 then None
    else
      var op := events[k - 1].op;
      if op.InvalidateBindings? || op.InvalidateConfirmations? then None
      else if op.ConsumeConfirmation? && op.action == action && op.resource == resource then None
      else if op.IssueConfirmation? && op.action == action && op.resource == resource
              && ResponseAt(s, events, k - 1).Granted? then Some(k - 1)
      else Standing(s, events, k - 1, action, resource)
  }

  /** The store either holds the standing issue of a pair as it was made, or pruned it
      after its lifetime. */
  ghost predicate Holds(s: State, action: string, resource: string, standing: Option<Confirmation>, now: Millis) {
    var key := ConfirmationKey(action, resource);
    && (standing.None? ==> key !in s.confirmations)
    && (standing.Some? && key in s.confirmations ==> s.confirmations[key] == standing.value.(generation := s.generation))
    && (standing.Some? && key !in s.confirmations ==> now - standing.value.issuedAt >= CONFIRMATION_LIFETIME_MS)
  }

  function NextStanding(c: Option<Confirmation>, s: State, now: Millis, op: Op, action: string, resource: string)
    : Option<Confirmation>
  {
    if op.InvalidateBindings? || op.InvalidateConfirmations? then None
    else if op.ConsumeConfirmation? && op.action == action && op.resource == resource then None
    else if op.IssueConfirmation? && op.action == action && op.resource == resource && Next(s, now, op).1.Granted? then
      Some(Confirmation(Digest(op.nonce), action, resource, op.sessionId, 0, now))
    else c
  }

  lemma StepHolds(s: State, action: string, resource: string, c: Option<Confirmation>, before: Millis, now: Millis, op: Op)
    requires Holds(s, action, resource, c, before) && before <= now && action in CONFIRMABLE_ACTIONS
    requires op.ConsumeConfirmation? ==> op.action in CONFIRMABLE_ACTIONS
    ensures Holds(Next(s, now, op).0, action, resource, NextStanding(c, s, now, op, action, resource), now)
  {
    if op.ConsumeConfirmation? { KeyIsPair(op.action, op.resource, action, resource); }
    if op.IssueConfirmation? && op.action in CONFIRMABLE_ACTIONS { KeyIsPair(op.action, op.resource, action, resource); }
  }

  function StandingAfter(s: State, events: seq<Event>, k: nat, action: string, resource: string): Option<Confirmation>
    requires k <= |events|
  {
    if k == 0 then None
    else NextStanding(StandingAfter(s, events, k - 1, action, resource), After(s, events, k - 1),
                      events[k - 1].at, events[k - 1].op, action, resource)
  }

  ghost predicate HoldsAt(s: State, events: seq<Event>, k: nat, action: string, resource: string)
    requires k <= |events|
  {
    Holds(After(s, events, k), action, resource, StandingAfter(s, events, k, action, resource), ClockAt(events, k))
  }

  lemma EventHolds(s: State, events: seq<Event>, k: nat, action: string, resource: string)
    requires MonotoneClock(events) && ConsumesRouteActions(events) && action in CONFIRMABLE_ACTIONS
    requires k < |events| && HoldsAt(s, events, k, action, resource)
    ensures HoldsAt(s, events, k + 1, action, resource)
  {
    var before, c := After(s, events, k), StandingAfter(s, events, k, action, resource);
    var now, op := events[k].at, events[k].op;
    assert op.ConsumeConfirmation? ==> op.action in CONFIRMABLE_ACTIONS;
    assert k > 0 ==> events[k - 1].at <= now;
    assert k == 0 ==> c.None?;
    StepHolds(before, action, resource, c, if k == 0 then now else events[k - 1].at, now, op);
    assert After(s, events, k + 1) == Next(before, now, op).0;
    assert StandingAfter(s, events, k + 1, action, resource) == NextStanding(c, before, now, op, action, resource);
  }

  lemma NoConfirmationAtFirst(generation: int, events: seq<Event>, action: string, resource: string)
    ensures HoldsAt(Fresh(generation), events, 0, action, resource)
  {
  }

  lemma {:induction false} RunHolds(generation: int, events: seq<Event>, k: nat, action: string, resource: string)
    requires MonotoneClock(events) && ConsumesRouteActions(events) && k <= |events|
    requires action in CONFIRMABLE_ACTIONS
    ensures HoldsAt(Fresh(generation), events, k, action, resource)
  {
    var s := Fresh(generation);
    NoConfirmationAtFirst(generation, events, action, resource);
    for n := 0 to k
      invariant HoldsAt(s, events, n, action, resource)
    {
      EventHolds(s, events, n, action, resource);
    }
  }

  /** The confirmation an issue left behind. */
  ghost predicate Records(events: seq<Event>, k: nat, j: Option<nat>, c: Option<Confirmation>, action: string, resource: string)
    requires k <= |events|
  {
    && (j.None? <==> c.None?)
    && (j.Some? ==>
          && j.value < k && events[j.value].op.IssueConfirmation?
          && events[j.value].op.action == action && events[j.value].op.resource == resource
          && c.value == Confirmation(Digest(events[j.value].op.nonce), action, resource,
                                     events[j.value].op.sessionId, 0, events[j.value].at))
  }

  lemma StandingAtNext(s: State, events: seq<Event>, k: nat, action: string, resource: string)
    requires k < |events|
    requires Records(events, k, Standing(s, events, k, action, resource), StandingAfter(s, events, k, action, resource), action, resource)
    ensures Records(events, k + 1, Standing(s, events, k + 1, action, resource),
                    StandingAfter(s, events, k + 1, action, resource), action, resource)
  {
    var op := events[k].op;
    assert ResponseAt(s, events, k) == Next(After(s, events, k), events[k].at, op).1;
    if op.InvalidateBindings? || op.InvalidateConfirmations? {
      assert Standing(s, events, k + 1, action, resource).None? && StandingAfter(s, events, k + 1, action, resource).None?;
    }
  }

  lemma {:induction false} StandingIsHistory(s: State, events: seq<Event>, k: nat, action: string, resource: string)
    requires k <= |events|
    ensures Records(events, k, Standing(s, events, k, action, resource), StandingAfter(s, events, k, action, resource), action, resource)
  {
    if k == 0 {
    } else {
      StandingIsHistory(s, events, k - 1, action, resource);
      StandingAtNext(s, events, k - 1, action, resource);
    }
  }

  lemma ConsumeVerdictExactly(s: State, action: string, resource: string, c: Option<Confirmation>, before: Millis,
                              now: Millis, nonce: string, sessionId: string)
    requires Holds(s, action, resource, c, before) && before <= now
    ensures Next(s, now, ConsumeConfirmation(nonce, action, resource, sessionId)).1 == Granted <==>
      c.Some? && c.value.sessionId == sessionId && c.value.digest == Digest(nonce)
      && 1 <= |nonce| <= 256 && now - c.value.issuedAt < CONFIRMATION_LIFETIME_MS
  {
  }

  /** A nonce is accepted exactly if an issue for the very action and resource still
      stands, in the same session, under the same nonce, less than 120 seconds ago. In
      particular never after a re-issue, an earlier attempt, or an invalidation. */
  lemma ConsumptionSucceedsExactly(generation: int, events: seq<Event>, k: nat)
    requires MonotoneClock(events) && ConsumesRouteActions(events)
    requires k < |events| && events[k].op.ConsumeConfirmation?
    ensures
      var s, op := Fresh(generation), events[k].op;
      var j := Standing(s, events, k, op.action, op.resource);
      && (j.Some? ==> j.value < k && events[j.value].op.IssueConfirmation?
                      && events[j.value].op.action == op.action && events[j.value].op.resource == op.resource)
      && (ResponseAt(s, events, k) == Granted <==>
            j.Some? && events[j.value].op.sessionId == op.sessionId && events[j.value].op.nonce == op.nonce
            && 1 <= |op.nonce| <= 256 && events[k].at - events[j.value].at < CONFIRMATION_LIFETIME_MS)
  {
    var op := events[k].op;
    RunHolds(generation, events, k, op.action, op.resource);
    StandingIsHistory(Fresh(generation), events, k, op.action, op.resource);
    ConsumeVerdictExactly(After(Fresh(generation), events, k), op.action, op.resource,
                          StandingAfter(Fresh(generation), events, k, op.action, op.resource),
                          if k > 0 then events[k - 1].at else events[0].at, events[k].at, op.nonce, op.sessionId);
  }

  ghost predicate NoncesAreFresh(events: seq<Event>) {
    forall i, j :: 0 <= i < j < |events| && events[i].op.IssueConfirmation? && events[j].op.IssueConfirmation? ==>
      events[i].op.nonce != events[j].op.nonce
  }

  lemma {:induction false} StandingIsAfterConsumption(s: State, events: seq<Event>, i: nat, k: nat, action: string, resource: string)
    requires i < k <= |events| && events[i].op.ConsumeConfirmation?
    requires events[i].op.action == action && events[i].op.resource == resource
    ensures Standing(s, events, k, action, resource).Some? ==> Standing(s, events, k, action, resource).value > i
    decreases k
  {
    if i == k - 1 {
    } else {
      StandingIsAfterConsumption(s, events, i, k - 1, action, resource);
    }
  }

  /** Over any run every issued nonce is consumed successfully at most once. */
  lemma NonceIsConsumedOnce(generation: int, events: seq<Event>, i: nat, k: nat)
    requires MonotoneClock(events) && ConsumesRouteActions(events) && NoncesAreFresh(events)
    requires i < k < |events| && events[i].op.ConsumeConfirmation? && events[k].op.ConsumeConfirmation?
    requires events[i].op.nonce == events[k].op.nonce
    ensures !(ResponseAt(Fresh(generation), events, i).Granted? && ResponseAt(Fresh(generation), events, k).Granted?)
  {
    var s, a, r := Fresh(generation), events[i].op.action, events[i].op.resource;
    ConsumptionSucceedsExactly(generation, events, i);
    ConsumptionSucceedsExactly(generation, events, k);
    var first := Standing(s, events, i, a, r);
    var second := Standing(s, events, k, events[k].op.action, events[k].op.resource);
    if a == events[k].op.action && r == events[k].op.resource { StandingIsAfterConsumption(s, events, i, k, a, r); }
    SameNonceSameIssue(events, first, second);
  }

  lemma SameNonceSameIssue(events: seq<Event>, i: Option<nat>, j: Option<nat>)
    requires NoncesAreFresh(events)
    requires i.Some? ==> i.value < |events| && events[i.value].op.IssueConfirmation?
    requires j.Some? ==> j.value < |events| && events[j.value].op.IssueConfirmation?
    ensures i.Some? && j.Some? && events[i.value].op.nonce == events[j.value].op.nonce ==> i == j
  {
  }
}
