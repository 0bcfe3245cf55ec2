/** The request handlers of the lobby coordinator as functions from the state before a
    command to the state after it and the replies sent. Each handler is one sequential
    step: the locks the server takes around each table are not modelled. */
module Handlers {
  import opened Tables
  import opened Wire

  /** What the users file says about one account. */
  datatype Account = Account(password: string, elo: int)

  /** The coordinator's shared state: the three tables and the users file. */
  datatype Lobby = Lobby(online: seq<OnlineUser>, pending: seq<Pending>, recent: seq<Recent>,
                         users: map<Name, Account>)

  /** client_state_t: one connection's view of who is logged in on it. */
  datatype Session = Session(sock: int, loggedIn: bool, username: Name, inMatch: bool)

  /** One send_all call: the socket written to and the text. */
  datatype Send = Send(sock: int, text: string)

  datatype Step = Step(lobby: Lobby, session: Session, out: seq<Send>)

  /** What the model takes from outside for one command line: the clock when the handler
      starts, the clock when handle_challenge_accept re-checks the entry's age, whether
      delivering a challenge request fails, and whether appending to the users file fails. */
  datatype Env = Env(now: int, later: int, deliveryFails: bool, storeFails: bool)

  /** The rating a user without one in the users file gets. */
  const DEFAULT_ELO: int := 1000

  /** The table bounds, the uniqueness and the nonempty names every handler keeps. */
  predicate Consistent(l: Lobby) {
    |l.online| <= MAX_ONLINE && |l.pending| <= MAX_PENDING && |l.recent| <= MAX_RECENT &&
    UniqueNames(l.online) && NamedUsers(l.online) && UniquePairs(l.pending)
  }

  function Abs(x: int): int { if x < 0 then -x else x }

  /** read_elo_from_file. */
  function EloOf(users: map<Name, Account>, u: Name): int {
    if u in users then users[u].elo else DEFAULT_ELO
  }

  function Reply(l: Lobby, s: Session, text: string): Step {
    Step(l, s, [Send(s.sock, text)])
  }

  /** expire_pending at `now`. */
  function Expired(l: Lobby, now: int): Lobby {
    l.(pending := Sweep(l.pending, UnexpiredAt(now)))
  }

  /** remove_online and remove_all_pending_for, as do_logout and the disconnect path run them. */
  function Depart(l: Lobby, u: Name): Lobby {
    l.(online := RemoveUser(l.online, u), pending := Sweep(l.pending, NotInvolving(u)))
  }

  // ------------------------------------------------------------------
  // handle_challenge
  // ------------------------------------------------------------------

  /** record_challenge_time and add_pending for an admissible challenge. */
  function Propose(l: Lobby, u: Name, target: Name, now: int): Lobby {
    l.(recent := Record(l.recent, u, now), pending := AddPair(l.pending, u, target, now))
  }

  lemma ExpiredConsistent(l: Lobby, now: int)
    requires Consistent(l)
    ensures Consistent(Expired(l, now))
  {
    SweepUnique(l.pending, UnexpiredAt(now));
    SweepLength(l.pending, UnexpiredAt(now));
  }

  lemma ProposeConsistent(l: Lobby, u: Name, target: Name, now: int)
    requires Consistent(l)
    ensures Consistent(Propose(l, u, target, now))
    ensures var p := Propose(l, u, target, now);
      Consistent(p.(pending := RemovePair(p.pending, u, target)))
  {
    AddPairUnique(l.pending, u, target, now);
    RemovePairUnique(AddPair(l.pending, u, target, now), u, target);
  }

  /** Every check of handle_challenge passes; `l` is the state after expire_pending. */
  predicate ChallengeAdmissible(l: Lobby, s: Session, target: Name, now: int) {
    s.loggedIn && |target| > 0 && s.username != target && IsOnline(l.online, target) &&
    !FirstUser(l.online, target).inMatch &&
    Abs(EloOf(l.users, s.username) - FirstUser(l.online, target).elo) <= LEVEL_GAP_THRESHOLD &&
    !RateLimited(l.recent, s.username, now)
  }

  function Challenge(l: Lobby, s: Session, target: Name, now: int, deliveryFails: bool): (r: Step)
    ensures r.session == s && r.lobby.online == l.online && r.lobby.users == l.users
  {
    if !s.loggedIn then Reply(l, s, CHALLENGE_FAIL_NOT_LOGGED)
    else if |target| == 0 then Reply(l, s, CHALLENGE_FAIL_USER_NOT_FOUND)
    else
      var l1 := Expired(l, now);
      if s.username == target then Reply(l1, s, CHALLENGE_FAIL_SELF)
      else if !IsOnline(l1.online, target) then Reply(l1, s, CHALLENGE_FAIL_USER_NOT_FOUND)
      else
        var t := FirstUser(l1.online, target);
        if t.inMatch then Reply(l1, s, CHALLENGE_FAIL_USER_BUSY)
        else if Abs(EloOf(l1.users, s.username) - t.elo) > LEVEL_GAP_THRESHOLD then
          Reply(l1, s, CHALLENGE_FAIL_LEVELGAP)
        else if RateLimited(l1.recent, s.username, now) then Reply(l1, s, CHALLENGE_FAIL_RATE)
        else
          var l2 := Propose(l1, s.username, target, now);
          if deliveryFails then
            Reply(l2.(pending := RemovePair(l2.pending, s.username, target)), s, CHALLENGE_FAIL_OFFLINE)
          else
            Step(l2, s, [Send(t.sock, ChallengeRequest(s.username)), Send(s.sock, CHALLENGE_SENT)])
  }

  /** The rejections come in a fixed order: a check decides the reply whenever every
      earlier check passed, whatever the later ones would say. */
  lemma ChallengePrecedence(l: Lobby, s: Session, target: Name, now: int, fails: bool)
    ensures var out := Challenge(l, s, target, now, fails).out;
      if !s.loggedIn then out == [Send(s.sock, CHALLENGE_FAIL_NOT_LOGGED)]
      else if |target| == 0 then out == [Send(s.sock, CHALLENGE_FAIL_USER_NOT_FOUND)]
      else if s.username == target then out == [Send(s.sock, CHALLENGE_FAIL_SELF)]
      else if !IsOnline(l.online, target) then out == [Send(s.sock, CHALLENGE_FAIL_USER_NOT_FOUND)]
      else
      var t := FirstUser(l.online, target);
      if t.inMatch then out == [Send(s.sock, CHALLENGE_FAIL_USER_BUSY)]
      else if Abs(EloOf(l.users, s.username) - t.elo) > LEVEL_GAP_THRESHOLD then out == [Send(s.sock, CHALLENGE_FAIL_LEVELGAP)]
      else if RateLimited(l.recent, s.username, now) then out == [Send(s.sock, CHALLENGE_FAIL_RATE)]
      else out == (if fails then [Send(s.sock, CHALLENGE_FAIL_OFFLINE)]
                   else [Send(t.sock, ChallengeRequest(s.username)), Send(s.sock, CHALLENGE_SENT)])
  {
  }

  /** A rejected challenge records no time and adds no entry: the tables are as
      expire_pending left them (or untouched, before the expiry step). */
  lemma ChallengeRejectedChangesNothing(l: Lobby, s: Session, target: Name, now: int, fails: bool)
    requires !ChallengeAdmissible(Expired(l, now), s, target, now)
    ensures var r := Challenge(l, s, target, now, fails);
      r.lobby.recent == l.recent &&
      r.lobby.pending == (if s.loggedIn && |target| > 0 then Expired(l, now).pending else l.pending) &&
      |r.out| == 1 && r.out[0].sock == s.sock
  {
  }

  /** A challenge that passes every check and is delivered leaves exactly one pending entry
      for the pair, stamps the proposer's history and notifies the target's socket. */
  lemma ChallengeDelivered(l: Lobby, s: Session, target: Name, now: int)
    requires Consistent(l) && |Expired(l, now).pending| < MAX_PENDING
    requires ChallengeAdmissible(Expired(l, now), s, target, now)
    ensures var r := Challenge(l, s, target, now, false);
      HasPair(r.lobby.pending, s.username, target) &&
      PairCount(r.lobby.pending, s.username, target) == 1 &&
      r.lobby.recent == Record(l.recent, s.username, now) &&
      r.out == [Send(FirstUser(l.online, target).sock, ChallengeRequest(s.username)),
                Send(s.sock, CHALLENGE_SENT)]
  {
    var e := Sweep(l.pending, UnexpiredAt(now));
    SweepUnique(l.pending, UnexpiredAt(now));
    SweepLength(l.pending, UnexpiredAt(now));
    AddPairUnique(e, s.username, target, now);
    PairCountOne(AddPair(e, s.username, target, now), s.username, target);
  }

  /** A failed delivery of a fresh challenge rolls the entry back: the pending table is as
      expire_pending left it, while the proposal still counts toward the rate limit. */
  lemma ChallengeUndeliveredRollsBack(l: Lobby, s: Session, target: Name, now: int)
    requires Consistent(l) && |Expired(l, now).pending| < MAX_PENDING
    requires ChallengeAdmissible(Expired(l, now), s, target, now)
    requires !HasPair(Expired(l, now).pending, s.username, target)
    ensures var r := Challenge(l, s, target, now, true);
      r.lobby.pending == Expired(l, now).pending &&
      r.lobby.recent == Record(l.recent, s.username, now) &&
      r.out == [Send(s.sock, CHALLENGE_FAIL_OFFLINE)]
  {
    var e := Sweep(l.pending, UnexpiredAt(now));
    SweepLength(l.pending, UnexpiredAt(now));
    RemovePairAppended(e, s.username, target, now);
  }

  /** With the pending table full after the expiry sweep, a new pair is not stored, yet the
      request is still delivered and the proposer is told 130 CHALLENGE_SENT; a failed
      delivery finds nothing to roll back. */
  lemma ChallengeTableFull(l: Lobby, s: Session, target: Name, now: int, fails: bool)
    requires |Expired(l, now).pending| >= MAX_PENDING
    requires ChallengeAdmissible(Expired(l, now), s, target, now)
    requires !HasPair(Expired(l, now).pending, s.username, target)
    ensures var r := Challenge(l, s, target, now, fails);
      r.lobby.pending == Expired(l, now).pending &&
      !HasPair(r.lobby.pending, s.username, target) &&
      r.lobby.recent == Record(l.recent, s.username, now) &&
      r.out == (if fails then [Send(s.sock, CHALLENGE_FAIL_OFFLINE)]
                else [Send(FirstUser(l.online, target).sock, ChallengeRequest(s.username)),
                      Send(s.sock, CHALLENGE_SENT)])
  {
    RemovePairAbsent(Expired(l, now).pending, s.username, target);
  }

  /** A failed delivery of a repeated challenge removes the entry the earlier, delivered
      challenge created: add_pending kept the old entry and remove_pending deletes it. */
  lemma ChallengeUndeliveredDropsEarlier(l: Lobby, s: Session, target: Name, now: int)
    requires Consistent(l)
    requires ChallengeAdmissible(Expired(l, now), s, target, now)
    requires HasPair(Expired(l, now).pending, s.username, target)
    ensures !HasPair(Challenge(l, s, target, now, true).lobby.pending, s.username, target)
  {
    SweepUnique(l.pending, UnexpiredAt(now));
    RemovePairUnique(Expired(l, now).pending, s.username, target);
  }

  lemma ChallengeConsistent(l: Lobby, s: Session, target: Name, now: int, fails: bool)
    requires Consistent(l)
    ensures Consistent(Challenge(l, s, target, now, fails).lobby)
  {
    ExpiredConsistent(l, now);
    ProposeConsistent(Expired(l, now), s.username, target, now);
  }

  // ------------------------------------------------------------------
  // handle_challenge_accept
  // ------------------------------------------------------------------

  /** `l1` is the state after expire_pending; `later` is the clock at the age re-check. */
  function Accept(l: Lobby, s: Session, from: Name, now: int, later: int): (r: Step)
    ensures r.lobby.users == l.users && r.lobby.recent == l.recent
    ensures r.session.sock == s.sock && r.session.loggedIn == s.loggedIn && r.session.username == s.username
  {
    if !s.loggedIn then Reply(l, s, SESSION_NOT_FOUND)
    else
      var l1 := Expired(l, now);
      if s.inMatch then Reply(l1, s, ALREADY_IN_MATCH)
      else if !HasPair(l1.pending, from, s.username) then Reply(l1, s, MATCH_FAIL_PLAYER_UNAVAILABLE)
      else if !IsOnline(l1.online, from) || FirstUser(l1.online, from).inMatch then
        Reply(l1.(pending := RemovePair(l1.pending, from, s.username)), s, MATCH_FAIL_PLAYER_UNAVAILABLE)
      else StartMatch(l1, s, from, later)
  }

  /** The rest of handle_challenge_accept once the entry and the proposer are found: mark
      both busy, re-check the entry's age at `later`, drop the entry, announce the match. */
  function StartMatch(l: Lobby, s: Session, from: Name, later: int): (r: Step)
    requires IsOnline(l.online, from) && HasPair(l.pending, from, s.username)
    ensures r.lobby.users == l.users && r.lobby.recent == l.recent && r.session == s.(inMatch := true)
  {
    var fromSock := FirstUser(l.online, from).sock;
    var ts := FirstPair(l.pending, from, s.username).ts;
    var l2 := l.(online := MarkBusy(l.online, s.username, from),
                 pending := RemovePair(l.pending, from, s.username));
    var s2 := s.(inMatch := true);
    if later - ts > CHALLENGE_TIMEOUT then Reply(l2, s2, CHALLENGE_FAIL_EXPIRED)
    else
      Step(l2, s2, [Send(s.sock, CHALLENGE_ACCEPTED),
                    Send(fromSock, AcceptedFrom(s.username)),
                    Send(s.sock, MatchBegun(s.username, from)),
                    Send(fromSock, MatchBegun(from, s.username))])
  }

  /** An acceptor already in a match is refused, and only the expiry sweep has run. */
  lemma AcceptWhileInMatch(l: Lobby, s: Session, from: Name, now: int, later: int)
    requires s.loggedIn && s.inMatch
    ensures var r := Accept(l, s, from, now, later);
      r.out == [Send(s.sock, ALREADY_IN_MATCH)] && r.lobby == Expired(l, now) && r.session == s
  {
  }

  /** Without a live pending entry from the proposer, nothing but the expiry sweep happens. */
  lemma AcceptWithoutPending(l: Lobby, s: Session, from: Name, now: int, later: int)
    requires s.loggedIn && !s.inMatch && !HasPair(Expired(l, now).pending, from, s.username)
    ensures var r := Accept(l, s, from, now, later);
      r.out == [Send(s.sock, MATCH_FAIL_PLAYER_UNAVAILABLE)] && r.lobby == Expired(l, now) && r.session == s
  {
  }

  /** A proposer who went offline or into another match: the entry is dropped and nobody
      is marked busy. */
  lemma AcceptProposerUnavailable(l: Lobby, s: Session, from: Name, now: int, later: int)
    requires Consistent(l)
    requires s.loggedIn && !s.inMatch && HasPair(Expired(l, now).pending, from, s.username)
    requires !IsOnline(l.online, from) || FirstUser(l.online, from).inMatch
    ensures var r := Accept(l, s, from, now, later);
      r.out == [Send(s.sock, MATCH_FAIL_PLAYER_UNAVAILABLE)] && r.lobby.online == l.online &&
      !HasPair(r.lobby.pending, from, s.username) && r.session == s
  {
    SweepUnique(l.pending, UnexpiredAt(now));
    RemovePairUnique(Expired(l, now).pending, from, s.username);
  }

  /** Accepting a live challenge within the timeout: both users are busy, the entry is
      gone, and both sockets get the acceptance and the match announcement. */
  lemma AcceptSucceeds(l: Lobby, s: Session, from: Name, now: int, later: int)
    requires Consistent(l)
    requires s.loggedIn && !s.inMatch && HasPair(Expired(l, now).pending, from, s.username)
    requires IsOnline(l.online, from) && !FirstUser(l.online, from).inMatch
    requires later - FirstPair(Expired(l, now).pending, from, s.username).ts <= CHALLENGE_TIMEOUT
    ensures var r := Accept(l, s, from, now, later);
      (forall i :: 0 <= i < |r.lobby.online| ==>
        (r.lobby.online[i].username == s.username || r.lobby.online[i].username == from) ==> r.lobby.online[i].inMatch) &&
      !HasPair(r.lobby.pending, from, s.username) && r.session.inMatch &&
      |r.out| == 4 && r.out[0] == Send(s.sock, CHALLENGE_ACCEPTED) &&
      r.out[1] == Send(FirstUser(l.online, from).sock, AcceptedFrom(s.username)) &&
      r.out[2] == Send(s.sock, MatchBegun(s.username, from)) &&
      r.out[3] == Send(FirstUser(l.online, from).sock, MatchBegun(from, s.username))
  {
    SweepUnique(l.pending, UnexpiredAt(now));
    RemovePairUnique(Expired(l, now).pending, from, s.username);
  }

  /** As written, the acceptor and the proposer are marked busy before the age re-check, so
      a challenge found stale at that point is refused with 238 and leaves both busy. */
  lemma AcceptExpiredLeavesBothBusy(l: Lobby, s: Session, from: Name, now: int, later: int)
    requires s.loggedIn && !s.inMatch && HasPair(Expired(l, now).pending, from, s.username)
    requires IsOnline(l.online, from) && !FirstUser(l.online, from).inMatch
    requires later - FirstPair(Expired(l, now).pending, from, s.username).ts > CHALLENGE_TIMEOUT
    ensures var r := Accept(l, s, from, now, later);
      r.out == [Send(s.sock, CHALLENGE_FAIL_EXPIRED)] && r.session.inMatch &&
      r.lobby.online == MarkBusy(l.online, s.username, from) &&
      MarkBusy(l.online, s.username, from)[FirstUserIndex(l.online, from)].inMatch
  {
  }

  /** With one clock reading the 238 branch cannot be reached: expire_pending has already
      dropped every entry older than the timeout, so a stale challenge gets 341. */
  lemma AcceptAtOneInstantNeverExpired(l: Lobby, s: Session, from: Name, now: int)
    ensures Accept(l, s, from, now, now).out != [Send(s.sock, CHALLENGE_FAIL_EXPIRED)]
  {
    if s.loggedIn && !s.inMatch && HasPair(Expired(l, now).pending, from, s.username) {
      var e := Expired(l, now).pending;
      SweepMembers(l.pending, UnexpiredAt(now));
      var i := FirstPairIndex(e, from, s.username);
      assert e[i] in e;
    }
  }

  /** A challenge accepted after the timeout is answered 341 player_unavailable. */
  lemma AcceptAfterTimeoutUnavailable(l: Lobby, s: Session, from: Name, now: int, later: int)
    requires Consistent(l) && s.loggedIn && !s.inMatch && HasPair(l.pending, from, s.username)
    requires now - FirstPair(l.pending, from, s.username).ts > CHALLENGE_TIMEOUT
    ensures Accept(l, s, from, now, later).out == [Send(s.sock, MATCH_FAIL_PLAYER_UNAVAILABLE)]
  {
    SweepHasPair(l.pending, UnexpiredAt(now), from, s.username);
  }

  lemma AcceptConsistent(l: Lobby, s: Session, from: Name, now: int, later: int)
    requires Consistent(l)
    ensures Consistent(Accept(l, s, from, now, later).lobby)
  {
    var e := Sweep(l.pending, UnexpiredAt(now));
    SweepUnique(l.pending, UnexpiredAt(now));
    SweepLength(l.pending, UnexpiredAt(now));
    RemovePairUnique(e, from, s.username);
    MarkBusyNames(l.online, s.username, from);
  }

  // ------------------------------------------------------------------
  // handle_challenge_decline
  // ------------------------------------------------------------------

  function Decline(l: Lobby, s: Session, from: Name, now: int): (r: Step)
    ensures r.session == s && r.lobby.online == l.online && r.lobby.recent == l.recent
  {
    if !s.loggedIn then Reply(l, s, SESSION_NOT_FOUND)
    else
      var l1 := Expired(l, now);
      if !HasPair(l1.pending, from, s.username) then Reply(l1, s, MATCH_FAIL_PLAYER_UNAVAILABLE)
      else
        var fromSock := if IsOnline(l1.online, from) then FirstUser(l1.online, from).sock else -1;
        var l2 := l1.(pending := RemovePair(l1.pending, from, s.username));
        Step(l2, s, [Send(s.sock, CHALLENGE_DECLINED)] +
                    (if fromSock >= 0 then [Send(fromSock, DeclinedFrom(s.username))] else []))
  }

  /** Declining a live challenge deletes exactly that entry and tells an online proposer
      whose socket is valid. */
  lemma DeclineRemovesEntry(l: Lobby, s: Session, from: Name, now: int)
    requires Consistent(l) && s.loggedIn && HasPair(Expired(l, now).pending, from, s.username)
    ensures var r := Decline(l, s, from, now);
      !HasPair(r.lobby.pending, from, s.username) &&
      (forall p :: p in Expired(l, now).pending && !(p.from == from && p.to == s.username) ==> p in r.lobby.pending) &&
      r.out[0] == Send(s.sock, CHALLENGE_DECLINED) &&
      (|r.out| == 2 <==> IsOnline(l.online, from) && FirstUser(l.online, from).sock >= 0)
  {
    SweepUnique(l.pending, UnexpiredAt(now));
    RemovePairUnique(Expired(l, now).pending, from, s.username);
  }

  lemma DeclineConsistent(l: Lobby, s: Session, from: Name, now: int)
    requires Consistent(l)
    ensures Consistent(Decline(l, s, from, now).lobby)
  {
    var e := Sweep(l.pending, UnexpiredAt(now));
    SweepUnique(l.pending, UnexpiredAt(now));
    SweepLength(l.pending, UnexpiredAt(now));
    RemovePairUnique(e, from, s.username);
  }

  // ------------------------------------------------------------------
  // do_logout and the disconnect path
  // ------------------------------------------------------------------

  function Logout(l: Lobby, s: Session): (r: Step)
    ensures r.session.sock == s.sock && !r.session.loggedIn && |r.out| == 1 && r.out[0].sock == s.sock
  {
    if !s.loggedIn then Reply(l, s, SESSION_NOT_FOUND)
    else Step(Depart(l, s.username), Session(s.sock, false, "", false), [Send(s.sock, LOGOUT_OK)])
  }

  /** What client_thread does to the tables when the connection closes. */
  function Disconnect(l: Lobby, s: Session): (r: Lobby)
    ensures r.users == l.users && r.recent == l.recent
  {
    if s.loggedIn then Depart(l, s.username) else l
  }

  /** Leaving takes the user offline and purges every pending entry naming them, keeping
      every other user and every other entry, in order. */
  lemma DepartCascade(l: Lobby, u: Name)
    requires Consistent(l)
    ensures var d := Depart(l, u);
      !IsOnline(d.online, u) &&
      (forall v :: v != u ==> (IsOnline(d.online, v) <==> IsOnline(l.online, v))) &&
      (forall p :: p in d.pending <==> p in l.pending && p.from != u && p.to != u) &&
      Consistent(d)
  {
    RemoveUserUnique(l.online, u);
    RemoveUserNamed(l.online, u);
    SweepMembers(l.pending, NotInvolving(u));
    SweepUnique(l.pending, NotInvolving(u));
    SweepLength(l.pending, NotInvolving(u));
  }

  /** A logout without a login is refused and changes no table. */
  lemma LogoutWithoutLogin(l: Lobby, s: Session)
    requires !s.loggedIn
    ensures Logout(l, s) == Step(l, s, [Send(s.sock, SESSION_NOT_FOUND)])
  {
  }

  /** Logging out and disconnecting leave the same tables. */
  lemma LogoutIsDisconnect(l: Lobby, s: Session)
    ensures Logout(l, s).lobby == Disconnect(l, s)
  {
  }

  // ------------------------------------------------------------------
  // handle_list_players
  // ------------------------------------------------------------------

  /** Characters the player list can hold: sizeof(buf) - 1. */
  const LIST_LIMIT: nat := 4095

  function Usernames(s: seq<OnlineUser>): (r: seq<Name>)
    ensures |r| == |s| && forall i :: 0 <= i < |s| ==> r[i] == s[i].username
  {
    if |s| == 0 then [] else Usernames(s[..|s| - 1]) + [s[|s| - 1].username]
  }

  /** strncat(buf, x, sizeof(buf) - strlen(buf) - 1) on the 4096-byte list buffer. */
  function Strncat(buf: string, x: string): (r: string)
    ensures r <= buf + x && |r| <= LIST_LIMIT
  {
    Snprintf(buf + x, LIST_BUFFER)
  }

  /** The list buffer after the loop has visited `names`: a comma before every name
      once the buffer is nonempty, each append cut off at the buffer's end. */
  function ListBuf(names: seq<Name>): string {
    if |names| == 0 then ""
    else
      var b := ListBuf(names[..|names| - 1]);
      Strncat(if |b| > 0 then Strncat(b, ",") else b, names[|names| - 1])
  }

  /** The names separated by commas (the reference the truncating loop is compared to). */
  function CommaJoin(names: seq<Name>): string {
    if |names| == 0 then ""
    else if |names| == 1 then names[0]
    else CommaJoin(names[..|names| - 1]) + "," + names[|names| - 1]
  }

  /** The reply to LIST_PLAYERS. */
  function ListReply(l: Lobby, s: Session): string {
    if !s.loggedIn then LIST_FAIL_NOT_LOGGED
    else if |l.online| == 0 then PLAYER_LIST_EMPTY
    else Snprintf(PLAYER_LIST_HEAD + ListBuf(Usernames(l.online)) + PLAYER_LIST_TAIL, LIST_BUFFER)
  }

  lemma SnprintfTwice(a: string, b: string)
    ensures Snprintf(Snprintf(a, LIST_BUFFER) + b, LIST_BUFFER) == Snprintf(a + b, LIST_BUFFER)
  {
    if |a| >= LIST_BUFFER {
      assert (a + b)[..LIST_BUFFER - 1] == a[..LIST_BUFFER - 1];
      assert (a[..LIST_BUFFER - 1] + b)[..LIST_BUFFER - 1] == a[..LIST_BUFFER - 1];
    }
  }

  /** With nonempty names, the loop's buffer is the comma-join cut at 4095 characters. */
  lemma {:induction false} ListBufIsJoin(names: seq<Name>)
    requires forall i :: 0 <= i < |names| ==> |names[i]| > 0
    ensures ListBuf(names) == Snprintf(CommaJoin(names), LIST_BUFFER)
    ensures |names| > 0 ==> |CommaJoin(names)| > 0
  {
    if |names| > 0 {
      var init := names[..|names| - 1];
      var x := names[|names| - 1];
      ListBufIsJoin(init);
      if |init| == 0 {
        assert ListBuf(init) == "";
      } else {
        var j := CommaJoin(init);
        SnprintfTwice(j, ",");
        SnprintfTwice(j + ",", x);
        assert |ListBuf(init)| > 0;
      }
    }
  }

  /** A short enough list is sent whole: the names comma-joined in registry order
      between the brackets. */
  lemma ListComplete(l: Lobby, s: Session)
    requires s.loggedIn && |l.online| > 0
    requires NamedUsers(l.online)
    requires |CommaJoin(Usernames(l.online))| + |PLAYER_LIST_HEAD| + |PLAYER_LIST_TAIL| <= LIST_LIMIT
    ensures ListReply(l, s) == PLAYER_LIST_HEAD + CommaJoin(Usernames(l.online)) + PLAYER_LIST_TAIL
  {
    ListBufIsJoin(Usernames(l.online));
  }

  /** A list too long for the buffer is cut off and loses its closing "]\r\n". */
  lemma ListTruncated(l: Lobby, s: Session)
    requires s.loggedIn && |l.online| > 0
    requires NamedUsers(l.online)
    requires |CommaJoin(Usernames(l.online))| + |PLAYER_LIST_HEAD| + |PLAYER_LIST_TAIL| > LIST_LIMIT
    ensures |ListReply(l, s)| == LIST_LIMIT
    ensures ListReply(l, s) < PLAYER_LIST_HEAD + CommaJoin(Usernames(l.online)) + PLAYER_LIST_TAIL
  {
    var j := CommaJoin(Usernames(l.online));
    ListBufIsJoin(Usernames(l.online));
    if |j| >= LIST_BUFFER {
      var full := PLAYER_LIST_HEAD + j[..LIST_LIMIT] + PLAYER_LIST_TAIL;
      assert full[..LIST_LIMIT] == (PLAYER_LIST_HEAD + j + PLAYER_LIST_TAIL)[..LIST_LIMIT];
    }
  }

  // ------------------------------------------------------------------
  // REGISTER and LOGIN
  // ------------------------------------------------------------------

  function Register(l: Lobby, s: Session, creds: Option<Creds>, storeFails: bool): (r: Step)
    ensures r.session == s && r.lobby.online == l.online && r.lobby.pending == l.pending
  {
    match creds
    case None => Reply(l, s, REGISTER_FAIL_EMPTY)
    case Some(c) =>
      var u := TrimmedCrlf(c.username);
      var p := TrimmedCrlf(c.password);
      if |u| == 0 || |p| == 0 then Reply(l, s, REGISTER_FAIL_EMPTY)
      else if !ValidUsername(u) then Reply(l, s, REGISTER_FAIL_INVALID)
      else if |p| < 1 then Reply(l, s, REGISTER_FAIL_WEAK)
      else if u in l.users then Reply(l, s, REGISTER_FAIL_EXISTS)
      else if storeFails then Reply(l, s, SERVER_ERROR)
      else Reply(l.(users := l.users[u := Account(p, DEFAULT_ELO)]), s, REGISTER_OK)
  }

  function Login(l: Lobby, s: Session, creds: Option<Creds>): (r: Step)
    ensures r.lobby.pending == l.pending && r.lobby.users == l.users
  {
    match creds
    case None => Reply(l, s, LOGIN_FAIL_USERNAME)
    case Some(c) =>
      var u := TrimmedCrlf(c.username);
      var p := TrimmedCrlf(c.password);
      if |u| == 0 || |p| == 0 then Reply(l, s, LOGIN_FAIL_EMPTY)
      else if u !in l.users then Reply(l, s, LOGIN_FAIL_USERNAME)
      else if l.users[u].password != p then Reply(l, s, LOGIN_FAIL_PASSWORD)
      else if IsOnline(l.online, u) then Reply(l, s, LOGIN_FAIL_ALREADY)
      else Step(l.(online := AddUser(l.online, u, s.sock, l.users[u].elo)),
                Session(s.sock, true, u, false), [Send(s.sock, LOGIN_OK)])
  }

  /** REGISTER accepts only a fresh, valid username. */
  lemma RegisterAccepts(l: Lobby, s: Session, c: Creds, storeFails: bool)
    requires NoSpace(c.username) && NoSpace(c.password)
    ensures var r := Register(l, s, Some(c), storeFails);
      r.out == [Send(s.sock, REGISTER_OK)] <==>
        |c.username| > 0 && |c.password| > 0 && ValidUsername(c.username) &&
        c.username !in l.users && !storeFails
    ensures Register(l, s, Some(c), storeFails).out == [Send(s.sock, REGISTER_OK)] ==>
      Register(l, s, Some(c), storeFails).lobby.users == l.users[c.username := Account(c.password, DEFAULT_ELO)]
  {
    NoSpaceTrim(c.username);
    NoSpaceTrim(c.password);
  }

  /** The 223 weak_password reply is never sent: the empty-field check runs first. */
  lemma WeakPasswordUnreachable(l: Lobby, s: Session, creds: Option<Creds>, storeFails: bool)
    ensures Register(l, s, creds, storeFails).out != [Send(s.sock, REGISTER_FAIL_WEAK)]
  {
  }

  /** LOGIN refuses a name that is already online and then changes nothing. */
  lemma LoginAlreadyOnline(l: Lobby, s: Session, c: Creds)
    requires NoSpace(c.username) && NoSpace(c.password) && |c.username| > 0 && IsOnline(l.online, c.username)
    requires |c.password| > 0 && c.username in l.users && l.users[c.username].password == c.password
    ensures Login(l, s, Some(c)) == Step(l, s, [Send(s.sock, LOGIN_FAIL_ALREADY)])
  {
    NoSpaceTrim(c.username);
    NoSpaceTrim(c.password);
  }

  /** A successful LOGIN is logged in as that user; the user is in the registry unless it held
      512 entries already, in which case add_online silently skipped them. */
  lemma LoginSucceeds(l: Lobby, s: Session, c: Creds)
    requires NoSpace(c.username) && NoSpace(c.password) && |c.username| > 0 && |c.password| > 0
    requires c.username in l.users && l.users[c.username].password == c.password
    requires !IsOnline(l.online, c.username)
    ensures var r := Login(l, s, Some(c));
      r.out == [Send(s.sock, LOGIN_OK)] && r.session == Session(s.sock, true, c.username, false) &&
      (IsOnline(r.lobby.online, c.username) <==> |l.online| < MAX_ONLINE)
  {
    NoSpaceTrim(c.username);
    NoSpaceTrim(c.password);
  }

  /** What REGISTER stores, LOGIN accepts. */
  lemma RegisterThenLogin(l: Lobby, s: Session, c: Creds)
    requires NoSpace(c.username) && NoSpace(c.password)
    requires Register(l, s, Some(c), false).out == [Send(s.sock, REGISTER_OK)]
    requires !IsOnline(l.online, c.username)
    ensures Login(Register(l, s, Some(c), false).lobby, s, Some(c)).out == [Send(s.sock, LOGIN_OK)]
  {
    RegisterAccepts(l, s, c, false);
    NoSpaceTrim(c.username);
    NoSpaceTrim(c.password);
  }

  lemma LoginConsistent(l: Lobby, s: Session, creds: Option<Creds>)
    requires Consistent(l)
    ensures Consistent(Login(l, s, creds).lobby)
  {
    if creds.Some? {
      var u := TrimmedCrlf(creds.value.username);
      if u in l.users && !IsOnline(l.online, u) {
        AddUserUnique(l.online, u, s.sock, l.users[u].elo);
      }
    }
  }

  /** Tokens sscanf stores have no CR or LF, so trim_crlf leaves them alone. */
  lemma NoSpaceTrim(w: string)
    requires NoSpace(w)
    ensures TrimmedCrlf(w) == w
  {
    if |w| > 0 {
      assert !IsSpace(w[|w| - 1]);
    }
  }

  // ------------------------------------------------------------------
  // handle_line
  // ------------------------------------------------------------------

  /** The handler a routed command runs. */
  function Dispatch(l: Lobby, s: Session, c: Command, env: Env): Step {
    match c
    case Info(text) => Reply(l, s, text)
    case Logout => Logout(l, s)
    case ListPlayers => Reply(l, s, ListReply(l, s))
    case Register(creds) => Register(l, s, creds, env.storeFails)
    case Login(creds) => Login(l, s, creds)
    case Challenge(t) => Challenge(l, s, t, env.now, env.deliveryFails)
    case Accept(f) => Accept(l, s, f, env.now, env.later)
    case Decline(f) => Decline(l, s, f, env.now)
    case Unknown => Reply(l, s, SERVER_ERROR)
  }

  /** handle_line: build the command text, route it, and run the handler. */
  function HandleLine(l: Lobby, s: Session, line: string, env: Env): Step {
    Dispatch(l, s, Route(CommandOf(line)), env)
  }

  lemma DispatchConsistent(l: Lobby, s: Session, c: Command, env: Env)
    requires Consistent(l)
    ensures Consistent(Dispatch(l, s, c, env).lobby)
  {
    match c
    case Info(_) =>
    case Logout => if s.loggedIn { DepartCascade(l, s.username); }
    case ListPlayers =>
    case Register(_) =>
    case Login(creds) => LoginConsistent(l, s, creds);
    case Challenge(t) => ChallengeConsistent(l, s, t, env.now, env.deliveryFails);
    case Accept(f) => AcceptConsistent(l, s, f, env.now, env.later);
    case Decline(f) => DeclineConsistent(l, s, f, env.now);
    case Unknown =>
  }

  /** The characters of the received chunks, in order. */
  function Flatten(chunks: seq<string>): string {
    if |chunks| == 0 then [] else Flatten(chunks[..|chunks| - 1]) + chunks[|chunks| - 1]
  }

  /** One connection handling `lines` in order from `l` and `s`; line k runs under env(k). */
  function RunLines(l: Lobby, s: Session, lines: seq<string>, env: nat -> Env): Step {
    if |lines| == 0 then Step(l, s, [])
    else
      var r := RunLines(l, s, lines[..|lines| - 1], env);
      var t := HandleLine(r.lobby, r.session, lines[|lines| - 1], env(|lines| - 1));
      Step(t.lobby, t.session, r.out + t.out)
  }

  /** A whole session keeps the tables within their bounds and free of duplicates. */
  lemma {:induction false} RunLinesConsistent(l: Lobby, s: Session, lines: seq<string>, env: nat -> Env)
    requires Consistent(l)
    ensures Consistent(RunLines(l, s, lines, env).lobby)
  {
    if |lines| > 0 {
      RunLinesConsistent(l, s, lines[..|lines| - 1], env);
      var r := RunLines(l, s, lines[..|lines| - 1], env);
      HandleLineConsistent(r.lobby, r.session, lines[|lines| - 1], env(|lines| - 1));
    }
  }

  lemma DisconnectConsistent(l: Lobby, s: Session)
    requires Consistent(l)
    ensures Consistent(Disconnect(l, s))
  {
    if s.loggedIn {
      DepartCascade(l, s.username);
    }
  }

  /** Every command keeps the tables within their bounds and free of duplicates. */
  lemma HandleLineConsistent(l: Lobby, s: Session, line: string, env: Env)
    requires Consistent(l)
    ensures Consistent(HandleLine(l, s, line, env).lobby)
  {
    DispatchConsistent(l, s, Route(CommandOf(line)), env);
  }

  /** The accept and decline handlers are never reached from a command line. */
  lemma AcceptDeclineNotDispatched(l: Lobby, s: Session, line: string, env: Env)
    ensures !Route(CommandOf(line)).Accept? && !Route(CommandOf(line)).Decline?
  {
    AcceptAndDeclineUnreachable(CommandOf(line));
  }
}
