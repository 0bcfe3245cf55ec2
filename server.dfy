/** The coordinator's global tables as fixed-size arrays with counts, updated in place the
    way the server's table functions and handlers update them. Every method is proved to
    leave the tables as the corresponding function of module Handlers says. */
module Server {
  import opened Tables
  import opened Wire
  import opened Handlers

  /** The shift-left deletion every table uses: entries i+1 .. count-1 move down one slot.
      The last slot keeps its old contents. */
  method ShiftLeft<T>(a: array<T>, i: nat, count: nat)
    requires i < count <= a.Length
    modifies a
    ensures a[..count - 1] == old(a[..count])[..i] + old(a[..count])[i + 1..]
    ensures a[count - 1..] == old(a[count - 1..])
  {
    var j := i;
    while j < count - 1
      invariant i <= j <= count - 1
      invariant a[..i] == old(a[..i])
      invariant forall k :: i <= k < j ==> a[k] == old(a[k + 1])
      invariant a[j..] == old(a[j..])
    {
      a[j] := a[j + 1];
      j := j + 1;
    }
    assert a[..count - 1] == a[..i] + a[i..count - 1];
    assert a[i..count - 1] == old(a[..count])[i + 1..];
  }

  /** The sweep loop's step when entry i is shifted out. */
  lemma SweepDropStep(goal: seq<Pending>, b: seq<Pending>, i: nat, c: Criterion, b': seq<Pending>)
    requires i < |b| && !Keeps(c, b[i]) && goal == b[..i] + Sweep(b[i..], c)
    requires b' == b[..i] + b[i + 1..]
    ensures goal == b'[..i] + Sweep(b'[i..], c)
  {
    SweepFirst(b[i..], c);
    assert b[i..][1..] == b[i + 1..];
    assert b'[..i] == b[..i];
    assert b'[i..] == b[i + 1..];
  }

  /** The sweep loop's step when entry i is kept. */
  lemma SweepKeepStep(goal: seq<Pending>, b: seq<Pending>, i: nat, c: Criterion)
    requires i < |b| && Keeps(c, b[i]) && goal == b[..i] + Sweep(b[i..], c)
    ensures goal == b[..i + 1] + Sweep(b[i + 1..], c)
  {
    SweepFirst(b[i..], c);
    assert b[i..][1..] == b[i + 1..];
    assert b[..i + 1] == b[..i] + [b[i]];
  }

  /** The REGISTER username check: every character alphanumeric, '_' or '-'. */
  method CheckUsername(u: string) returns (ok: bool)
    ensures ok == ValidUsername(u)
  {
    var i := 0;
    while i < |u|
      invariant 0 <= i <= |u|
      invariant forall k :: 0 <= k < i ==> IsNameChar(u[k])
    {
      if !IsNameChar(u[i]) {
        return false;
      }
      i := i + 1;
    }
    return true;
  }

  /** handle_line's copy of the line into cmd: CR and LF skipped, at most 511 characters. */
  method CopyCommand(line: string) returns (cmd: string)
    ensures cmd == CommandOf(line)
  {
    var text := CPrefix(line);
    cmd := [];
    var i := 0;
    while i < |text| && |cmd| < COMMAND_LIMIT
      invariant 0 <= i <= |text|
      invariant cmd == DropLineBreaks(text[..i])
      invariant |cmd| <= COMMAND_LIMIT
    {
      assert text[..i + 1][..i] == text[..i];
      if !IsCrLf(text[i]) {
        cmd := cmd + [text[i]];
      }
      i := i + 1;
    }
    if i == |text| {
      assert text[..i] == text;
    } else {
      DropLineBreaksPrefix(text, i);
    }
  }

  /** client_state_t: the per-connection session. */
  class Client {
    const sock: int
    var loggedIn: bool
    var username: Name
    var inMatch: bool

    function View(): Session
      reads this
    {
      Session(sock, loggedIn, username, inMatch)
    }

    constructor (sock: int)
      ensures View() == Session(sock, false, "", false)
    {
      this.sock := sock;
      loggedIn := false;
      username := "";
      inMatch := false;
    }
  }

  /** The three bounded tables and the users file behind them. */
  class Coordinator {
    const online: array<OnlineUser>
    var onlineCount: nat
    const pending: array<Pending>
    var pendingCount: nat
    const recent: array<Recent>
    var recentCount: nat
    /** The accounts of users.txt. */
    var users: map<Name, Account>

    ghost predicate Valid()
      reads this
    {
      online.Length == MAX_ONLINE && pending.Length == MAX_PENDING && recent.Length == MAX_RECENT &&
      onlineCount <= MAX_ONLINE && pendingCount <= MAX_PENDING && recentCount <= MAX_RECENT
    }

    function Online(): seq<OnlineUser>
      reads this, online
      requires Valid()
    {
      online[..onlineCount]
    }

    function Pendings(): seq<Pending>
      reads this, pending
      requires Valid()
    {
      pending[..pendingCount]
    }

    function Recents(): seq<Recent>
      reads this, recent
      requires Valid()
    {
      recent[..recentCount]
    }

    function View(): Lobby
      reads this, online, pending, recent
      requires Valid()
    {
      Lobby(Online(), Pendings(), Recents(), users)
    }

    constructor (users: map<Name, Account>)
      ensures Valid() && View() == Lobby([], [], [], users)
    {
      online := new OnlineUser[MAX_ONLINE](_ => OnlineUser("", 0, false, 0));
      pending := new Pending[MAX_PENDING](_ => Pending("", "", 0));
      recent := new Recent[MAX_RECENT](_ => EmptyRecord(""));
      onlineCount := 0;
      pendingCount := 0;
      recentCount := 0;
      this.users := users;
    }

    // ---------------------------------------------------------------
    // Online registry
    // ---------------------------------------------------------------

    method FindOnlineIndex(u: Name) returns (i: int)
      requires Valid()
      ensures if IsOnline(Online(), u) then i == FirstUserIndex(Online(), u) else i == -1
    {
      i := 0;
      while i < onlineCount
        invariant 0 <= i <= onlineCount
        invariant forall k :: 0 <= k < i ==> online[k].username != u
      {
        if online[i].username == u {
          assert IsFirstUser(Online(), u, i);
          return;
        }
        i := i + 1;
      }
      i := -1;
    }

    method IsOnlineUser(u: Name) returns (b: bool)
      requires Valid()
      ensures b == IsOnline(Online(), u)
    {
      var i := FindOnlineIndex(u);
      b := i >= 0;
    }

    method AddOnline(u: Name, sock: int, elo: int)
      requires Valid()
      modifies this`onlineCount, online
      ensures Valid() && View() == old(View()).(online := AddUser(old(Online()), u, sock, elo))
    {
      if onlineCount < MAX_ONLINE {
        online[onlineCount] := OnlineUser(u, sock, false, elo);
        onlineCount := onlineCount + 1;
        assert Online() == old(Online()) + [OnlineUser(u, sock, false, elo)];
      }
    }

    method RemoveOnline(u: Name)
      requires Valid()
      modifies this`onlineCount, online
      ensures Valid() && View() == old(View()).(online := RemoveUser(old(Online()), u))
    {
      var idx := FindOnlineIndex(u);
      if idx != -1 {
        ghost var s := Online();
        RemoveUserAt(s, u, idx);
        ShiftLeft(online, idx, onlineCount);
        onlineCount := onlineCount - 1;
        assert Online() == s[..idx] + s[idx + 1..];
      } else {
        RemoveUserAbsent(Online(), u);
      }
    }

    /** The loop of handle_challenge_accept that sets in_match on both players' entries. */
    method MarkInMatch(a: Name, b: Name)
      requires Valid()
      modifies online
      ensures Valid() && View() == old(View()).(online := MarkBusy(old(Online()), a, b))
    {
      for i := 0 to onlineCount
        invariant forall k :: 0 <= k < i ==> online[k] == MarkBusy(old(Online()), a, b)[k]
        invariant forall k :: i <= k < MAX_ONLINE ==> online[k] == old(online[k])
      {
        if online[i].username == a {
          online[i] := online[i].(inMatch := true);
        }
        if online[i].username == b {
          online[i] := online[i].(inMatch := true);
        }
      }
      assert Online() == MarkBusy(old(Online()), a, b);
    }

    // ---------------------------------------------------------------
    // Pending challenges
    // ---------------------------------------------------------------

    method FindPendingIndex(from: Name, to: Name) returns (i: int)
      requires Valid()
      ensures if HasPair(Pendings(), from, to) then i == FirstPairIndex(Pendings(), from, to) else i == -1
    {
      i := 0;
      while i < pendingCount
        invariant 0 <= i <= pendingCount
        invariant forall k :: 0 <= k < i ==> !(pending[k].from == from && pending[k].to == to)
      {
        if pending[i].from == from && pending[i].to == to {
          assert IsFirstPair(Pendings(), from, to, i);
          return;
        }
        i := i + 1;
      }
      i := -1;
    }

    method HasPending(from: Name, to: Name) returns (b: bool)
      requires Valid()
      ensures b == HasPair(Pendings(), from, to)
    {
      var i := FindPendingIndex(from, to);
      b := i != -1;
    }

    method AddPending(from: Name, to: Name, now: int)
      requires Valid()
      modifies this`pendingCount, pending
      ensures Valid() && View() == old(View()).(pending := AddPair(old(Pendings()), from, to, now))
    {
      var i := FindPendingIndex(from, to);
      if i != -1 {
        return;
      }
      if pendingCount < MAX_PENDING {
        pending[pendingCount] := Pending(from, to, now);
        pendingCount := pendingCount + 1;
        assert Pendings() == old(Pendings()) + [Pending(from, to, now)];
      }
    }

    method RemovePending(from: Name, to: Name)
      requires Valid()
      modifies this`pendingCount, pending
      ensures Valid() && View() == old(View()).(pending := RemovePair(old(Pendings()), from, to))
    {
      var idx := FindPendingIndex(from, to);
      if idx != -1 {
        ghost var v := View();
        ghost var p := Pendings();
        RemovePairAt(p, from, to, idx);
        ShiftLeft(pending, idx, pendingCount);
        pendingCount := pendingCount - 1;
        assert Pendings() == p[..idx] + p[idx + 1..];
        assert View() == v.(pending := Pendings());
      } else {
        RemovePairAbsent(Pendings(), from, to);
      }
    }

    /** The in-place deletion loop of remove_all_pending_for and expire_pending: an entry the
        criterion rejects is shifted out and the same index is examined again. */
    method SweepPending(c: Criterion)
      requires Valid()
      modifies this`pendingCount, pending
      ensures Valid() && View() == old(View()).(pending := Sweep(old(Pendings()), c))
    {
      ghost var goal := Sweep(Pendings(), c);
      var i := 0;
      while i < pendingCount
        invariant Valid() && 0 <= i <= pendingCount
        invariant goal == Pendings()[..i] + Sweep(Pendings()[i..], c)
        decreases pendingCount - i
      {
        if !Keeps(c, pending[i]) {
          ghost var before := Pendings();
          ShiftLeft(pending, i, pendingCount);
          pendingCount := pendingCount - 1;
          SweepDropStep(goal, before, i, c, Pendings());
        } else {
          SweepKeepStep(goal, Pendings(), i, c);
          i := i + 1;
        }
      }
      assert Pendings()[i..] == [];
    }

    method RemoveAllPendingFor(user: Name)
      requires Valid()
      modifies this`pendingCount, pending
      ensures Valid() && View() == old(View()).(pending := Sweep(old(Pendings()), NotInvolving(user)))
    {
      SweepPending(NotInvolving(user));
    }

    method ExpirePending(now: int)
      requires Valid()
      modifies this`pendingCount, pending
      ensures Valid() && View() == Expired(old(View()), now)
    {
      SweepPending(UnexpiredAt(now));
    }

    // ---------------------------------------------------------------
    // Rate limiting
    // ---------------------------------------------------------------

    method FindRecent(u: Name) returns (i: int)
      requires Valid()
      ensures if HasRecent(Recents(), u) then i == FirstRecentIndex(Recents(), u) else i == -1
    {
      i := 0;
      while i < recentCount
        invariant 0 <= i <= recentCount
        invariant forall k :: 0 <= k < i ==> recent[k].username != u
      {
        if recent[i].username == u {
          assert IsFirstRecent(Recents(), u, i);
          return;
        }
        i := i + 1;
      }
      i := -1;
    }

    method RecordChallengeTime(u: Name, now: int)
      requires Valid()
      modifies this`recentCount, recent
      ensures Valid() && View() == old(View()).(recent := Record(old(Recents()), u, now))
    {
      var i := FindRecent(u);
      if i == -1 {
        if recentCount < MAX_RECENT {
          var times: Ring := recent[recentCount].times;
          for k := 0 to RING_SIZE
            invariant forall j :: 0 <= j < k ==> times[j] == 0
          {
            times := times[k := 0];
          }
          assert times == EmptyRecord(u).times;
          recent[recentCount] := Recent(u, times, 0);
          i := recentCount;
          recentCount := recentCount + 1;
        } else {
          return;
        }
      }
      var r := recent[i];
      recent[i] := r.(times := r.times[r.idx % RING_SIZE := now], idx := r.idx + 1);
      if old(HasRecent(Recents(), u)) {
        assert Recents() == old(Recents())[i := Stamp(old(Recents())[i], now)];
      } else {
        assert Recents() == old(Recents()) + [Stamp(EmptyRecord(u), now)];
      }
    }

    method IsRateLimited(u: Name, now: int) returns (limited: bool)
      requires Valid()
      ensures limited == RateLimited(Recents(), u, now)
    {
      var i := FindRecent(u);
      if i == -1 {
        return false;
      }
      var times := recent[i].times;
      var cnt := 0;
      for k := 0 to RING_SIZE
        invariant cnt == Hits(times[..k], now)
      {
        HitsSnoc(times[..k], times[k], now);
        assert times[..k + 1] == times[..k] + [times[k]];
        if times[k] != 0 && now - times[k] <= RATE_LIMIT_WINDOW {
          cnt := cnt + 1;
        }
      }
      assert times[..RING_SIZE] == times;
      limited := cnt >= RATE_LIMIT_COUNT;
    }

    // ---------------------------------------------------------------
    // Handlers
    // ---------------------------------------------------------------

    method ListPlayers(st: Client) returns (out: seq<Send>)
      requires Valid()
      ensures out == [Send(st.sock, ListReply(View(), st.View()))]
    {
      if !st.loggedIn {
        return [Send(st.sock, LIST_FAIL_NOT_LOGGED)];
      }
      if onlineCount == 0 {
        return [Send(st.sock, PLAYER_LIST_EMPTY)];
      }
      var buf := "";
      for i := 0 to onlineCount
        invariant buf == ListBuf(Usernames(online[..i]))
      {
        assert online[..i + 1][..i] == online[..i];
        if |buf| > 0 {
          buf := Strncat(buf, ",");
        }
        buf := Strncat(buf, online[i].username);
      }
      out := [Send(st.sock, Snprintf(PLAYER_LIST_HEAD + buf + PLAYER_LIST_TAIL, LIST_BUFFER))];
    }

    method HandleChallenge(st: Client, target: Name, now: int, deliveryFails: bool) returns (out: seq<Send>)
      requires Valid()
      modifies this`pendingCount, pending, this`recentCount, recent
      ensures Valid() && Step(View(), st.View(), out) == Handlers.Challenge(old(View()), st.View(), target, now, deliveryFails)
    {
      if !st.loggedIn {
        return [Send(st.sock, CHALLENGE_FAIL_NOT_LOGGED)];
      }
      if |target| == 0 {
        return [Send(st.sock, CHALLENGE_FAIL_USER_NOT_FOUND)];
      }
      ExpirePending(now);
      if st.username == target {
        return [Send(st.sock, CHALLENGE_FAIL_SELF)];
      }
      var idx := FindOnlineIndex(target);
      if idx == -1 {
        return [Send(st.sock, CHALLENGE_FAIL_USER_NOT_FOUND)];
      }
      if online[idx].inMatch {
        return [Send(st.sock, CHALLENGE_FAIL_USER_BUSY)];
      }
      var targetSock := online[idx].sock;
      var targetElo := online[idx].elo;
      var fromElo := EloOf(users, st.username);
      if Abs(fromElo - targetElo) > LEVEL_GAP_THRESHOLD {
        return [Send(st.sock, CHALLENGE_FAIL_LEVELGAP)];
      }
      var limited := IsRateLimited(st.username, now);
      if limited {
        return [Send(st.sock, CHALLENGE_FAIL_RATE)];
      }
      RecordChallengeTime(st.username, now);
      AddPending(st.username, target, now);
      if deliveryFails {
        RemovePending(st.username, target);
        return [Send(st.sock, CHALLENGE_FAIL_OFFLINE)];
      }
      out := [Send(targetSock, ChallengeRequest(st.username)), Send(st.sock, CHALLENGE_SENT)];
    }

    method HandleAccept(st: Client, from: Name, now: int, later: int) returns (out: seq<Send>)
      requires Valid()
      modifies online, this`pendingCount, pending, st`inMatch
      ensures Valid() && Step(View(), st.View(), out) == Handlers.Accept(old(View()), old(st.View()), from, now, later)
    {
      if !st.loggedIn {
        return [Send(st.sock, SESSION_NOT_FOUND)];
      }
      ExpirePending(now);
      if st.inMatch {
        return [Send(st.sock, ALREADY_IN_MATCH)];
      }
      var has := HasPending(from, st.username);
      if !has {
        return [Send(st.sock, MATCH_FAIL_PLAYER_UNAVAILABLE)];
      }
      var idx := FindOnlineIndex(from);
      if idx == -1 || online[idx].inMatch {
        RemovePending(from, st.username);
        return [Send(st.sock, MATCH_FAIL_PLAYER_UNAVAILABLE)];
      }
      out := StartMatch(st, from, idx, later);
    }

    /** handle_challenge_accept past its checks: `idx` is the proposer's registry entry. */
    method StartMatch(st: Client, from: Name, idx: int, later: int) returns (out: seq<Send>)
      requires Valid() && IsOnline(Online(), from) && idx == FirstUserIndex(Online(), from)
      requires HasPair(Pendings(), from, st.username)
      modifies online, this`pendingCount, pending, st`inMatch
      ensures Valid() && Step(View(), st.View(), out) == Handlers.StartMatch(old(View()), old(st.View()), from, later)
    {
      var fromSock := online[idx].sock;
      MarkInMatch(st.username, from);
      st.inMatch := true;
      var pidx := FindPendingIndex(from, st.username);
      if pidx == -1 {
        assert false;
        return [];
      }
      var ts := pending[pidx].ts;
      RemovePending(from, st.username);
      if later - ts > CHALLENGE_TIMEOUT {
        return [Send(st.sock, CHALLENGE_FAIL_EXPIRED)];
      }
      out := [Send(st.sock, CHALLENGE_ACCEPTED),
              Send(fromSock, AcceptedFrom(st.username)),
              Send(st.sock, MatchBegun(st.username, from)),
              Send(fromSock, MatchBegun(from, st.username))];
    }

    method HandleDecline(st: Client, from: Name, now: int) returns (out: seq<Send>)
      requires Valid()
      modifies this`pendingCount, pending
      ensures Valid() && Step(View(), st.View(), out) == Handlers.Decline(old(View()), st.View(), from, now)
    {
      if !st.loggedIn {
        return [Send(st.sock, SESSION_NOT_FOUND)];
      }
      ExpirePending(now);
      var has := HasPending(from, st.username);
      if !has {
        return [Send(st.sock, MATCH_FAIL_PLAYER_UNAVAILABLE)];
      }
      var idx := FindOnlineIndex(from);
      var fromSock := -1;
      if idx >= 0 {
        fromSock := online[idx].sock;
      }
      RemovePending(from, st.username);
      out := [Send(st.sock, CHALLENGE_DECLINED)];
      if fromSock >= 0 {
        out := out + [Send(fromSock, DeclinedFrom(st.username))];
      }
    }

    /** do_logout. */
    method DoLogout(st: Client) returns (out: seq<Send>)
      requires Valid()
      modifies this`onlineCount, online, this`pendingCount, pending, st`loggedIn, st`username, st`inMatch
      ensures Valid() && Step(View(), st.View(), out) == Handlers.Logout(old(View()), old(st.View()))
    {
      if !st.loggedIn {
        return [Send(st.sock, SESSION_NOT_FOUND)];
      }
      RemoveOnline(st.username);
      RemoveAllPendingFor(st.username);
      st.loggedIn := false;
      st.username := "";
      st.inMatch := false;
      out := [Send(st.sock, LOGOUT_OK)];
    }

    /** What client_thread does when the connection closes. */
    method Disconnect(st: Client)
      requires Valid()
      modifies this`onlineCount, online, this`pendingCount, pending
      ensures Valid() && View() == Handlers.Disconnect(old(View()), st.View())
    {
      if st.loggedIn {
        RemoveOnline(st.username);
        RemoveAllPendingFor(st.username);
      }
    }

    /** The REGISTER branch of handle_line once the credentials are scanned; `storeFails`
        stands for register_user_file failing to open the users file. */
    method HandleRegister(st: Client, creds: Option<Creds>, storeFails: bool) returns (out: seq<Send>)
      requires Valid()
      modifies this`users
      ensures Valid() && Step(View(), st.View(), out) == Handlers.Register(old(View()), st.View(), creds, storeFails)
    {
      var sock := st.sock;
      if creds.None? {
        return [Send(st.sock, REGISTER_FAIL_EMPTY)];
      }
      var u := TrimmedCrlf(creds.value.username);
      var p := TrimmedCrlf(creds.value.password);
      if |u| == 0 || |p| == 0 {
        return [Send(st.sock, REGISTER_FAIL_EMPTY)];
      }
      var ok := CheckUsername(u);
      if !ok {
        return [Send(st.sock, REGISTER_FAIL_INVALID)];
      }
      if |p| < 1 {
        return [Send(sock, REGISTER_FAIL_WEAK)];
      }
      if u in users {
        return [Send(st.sock, REGISTER_FAIL_EXISTS)];
      }
      if storeFails {
        return [Send(st.sock, SERVER_ERROR)];
      }
      users := users[u := Account(p, DEFAULT_ELO)];
      out := [Send(st.sock, REGISTER_OK)];
    }

    /** The LOGIN branch of handle_line once the credentials are scanned. */
    method HandleLogin(st: Client, creds: Option<Creds>) returns (out: seq<Send>)
      requires Valid()
      modifies this`onlineCount, online, st`loggedIn, st`username, st`inMatch
      ensures Valid() && Step(View(), st.View(), out) == Handlers.Login(old(View()), old(st.View()), creds)
    {
      if creds.None? {
        return [Send(st.sock, LOGIN_FAIL_USERNAME)];
      }
      var u := TrimmedCrlf(creds.value.username);
      var p := TrimmedCrlf(creds.value.password);
      if |u| == 0 || |p| == 0 {
        return [Send(st.sock, LOGIN_FAIL_EMPTY)];
      }
      if u !in users {
        return [Send(st.sock, LOGIN_FAIL_USERNAME)];
      }
      if users[u].password != p {
        return [Send(st.sock, LOGIN_FAIL_PASSWORD)];
      }
      var already := IsOnlineUser(u);
      if already {
        return [Send(st.sock, LOGIN_FAIL_ALREADY)];
      }
      out := [Send(st.sock, LOGIN_OK)];
      st.loggedIn := true;
      st.username := u;
      st.inMatch := false;
      AddOnline(u, st.sock, users[u].elo);
    }

    /** The handler a routed command runs. */
    method Dispatch(st: Client, c: Command, env: Env) returns (out: seq<Send>)
      requires Valid()
      modifies this`onlineCount, online, this`pendingCount, pending, this`recentCount, recent, this`users
      modifies st`loggedIn, st`username, st`inMatch
      ensures Valid() && Step(View(), st.View(), out) == Handlers.Dispatch(old(View()), old(st.View()), c, env)
    {
      match c
      case Info(text) => out := [Send(st.sock, text)];
      case Logout => out := DoLogout(st);
      case ListPlayers => out := ListPlayers(st);
      case Register(creds) => out := HandleRegister(st, creds, env.storeFails);
      case Login(creds) => out := HandleLogin(st, creds);
      case Challenge(target) => out := HandleChallenge(st, target, env.now, env.deliveryFails);
      case Accept(from) => out := HandleAccept(st, from, env.now, env.later);
      case Decline(from) => out := HandleDecline(st, from, env.now);
      case Unknown => out := [Send(st.sock, SERVER_ERROR)];
    }

    /** handle_line: copy the command, route it, run the handler. */
    method HandleLine(st: Client, line: string, env: Env) returns (out: seq<Send>)
      requires Valid()
      modifies this`onlineCount, online, this`pendingCount, pending, this`recentCount, recent, this`users
      modifies st`loggedIn, st`username, st`inMatch
      ensures Valid() && Step(View(), st.View(), out) == Handlers.HandleLine(old(View()), old(st.View()), line, env)
    {
      var cmd := CopyCommand(line);
      out := Dispatch(st, Route(cmd), env);
    }
  }
}
