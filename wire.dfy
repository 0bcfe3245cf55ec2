/** The text side of the protocol: reply lines, the C library string routines the
    dispatcher relies on (strncasecmp, sscanf with %Ns, snprintf, strlen), the
    routing of a command line to a handler, trim_crlf and CRLF framing. */
module Wire {
  import opened Tables

  datatype Option<T> = None | Some(value: T)

  // ------------------------------------------------------------------
  // Reply lines
  // ------------------------------------------------------------------

  const LOGIN_OK := "110 LOGIN_OK\r\n"
  const REGISTER_OK := "120 REGISTER_OK\r\n"
  const LOGIN_FAIL_USERNAME := "220 LOGIN_FAIL wrong_username\r\n"
  const LOGIN_FAIL_PASSWORD := "220 LOGIN_FAIL wrong_password\r\n"
  const LOGIN_FAIL_EMPTY := "221 LOGIN_FAIL empty_field\r\n"
  const LOGIN_FAIL_ALREADY := "222 LOGIN_FAIL already_logged_in\r\n"
  const REGISTER_FAIL_EXISTS := "221 REGISTER_FAIL user_exists\r\n"
  const REGISTER_FAIL_EMPTY := "222 REGISTER_FAIL empty_field\r\n"
  const REGISTER_FAIL_WEAK := "223 REGISTER_FAIL weak_password\r\n"
  const REGISTER_FAIL_INVALID := "224 REGISTER_FAIL invalid_username\r\n"
  const LIST_FAIL_NOT_LOGGED := "221 LIST_FAIL not_logged_in\r\n"
  const PLAYER_LIST_EMPTY := "101 PLAYER_LIST []\r\n"
  /** The text before and after the %s of "100 PLAYER_LIST [%s]\r\n". */
  const PLAYER_LIST_HEAD := "100 PLAYER_LIST ["
  const PLAYER_LIST_TAIL := "]\r\n"
  const CHALLENGE_FAIL_NOT_LOGGED := "221 CHALLENGE_FAIL not_logged_in\r\n"
  const CHALLENGE_SENT := "130 CHALLENGE_SENT\r\n"
  const CHALLENGE_DECLINED := "133 CHALLENGE_DECLINED\r\n"
  const CHALLENGE_ACCEPTED := "132 CHALLENGE_ACCEPTED\r\n"
  const CHALLENGE_FAIL_USER_NOT_FOUND := "231 CHALLENGE_FAIL user_not_found\r\n"
  const CHALLENGE_FAIL_USER_BUSY := "232 CHALLENGE_FAIL user_busy\r\n"
  const CHALLENGE_FAIL_SELF := "234 CHALLENGE_FAIL self_challenge\r\n"
  const CHALLENGE_FAIL_RATE := "236 CHALLENGE_FAIL rate_limited\r\n"
  const CHALLENGE_FAIL_OFFLINE := "237 CHALLENGE_FAIL offline_target\r\n"
  const CHALLENGE_FAIL_EXPIRED := "238 CHALLENGE_FAIL expired_request\r\n"
  const CHALLENGE_FAIL_LEVELGAP := "233 CHALLENGE_FAIL level_gap_too_large\r\n"
  const LOGOUT_OK := "140 LOGOUT_OK\r\n"
  const SESSION_NOT_FOUND := "301 SESSION_NOT_FOUND\r\n"
  const ALREADY_IN_MATCH := "304 ALREADY_IN_MATCH\r\n"
  const MATCH_FAIL_PLAYER_UNAVAILABLE := "341 MATCH_FAIL player_unavailable\r\n"
  const SERVER_ERROR := "500 SERVER_ERROR\r\n"
  const INFO_REGISTER := "INFO: Please type REGISTER username <user> password <pass>\r\n"
  const INFO_LOGIN := "INFO: Please type LOGIN username <user> password <pass>\r\n"
  const INFO_CHALLENGE := "INFO: Use CHALLENGE to <player>\r\n"
  const INFO_EXIT := "INFO: Exiting...\r\n"

  /** Size of the buffers the peer notifications are formatted into. */
  const NOTE_BUFFER: nat := 256
  /** Size of the player-list buffers. */
  const LIST_BUFFER: nat := 4096

  function ChallengeRequest(from: Name): string {
    Snprintf("131 CHALLENGE_REQUEST from " + from + "\r\n", NOTE_BUFFER)
  }

  function AcceptedFrom(acceptor: Name): string {
    Snprintf("132 CHALLENGE_ACCEPTED from " + acceptor + "\r\n", NOTE_BUFFER)
  }

  function DeclinedFrom(decliner: Name): string {
    Snprintf("133 CHALLENGE_DECLINED from " + decliner + "\r\n", NOTE_BUFFER)
  }

  function MatchBegun(a: Name, b: Name): string {
    Snprintf("MATCH between " + a + " and " + b + " has begun\r\n", NOTE_BUFFER)
  }

  // ------------------------------------------------------------------
  // C strings and characters
  // ------------------------------------------------------------------

  /** snprintf into a buffer of `size` bytes: at most size - 1 characters survive. */
  function Snprintf(s: string, size: nat): (r: string)
    requires size > 0
    ensures r <= s && |r| < size
    ensures |s| < size ==> r == s
  {
    if |s| < size then s else s[..size - 1]
  }

  /** What strlen sees: the characters before the first NUL. */
  function CPrefix(s: string): (r: string)
    ensures r <= s && '\0' !in r
    ensures |r| < |s| ==> s[|r|] == '\0'
  {
    if |s| == 0 || s[0] == '\0' then [] else [s[0]] + CPrefix(s[1..])
  }

  /** strlen of a concatenation: it stops in the first part if that holds a NUL. */
  lemma {:induction false} CPrefixConcat(a: string, b: string)
    ensures CPrefix(a + b) == if '\0' in a then CPrefix(a) else a + CPrefix(b)
  {
    if |a| == 0 {
      assert a + b == b;
    } else if a[0] == '\0' {
      assert (a + b)[0] == '\0';
    } else {
      assert (a + b)[0] == a[0] && (a + b)[1..] == a[1..] + b;
      assert CPrefix(a + b) == [a[0]] + CPrefix(a[1..] + b);
      assert CPrefix(a) == [a[0]] + CPrefix(a[1..]);
      assert '\0' in a <==> '\0' in a[1..];
      CPrefixConcat(a[1..], b);
      assert a == [a[0]] + a[1..];
    }
  }

  /** A NUL at n with none before it ends the C string there. */
  lemma CPrefixAt(s: string, n: nat)
    requires n < |s| && s[n] == '\0' && '\0' !in s[..n]
    ensures CPrefix(s) == s[..n]
  {
    assert s == s[..n] + s[n..];
    CPrefixConcat(s[..n], s[n..]);
  }

  /** A NUL written right after `b` ends the C string no later than `b` does. */
  lemma CPrefixTerminated(s: string, b: string)
    requires |b| < |s| && s[..|b|] == b && s[|b|] == '\0'
    ensures CPrefix(s) == CPrefix(b)
  {
    assert s == b + s[|b|..];
    CPrefixConcat(b, s[|b|..]);
    CPrefixConcat(b, []);
    assert b + [] == b;
  }

  predicate IsCrLf(c: char) { c == '\r' || c == '\n' }

  /** isspace in the C locale: space, \t, \n, \v, \f, \r. */
  predicate IsSpace(c: char) { c == ' ' || '\t' <= c <= '\r' }

  /** isalnum in the C locale. */
  predicate IsAlnum(c: char) { 'a' <= c <= 'z' || 'A' <= c <= 'Z' || '0' <= c <= '9' }

  /** The characters REGISTER accepts in a username. */
  predicate IsNameChar(c: char) { IsAlnum(c) || c == '_' || c == '-' }

  predicate ValidUsername(u: string) { forall k :: 0 <= k < |u| ==> IsNameChar(u[k]) }

  function Lower(c: char): char {
    if 'A' <= c <= 'Z' then (c as int + 32) as char else c
  }

  /** strncasecmp(s, kw, |kw|) == 0 on a NUL-free `s`. */
  predicate StartsWithCI(s: string, kw: string) {
    |s| >= |kw| && forall k :: 0 <= k < |kw| ==> Lower(s[k]) == Lower(kw[k])
  }

  /** A case-insensitive prefix test also passes for every shorter keyword that is a prefix. */
  lemma StartsWithCIPrefix(s: string, kw: string, shorter: string)
    requires StartsWithCI(s, kw) && shorter <= kw
    ensures StartsWithCI(s, shorter)
  {
    forall k | 0 <= k < |shorter| ensures Lower(s[k]) == Lower(shorter[k]) {
      assert shorter[k] == kw[k];
    }
  }

  // ------------------------------------------------------------------
  // trim_crlf
  // ------------------------------------------------------------------

  /** `s` without its trailing run of CR and LF characters. */
  function TrimmedCrlf(s: string): string {
    if |s| > 0 && IsCrLf(s[|s| - 1]) then TrimmedCrlf(s[..|s| - 1]) else s
  }

  /** trim_crlf keeps the longest prefix that does not end in CR or LF and drops only CR and LF. */
  lemma {:induction false} TrimmedCrlfSpec(s: string)
    ensures TrimmedCrlf(s) <= s
    ensures forall k :: |TrimmedCrlf(s)| <= k < |s| ==> IsCrLf(s[k])
    ensures |TrimmedCrlf(s)| == 0 || !IsCrLf(TrimmedCrlf(s)[|TrimmedCrlf(s)| - 1])
  {
    if |s| > 0 && IsCrLf(s[|s| - 1]) {
      TrimmedCrlfSpec(s[..|s| - 1]);
      forall k | |TrimmedCrlf(s)| <= k < |s| ensures IsCrLf(s[k]) {
        if k < |s| - 1 { assert s[..|s| - 1][k] == s[k]; }
      }
    }
  }

  // ------------------------------------------------------------------
  // sscanf
  // ------------------------------------------------------------------

  /** One directive of a scanf format: an ordinary character, a run of white space,
      or %Ns (skip white space, then read 1 to N non-white characters). */
  datatype Directive = Lit(c: char) | Blank | Conv(width: nat)

  function Literal(w: string): seq<Directive> {
    if |w| == 0 then [] else [Lit(w[0])] + Literal(w[1..])
  }

  function SkipSpace(s: string): string {
    if |s| > 0 && IsSpace(s[0]) then SkipSpace(s[1..]) else s
  }

  /** Length of the leading run of non-white characters of `s`, capped at `width`. */
  function TokenLength(s: string, width: nat): (n: nat)
    ensures n <= |s| && n <= width
    ensures forall k :: 0 <= k < n ==> !IsSpace(s[k])
  {
    if width == 0 || |s| == 0 || IsSpace(s[0]) then 0 else 1 + TokenLength(s[1..], width - 1)
  }

  /** The strings sscanf stores, in order; their number is sscanf's return value
      whenever that is positive (the dispatcher only compares it against 1, 2 and 4). */
  function Scan(input: string, fmt: seq<Directive>): seq<string>
    decreases |fmt|
  {
    if |fmt| == 0 then []
    else match fmt[0]
      case Blank => Scan(SkipSpace(input), fmt[1..])
      case Lit(c) => if |input| > 0 && input[0] == c then Scan(input[1..], fmt[1..]) else []
      case Conv(w) =>
        var t := SkipSpace(input);
        var n := TokenLength(t, w);
        if n == 0 then [] else [t[..n]] + Scan(t[n..], fmt[1..])
  }

  /** Every stored string is a nonempty run of non-white characters. */
  lemma {:induction false} ScanTokens(input: string, fmt: seq<Directive>)
    ensures forall k :: 0 <= k < |Scan(input, fmt)| ==>
      |Scan(input, fmt)[k]| > 0 && forall j :: 0 <= j < |Scan(input, fmt)[k]| ==> !IsSpace(Scan(input, fmt)[k][j])
    decreases |fmt|
  {
    if |fmt| > 0 {
      match fmt[0]
      case Blank => ScanTokens(SkipSpace(input), fmt[1..]);
      case Lit(c) => if |input| > 0 && input[0] == c { ScanTokens(input[1..], fmt[1..]); }
      case Conv(w) =>
        var t := SkipSpace(input);
        var n := TokenLength(t, w);
        if n > 0 { ScanTokens(t[n..], fmt[1..]); }
    }
  }

  predicate NoSpace(w: string) { forall k :: 0 <= k < |w| ==> !IsSpace(w[k]) }

  /** A literal directive run consumes exactly its own text. */
  lemma {:induction false} ScanLiteral(w: string, input: string, rest: seq<Directive>)
    ensures Scan(w + input, Literal(w) + rest) == Scan(input, rest)
  {
    if |w| > 0 {
      assert Literal(w) + rest == [Lit(w[0])] + (Literal(w[1..]) + rest);
      assert (w + input)[1..] == w[1..] + input;
      ScanLiteral(w[1..], input, rest);
    } else {
      assert w + input == input;
      assert Literal(w) + rest == rest;
    }
  }

  lemma {:induction false} SkipSpaceOver(pre: string, s: string)
    requires forall k :: 0 <= k < |pre| ==> IsSpace(pre[k])
    requires |s| == 0 || !IsSpace(s[0])
    ensures SkipSpace(pre + s) == s
  {
    if |pre| > 0 {
      assert (pre + s)[1..] == pre[1..] + s;
      SkipSpaceOver(pre[1..], s);
    } else {
      assert pre + s == s;
    }
  }

  lemma {:induction false} TokenLengthOf(w: string, rest: string, width: nat)
    requires NoSpace(w) && |w| <= width
    requires |rest| == 0 || IsSpace(rest[0])
    ensures TokenLength(w + rest, width) == |w|
  {
    if |w| > 0 {
      assert (w + rest)[1..] == w[1..] + rest;
      TokenLengthOf(w[1..], rest, width - 1);
    } else {
      assert w + rest == rest;
    }
  }

  /** A %Ns directive at a word of at most N characters stores exactly that word. */
  lemma ScanConv(w: string, rest: string, width: nat, fmt: seq<Directive>)
    requires |w| > 0 && NoSpace(w) && |w| <= width
    requires |rest| == 0 || IsSpace(rest[0])
    ensures Scan(w + rest, [Conv(width)] + fmt) == [w] + Scan(rest, fmt)
  {
    var t := w + rest;
    var f := [Conv(width)] + fmt;
    assert f[0] == Conv(width) && f[1..] == fmt;
    assert t[0] == w[0];
    assert SkipSpace(t) == t;
    TokenLengthOf(w, rest, width);
    assert t[..|w|] == w && t[|w|..] == rest;
  }

  /** A white-space directive skips exactly the leading white space. */
  lemma ScanBlank(pre: string, s: string, fmt: seq<Directive>)
    requires forall k :: 0 <= k < |pre| ==> IsSpace(pre[k])
    requires |s| == 0 || !IsSpace(s[0])
    ensures Scan(pre + s, [Blank] + fmt) == Scan(s, fmt)
  {
    var f := [Blank] + fmt;
    assert f[0] == Blank && f[1..] == fmt;
    SkipSpaceOver(pre, s);
  }

  /** " %Ns" reads the word after one space. */
  lemma ScanBlankWord(w: string, rest: string, width: nat, fmt: seq<Directive>)
    requires |w| > 0 && NoSpace(w) && |w| <= width
    requires |rest| == 0 || IsSpace(rest[0])
    ensures Scan(" " + (w + rest), [Blank] + ([Conv(width)] + fmt)) == [w] + Scan(rest, fmt)
  {
    assert (w + rest)[0] == w[0];
    ScanBlank(" ", w + rest, [Conv(width)] + fmt);
    ScanConv(w, rest, width, fmt);
  }

  // ------------------------------------------------------------------
  // Routing (handle_line's if-chain)
  // ------------------------------------------------------------------

  datatype Creds = Creds(username: string, password: string)

  /** The handler a command line reaches, with the arguments sscanf extracted. */
  datatype Command =
    | Info(text: string)
    | Logout
    | ListPlayers
    | Register(creds: Option<Creds>)
    | Login(creds: Option<Creds>)
    | Challenge(target: Name)
    | Accept(from: Name)
    | Decline(from: Name)
    | Unknown

  /** "<KW> %31s %127s %31s %127s" */
  function LongForm(kw: string): seq<Directive> {
    Literal(kw) + [Blank, Conv(31), Blank, Conv(127), Blank, Conv(31), Blank, Conv(127)]
  }

  /** "<KW> %127s %127s" */
  function ShortForm(kw: string): seq<Directive> {
    Literal(kw) + [Blank, Conv(127), Blank, Conv(127)]
  }

  /** "<KW> <word> %127s" */
  function KeywordForm(kw: string, word: string): seq<Directive> {
    Literal(kw) + ([Blank] + (Literal(word) + [Blank, Conv(127)]))
  }

  /** "<KW> %127s" */
  function OneArgForm(kw: string): seq<Directive> {
    Literal(kw) + [Blank, Conv(127)]
  }

  /** REGISTER/LOGIN argument parsing: the "username U password P" form first, then "U P". */
  function Credentials(cmd: string, kw: string): Option<Creds> {
    var long := Scan(cmd, LongForm(kw));
    if |long| == 4 && long[0] == "username" && long[2] == "password" then Some(Creds(long[1], long[3]))
    else
      var short := Scan(cmd, ShortForm(kw));
      if |short| == 2 then Some(Creds(short[0], short[1])) else None
  }

  function ChallengeTarget(cmd: string): Option<Name> {
    var a := Scan(cmd, KeywordForm("CHALLENGE", "to"));
    if |a| == 1 then Some(a[0])
    else
      var b := Scan(cmd, OneArgForm("CHALLENGE"));
      if |b| == 1 then Some(b[0]) else None
  }

  function FromArgument(cmd: string, kw: string): Option<Name> {
    var a := Scan(cmd, KeywordForm(kw, "from"));
    if |a| == 1 then Some(a[0]) else None
  }

  /** The branches of handle_line's if-chain. */
  datatype Branch =
    | MenuDigit(d: char)
    | RegisterKw | LoginKw | ListKw | ChallengeKw | AcceptKw | LogoutKw | DeclineKw
    | NoBranch

  /** The branch a command takes: the menu choices "1" to "6" by exact match (strcmp), then the
      keywords by case-insensitive prefix (strncasecmp), in the source's order. */
  function BranchOf(cmd: string): Branch {
    if |cmd| == 1 && '1' <= cmd[0] <= '6' then MenuDigit(cmd[0])
    else if StartsWithCI(cmd, "REGISTER") then RegisterKw
    else if StartsWithCI(cmd, "LOGIN") then LoginKw
    else if StartsWithCI(cmd, "LIST_PLAYERS") then ListKw
    else if StartsWithCI(cmd, "CHALLENGE") then ChallengeKw
    else if StartsWithCI(cmd, "CHALLENGE_ACCEPT") then AcceptKw
    else if StartsWithCI(cmd, "LOGOUT") then LogoutKw
    else if StartsWithCI(cmd, "CHALLENGE_DECLINE") then DeclineKw
    else NoBranch
  }

  /** The handler a command reaches, with the arguments its branch's sscanf extracts. */
  function Route(cmd: string): Command {
    match BranchOf(cmd)
    case MenuDigit(d) =>
      if d == '1' then Info(INFO_REGISTER)
      else if d == '2' then Info(INFO_LOGIN)
      else if d == '3' then Logout
      else if d == '4' then ListPlayers
      else if d == '5' then Info(INFO_CHALLENGE)
      else Info(INFO_EXIT)
    case RegisterKw => Register(Credentials(cmd, "REGISTER"))
    case LoginKw => Login(Credentials(cmd, "LOGIN"))
    case ListKw => ListPlayers
    case ChallengeKw => (match ChallengeTarget(cmd) case Some(t) => Challenge(t) case None => Unknown)
    case AcceptKw => (match FromArgument(cmd, "CHALLENGE_ACCEPT") case Some(f) => Accept(f) case None => Unknown)
    case LogoutKw => Logout
    case DeclineKw => (match FromArgument(cmd, "CHALLENGE_DECLINE") case Some(f) => Decline(f) case None => Unknown)
    case NoBranch => Unknown
  }

  /** Every command line that passes the CHALLENGE_ACCEPT or CHALLENGE_DECLINE test has already
      passed the CHALLENGE test, which comes first. */
  lemma AcceptAndDeclineBranchesDead(cmd: string)
    ensures BranchOf(cmd) != AcceptKw && BranchOf(cmd) != DeclineKw
  {
    if StartsWithCI(cmd, "CHALLENGE_ACCEPT") {
      assert "CHALLENGE" <= "CHALLENGE_ACCEPT";
      StartsWithCIPrefix(cmd, "CHALLENGE_ACCEPT", "CHALLENGE");
    }
    if StartsWithCI(cmd, "CHALLENGE_DECLINE") {
      assert "CHALLENGE" <= "CHALLENGE_DECLINE";
      StartsWithCIPrefix(cmd, "CHALLENGE_DECLINE", "CHALLENGE");
    }
  }

  /** Hence handle_challenge_accept and handle_challenge_decline are never reached. */
  lemma AcceptAndDeclineUnreachable(cmd: string)
    ensures !Route(cmd).Accept? && !Route(cmd).Decline?
  {
    AcceptAndDeclineBranchesDead(cmd);
  }

  /** Keyword tests that fail on the first character. */
  lemma NotEarlierKeywords(cmd: string)
    requires |cmd| > 0 && (cmd[0] == 'C' || cmd[0] == 'c')
    ensures !StartsWithCI(cmd, "REGISTER") && !StartsWithCI(cmd, "LOGIN") && !StartsWithCI(cmd, "LIST_PLAYERS")
  {
    assert Lower(cmd[0]) != Lower("REGISTER"[0]);
    assert Lower(cmd[0]) != Lower("LOGIN"[0]);
    assert Lower(cmd[0]) != Lower("LIST_PLAYERS"[0]);
  }

  /** A line that passes the CHALLENGE test is decided by ChallengeTarget. */
  lemma RouteChallengeBranch(cmd: string)
    requires StartsWithCI(cmd, "CHALLENGE")
    ensures Route(cmd) == match ChallengeTarget(cmd) case Some(t) => Challenge(t) case None => Unknown
  {
    ChallengeBranchTaken(cmd);
    RouteOnChallengeBranch(cmd);
  }

  lemma RouteOnChallengeBranch(cmd: string)
    requires BranchOf(cmd) == ChallengeKw
    ensures Route(cmd) == match ChallengeTarget(cmd) case Some(t) => Challenge(t) case None => Unknown
  {
  }

  lemma ChallengeBranchTaken(cmd: string)
    requires StartsWithCI(cmd, "CHALLENGE")
    ensures BranchOf(cmd) == ChallengeKw
  {
    assert Lower(cmd[0]) == Lower("CHALLENGE"[0]);
    NotEarlierKeywords(cmd);
  }

  /** An exact prefix passes the case-insensitive test. */
  lemma StartsWithExact(kw: string, t: string)
    ensures StartsWithCI(kw + t, kw)
  {
    forall k | 0 <= k < |kw| ensures Lower((kw + t)[k]) == Lower(kw[k]) {
      assert (kw + t)[k] == kw[k];
    }
  }

  /** The "to %127s" tail of the first CHALLENGE format, on a word that starts with "to". */
  lemma ScanToMatch(m: string)
    requires |m| <= 127 && NoSpace(m)
    ensures Scan("to" + m, Literal("to") + [Blank, Conv(127)]) == if |m| > 0 then [m] else []
  {
    ScanLiteral("to", m, [Blank, Conv(127)]);
    if |m| > 0 {
      assert [Blank, Conv(127)] == [Blank] + ([Conv(127)] + []);
      ScanBlank("", m + "", [Conv(127)] + []);
      assert "" + (m + "") == m + "" == m;
      ScanConv(m, "", 127, []);
    } else {
      assert Scan(m, [Blank, Conv(127)]) == Scan(m, [Conv(127)]);
    }
  }

  /** ... and on a word that does not. */
  lemma ScanToMiss(n: string)
    requires 0 < |n| && !(|n| >= 2 && n[..2] == "to")
    ensures Scan(n, Literal("to") + [Blank, Conv(127)]) == []
  {
    var f := Literal("to") + [Blank, Conv(127)];
    assert f == [Lit('t'), Lit('o'), Blank, Conv(127)];
    if n[0] == 't' {
      assert |n| == 1 || n[1] != 'o' by {
        if |n| >= 2 { assert n[..2] == [n[0], n[1]]; }
      }
      assert Scan(n, f) == Scan(n[1..], f[1..]);
    }
  }

  lemma ScanTo(n: string)
    requires 0 < |n| <= 127 && NoSpace(n)
    ensures Scan(n, Literal("to") + [Blank, Conv(127)]) == if |n| > 2 && n[..2] == "to" then [n[2..]] else []
  {
    if |n| >= 2 && n[..2] == "to" {
      var m := n[2..];
      assert n == "to" + m;
      assert NoSpace(m) by { forall k | 0 <= k < |m| ensures !IsSpace(m[k]) { assert m[k] == n[k + 2]; } }
      ScanToMatch(m);
    } else {
      ScanToMiss(n);
    }
  }

  /** With a space and one word after the keyword: the "to" form is tried first and its
      literal "to" also matches the start of a name. */
  lemma ChallengeTargetSpaced(n: string)
    requires 0 < |n| <= 127 && NoSpace(n)
    ensures ChallengeTarget("CHALLENGE" + (" " + n)) == Some(if |n| > 2 && n[..2] == "to" then n[2..] else n)
  {
    var cmd := "CHALLENGE" + (" " + n);
    var tf := [Blank] + (Literal("to") + [Blank, Conv(127)]);
    ScanLiteral("CHALLENGE", " " + n, tf);
    ScanBlank(" ", n, Literal("to") + [Blank, Conv(127)]);
    ScanTo(n);
    ScanLiteral("CHALLENGE", " " + n, [Blank, Conv(127)]);
    assert [Blank, Conv(127)] == [Blank] + ([Conv(127)] + []);
    ScanBlankWord(n, "", 127, []);
    assert n + "" == n;
  }

  /** "CHALLENGE n" for a one-word argument n: "CHALLENGE tom" targets "m". */
  lemma ChallengeLineTarget(n: string)
    requires 0 < |n| <= 127 && NoSpace(n)
    ensures Route("CHALLENGE " + n) == Challenge(if |n| > 2 && n[..2] == "to" then n[2..] else n)
  {
    assert "CHALLENGE " + n == "CHALLENGE" + (" " + n);
    StartsWithExact("CHALLENGE", " " + n);
    RouteChallengeBranch("CHALLENGE" + (" " + n));
    ChallengeTargetSpaced(n);
  }

  /** A word glued to the keyword, not starting with t, is the target of the one-argument form. */
  lemma ChallengeTargetGlued(w: string, rest: string)
    requires 0 < |w| <= 127 && NoSpace(w) && w[0] != 't'
    requires |rest| == 0 || IsSpace(rest[0])
    ensures ChallengeTarget("CHALLENGE" + (w + rest)) == Some(w)
  {
    var tail := w + rest;
    assert tail[0] == w[0];
    var tf := [Blank] + (Literal("to") + [Blank, Conv(127)]);
    ScanLiteral("CHALLENGE", tail, tf);
    ScanBlank("", tail, Literal("to") + [Blank, Conv(127)]);
    assert "" + tail == tail;
    assert (Literal("to") + [Blank, Conv(127)])[0] == Lit('t');
    ScanLiteral("CHALLENGE", tail, [Blank, Conv(127)]);
    assert [Blank, Conv(127)] == [Blank] + ([Conv(127)] + []);
    ScanBlank("", tail, [Conv(127)] + []);
    ScanConv(w, rest, 127, []);
  }

  /** A CHALLENGE line whose argument is glued to the keyword challenges that argument. */
  lemma RouteGlued(w: string, rest: string)
    requires 0 < |w| <= 127 && NoSpace(w) && w[0] != 't'
    requires |rest| == 0 || IsSpace(rest[0])
    ensures Route("CHALLENGE" + (w + rest)) == Challenge(w)
  {
    StartsWithExact("CHALLENGE", w + rest);
    assert ("CHALLENGE" + (w + rest))[0] == 'C';
    RouteChallengeBranch("CHALLENGE" + (w + rest));
    ChallengeTargetGlued(w, rest);
  }

  /** The client's "CHALLENGE_ACCEPT from X" line reaches the CHALLENGE branch with target "_ACCEPT". */
  lemma AcceptLineIsChallenge(x: string)
    ensures Route("CHALLENGE_ACCEPT from " + x) == Challenge("_ACCEPT")
  {
    assert "CHALLENGE_ACCEPT from " + x == "CHALLENGE" + ("_ACCEPT" + (" from " + x));
    RouteGlued("_ACCEPT", " from " + x);
  }

  /** Likewise "CHALLENGE_DECLINE from X" challenges the user "_DECLINE". */
  lemma DeclineLineIsChallenge(x: string)
    ensures Route("CHALLENGE_DECLINE from " + x) == Challenge("_DECLINE")
  {
    assert "CHALLENGE_DECLINE from " + x == "CHALLENGE" + ("_DECLINE" + (" from " + x));
    RouteGlued("_DECLINE", " from " + x);
  }

  /** The keyword test ignores case but sscanf's literals do not: "challenge X" gets 500. */
  lemma LowercaseChallengeIsUnknown(x: string)
    ensures Route("challenge " + x) == Unknown
  {
    var cmd := "challenge " + x;
    forall k | 0 <= k < 9 ensures Lower(cmd[k]) == Lower("CHALLENGE"[k]) {
      assert cmd[k] == "challenge"[k];
      if k == 0 {} else if k == 1 {} else if k == 2 {} else if k == 3 {} else if k == 4 {}
      else if k == 5 {} else if k == 6 {} else if k == 7 {} else {}
    }
    RouteChallengeBranch(cmd);
    assert Literal("CHALLENGE")[0] == Lit('C');
    assert KeywordForm("CHALLENGE", "to")[0] == Lit('C');
    assert OneArgForm("CHALLENGE")[0] == Lit('C');
  }

  /** Two space-separated words, each within its conversion's width. */
  lemma ScanTwoWords(w1: string, w2: string, n1: nat, n2: nat, rest: string, fmt: seq<Directive>)
    requires 0 < |w1| <= n1 && NoSpace(w1) && 0 < |w2| <= n2 && NoSpace(w2)
    requires |rest| == 0 || IsSpace(rest[0])
    ensures Scan(" " + (w1 + (" " + (w2 + rest))), [Blank, Conv(n1), Blank, Conv(n2)] + fmt)
            == [w1, w2] + Scan(rest, fmt)
  {
    var f2 := [Blank] + ([Conv(n2)] + fmt);
    assert [Blank, Conv(n1), Blank, Conv(n2)] + fmt == [Blank] + ([Conv(n1)] + f2);
    ScanBlankWord(w2, rest, n2, fmt);
    ScanBlankWord(w1, " " + (w2 + rest), n1, f2);
  }

  /** Four space-separated words, each within its conversion's width. */
  lemma ScanFourWords(w1: string, w2: string, w3: string, w4: string)
    requires 0 < |w1| <= 31 && NoSpace(w1) && 0 < |w2| <= 127 && NoSpace(w2)
    requires 0 < |w3| <= 31 && NoSpace(w3) && 0 < |w4| <= 127 && NoSpace(w4)
    ensures Scan(" " + (w1 + (" " + (w2 + (" " + (w3 + (" " + w4)))))),
                 [Blank, Conv(31), Blank, Conv(127), Blank, Conv(31), Blank, Conv(127)])
            == [w1, w2, w3, w4]
  {
    var f := [Blank, Conv(31), Blank, Conv(127)];
    assert f + [] == f;
    ScanTwoWords(w3, w4, 31, 127, "", []);
    assert w4 + "" == w4;
    ScanTwoWords(w1, w2, 31, 127, " " + (w3 + (" " + w4)), f);
    assert f + f == [Blank, Conv(31), Blank, Conv(127), Blank, Conv(31), Blank, Conv(127)];
  }

  /** The four words after the keyword in the client's credential line. */
  lemma LongFormWords(u: string, p: string)
    requires 0 < |u| <= 127 && NoSpace(u) && 0 < |p| <= 127 && NoSpace(p)
    ensures Scan(" " + ("username" + (" " + (u + (" " + ("password" + (" " + p)))))),
                 [Blank, Conv(31), Blank, Conv(127), Blank, Conv(31), Blank, Conv(127)])
            == ["username", u, "password", p]
  {
    assert NoSpace("username") && NoSpace("password");
    ScanFourWords("username", u, "password", p);
  }

  /** A long-form match after the keyword settles the credentials. */
  lemma LongFormCreds(kw: string, r: string, u: string, p: string)
    requires Scan(r, [Blank, Conv(31), Blank, Conv(127), Blank, Conv(31), Blank, Conv(127)]) == ["username", u, "password", p]
    ensures Credentials(kw + r, kw) == Some(Creds(u, p))
  {
    ScanLiteral(kw, r, [Blank, Conv(31), Blank, Conv(127), Blank, Conv(31), Blank, Conv(127)]);
  }

  /** The client's "<KW> username U password P" line yields exactly (U, P). */
  lemma CredentialsLongForm(kw: string, u: string, p: string)
    requires 0 < |u| <= 127 && NoSpace(u) && 0 < |p| <= 127 && NoSpace(p)
    ensures Credentials(kw + " username " + u + " password " + p, kw) == Some(Creds(u, p))
  {
    CredentialLineWords(kw, u, p);
    LongFormWords(u, p);
    LongFormCreds(kw, " " + ("username" + (" " + (u + (" " + ("password" + (" " + p)))))), u, p);
  }

  /** The credential line, regrouped word by word. */
  lemma CredentialLineWords(kw: string, u: string, p: string)
    ensures kw + " username " + u + " password " + p
         == kw + (" " + ("username" + (" " + (u + (" " + ("password" + (" " + p)))))))
  {
    assert " password " + p == " " + ("password" + (" " + p));
    assert " username " + u == " " + ("username" + (" " + u));
  }

  // ------------------------------------------------------------------
  // The command text handle_line works on
  // ------------------------------------------------------------------

  /** Size of handle_line's cmd buffer, less the NUL. */
  const COMMAND_LIMIT: nat := 511

  /** The characters of `s` other than CR and LF, in order. */
  function DropLineBreaks(s: string): (r: string)
    ensures |r| <= |s|
    ensures forall k :: 0 <= k < |r| ==> !IsCrLf(r[k])
  {
    if |s| == 0 then []
    else DropLineBreaks(s[..|s| - 1]) + (if IsCrLf(s[|s| - 1]) then [] else [s[|s| - 1]])
  }

  /** The cmd buffer handle_line builds from a line: CR and LF dropped, at most 511 characters. */
  function CommandOf(line: string): string {
    var d := DropLineBreaks(CPrefix(line));
    if |d| <= COMMAND_LIMIT then d else d[..COMMAND_LIMIT]
  }

  /** Dropping line breaks from a prefix gives a prefix of the whole result. */
  lemma {:induction false} DropLineBreaksPrefix(s: string, i: nat)
    requires i <= |s|
    ensures DropLineBreaks(s[..i]) <= DropLineBreaks(s)
  {
    if i < |s| {
      DropLineBreaksPrefix(s[..|s| - 1], i);
      assert s[..|s| - 1][..i] == s[..i];
    } else {
      assert s[..i] == s;
    }
  }

  // ------------------------------------------------------------------
  // CRLF framing (client_thread's receive loop)
  // ------------------------------------------------------------------

  /** linebuf holds at most sizeof(linebuf) - 1 characters. */
  const LINE_LIMIT: nat := 4095

  /** The framer's partial line and the lines it has handed to handle_line so far. */
  datatype Framing = Framing(buf: string, lines: seq<string>)

  predicate EndsWithCrLf(b: string) {
    |b| >= 2 && b[|b| - 2] == '\r' && b[|b| - 1] == '\n'
  }

  /** One received character: store it if there is room; on a trailing CR LF, hand the
      trimmed line (if nonempty) to the dispatcher and start a new line. */
  function Advance(f: Framing, c: char): Framing {
    var b := if |f.buf| < LINE_LIMIT then f.buf + [c] else f.buf;
    if EndsWithCrLf(b) then
      var line := TrimmedCrlf(CPrefix(b));
      Framing([], if |line| > 0 then f.lines + [line] else f.lines)
    else Framing(b, f.lines)
  }

  /** Advance from a framer that has handed out no line yet. */
  lemma AdvanceEnd(b0: string, c: char)
    ensures var b := if |b0| < LINE_LIMIT then b0 + [c] else b0;
      var line := TrimmedCrlf(CPrefix(b));
      Advance(Framing(b0, []), c)
        == if !EndsWithCrLf(b) then Framing(b, [])
           else Framing([], if |line| > 0 then [line] else [])
  {
    var f := Framing(b0, []);
    var b := if |f.buf| < LINE_LIMIT then f.buf + [c] else f.buf;
    if EndsWithCrLf(b) {
      assert f.lines + [TrimmedCrlf(CPrefix(b))] == [TrimmedCrlf(CPrefix(b))];
    }
  }

  /** Feed the characters of `data`, in order, to a framer holding `buf`. */
  function Frame(buf: string, data: string): Framing
    decreases |data|
  {
    if |data| == 0 then Framing(buf, [])
    else Advance(Frame(buf, data[..|data| - 1]), data[|data| - 1])
  }

  /** Advancing two framers with the same partial line adds the same lines to both. */
  lemma AdvanceShift(f: Framing, g: Framing, prefix: seq<string>, c: char)
    requires f.buf == g.buf && f.lines == prefix + g.lines
    ensures Advance(f, c).buf == Advance(g, c).buf
    ensures Advance(f, c).lines == prefix + Advance(g, c).lines
  {
    var b := if |f.buf| < LINE_LIMIT then f.buf + [c] else f.buf;
    if EndsWithCrLf(b) {
      var line := TrimmedCrlf(CPrefix(b));
      assert (prefix + g.lines) + [line] == prefix + (g.lines + [line]);
    }
  }

  /** Feeding one more character is one more Advance. */
  lemma FrameSnocStep(buf: string, data: string, c: char)
    ensures Frame(buf, data + [c]) == Advance(Frame(buf, data), c)
  {
    assert (data + [c])[..|data|] == data;
  }

  /** How the input is split into recv chunks does not matter. */
  lemma {:induction false} FrameChunks(buf: string, a: string, b: string)
    ensures Frame(buf, a + b).buf == Frame(Frame(buf, a).buf, b).buf
    ensures Frame(buf, a + b).lines == Frame(buf, a).lines + Frame(Frame(buf, a).buf, b).lines
    decreases |b|
  {
    if |b| == 0 {
      assert a + b == a;
    } else {
      var b' := b[..|b| - 1];
      var c := b[|b| - 1];
      FrameChunks(buf, a, b');
      assert (a + b)[..|a + b| - 1] == a + b';
      assert (a + b)[|a + b| - 1] == c;
      assert Frame(buf, a + b) == Advance(Frame(buf, a + b'), c);
      assert Frame(Frame(buf, a).buf, b) == Advance(Frame(Frame(buf, a).buf, b'), c);
      AdvanceShift(Frame(buf, a + b'), Frame(Frame(buf, a).buf, b'), Frame(buf, a).lines, c);
    }
  }

  /** Once the line buffer is full without a trailing CR LF, every further character is
      dropped and no further line is ever dispatched on this connection. */
  lemma {:induction false} FullBufferWedges(buf: string, data: string)
    requires |buf| == LINE_LIMIT && !EndsWithCrLf(buf)
    ensures Frame(buf, data) == Framing(buf, [])
    decreases |data|
  {
    if |data| > 0 {
      FullBufferWedges(buf, data[..|data| - 1]);
    }
  }

  /** What handle_line can be given: nonempty, NUL-free and not ending in CR or LF. */
  predicate CleanLine(l: string) {
    |l| > 0 && (forall k :: 0 <= k < |l| ==> l[k] != '\0') && !IsCrLf(l[|l| - 1])
  }

  predicate AllClean(ls: seq<string>) {
    forall k :: 0 <= k < |ls| ==> CleanLine(ls[k])
  }

  /** The line cut from a full buffer is clean whenever it is nonempty. */
  lemma CutLineClean(b: string)
    requires |TrimmedCrlf(CPrefix(b))| > 0
    ensures CleanLine(TrimmedCrlf(CPrefix(b)))
  {
    var c := CPrefix(b);
    TrimmedCrlfSpec(c);
    var l := TrimmedCrlf(c);
    forall k | 0 <= k < |l| ensures l[k] != '\0' {
      assert l[k] == c[k];
      assert c[k] in c;
    }
  }

  lemma AdvanceClean(f: Framing, c: char)
    requires AllClean(f.lines)
    ensures AllClean(Advance(f, c).lines)
  {
    var b := if |f.buf| < LINE_LIMIT then f.buf + [c] else f.buf;
    if EndsWithCrLf(b) && |TrimmedCrlf(CPrefix(b))| > 0 {
      CutLineClean(b);
    }
  }

  /** Every dispatched line is nonempty, NUL-free and not ending in CR or LF. */
  lemma {:induction false} FramedLinesClean(buf: string, data: string)
    ensures AllClean(Frame(buf, data).lines)
    decreases |data|
  {
    if |data| > 0 {
      FramedLinesClean(buf, data[..|data| - 1]);
      AdvanceClean(Frame(buf, data[..|data| - 1]), data[|data| - 1]);
    }
  }

  /** No partial line builds up while the text has no CR. */
  lemma {:induction false} FrameAccumulates(w: string)
    requires |w| <= LINE_LIMIT && '\r' !in w
    ensures Frame([], w) == Framing(w, [])
    decreases |w|
  {
    if |w| > 0 {
      var w' := w[..|w| - 1];
      assert '\r' !in w';
      FrameAccumulates(w');
      assert w' + [w[|w| - 1]] == w;
    }
  }

  /** The framer state after a CR-free text and its CR. */
  lemma FrameBeforeLf(w: string)
    requires 0 < |w| && |w| + 2 <= LINE_LIMIT && '\r' !in w
    ensures Frame([], w + "\r") == Framing(w + "\r", [])
  {
    FrameAccumulates(w);
    FrameSnocStep([], w, '\r');
    assert w + ['\r'] == w + "\r";
  }

  /** A whole CRLF-terminated command that fits the buffer and holds no CR, LF or NUL is
      delivered as exactly that one line. */
  lemma FrameOneLine(w: string)
    requires 0 < |w| && |w| + 2 <= LINE_LIMIT && '\r' !in w && '\n' !in w && '\0' !in w
    ensures Frame([], w + "\r\n") == Framing([], [w])
  {
    var wr := w + "\r";
    assert wr + ['\n'] == w + "\r\n";
    FrameBeforeLf(w);
    FrameSnocStep([], wr, '\n');
    CutLineOf(w);
    AdvanceCuts(Framing(wr, []), '\n');
  }

  /** The line cut from "w CR LF" is w. */
  lemma CutLineOf(w: string)
    requires 0 < |w| && '\r' !in w && '\n' !in w && '\0' !in w
    ensures TrimmedCrlf(CPrefix((w + "\r") + ['\n'])) == w
  {
    var d := (w + "\r") + ['\n'];
    assert d == w + "\r\n";
    CPrefixNoNul(d);
    assert w[|w| - 1] in w;
    TrimLineEnd(w);
  }

  /** A character that completes a CR LF in a buffer with room dispatches the trimmed line. */
  lemma AdvanceCuts(f: Framing, c: char)
    requires |f.buf| < LINE_LIMIT && EndsWithCrLf(f.buf + [c])
    requires |TrimmedCrlf(CPrefix(f.buf + [c]))| > 0
    ensures Advance(f, c) == Framing([], f.lines + [TrimmedCrlf(CPrefix(f.buf + [c]))])
  {
  }

  /** trim_crlf takes off exactly the CR LF that ends a line. */
  lemma TrimLineEnd(w: string)
    requires 0 < |w| && !IsCrLf(w[|w| - 1])
    ensures TrimmedCrlf(w + "\r\n") == w
  {
    var d := w + "\r\n";
    assert d[..|d| - 1] == w + "\r";
    assert (w + "\r")[..|w|] == w;
    assert TrimmedCrlf(w) == w;
    assert TrimmedCrlf(w + "\r") == TrimmedCrlf(w);
    assert TrimmedCrlf(d) == TrimmedCrlf(w + "\r");
  }

  lemma {:induction false} CPrefixNoNul(s: string)
    requires '\0' !in s
    ensures CPrefix(s) == s
  {
    if |s| > 0 {
      assert s[0] in s;
      assert '\0' !in s[1..];
      CPrefixNoNul(s[1..]);
      assert [s[0]] + s[1..] == s;
    }
  }
}
