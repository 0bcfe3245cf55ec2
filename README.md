# TicTacToe lobby coordinator in Dafny

This project models the lobby of the TicTacToe TCP server: the code that lets players
register, log in, list who is online, challenge each other, and accept or decline a
challenge. All of it lives in `TicTacToe/TCP_Server/server.c`. The server keeps three
bounded global tables, each an array with a count:

- the online registry (`online_users`, at most 512 entries);
- the pending-challenge table (`pending`, at most 1024 entries, one per ordered
  (from, to) pair, deleted by shifting the tail left);
- the rate-limit history (`recent_list`, at most 256 users). Each user has a 16-slot
  ring of timestamps.

Every command line a client sends runs one handler over these tables.

The model has five modules, one file each:

- `tables.dfy` (`Tables`): the records and the three tables as sequences. There is one
  function per table operation (`AddUser`, `RemovePair`, `Sweep`, `Record`, …) plus the
  lemmas about them:
  - uniqueness of names and of pairs;
  - exact, order-preserving removal;
  - the TTL sweep;
  - sliding-window counting.
- `wire.dfy` (`Wire`): the text side of the protocol.
  - The reply lines, character for character.
  - Models of the C routines the dispatcher relies on: `strncasecmp`, `sscanf` with
    `%Ns` and literals, `snprintf`, and `strlen` on NUL-terminated buffers.
  - The routing of a command to a handler, `trim_crlf`, and the CRLF framing of
    `client_thread` as a function from the received characters to the lines handed on.
- `handlers.dfy` (`Handlers`): each handler as a function from the lobby and session
  before a command to those after it plus the replies sent. There are lemmas for:
  - the precedence of rejections;
  - the accept and decline outcomes;
  - the logout cascade;
  - the player list;
  - REGISTER and LOGIN;
  - the invariant `Consistent`: table bounds plus no duplicate names or pairs, kept by
    every command and by a whole session.
- `server.dfy` (`Server`): the imperative server.
  - Class `Coordinator` holds the three tables as fixed-size arrays with counts, plus
    the accounts of the users file.
  - Class `Client` is `client_state_t`.
  - Every C function of the core is a method. Its loops and in-place shifts are kept,
    and each method is proved equal to the corresponding function of `Tables` or
    `Handlers`.
- `connection.dfy` (`Connection`): `strlen`, the in-place `trim_crlf`, and class
  `LineFramer` (`linebuf` and `linepos`). `ClientThread` feeds received chunks
  character by character into the framer and the coordinator. It is proved to do what
  `Handlers.RunLines` says about the framed lines, followed by the disconnect cleanup.

Time is an input. `Env.now` is the clock reading a handler works with. `Env.later` is the
clock at the second `time(NULL)` in `handle_challenge_accept`, the age re-check. Whether
delivering a challenge request fails, and whether appending to the users file fails, are
boolean inputs as well.

Two behaviours of the code differ from what the program itself announces, and the model
follows the code:

- Expired challenges: server.c defines the reply `238 CHALLENGE_FAIL expired_request` (line
  51) and sends it when the accept handler finds the entry too old (lines 426-431). But
  `expire_pending` runs first (line 403), so with a single clock reading the reply is
  `341 MATCH_FAIL player_unavailable` (`AcceptAfterTimeoutUnavailable`). The 238 reply needs
  the clock to move between the two readings (`AcceptAtOneInstantNeverExpired`,
  `AcceptExpiredLeavesBothBusy`).
- CHALLENGE_ACCEPT and CHALLENGE_DECLINE: the header of server.c (line 5) lists both as
  implemented commands, and handle_line has branches for them (lines 572-577 and 584-589).
  But the 9-character `CHALLENGE` prefix test (line 565) comes first and catches them, so
  they become challenges of the players `_ACCEPT` and `_DECLINE` (`AcceptLineIsChallenge`,
  `AcceptDeclineNotDispatched`).

## Model

| member | source | states |
|---|---|---|
| Tables.NamedUsers | TicTacToe/TCP_Server/server.c:550 | predicate: every registry entry has a nonempty name, since LOGIN refuses an empty one; kept by RemoveUserNamed and by AddUser of a nonempty name |
| Tables.Sweep | TicTacToe/TCP_Server/server.c:266-289 | the entries that meet a criterion, in order: the result of the two in-place deletion loops; SweepMembers, SweepConcat, SweepIdempotent and SweepHasPair state what it keeps |
| Tables.EmptyRecord | TicTacToe/TCP_Server/server.c:302-306 | the record created for a new user: 16 zero stamps and idx 0 |
| Tables.Stamp | TicTacToe/TCP_Server/server.c:309-310 | the ring write times[idx % 16] = now followed by idx++; RecordLookup and StampThrice state its effect |
| Tables.Hits | TicTacToe/TCP_Server/server.c:319-322 | the count of nonzero stamps within 3 seconds of now; HitsSnoc, HitsUpdate, HitsThreeSlots and HitsQuiet characterise it |
| Tables.RateLimited | TicTacToe/TCP_Server/server.c:314-325 | a user with a record and a window count of at least 3; ThreeInWindowLimits and QuietWindowNotLimited relate it to recorded challenges |
| Tables.FirstUserIndex | TicTacToe/TCP_Server/server.c:187-190 | the index returned holds the user and no earlier entry does |
| Tables.AddUser | TicTacToe/TCP_Server/server.c:206-217 | below 512 entries the registry grows by one not-busy entry (u, sock, elo) at the end; every old entry keeps its place, so a full registry is left as it was |
| Tables.RemoveUser | TicTacToe/TCP_Server/server.c:219-228 | the table shrinks by one exactly when the user was online |
| Tables.RemoveUserAt | TicTacToe/TCP_Server/server.c:221-225 | removal deletes the first matching entry and shifts the rest left |
| Tables.RemoveUserAbsent | TicTacToe/TCP_Server/server.c:221-222 | removing a user who is not online changes nothing |
| Tables.DeleteAtUnique | TicTacToe/TCP_Server/server.c:223 | shifting out one entry of a duplicate-free registry keeps it duplicate-free, and that name is gone |
| Tables.DeleteAtOnline | TicTacToe/TCP_Server/server.c:223 | shifting out one entry leaves every other name's online status unchanged |
| Tables.RemoveUserUnique | TicTacToe/TCP_Server/server.c:219-228 | on a duplicate-free registry, removal makes the user offline and leaves every other user's status unchanged |
| Tables.RemoveUserNamed | TicTacToe/TCP_Server/server.c:219-228 | removal keeps every name nonempty |
| Tables.AddUserUnique | TicTacToe/TCP_Server/server.c:206-217 | adding a user who is not online keeps the registry free of duplicate names |
| Tables.MarkBusy | TicTacToe/TCP_Server/server.c:413-417 | marking two users busy keeps the registry's length |
| Tables.MarkBusyNames | TicTacToe/TCP_Server/server.c:414-417 | the marking loop changes no name, so who is online and uniqueness are kept |
| Tables.FirstPairIndex | TicTacToe/TCP_Server/server.c:231-234 | the index returned holds the (from, to) pair and no earlier entry does |
| Tables.AddPair | TicTacToe/TCP_Server/server.c:236-247 | a pair already pending leaves the table unchanged; otherwise, when there is room, exactly one entry (from, to, now) is appended; the old entries always keep their places |
| Tables.RemovePair | TicTacToe/TCP_Server/server.c:249-257 | the table shrinks by one exactly when the pair was present |
| Tables.RemovePairAt | TicTacToe/TCP_Server/server.c:251-254 | removal deletes only the first matching entry and keeps the others in order |
| Tables.RemovePairAbsent | TicTacToe/TCP_Server/server.c:251-252 | removing an absent pair changes nothing |
| Tables.RemovePairAppended | TicTacToe/TCP_Server/server.c:386-392 | removing a pair that was just added restores the table (the rollback after a failed delivery) |
| Tables.DeleteAtPairs | TicTacToe/TCP_Server/server.c:253 | shifting out one entry keeps the pairs unique and drops that pair |
| Tables.DeleteAtEntries | TicTacToe/TCP_Server/server.c:253 | shifting out one entry keeps every other entry and adds none |
| Tables.RemovePairUnique | TicTacToe/TCP_Server/server.c:249-257 | on unique pairs, removal drops the pair, keeps every other entry and adds none |
| Tables.AddPairUnique | TicTacToe/TCP_Server/server.c:236-247 | add_pending never makes a duplicate (from, to) pair |
| Tables.PairCountZero | TicTacToe/TCP_Server/server.c:231-234 | an absent pair occurs zero times |
| Tables.PairCountOne | TicTacToe/TCP_Server/server.c:236-239 | in a duplicate-free table a present pair occurs exactly once |
| Tables.AddPairTwice | TicTacToe/TCP_Server/server.c:238-239 | a second add of the same pair, at any time, leaves the table unchanged, and the pair occurs once |
| Tables.SweepMembers | TicTacToe/TCP_Server/server.c:266-289 | an entry survives exactly when it was present and meets the criterion (NotInvolving(u) for remove_all_pending_for, age at most 30 for expire_pending) |
| Tables.SweepLength | TicTacToe/TCP_Server/server.c:266-289 | a sweep never grows the table |
| Tables.SweepConcat | TicTacToe/TCP_Server/server.c:266-289 | the sweep handles each entry on its own, so the surviving entries keep their relative order |
| Tables.SweepKeepsAll | TicTacToe/TCP_Server/server.c:282-287 | when every entry meets the criterion the table is unchanged |
| Tables.SweepIdempotent | TicTacToe/TCP_Server/server.c:278-289 | sweeping twice is the same as sweeping once |
| Tables.SweepUnique | TicTacToe/TCP_Server/server.c:266-289 | a sweep keeps the pairs unique |
| Tables.SweepHasPair | TicTacToe/TCP_Server/server.c:282-287 | a pair survives the sweep exactly when it was present and its entry meets the criterion |
| Tables.FirstRecentIndex | TicTacToe/TCP_Server/server.c:292-295 | the index returned holds the user's record and no earlier record does |
| Tables.Record | TicTacToe/TCP_Server/server.c:297-312 | a record is created only for a new user while there are fewer than 256; no username changes |
| Tables.HitsSnoc | TicTacToe/TCP_Server/server.c:319-322 | the window count over one more slot adds one exactly when that stamp is nonzero and within 3 seconds |
| Tables.HitsUpdate | TicTacToe/TCP_Server/server.c:309 | overwriting one ring slot changes the count by the old and new slot's hit status |
| Tables.HitsThreeSlots | TicTacToe/TCP_Server/server.c:319-324 | three distinct slots in the window give a count of at least 3 |
| Tables.HitsQuiet | TicTacToe/TCP_Server/server.c:319-322 | with no slot in the window the count is 0 |
| Tables.RecordLookup | TicTacToe/TCP_Server/server.c:297-312 | after recording, the user's record is the old record (or a fresh zeroed one) with `now` written at slot idx % 16 and idx incremented |
| Tables.StampThrice | TicTacToe/TCP_Server/server.c:309-310 | three successive ring writes inside the window give at least 3 hits |
| Tables.ThreeInWindowLimits | TicTacToe/TCP_Server/server.c:297-325 | three challenges recorded inside one window make the user rate-limited |
| Tables.QuietWindowNotLimited | TicTacToe/TCP_Server/server.c:314-325 | a user whose stamps all lie outside the window is not rate-limited |
| Wire.StartsWithCI | TicTacToe/TCP_Server/server.c:514-584 | strncasecmp(cmd, KW, strlen(KW)) == 0: the line is at least as long as the keyword and agrees with it up to ASCII case; StartsWithCIPrefix and StartsWithExact state its properties |
| Wire.ValidUsername | TicTacToe/TCP_Server/server.c:527-528 | every character is a letter, a digit, `_` or `-`; CheckUsername's loop is proved to decide it |
| Wire.TrimmedCrlf | TicTacToe/TCP_Server/server.c:112-115 | the text left by trim_crlf; TrimmedCrlfSpec characterises it and TrimLineEnd applies it |
| Wire.SkipSpace | TicTacToe/TCP_Server/server.c:516 | a blank format directive: drop the leading white space; SkipSpaceOver states it |
| Wire.Scan | TicTacToe/TCP_Server/server.c:516-521 | sscanf over literal, blank and `%Ns` directives, returning the stored items (their number is sscanf's result); ScanTokens, ScanLiteral, ScanConv and ScanBlank state its behaviour |
| Wire.Credentials | TicTacToe/TCP_Server/server.c:514-524 | the credentials REGISTER (and LOGIN at 538-548) extract: the long form when it scans four items with the keywords "username" and "password", else the two-word short form, else none; CredentialsLongForm states the long form |
| Wire.ChallengeTarget | TicTacToe/TCP_Server/server.c:567 | the target of "CHALLENGE to %127s", else of "CHALLENGE %127s"; ScanTo, ChallengeTargetSpaced and ChallengeTargetGlued state what it yields |
| Wire.FromArgument | TicTacToe/TCP_Server/server.c:574 | the name of "KW from %127s", for CHALLENGE_ACCEPT here and CHALLENGE_DECLINE at 586 |
| Wire.BranchOf | TicTacToe/TCP_Server/server.c:504-591 | which test of handle_line's chain catches the command first: exact menu digits, then the keyword prefixes in source order; AcceptAndDeclineBranchesDead and ChallengeBranchTaken state its reachable outcomes |
| Wire.Route | TicTacToe/TCP_Server/server.c:504-591 | the command the selected branch runs, with its scanned arguments or 500 when they do not scan; RouteChallengeBranch, AcceptLineIsChallenge and LowercaseChallengeIsUnknown state its behaviour |
| Wire.CommandOf | TicTacToe/TCP_Server/server.c:490-495 | handle_line's cmd buffer: the line's C string without CR and LF, cut to 511 characters; CopyCommand's loop is proved to build it |
| Wire.Advance | TicTacToe/TCP_Server/server.c:608-616 | one received byte: buffered while there is room, and a final CR LF hands on the trimmed nonempty line and empties the buffer; AdvanceShift, AdvanceClean and LineFramer.Receive are stated against it |
| Wire.Frame | TicTacToe/TCP_Server/server.c:605-617 | the buffer and the lines after a stream of received bytes; FrameChunks, FullBufferWedges, FramedLinesClean and FrameOneLine state its properties |
| Wire.Snprintf | TicTacToe/TCP_Server/server.c:354 | snprintf keeps a prefix shorter than the buffer, and the whole text when it fits |
| Wire.CPrefix | TicTacToe/TCP_Server/server.c:611-613 | the C string in a buffer is its NUL-free prefix, ended by a NUL or by the buffer's end |
| Wire.CPrefixConcat | TicTacToe/TCP_Server/server.c:611-613 | the C string of a concatenation stops inside the first part exactly when that part has a NUL |
| Wire.CPrefixAt | TicTacToe/TCP_Server/server.c:611-613 | a NUL at position n with none before it ends the C string at n |
| Wire.CPrefixTerminated | TicTacToe/TCP_Server/server.c:611 | writing a NUL after the received bytes makes the C string that of the bytes |
| Wire.CPrefixNoNul | TicTacToe/TCP_Server/server.c:611-613 | a NUL-free text is its own C string |
| Wire.StartsWithCIPrefix | TicTacToe/TCP_Server/server.c:565-584 | a line passing a keyword test passes the test for every keyword that is a prefix of it |
| Wire.TrimmedCrlfSpec | TicTacToe/TCP_Server/server.c:112-115 | trim_crlf leaves a prefix, removes only CR and LF characters, and leaves no CR or LF at the end |
| Wire.TokenLength | TicTacToe/TCP_Server/server.c:516 | a `%Ns` conversion takes at most N non-white characters |
| Wire.ScanTokens | TicTacToe/TCP_Server/server.c:516 | every string sscanf stores is nonempty and free of white space |
| Wire.ScanLiteral | TicTacToe/TCP_Server/server.c:516 | a literal in the format consumes exactly its own text |
| Wire.SkipSpaceOver | TicTacToe/TCP_Server/server.c:516 | a blank in the format skips all leading white space |
| Wire.TokenLengthOf | TicTacToe/TCP_Server/server.c:516 | a word that fits the width and is followed by white space or the end is taken whole |
| Wire.ScanConv | TicTacToe/TCP_Server/server.c:516 | a conversion stores exactly such a word and goes on after it |
| Wire.ScanBlank | TicTacToe/TCP_Server/server.c:516 | a blank directive consumes exactly the leading white space |
| Wire.ScanBlankWord | TicTacToe/TCP_Server/server.c:516 | a space-word pair is stored as the word |
| Wire.ScanTwoWords | TicTacToe/TCP_Server/server.c:516 | two space-separated words are stored as two items |
| Wire.ScanFourWords | TicTacToe/TCP_Server/server.c:516 | the four-item format stores four space-separated words |
| Wire.LongFormWords | TicTacToe/TCP_Server/server.c:516 | "username u password p" scans as its four words |
| Wire.LongFormCreds | TicTacToe/TCP_Server/server.c:516-520 | when the four items are "username", u, "password", p, the credentials are (u, p) |
| Wire.CredentialsLongForm | TicTacToe/TCP_Server/server.c:514-520 | "KW username u password p" yields credentials (u, p) for REGISTER and LOGIN alike |
| Wire.AcceptAndDeclineBranchesDead | TicTacToe/TCP_Server/server.c:565-589 | no command line selects the CHALLENGE_ACCEPT or CHALLENGE_DECLINE branch |
| Wire.AcceptAndDeclineUnreachable | TicTacToe/TCP_Server/server.c:565-589 | routing never produces an accept or a decline |
| Wire.NotEarlierKeywords | TicTacToe/TCP_Server/server.c:514-563 | a line starting with C or c fails the REGISTER, LOGIN and LIST_PLAYERS tests |
| Wire.ChallengeBranchTaken | TicTacToe/TCP_Server/server.c:504-565 | every line that passes the CHALLENGE test takes the CHALLENGE branch: no menu digit or earlier keyword catches it |
| Wire.RouteChallengeBranch | TicTacToe/TCP_Server/server.c:565-570 | every line that passes the CHALLENGE test becomes a challenge of the target the two formats scan, or 500 when neither scans one |
| Wire.StartsWithExact | TicTacToe/TCP_Server/server.c:565 | a line that begins with the keyword passes its case-insensitive test |
| Wire.ScanToMatch | TicTacToe/TCP_Server/server.c:567 | "CHALLENGE to %127s" stores what follows "to", when something does |
| Wire.ScanToMiss | TicTacToe/TCP_Server/server.c:567 | a word not starting with "to" fails the first format |
| Wire.ScanTo | TicTacToe/TCP_Server/server.c:567 | on a single word the first format stores the word minus a leading "to", and only when something is left |
| Wire.ChallengeTargetSpaced | TicTacToe/TCP_Server/server.c:567 | "CHALLENGE n" targets n, except that a leading "to" is eaten ("CHALLENGE tom" targets "m") |
| Wire.ChallengeLineTarget | TicTacToe/TCP_Server/server.c:565-570 | a CHALLENGE line with one word routes to handle_challenge with that target, as above |
| Wire.ChallengeTargetGlued | TicTacToe/TCP_Server/server.c:567 | a word glued to CHALLENGE that does not start with t is the target |
| Wire.RouteGlued | TicTacToe/TCP_Server/server.c:565-570 | such a line routes to handle_challenge with that target |
| Wire.AcceptLineIsChallenge | TicTacToe/TCP_Server/server.c:565-577 | "CHALLENGE_ACCEPT from X" is a challenge of the user "_ACCEPT" |
| Wire.DeclineLineIsChallenge | TicTacToe/TCP_Server/server.c:565-589 | "CHALLENGE_DECLINE from X" is a challenge of the user "_DECLINE" |
| Wire.LowercaseChallengeIsUnknown | TicTacToe/TCP_Server/server.c:565-568 | "challenge X" passes the prefix test but fails both case-sensitive formats, so it gets 500 |
| Wire.DropLineBreaks | TicTacToe/TCP_Server/server.c:490-495 | the command copy holds no CR or LF and is no longer than the line |
| Wire.DropLineBreaksPrefix | TicTacToe/TCP_Server/server.c:492-493 | the copy of a prefix of the line is a prefix of the copy |
| Wire.AdvanceShift | TicTacToe/TCP_Server/server.c:608-616 | the lines already handed on do not affect what the next byte does |
| Wire.FrameChunks | TicTacToe/TCP_Server/server.c:605-617 | how the bytes are split into recv chunks does not change the lines or the leftover buffer |
| Wire.FullBufferWedges | TicTacToe/TCP_Server/server.c:609-610 | once 4095 bytes without a final CR LF are buffered, no further line is ever produced |
| Wire.CutLineClean | TicTacToe/TCP_Server/server.c:611-613 | a line handed on is nonempty, holds no NUL and does not end in CR or LF |
| Wire.AdvanceClean | TicTacToe/TCP_Server/server.c:608-616 | each step hands on only such clean lines |
| Wire.FramedLinesClean | TicTacToe/TCP_Server/server.c:605-617 | every line handle_line receives is clean |
| Wire.FrameAccumulates | TicTacToe/TCP_Server/server.c:609 | text without CR that fits the buffer is buffered unchanged and produces no line |
| Wire.FrameBeforeLf | TicTacToe/TCP_Server/server.c:609-610 | a text followed by CR is still buffered |
| Wire.FrameOneLine | TicTacToe/TCP_Server/server.c:608-616 | "w CR LF", with no CR, LF or NUL in w, is delivered as exactly the line w |
| Wire.CutLineOf | TicTacToe/TCP_Server/server.c:611-613 | the line cut from "w CR LF" is w |
| Wire.TrimLineEnd | TicTacToe/TCP_Server/server.c:112-115 | trim_crlf removes a final CR LF and nothing before it |
| Handlers.Consistent | TicTacToe/TCP_Server/server.c:206-247 | the invariant: the three table bounds, unique names, nonempty names and unique pairs; DispatchConsistent and RunLinesConsistent prove every command and every session keep it |
| Handlers.EloOf | TicTacToe/TCP_Server/server.c:199-204 | the caller's rating read at 380: the account's rating, or 1000 without one |
| Handlers.Expired | TicTacToe/TCP_Server/server.c:278-289 | expire_pending at one clock reading: the pending table swept to entries at most 30 seconds old; ExpiredConsistent and AcceptAfterTimeoutUnavailable use it |
| Handlers.Depart | TicTacToe/TCP_Server/server.c:477-478 | remove_online then remove_all_pending_for; DepartCascade states its effect |
| Handlers.Propose | TicTacToe/TCP_Server/server.c:384-386 | record_challenge_time then add_pending; ProposeConsistent and ChallengeDelivered state its effect |
| Handlers.ListBuf | TicTacToe/TCP_Server/server.c:346-350 | the list buffer the strncat loop builds; ListBufIsJoin relates it to CommaJoin |
| Handlers.CommaJoin | TicTacToe/TCP_Server/server.c:347-350 | the reference: the names separated by commas, with no truncation |
| Handlers.ListReply | TicTacToe/TCP_Server/server.c:329-358 | the LIST_PLAYERS reply: 221 when not logged in, 101 for an empty registry, else the formatted list; ListComplete and ListTruncated state what it holds |
| Handlers.Dispatch | TicTacToe/TCP_Server/server.c:504-591 | the handler each routed command runs; DispatchConsistent states that every one keeps Consistent |
| Handlers.HandleLine | TicTacToe/TCP_Server/server.c:489-592 | handle_line: the command copy, the routing and the handler; HandleLineConsistent and AcceptDeclineNotDispatched state its properties |
| Handlers.RunLines | TicTacToe/TCP_Server/server.c:605-617 | one connection handling its framed lines in order; RunLinesConsistent and ClientThread are stated against it |
| Handlers.ExpiredConsistent | TicTacToe/TCP_Server/server.c:278-289 | expire_pending keeps the tables consistent |
| Handlers.ProposeConsistent | TicTacToe/TCP_Server/server.c:384-392 | recording the challenge and adding the entry, with or without the rollback, keep the tables consistent |
| Handlers.Challenge | TicTacToe/TCP_Server/server.c:360-398 | handle_challenge changes neither the session, the registry nor the accounts |
| Handlers.ChallengePrecedence | TicTacToe/TCP_Server/server.c:360-397 | the reply is fixed by the first failing check, in the order not_logged_in, empty target, self_challenge, not online, user_busy, level gap over 10, rate_limited; otherwise 237 on a failed delivery, else the request to the target and 130 to the caller |
| Handlers.ChallengeRejectedChangesNothing | TicTacToe/TCP_Server/server.c:360-383 | a rejected challenge records no time and adds no entry; apart from the expiry sweep the tables are unchanged, and one reply goes to the caller |
| Handlers.ChallengeDelivered | TicTacToe/TCP_Server/server.c:384-397 | an admissible, delivered challenge with room in the swept table records the time and leaves exactly one (from, target) entry |
| Handlers.ChallengeUndeliveredRollsBack | TicTacToe/TCP_Server/server.c:390-395 | a failed delivery of a new pair removes the entry again and replies 237, with the time still recorded |
| Handlers.ChallengeTableFull | TicTacToe/TCP_Server/server.c:384-397 | when the swept table is full, a new pair is not stored, yet the time is recorded and the request and 130 still go out (237 on a failed delivery) |
| Handlers.ChallengeUndeliveredDropsEarlier | TicTacToe/TCP_Server/server.c:386-394 | a failed delivery also removes an older entry for the same pair |
| Handlers.ChallengeConsistent | TicTacToe/TCP_Server/server.c:360-398 | handle_challenge keeps the tables consistent |
| Handlers.Accept | TicTacToe/TCP_Server/server.c:400-449 | accepting changes neither the accounts nor the rate-limit history nor who is logged in on the session |
| Handlers.StartMatch | TicTacToe/TCP_Server/server.c:412-449 | once the entry and a free proposer are found, the acceptor's session is marked in a match whatever the age re-check says |
| Handlers.AcceptWhileInMatch | TicTacToe/TCP_Server/server.c:401-405 | an acceptor already in a match gets 304 and only the expiry sweep runs |
| Handlers.AcceptWithoutPending | TicTacToe/TCP_Server/server.c:406 | without a live (from, acceptor) entry the reply is 341 and only the expiry sweep runs |
| Handlers.AcceptProposerUnavailable | TicTacToe/TCP_Server/server.c:408-411 | with the proposer offline or busy, the entry is removed, nobody is marked busy, and the reply is 341 |
| Handlers.AcceptSucceeds | TicTacToe/TCP_Server/server.c:412-448 | on success both users are marked in a match and the entry is gone; the four sends are 132 to the acceptor, "132 CHALLENGE_ACCEPTED from" to the proposer, then the MATCH announcement to the acceptor and to the proposer |
| Handlers.AcceptExpiredLeavesBothBusy | TicTacToe/TCP_Server/server.c:413-431 | when the re-check finds the entry too old, the reply is 238 and both users are left marked busy |
| Handlers.AcceptAtOneInstantNeverExpired | TicTacToe/TCP_Server/server.c:403-431 | with a single clock reading the 238 reply cannot happen |
| Handlers.AcceptAfterTimeoutUnavailable | TicTacToe/TCP_Server/server.c:403-406 | accepting an entry older than 30 seconds gets 341, because expire_pending drops it first |
| Handlers.AcceptConsistent | TicTacToe/TCP_Server/server.c:400-449 | accepting keeps the tables consistent |
| Handlers.Decline | TicTacToe/TCP_Server/server.c:451-472 | declining changes neither the session, the registry nor the rate-limit history |
| Handlers.DeclineRemovesEntry | TicTacToe/TCP_Server/server.c:456-471 | a live entry is deleted and no other entry is lost; the decliner gets 133, and the proposer is told exactly when online with a valid socket |
| Handlers.DeclineConsistent | TicTacToe/TCP_Server/server.c:451-472 | declining keeps the tables consistent |
| Handlers.Logout | TicTacToe/TCP_Server/server.c:475-485 | afterwards the session is logged out, and exactly one reply goes to the caller |
| Handlers.Disconnect | TicTacToe/TCP_Server/server.c:619-622 | the disconnect cleanup changes neither the accounts nor the rate-limit history |
| Handlers.DepartCascade | TicTacToe/TCP_Server/server.c:477-478 | leaving takes the user offline and keeps every other user's status; exactly the entries naming the user are purged; consistency is kept |
| Handlers.LogoutWithoutLogin | TicTacToe/TCP_Server/server.c:476 | logout while not logged in replies 301 and changes nothing |
| Handlers.LogoutIsDisconnect | TicTacToe/TCP_Server/server.c:475-485 | do_logout does to the tables what the disconnect path does |
| Handlers.Usernames | TicTacToe/TCP_Server/server.c:347-350 | the list visits the registry's names in array order |
| Handlers.Strncat | TicTacToe/TCP_Server/server.c:348-349 | the bounded strncat keeps a prefix of the concatenation, at most 4095 characters |
| Handlers.SnprintfTwice | TicTacToe/TCP_Server/server.c:348-354 | truncating, appending and truncating again is the same as appending then truncating once |
| Handlers.ListBufIsJoin | TicTacToe/TCP_Server/server.c:346-350 | the list loop builds the comma-joined names, cut off at the buffer's end |
| Handlers.ListComplete | TicTacToe/TCP_Server/server.c:329-358 | when it fits, the list reply of a registry with nonempty names (which Consistent carries) is "100 PLAYER_LIST [" then the names comma-joined in array order, then "]" CR LF |
| Handlers.ListTruncated | TicTacToe/TCP_Server/server.c:346-354 | when it does not fit, the reply is a 4095-character proper prefix of that text |
| Handlers.Register | TicTacToe/TCP_Server/server.c:514-536 | REGISTER affects neither the session, the registry nor the pending table |
| Handlers.RegisterAccepts | TicTacToe/TCP_Server/server.c:525-532 | REGISTER replies 120 exactly when the username and password are nonempty, the username uses only letters, digits, `_` and `-`, it is not yet registered, and the store succeeds; then the account is added with rating 1000 |
| Handlers.WeakPasswordUnreachable | TicTacToe/TCP_Server/server.c:526-530 | the weak_password reply is never sent |
| Handlers.Login | TicTacToe/TCP_Server/server.c:538-561 | LOGIN changes neither the pending table nor the accounts |
| Handlers.LoginAlreadyOnline | TicTacToe/TCP_Server/server.c:554 | correct credentials for a user who is already online get 222, and nothing changes |
| Handlers.LoginSucceeds | TicTacToe/TCP_Server/server.c:550-559 | correct credentials for an offline user log the session in; the user goes online exactly when the registry has room |
| Handlers.RegisterThenLogin | TicTacToe/TCP_Server/server.c:514-561 | a user who just registered is able to log in with the same credentials |
| Handlers.LoginConsistent | TicTacToe/TCP_Server/server.c:554-559 | the already-online gate keeps the registry free of duplicate names |
| Handlers.NoSpaceTrim | TicTacToe/TCP_Server/server.c:525 | trim_crlf does nothing to a scanned word |
| Handlers.DispatchConsistent | TicTacToe/TCP_Server/server.c:504-591 | every command keeps the tables consistent |
| Handlers.HandleLineConsistent | TicTacToe/TCP_Server/server.c:489-592 | every command line keeps the tables consistent |
| Handlers.AcceptDeclineNotDispatched | TicTacToe/TCP_Server/server.c:565-589 | handle_line never runs the accept or decline handler |
| Handlers.RunLinesConsistent | TicTacToe/TCP_Server/server.c:605-617 | a whole session of lines keeps the tables consistent |
| Handlers.DisconnectConsistent | TicTacToe/TCP_Server/server.c:619-622 | the disconnect cleanup keeps the tables consistent |
| Server.Coordinator.View | TicTacToe/TCP_Server/server.c:101-108 | the abstraction: the first count slots of each array and the accounts, as a Lobby; every method of the class is stated through it |
| Server.ShiftLeft | TicTacToe/TCP_Server/server.c:253 | the shift-left loop deletes slot i from the first `count` slots and leaves the slots after them alone |
| Server.SweepDropStep | TicTacToe/TCP_Server/server.c:270-272 | deleting a rejected entry at i keeps the sweep's goal |
| Server.SweepKeepStep | TicTacToe/TCP_Server/server.c:273 | stepping past a kept entry keeps the sweep's goal |
| Server.CheckUsername | TicTacToe/TCP_Server/server.c:527-528 | the scan loop's verdict is that every character is a letter, a digit, `_` or `-` |
| Server.CopyCommand | TicTacToe/TCP_Server/server.c:490-495 | the copy loop builds the command text: the line without CR and LF, at most 511 characters |
| Server.Client.constructor | TicTacToe/TCP_Server/server.c:599-600 | a new connection is logged out, with no username and not in a match |
| Server.Coordinator.constructor | TicTacToe/TCP_Server/server.c:101-108 | the three tables start empty |
| Server.Coordinator.FindOnlineIndex | TicTacToe/TCP_Server/server.c:187-190 | the loop returns the first index holding the user, or -1 |
| Server.Coordinator.IsOnlineUser | TicTacToe/TCP_Server/server.c:192-197 | true exactly when the user is online |
| Server.Coordinator.AddOnline | TicTacToe/TCP_Server/server.c:206-217 | the arrays now hold AddUser of the old registry |
| Server.Coordinator.RemoveOnline | TicTacToe/TCP_Server/server.c:219-228 | the arrays now hold RemoveUser of the old registry |
| Server.Coordinator.MarkInMatch | TicTacToe/TCP_Server/server.c:413-417 | the marking loop leaves MarkBusy of the old registry |
| Server.Coordinator.FindPendingIndex | TicTacToe/TCP_Server/server.c:231-234 | the loop returns the first index holding the pair, or -1 |
| Server.Coordinator.HasPending | TicTacToe/TCP_Server/server.c:259-264 | true exactly when the pair is pending |
| Server.Coordinator.AddPending | TicTacToe/TCP_Server/server.c:236-247 | the arrays now hold AddPair of the old table |
| Server.Coordinator.RemovePending | TicTacToe/TCP_Server/server.c:249-257 | the arrays now hold RemovePair of the old table |
| Server.Coordinator.SweepPending | TicTacToe/TCP_Server/server.c:266-289 | the in-place deletion loop leaves Sweep of the old table |
| Server.Coordinator.RemoveAllPendingFor | TicTacToe/TCP_Server/server.c:266-276 | the table keeps exactly the entries not naming the user, in order |
| Server.Coordinator.ExpirePending | TicTacToe/TCP_Server/server.c:278-289 | the table keeps exactly the entries at most 30 seconds old, in order |
| Server.Coordinator.FindRecent | TicTacToe/TCP_Server/server.c:292-295 | the loop returns the first index of the user's record, or -1 |
| Server.Coordinator.RecordChallengeTime | TicTacToe/TCP_Server/server.c:297-312 | the arrays now hold Record of the old history |
| Server.Coordinator.IsRateLimited | TicTacToe/TCP_Server/server.c:314-325 | the counting loop's verdict is RateLimited: at least 3 nonzero stamps within 3 seconds |
| Server.Coordinator.ListPlayers | TicTacToe/TCP_Server/server.c:329-358 | the one reply is ListReply |
| Server.Coordinator.HandleChallenge | TicTacToe/TCP_Server/server.c:360-398 | the new tables and replies are those of Handlers.Challenge |
| Server.Coordinator.HandleAccept | TicTacToe/TCP_Server/server.c:400-449 | the new tables, session and replies are those of Handlers.Accept |
| Server.Coordinator.StartMatch | TicTacToe/TCP_Server/server.c:412-449 | the new tables, session and replies are those of Handlers.StartMatch |
| Server.Coordinator.HandleDecline | TicTacToe/TCP_Server/server.c:451-472 | the new tables and replies are those of Handlers.Decline |
| Server.Coordinator.DoLogout | TicTacToe/TCP_Server/server.c:475-485 | the new tables, session and reply are those of Handlers.Logout |
| Server.Coordinator.Disconnect | TicTacToe/TCP_Server/server.c:619-622 | the new tables are those of Handlers.Disconnect |
| Server.Coordinator.HandleRegister | TicTacToe/TCP_Server/server.c:514-536 | the new accounts and reply are those of Handlers.Register |
| Server.Coordinator.HandleLogin | TicTacToe/TCP_Server/server.c:538-561 | the new registry, session and reply are those of Handlers.Login |
| Server.Coordinator.Dispatch | TicTacToe/TCP_Server/server.c:504-591 | the routed command runs the handler Handlers.Dispatch names |
| Server.Coordinator.HandleLine | TicTacToe/TCP_Server/server.c:489-592 | one command line has the effect of Handlers.HandleLine |
| Connection.Strlen | TicTacToe/TCP_Server/server.c:113 | strlen finds the first NUL, so the counted bytes are the C string |
| Connection.TrimCrlf | TicTacToe/TCP_Server/server.c:112-115 | the in-place loop leaves the C string that TrimmedCrlf gives |
| Connection.LineFramer.constructor | TicTacToe/TCP_Server/server.c:602-603 | the line buffer starts empty |
| Connection.LineFramer.Receive | TicTacToe/TCP_Server/server.c:608-616 | one byte of the inner loop moves the buffer and the handed-on line exactly as the framing function Advance says |
| Connection.FrameChar | TicTacToe/TCP_Server/server.c:608-616 | after one more byte the buffer is Frame of all bytes so far, and the line handed on is the next framed line |
| Connection.ReceiveChar | TicTacToe/TCP_Server/server.c:608-616 | after one more byte, the tables, session and replies are those of running every framed line so far |
| Connection.ReceiveChunk | TicTacToe/TCP_Server/server.c:608-616 | the same after one more recv chunk |
| Connection.ClientThread | TicTacToe/TCP_Server/server.c:596-626 | one connection's replies are those of running handle_line on the framed lines in order, and the tables end as the disconnect cleanup leaves them |

## Left out

- Sockets and threads: `send_all`, `send_status`, `recv`, `close`, `main`, `pthread_create` and `pthread_detach` are not modelled. A send is an appended `Send(sock, text)` record. The recv loop is a sequence of chunks, and the loop ends when the chunks run out.
- Send failures: only the failed delivery of a challenge request (server.c:390) is an input (`Env.deliveryFails`), because it is the only send failure that changes state. The other failures print and carry on.
- Concurrency: the four mutexes are not modelled. Each handler is one sequential step, and `ClientThread` runs one connection with no other thread interleaved.
- The nested lock: `remove_pending` is called at server.c:427 and 432 while `pending_mutex` is held. It is modelled as the removal it is meant to perform.
- The users file: `parse_users_file`, `user_exists_file`, `register_user_file` and `read_elo_from_file` are file I/O. They are replaced by the map `users` of accounts, with a rating of 1000 for an unknown user. A write failure of `register_user_file` (reply 500) is the input `Env.storeFails`. The file format, and a stored password longer than the 128-byte buffer at server.c:551, are not modelled.
- Debug output: `printf` and `fflush` are not modelled.
- Time: each handler reads the clock once (`Env.now`). The only exception is the age re-check in `handle_challenge_accept`, which reads `Env.later`. Clock movement between the other `time(NULL)` calls inside one handler is not modelled.
- Integer widths: C `int` and `time_t` overflow are not modelled. `abs(from_elo - target_elo)` and the ring index `idx` are unbounded integers in the model.
- Handlers.StartMatch: the branch at server.c:424 where the entry has vanished is left out. It cannot happen in a sequential step, because the entry was found at server.c:406 and nothing in between removes it.
- Fixed-size name fields: names are copied into 128-byte arrays with `snprintf`/`strncpy` (server.c:209, 241-242, 303, 519-520, 557). This truncation is not modelled. Every name reaching those copies comes from a `%127s` conversion, so it already fits.
- Character set: characters are Dafny `char`s. `isalnum`, `isspace` and case folding follow the C locale on ASCII, and bytes above 127 have no special meaning.
- The console clients (`TicTacToe/TCP_Client/client.c`, `TCP_Client/client.c`) and the earlier server `TCP_Server/server.c` are not part of this model.
- Match and board logic: no server code in the repository implements it. MOVE and STOP lines route to `Unknown`, which replies `500 SERVER_ERROR`.
