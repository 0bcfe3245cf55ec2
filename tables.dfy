/** The entities of the lobby coordinator and its three bounded tables
    (online registry, pending challenges, rate-limit history), as values.
    The imperative server in server.dfy keeps each table in an array with a
    count; the functions here say what each in-place operation computes. */
module Tables {

  const MAX_ONLINE: nat := 512
  const MAX_PENDING: nat := 1024
  const MAX_RECENT: nat := 256
  /** Number of timestamp slots in one rate-limit record. */
  const RING_SIZE: nat := 16
  /** Seconds after which a pending challenge is stale. */
  const CHALLENGE_TIMEOUT: int := 30
  /** Largest rating difference a challenge may bridge. */
  const LEVEL_GAP_THRESHOLD: int := 10
  /** Seconds of the rate-limit sliding window. */
  const RATE_LIMIT_WINDOW: int := 3
  /** Number of proposals inside the window that trips the limit. */
  const RATE_LIMIT_COUNT: nat := 3

  type Name = string

  datatype OnlineUser = OnlineUser(username: Name, sock: int, inMatch: bool, elo: int)

  datatype Pending = Pending(from: Name, to: Name, ts: int)

  /** The timestamps of one rate-limit record; 0 marks a slot never written. */
  type Ring = s: seq<int> | |s| == RING_SIZE witness seq(16, _ => 0)

  /** `idx` counts every stamp ever written; the next one goes to slot `idx % 16`. */
  datatype Recent = Recent(username: Name, times: Ring, idx: nat)

  // ------------------------------------------------------------------
  // Online registry
  // ------------------------------------------------------------------

  predicate IsOnline(s: seq<OnlineUser>, u: Name) {
    exists i :: 0 <= i < |s| && s[i].username == u
  }

  /** `i` is the first position holding `u`, the one a linear scan finds. */
  predicate IsFirstUser(s: seq<OnlineUser>, u: Name, i: int) {
    0 <= i < |s| && s[i].username == u && forall j :: 0 <= j < i ==> s[j].username != u
  }

  predicate UniqueNames(s: seq<OnlineUser>) {
    forall i, j :: 0 <= i < j < |s| ==> s[i].username != s[j].username
  }

  /** Every entry has a nonempty name (LOGIN refuses an empty one). */
  predicate NamedUsers(s: seq<OnlineUser>) {
    forall i :: 0 <= i < |s| ==> |s[i].username| > 0
  }

  lemma OnlineTail(s: seq<OnlineUser>, u: Name)
    requires IsOnline(s, u) && s[0].username != u
    ensures IsOnline(s[1..], u)
  {
    var i :| 0 <= i < |s| && s[i].username == u;
    assert s[1..][i - 1].username == u;
  }

  function FirstUserIndex(s: seq<OnlineUser>, u: Name): (i: nat)
    requires IsOnline(s, u)
    ensures IsFirstUser(s, u, i)
  {
    if s[0].username == u then 0 else OnlineTail(s, u); 1 + FirstUserIndex(s[1..], u)
  }

  /** The registry entry a scan for `u` finds. */
  function FirstUser(s: seq<OnlineUser>, u: Name): OnlineUser
    requires IsOnline(s, u)
  {
    s[FirstUserIndex(s, u)]
  }

  /** add_online: append a fresh, not-busy entry unless the registry is full. */
  function AddUser(s: seq<OnlineUser>, u: Name, sock: int, elo: int): (r: seq<OnlineUser>)
    ensures |s| < MAX_ONLINE ==> IsOnline(r, u)
    ensures |r| == if |s| < MAX_ONLINE then |s| + 1 else |s|
    ensures |s| <= |r| && r[..|s|] == s
    ensures |r| > |s| ==> r[|s|] == OnlineUser(u, sock, false, elo)
  {
    if |s| < MAX_ONLINE then
      assert (s + [OnlineUser(u, sock, false, elo)])[|s|].username == u;
      s + [OnlineUser(u, sock, false, elo)]
    else s
  }

  /** remove_online: delete the first entry named `u`, keeping the others in order. */
  function RemoveUser(s: seq<OnlineUser>, u: Name): (r: seq<OnlineUser>)
    ensures |r| == if IsOnline(s, u) then |s| - 1 else |s|
  {
    if |s| == 0 then []
    else if s[0].username == u then s[1..]
    else
      assert IsOnline(s, u) <==> IsOnline(s[1..], u) by {
        if IsOnline(s, u) { OnlineTail(s, u); }
        if IsOnline(s[1..], u) {
          var i :| 0 <= i < |s[1..]| && s[1..][i].username == u;
          assert s[i + 1].username == u;
        }
      }
      [s[0]] + RemoveUser(s[1..], u)
  }

  /** MarkBusy: the loop that sets in_match on every entry named `a` or `b`. */
  function MarkBusy(s: seq<OnlineUser>, a: Name, b: Name): (r: seq<OnlineUser>)
    ensures |r| == |s|
  {
    seq(|s|, i requires 0 <= i < |s| =>
      if s[i].username == a || s[i].username == b then s[i].(inMatch := true) else s[i])
  }

  lemma {:induction false} RemoveUserAt(s: seq<OnlineUser>, u: Name, i: int)
    requires IsFirstUser(s, u, i)
    ensures RemoveUser(s, u) == s[..i] + s[i + 1..]
  {
    if i > 0 {
      RemoveUserAt(s[1..], u, i - 1);
      assert s[1..][..i - 1] == s[1..i];
      assert s[1..][i..] == s[i + 1..];
      assert [s[0]] + s[1..i] == s[..i];
    }
  }

  lemma {:induction false} RemoveUserAbsent(s: seq<OnlineUser>, u: Name)
    requires !IsOnline(s, u)
    ensures RemoveUser(s, u) == s
  {
    if |s| > 0 {
      assert s[0].username != u;
      assert !IsOnline(s[1..], u);
      RemoveUserAbsent(s[1..], u);
      assert [s[0]] + s[1..] == s;
    }
  }

  /** Deleting position `i` shifts every later element down by one. */
  lemma DeleteAt<T>(s: seq<T>, i: int, r: seq<T>)
    requires 0 <= i < |s| && r == s[..i] + s[i + 1..]
    ensures |r| == |s| - 1
    ensures forall k :: 0 <= k < |r| ==> r[k] == if k < i then s[k] else s[k + 1]
  {
  }

  lemma DeleteAtUnique(s: seq<OnlineUser>, i: int)
    requires 0 <= i < |s| && UniqueNames(s)
    ensures UniqueNames(s[..i] + s[i + 1..])
    ensures !IsOnline(s[..i] + s[i + 1..], s[i].username)
  {
    var r := s[..i] + s[i + 1..];
    DeleteAt(s, i, r);
    forall a, b | 0 <= a < b < |r| ensures r[a].username != r[b].username {
      assert r[a] == if a < i then s[a] else s[a + 1];
      assert r[b] == if b < i then s[b] else s[b + 1];
    }
    forall k | 0 <= k < |r| ensures r[k].username != s[i].username {
      assert r[k] == if k < i then s[k] else s[k + 1];
    }
  }

  lemma DeleteAtOnline(s: seq<OnlineUser>, i: int, v: Name)
    requires 0 <= i < |s| && s[i].username != v
    ensures IsOnline(s[..i] + s[i + 1..], v) <==> IsOnline(s, v)
  {
    var r := s[..i] + s[i + 1..];
    DeleteAt(s, i, r);
    if IsOnline(s, v) {
      var k :| 0 <= k < |s| && s[k].username == v;
      var k' := if k < i then k else k - 1;
      assert r[k'] == s[k];
    }
    if IsOnline(r, v) {
      var k :| 0 <= k < |r| && r[k].username == v;
      assert r[k] == if k < i then s[k] else s[k + 1];
    }
  }

  /** With unique names, removing `u` takes `u` offline and leaves every other user as it was. */
  lemma RemoveUserUnique(s: seq<OnlineUser>, u: Name)
    requires UniqueNames(s)
    ensures UniqueNames(RemoveUser(s, u))
    ensures !IsOnline(RemoveUser(s, u), u)
    ensures forall v :: v != u ==> (IsOnline(RemoveUser(s, u), v) <==> IsOnline(s, v))
  {
    if IsOnline(s, u) {
      var i := FirstUserIndex(s, u);
      RemoveUserAt(s, u, i);
      DeleteAtUnique(s, i);
      forall v | v != u ensures IsOnline(RemoveUser(s, u), v) <==> IsOnline(s, v) {
        DeleteAtOnline(s, i, v);
      }
    } else {
      RemoveUserAbsent(s, u);
    }
  }

  /** Removal keeps only entries that were there, so every name stays nonempty. */
  lemma RemoveUserNamed(s: seq<OnlineUser>, u: Name)
    requires NamedUsers(s)
    ensures NamedUsers(RemoveUser(s, u))
  {
    if IsOnline(s, u) {
      var i := FirstUserIndex(s, u);
      RemoveUserAt(s, u, i);
      DeleteAt(s, i, RemoveUser(s, u));
    } else {
      RemoveUserAbsent(s, u);
    }
  }

  /** A user who is not yet online can be added without creating a duplicate name. */
  lemma AddUserUnique(s: seq<OnlineUser>, u: Name, sock: int, elo: int)
    requires UniqueNames(s) && !IsOnline(s, u)
    ensures UniqueNames(AddUser(s, u, sock, elo))
  {
    var r := AddUser(s, u, sock, elo);
    if |s| < MAX_ONLINE {
      forall i, j | 0 <= i < j < |r| ensures r[i].username != r[j].username {
        if j == |s| { assert r[i] == s[i]; }
      }
    }
  }

  /** Marking users busy keeps every name in its place. */
  lemma MarkBusyNames(s: seq<OnlineUser>, a: Name, b: Name)
    ensures forall i :: 0 <= i < |s| ==> MarkBusy(s, a, b)[i].username == s[i].username
    ensures UniqueNames(s) ==> UniqueNames(MarkBusy(s, a, b))
    ensures forall v :: IsOnline(MarkBusy(s, a, b), v) <==> IsOnline(s, v)
  {
    var r := MarkBusy(s, a, b);
    forall v ensures IsOnline(r, v) <==> IsOnline(s, v) {
      if IsOnline(r, v) { var i :| 0 <= i < |r| && r[i].username == v; assert s[i].username == v; }
      if IsOnline(s, v) { var i :| 0 <= i < |s| && s[i].username == v; assert r[i].username == v; }
    }
  }

  // ------------------------------------------------------------------
  // Pending challenges
  // ------------------------------------------------------------------

  predicate HasPair(s: seq<Pending>, from: Name, to: Name) {
    exists i :: 0 <= i < |s| && s[i].from == from && s[i].to == to
  }

  predicate IsFirstPair(s: seq<Pending>, from: Name, to: Name, i: int) {
    0 <= i < |s| && s[i].from == from && s[i].to == to &&
    forall j :: 0 <= j < i ==> !(s[j].from == from && s[j].to == to)
  }

  /** At most one entry per ordered (from, to) pair. */
  predicate UniquePairs(s: seq<Pending>) {
    forall i, j :: 0 <= i < j < |s| ==> !(s[i].from == s[j].from && s[i].to == s[j].to)
  }

  lemma PairTail(s: seq<Pending>, from: Name, to: Name)
    requires |s| > 0
    requires !(s[0].from == from && s[0].to == to)
    ensures HasPair(s, from, to) <==> HasPair(s[1..], from, to)
  {
    if HasPair(s, from, to) {
      var i :| 0 <= i < |s| && s[i].from == from && s[i].to == to;
      assert s[1..][i - 1] == s[i];
    }
    if HasPair(s[1..], from, to) {
      var i :| 0 <= i < |s[1..]| && s[1..][i].from == from && s[1..][i].to == to;
      assert s[i + 1] == s[1..][i];
    }
  }

  function FirstPairIndex(s: seq<Pending>, from: Name, to: Name): (i: nat)
    requires HasPair(s, from, to)
    ensures IsFirstPair(s, from, to, i)
  {
    if s[0].from == from && s[0].to == to then 0
    else PairTail(s, from, to); 1 + FirstPairIndex(s[1..], from, to)
  }

  /** The pending entry a scan for (from, to) finds. */
  function FirstPair(s: seq<Pending>, from: Name, to: Name): Pending
    requires HasPair(s, from, to)
  {
    s[FirstPairIndex(s, from, to)]
  }

  /** Number of entries for the ordered pair (from, to). */
  function PairCount(s: seq<Pending>, from: Name, to: Name): nat {
    if |s| == 0 then 0
    else (if s[0].from == from && s[0].to == to then 1 else 0) + PairCount(s[1..], from, to)
  }

  /** add_pending: a no-op when the pair is already pending or the table is full,
      otherwise one entry stamped `now` at the end. */
  function AddPair(s: seq<Pending>, from: Name, to: Name, now: int): (r: seq<Pending>)
    ensures |s| < MAX_PENDING ==> HasPair(r, from, to)
    ensures |r| == if !HasPair(s, from, to) && |s| < MAX_PENDING then |s| + 1 else |s|
    ensures HasPair(s, from, to) ==> r == s
    ensures |s| <= |r| && r[..|s|] == s
    ensures |r| > |s| ==> r[|s|] == Pending(from, to, now)
  {
    if HasPair(s, from, to) then s
    else if |s| < MAX_PENDING then
      assert (s + [Pending(from, to, now)])[|s|] == Pending(from, to, now);
      s + [Pending(from, to, now)]
    else s
  }

  /** remove_pending: delete the first entry for (from, to), keeping the others in order. */
  function RemovePair(s: seq<Pending>, from: Name, to: Name): (r: seq<Pending>)
    ensures |r| == if HasPair(s, from, to) then |s| - 1 else |s|
  {
    if |s| == 0 then []
    else if s[0].from == from && s[0].to == to then s[1..]
    else PairTail(s, from, to); [s[0]] + RemovePair(s[1..], from, to)
  }

  lemma {:induction false} RemovePairAt(s: seq<Pending>, from: Name, to: Name, i: int)
    requires IsFirstPair(s, from, to, i)
    ensures RemovePair(s, from, to) == s[..i] + s[i + 1..]
  {
    if i > 0 {
      RemovePairAt(s[1..], from, to, i - 1);
      assert s[1..][..i - 1] == s[1..i];
      assert s[1..][i..] == s[i + 1..];
      assert [s[0]] + s[1..i] == s[..i];
    }
  }

  lemma {:induction false} RemovePairAbsent(s: seq<Pending>, from: Name, to: Name)
    requires !HasPair(s, from, to)
    ensures RemovePair(s, from, to) == s
  {
    if |s| > 0 {
      assert !(s[0].from == from && s[0].to == to);
      PairTail(s, from, to);
      RemovePairAbsent(s[1..], from, to);
      assert [s[0]] + s[1..] == s;
    }
  }

  /** Removing a pair that was just appended restores the table. */
  lemma RemovePairAppended(s: seq<Pending>, from: Name, to: Name, now: int)
    requires !HasPair(s, from, to) && |s| < MAX_PENDING
    ensures RemovePair(AddPair(s, from, to, now), from, to) == s
  {
    var a := s + [Pending(from, to, now)];
    assert IsFirstPair(a, from, to, |s|);
    RemovePairAt(a, from, to, |s|);
    assert a[..|s|] == s;
  }

  lemma DeleteAtPairs(s: seq<Pending>, i: int)
    requires 0 <= i < |s| && UniquePairs(s)
    ensures UniquePairs(s[..i] + s[i + 1..])
    ensures !HasPair(s[..i] + s[i + 1..], s[i].from, s[i].to)
  {
    var r := s[..i] + s[i + 1..];
    DeleteAt(s, i, r);
    forall a, b | 0 <= a < b < |r| ensures !(r[a].from == r[b].from && r[a].to == r[b].to) {
      assert r[a] == if a < i then s[a] else s[a + 1];
      assert r[b] == if b < i then s[b] else s[b + 1];
    }
    forall k | 0 <= k < |r| ensures !(r[k].from == s[i].from && r[k].to == s[i].to) {
      assert r[k] == if k < i then s[k] else s[k + 1];
    }
  }

  lemma DeleteAtEntries(s: seq<Pending>, i: int)
    requires 0 <= i < |s|
    ensures forall p :: p in s && p != s[i] ==> p in s[..i] + s[i + 1..]
    ensures forall p :: p in s[..i] + s[i + 1..] ==> p in s
  {
    var r := s[..i] + s[i + 1..];
    DeleteAt(s, i, r);
    forall p | p in s && p != s[i] ensures p in r {
      var k :| 0 <= k < |s| && s[k] == p;
      assert r[if k < i then k else k - 1] == p;
    }
    forall p | p in r ensures p in s {
      var k :| 0 <= k < |r| && r[k] == p;
      assert p == if k < i then s[k] else s[k + 1];
    }
  }

  /** With unique pairs, removing (from, to) leaves no such entry and every other entry. */
  lemma RemovePairUnique(s: seq<Pending>, from: Name, to: Name)
    requires UniquePairs(s)
    ensures UniquePairs(RemovePair(s, from, to))
    ensures !HasPair(RemovePair(s, from, to), from, to)
    ensures forall p :: p in s && !(p.from == from && p.to == to) ==> p in RemovePair(s, from, to)
    ensures forall p :: p in RemovePair(s, from, to) ==> p in s
  {
    if HasPair(s, from, to) {
      var i := FirstPairIndex(s, from, to);
      RemovePairAt(s, from, to, i);
      DeleteAtPairs(s, i);
      DeleteAtEntries(s, i);
    } else {
      RemovePairAbsent(s, from, to);
    }
  }

  /** Adding keeps at most one entry per ordered pair. */
  lemma AddPairUnique(s: seq<Pending>, from: Name, to: Name, now: int)
    requires UniquePairs(s)
    ensures UniquePairs(AddPair(s, from, to, now))
  {
    var r := AddPair(s, from, to, now);
    if !HasPair(s, from, to) && |s| < MAX_PENDING {
      forall i, j | 0 <= i < j < |r| ensures !(r[i].from == r[j].from && r[i].to == r[j].to) {
        if j == |s| { assert r[i] == s[i]; }
      }
    }
  }

  lemma {:induction false} PairCountZero(s: seq<Pending>, from: Name, to: Name)
    requires !HasPair(s, from, to)
    ensures PairCount(s, from, to) == 0
  {
    if |s| > 0 {
      PairTail(s, from, to);
      PairCountZero(s[1..], from, to);
    }
  }

  lemma {:induction false} PairCountOne(s: seq<Pending>, from: Name, to: Name)
    requires UniquePairs(s) && HasPair(s, from, to)
    ensures PairCount(s, from, to) == 1
  {
    if s[0].from == from && s[0].to == to {
      assert !HasPair(s[1..], from, to);
      PairCountZero(s[1..], from, to);
    } else {
      PairTail(s, from, to);
      PairCountOne(s[1..], from, to);
    }
  }

  /** Proposing the same ordered pair twice leaves exactly one entry for it. */
  lemma AddPairTwice(s: seq<Pending>, from: Name, to: Name, t1: int, t2: int)
    requires UniquePairs(s) && |s| < MAX_PENDING
    ensures AddPair(AddPair(s, from, to, t1), from, to, t2) == AddPair(s, from, to, t1)
    ensures PairCount(AddPair(s, from, to, t1), from, to) == 1
  {
    AddPairUnique(s, from, to, t1);
    PairCountOne(AddPair(s, from, to, t1), from, to);
  }

  // ------------------------------------------------------------------
  // Sweeps of the pending table (remove_all_pending_for, expire_pending)
  // ------------------------------------------------------------------

  /** Which entries a sweep keeps. */
  datatype Criterion = NotInvolving(user: Name) | UnexpiredAt(now: int)

  predicate Keeps(c: Criterion, p: Pending) {
    match c
    case NotInvolving(u) => p.from != u && p.to != u
    case UnexpiredAt(now) => now - p.ts <= CHALLENGE_TIMEOUT
  }

  /** The entries of `s` that `c` keeps, in their original order. */
  function Sweep(s: seq<Pending>, c: Criterion): seq<Pending> {
    if |s| == 0 then []
    else (if Keeps(c, s[0]) then [s[0]] else []) + Sweep(s[1..], c)
  }

  lemma SweepFirst(s: seq<Pending>, c: Criterion)
    requires |s| > 0
    ensures Sweep(s, c) == (if Keeps(c, s[0]) then [s[0]] else []) + Sweep(s[1..], c)
  {
  }

  /** A sweep keeps exactly the entries its criterion accepts. */
  lemma {:induction false} SweepMembers(s: seq<Pending>, c: Criterion)
    ensures forall p :: p in Sweep(s, c) <==> p in s && Keeps(c, p)
  {
    if |s| > 0 {
      SweepMembers(s[1..], c);
      assert s == [s[0]] + s[1..];
    }
  }

  lemma {:induction false} SweepLength(s: seq<Pending>, c: Criterion)
    ensures |Sweep(s, c)| <= |s|
  {
    if |s| > 0 {
      SweepLength(s[1..], c);
    }
  }

  /** Sweeping distributes over concatenation: the relative order of kept entries is preserved. */
  lemma {:induction false} SweepConcat(a: seq<Pending>, b: seq<Pending>, c: Criterion)
    ensures Sweep(a + b, c) == Sweep(a, c) + Sweep(b, c)
  {
    if |a| > 0 {
      SweepConcat(a[1..], b, c);
      assert (a + b)[1..] == a[1..] + b;
    } else {
      assert a + b == b;
    }
  }

  /** When every entry is kept, the sweep changes nothing. */
  lemma {:induction false} SweepKeepsAll(s: seq<Pending>, c: Criterion)
    requires forall k :: 0 <= k < |s| ==> Keeps(c, s[k])
    ensures Sweep(s, c) == s
  {
    if |s| > 0 {
      SweepKeepsAll(s[1..], c);
      assert [s[0]] + s[1..] == s;
    }
  }

  /** Sweeping twice is sweeping once. */
  lemma SweepIdempotent(s: seq<Pending>, c: Criterion)
    ensures Sweep(Sweep(s, c), c) == Sweep(s, c)
  {
    SweepMembers(s, c);
    SweepKeepsAll(Sweep(s, c), c);
  }

  lemma {:induction false} SweepUnique(s: seq<Pending>, c: Criterion)
    requires UniquePairs(s)
    ensures UniquePairs(Sweep(s, c))
  {
    if |s| > 0 {
      SweepUnique(s[1..], c);
      SweepMembers(s[1..], c);
      var t := Sweep(s[1..], c);
      if Keeps(c, s[0]) {
        var r := [s[0]] + t;
        forall i, j | 0 <= i < j < |r| ensures !(r[i].from == r[j].from && r[i].to == r[j].to) {
          if i == 0 {
            assert r[j] in s[1..];
            var k :| 0 <= k < |s[1..]| && s[1..][k] == r[j];
            assert s[k + 1] == r[j];
          }
        }
      }
    }
  }

  /** A pair is pending after a sweep exactly when it was pending before and its first entry is kept. */
  lemma SweepHasPair(s: seq<Pending>, c: Criterion, from: Name, to: Name)
    requires UniquePairs(s)
    ensures HasPair(Sweep(s, c), from, to) <==> HasPair(s, from, to) && Keeps(c, FirstPair(s, from, to))
  {
    SweepMembers(s, c);
    var r := Sweep(s, c);
    if HasPair(r, from, to) {
      var i :| 0 <= i < |r| && r[i].from == from && r[i].to == to;
      assert r[i] in s;
      var k :| 0 <= k < |s| && s[k] == r[i];
      var f := FirstPairIndex(s, from, to);
      assert k == f;
    }
    if HasPair(s, from, to) && Keeps(c, FirstPair(s, from, to)) {
      var f := FirstPairIndex(s, from, to);
      assert s[f] in r;
    }
  }

  // ------------------------------------------------------------------
  // Rate-limit history
  // ------------------------------------------------------------------

  predicate HasRecent(s: seq<Recent>, u: Name) {
    exists i :: 0 <= i < |s| && s[i].username == u
  }

  predicate IsFirstRecent(s: seq<Recent>, u: Name, i: int) {
    0 <= i < |s| && s[i].username == u && forall j :: 0 <= j < i ==> s[j].username != u
  }

  function FirstRecentIndex(s: seq<Recent>, u: Name): (i: nat)
    requires HasRecent(s, u)
    ensures IsFirstRecent(s, u, i)
  {
    if s[0].username == u then 0
    else
      assert HasRecent(s[1..], u) by {
        var i :| 0 <= i < |s| && s[i].username == u;
        assert s[1..][i - 1].username == u;
      }
      1 + FirstRecentIndex(s[1..], u)
  }

  /** A stamp counts toward the limit when it was written (nonzero) and lies in the window. */
  predicate IsHit(t: int, now: int) {
    t != 0 && now - t <= RATE_LIMIT_WINDOW
  }

  /** Number of stamps in `times` that count toward the limit at `now`. */
  function Hits(times: seq<int>, now: int): nat {
    if |times| == 0 then 0 else (if IsHit(times[0], now) then 1 else 0) + Hits(times[1..], now)
  }

  /** is_rate_limited: the user's record (the first one found) holds at least RATE_LIMIT_COUNT hits. */
  predicate RateLimited(s: seq<Recent>, u: Name, now: int) {
    HasRecent(s, u) && Hits(s[FirstRecentIndex(s, u)].times, now) >= RATE_LIMIT_COUNT
  }

  function EmptyRecord(u: Name): Recent {
    Recent(u, seq(16, _ => 0), 0)
  }

  /** The ring write `times[idx % 16] = now; idx++`. */
  function Stamp(r: Recent, now: int): Recent {
    r.(times := r.times[r.idx % RING_SIZE := now], idx := r.idx + 1)
  }

  /** record_challenge_time: stamp the user's record, creating it (if there is room) first. */
  function Record(s: seq<Recent>, u: Name, now: int): (r: seq<Recent>)
    ensures |r| == if !HasRecent(s, u) && |s| < MAX_RECENT then |s| + 1 else |s|
    ensures forall k :: 0 <= k < |s| ==> r[k].username == s[k].username
  {
    if HasRecent(s, u) then
      var i := FirstRecentIndex(s, u);
      s[i := Stamp(s[i], now)]
    else if |s| < MAX_RECENT then s + [Stamp(EmptyRecord(u), now)]
    else s
  }

  /** Counting slot by slot, from the front. */
  lemma {:induction false} HitsSnoc(t: seq<int>, x: int, now: int)
    ensures Hits(t + [x], now) == Hits(t, now) + (if IsHit(x, now) then 1 else 0)
  {
    if |t| > 0 {
      HitsSnoc(t[1..], x, now);
      assert (t + [x])[1..] == t[1..] + [x];
    } else {
      assert (t + [x])[1..] == [];
    }
  }

  /** Overwriting one slot changes the hit count by what leaves and what enters. */
  lemma {:induction false} HitsUpdate(t: seq<int>, k: int, v: int, now: int)
    requires 0 <= k < |t|
    ensures Hits(t[k := v], now) + (if IsHit(t[k], now) then 1 else 0)
         == Hits(t, now) + (if IsHit(v, now) then 1 else 0)
  {
    if k > 0 {
      HitsUpdate(t[1..], k - 1, v, now);
      assert t[k := v][1..] == t[1..][k - 1 := v];
    } else {
      assert t[k := v][1..] == t[1..];
    }
  }

  /** The hit count is at least the hits in any three distinct slots. */
  lemma HitsThreeSlots(t: seq<int>, i: int, j: int, k: int, now: int)
    requires 0 <= i < |t| && 0 <= j < |t| && 0 <= k < |t| && i != j && j != k && i != k
    requires IsHit(t[i], now) && IsHit(t[j], now) && IsHit(t[k], now)
    ensures Hits(t, now) >= 3
  {
    HitsUpdate(t, i, 0, now);
    var t1 := t[i := 0];
    HitsUpdate(t1, j, 0, now);
    var t2 := t1[j := 0];
    HitsUpdate(t2, k, 0, now);
  }

  /** No hit at all when every written stamp is older than the window. */
  lemma {:induction false} HitsQuiet(t: seq<int>, now: int)
    requires forall k :: 0 <= k < |t| ==> !IsHit(t[k], now)
    ensures Hits(t, now) == 0
  {
    if |t| > 0 { HitsQuiet(t[1..], now); }
  }

  /** After a record, the user's record is the old one (or a new empty one) stamped once. */
  lemma RecordLookup(s: seq<Recent>, u: Name, now: int)
    requires HasRecent(s, u) || |s| < MAX_RECENT
    ensures HasRecent(Record(s, u, now), u)
    ensures Record(s, u, now)[FirstRecentIndex(Record(s, u, now), u)]
         == Stamp(if HasRecent(s, u) then s[FirstRecentIndex(s, u)] else EmptyRecord(u), now)
  {
    var r := Record(s, u, now);
    if HasRecent(s, u) {
      var i := FirstRecentIndex(s, u);
      assert IsFirstRecent(r, u, i);
      assert r[i].username == u;
      var f := FirstRecentIndex(r, u);
      assert f == i;
    } else {
      assert r[|s|].username == u;
      var f := FirstRecentIndex(r, u);
      assert f == |s|;
    }
  }

  /** Three proposals recorded inside one window make the user rate-limited, so the next
      proposal inside the window is refused. */
  lemma ThreeInWindowLimits(s: seq<Recent>, u: Name, t1: int, t2: int, t3: int, now: int)
    requires HasRecent(s, u) || |s| < MAX_RECENT
    requires IsHit(t1, now) && IsHit(t2, now) && IsHit(t3, now)
    ensures RateLimited(Record(Record(Record(s, u, t1), u, t2), u, t3), u, now)
  {
    var base := if HasRecent(s, u) then s[FirstRecentIndex(s, u)] else EmptyRecord(u);
    var s1 := Record(s, u, t1);
    RecordLookup(s, u, t1);
    var s2 := Record(s1, u, t2);
    RecordLookup(s1, u, t2);
    RecordLookup(s2, u, t3);
    StampThrice(base, t1, t2, t3, now);
  }

  /** Three consecutive ring writes land in three distinct slots. */
  lemma StampThrice(r: Recent, t1: int, t2: int, t3: int, now: int)
    requires IsHit(t1, now) && IsHit(t2, now) && IsHit(t3, now)
    ensures Hits(Stamp(Stamp(Stamp(r, t1), t2), t3).times, now) >= 3
  {
    var n := r.idx;
    var ring := Stamp(Stamp(Stamp(r, t1), t2), t3).times;
    assert ring[n % 16] == t1;
    assert ring[(n + 1) % 16] == t2;
    assert ring[(n + 2) % 16] == t3;
    HitsThreeSlots(ring, n % 16, (n + 1) % 16, (n + 2) % 16, now);
  }

  /** Once every stamp of the user's record has left the window, the user is not limited. */
  lemma QuietWindowNotLimited(s: seq<Recent>, u: Name, now: int)
    requires HasRecent(s, u)
    requires forall k :: 0 <= k < RING_SIZE ==> !IsHit(s[FirstRecentIndex(s, u)].times[k], now)
    ensures !RateLimited(s, u, now)
  {
    HitsQuiet(s[FirstRecentIndex(s, u)].times, now);
  }
}
