/**
 * Choosing the winners of a draw. With floors given, the winners are the posts at those
 * post numbers that the creator did not write; otherwise each user who replied (other than
 * the creator) is represented by their earliest reply, and a random sample of those replies
 * of the configured size wins.
 */
module WinnerSelection {
  import opened Wrappers
  import opened RubyText
  import opened RubyArray
  import opened Lotteries

  // ---------------------------------------------------------------------------
  // Ordering posts by a column
  // ---------------------------------------------------------------------------

  predicate SortedBy(ps: seq<Post>, key: Post -> int) {
    forall i, j :: 0 <= i < j < |ps| ==> key(ps[i]) <= key(ps[j])
  }

  /** `order(column)`: the same posts, ascending in `key`; ties may come in any order. */
  predicate IsOrderBy(ps: seq<Post>, ordered: seq<Post>, key: Post -> int) {
    multiset(ordered) == multiset(ps) && SortedBy(ordered, key)
  }

  function InsertBy(p: Post, ps: seq<Post>, key: Post -> int): (r: seq<Post>)
    requires SortedBy(ps, key)
    ensures multiset(r) == multiset(ps) + multiset{p}
    ensures SortedBy(r, key)
  {
    if |ps| == 0 || key(p) <= key(ps[0]) then [p] + ps
    else
      var rest := InsertBy(p, ps[1..], key);
      InsertStep(p, ps, rest, key);
      [ps[0]] + rest
  }

  lemma InsertStep(p: Post, ps: seq<Post>, rest: seq<Post>, key: Post -> int)
    requires |ps| > 0 && SortedBy(ps, key) && key(ps[0]) < key(p)
    requires multiset(rest) == multiset(ps[1..]) + multiset{p} && SortedBy(rest, key)
    ensures multiset([ps[0]] + rest) == multiset(ps) + multiset{p}
    ensures SortedBy([ps[0]] + rest, key)
  {
    assert ps == [ps[0]] + ps[1..];
    forall i | 0 <= i < |rest| ensures key(ps[0]) <= key(rest[i]) {
      assert rest[i] in multiset(rest);
      if rest[i] != p {
        assert rest[i] in multiset(ps[1..]);
        var k :| 0 <= k < |ps[1..]| && ps[1..][k] == rest[i];
        assert ps[k + 1] == rest[i];
      }
    }
    var r := [ps[0]] + rest;
    forall i, j | 0 <= i < j < |r| ensures key(r[i]) <= key(r[j]) {
      if i > 0 {
        assert r[i] == rest[i - 1] && r[j] == rest[j - 1];
      } else {
        assert r[j] == rest[j - 1];
      }
    }
  }

  /** An order by `key` (insertion sort): the order the database gives when keys are unique. */
  function SortBy(ps: seq<Post>, key: Post -> int): (r: seq<Post>)
    ensures IsOrderBy(ps, r, key)
  {
    if |ps| == 0 then []
    else
      assert ps == [ps[0]] + ps[1..];
      InsertBy(ps[0], SortBy(ps[1..], key), key)
  }

  /** Ordering keeps the posts: as many, and the same ones. */
  lemma OrderKeepsPosts(ps: seq<Post>, ordered: seq<Post>, key: Post -> int)
    requires IsOrderBy(ps, ordered, key)
    ensures |ordered| == |ps|
    ensures forall p :: p in ordered <==> p in ps
  {
    assert |ordered| == |multiset(ordered)| == |multiset(ps)| == |ps|;
    forall p ensures p in ordered <==> p in ps {
      assert p in ordered <==> p in multiset(ordered);
      assert p in ps <==> p in multiset(ps);
    }
  }

  // ---------------------------------------------------------------------------
  // Winners by floor
  // ---------------------------------------------------------------------------

  /** `specific_floors.split(',').map(&:to_i).uniq`: the distinct numbers read from the comma-separated pieces. */
  function FloorList(spec: string): (floors: seq<int>)
    ensures Distinct(floors)
    ensures forall n :: n in floors <==> exists i :: 0 <= i < |Split(spec, ',')| && ToI(Split(spec, ',')[i]) == n
  {
    var pieces := Split(spec, ',');
    ToIAllMembers(pieces);
    Uniq(ToIAll(pieces))
  }

  /** Post numbers written as a comma-separated list. */
  function FloorText(ns: seq<int>): string {
    Join(IntsToS(ns), ',')
  }

  function IntsToS(ns: seq<int>): (ss: seq<string>)
    ensures |ss| == |ns|
    ensures forall i :: 0 <= i < |ns| ==> ss[i] == IntToS(ns[i])
  {
    if |ns| == 0 then [] else [IntToS(ns[0])] + IntsToS(ns[1..])
  }

  /** Reading a written list of floors gives back exactly the floors written. */
  lemma FloorListOfFloorText(ns: seq<int>)
    ensures forall n :: n in FloorList(FloorText(ns)) <==> n in ns
  {
    FloorTextPieces(ns);
    var pieces := Split(FloorText(ns), ',');
    forall i | 0 <= i < |pieces| ensures ToI(pieces[i]) == ns[i] {
      ToIOfIntToS(ns[i]);
    }
    forall n ensures n in FloorList(FloorText(ns)) <==> n in ns {
      if n in ns {
        var i :| 0 <= i < |ns| && ns[i] == n;
        assert ToI(pieces[i]) == n;
      }
    }
  }

  /** A written list of floors splits into the decimal texts of the floors. */
  lemma FloorTextPieces(ns: seq<int>)
    ensures Split(FloorText(ns), ',') == IntsToS(ns)
  {
    var ss := IntsToS(ns);
    forall i | 0 <= i < |ss| ensures ss[i] != "" && ',' !in ss[i] {
      IntToSShape(ns[i]);
      NoDigitComma(ns[i]);
    }
    SplitOfJoin(ss, ',');
  }

  lemma NoDigitComma(n: int)
    ensures ',' !in IntToS(n)
  {
    var m := if n < 0 then -n else n;
    var w := NatToS(m);
    if n < 0 {
      assert IntToS(n) == "-" + w;
      assert forall k :: 0 <= k < |IntToS(n)| ==> IntToS(n)[k] == '-' || IntToS(n)[k] == w[k - 1];
    }
  }

  function PostNumberOf(p: Post): int {
    p.postNumber
  }

  /** The posts the floor query selects: at one of the floors and not written by the creator. */
  function FloorPosts(floors: seq<int>, posts: seq<Post>, creatorId: int): (ps: seq<Post>)
    ensures |ps| <= |posts|
    ensures forall p :: p in ps <==> p in posts && p.postNumber in floors && p.userId != creatorId
  {
    Filter(posts, (p: Post) => p.postNumber in floors && p.userId != creatorId)
  }

  /** Post numbers never descend along a list of winners. */
  predicate WinnersAscend(ws: seq<Winner>) {
    forall i, j :: 0 <= i < j < |ws| ==> ws[i].postNumber <= ws[j].postNumber
  }

  /**
   * `find_winners_by_floor`: the posts at the given floors not written by the creator,
   * ordered by post number. Every winner is at one of the floors and the list ascends by
   * floor; the winner count plays no part.
   */
  function FloorWinners(floors: seq<int>, posts: seq<Post>, creatorId: int): (ws: seq<Winner>)
    ensures |ws| <= |posts|
    ensures forall w :: w in ws ==> w.userId != creatorId && w.postNumber in floors
    ensures WinnersAscend(ws)
  {
    var selected := FloorPosts(floors, posts, creatorId);
    var ordered := SortBy(selected, PostNumberOf);
    OrderKeepsPosts(selected, ordered, PostNumberOf);
    var ws := WinnersOf(ordered);
    forall w | w in ws ensures w.userId != creatorId && w.postNumber in floors {
      var i :| 0 <= i < |ws| && ws[i] == w;
      assert ordered[i] in ordered;
    }
    forall i, j | 0 <= i < j < |ws| ensures ws[i].postNumber <= ws[j].postNumber {
      assert PostNumberOf(ordered[i]) <= PostNumberOf(ordered[j]);
    }
    ws
  }

  /** The floor winners are exactly the posts at the floors not written by the creator. */
  lemma FloorWinnersMembers(floors: seq<int>, posts: seq<Post>, creatorId: int)
    ensures forall w :: w in FloorWinners(floors, posts, creatorId) <==>
      exists p :: p in posts && p.postNumber in floors && p.userId != creatorId && w == WinnerOf(p)
  {
    var selected := FloorPosts(floors, posts, creatorId);
    var ordered := SortBy(selected, PostNumberOf);
    var ws := FloorWinners(floors, posts, creatorId);
    assert ws == WinnersOf(ordered);
    OrderKeepsPosts(selected, ordered, PostNumberOf);
    forall w | w in ws
      ensures exists p :: p in posts && p.postNumber in floors && p.userId != creatorId && w == WinnerOf(p)
    {
      var i :| 0 <= i < |ws| && ws[i] == w;
      assert ordered[i] in ordered;
    }
    forall p | p in posts && p.postNumber in floors && p.userId != creatorId ensures WinnerOf(p) in ws {
      assert p in ordered;
      var i :| 0 <= i < |ordered| && ordered[i] == p;
      assert ws[i] == WinnerOf(p);
    }
  }

  /** Nobody wins by floor exactly when no post at the floors was written by someone other than the creator. */
  lemma FloorWinnersEmpty(floors: seq<int>, posts: seq<Post>, creatorId: int)
    ensures FloorWinners(floors, posts, creatorId) == [] <==>
      forall p :: p in posts ==> p.postNumber !in floors || p.userId == creatorId
  {
    var ws := FloorWinners(floors, posts, creatorId);
    FloorWinnersMembers(floors, posts, creatorId);
    if ws != [] {
      assert ws[0] in ws;
    }
    forall p | p in posts && p.postNumber in floors && p.userId != creatorId ensures WinnerOf(p) in ws {
    }
  }

  // ---------------------------------------------------------------------------
  // Winners at random
  // ---------------------------------------------------------------------------

  /** The replies that take part in a random draw, in the order of the topic's posts. */
  function Candidates(posts: seq<Post>, creatorId: int): (cs: seq<Post>)
    ensures forall p :: p in cs <==> p in posts && IsCandidate(p, creatorId)
  {
    Filter(posts, (p: Post) => IsCandidate(p, creatorId))
  }

  function CreatedAtOf(p: Post): int {
    p.createdAt
  }

  /** `order(:created_at)`: the same posts, by creation time; ties may come in any order. */
  predicate IsCreatedAtOrder(ps: seq<Post>, ordered: seq<Post>) {
    IsOrderBy(ps, ordered, CreatedAtOf)
  }

  /** One order by creation time, showing that such an order exists. */
  function SortByCreatedAt(ps: seq<Post>): (r: seq<Post>)
    ensures IsCreatedAtOrder(ps, r)
  {
    SortBy(ps, CreatedAtOf)
  }

  /** `idx` are the positions `Array#sample(n)` may pick from `len` elements: `min(n, len)` distinct ones, in any order. */
  predicate IsSamplePositions(len: nat, n: int, idx: seq<nat>) {
    && |idx| == Min(n, len)
    && (forall k :: 0 <= k < |idx| ==> idx[k] < len)
    && (forall k, m :: 0 <= k < m < |idx| ==> idx[k] != idx[m])
  }

  /** The elements of `xs` at positions `idx`. */
  function At<T>(xs: seq<T>, idx: seq<nat>): (ys: seq<T>)
    requires forall k :: 0 <= k < |idx| ==> idx[k] < |xs|
    ensures |ys| == |idx|
    ensures forall k :: 0 <= k < |idx| ==> ys[k] == xs[idx[k]]
  {
    if |idx| == 0 then [] else [xs[idx[0]]] + At(xs, idx[1..])
  }

  lemma FirstPositions(len: nat, n: int)
    requires n >= 0
    ensures IsSamplePositions(len, n, seq(Min(n, len), k => k))
  {
  }

  function UserIdOf(p: Post): int {
    p.userId
  }

  /** `q` is a candidate reply and no candidate reply of the same user is older. */
  ghost predicate IsEarliestReply(posts: seq<Post>, creatorId: int, q: Post) {
    && q in posts && IsCandidate(q, creatorId)
    && forall q' :: q' in posts && IsCandidate(q', creatorId) && q'.userId == q.userId ==> q.createdAt <= q'.createdAt
  }

  /**
   * What a random draw may give: as many winners as the winner count allows among the
   * distinct participants, no user twice, and each winner the earliest candidate reply of
   * its user.
   */
  ghost predicate IsRandomDraw(posts: seq<Post>, creatorId: int, winnerCount: int, ws: seq<Winner>) {
    && |ws| == Min(winnerCount, ParticipatingUserCount(posts, creatorId))
    && (forall i, j :: 0 <= i < j < |ws| ==> ws[i].userId != ws[j].userId)
    && (forall w :: w in ws ==> exists q :: IsEarliestReply(posts, creatorId, q) && w == WinnerOf(q))
  }

  /** Applying `WinnerOf` to each post. */
  function WinnersOf(ps: seq<Post>): (ws: seq<Winner>)
    ensures |ws| == |ps|
    ensures forall i :: 0 <= i < |ps| ==> ws[i] == WinnerOf(ps[i])
  {
    if |ps| == 0 then [] else [WinnerOf(ps[0])] + WinnersOf(ps[1..])
  }

  /**
   * `find_winners_by_random`: the candidate replies by creation time, the first of each
   * user, and a random sample of `winnerCount` of them.
   */
  method FindWinnersByRandom(posts: seq<Post>, creatorId: int, winnerCount: int) returns (ws: seq<Winner>)
    requires winnerCount >= 0
    ensures IsRandomDraw(posts, creatorId, winnerCount, ws)
  {
    var participants := Candidates(posts, creatorId);
    if |participants| == 0 {
      assert ParticipatingUserCount(posts, creatorId) == 0;
      return [];
    }
    assert IsCreatedAtOrder(participants, SortByCreatedAt(participants));
    var ordered :| IsCreatedAtOrder(participants, ordered);
    var unique := UniqBy(ordered, UserIdOf);
    FirstPositions(|unique|, winnerCount);
    var idx: seq<nat> :| IsSamplePositions(|unique|, winnerCount, idx);
    assert IsSamplePositions(|unique|, winnerCount, idx);
    assert forall k :: 0 <= k < |idx| ==> idx[k] < |unique|;
    ws := WinnersOf(At(unique, idx));
    RandomDrawOf(posts, creatorId, winnerCount, participants, ordered, unique, idx, ws);
  }

  /** The random draw of `find_winners_by_random`, step by step, satisfies `IsRandomDraw`. */
  lemma RandomDrawOf(posts: seq<Post>, creatorId: int, winnerCount: int, participants: seq<Post>,
                     ordered: seq<Post>, unique: seq<Post>, idx: seq<nat>, ws: seq<Winner>)
    requires winnerCount >= 0
    requires participants == Candidates(posts, creatorId)
    requires IsCreatedAtOrder(participants, ordered)
    requires unique == UniqBy(ordered, UserIdOf)
    requires IsSamplePositions(|unique|, winnerCount, idx)
    requires ws == WinnersOf(At(unique, idx))
    ensures IsRandomDraw(posts, creatorId, winnerCount, ws)
  {
    UniqueCount(posts, creatorId, participants, ordered, unique);
    // distinct positions of `unique` hold distinct users
    forall i, j | 0 <= i < j < |ws| ensures ws[i].userId != ws[j].userId {
      assert ws[i].userId == UserIdOf(unique[idx[i]]) && ws[j].userId == UserIdOf(unique[idx[j]]);
      if idx[i] < idx[j] {
      } else {
        assert idx[j] < idx[i];
      }
    }
    forall w | w in ws
      ensures exists q :: IsEarliestReply(posts, creatorId, q) && w == WinnerOf(q)
    {
      var i :| 0 <= i < |ws| && ws[i] == w;
      EarliestOfUnique(posts, creatorId, participants, ordered, unique, idx[i]);
    }
  }

  /** Each element of the deduplicated ordering is the earliest candidate reply of its user. */
  lemma EarliestOfUnique(posts: seq<Post>, creatorId: int, participants: seq<Post>,
                         ordered: seq<Post>, unique: seq<Post>, j: nat)
    requires participants == Candidates(posts, creatorId)
    requires IsCreatedAtOrder(participants, ordered)
    requires unique == UniqBy(ordered, UserIdOf)
    requires j < |unique|
    ensures IsEarliestReply(posts, creatorId, unique[j])
  {
    var q := unique[j];
    assert IsFirstWithKey(ordered, UserIdOf, q);
    var k :| 0 <= k < |ordered| && ordered[k] == q
      && forall m :: 0 <= m < k ==> UserIdOf(ordered[m]) != UserIdOf(q);
    assert q in multiset(ordered);
    assert q in participants;
    forall q' | q' in posts && IsCandidate(q', creatorId) && q'.userId == q.userId
      ensures q.createdAt <= q'.createdAt
    {
      assert q' in multiset(participants);
      var m :| 0 <= m < |ordered| && ordered[m] == q';
      assert !(m < k);
    }
  }

  /** The deduplicated ordering has one reply per participant. */
  lemma UniqueCount(posts: seq<Post>, creatorId: int, participants: seq<Post>, ordered: seq<Post>, unique: seq<Post>)
    requires participants == Candidates(posts, creatorId)
    requires IsCreatedAtOrder(participants, ordered)
    requires unique == UniqBy(ordered, UserIdOf)
    ensures |unique| == ParticipatingUserCount(posts, creatorId)
  {
    OrderedKeys(posts, creatorId, participants, ordered);
    DistinctKeysCount(unique, UserIdOf);
  }

  /** The users of the ordered candidates are the participants. */
  lemma OrderedKeys(posts: seq<Post>, creatorId: int, participants: seq<Post>, ordered: seq<Post>)
    requires participants == Candidates(posts, creatorId)
    requires IsCreatedAtOrder(participants, ordered)
    ensures KeySet(ordered, UserIdOf) == ParticipantIds(posts, creatorId)
  {
    forall u | u in KeySet(ordered, UserIdOf) ensures u in ParticipantIds(posts, creatorId) {
      var p :| p in ordered && UserIdOf(p) == u;
      assert p in multiset(participants);
    }
    forall u | u in ParticipantIds(posts, creatorId) ensures u in KeySet(ordered, UserIdOf) {
      var p :| p in posts && IsCandidate(p, creatorId) && p.userId == u;
      assert p in participants;
      assert p in multiset(participants);
      assert p in ordered;
      assert UserIdOf(p) == u;
    }
  }

  /** A sequence whose keys are distinct has as many keys as elements. */
  lemma {:induction false} DistinctKeysCount<T(!new), K>(s: seq<T>, key: T -> K)
    requires DistinctKeys(s, key)
    ensures |KeySet(s, key)| == |s|
    decreases |s|
  {
    if |s| > 0 {
      assert DistinctKeys(s[1..], key) by {
        forall i, j | 0 <= i < j < |s[1..]| ensures key(s[1..][i]) != key(s[1..][j]) {
          assert s[1..][i] == s[i + 1] && s[1..][j] == s[j + 1];
        }
      }
      DistinctKeysCount(s[1..], key);
      KeySetOfCons(s, key);
      assert key(s[0]) !in KeySet(s[1..], key) by {
        forall x | x in s[1..] ensures key(x) != key(s[0]) {
          var j :| 0 <= j < |s[1..]| && s[1..][j] == x;
          assert s[j + 1] == x;
        }
      }
    } else {
      assert KeySet(s, key) == {};
    }
  }

  // ---------------------------------------------------------------------------
  // Dispatch
  // ---------------------------------------------------------------------------

  /** What `find_winners` may give: the floor winners when floors are present, a random draw otherwise. */
  ghost predicate IsWinnerResult(params: LotteryParams, posts: seq<Post>, ws: seq<Winner>) {
    if !IsBlankOpt(params.specificFloors) then
      ws == FloorWinners(FloorList(params.specificFloors.value), posts, params.createdById)
    else
      IsRandomDraw(posts, params.createdById, params.winnerCount, ws)
  }

  /** Whether any post qualifies for the draw: one at the floors, or any candidate reply. */
  predicate HasQualifyingPost(params: LotteryParams, posts: seq<Post>) {
    if !IsBlankOpt(params.specificFloors) then
      exists p :: p in posts && p.postNumber in FloorList(params.specificFloors.value) && p.userId != params.createdById
    else
      exists p :: p in posts && IsCandidate(p, params.createdById)
  }

  /**
   * `find_winners`: by floor when `specific_floors` is present, at random otherwise. The
   * result is empty exactly when no post qualifies, never names the creator, and lists
   * floor winners by floor.
   */
  method FindWinners(params: LotteryParams, posts: seq<Post>) returns (ws: seq<Winner>)
    requires params.winnerCount > 0
    ensures IsWinnerResult(params, posts, ws)
    ensures ws == [] <==> !HasQualifyingPost(params, posts)
    ensures forall w :: w in ws ==> w.userId != params.createdById
    ensures !IsBlankOpt(params.specificFloors) ==> WinnersAscend(ws)
  {
    if !IsBlankOpt(params.specificFloors) {
      ws := FloorWinners(FloorList(params.specificFloors.value), posts, params.createdById);
      FloorWinnersEmpty(FloorList(params.specificFloors.value), posts, params.createdById);
    } else {
      ws := FindWinnersByRandom(posts, params.createdById, params.winnerCount);
      RandomDrawFacts(posts, params.createdById, params.winnerCount, ws);
    }
  }

  /** Whether a result is empty is fixed by the posts, whatever the random choice. */
  lemma WinnerResultEmpty(params: LotteryParams, posts: seq<Post>, ws: seq<Winner>)
    requires params.winnerCount > 0 && IsWinnerResult(params, posts, ws)
    ensures ws == [] <==> !HasQualifyingPost(params, posts)
  {
    if !IsBlankOpt(params.specificFloors) {
      FloorWinnersEmpty(FloorList(params.specificFloors.value), posts, params.createdById);
    } else {
      RandomDrawFacts(posts, params.createdById, params.winnerCount, ws);
    }
  }

  /** A random draw never picks the creator, and is empty exactly when nobody else replied. */
  lemma RandomDrawFacts(posts: seq<Post>, creatorId: int, winnerCount: int, ws: seq<Winner>)
    requires winnerCount > 0 && IsRandomDraw(posts, creatorId, winnerCount, ws)
    ensures ws == [] <==> forall p :: p in posts ==> !IsCandidate(p, creatorId)
    ensures forall w :: w in ws ==> w.userId != creatorId
  {
  }
}
