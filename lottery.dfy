/**
 * The lottery record: its status and draw-type enums, the validations a record must pass to
 * be saved, the participant count, and the table of saved lotteries with its one-per-topic
 * rule. Topics and their posts are the records the engine reads.
 */
module Lotteries {
  import opened Wrappers
  import opened RubyText

  // ---------------------------------------------------------------------------
  // Enums
  // ---------------------------------------------------------------------------

  datatype Status = Running | Finished | Cancelled

  /** The integer stored in the `status` column. */
  function StatusCode(s: Status): nat {
    match s
    case Running => 0
    case Finished => 1
    case Cancelled => 2
  }

  /** Reading the `status` column back: the codes 0, 1 and 2 and nothing else. */
  function StatusOfCode(c: int): (r: Option<Status>)
    ensures r.Some? <==> 0 <= c <= 2
    ensures r.Some? ==> StatusCode(r.value) == c
  {
    if c == 0 then Some(Running)
    else if c == 1 then Some(Finished)
    else if c == 2 then Some(Cancelled)
    else None
  }

  datatype DrawType = ByTime | ByReply

  /** The integer stored in the `draw_type` column. */
  function DrawTypeCode(d: DrawType): nat {
    match d
    case ByTime => 1
    case ByReply => 2
  }

  /** Reading the `draw_type` column back: the codes 1 and 2 and nothing else. */
  function DrawTypeOfCode(c: int): (r: Option<DrawType>)
    ensures r.Some? <==> 1 <= c <= 2
    ensures r.Some? ==> DrawTypeCode(r.value) == c
  {
    if c == 1 then Some(ByTime)
    else if c == 2 then Some(ByReply)
    else None
  }

  /** The tag of a topic whose lottery is running ("lottery running"). */
  const RunningTag := "抽奖中"

  /** The tag of a topic whose lottery has been drawn ("drawn"). */
  const DrawnTag := "已开奖"

  // ---------------------------------------------------------------------------
  // Posts and winners
  // ---------------------------------------------------------------------------

  /** A post of a topic, with the fields the draw reads; `createdAt` is a timestamp. */
  datatype Post = Post(postNumber: int, userId: int, username: string, createdAt: int)

  /** One entry of `winner_data`. */
  datatype Winner = Winner(userId: int, username: string, postNumber: int)

  function WinnerOf(p: Post): (w: Winner)
    ensures w.userId == p.userId && w.username == p.username && w.postNumber == p.postNumber
  {
    Winner(p.userId, p.username, p.postNumber)
  }

  /** A post that takes part in a draw: a reply (not the first post) by someone other than the creator. */
  predicate IsCandidate(p: Post, creatorId: int) {
    p.postNumber > 1 && p.userId != creatorId
  }

  /** The users taking part in a draw. */
  function ParticipantIds(posts: seq<Post>, creatorId: int): set<int> {
    set p | p in posts && IsCandidate(p, creatorId) :: p.userId
  }

  /**
   * `participating_user_count`: the number of distinct authors of replies other than the
   * creator. It is zero exactly when there is no such reply, and never counts the creator.
   */
  function ParticipatingUserCount(posts: seq<Post>, creatorId: int): (n: nat)
    ensures n == 0 <==> forall p :: p in posts ==> !IsCandidate(p, creatorId)
    ensures n <= |posts|
  {
    ParticipantIdsFacts(posts, creatorId);
    |ParticipantIds(posts, creatorId)|
  }

  lemma ParticipantIdsFacts(posts: seq<Post>, creatorId: int)
    ensures |ParticipantIds(posts, creatorId)| <= |posts|
    ensures ParticipantIds(posts, creatorId) == {} <==> forall p :: p in posts ==> !IsCandidate(p, creatorId)
  {
    if exists p :: p in posts && IsCandidate(p, creatorId) {
      var p :| p in posts && IsCandidate(p, creatorId);
      assert p.userId in ParticipantIds(posts, creatorId);
    }
    ParticipantIdsBound(posts, creatorId);
  }

  lemma {:induction false} ParticipantIdsBound(posts: seq<Post>, creatorId: int)
    ensures |ParticipantIds(posts, creatorId)| <= |posts|
    decreases |posts|
  {
    if |posts| > 0 {
      ParticipantIdsBound(posts[1..], creatorId);
      var ids := ParticipantIds(posts, creatorId);
      var tail := ParticipantIds(posts[1..], creatorId);
      assert ids <= tail + {posts[0].userId} by {
        forall u | u in ids ensures u in tail + {posts[0].userId} {
          var p :| p in posts && IsCandidate(p, creatorId) && p.userId == u;
          if p != posts[0] {
            assert p in posts[1..];
          }
        }
      }
      assert |tail + {posts[0].userId}| <= |tail| + 1;
      SubsetSize(ids, tail + {posts[0].userId});
    } else {
      assert ParticipantIds(posts, creatorId) == {};
    }
  }

  lemma SubsetSize(a: set<int>, b: set<int>)
    requires a <= b
    ensures |a| <= |b|
  {
    assert b == a + (b - a);
  }

  // ---------------------------------------------------------------------------
  // The record
  // ---------------------------------------------------------------------------

  /** The columns a lottery is created with. */
  datatype LotteryParams = LotteryParams(
    topicId: int,
    postId: int,
    createdById: int,
    name: string,
    prize: string,
    winnerCount: int,
    drawType: DrawType,
    drawAt: Option<int>,
    drawReplyCount: Option<int>,
    specificFloors: Option<string>,
    description: Option<string>,
    extraInfo: Option<string>)

  const MaxNameLength := 255

  /**
   * The model validations: a present name of at most 255 characters, a present prize and a
   * winner count above zero. Presence of the draw type is carried by its type; the
   * uniqueness of the topic is kept by `LotteryTable`.
   */
  predicate Validates(p: LotteryParams) {
    && !IsBlank(p.name) && |p.name| <= MaxNameLength
    && !IsBlank(p.prize)
    && p.winnerCount > 0
  }

  /** The range of a 4-byte `integer` column. */
  const MinInt4 := -0x8000_0000
  const MaxInt4 := 0x7FFF_FFFF

  predicate FitsInt4(n: int) {
    MinInt4 <= n <= MaxInt4
  }

  /**
   * Every integer of the record fits its 4-byte column (`topic_id`, `post_id`,
   * `created_by_id`, `winner_count`, `draw_reply_count`); inserting one that does not
   * raises a range error.
   */
  predicate FitsColumns(p: LotteryParams) {
    && FitsInt4(p.topicId) && FitsInt4(p.postId) && FitsInt4(p.createdById)
    && FitsInt4(p.winnerCount)
    && (p.drawReplyCount.Some? ==> FitsInt4(p.drawReplyCount.value))
  }

  /** What `Lottery.create` did: stored the record, refused it in validation, or raised on insert. */
  datatype Insert = Saved | NotValid | OutOfRange

  /** A saved lottery. `status` and `winner_data` are the columns a draw updates in place. */
  class Lottery {
    const id: int
    const params: LotteryParams
    var status: Status
    var winnerData: Option<seq<Winner>>

    constructor (id: int, params: LotteryParams)
      ensures this.id == id && this.params == params
      ensures status == Running && winnerData == None
    {
      this.id := id;
      this.params := params;
      status := Running;
      winnerData := None;
    }
  }

  /** A topic, with the posts it holds and its mutable tags and lock. */
  class Topic {
    const id: int
    const userId: int
    const categoryId: Option<int>
    const firstPostId: int
    const firstPostRaw: string
    const posts: seq<Post>
    const postsCount: int
    var tags: seq<string>
    var closed: bool

    constructor (id: int, userId: int, categoryId: Option<int>, firstPostId: int, firstPostRaw: string,
                 posts: seq<Post>, postsCount: int, tags: seq<string>)
      ensures this.id == id && this.userId == userId && this.categoryId == categoryId
      ensures this.firstPostId == firstPostId && this.firstPostRaw == firstPostRaw
      ensures this.posts == posts && this.postsCount == postsCount
      ensures this.tags == tags && !closed
    {
      this.id := id;
      this.userId := userId;
      this.categoryId := categoryId;
      this.firstPostId := firstPostId;
      this.firstPostRaw := firstPostRaw;
      this.posts := posts;
      this.postsCount := postsCount;
      this.tags := tags;
      closed := false;
    }
  }

  /** The `lotteries` table: rows in id order. */
  class LotteryTable {
    var rows: seq<Lottery>
    var nextId: int

    constructor ()
      ensures rows == [] && nextId == 1
      ensures Valid()
    {
      rows := [];
      nextId := 1;
    }

    /**
     * Ids ascend and lie below the next id, each row passed the validations and fits its columns, and no two rows
     * share a topic (the uniqueness of `topic_id`).
     */
    ghost predicate Valid()
      reads this
    {
      && (forall i, j :: 0 <= i < j < |rows| ==> rows[i].id < rows[j].id)
      && (forall i :: 0 <= i < |rows| ==> rows[i].id < nextId && Validates(rows[i].params) && FitsColumns(rows[i].params))
      && (forall i, j :: 0 <= i < j < |rows| ==> rows[i].params.topicId != rows[j].params.topicId)
    }

    /** `Lottery.find_by(topic_id:)` found a row. */
    predicate HasLotteryFor(topicId: int)
      reads this
    {
      exists i :: 0 <= i < |rows| && rows[i].params.topicId == topicId
    }

    /**
     * `Lottery.create(params)`: the validations run (the uniqueness of the topic among them);
     * a record that passes them is inserted as a fresh running lottery, unless one of its
     * integers does not fit its column, in which case the insert raises and nothing is stored.
     * The returned object exists whenever create returns.
     */
    method Create(params: LotteryParams) returns (l: Lottery, r: Insert)
      requires Valid()
      modifies this
      ensures Valid()
      ensures fresh(l) && l.params == params && l.status == Running && l.winnerData == None
      ensures r == Saved <==> Validates(params) && !old(HasLotteryFor(params.topicId)) && FitsColumns(params)
      ensures r == NotValid <==> !Validates(params) || old(HasLotteryFor(params.topicId))
      ensures r == Saved ==> rows == old(rows) + [l]
      ensures r != Saved ==> rows == old(rows) && nextId == old(nextId)
    {
      l := new Lottery(nextId, params);
      if !Validates(params) || HasLotteryFor(params.topicId) {
        r := NotValid;
      } else if !FitsColumns(params) {
        r := OutOfRange;
      } else {
        r := Saved;
        rows := rows + [l];
        nextId := nextId + 1;
      }
    }
  }
}
