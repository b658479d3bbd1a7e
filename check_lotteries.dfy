/**
 * The scheduled check that runs every minute: it visits the running lotteries, works out for
 * each whether its draw condition is met, and draws those that are due. A draw that raises
 * is caught and logged, and the loop goes on with the next lottery.
 */
module CheckLotteries {
  import opened Wrappers
  import opened Lotteries
  import opened LotteryManager

  // ---------------------------------------------------------------------------
  // The firing condition
  // ---------------------------------------------------------------------------

  /**
   * When a lottery is due: a by-time lottery once its draw time is set and has come, a
   * by-reply lottery once its reply count is set and the topic has at least that many replies.
   */
  predicate Due(p: LotteryParams, postsCount: int, now: int) {
    match p.drawType
    case ByTime => p.drawAt.Some? && p.drawAt.value <= now
    case ByReply => p.drawReplyCount.Some? && p.drawReplyCount.value <= postsCount - 1
  }

  /** The `should_draw` flag, set by the by-time branch or else by the by-reply branch. */
  method ShouldDraw(p: LotteryParams, postsCount: int, now: int) returns (shouldDraw: bool)
    ensures shouldDraw <==> Due(p, postsCount, now)
  {
    shouldDraw := false;
    if p.drawType == ByTime && p.drawAt.Some? && now >= p.drawAt.value {
      shouldDraw := true;
    } else if p.drawType == ByReply && p.drawReplyCount.Some? && postsCount - 1 >= p.drawReplyCount.value {
      shouldDraw := true;
    }
  }

  /** A lottery that is due stays due as time passes and replies come in. */
  lemma DueStaysDue(p: LotteryParams, postsCount: int, now: int, postsCount': int, now': int)
    requires Due(p, postsCount, now)
    requires postsCount <= postsCount' && now <= now'
    ensures Due(p, postsCount', now')
  {
  }

  /** The first post does not count as a reply: a reply count of `k` needs `k + 1` posts. */
  lemma ByReplyNeedsReplies(p: LotteryParams, postsCount: int, now: int)
    requires p.drawType == ByReply && p.drawReplyCount.Some?
    ensures Due(p, postsCount, now) <==> postsCount >= p.drawReplyCount.value + 1
  {
  }

  /** Without a draw time or a reply count, a lottery is never due. */
  lemma NoConditionNeverDue(p: LotteryParams, postsCount: int, now: int)
    requires p.drawType == ByTime ==> p.drawAt.None?
    requires p.drawType == ByReply ==> p.drawReplyCount.None?
    ensures !Due(p, postsCount, now)
  {
  }

  // ---------------------------------------------------------------------------
  // One tick
  // ---------------------------------------------------------------------------

  /** What the tick did with one lottery. */
  datatype Step =
    | Skipped            // not running: not among the lotteries the query returns
    | TopicGone          // its topic no longer exists
    | NotDue             // its condition is not met yet
    | Drew(outcome: DrawOutcome)  // the draw ran; `outcome.Raised()` when the rescue caught an error

  /**
   * What a tick does with a lottery with parameters `p`, from lottery state `l0` and topic
   * state `t0` to `l1` and `t1` (`None` when the topic is gone): a lottery that is not running,
   * whose topic is gone or that is not due is left as it was; a due one is drawn, with the
   * effect of `perform_draw` under `fault`.
   */
  ghost predicate TickStep(p: LotteryParams, topics: map<int, Topic>, texts: Texts, now: int, fault: Option<Fault>,
                           l0: LotteryState, l1: LotteryState, t0: Option<TopicState>, t1: Option<TopicState>, s: Step) {
    if l0.status != Running then
      s == Skipped && l1 == l0 && t1 == t0
    else if p.topicId !in topics then
      s == TopicGone && l1 == l0 && t1 == t0
    else if !Due(p, topics[p.topicId].postsCount, now) then
      s == NotDue && l1 == l0 && t1 == t0
    else
      && s.Drew? && t0.Some? && t1.Some?
      && DrawEffect(p, topics[p.topicId].posts, texts, fault, l0, l1, t0.value, t1.value, s.outcome)
  }

  /** Topics are found by their id. */
  ghost predicate KeyedById(topics: map<int, Topic>) {
    forall t :: t in topics ==> topics[t].id == t
  }

  /** The lotteries a tick may visit: at most one per topic, each with a winner count the validations allowed. */
  ghost predicate Visitable(lotteries: seq<Lottery>) {
    && (forall i :: 0 <= i < |lotteries| ==> lotteries[i].params.winnerCount > 0)
    && (forall i, j :: 0 <= i < j < |lotteries| ==> lotteries[i].params.topicId != lotteries[j].params.topicId)
  }

  /** No lottery of `lotteries` belongs to the topic with id `t`. */
  predicate Unclaimed(lotteries: seq<Lottery>, t: int) {
    forall i :: 0 <= i < |lotteries| ==> lotteries[i].params.topicId != t
  }

  /** The saved lotteries of a table can be visited. */
  lemma TableVisitable(table: LotteryTable)
    requires table.Valid()
    ensures Visitable(table.rows)
  {
  }

  /** The tags and lock of the topic with id `t`, if there is one. */
  function TopicStateOf(topics: map<int, Topic>, t: int): (s: Option<TopicState>)
    reads if t in topics then {topics[t]} else {}
    ensures s.Some? <==> t in topics
    ensures s.Some? ==> s.value.tags == topics[t].tags && s.value.closed == topics[t].closed
  {
    if t in topics then Some(TopicState(topics[t].tags, topics[t].closed)) else None
  }

  /**
   * `execute`: every lottery the query returns, in id order, is handled on its own. The step
   * of each is decided by its own state and its own fault only, so a draw that raises leaves
   * the handling of the other lotteries as it would have been. `faults` gives the fault met
   * while drawing the lottery with a given id.
   */
  method Tick(lotteries: seq<Lottery>, topics: map<int, Topic>, texts: Texts, now: int, faults: int -> Option<Fault>)
    returns (steps: seq<Step>)
    requires Visitable(lotteries) && KeyedById(topics)
    modifies set l | l in lotteries
    modifies topics.Values
    ensures |steps| == |lotteries|
    ensures forall i :: 0 <= i < |lotteries| ==>
      var l := lotteries[i];
      TickStep(l.params, topics, texts, now, faults(l.id),
               LotteryState(old(l.status), old(l.winnerData)), LotteryState(l.status, l.winnerData),
               old(TopicStateOf(topics, l.params.topicId)), TopicStateOf(topics, l.params.topicId),
               steps[i])
    ensures forall t :: t in topics && Unclaimed(lotteries, t) ==> TopicStateOf(topics, t) == old(TopicStateOf(topics, t))
  {
    steps := [];
    var i := 0;
    while i < |lotteries|
      invariant 0 <= i <= |lotteries| && |steps| == i
      invariant forall k :: 0 <= k < i ==>
        var l := lotteries[k];
        TickStep(l.params, topics, texts, now, faults(l.id),
                 LotteryState(old(l.status), old(l.winnerData)), LotteryState(l.status, l.winnerData),
                 old(TopicStateOf(topics, l.params.topicId)), TopicStateOf(topics, l.params.topicId),
                 steps[k])
      invariant forall k :: i <= k < |lotteries| ==>
        var l := lotteries[k];
        l.status == old(l.status) && l.winnerData == old(l.winnerData) &&
        TopicStateOf(topics, l.params.topicId) == old(TopicStateOf(topics, l.params.topicId))
      invariant forall t :: t in topics && Unclaimed(lotteries, t) ==> TopicStateOf(topics, t) == old(TopicStateOf(topics, t))
    {
      var lottery := lotteries[i];
      var step := Skipped;
      if lottery.status == Running {
        if lottery.params.topicId !in topics {
          step := TopicGone;
        } else {
          var topic := topics[lottery.params.topicId];
          var shouldDraw := ShouldDraw(lottery.params, topic.postsCount, now);
          if !shouldDraw {
            step := NotDue;
          } else {
            label draw:
            var outcome := PerformDraw(lottery, topic, texts, faults(lottery.id));
            step := Drew(outcome);
            forall k | 0 <= k < |lotteries| && k != i
              ensures lotteries[k] != lottery
              ensures lotteries[k].params.topicId in topics ==> topics[lotteries[k].params.topicId] != topic
            {
              if k < i {
                assert lotteries[k].params.topicId != lotteries[i].params.topicId;
              } else {
                assert lotteries[i].params.topicId != lotteries[k].params.topicId;
              }
            }
          }
        }
      }
      steps := steps + [step];
      i := i + 1;
    }
  }

  // ---------------------------------------------------------------------------
  // Across ticks
  // ---------------------------------------------------------------------------

  /** Once a draw has saved the lottery, later ticks skip it: a lottery is drawn at most once. */
  lemma DrawnOnce(p: LotteryParams, topics: map<int, Topic>, topics': map<int, Topic>, texts: Texts, now: int, now': int,
                  fault: Option<Fault>, fault': Option<Fault>,
                  l0: LotteryState, l1: LotteryState, l2: LotteryState,
                  t0: Option<TopicState>, t1: Option<TopicState>, t2: Option<TopicState>, s: Step, s': Step)
    requires TickStep(p, topics, texts, now, fault, l0, l1, t0, t1, s)
    requires s.Drew? && s.outcome.Proceeded? && s.outcome.saved
    requires TickStep(p, topics', texts, now', fault', l1, l2, t1, t2, s')
    ensures s' == Skipped && l2 == l1 && t2 == t1
  {
  }

  /** A tick never draws a lottery that is not due, and never moves a lottery back to running. */
  lemma TickOnlyDrawsDue(p: LotteryParams, topics: map<int, Topic>, texts: Texts, now: int, fault: Option<Fault>,
                         l0: LotteryState, l1: LotteryState, t0: Option<TopicState>, t1: Option<TopicState>, s: Step)
    requires TickStep(p, topics, texts, now, fault, l0, l1, t0, t1, s)
    ensures s.Drew? ==> l0.status == Running && p.topicId in topics && Due(p, topics[p.topicId].postsCount, now)
    ensures l1 != l0 ==> s.Drew? && l1.status == Finished
    ensures l1.status == Running ==> l0.status == Running
  {
  }
}
