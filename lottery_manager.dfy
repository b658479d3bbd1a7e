/**
 * Drawing a running lottery: find the winners, mark the lottery finished with the winners
 * recorded, announce them in the topic, send each winner a private message, and retag and
 * close the topic. The external effects that may raise (saving, posting, messaging,
 * retagging) are driven by a `Fault`: the step it names raises, and the steps after it do
 * not happen.
 */
module LotteryManager {
  import opened Wrappers
  import opened RubyText
  import opened RubyArray
  import opened Lotteries
  import opened WinnerSelection

  // ---------------------------------------------------------------------------
  // The announcement
  // ---------------------------------------------------------------------------

  /** One line of the announcement: `- @<username> (#<post number>)`. */
  function WinnerLine(w: Winner): string {
    "- @" + w.username + " (#" + IntToS(w.postNumber) + ")"
  }

  function WinnerLines(ws: seq<Winner>): (lines: seq<string>)
    ensures |lines| == |ws|
    ensures forall i :: 0 <= i < |ws| ==> lines[i] == WinnerLine(ws[i])
  {
    if |ws| == 0 then [] else [WinnerLine(ws[0])] + WinnerLines(ws[1..])
  }

  /** The winner lines joined by line feeds. */
  function WinnerList(ws: seq<Winner>): string {
    Join(WinnerLines(ws), '\n')
  }

  /** The localized texts of the announcement (title, and the line introducing the winners). */
  datatype Texts = Texts(drawTitle: string, winnersAre: string)

  /** The body of the announcement post. */
  function Announcement(texts: Texts, ws: seq<Winner>): string {
    texts.drawTitle + "\n\n" + texts.winnersAre + "\n" + WinnerList(ws)
  }

  /** A username as Discourse allows it: at least one character, no line feed. */
  predicate IsUsername(u: string) {
    |u| > 0 && '\n' !in u
  }

  /** A winner line is a non-empty line. */
  lemma WinnerLineShape(w: Winner)
    requires IsUsername(w.username)
    ensures WinnerLine(w) != "" && '\n' !in WinnerLine(w)
  {
    IntToSShape(w.postNumber);
    assert '\n' !in IntToS(w.postNumber) by {
      forall k | 0 <= k < |IntToS(w.postNumber)| ensures IntToS(w.postNumber)[k] != '\n' {}
    }
    assert '\n' !in "- @" && '\n' !in " (#" && '\n' !in ")";
  }

  /** A text that fits on one line: non-empty, without a line feed. */
  predicate IsOneLine(s: string) {
    |s| > 0 && '\n' !in s
  }

  /**
   * The announcement reads, line by line: the title, an empty line, the line introducing the
   * winners, then one line per winner in winner order (none when there are no winners).
   */
  lemma AnnouncementLines(texts: Texts, ws: seq<Winner>)
    requires IsOneLine(texts.drawTitle) && IsOneLine(texts.winnersAre)
    requires forall w :: w in ws ==> IsUsername(w.username)
    ensures Split(Announcement(texts, ws), '\n') == [texts.drawTitle, "", texts.winnersAre] + WinnerLines(ws)
  {
    var head := [texts.drawTitle, "", texts.winnersAre];
    AnnouncementFields(texts, ws);
    WinnerListFields(ws);
    if |ws| == 0 {
      KeepLastField(head, true);
    } else {
      KeepLastField(head + WinnerLines(ws), false);
    }
  }

  /** The fields of the winner list: one per winner, or a single empty one when there is none. */
  lemma WinnerListFields(ws: seq<Winner>)
    requires forall w :: w in ws ==> IsUsername(w.username)
    ensures |ws| == 0 ==> Fields(WinnerList(ws), '\n') == [""]
    ensures |ws| > 0 ==> Fields(WinnerList(ws), '\n') == WinnerLines(ws) && WinnerLines(ws)[|ws| - 1] != ""
  {
    var lines := WinnerLines(ws);
    if |ws| > 0 {
      forall i | 0 <= i < |lines| ensures lines[i] != "" && '\n' !in lines[i] {
        assert ws[i] in ws;
        WinnerLineShape(ws[i]);
      }
      FieldsOfJoin(lines, '\n');
    }
  }

  /** The fields of the announcement: the title, an empty field, the introduction, then those of the winner list. */
  lemma AnnouncementFields(texts: Texts, ws: seq<Winner>)
    requires IsOneLine(texts.drawTitle) && IsOneLine(texts.winnersAre)
    ensures Fields(Announcement(texts, ws), '\n') == [texts.drawTitle, "", texts.winnersAre] + Fields(WinnerList(ws), '\n')
  {
    var t, a, wl := texts.drawTitle, texts.winnersAre, WinnerList(ws);
    var tail := a + ['\n'] + wl;
    assert Announcement(texts, ws) == t + ['\n'] + ("" + ['\n'] + tail);
    FieldsOfConcat(a, wl, '\n');
    FieldsOfConcat("", tail, '\n');
    FieldsOfConcat(t, "" + ['\n'] + tail, '\n');
  }

  /**
   * The winner list has one line per winner, in winner order: splitting it at line feeds
   * gives back exactly the winner lines.
   */
  lemma WinnerListLines(ws: seq<Winner>)
    requires forall w :: w in ws ==> IsUsername(w.username)
    ensures Split(WinnerList(ws), '\n') == WinnerLines(ws)
  {
    var lines := WinnerLines(ws);
    forall i | 0 <= i < |lines| ensures lines[i] != "" && '\n' !in lines[i] {
      assert ws[i] in ws;
      WinnerLineShape(ws[i]);
    }
    SplitOfJoin(lines, '\n');
  }

  /** Each winner line carries the winner's username after `- @`, and reads back the winner's post number after `(#`. */
  lemma WinnerLineReadBack(w: Winner)
    ensures WinnerLine(w)[3..3 + |w.username|] == w.username
    ensures ToI(WinnerLine(w)[6 + |w.username|..]) == w.postNumber
  {
    var head := "- @" + w.username;
    var tail := IntToS(w.postNumber) + ")";
    assert WinnerLine(w) == head + " (#" + tail;
    assert (head + " (#" + tail)[|head| + 3..] == tail;
    assert head[3..] == w.username;
    ToIOfIntToSThen(w.postNumber, ")");
  }

  // ---------------------------------------------------------------------------
  // The new tag list
  // ---------------------------------------------------------------------------

  /**
   * `tags - ["抽奖中"] + ["已开奖"]`, then `uniq`: the running tag is gone, the drawn tag is
   * there, no tag appears twice, every other tag is kept and nothing else is added.
   */
  function NewTagList(tags: seq<string>): (r: seq<string>)
    ensures RunningTag !in r && DrawnTag in r
    ensures Distinct(r)
    ensures forall t :: t in r <==> (t in tags && t != RunningTag) || t == DrawnTag
  {
    Uniq(Difference(tags, [RunningTag]) + [DrawnTag])
  }

  /** Retagging a drawn topic again gives back the very same tag list. */
  lemma NewTagListStable(tags: seq<string>)
    ensures NewTagList(NewTagList(tags)) == NewTagList(tags)
  {
    var r := NewTagList(tags);
    DifferenceDisjoint(r, [RunningTag]);
    UniqAppendPresent(r, DrawnTag);
  }

  // ---------------------------------------------------------------------------
  // Faults
  // ---------------------------------------------------------------------------

  /**
   * The external step that raises during a draw, if any: saving the lottery, posting the
   * announcement, sending the message to the winner at position `at`, or creating the tag
   * at position `at` inside the retagging transaction.
   */
  datatype Fault = SaveFails | AnnounceFails | NotifyFails(at: nat) | RetagFails(at: nat)

  /** How many of `n` messages go out before a fault stops the sending. */
  function NotifyStop(fault: Option<Fault>, n: nat): (k: nat)
    ensures k <= n
    ensures k < n <==> fault.Some? && fault.value.NotifyFails? && fault.value.at < n
  {
    match fault
    case Some(NotifyFails(at)) => if at < n then at else n
    case _ => n
  }

  /** Whether the retagging of `n` tags raises (and is rolled back). */
  predicate RetagRaises(fault: Option<Fault>, n: nat) {
    fault.Some? && fault.value.RetagFails? && fault.value.at < n
  }

  function Usernames(ws: seq<Winner>): (us: seq<string>)
    ensures |us| == |ws|
    ensures forall i :: 0 <= i < |ws| ==> us[i] == ws[i].username
  {
    if |ws| == 0 then [] else [ws[0].username] + Usernames(ws[1..])
  }

  // ---------------------------------------------------------------------------
  // Steps of a draw
  // ---------------------------------------------------------------------------

  /**
   * `send_notifications`: one private message per winner, in winner order, until a message
   * raises. Returns the recipients reached and whether a message raised.
   */
  method SendNotifications(ws: seq<Winner>, fault: Option<Fault>) returns (sent: seq<string>, raised: bool)
    ensures sent == Usernames(ws)[..NotifyStop(fault, |ws|)]
    ensures raised <==> NotifyStop(fault, |ws|) < |ws|
  {
    sent := [];
    var i := 0;
    while i < |ws|
      invariant 0 <= i <= NotifyStop(fault, |ws|)
      invariant sent == Usernames(ws)[..i]
    {
      if fault == Some(NotifyFails(i)) {
        return sent, true;
      }
      sent := sent + [ws[i].username];
      i := i + 1;
    }
    raised := false;
  }

  /**
   * `update_topic`: inside a transaction, remove every tag and create the new tag list one
   * tag at a time; then close the topic. If creating a tag raises, the transaction rolls
   * back and the topic stays as it was.
   */
  method UpdateTopic(topic: Topic, fault: Option<Fault>) returns (raised: bool)
    modifies topic
    ensures raised <==> RetagRaises(fault, |NewTagList(old(topic.tags))|)
    ensures !raised ==> topic.tags == NewTagList(old(topic.tags)) && topic.closed
    ensures raised ==> topic.tags == old(topic.tags) && topic.closed == old(topic.closed)
  {
    var before := topic.tags;
    var tagNames := NewTagList(topic.tags);
    ghost var n := |tagNames|;
    topic.tags := [];
    var i := 0;
    while i < |tagNames|
      invariant 0 <= i <= |tagNames|
      invariant topic.tags == tagNames[..i]
      invariant topic.closed == old(topic.closed)
      invariant forall k :: 0 <= k < i ==> fault != Some(RetagFails(k))
    {
      if fault == Some(RetagFails(i)) {
        topic.tags := before;
        assert RetagRaises(fault, n);
        return true;
      }
      topic.tags := topic.tags + [tagNames[i]];
      i := i + 1;
    }
    assert tagNames[..i] == tagNames;
    assert !RetagRaises(fault, n);
    topic.closed := true;
    raised := false;
  }

  // ---------------------------------------------------------------------------
  // perform_draw
  // ---------------------------------------------------------------------------

  /** The columns of a lottery a draw may change. */
  datatype LotteryState = LotteryState(status: Status, winnerData: Option<seq<Winner>>)

  /** The parts of a topic a draw may change. */
  datatype TopicState = TopicState(tags: seq<string>, closed: bool)

  /**
   * What `perform_draw` did: nothing, because the lottery was not running or nobody
   * qualified; or it found `winners` and went as far as the fault let it.
   */
  datatype DrawOutcome =
    | NotRunning
    | NoWinners
    | Proceeded(winners: seq<Winner>, saved: bool, announcement: Option<string>,
                notified: seq<string>, retagged: bool)
  {
    /** An exception escaped the draw. */
    predicate Raised() {
      Proceeded? && !retagged
    }
  }

  /**
   * The effect of a draw on a lottery with parameters `params` in a topic with `posts`,
   * from lottery state `l0` and topic state `t0` to `l1` and `t1`.
   */
  ghost predicate DrawEffect(params: LotteryParams, posts: seq<Post>, texts: Texts, fault: Option<Fault>,
                             l0: LotteryState, l1: LotteryState, t0: TopicState, t1: TopicState, o: DrawOutcome) {
    if l0.status != Running then
      o == NotRunning && l1 == l0 && t1 == t0
    else if !HasQualifyingPost(params, posts) then
      o == NoWinners && l1 == l0 && t1 == t0
    else
      && o.Proceeded? && o.winners != [] && IsWinnerResult(params, posts, o.winners)
      && o.saved == (fault != Some(SaveFails))
      && l1 == (if o.saved then LotteryState(Finished, Some(o.winners)) else l0)
      && o.announcement == (if o.saved && fault != Some(AnnounceFails) then Some(Announcement(texts, o.winners)) else None)
      && o.notified == (if o.announcement.Some? then Usernames(o.winners)[..NotifyStop(fault, |o.winners|)] else [])
      && o.retagged == (o.announcement.Some? && NotifyStop(fault, |o.winners|) == |o.winners|
                        && !RetagRaises(fault, |NewTagList(t0.tags)|))
      && t1 == (if o.retagged then TopicState(NewTagList(t0.tags), true) else t0)
  }

  /**
   * `perform_draw`. A lottery that is not running is left alone, and so is one in which no
   * post qualifies. Otherwise the lottery becomes finished with the winners recorded before
   * anything is announced; then the announcement, the messages and the retagging follow,
   * each only if everything before it went through.
   */
  method PerformDraw(l: Lottery, topic: Topic, texts: Texts, fault: Option<Fault>) returns (o: DrawOutcome)
    requires l.params.topicId == topic.id && l.params.winnerCount > 0
    modifies l, topic
    ensures DrawEffect(l.params, topic.posts, texts, fault,
                       LotteryState(old(l.status), old(l.winnerData)), LotteryState(l.status, l.winnerData),
                       TopicState(old(topic.tags), old(topic.closed)), TopicState(topic.tags, topic.closed), o)
  {
    if l.status != Running {
      return NotRunning;
    }
    var winners := FindWinners(l.params, topic.posts);
    if winners == [] {
      return NoWinners;
    }
    if fault == Some(SaveFails) {
      return Proceeded(winners, false, None, [], false);
    }
    l.status, l.winnerData := Finished, Some(winners);
    if fault == Some(AnnounceFails) {
      return Proceeded(winners, true, None, [], false);
    }
    var announcement := Announcement(texts, winners);
    var sent, raised := SendNotifications(winners, fault);
    if raised {
      return Proceeded(winners, true, Some(announcement), sent, false);
    }
    raised := UpdateTopic(topic, fault);
    o := Proceeded(winners, true, Some(announcement), sent, !raised);
  }

  /** A draw never finishes a lottery that was not running, and leaves a finished one with its winners. */
  lemma DrawStatus(params: LotteryParams, posts: seq<Post>, texts: Texts, fault: Option<Fault>,
                   l0: LotteryState, l1: LotteryState, t0: TopicState, t1: TopicState, o: DrawOutcome)
    requires DrawEffect(params, posts, texts, fault, l0, l1, t0, t1, o)
    ensures l1.status == Finished ==> l0.status == Finished || (o.Proceeded? && o.saved && l1.winnerData == Some(o.winners))
    ensures l0.status != Running ==> l1 == l0 && t1 == t0
    ensures o.Proceeded? && o.announcement.Some? ==> l1 == LotteryState(Finished, Some(o.winners))
    ensures t1 != t0 ==> t1.closed && DrawnTag in t1.tags && RunningTag !in t1.tags
  {
  }
}
