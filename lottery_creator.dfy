/**
 * Creating a lottery from the first post of a new topic. The post follows a form whose
 * sections are `### <title>` lines, each followed by a one-line value and an empty line.
 * Creation stops early when the topic already has a lottery, when a required field is
 * missing, when the draw condition is missing, or when a draw time cannot be read.
 */
module LotteryCreator {
  import opened Wrappers
  import opened RubyText
  import opened TemplateSections
  import opened Lotteries

  const NameHeader := "### 抽奖名称\n"
  const PrizeHeader := "### 活动奖品\n"
  const WinnerCountHeader := "### 获奖人数\n"
  const DrawTypeHeader := "### 开奖方式\n"
  const ConditionHeader := "### 开奖条件\n"
  const FloorsHeader := "### 指定中奖楼层 (可选)\n"
  const DescriptionHeader := "### 简单说明 (可见内容)\n"
  const ExtraInfoHeader := "### 其他说明 (可选)\n"

  /** The draw-type texts of the form: "draw by time" and "draw by reply count". */
  const ByTimeText := "时间开奖"
  const ByReplyText := "回复数开奖"

  /** What `parse_raw` reads from the first post; `None` stands for `nil`. */
  datatype Parsed = Parsed(
    name: Option<string>,
    prize: Option<string>,
    winnerCount: Option<int>,
    drawType: Option<DrawType>,
    specificFloors: Option<string>,
    description: Option<string>,
    extraInfo: Option<string>)

  /** The draw type named by the (stripped) text of the draw-type section. */
  function DrawTypeOf(text: Option<string>): (r: Option<DrawType>)
    ensures r == Some(ByTime) <==> text == Some(ByTimeText)
    ensures r == Some(ByReply) <==> text == Some(ByReplyText)
    ensures r == None <==> text != Some(ByTimeText) && text != Some(ByReplyText)
  {
    if text == Some(ByTimeText) then Some(ByTime)
    else if text == Some(ByReplyText) then Some(ByReply)
    else None
  }

  /**
   * `parse_raw`: each text field is the stripped section, the winner count the `to_i` of
   * its section, the draw type the one its section names.
   */
  function ParseRaw(raw: string): (p: Parsed)
    ensures p.name.Some? <==> Section(raw, NameHeader).Some?
    ensures p.prize.Some? <==> Section(raw, PrizeHeader).Some?
    ensures p.winnerCount.Some? <==> Section(raw, WinnerCountHeader).Some?
    ensures p.specificFloors.Some? <==> Section(raw, FloorsHeader).Some?
    ensures p.description.Some? <==> Section(raw, DescriptionHeader).Some?
    ensures p.extraInfo.Some? <==> Section(raw, ExtraInfoHeader).Some?
    ensures p.drawType.Some? ==> Section(raw, DrawTypeHeader).Some?
  {
    Parsed(
      StripOpt(Section(raw, NameHeader)),
      StripOpt(Section(raw, PrizeHeader)),
      ToIOpt(Section(raw, WinnerCountHeader)),
      DrawTypeOf(StripOpt(Section(raw, DrawTypeHeader))),
      StripOpt(Section(raw, FloorsHeader)),
      StripOpt(Section(raw, DescriptionHeader)),
      StripOpt(Section(raw, ExtraInfoHeader)))
  }

  /** Why creation stopped before the create call. */
  datatype Abort = AlreadyExists | MissingRequired | MissingDrawCondition | InvalidDrawTime

  /** One of name, prize, winner count and draw type is `blank?` (an integer never is). */
  predicate MissesRequired(p: Parsed) {
    IsBlankOpt(p.name) || IsBlankOpt(p.prize) || p.winnerCount.None? || p.drawType.None?
  }

  /** The stripped draw-condition section. */
  function Condition(raw: string): (c: Option<string>)
    ensures c.Some? <==> Section(raw, ConditionHeader).Some?
  {
    StripOpt(Section(raw, ConditionHeader))
  }

  /**
   * The record `create_from_template` asks to create for a topic with no lottery yet, or the
   * reason it stops first, from the parsed fields `p` and the stripped draw condition.
   * `parseTime` stands for `Time.zone.parse` (with its exceptions read as `nil`).
   */
  function Plan(topicId: int, postId: int, creatorId: int, p: Parsed, condition: Option<string>,
                parseTime: string -> Option<int>): (r: Result<LotteryParams, Abort>)
    ensures r != Failure(AlreadyExists)
    ensures r == Failure(MissingRequired) <==> MissesRequired(p)
    ensures r == Failure(MissingDrawCondition) <==> !MissesRequired(p) && IsBlankOpt(condition)
    ensures r == Failure(InvalidDrawTime) <==>
      !MissesRequired(p) && !IsBlankOpt(condition) && p.drawType == Some(ByTime) && parseTime(condition.value).None?
    ensures r.Success? ==>
      var lp := r.value;
      && lp.topicId == topicId && lp.postId == postId && lp.createdById == creatorId
      && Some(lp.name) == p.name && !IsBlank(lp.name) && Some(lp.prize) == p.prize && !IsBlank(lp.prize)
      && Some(lp.winnerCount) == p.winnerCount && Some(lp.drawType) == p.drawType
      && lp.specificFloors == p.specificFloors && lp.description == p.description && lp.extraInfo == p.extraInfo
      && condition.Some? && !IsBlank(condition.value)
      && (lp.drawType == ByTime ==> lp.drawAt == parseTime(condition.value) && lp.drawAt.Some? && lp.drawReplyCount.None?)
      && (lp.drawType == ByReply ==> lp.drawAt.None? && lp.drawReplyCount == Some(ToI(condition.value)))
  {
    if MissesRequired(p) then Failure(MissingRequired)
    else if IsBlankOpt(condition) then Failure(MissingDrawCondition)
    else
      var base := LotteryParams(topicId, postId, creatorId, p.name.value, p.prize.value, p.winnerCount.value,
                                p.drawType.value, None, None, p.specificFloors, p.description, p.extraInfo);
      if p.drawType.value == ByTime then
        match parseTime(condition.value)
        case None => Failure(InvalidDrawTime)
        case Some(t) => Success(base.(drawAt := Some(t)))
      else Success(base.(drawReplyCount := Some(ToI(condition.value))))
  }

  /**
   * What `create_from_template` did: it stopped early, or create returned and the tag was
   * requested, or create raised (an integer too large for its column) before any tagging.
   */
  datatype CreateOutcome = Aborted(reason: Abort) | Attempted(saved: bool, tag: string) | CreateRaised

  /**
   * `create_from_template`. A topic that already has a lottery is left alone. Otherwise the
   * planned record is passed to create, which saves it only if it validates; the running
   * tag is requested whenever create returns, valid or not, since it always returns an
   * object. A valid record with an integer too large for its column makes create raise, and
   * the raise leaves the method before the tag.
   */
  method CreateFromTemplate(table: LotteryTable, topic: Topic, parseTime: string -> Option<int>)
    returns (o: CreateOutcome)
    requires table.Valid()
    modifies table
    ensures table.Valid()
    ensures old(table.HasLotteryFor(topic.id)) ==>
      o == Aborted(AlreadyExists) && table.rows == old(table.rows) && table.nextId == old(table.nextId)
    ensures !old(table.HasLotteryFor(topic.id)) ==>
      match Plan(topic.id, topic.firstPostId, topic.userId, ParseRaw(topic.firstPostRaw),
                 Condition(topic.firstPostRaw), parseTime)
      case Failure(e) => o == Aborted(e) && table.rows == old(table.rows) && table.nextId == old(table.nextId)
      case Success(lp) =>
        && (!Validates(lp) ==> o == Attempted(false, RunningTag) && table.rows == old(table.rows))
        && (Validates(lp) && !FitsColumns(lp) ==> o == CreateRaised && table.rows == old(table.rows))
        && (Validates(lp) && FitsColumns(lp) ==>
              && o == Attempted(true, RunningTag)
              && |table.rows| == |old(table.rows)| + 1 && table.rows[..|old(table.rows)|] == old(table.rows)
              && var l := table.rows[|old(table.rows)|];
                 fresh(l) && l.params == lp && l.status == Running && l.winnerData == None)
    ensures table.HasLotteryFor(topic.id) <==> old(table.HasLotteryFor(topic.id)) || o == Attempted(true, RunningTag)
  {
    if table.HasLotteryFor(topic.id) {
      return Aborted(AlreadyExists);
    }
    var raw := topic.firstPostRaw;
    var params := ParseRaw(raw);
    if MissesRequired(params) {
      return Aborted(MissingRequired);
    }
    var condition := Condition(raw);
    if IsBlankOpt(condition) {
      return Aborted(MissingDrawCondition);
    }
    var lotteryParams := LotteryParams(topic.id, topic.firstPostId, topic.userId, params.name.value,
                                       params.prize.value, params.winnerCount.value, params.drawType.value,
                                       None, None, params.specificFloors, params.description, params.extraInfo);
    if params.drawType.value == ByTime {
      lotteryParams := lotteryParams.(drawAt := parseTime(condition.value));
      if lotteryParams.drawAt.None? {
        return Aborted(InvalidDrawTime);
      }
    } else {
      lotteryParams := lotteryParams.(drawReplyCount := Some(ToI(condition.value)));
    }
    var l, inserted := table.Create(lotteryParams);
    assert table.rows[|old(table.rows)|..] == (if inserted == Saved then [l] else []);
    if inserted == OutOfRange {
      return CreateRaised;
    }
    o := Attempted(inserted == Saved, RunningTag);
  }

  // ---------------------------------------------------------------------------
  // The form, written out and read back
  // ---------------------------------------------------------------------------

  /** What an author fills in: the required fields and the optional ones. */
  datatype Form = Form(
    name: string,
    prize: string,
    winnerCount: int,
    drawType: DrawType,
    condition: string,
    specificFloors: Option<string>,
    description: Option<string>,
    extraInfo: Option<string>)

  function DrawTypeText(d: DrawType): string {
    match d
    case ByTime => ByTimeText
    case ByReply => ByReplyText
  }

  function OptionalSection(header: string, value: Option<string>): seq<(string, string)> {
    if value.Some? then [(header, value.value)] else []
  }

  /** The sections of a filled-in form, in the order the form lists them. */
  function FormSections(f: Form): seq<(string, string)> {
    [(NameHeader, f.name), (PrizeHeader, f.prize), (WinnerCountHeader, IntToS(f.winnerCount)),
     (DrawTypeHeader, DrawTypeText(f.drawType)), (ConditionHeader, f.condition)]
    + OptionalSection(FloorsHeader, f.specificFloors)
    + OptionalSection(DescriptionHeader, f.description)
    + OptionalSection(ExtraInfoHeader, f.extraInfo)
  }

  /** The first post written from a form. */
  function RenderForm(f: Form): string {
    Render(FormSections(f))
  }

  /** A value an author can type into one section: one non-empty line without surrounding spaces. */
  predicate IsFormValue(v: string) {
    IsFieldValue(v) && IsStripped(v)
  }

  predicate IsFormValueOpt(v: Option<string>) {
    v.Some? ==> IsFormValue(v.value)
  }

  predicate WellFormedForm(f: Form) {
    && IsFormValue(f.name) && IsFormValue(f.prize) && IsFormValue(f.condition)
    && IsFormValueOpt(f.specificFloors) && IsFormValueOpt(f.description) && IsFormValueOpt(f.extraInfo)
  }

  lemma HeadersWellFormed()
    ensures IsHeader(NameHeader) && IsHeader(PrizeHeader) && IsHeader(WinnerCountHeader)
    ensures IsHeader(DrawTypeHeader) && IsHeader(ConditionHeader) && IsHeader(FloorsHeader)
    ensures IsHeader(DescriptionHeader) && IsHeader(ExtraInfoHeader)
  {
  }

  lemma FormSectionsWellFormed(f: Form)
    requires WellFormedForm(f)
    ensures WellFormedSections(FormSections(f))
  {
    HeadersWellFormed();
    IntToSShape(f.winnerCount);
  }

  /** The eight section titles of the form are different from each other. */
  lemma HeadersDistinct()
    ensures NameHeader !in {PrizeHeader, WinnerCountHeader, DrawTypeHeader, ConditionHeader,
                            FloorsHeader, DescriptionHeader, ExtraInfoHeader}
    ensures PrizeHeader !in {WinnerCountHeader, DrawTypeHeader, ConditionHeader, FloorsHeader,
                             DescriptionHeader, ExtraInfoHeader}
    ensures WinnerCountHeader !in {DrawTypeHeader, ConditionHeader, FloorsHeader, DescriptionHeader, ExtraInfoHeader}
    ensures DrawTypeHeader !in {ConditionHeader, FloorsHeader, DescriptionHeader, ExtraInfoHeader}
    ensures ConditionHeader !in {FloorsHeader, DescriptionHeader, ExtraInfoHeader}
    ensures FloorsHeader !in {DescriptionHeader, ExtraInfoHeader}
    ensures DescriptionHeader != ExtraInfoHeader
  {
    // the fifth character tells the titles apart, except for the two that start with 开,
    // which the seventh does
    assert NameHeader[4] == '抽' && PrizeHeader[4] == '活' && WinnerCountHeader[4] == '获';
    assert DrawTypeHeader[4] == '开' && ConditionHeader[4] == '开' && FloorsHeader[4] == '指';
    assert DescriptionHeader[4] == '简' && ExtraInfoHeader[4] == '其';
    assert DrawTypeHeader[6] == '方' && ConditionHeader[6] == '条';
  }

  lemma LookupCons(h: string, v: string, rest: seq<(string, string)>, header: string)
    ensures Lookup([(h, v)] + rest, header) == if h == header then Some(v) else Lookup(rest, header)
  {
    assert ([(h, v)] + rest)[1..] == rest;
  }

  lemma LookupOptional(h: string, v: Option<string>, header: string)
    ensures Lookup(OptionalSection(h, v), header) == if h == header then v else None
  {
  }

  /** The value of each header in a form's sections. */
  lemma LookupFormSections(f: Form)
    ensures Lookup(FormSections(f), NameHeader) == Some(f.name)
    ensures Lookup(FormSections(f), PrizeHeader) == Some(f.prize)
    ensures Lookup(FormSections(f), WinnerCountHeader) == Some(IntToS(f.winnerCount))
    ensures Lookup(FormSections(f), DrawTypeHeader) == Some(DrawTypeText(f.drawType))
    ensures Lookup(FormSections(f), ConditionHeader) == Some(f.condition)
    ensures Lookup(FormSections(f), FloorsHeader) == f.specificFloors
    ensures Lookup(FormSections(f), DescriptionHeader) == f.description
    ensures Lookup(FormSections(f), ExtraInfoHeader) == f.extraInfo
  {
    HeadersDistinct();
    var a := OptionalSection(FloorsHeader, f.specificFloors);
    var b := OptionalSection(DescriptionHeader, f.description);
    var c := OptionalSection(ExtraInfoHeader, f.extraInfo);
    var s5 := a + b + c;
    var s4 := [(ConditionHeader, f.condition)] + s5;
    var s3 := [(DrawTypeHeader, DrawTypeText(f.drawType))] + s4;
    var s2 := [(WinnerCountHeader, IntToS(f.winnerCount))] + s3;
    var s1 := [(PrizeHeader, f.prize)] + s2;
    assert FormSections(f) == [(NameHeader, f.name)] + s1;
    forall h | h in {NameHeader, PrizeHeader, WinnerCountHeader, DrawTypeHeader, ConditionHeader,
                     FloorsHeader, DescriptionHeader, ExtraInfoHeader}
      ensures Lookup(s5, h) == if h == FloorsHeader then f.specificFloors
                               else if h == DescriptionHeader then f.description
                               else if h == ExtraInfoHeader then f.extraInfo
                               else None
    {
      LookupConcat(a + b, c, h);
      LookupConcat(a, b, h);
      LookupOptional(FloorsHeader, f.specificFloors, h);
      LookupOptional(DescriptionHeader, f.description, h);
      LookupOptional(ExtraInfoHeader, f.extraInfo, h);
    }
    forall h | h in {NameHeader, PrizeHeader, WinnerCountHeader, DrawTypeHeader, ConditionHeader,
                     FloorsHeader, DescriptionHeader, ExtraInfoHeader}
      ensures Lookup(FormSections(f), h)
           == if h == NameHeader then Some(f.name)
              else if h == PrizeHeader then Some(f.prize)
              else if h == WinnerCountHeader then Some(IntToS(f.winnerCount))
              else if h == DrawTypeHeader then Some(DrawTypeText(f.drawType))
              else if h == ConditionHeader then Some(f.condition)
              else Lookup(s5, h)
    {
      LookupCons(NameHeader, f.name, s1, h);
      LookupCons(PrizeHeader, f.prize, s2, h);
      LookupCons(WinnerCountHeader, IntToS(f.winnerCount), s3, h);
      LookupCons(DrawTypeHeader, DrawTypeText(f.drawType), s4, h);
      LookupCons(ConditionHeader, f.condition, s5, h);
    }
  }

  /** Each section of a written form reads back as the value written into it. */
  lemma SectionsOfRenderedForm(f: Form)
    requires WellFormedForm(f)
    ensures Section(RenderForm(f), NameHeader) == Some(f.name)
    ensures Section(RenderForm(f), PrizeHeader) == Some(f.prize)
    ensures Section(RenderForm(f), WinnerCountHeader) == Some(IntToS(f.winnerCount))
    ensures Section(RenderForm(f), DrawTypeHeader) == Some(DrawTypeText(f.drawType))
    ensures Section(RenderForm(f), ConditionHeader) == Some(f.condition)
    ensures Section(RenderForm(f), FloorsHeader) == f.specificFloors
    ensures Section(RenderForm(f), DescriptionHeader) == f.description
    ensures Section(RenderForm(f), ExtraInfoHeader) == f.extraInfo
  {
    var secs := FormSections(f);
    FormSectionsWellFormed(f);
    HeadersWellFormed();
    LookupFormSections(f);
    forall h | h in {NameHeader, PrizeHeader, WinnerCountHeader, DrawTypeHeader, ConditionHeader,
                     FloorsHeader, DescriptionHeader, ExtraInfoHeader}
      ensures Section(Render(secs), h) == Lookup(secs, h)
    {
      SectionOfRender(secs, h);
    }
  }

  /** `parse_raw` on any text whose sections hold the values of a form. */
  lemma ParseOfFormSections(raw: string, f: Form)
    requires WellFormedForm(f)
    requires Section(raw, NameHeader) == Some(f.name)
    requires Section(raw, PrizeHeader) == Some(f.prize)
    requires Section(raw, WinnerCountHeader) == Some(IntToS(f.winnerCount))
    requires Section(raw, DrawTypeHeader) == Some(DrawTypeText(f.drawType))
    requires Section(raw, ConditionHeader) == Some(f.condition)
    requires Section(raw, FloorsHeader) == f.specificFloors
    requires Section(raw, DescriptionHeader) == f.description
    requires Section(raw, ExtraInfoHeader) == f.extraInfo
    ensures ParseRaw(raw)
         == Parsed(Some(f.name), Some(f.prize), Some(f.winnerCount), Some(f.drawType),
                   f.specificFloors, f.description, f.extraInfo)
    ensures Condition(raw) == Some(f.condition)
  {
    ToIOfIntToS(f.winnerCount);
    DrawTypeOfText(f.drawType);
    FormValueStripped(f.name);
    FormValueStripped(f.prize);
    FormValueStripped(f.condition);
    if f.specificFloors.Some? { FormValueStripped(f.specificFloors.value); }
    if f.description.Some? { FormValueStripped(f.description.value); }
    if f.extraInfo.Some? { FormValueStripped(f.extraInfo.value); }
  }

  lemma FormValueStripped(v: string)
    requires IsFormValue(v)
    ensures StripOpt(Some(v)) == Some(v)
  {
  }

  /** The text written for a draw type names that draw type. */
  lemma DrawTypeOfText(d: DrawType)
    ensures DrawTypeOf(StripOpt(Some(DrawTypeText(d)))) == Some(d)
  {
    assert |ByTimeText| == 4 && |ByReplyText| == 5;
    assert IsStripped(ByTimeText) && IsStripped(ByReplyText);
  }

  /**
   * Reading back a written form gives every field it holds: the texts as typed, the winner
   * count as the integer written, the draw type as chosen.
   */
  lemma ParseRenderedForm(f: Form)
    requires WellFormedForm(f)
    ensures ParseRaw(RenderForm(f))
         == Parsed(Some(f.name), Some(f.prize), Some(f.winnerCount), Some(f.drawType),
                   f.specificFloors, f.description, f.extraInfo)
    ensures Condition(RenderForm(f)) == Some(f.condition)
  {
    SectionsOfRenderedForm(f);
    ParseOfFormSections(RenderForm(f), f);
  }

  /**
   * Creating from a written form: a blank name or prize stops creation as a missing field,
   * a blank condition as a missing condition; otherwise the record carries the form's
   * fields, with the draw time read from the condition (stopping if it cannot be read) or
   * the reply count that `to_i` reads from it.
   */
  lemma PlanRenderedForm(f: Form, topicId: int, postId: int, creatorId: int, parseTime: string -> Option<int>)
    requires WellFormedForm(f)
    ensures var r := Plan(topicId, postId, creatorId, ParseRaw(RenderForm(f)), Condition(RenderForm(f)), parseTime);
      FormPlan(f, topicId, postId, creatorId, parseTime, r)
  {
    ParseRenderedForm(f);
    PlanOfForm(f, topicId, postId, creatorId, parseTime, ParseRaw(RenderForm(f)), Condition(RenderForm(f)));
  }

  /** What creating from form `f` is to give. */
  predicate FormPlan(f: Form, topicId: int, postId: int, creatorId: int, parseTime: string -> Option<int>,
                     r: Result<LotteryParams, Abort>) {
    && (IsBlank(f.name) || IsBlank(f.prize) ==> r == Failure(MissingRequired))
    && (!IsBlank(f.name) && !IsBlank(f.prize) && IsBlank(f.condition) ==> r == Failure(MissingDrawCondition))
    && (!IsBlank(f.name) && !IsBlank(f.prize) && !IsBlank(f.condition) ==>
          var base := LotteryParams(topicId, postId, creatorId, f.name, f.prize, f.winnerCount, f.drawType,
                                    None, None, f.specificFloors, f.description, f.extraInfo);
          r == if f.drawType == ByReply then Success(base.(drawReplyCount := Some(ToI(f.condition))))
               else if parseTime(f.condition).None? then Failure(InvalidDrawTime)
               else Success(base.(drawAt := parseTime(f.condition))))
  }

  lemma PlanOfForm(f: Form, topicId: int, postId: int, creatorId: int, parseTime: string -> Option<int>,
                   p: Parsed, condition: Option<string>)
    requires p == Parsed(Some(f.name), Some(f.prize), Some(f.winnerCount), Some(f.drawType),
                         f.specificFloors, f.description, f.extraInfo)
    requires condition == Some(f.condition)
    ensures FormPlan(f, topicId, postId, creatorId, parseTime, Plan(topicId, postId, creatorId, p, condition, parseTime))
  {
  }

  /** A reply count written as an integer is read back as that integer. */
  lemma ReplyCountOfRenderedForm(f: Form, n: int, topicId: int, postId: int, creatorId: int,
                                 parseTime: string -> Option<int>)
    requires WellFormedForm(f) && !IsBlank(f.name) && !IsBlank(f.prize)
    requires f.drawType == ByReply && f.condition == IntToS(n)
    ensures var r := Plan(topicId, postId, creatorId, ParseRaw(RenderForm(f)), Condition(RenderForm(f)), parseTime);
      r.Success? && r.value.drawReplyCount == Some(n)
  {
    IntToSShape(n);
    ToIOfIntToS(n);
    PlanRenderedForm(f, topicId, postId, creatorId, parseTime);
  }

  /**
   * A winner count that is present but does not start with a number (such as `三` or `abc`)
   * is read as 0, which is not blank: it never stops creation as missing, and a record
   * planned from it has a winner count of 0, which the validations reject.
   */
  lemma NonNumericWinnerCount(raw: string, w: string, topicId: int, postId: int, creatorId: int,
                              parseTime: string -> Option<int>)
    requires Section(raw, WinnerCountHeader) == Some(w)
    requires !IsAsciiSpace(w[0]) && !IsDigit(w[0]) && w[0] != '+' && w[0] != '-'
    ensures ParseRaw(raw).winnerCount == Some(0)
    ensures var p := ParseRaw(raw);
      (Plan(topicId, postId, creatorId, p, Condition(raw), parseTime) == Failure(MissingRequired)
       <==> IsBlankOpt(p.name) || IsBlankOpt(p.prize) || p.drawType.None?)
    ensures var r := Plan(topicId, postId, creatorId, ParseRaw(raw), Condition(raw), parseTime);
      r.Success? ==> r.value.winnerCount == 0 && !Validates(r.value)
  {
  }
}
