/**
 * The filter run when a topic is created: with the plugin enabled, the topic is handed to the
 * lottery creator when its category is one of the trigger categories and one of its tags is
 * a trigger tag, ignoring case. An empty trigger list lets every topic through.
 */
module TopicTrigger {
  import opened Wrappers
  import opened RubyText
  import opened RubyArray

  /** `lottery_v2_trigger_categories.split('|').map(&:to_i)`: `to_i` never yields nil, so `compact` drops nothing. */
  function TriggerCategories(setting: string): (cs: seq<int>)
    ensures |cs| == |Split(setting, '|')|
    ensures forall i :: 0 <= i < |cs| ==> cs[i] == ToI(Split(setting, '|')[i])
  {
    ToIAll(Split(setting, '|'))
  }

  /** `lottery_v2_trigger_tags.split('|').map(&:downcase).compact_blank`. */
  function TriggerTags(setting: string): (ts: seq<string>)
    ensures forall t :: t in ts <==> t in DowncaseAll(Split(setting, '|')) && !IsBlank(t)
  {
    Filter(DowncaseAll(Split(setting, '|')), t => !IsBlank(t))
  }

  /** The downcased strings are exactly the downcased forms of the originals. */
  lemma DowncaseAllMembers(ss: seq<string>)
    ensures forall x :: x in DowncaseAll(ss) <==> exists s :: s in ss && Downcase(s) == x
  {
    var lowered := DowncaseAll(ss);
    forall x | x in lowered ensures exists s :: s in ss && Downcase(s) == x {
      var i :| 0 <= i < |lowered| && lowered[i] == x;
      assert ss[i] in ss;
    }
    forall s | s in ss ensures Downcase(s) in lowered {
      var i :| 0 <= i < |ss| && ss[i] == s;
      assert lowered[i] == Downcase(s);
    }
  }

  /** Every trigger tag is a non-blank downcased piece of the setting. */
  lemma TriggerTagsLowerCase(setting: string)
    ensures forall t :: t in TriggerTags(setting) ==> !IsBlank(t) && Downcase(t) == t
  {
    DowncaseAllMembers(Split(setting, '|'));
    forall t | t in TriggerTags(setting) ensures Downcase(t) == t {
      var piece :| piece in Split(setting, '|') && Downcase(piece) == t;
      DowncaseIdempotent(piece);
    }
  }

  /** `tags_match`: no trigger tags, or a topic tag that, downcased, is one of them. */
  function TagsMatch(triggerTags: seq<string>, topicTags: seq<string>): (m: bool)
    ensures m <==> triggerTags == [] || exists t :: t in topicTags && Downcase(t) in triggerTags
  {
    DowncaseAllMembers(topicTags);
    triggerTags == [] || Intersection(DowncaseAll(topicTags), triggerTags) != []
  }

  /**
   * The `topic_created` handler: the creation job is enqueued exactly when the plugin is
   * enabled and both the category and the tag checks match.
   */
  function ShouldEnqueue(enabled: bool, categorySetting: string, tagSetting: string,
                         categoryId: Option<int>, topicTags: seq<string>): (enqueue: bool)
    ensures !enabled ==> !enqueue
    ensures enqueue <==>
      && enabled
      && (TriggerCategories(categorySetting) == [] ||
          (categoryId.Some? && categoryId.value in TriggerCategories(categorySetting)))
      && TagsMatch(TriggerTags(tagSetting), topicTags)
  {
    if enabled then
      var triggerCategories := TriggerCategories(categorySetting);
      var triggerTags := TriggerTags(tagSetting);
      var categoryMatch := triggerCategories == [] || (categoryId.Some? && categoryId.value in triggerCategories);
      var tagsMatch := TagsMatch(triggerTags, topicTags);
      categoryMatch && tagsMatch
    else
      false
  }

  /** With both settings empty, every topic of an enabled site is handed to the creator. */
  lemma EmptySettingsMatchAll(categoryId: Option<int>, topicTags: seq<string>)
    ensures ShouldEnqueue(true, "", "", categoryId, topicTags)
  {
    assert Split("", '|') == [];
  }

  /** A tag setting made only of blank pieces (such as `" | "`) restricts nothing. */
  lemma BlankTagSettingMatchesAll(tagSetting: string, topicTags: seq<string>)
    requires forall i :: 0 <= i < |Split(tagSetting, '|')| ==> IsBlank(Split(tagSetting, '|')[i])
    ensures TagsMatch(TriggerTags(tagSetting), topicTags)
  {
    var pieces := Split(tagSetting, '|');
    if TriggerTags(tagSetting) != [] {
      var t := TriggerTags(tagSetting)[0];
      assert t in TriggerTags(tagSetting);
      var i :| 0 <= i < |pieces| && DowncaseAll(pieces)[i] == t;
      DowncasePreservesBlank(pieces[i]);
    }
  }

  lemma DowncasePreservesBlank(s: string)
    ensures IsBlank(Downcase(s)) <==> IsBlank(s)
  {
    assert forall k :: 0 <= k < |s| ==> (IsUnicodeSpace(Downcase(s)[k]) <==> IsUnicodeSpace(s[k]));
  }

  /** The tag check ignores case: a topic tag equal to a trigger piece up to case matches it. */
  lemma TagMatchIgnoresCase(tagSetting: string, topicTags: seq<string>, piece: string, tag: string)
    requires piece in Split(tagSetting, '|') && !IsBlank(piece)
    requires tag in topicTags && Downcase(tag) == Downcase(piece)
    ensures TagsMatch(TriggerTags(tagSetting), topicTags)
  {
    var pieces := Split(tagSetting, '|');
    var i :| 0 <= i < |pieces| && pieces[i] == piece;
    assert DowncaseAll(pieces)[i] == Downcase(piece);
    DowncasePreservesBlank(piece);
    assert Downcase(tag) in TriggerTags(tagSetting);
  }

  /** Changing the case of the topic's tags does not change the decision. */
  lemma TopicTagCaseIrrelevant(triggerTags: seq<string>, topicTags: seq<string>)
    ensures TagsMatch(triggerTags, DowncaseAll(topicTags)) == TagsMatch(triggerTags, topicTags)
  {
    DowncaseAllMembers(topicTags);
    if exists t :: t in topicTags && Downcase(t) in triggerTags {
      var t :| t in topicTags && Downcase(t) in triggerTags;
      DowncaseIdempotent(t);
      assert Downcase(t) in DowncaseAll(topicTags);
    }
    if exists t :: t in DowncaseAll(topicTags) && Downcase(t) in triggerTags {
      var t :| t in DowncaseAll(topicTags) && Downcase(t) in triggerTags;
      var s :| s in topicTags && Downcase(s) == t;
      DowncaseIdempotent(s);
    }
  }

  /** With trigger categories set, a topic without a category, or outside them, is never handed over. */
  lemma CategoryRequired(enabled: bool, categorySetting: string, tagSetting: string,
                         categoryId: Option<int>, topicTags: seq<string>)
    requires TriggerCategories(categorySetting) != []
    requires categoryId.None? || categoryId.value !in TriggerCategories(categorySetting)
    ensures !ShouldEnqueue(enabled, categorySetting, tagSetting, categoryId, topicTags)
  {
  }
}
