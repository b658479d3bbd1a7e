# Lottery v2 for Discourse, modelled in Dafny

This project models the core of the Discourse plugin "lottery v2". A topic opened in a
trigger category, with a trigger tag, is read as a lottery template. The post's `### `
sections give a name, a prize, a winner count, a draw type, a draw condition (a time or
a reply count), and optionally some floors, a description and extra information. A lottery
record is created from them and the topic is tagged `抽奖中` ("drawing in progress").

A scheduled job runs every minute over the running lotteries. It draws each one whose
condition is met:
- With floors given, the winners are the authors of the posts at those floors.
- Otherwise a random sample is taken of the first reply of each user other than the creator.
- The lottery is marked finished with its winners recorded.
- An announcement listing the winners (`- @name (#floor)`) is posted.
- Each winner is sent a message.
- The topic's tag `抽奖中` is replaced by `已开奖` ("drawn"), and the topic is closed.

Modules, one per file:
- `Wrappers` — `Option`, `Result` and `Min`.
- `RubyText` — the Ruby and Rails string behaviour the code relies on:
  - `strip` removes NUL and ASCII white space.
  - `blank?` is Unicode white space.
  - `to_i` reads leading spaces, a sign and digits with single underscores.
  - `split` drops trailing empty fields.
  - `downcase` is ASCII-only here.
- `RubyArray` — `select`, `uniq`, `uniq(&:key)`, `-` and `&` on arrays.
- `TemplateSections` — the regular expression `/### H\n(.+?)\n\n/` used to read one section
  of a template post.
- `Lotteries` — the lottery record:
  - its status and draw-type enums and the validations;
  - `participating_user_count`;
  - the `Lottery` and `Topic` objects with the fields a draw updates in place;
  - `LotteryTable`, the saved lotteries.
- `LotteryCreator` — `create_from_template` and `parse_raw`.
- `WinnerSelection` — `find_winners` and its two strategies.
- `LotteryManager` — `perform_draw`, with the announcement, the notifications and the topic update.
- `CheckLotteries` — the scheduled job's `execute`.
- `TopicTrigger` — the `topic_created` filter in `plugin.rb`.

Some things outside the model become parameters:
- **Time parsing.** `Time.zone.parse` is an oracle `string -> Option<int>`.
- **Database order.** The order by creation time is any order of the replies sorted by creation time.
- **Random sampling.** `Array#sample` is any choice of distinct positions of the right size.
- **Localised texts.** The announcement texts are a `Texts` value.
- **Failures.** The failures the scheduler's `rescue` catches are a `Fault` oracle per lottery:
  - saving fails;
  - posting the announcement fails;
  - the n-th message fails;
  - the n-th step of the tag rewrite fails.

The code has none of these:
- a fixed-position fallback;
- a minimum number of participants;
- anything that sets the `cancelled` status, which the status enum declares (app/models/lottery.rb:9);
- a check-and-set against double draws;
- a year roll-forward for dates without a year;
- a limit on winners;
- a check that the draw time is in the future.

The code refers to `Lottery::STATUSES`, `Lottery::DRAW_TYPES`, `is_draw_by_time?` and
`is_draw_by_reply?`, which the model class does not define. They are read as the two
enums the model declares (app/models/lottery.rb:9-10), which is evidently what was meant.
As written, `Lottery::STATUSES` raises `NameError`:
- In the scheduled job it is evaluated at jobs/scheduled/check_lotteries.rb:8, before the loop and
  outside its `rescue` (lines 26-28), so every run fails and nothing is ever drawn.
- In creation it is evaluated at app/services/lottery_creator.rb:48, so no lottery is ever
  saved. `Lottery::DRAW_TYPES` at lines 77 and 79 already raises for a template whose draw type
  is one of the two accepted texts.

The model describes the behaviour with these names read as the enums.

## Model

| member | source | states |
|---|---|---|
| Lotteries.StatusOfCode | app/models/lottery.rb:9 | the stored status codes are exactly 0..2, and each decodes to the status that encodes back to it |
| Lotteries.DrawTypeOfCode | app/models/lottery.rb:10 | the stored draw-type codes are exactly 1..2, and each decodes to the draw type that encodes back to it |
| Lotteries.ParticipatingUserCount | app/models/lottery.rb:21-26 | the count of distinct non-creator repliers is zero exactly when no post is a reply by someone other than the creator, and never exceeds the number of posts |
| Lotteries.LotteryTable.Create | app/models/lottery.rb:13-19 | a lottery is refused exactly when its parameters fail the validations or its topic already has a lottery; otherwise it raises a range error exactly when an id, the winner count or the reply count does not fit the 4-byte integer columns (db/migrate/20250813000000_create_lotteries.rb:4-12), and is saved when they all fit; a saved one is appended as running with no winners, and a refused or failed one leaves the table unchanged |
| TemplateSections.Section | app/services/lottery_creator.rb:71 | a captured section value is a non-empty single line |
| TemplateSections.MatchText | app/services/lottery_creator.rb:71 | the pattern matches at a position with capture `c` exactly when the text there is the header, a line break, `c` and an empty line, with `c` a non-empty line |
| TemplateSections.SectionIsLeftmostMatch | app/services/lottery_creator.rb:71-84 | a section is absent exactly when the pattern matches nowhere; when present, its value is the capture of the leftmost match |
| TemplateSections.NoEmptyLineNoSection | app/services/lottery_creator.rb:71-84 | a post with no empty line yields no section at all |
| TemplateSections.SectionOfRender | app/services/lottery_creator.rb:69-86 | reading any header from well-formed rendered sections gives the first value rendered under that header |
| LotteryCreator.DrawTypeOf | app/services/lottery_creator.rb:75-80 | the draw type is by time exactly for the by-time text, by reply exactly for the by-reply text, and absent otherwise |
| LotteryCreator.ParseRaw | app/services/lottery_creator.rb:69-86 | each field is present exactly when its section matches, and a draw type is only found when its section matches |
| LotteryCreator.Condition | app/services/lottery_creator.rb:31 | the draw condition is present exactly when its section matches |
| LotteryCreator.Plan | app/services/lottery_creator.rb:24-59 | creation aborts for missing fields exactly when the name or prize is blank or the winner count or draw type is absent; for a missing condition exactly when those are present and the condition is blank; for a bad time exactly when, beyond that, a by-time condition does not parse. Otherwise the parameters carry the parsed fields and either the parsed time (by time) or the condition read with `to_i` (by reply) |
| LotteryCreator.CreateFromTemplate | app/services/lottery_creator.rb:8-65 | a topic that already has a lottery is refused with the table unchanged; otherwise the outcome follows the plan. Parameters that fail validation build an unsaved lottery; valid ones with a value beyond the 4-byte columns raise before any tag is requested; otherwise the lottery is saved. The running tag is requested whenever `create` returned a lottery object. Afterwards the topic has a lottery exactly when it had one or this call saved it |
| LotteryCreator.SectionsOfRenderedForm | app/services/lottery_creator.rb:71-84 | every header read from a rendered template form gives back the value that was written under it |
| LotteryCreator.ParseRenderedForm | app/services/lottery_creator.rb:69-86 | parsing a rendered template form gives back every one of its fields and its draw condition |
| LotteryCreator.PlanRenderedForm | app/services/lottery_creator.rb:24-59 | creating from a rendered form aborts or succeeds as its field values alone decide, with the form's values in the created parameters |
| LotteryCreator.ReplyCountOfRenderedForm | app/services/lottery_creator.rb:57-59 | a by-reply form whose condition is the decimal text of `n` creates a lottery drawn at `n` replies |
| LotteryCreator.NonNumericWinnerCount | app/services/lottery_creator.rb:24-29 | a winner-count section that does not start with a space, sign or digit reads as 0, which is not blank: creation then aborts for missing fields exactly as the other required fields decide, and any parameters it yields have winner count 0 and fail validation |
| WinnerSelection.FloorList | app/services/lottery_manager.rb:48 | the floors are distinct, and an integer is a floor exactly when some comma-separated piece reads as it |
| WinnerSelection.FloorTextPieces | app/services/lottery_manager.rb:48 | a comma-separated list of floors splits into the decimal text of each floor, in order |
| WinnerSelection.FloorListOfFloorText | app/services/lottery_manager.rb:48 | floors written out comma-separated read back as the same set of floors |
| WinnerSelection.FloorPosts | app/services/lottery_manager.rb:50-51 | a post is selected exactly when it is at a listed floor and not written by the creator |
| WinnerSelection.SortBy | app/services/lottery_manager.rb:52 | ordering by a column gives a permutation of the posts sorted by that column |
| WinnerSelection.FloorWinners | app/services/lottery_manager.rb:50-54 | there are no more floor winners than posts, none is the creator, each sits at a listed floor, and they come in ascending post-number order |
| WinnerSelection.FloorWinnersMembers | app/services/lottery_manager.rb:50-54 | a winner is on the list exactly when it comes from a post at a listed floor not written by the creator |
| WinnerSelection.FloorWinnersEmpty | app/services/lottery_manager.rb:50-54 | there are no floor winners exactly when no listed floor holds a post by someone other than the creator |
| WinnerSelection.SortByCreatedAt | app/services/lottery_manager.rb:60-63 | the replies can always be put in creation-time order: a sorted permutation exists |
| WinnerSelection.FindWinnersByRandom | app/services/lottery_manager.rb:59-80 | the draw picks `min(winner count, participating users)` winners, all distinct users, each from the earliest reply of its user by someone other than the creator |
| WinnerSelection.RandomDrawOf | app/services/lottery_manager.rb:60-77 | the steps of the random draw (candidates, order by time, first of each user, sample) always produce a valid random draw |
| WinnerSelection.EarliestOfUnique | app/services/lottery_manager.rb:60-70 | after ordering by time, the reply kept for each user is that user's earliest reply |
| WinnerSelection.UniqueCount | app/services/lottery_manager.rb:70 | one reply per user leaves exactly as many replies as the lottery's participating user count |
| WinnerSelection.FindWinners | app/services/lottery_manager.rb:36-45 | floors decide when given and are not blank, otherwise the random draw; no winners exactly when no post qualifies; the creator never wins; floor winners come in ascending post-number order |
| WinnerSelection.WinnerResultEmpty | app/services/lottery_manager.rb:36-45 | any result of either strategy is empty exactly when no post qualifies |
| WinnerSelection.RandomDrawFacts | app/services/lottery_manager.rb:65-68 | a random draw is empty exactly when nobody but the creator replied, and never includes the creator |
| LotteryManager.AnnouncementLines | app/services/lottery_manager.rb:87-93 | the announcement splits into the title, an empty line, the introducing line, then one line per winner in order |
| LotteryManager.WinnerListLines | app/services/lottery_manager.rb:89-91 | the announcement's winner list splits back into one line per winner, in order |
| LotteryManager.WinnerLineReadBack | app/services/lottery_manager.rb:90 | each winner line holds the username right after `- @` and the post number after ` (#`, readable back with `to_i` |
| LotteryManager.NewTagList | app/services/lottery_manager.rb:114-121 | the new tags drop the running tag, add the drawn tag, keep every other tag and hold no duplicates |
| LotteryManager.NewTagListStable | app/services/lottery_manager.rb:114-121 | rewriting the tag list a second time gives exactly the same list |
| LotteryManager.SendNotifications | app/services/lottery_manager.rb:98-108 | the winners are messaged in order up to the first message that fails; the step raises exactly when one fails |
| LotteryManager.UpdateTopic | app/services/lottery_manager.rb:110-125 | the step raises exactly when a tag step fails, and then the transaction leaves the tags and lock untouched; otherwise the topic carries the new tag list and is closed |
| LotteryManager.PerformDraw | app/services/lottery_manager.rb:7-32 | a lottery that is not running, or with no qualifying post, is left alone; otherwise winners are chosen and saved first, and the announcement, messages and retagging each follow only when everything before them succeeded |
| LotteryManager.DrawStatus | app/services/lottery_manager.rb:10-29 | a draw only finishes a lottery by saving its winners, never touches one that is not running, records the winners whenever it announces, and only changes the topic by closing it with the drawn tag and without the running tag |
| CheckLotteries.ShouldDraw | jobs/scheduled/check_lotteries.rb:13-20 | a lottery is drawn exactly when its draw time is set and has come (by time), or its reply count is set and reached by the replies after the first post (by reply) |
| CheckLotteries.DueStaysDue | jobs/scheduled/check_lotteries.rb:16-19 | a due lottery stays due as time passes and posts are added |
| CheckLotteries.ByReplyNeedsReplies | jobs/scheduled/check_lotteries.rb:18-19 | a reply count of `k` is reached exactly when the topic has at least `k + 1` posts |
| CheckLotteries.NoConditionNeverDue | jobs/scheduled/check_lotteries.rb:16-19 | a lottery without a draw time or reply count for its type is never drawn |
| CheckLotteries.TableVisitable | jobs/scheduled/check_lotteries.rb:8 | the saved lotteries have one topic each and positive winner counts, as the scheduler's loop needs |
| CheckLotteries.Tick | jobs/scheduled/check_lotteries.rb:5-31 | each lottery is handled on its own: not running, a missing topic or a condition not yet met leave it and its topic untouched; a due one gets the effect of a draw under its own fault, whatever happened to the others; topics of no listed lottery are untouched |
| CheckLotteries.DrawnOnce | jobs/scheduled/check_lotteries.rb:8-25 | once a draw has saved a lottery, every later run skips it and changes nothing |
| CheckLotteries.TickOnlyDrawsDue | jobs/scheduled/check_lotteries.rb:13-25 | a run draws only running, due lotteries whose topic exists; only a draw changes a lottery, and it can only finish it; no lottery goes back to running |
| TopicTrigger.TriggerCategories | plugin.rb:24 | one category id per `\|`-separated piece of the setting, each the piece read with `to_i` |
| TopicTrigger.TriggerTags | plugin.rb:25 | the trigger tags are exactly the non-blank lower-cased pieces of the setting |
| TopicTrigger.TriggerTagsLowerCase | plugin.rb:25 | every trigger tag is non-blank and already lower case |
| TopicTrigger.TagsMatch | plugin.rb:28 | the tags match exactly when there is no trigger tag or some topic tag, lower-cased, is a trigger tag |
| TopicTrigger.ShouldEnqueue | plugin.rb:23-32 | a topic is handed to the creator exactly when the plugin is enabled, the category check passes (no trigger categories, or the topic's category is one) and the tag check passes; never when disabled |
| TopicTrigger.EmptySettingsMatchAll | plugin.rb:24-28 | with both settings empty, every topic of an enabled site is handed over |
| TopicTrigger.BlankTagSettingMatchesAll | plugin.rb:25-28 | a tag setting made only of blank pieces restricts nothing |
| TopicTrigger.TagMatchIgnoresCase | plugin.rb:25-28 | a topic tag equal to a non-blank setting piece up to case matches |
| TopicTrigger.TopicTagCaseIrrelevant | plugin.rb:28 | lower-casing the topic's tags does not change the tag check |
| TopicTrigger.CategoryRequired | plugin.rb:24-27 | with trigger categories set, a topic without a category or outside them is never handed over |
| RubyText.Strip | app/services/lottery_creator.rb:71 | the stripped text is a contiguous piece of the input with no strippable space at either end, and stripping a stripped text changes nothing |
| RubyText.ToI | app/services/lottery_creator.rb:73 | a text starting with anything but a space, sign or digit (or an empty text) reads as 0; a leading digit or `+` reads as non-negative, a leading `-` as non-positive |
| RubyText.ToIOfIntToS | app/services/lottery_creator.rb:73 | `to_i` reads back every integer written in decimal |
| RubyText.Split | app/services/lottery_manager.rb:48 | no piece holds the separator, and the last piece is never empty |
| RubyText.Downcase | plugin.rb:25 | the result has the input's length, with each ASCII capital lowered and every other character kept |
| RubyText.DowncaseIdempotent | plugin.rb:25-28 | lower-casing twice is lower-casing once |
| RubyText.SplitOfJoin | app/services/lottery_manager.rb:89-91 | non-empty pieces without the separator, joined by it, split back into the same pieces |
| RubyArray.UniqBy | app/services/lottery_manager.rb:70 | the result has one element per key, covers every key of the input, and keeps the first element with each key |
| RubyArray.Uniq | app/services/lottery_manager.rb:118 | the result has no duplicates and the same elements as the input |
| RubyArray.UniqAppendPresent | app/services/lottery_manager.rb:118 | appending an element already present to a duplicate-free array and removing duplicates gives the array back |
| RubyArray.Difference | app/services/lottery_manager.rb:114 | an element is kept exactly when it is in the first array and not in the second |
| RubyArray.Intersection | plugin.rb:28 | the result has no duplicates, holds exactly the common elements, and is empty exactly when the arrays share nothing |

## Left out

- Logging, the localised text of the announcement and messages (a `Texts` parameter), and
  the body of `PostCreator` and of private messages: only who is messaged, and in what order, is modelled.
- The announcement post is not added to the topic's posts in the model.
- `@topic.update(closed: true)` is taken to succeed.
- `DiscourseTagging.tag_topic_by_names` (`add_tag`) is outside the model: creation reports
  which tag it asks for and does not change the topic's tags.
- The serializer, routes, controllers, front end, migrations and the job wrapper that
  enqueues creation are not part of this model.
- `find_each` batching, concurrency between scheduler runs and creation, and database locking are not modelled.
- A post without a user, and deleted or hidden posts, are not modelled: every post has a user id and a username.
- `Time.zone.parse` is an oracle, so time zones and formats are not modelled.
- The randomness of `Array#sample` is a free choice of distinct positions.
- The tie order of equal creation times is a free choice.
- `RubyText.ToI`: does not model the `0d`/`0x`-style base prefixes, which templates do not use.
- `RubyText.Downcase`: lower-cases ASCII letters only, where Ruby also folds other scripts.
- Exceptions other than the `Fault` oracle (for example out-of-memory or a database
  disconnect) are not modelled; each lottery meets at most one fault.
- The `presence` validations on `post_id`, `created_by_id` and `draw_type` are carried by the
  types, which cannot hold a missing value.
- CheckLotteries.Tick: takes the result of the running-lottery query as a sequence of
  lotteries with distinct topics and positive winner counts (what the validations give,
  see `CheckLotteries.TableVisitable`). A lottery in it that is not running is reported as
  skipped, standing for its absence from the query.
- WinnerSelection.FindWinnersByRandom: requires a non-negative winner count, because
  `sample` raises for a negative one; the validations rule that out.
- LotteryCreator.ParseRenderedForm: the round trip covers values of one non-empty line with
  no strippable space at either end; a line break inside a value ends its section, and
  `strip` removes the padding.
- Post numbers are unique within a topic, so ties in the post-number order do not arise.
  The model orders by post number without assuming this.
- Ids and counts are unbounded integers; the 4-byte limit of the columns is only checked
  where a lottery is inserted.
