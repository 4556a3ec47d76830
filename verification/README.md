# Preacher bot: a Dafny model of its text pipeline and mailing

The bot posts a daily ayah, hadith or dua from umma.ru to the Telegram users
who have subscribed. It has two pure layers, and this project models both:

- `handlers.py`, the text layer. It cleans up the hadith citation
  (`source_text_pattern`). It turns the paragraph texts of a page into the
  hadith, ayah or dua of the day, with the verse lookups that the ayah needs.
  It picks the link of the day from the front page's hrefs. It fills the
  Markdown template (`prettify_text`) and builds the two-line label drawn on
  the ayah picture.
- `bot.py`, the orchestration. It decides which Telegram calls a mailing makes
  and to whom (`start_mailing`). It handles the subscribe toggle and the
  filter that turns the admin's messages into broadcasts. It prepares the
  post of the day, including the dua deduplication over the set of posted
  links and the choice of picture (`prepare_mailing`).

Files:

- `wrappers.dfy`: `Option` and `Result`.
- `pystr.dfy` (module `PyStr`): Python's `find`, slicing, `replace`,
  `split`, `join`, `strip` and `lower`, with the lemmas the rest relies on.
- `handlers.dfy` (module `Handlers`): the text layer.
- `bot.dfy` (module `Bot`): the orchestration.

Strings are sequences of Unicode code points, so `|text|` is Python's `len`.
This matters for the 1024-character caption limit, and for the signature,
whose "©️" is two code points. HTTP responses and parsed pages are inputs:

- the front page's `read-more` hrefs;
- the set of dua links;
- a function from a URL to the texts on that page;
- a function from "surah:verse" to that verse's Arabic text.

Telegram calls are returned as a sequence of `Send` values. The SQLite tables
are a `Users` value and a set of posted links. The exceptions that the string
logic and the lookups can raise become a `Failure`; the faults of a malformed
document are listed under "## Left out". The chained `replace` calls in `prettify_text`
are kept as written: the third pattern "Транскрипция:" also matches the text
the first one put in, so a "Транскрипция дуа:" label is wrapped twice
(`Handlers.DuaMarkupRewritesTranscription`).

A hadith whose citation normalises to nothing is not skipped: the branch falls
through to `return header, body_text` with `header` unassigned, which raises
`UnboundLocalError`. The model returns `Failure(UnboundHeader)` there
(`Handlers.HadithText`). Because the as-written clean-up drops a last
character, a one-character citation already ends this way
(`Handlers.HadithOneLetterFails`).

## Model

| member | source | states |
|---|---|---|
| PyStr.Find | handlers.py:17 | `find` returns -1 exactly when the pattern does not occur, and otherwise the first index where it occurs |
| PyStr.Slice | handlers.py:20 | a slice is a substring; within bounds it is `s[lo..hi]`; a negative end counts from the back, so `[:-1]` drops the last character; an end past the length is clamped |
| PyStr.ReplaceIsJoinOfSplit | handlers.py:23-24 | `replace` is the same as splitting on the pattern and joining with the replacement, which pins it down as left to right and non-overlapping |
| PyStr.ReplaceAvoids | handlers.py:23-24 | if the replacement cannot overlap an occurrence of `w` and `w` is absent (or is the pattern), then `w` is absent after the replacement |
| PyStr.SplitJoin | handlers.py:79-80 | joining the parts of a split with the separator gives back the string |
| PyStr.SplitCount | handlers.py:205 | splitting on a character gives one part more than the character's occurrences |
| PyStr.Strip | handlers.py:24 | the result has no whitespace at either end, is a substring of the input with only whitespace cut from each side, and leaves an already stripped string alone |
| PyStr.Lower | bot.py:187 | `lower()` maps each character through the case map and keeps the length |
| PyStr.LowerContains | bot.py:187 | a substring still occurs after both sides are lower-cased |
| Handlers.SourceTextPattern | handlers.py:9-26 | the as-written citation clean-up gives a result with no "св. х.", no "Св. х.", no "; ", no " См." and no whitespace at either end |
| Handlers.SourceTextPatternCut | handlers.py:17-20 | the as-written cut keeps the text before the first " См."; without one it keeps all but the last character |
| Handlers.SourceTextPatternShrinks | handlers.py:17-20 | the as-written clean-up applied to its own non-empty output always shortens it, so it is not idempotent |
| Handlers.SourceTextPatternLosesLetter | handlers.py:17-20 | for "Бухари" the as-written clean-up gives "Бухар" and the corrected one gives "Бухари" |
| Handlers.SourceTextPatternFixed | handlers.py:9-26 | the corrected clean-up, which cuts only when " См." occurs, gives a clean result without " См." |
| Handlers.FixedAgreesWithMarker | handlers.py:17-20 | when the citation contains " См.", the corrected and the as-written clean-ups agree |
| Handlers.SourceTextPatternFixedIdempotent | handlers.py:9-26 | the corrected clean-up is idempotent |
| Handlers.ReadableClean | handlers.py:23-24 | the replacements and the strip always give a clean citation, and they add no " См." |
| Handlers.ReadableOfClean | handlers.py:23-24 | a clean citation passes through the replacements and the strip unchanged |
| Handlers.HadithText | handlers.py:48-58 | the hadith branch succeeds exactly when the citation is non-empty after the as-written clean-up, and then returns that clean citation and the first paragraph, with no lookups; otherwise it fails with the unbound-header error of handlers.py:109 |
| Handlers.HadithOneLetterFails | handlers.py:17-20 | a one-character citation is cut to nothing, so the hadith branch fails with the unbound-header error |
| Handlers.HadithTextFixed | handlers.py:48-58 | with the corrected clean-up, the branch succeeds exactly when the corrected citation is non-empty, and returns it with the first paragraph |
| Handlers.HadithTextAgreesWithMarker | handlers.py:17-20 | when the citation contains " См.", the hadith branch gives the same answer with either clean-up |
| Handlers.CutAtReferenceCut | handlers.py:67-70 | with "Св. Коран, " at `m` and the next ")" at `c`, the body is cut at `c + 2`, clamped to its length |
| Handlers.CutAtReferenceFound | handlers.py:73-76 | the reference is exactly the text between "Св. Коран, " and the next ")", and it contains no ")" |
| Handlers.CutAtReferenceMissing | handlers.py:67-76 | with no "Св. Коран, " and no ")" from index 10 on, the -1 results leave only the first character of the body and an empty reference |
| Handlers.VerseKeys | handlers.py:79-87 | there is one lookup key per verse number, in listed order, each being the surah, ":" and that verse |
| Handlers.VersesCoverPointer | handlers.py:79-80 | with exactly one ":" in the reference, the surah and the verse numbers rebuild the whole reference, so no listed verse is missed |
| Handlers.TwoVerseExample | handlers.py:79-87 | "3:7, 8" is looked up as "3:7" and then "3:8" |
| Handlers.AyahText | handlers.py:60-91 | the ayah branch fails only when the paragraphs join to nothing and there is no div; otherwise it returns the reference and the lookup texts, each followed by "\n", then "\n" and the cut body, with one lookup per verse key |
| Handlers.DropOtherDuas | handlers.py:102-103 | a dua paragraph is emptied exactly when it contains the "see other duas" text, and every other paragraph is kept as it is |
| Handlers.DuaText | handlers.py:93-107 | the dua branch returns the stripped title, and a body with no "see other duas" text, no abbreviation, and no whitespace at either end |
| Handlers.DuaTextVerbatim | handlers.py:101-107 | paragraphs without the marker and without abbreviations come through as their line-joined text, stripped |
| Handlers.GetText | handlers.py:48-109 | the dua branch of a page with a title (see "## Left out") always succeeds, and only the ayah branch makes lookups |
| Handlers.AyahLabel | handlers.py:204-210 | the label succeeds exactly when the reference has one ":", and is then the surah, a line break and the first verse number; otherwise the unpacking fails |
| Handlers.AyahLabelIsFirstKey | handlers.py:204-210 | the label is the first lookup key with its ":" turned into a line break |
| Handlers.CollectLinks | handlers.py:145-152 | the ayah entry, when set, is a URL containing "aya", and the hadith entry, when set, is one that does not |
| Handlers.CollectLinksLast | handlers.py:145-152 | the ayah entry is set exactly when some href's URL contains "aya", and the hadith entry exactly when some does not; each holds the URL of the last href of its kind |
| Handlers.DailyLink | handlers.py:154-156 | an ayah asks for the ayah entry and every other kind for the hadith entry; the answer is the last URL of that kind, and a missing entry is the `KeyError` |
| Handlers.AyahUrlByHref | handlers.py:147-149 | a URL is an ayah link exactly when its href contains "aya", since the site address neither contains "aya" nor can start one |
| Handlers.Prettify | handlers.py:159-194 | every post is the kind's opening, the first field, "*\n\n", the content (marked up for a dua), "\n\n" and the signature |
| Handlers.ParsePrettify | handlers.py:159-194 | a first field without "*" can be read back out of the post, together with the content for an ayah or a hadith and the marked-up content `DuaMarkup(content)` for a dua |
| Handlers.PrettifyParse | handlers.py:159-194 | whatever reads back has the template's shape; for an ayah or a hadith it is exactly the post of its two fields |
| Handlers.DuaMarkupRewritesTranscription | handlers.py:186-188 | "Транскрипция дуа:" becomes "\n*\n*Транскрипция:**", because the third replacement matches the output of the first |
| Handlers.DuaMarkupNoLabels | handlers.py:186-188 | a dua without any of the four labels is not changed |
| Bot.Subscribed | database/db.py:8-13 | the subscribed ids are the listed ids whose flag is set, kept in table order: a subsequence of the table holding each subscribed id as often as the table does and no other id |
| Bot.StartMailing | bot.py:107-142 | an admin post is one copy per user in table order; a scheduled post contains no copies |
| Bot.AdminCopyIgnoresFlags | bot.py:117-121 | the admin copies do not depend on the mailing flags, the text or the image |
| Bot.OnlySubscribersReceive | bot.py:123-124 | a scheduled post reaches every subscribed user and no one else |
| Bot.PlanCount | bot.py:124-142 | the loop sends each user one round (one or two messages, the same for everyone) per time the user is listed |
| Bot.EachSubscriberOnce | bot.py:123-142 | in a well-formed users table, a scheduled post sends each subscribed user exactly one round and every other user nothing |
| Bot.PlanSends | bot.py:124-142 | every send of the loop goes to one of the recipients and is a photo or a Markdown text, and every recipient gets one |
| Bot.PlanWithoutImage | bot.py:139-142 | without an image, each recipient in order gets exactly one Markdown text |
| Bot.PlanShortCaption | bot.py:134-138 | with an image and at most 1024 code points of text, each recipient in order gets exactly one photo with the text as caption |
| Bot.PlanLongCaption | bot.py:128-133 | with an image and more than 1024 code points, each recipient in order gets a captionless photo followed by the text |
| Bot.CaptionBoundary | bot.py:128 | 1024 code points still go as a caption and 1025 are split in two |
| Bot.ChangeMailingStatus | bot.py:70-104 | the toggle fails for an unknown user; otherwise it flips only that user's flag, ends with "Вы отписались от рассылки" exactly when the new flag is false, a command gets that one message and nothing else, and a button press first answers that callback and then redraws that message's keyboard with the admin button and the button for the opposite action |
| Bot.ToggleKeepsValid | database/db.py:26-28 | the toggle keeps the users table well formed |
| Bot.ToggleTwice | database/db.py:26-28 | toggling the same user twice restores the table |
| Bot.IsAdminPost | bot.py:145-146 | a message is broadcast exactly when it comes from the admin and its text contains neither "start" nor "change_mailing_status"; an admin message without text fails the filter with an error |
| Bot.CommandsAreNotPosts | bot.py:145-146 | "/start" and "/change_mailing_status" are never broadcast, and nor is anything sent by someone else |
| Bot.HandleAdminMessage | bot.py:145-156 | a message that passes the filter is copied to every user in table order, one copy each; one that fails it sends nothing; an admin message without text fails with the filter's error |
| Bot.AdminPostIsAdminMailing | bot.py:145-156 | a message that passes the filter produces exactly the admin mailing of `start_mailing` |
| Bot.ImageFor | bot.py:176-187 | an ayah gets `img/ayah_day.png`, a hadith `img/hadith.jpg`, and a dua `img/dua_quran.jpg` exactly when its lower-cased text contains "св. коран", else `img/dua.png` |
| Bot.QuranDuaImage | bot.py:187 | a dua citing the Qur'an in any mix of cases gets the Qur'an picture |
| Bot.QuranDuaImageCapitalised | bot.py:187 | a dua citing "Св. Коран" as the site writes it gets the Qur'an picture |
| Bot.PostFor | bot.py:174-193 | a post is the template of the fetched texts with its picture, mailed to the subscribers; a failing branch stops it with that error; an ayah whose reference gives no label stops with the label's error, and otherwise carries that label; other kinds carry none |
| Bot.PrepareMailing | bot.py:159-193 | an ayah or hadith uses the link of the day and leaves the posted set alone; a dua picks a link not yet posted and records it before anything else happens; with no link left it fails and records nothing |
| Bot.NextDuaMailing | bot.py:164-172 | one dua mailing picks a link not yet posted, records it and posts that link's dua, and it mails nothing exactly when every link is already posted |
| Bot.DuaMailings | bot.py:159-172 | successive dua mailings, each reading the posted set the previous one left, pick links that are all distinct and were unposted at the start; each mailing's post is the dua post of its link, the posted set grows by exactly the picks, and the run stops early only once every link is posted |
| Bot.PicksNeverRepeat | bot.py:164-172 | successive picks are distinct, all come from the links not posted at the start, and there are at most as many picks as such links |

## Left out

- HTTP and HTML parsing (`requests.get`, `aiohttp`, BeautifulSoup selectors). The page texts, the hrefs and the dua links are inputs. `get_ayah_arabic_translate` is an uninterpreted lookup.
- The footnote-link removal, which works on the parsed document tree.
- Faults of a malformed document, which are not part of the string logic: the `IndexError` of the hadith branch's selectors when the page has no paragraphs; the `AttributeError` of a dua page without an `upage__title` element (handlers.py:99); the `AttributeError` of a `read-more` element without a link and the `TypeError` of a link without `href` (handlers.py:147).
- `get_all_duas_links`, which only collects hrefs from 13 listing pages. Its result is the `duas` input.
- PIL font loading and drawing in `set_ayah_pointer_in_img`. Only the label string is modelled.
- The aiogram client, keyboards and handler registration. Sends are values, and the model does not claim the loop continues after a send fails: the code has no per-recipient error handling.
- The greeting handler and `add_new_user`, which are outside the mailing logic.
- `database/db.py` beyond the user map and the posted set. The SQL `NOT` on a NULL flag has no counterpart, because flags are booleans.
- `main.py`, which only holds the scheduler's cron times and start-up.
- asyncio and concurrency.
- Which element `set.pop()` returns. The model only states that it is one of the unposted links.
- PyStr.Lower: maps ASCII and the basic Cyrillic block only; other characters are kept as they are, whereas Python lower-cases every cased character.
- PyStr.Split: needs a non-empty separator. Python raises `ValueError` on an empty one, and the bot never passes one.

## Findings

| source | as written | input that shows it | evidently intended | confidence | as-written member | corrected member |
|---|---|---|---|---|---|---|
| handlers.py:17-20 | the citation is cut at `find(' См.')` even when that is -1, and `_text[:-1]` then drops the last character | the citation "Бухари" becomes "Бухар"; applying the clean-up again keeps shortening a non-empty result | cut only when " См." occurs, so that the clean-up is idempotent | likely; not executed | Handlers.SourceTextPattern, Handlers.SourceTextPatternLosesLetter, Handlers.SourceTextPatternShrinks, Handlers.HadithOneLetterFails | Handlers.SourceTextPatternFixed, Handlers.SourceTextPatternFixedIdempotent, Handlers.HadithTextFixed |
