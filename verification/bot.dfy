/** The orchestration in `bot.py`: which messages a mailing sends to whom,
    the subscribe toggle, the admin-post filter, and the preparation of the
    daily post with its dua deduplication. Telegram calls are returned as
    values; the SQLite tables are a user map and a set of posted links. */
module Bot {
  import opened Wrappers
  import opened PyStr
  import opened Handlers

  /** Telegram's limit on a photo caption, in code points. */
  const CAPTION_LIMIT := 1024

  const UNSUBSCRIBED_TEXT := "Вы отписались от рассылки"
  const SUBSCRIBED_TEXT := "Вы подписались на рассылку"
  const ADMIN_BUTTON := "Связаться с администратором"
  const SUBSCRIBE_BUTTON := "Подписаться на рассылку"
  const UNSUBSCRIBE_BUTTON := "Отписаться от рассылки"

  /** One call the bot makes to Telegram. */
  datatype Send =
    | Copy(chat: int, fromChat: int, messageId: int)         // copy_message
    | Photo(chat: int, img: string)                          // send_photo without caption
    | PhotoCaption(chat: int, img: string, caption: string)  // send_photo with a Markdown caption
    | Markdown(chat: int, text: string)                      // send_message in Markdown
    | Plain(chat: int, text: string)                         // send_message without parse mode
    | AnswerCallback(queryId: int)                           // answer_callback_query
    | EditKeyboard(chat: int, messageId: int, text: string, buttons: seq<string>)

  /** The users table: the ids in the order the table returns them, and
      each id's mailing flag. */
  datatype Users = Users(order: seq<int>, mailing: map<int, bool>)

  /** Every listed id has a flag, every flagged id is listed, and no id is
      listed twice (the table is keyed on the id). */
  predicate Valid(users: Users)
  {
    && (forall i :: 0 <= i < |users.order| ==> users.order[i] in users.mailing)
    && (forall id :: id in users.mailing ==> id in users.order)
    && (forall i, j :: 0 <= i < j < |users.order| ==> users.order[i] != users.order[j])
  }

  // ---------------------------------------------------------------------
  // start_mailing

  /** `a` is `b` with some entries left out, the rest kept in order. */
  predicate IsSubsequence(a: seq<int>, b: seq<int>)
    decreases |b|
  {
    |a| == 0 || (|b| > 0 && if a[0] == b[0] then IsSubsequence(a[1..], b[1..]) else IsSubsequence(a, b[1..]))
  }

  /** The id has a flag and it is set. */
  predicate IsSubscribed(id: int, mailing: map<int, bool>)
  {
    id in mailing && mailing[id]
  }

  /** `get_all_users(mailing=True)`: the subscribed ids, in table order.
      Keeping table order and every occurrence of each subscribed id, and
      nothing else, determines the result. */
  function Subscribed(order: seq<int>, mailing: map<int, bool>): (r: seq<int>)
    ensures |r| <= |order|
    ensures IsSubsequence(r, order)
    ensures forall id :: id in r <==> id in order && IsSubscribed(id, mailing)
    ensures forall id :: multiset(r)[id] == if IsSubscribed(id, mailing) then multiset(order)[id] else 0
  {
    if |order| == 0 then []
    else
      var rest := Subscribed(order[1..], mailing);
      var id := order[0];
      assert order == [id] + order[1..];
      if IsSubscribed(id, mailing) then [id] + rest else rest
  }

  /** What one subscriber receives for a post: a photo with the text as
      caption when it fits, a captionless photo followed by the text when it
      does not, and the text alone when there is no image. */
  function PerUser(id: int, text: string, img: Option<string>): seq<Send>
  {
    if img.Some? then
      if |text| > CAPTION_LIMIT then [Photo(id, img.value), Markdown(id, text)]
      else [PhotoCaption(id, img.value, text)]
    else [Markdown(id, text)]
  }

  /** The sends of the loop over the recipients, in order. */
  function Plan(ids: seq<int>, text: string, img: Option<string>): seq<Send>
  {
    if |ids| == 0 then [] else PerUser(ids[0], text, img) + Plan(ids[1..], text, img)
  }

  /** `start_mailing`: with `fromAdmin` the admin's message is copied to
      every user in the table; otherwise the post goes to the subscribers. */
  function StartMailing(users: Users, text: string, img: Option<string>, fromAdmin: Option<(int, int)>): (r: seq<Send>)
    ensures fromAdmin.Some? ==> |r| == |users.order|
    ensures fromAdmin.Some? ==>
              forall i :: 0 <= i < |r| ==> r[i] == Copy(users.order[i], fromAdmin.value.0, fromAdmin.value.1)
    ensures fromAdmin.None? ==> forall s :: s in r ==> !s.Copy?
  {
    if fromAdmin.Some? then
      seq(|users.order|, i requires 0 <= i < |users.order| =>
        Copy(users.order[i], fromAdmin.value.0, fromAdmin.value.1))
    else
      var r := Plan(Subscribed(users.order, users.mailing), text, img);
      PlanSends(Subscribed(users.order, users.mailing), text, img);
      r
  }

  /** Every send of a plan goes to one of its recipients, every recipient
      gets something, and nothing is a copy. */
  lemma {:induction false} PlanSends(ids: seq<int>, text: string, img: Option<string>)
    ensures forall s :: s in Plan(ids, text, img) ==> !s.Copy? && (s.Photo? || s.PhotoCaption? || s.Markdown?)
    ensures forall s :: s in Plan(ids, text, img) ==> s.chat in ids
    ensures forall id :: id in ids ==> exists s :: s in Plan(ids, text, img) && !s.AnswerCallback? && s.chat == id
    decreases |ids|
  {
    if |ids| > 0 {
      PlanSends(ids[1..], text, img);
      var head := PerUser(ids[0], text, img);
      assert head[0].chat == ids[0];
      assert Plan(ids, text, img) == head + Plan(ids[1..], text, img);
      forall id | id in ids
        ensures exists s :: s in Plan(ids, text, img) && !s.AnswerCallback? && s.chat == id
      {
        if id != ids[0] {
          assert id in ids[1..];
        } else {
          assert head[0] in Plan(ids, text, img);
        }
      }
    }
  }

  /** Without an image every recipient gets exactly one Markdown message. */
  lemma {:induction false} PlanWithoutImage(ids: seq<int>, text: string)
    ensures |Plan(ids, text, None)| == |ids|
    ensures forall i :: 0 <= i < |ids| ==> Plan(ids, text, None)[i] == Markdown(ids[i], text)
    decreases |ids|
  {
    if |ids| > 0 {
      PlanWithoutImage(ids[1..], text);
    }
  }

  /** With an image and a text that fits, every recipient gets exactly one
      photo with the text as caption. */
  lemma {:induction false} PlanShortCaption(ids: seq<int>, text: string, img: string)
    requires |text| <= CAPTION_LIMIT
    ensures |Plan(ids, text, Some(img))| == |ids|
    ensures forall i :: 0 <= i < |ids| ==> Plan(ids, text, Some(img))[i] == PhotoCaption(ids[i], img, text)
    decreases |ids|
  {
    if |ids| > 0 {
      PlanShortCaption(ids[1..], text, img);
    }
  }

  /** With an image and a text over the limit, every recipient gets a
      captionless photo and then the text, before the next recipient. */
  lemma {:induction false} PlanLongCaption(ids: seq<int>, text: string, img: string)
    requires |text| > CAPTION_LIMIT
    ensures |Plan(ids, text, Some(img))| == 2 * |ids|
    ensures forall i :: 0 <= i < |ids| ==>
              && Plan(ids, text, Some(img))[2 * i] == Photo(ids[i], img)
              && Plan(ids, text, Some(img))[2 * i + 1] == Markdown(ids[i], text)
    decreases |ids|
  {
    if |ids| > 0 {
      var rest := Plan(ids[1..], text, Some(img));
      PlanLongCaption(ids[1..], text, img);
      var r := Plan(ids, text, Some(img));
      assert r == [Photo(ids[0], img), Markdown(ids[0], text)] + rest;
      forall i | 0 < i < |ids|
        ensures r[2 * i] == Photo(ids[i], img) && r[2 * i + 1] == Markdown(ids[i], text)
      {
        assert ids[1..][i - 1] == ids[i];
        assert r[2 * i] == rest[2 * (i - 1)];
        assert r[2 * i + 1] == rest[2 * (i - 1) + 1];
      }
    }
  }

  /** The caption limit is inclusive: 1024 code points still go as a
      caption, 1025 split the post in two. */
  lemma CaptionBoundary(id: int, img: string, text: string)
    ensures |text| == 1024 ==> PerUser(id, text, Some(img)) == [PhotoCaption(id, img, text)]
    ensures |text| == 1025 ==> PerUser(id, text, Some(img)) == [Photo(id, img), Markdown(id, text)]
  {
  }

  /** A scheduled post reaches the subscribed users and no one else. */
  lemma OnlySubscribersReceive(users: Users, text: string, img: Option<string>)
    ensures forall s :: s in StartMailing(users, text, img, None) ==>
              !s.AnswerCallback? && s.chat in users.order && s.chat in users.mailing && users.mailing[s.chat]
    ensures forall id :: id in users.order && id in users.mailing && users.mailing[id] ==>
              exists s :: s in StartMailing(users, text, img, None) && !s.AnswerCallback? && s.chat == id
  {
    PlanSends(Subscribed(users.order, users.mailing), text, img);
  }

  /** How many of the sends are addressed to chat `id`. */
  function SendsTo(sends: seq<Send>, id: int): nat
  {
    if |sends| == 0 then 0
    else (if !sends[0].AnswerCallback? && sends[0].chat == id then 1 else 0) + SendsTo(sends[1..], id)
  }

  lemma {:induction false} SendsToAppend(a: seq<Send>, b: seq<Send>, id: int)
    ensures SendsTo(a + b, id) == SendsTo(a, id) + SendsTo(b, id)
    decreases |a|
  {
    if |a| == 0 {
      assert a + b == b;
    } else {
      var c := if !a[0].AnswerCallback? && a[0].chat == id then 1 else 0;
      assert (a + b)[0] == a[0];
      assert (a + b)[1..] == a[1..] + b;
      assert SendsTo(a + b, id) == c + SendsTo(a[1..] + b, id);
      assert SendsTo(a, id) == c + SendsTo(a[1..], id);
      SendsToAppend(a[1..], b, id);
    }
  }

  /** The number of sends in one recipient's round. */
  function RoundSize(text: string, img: Option<string>): (n: nat)
    ensures forall id :: |PerUser(id, text, img)| == n
  {
    if img.Some? && |text| > CAPTION_LIMIT then 2 else 1
  }

  /** One recipient's round goes to that recipient only. */
  lemma RoundTo(x: int, text: string, img: Option<string>, id: int)
    ensures SendsTo(PerUser(x, text, img), id) == if x == id then RoundSize(text, img) else 0
  {
    var p := PerUser(x, text, img);
    if |p| == 2 {
      assert p[1..][1..] == [];
    } else {
      assert p[1..] == [];
    }
  }

  /** A plan sends each id one round per time it is listed. */
  lemma {:induction false} PlanCount(ids: seq<int>, text: string, img: Option<string>, id: int)
    ensures SendsTo(Plan(ids, text, img), id) == multiset(ids)[id] * RoundSize(text, img)
    decreases |ids|
  {
    if |ids| > 0 {
      var hit := ids[0] == id;
      PlanCount(ids[1..], text, img, id);
      PlanStep(ids, text, img, id);
      RoundTo(ids[0], text, img, id);
      MultisetStep(ids, id);
      CountStep(hit, RoundSize(text, img), multiset(ids[1..])[id]);
    }
  }

  /** A plan's sends to `id` are those of its first round and of the rest. */
  lemma PlanStep(ids: seq<int>, text: string, img: Option<string>, id: int)
    requires |ids| > 0
    ensures SendsTo(Plan(ids, text, img), id)
         == SendsTo(PerUser(ids[0], text, img), id) + SendsTo(Plan(ids[1..], text, img), id)
  {
    SendsToAppend(PerUser(ids[0], text, img), Plan(ids[1..], text, img), id);
  }

  lemma MultisetStep(ids: seq<int>, id: int)
    requires |ids| > 0
    ensures multiset(ids)[id] == (if ids[0] == id then 1 else 0) + multiset(ids[1..])[id]
  {
    assert ids == [ids[0]] + ids[1..];
  }

  lemma CountStep(hit: bool, k: nat, m: nat)
    ensures (if hit then k else 0) + m * k == ((if hit then 1 else 0) + m) * k
  {
  }

  /** In a sequence without repeats every element is counted once. */
  lemma {:induction false} DistinctCount(s: seq<int>, x: int)
    requires forall i, j :: 0 <= i < j < |s| ==> s[i] != s[j]
    ensures multiset(s)[x] == if x in s then 1 else 0
    decreases |s|
  {
    if |s| > 0 {
      DistinctCount(s[1..], x);
      assert s == [s[0]] + s[1..];
      assert s[0] !in s[1..];
    }
  }

  /** In a well-formed table, a scheduled post makes one round of sends to
      each subscribed user and sends nothing to anyone else. */
  lemma EachSubscriberOnce(users: Users, text: string, img: Option<string>, id: int)
    requires Valid(users)
    ensures SendsTo(StartMailing(users, text, img, None), id)
         == if IsSubscribed(id, users.mailing) then RoundSize(text, img) else 0
  {
    var ids := Subscribed(users.order, users.mailing);
    assert StartMailing(users, text, img, None) == Plan(ids, text, img);
    PlanCount(ids, text, img, id);
    DistinctCount(users.order, id);
    var m := multiset(ids)[id];
    assert m == if IsSubscribed(id, users.mailing) then 1 else 0;
    assert m * RoundSize(text, img) == if m == 1 then RoundSize(text, img) else 0;
  }

  /** An admin post does not look at the mailing flags. */
  lemma AdminCopyIgnoresFlags(users: Users, flags: map<int, bool>, text: string, img: Option<string>, admin: int, messageId: int)
    ensures StartMailing(users, text, img, Some((admin, messageId)))
         == StartMailing(Users(users.order, flags), "", None, Some((admin, messageId)))
  {
  }

  // ---------------------------------------------------------------------
  // change_mailing_status_from_button

  /** What started the toggle: the command, or a press of the inline button
      under the greeting (with the callback id and the greeting message). */
  datatype Trigger =
    | Command(user: int)
    | Button(user: int, queryId: int, chat: int, messageId: int, greeting: string)

  datatype BotError =
    | UnknownUser   // `fetchone()` found no row: `None[0]` raises `TypeError`
    | NoText        // `'start' in None`: the admin sent a message without text
    | NoDuaLeft     // `set.pop()` on an empty set raises `KeyError`
    | Handler(e: Error)

  /** The toggle: flip the user's flag, answer the button press and relabel
      the button if it was one, then tell the user the new state. */
  function ChangeMailingStatus(users: Users, trigger: Trigger): (r: Result<(Users, seq<Send>), BotError>)
    ensures r.Success? <==> trigger.user in users.mailing
    ensures r.Failure? ==> r.error == UnknownUser
    ensures r.Success? ==> r.value.0.order == users.order && r.value.0.mailing.Keys == users.mailing.Keys
    ensures r.Success? ==>
              var (after, sends) := r.value;
              var flag := after.mailing[trigger.user];
              && flag == !users.mailing[trigger.user]
              && (forall id :: id in users.mailing && id != trigger.user ==> after.mailing[id] == users.mailing[id])
              && |sends| > 0
              && sends[|sends| - 1] == Plain(trigger.user, if flag then SUBSCRIBED_TEXT else UNSUBSCRIBED_TEXT)
              && |sends| == (if trigger.Button? then 3 else 1)
              && (trigger.Button? ==>
                    && sends[0] == AnswerCallback(trigger.queryId)
                    && sends[1] == EditKeyboard(trigger.chat, trigger.messageId, trigger.greeting,
                                                [ADMIN_BUTTON, if flag then UNSUBSCRIBE_BUTTON else SUBSCRIBE_BUTTON]))
  {
    var id := trigger.user;
    if id !in users.mailing then Failure(UnknownUser)
    else
      var status := !users.mailing[id];
      var after := Users(users.order, users.mailing[id := status]);
      var button := if !status then SUBSCRIBE_BUTTON else UNSUBSCRIBE_BUTTON;
      var text := if !status then UNSUBSCRIBED_TEXT else SUBSCRIBED_TEXT;
      var edit := match trigger
        case Command(_) => []
        case Button(_, q, chat, m, greeting) =>
          [AnswerCallback(q), EditKeyboard(chat, m, greeting, [ADMIN_BUTTON, button])];
      Success((after, edit + [Plain(id, text)]))
  }

  /** The toggle keeps the table well formed. */
  lemma ToggleKeepsValid(users: Users, trigger: Trigger)
    requires Valid(users) && trigger.user in users.mailing
    ensures Valid(ChangeMailingStatus(users, trigger).value.0)
  {
  }

  /** Toggling twice, by command or by button, restores the table. */
  lemma ToggleTwice(users: Users, first: Trigger, second: Trigger)
    requires first.user == second.user && first.user in users.mailing
    ensures var once := ChangeMailingStatus(users, first).value.0;
            ChangeMailingStatus(once, second).value.0 == users
  {
    var id := first.user;
    var once := ChangeMailingStatus(users, first).value.0;
    var twice := ChangeMailingStatus(once, second).value.0;
    assert twice.mailing == users.mailing;
  }

  // ---------------------------------------------------------------------
  // The admin-post filter and send_post_from_admin

  /** The filter in front of `send_post_from_admin`: only the admin's
      messages, and only those whose text mentions neither "start" nor
      "change_mailing_status". A message without text from the admin makes
      the `in` test fail. */
  function IsAdminPost(sender: int, text: Option<string>, admin: int): (r: Result<bool, BotError>)
    ensures r.Failure? <==> sender == admin && text.None?
    ensures r.Failure? ==> r.error == NoText
    ensures r == Success(true) <==>
              sender == admin && text.Some? && !Contains(text.value, "start") && !Contains(text.value, "change_mailing_status")
  {
    if sender != admin then Success(false)
    else if text.None? then Failure(NoText)
    else Success(!(Contains(text.value, "start") || Contains(text.value, "change_mailing_status")))
  }

  /** The bot's own commands are never broadcast, and neither is anything
      someone other than the admin writes. */
  lemma CommandsAreNotPosts(admin: int, sender: int, text: string)
    ensures IsAdminPost(admin, Some("/start"), admin) == Success(false)
    ensures IsAdminPost(admin, Some("/change_mailing_status"), admin) == Success(false)
    ensures sender != admin ==> IsAdminPost(sender, Some(text), admin) == Success(false)
  {
    assert OccursAt("/start", "start", 1);
    assert OccursAt("/change_mailing_status", "change_mailing_status", 1);
  }

  /** A message that reaches the bot: what the filter decides and, when it
      passes, `send_post_from_admin` copying it to everyone. */
  function HandleAdminMessage(users: Users, sender: int, text: Option<string>, messageId: int, admin: int): (r: Result<seq<Send>, BotError>)
    ensures r.Failure? <==> IsAdminPost(sender, text, admin).Failure?
    ensures r.Success? && r.value != [] ==> sender == admin && |r.value| == |users.order|
    ensures r.Success? && IsAdminPost(sender, text, admin).value ==> |r.value| == |users.order|
    ensures r.Success? && IsAdminPost(sender, text, admin).value ==>
              forall i :: 0 <= i < |r.value| ==> r.value[i] == Copy(users.order[i], admin, messageId)
    ensures r.Success? && !IsAdminPost(sender, text, admin).value ==> r.value == []
  {
    match IsAdminPost(sender, text, admin)
    case Failure(e) => Failure(e)
    case Success(post) =>
      if post then Success(StartMailing(users, "", None, Some((admin, messageId)))) else Success([])
  }

  /** A message that passes the filter is the admin mailing of
      `start_mailing`: the same copies, in the same order. */
  lemma AdminPostIsAdminMailing(users: Users, text: string, messageId: int, admin: int)
    requires IsAdminPost(admin, Some(text), admin) == Success(true)
    ensures HandleAdminMessage(users, admin, Some(text), messageId, admin)
         == Success(StartMailing(users, "", None, Some((admin, messageId))))
  {
    var r := HandleAdminMessage(users, admin, Some(text), messageId, admin).value;
    var m := StartMailing(users, "", None, Some((admin, messageId)));
    assert |r| == |m|;
    assert forall i :: 0 <= i < |r| ==> r[i] == m[i];
  }

  // ---------------------------------------------------------------------
  // prepare_mailing

  const QURAN_MARK := "св. коран"

  /** The picture that goes with a post, under the project root. */
  function ImageFor(kind: Kind, root: string, content: string): (r: string)
    ensures kind == Ayah ==> r == root + "img/ayah_day.png"
    ensures kind == Hadith ==> r == root + "img/hadith.jpg"
    ensures kind == Dua ==>
              r == root + (if Contains(Lower(content), QURAN_MARK) then "img/dua_quran.jpg" else "img/dua.png")
  {
    match kind
    case Ayah => root + "img/ayah_day.png"
    case Hadith => root + "img/hadith.jpg"
    case Dua =>
      if Contains(Lower(content), QURAN_MARK) then root + "img/dua_quran.jpg" else root + "img/dua.png"
  }

  /** A dua that cites "Св. Коран" in any mix of cases gets the Qur'an
      picture. */
  lemma QuranDuaImage(root: string, content: string, cited: string)
    requires Contains(content, cited) && Lower(cited) == QURAN_MARK
    ensures ImageFor(Dua, root, content) == root + "img/dua_quran.jpg"
  {
    LowerContains(content, cited);
  }

  /** The citation as the site writes it lower-cases to the mark. */
  lemma CapitalisedCitation()
    ensures Lower("Св. Коран") == QURAN_MARK
  {
  }

  /** A dua citing "Св. Коран" as the site writes it gets the Qur'an
      picture. */
  lemma QuranDuaImageCapitalised(root: string, content: string)
    requires Contains(content, "Св. Коран")
    ensures ImageFor(Dua, root, content) == root + "img/dua_quran.jpg"
  {
    CapitalisedCitation();
    QuranDuaImage(root, content, "Св. Коран");
  }

  /** What the bot reads from the outside world while preparing a post. */
  datatype World = World(
    hrefs: seq<string>,           // the `read-more` hrefs on the front page of umma.ru
    duas: set<string>,            // `get_all_duas_links()`
    page: string -> Page,         // the texts of the page at a URL
    lookup: string -> string,     // the Arabic text of a verse, by "surah:verse"
    root: string)                 // ROOT_PATH

  /** A prepared post: the page it came from, the label drawn on the ayah
      picture, the picture, the text and the sends of the mailing. */
  datatype Post = Post(url: string, imageLabel: Option<string>, img: string, text: string, sends: seq<Send>)

  /** Everything after the URL has been chosen: fetch the texts, draw the
      label for an ayah, pick the picture, fill the template, and mail. */
  function PostFor(kind: Kind, world: World, users: Users, url: string): (r: Result<Post, BotError>)
    ensures r.Success? ==> r.value.url == url
    ensures r.Success? ==> r.value.sends == StartMailing(users, r.value.text, Some(r.value.img), None)
    ensures r.Success? ==> var got := GetText(kind, world.page(url), world.lookup);
              && got.Success?
              && r.value.text == Prettify(kind, got.value.first, got.value.second)
              && r.value.img == ImageFor(kind, world.root, got.value.second)
              && (kind == Ayah <==> r.value.imageLabel.Some?)
    ensures GetText(kind, world.page(url), world.lookup).Failure? ==>
              r == Failure(Handler(GetText(kind, world.page(url), world.lookup).error))
    ensures var got := GetText(kind, world.page(url), world.lookup);
            got.Success? ==>
              && (kind != Ayah ==> r.Success? && r.value.imageLabel == None)
              && (kind == Ayah && AyahLabel(got.value.first).Failure? ==>
                    r == Failure(Handler(AyahLabel(got.value.first).error)))
              && (kind == Ayah && AyahLabel(got.value.first).Success? ==>
                    r.Success? && r.value.imageLabel == Some(AyahLabel(got.value.first).value))
  {
    match GetText(kind, world.page(url), world.lookup)
    case Failure(e) => Failure(Handler(e))
    case Success(got) =>
      var drawn := if kind == Ayah then AyahLabel(got.first) else Success("");
      if drawn.Failure? then Failure(Handler(drawn.error))
      else
        var text := Prettify(kind, got.first, got.second);
        var img := ImageFor(kind, world.root, got.second);
        Success(Post(url, if kind == Ayah then Some(drawn.value) else None, img, text,
                     StartMailing(users, text, Some(img), None)))
  }

  /** `prepare_mailing`. An ayah or a hadith is today's link; a dua is any
      link not posted yet, recorded as posted before its page is read, so
      that it stays recorded even when what follows fails. */
  method PrepareMailing(kind: Kind, world: World, users: Users, posted: set<string>)
    returns (postedAfter: set<string>, r: Result<Post, BotError>)
    ensures kind != Dua ==> postedAfter == posted
    ensures kind != Dua ==> match DailyLink(kind, world.hrefs)
              case Failure(e) => r == Failure(Handler(e))
              case Success(url) => r == PostFor(kind, world, users, url)
    ensures kind == Dua && world.duas - posted == {} ==> postedAfter == posted && r == Failure(NoDuaLeft)
    ensures kind == Dua && world.duas - posted != {} ==>
              exists url :: url in world.duas - posted && postedAfter == posted + {url}
                            && r == PostFor(Dua, world, users, url)
  {
    if kind != Dua {
      postedAfter := posted;
      match DailyLink(kind, world.hrefs)
      case Failure(e) =>
        r := Failure(Handler(e));
      case Success(url) =>
        r := PostFor(kind, world, users, url);
    } else {
      var unposted := world.duas - posted;
      if unposted == {} {
        postedAfter := posted;
        r := Failure(NoDuaLeft);
      } else {
        var url :| url in unposted;
        postedAfter := posted + {url};
        r := PostFor(Dua, world, users, url);
      }
    }
  }

  /** The links picked before step `i`. */
  ghost function Picked(picks: seq<string>, i: nat): set<string>
    requires i <= |picks|
  {
    set j | 0 <= j < i :: picks[j]
  }

  /** A run of dua mailings: each pick is a link not posted before it, and
      is added to the posted set. */
  ghost predicate DuaRun(duas: set<string>, posted: set<string>, picks: seq<string>)
  {
    forall i :: 0 <= i < |picks| ==> picks[i] in duas - (posted + Picked(picks, i))
  }

  /** A pick that is neither posted nor picked before extends a run. */
  lemma DuaRunExtend(duas: set<string>, posted: set<string>, picks: seq<string>, url: string)
    requires DuaRun(duas, posted, picks)
    requires url in duas - (posted + Picked(picks, |picks|))
    ensures DuaRun(duas, posted, picks + [url])
    ensures Picked(picks + [url], |picks| + 1) == Picked(picks, |picks|) + {url}
  {
    var longer := picks + [url];
    forall i | 0 <= i <= |picks|
      ensures Picked(longer, i) == Picked(picks, i)
    {
      assert forall j :: 0 <= j < i ==> longer[j] == picks[j];
    }
    assert Picked(longer, |picks| + 1) == Picked(longer, |picks|) + {longer[|picks|]};
  }

  /** Once a dua link is chosen, preparing its post cannot fail. */
  lemma DuaPostSucceeds(world: World, users: Users, url: string)
    ensures PostFor(Dua, world, users, url).Success?
    ensures PostFor(Dua, world, users, url).value.url == url
  {
  }

  /** One scheduled dua mailing: the link it picked and the post it made,
      or nothing when no link was left. */
  method NextDuaMailing(world: World, users: Users, posted: set<string>)
    returns (postedAfter: set<string>, mailed: Option<(string, Post)>)
    ensures mailed.None? <==> world.duas - posted == {}
    ensures mailed.None? ==> postedAfter == posted
    ensures mailed.Some? ==>
              && mailed.value.0 in world.duas - posted
              && postedAfter == posted + {mailed.value.0}
              && AllMailed(world, users, [mailed.value.0], [mailed.value.1])
  {
    var r;
    postedAfter, r := PrepareMailing(Dua, world, users, posted);
    if world.duas - posted == {} {
      mailed := None;
    } else {
      var url :| url in world.duas - posted && postedAfter == posted + {url}
                 && r == PostFor(Dua, world, users, url);
      DuaPostSucceeds(world, users, url);
      MailedOne(world, users, url, r.value);
      mailed := Some((url, r.value));
    }
  }

  /** Each post is the dua post of the link picked at the same step. */
  ghost predicate AllMailed(world: World, users: Users, picks: seq<string>, posts: seq<Post>)
    requires |picks| == |posts|
  {
    forall i :: 0 <= i < |picks| ==> PostFor(Dua, world, users, picks[i]) == Success(posts[i])
  }

  lemma MailedOne(world: World, users: Users, url: string, post: Post)
    requires PostFor(Dua, world, users, url) == Success(post)
    ensures AllMailed(world, users, [url], [post])
  {
    assert [url][0] == url && [post][0] == post;
  }

  lemma MailedExtend(world: World, users: Users, picks: seq<string>, posts: seq<Post>, url: string, post: Post)
    requires |picks| == |posts| && AllMailed(world, users, picks, posts)
    requires AllMailed(world, users, [url], [post])
    ensures AllMailed(world, users, picks + [url], posts + [post])
  {
    assert [url][0] == url && [post][0] == post;
  }

  /** `n` scheduled dua mailings in a row, each reading the posted set the
      one before it left behind; they stop at the first that finds no link
      left. Each mailing posts the link it picks, so the picks form a run:
      no dua is mailed twice, and there are no more mailings than links
      that were unposted at the start. */
  method DuaMailings(n: nat, world: World, users: Users, posted: set<string>)
    returns (postedAfter: set<string>, picks: seq<string>, posts: seq<Post>)
    ensures DuaRun(world.duas, posted, picks)
    ensures postedAfter == posted + Picked(picks, |picks|)
    ensures |posts| == |picks| <= n
    ensures AllMailed(world, users, picks, posts)
    ensures |picks| < n ==> world.duas <= postedAfter
    ensures forall i, j :: 0 <= i < j < |picks| ==> picks[i] != picks[j]
    ensures |picks| <= |world.duas - posted|
  {
    postedAfter, picks, posts := posted, [], [];
    var k := 0;
    while k < n
      invariant |posts| == |picks| == k <= n
      invariant DuaRun(world.duas, posted, picks)
      invariant postedAfter == posted + Picked(picks, |picks|)
      invariant AllMailed(world, users, picks, posts)
    {
      var next, mailed := NextDuaMailing(world, users, postedAfter);
      if mailed.None? {
        break;
      }
      var (url, post) := mailed.value;
      DuaRunExtend(world.duas, posted, picks, url);
      MailedExtend(world, users, picks, posts, url, post);
      postedAfter, picks, posts := next, picks + [url], posts + [post];
      k := k + 1;
    }
    PicksNeverRepeat(world.duas, posted, picks);
  }

  /** Every pick is a link that had not been posted when the run began, so
      the run is no longer than the number of such links. */
  lemma PicksNeverRepeat(duas: set<string>, posted: set<string>, picks: seq<string>)
    requires DuaRun(duas, posted, picks)
    ensures forall i, j :: 0 <= i < j < |picks| ==> picks[i] != picks[j]
    ensures Picked(picks, |picks|) <= duas - posted
    ensures |picks| <= |duas - posted|
  {
    forall i, j | 0 <= i < j < |picks|
      ensures picks[i] != picks[j]
    {
      assert picks[j] !in Picked(picks, j);
      assert picks[i] in Picked(picks, j);
    }
    DistinctCard(picks);
    SubsetCard(Picked(picks, |picks|), duas - posted);
  }

  lemma SubsetCard(a: set<string>, b: set<string>)
    requires a <= b
    ensures |a| <= |b|
  {
    assert b == a + (b - a);
  }

  /** A sequence without repeats has as many distinct elements as entries. */
  lemma {:induction false} DistinctCard(s: seq<string>)
    requires forall i, j :: 0 <= i < j < |s| ==> s[i] != s[j]
    ensures |Picked(s, |s|)| == |s|
    decreases |s|
  {
    if |s| > 0 {
      var n := |s| - 1;
      DistinctCard(s[..n]);
      assert Picked(s[..n], n) == Picked(s, n);
      assert Picked(s, |s|) == Picked(s, n) + {s[n]};
      assert s[n] !in Picked(s, n);
    }
  }
}
