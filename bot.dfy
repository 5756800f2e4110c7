/**
 * The bookkeeping of the search-and-reply bot over its in-memory dictionary
 * `DATABASE`: which tweets qualify for a reply, how the reply is composed,
 * how the dictionary is updated after a reply, and the per-tweet loop that
 * runs the three in turn.
 *
 * The contents of the `common` module (negative words, the two reply pools,
 * the latest song's name) are the parameter `Config`; the two calls to
 * `random.choice` are the parameter `Draw`; the calls into the Twitter API
 * are not part of this model.
 */
module Bot {
  import opened PyText
  import opened Mentions

  /** The length limit the composer budgets replies against. */
  const TWEET_LIMIT: int := 140
  /** The prefix that marks a retweet, compared against the lowered text. */
  const RETWEET_MARKER: string := "rt"
  /** The reply used when no song reply fits or the song is already named. */
  const PLACEHOLDER_REPLY: string := ":)"

  /** The three string keys of `DATABASE` that hold the bot's own state. */
  const DATE_KEY: string := "date_of_last_tweet"
  const USERS_KEY: string := "users_we_tweeted_to"
  const LAST_REPLY_KEY: string := "last_tweet_we_tweeted"

  datatype Option<T> = None | Some(value: T)

  /** A Python value used as a key of `DATABASE` (or stored as an id): a `str` or an `int`. */
  datatype PyScalar = PyStr(s: string) | PyInt(n: int)

  /** The exceptions the modelled code can raise. */
  datatype PyError =
    | AttributeError  // `str` has no attribute `formatted`
    | IndexError      // `random.choice` of an empty list

  datatype Outcome<T> = Ok(value: T) | Raised(error: PyError) {
    predicate IsFailure() {
      Raised?
    }

    function PropagateFailure<U>(): Outcome<U>
      requires Raised?
    {
      Raised(error)
    }

    function Extract(): T
      requires Ok?
    {
      value
    }
  }

  /** The constants of the `common` module the core reads. */
  datatype Config = Config(
    negativeWords: seq<string>,
    songReplies: seq<string>,
    nonSongReplies: seq<string>,
    latestSongName: string)

  /** A tweet as the search returns it; `createdAt` is `str(twt.created_at)`. */
  datatype Tweet = Tweet(
    id: int,
    text: string,
    screenName: string,
    createdAt: string,
    geo: Option<string>)

  /** The record `update_database` stores for every tweet replied to. */
  datatype Record = Record(
    username: string,
    tweet: string,
    geo: Option<string>,
    tweetId: int,
    createdAt: string,
    reply: string)

  /** The dictionary `generate_reply_obj` returns. */
  datatype ReplyObj = ReplyObj(reply: string, tweetId: int, username: string)

  /** The outcomes of the two `random.choice` calls of one composition. */
  datatype Draw = Draw(song: nat, fallback: nat)

  /**
   * The contents of `DATABASE`: the last-seen pointer (`date_of_last_tweet`,
   * its datetime kept as the string it is compared as), the users replied
   * to, the last reply sent, and the interaction records stored under the
   * tweets' integer ids.
   */
  datatype State = State(
    lastDate: string,
    lastTweetId: PyScalar,
    users: seq<string>,
    lastReply: string,
    records: map<int, Record>)

  /** `DATABASE.has_key(k)`: the three string keys, and the integer ids of the records. */
  predicate HasKey(s: State, k: PyScalar)
    ensures HasKey(s, k) && k.PyStr? ==> |k.s| > 0 && 'a' <= k.s[0] <= 'z'
  {
    match k
    case PyStr(name) => name == DATE_KEY || name == USERS_KEY || name == LAST_REPLY_KEY
    case PyInt(n) => n in s.records
  }

  predicate NoDuplicates(xs: seq<string>) {
    forall i, j :: 0 <= i < j < |xs| ==> xs[i] != xs[j]
  }

  /**
   * What every run keeps true: no user is listed twice, and every record is
   * stored under its own tweet id and names a user in the list.
   */
  predicate Valid(s: State) {
    && NoDuplicates(s.users)
    && forall id :: id in s.records ==> s.records[id].tweetId == id && s.records[id].username in s.users
  }

  // =====================================================================
  // Qualification filter: tweet_qualifies_for_reply
  // =====================================================================

  /** The loop over `NEGATIVE_WORDS`: does any lowered word occur in the lowered text? */
  function HasNegativeWord(words: seq<string>, lowered: string): (r: bool)
    ensures r <==> exists i :: 0 <= i < |words| && Contains(lowered, Lower(words[i]))
  {
    if |words| == 0 then false
    else if Contains(lowered, Lower(words[0])) then true
    else HasNegativeWord(words[1..], lowered)
  }

  /**
   * The filter as the source writes it: the duplicate test looks up the
   * string `str(twt.id)`, and its branch calls the missing method
   * `formatted` on a string, which raises.
   */
  function QualifiesAsWritten(t: Tweet, retweetsAllowed: bool, s: State, cfg: Config): (r: Outcome<bool>)
    ensures r.Raised? ==> r.error == AttributeError
    ensures r == Ok(true) ==> t.screenName !in s.users && !HasNegativeWord(cfg.negativeWords, Lower(t.text))
  {
    var lowered := Lower(t.text);
    if !retweetsAllowed && StartsWith(lowered, RETWEET_MARKER) then Ok(false)
    else if HasKey(s, PyStr(IntToStr(t.id))) then Raised(AttributeError)
    else if HasNegativeWord(cfg.negativeWords, lowered) then Ok(false)
    else if t.screenName in s.users then Ok(false)
    else Ok(true)
  }

  /**
   * The filter with the duplicate test looking up the key the records are
   * stored under, and rejecting. The four tests run in the source's order
   * and the first one that fires decides.
   */
  function Qualifies(t: Tweet, retweetsAllowed: bool, s: State, cfg: Config): (r: bool)
    ensures r ==> t.id !in s.records && t.screenName !in s.users
  {
    var lowered := Lower(t.text);
    if !retweetsAllowed && StartsWith(lowered, RETWEET_MARKER) then false
    else if HasKey(s, PyInt(t.id)) then false
    else if HasNegativeWord(cfg.negativeWords, lowered) then false
    else if t.screenName in s.users then false
    else true
  }

  /** With retweets disallowed, any text whose lowered form starts with "rt" is rejected. */
  lemma RejectsRetweetMarker(t: Tweet, s: State, cfg: Config)
    requires |t.text| >= 2 && LowerChar(t.text[0]) == 'r' && LowerChar(t.text[1]) == 't'
    ensures !Qualifies(t, false, s, cfg)
  {
    assert Lower(t.text)[..2] == RETWEET_MARKER;
  }

  /** A tweet whose id is already recorded is rejected. */
  lemma RejectsRecorded(t: Tweet, retweetsAllowed: bool, s: State, cfg: Config)
    requires t.id in s.records
    ensures !Qualifies(t, retweetsAllowed, s, cfg)
  {
  }

  /** A tweet holding a negative word, in any case, is rejected, whoever wrote it. */
  lemma RejectsNegativeWord(t: Tweet, retweetsAllowed: bool, s: State, cfg: Config, w: string)
    requires w in cfg.negativeWords && Contains(Lower(t.text), Lower(w))
    ensures !Qualifies(t, retweetsAllowed, s, cfg)
  {
    var i :| 0 <= i < |cfg.negativeWords| && cfg.negativeWords[i] == w;
    assert HasNegativeWord(cfg.negativeWords, Lower(t.text));
  }

  /** A tweet by a user already replied to is rejected, whatever its text. */
  lemma RejectsContacted(t: Tweet, retweetsAllowed: bool, s: State, cfg: Config)
    requires t.screenName in s.users
    ensures !Qualifies(t, retweetsAllowed, s, cfg)
  {
  }

  /** The four tests are the whole story: a tweet qualifies exactly when none of them fires. */
  lemma QualifiesIff(t: Tweet, retweetsAllowed: bool, s: State, cfg: Config)
    ensures Qualifies(t, retweetsAllowed, s, cfg) <==>
      && (retweetsAllowed || !StartsWith(Lower(t.text), RETWEET_MARKER))
      && t.id !in s.records
      && (forall w :: w in cfg.negativeWords ==> !Contains(Lower(t.text), Lower(w)))
      && t.screenName !in s.users
  {
    if exists w :: w in cfg.negativeWords && Contains(Lower(t.text), Lower(w)) {
      var w :| w in cfg.negativeWords && Contains(Lower(t.text), Lower(w));
      RejectsNegativeWord(t, retweetsAllowed, s, cfg, w);
    }
  }

  /**
   * `DATABASE.has_key(str(twt.id))` is false in every dictionary this code
   * writes: the records are stored under integer ids, and no decimal string
   * is one of the three string keys. The branch that would raise is never
   * taken.
   */
  lemma DedupGuardNeverFires(s: State, id: int)
    ensures !HasKey(s, PyStr(IntToStr(id)))
  {
    var k := IntToStr(id);
    assert DATE_KEY[0] == 'd' && USERS_KEY[0] == 'u' && LAST_REPLY_KEY[0] == 'l';
    assert k != DATE_KEY && k != USERS_KEY && k != LAST_REPLY_KEY;
  }

  /**
   * The filter as written never raises, on any dictionary this code writes,
   * and accepts exactly when the retweet, negative-word and listed-user tests
   * all stay silent: its duplicate test never fires.
   */
  lemma QualifiesAsWrittenIff(t: Tweet, retweetsAllowed: bool, s: State, cfg: Config)
    ensures QualifiesAsWritten(t, retweetsAllowed, s, cfg).Ok?
    ensures QualifiesAsWritten(t, retweetsAllowed, s, cfg).value <==>
      && (retweetsAllowed || !StartsWith(Lower(t.text), RETWEET_MARKER))
      && (forall w :: w in cfg.negativeWords ==> !Contains(Lower(t.text), Lower(w)))
      && t.screenName !in s.users
  {
    DedupGuardNeverFires(s, t.id);
    if exists w :: w in cfg.negativeWords && Contains(Lower(t.text), Lower(w)) {
      var w :| w in cfg.negativeWords && Contains(Lower(t.text), Lower(w));
      var i :| 0 <= i < |cfg.negativeWords| && cfg.negativeWords[i] == w;
      assert HasNegativeWord(cfg.negativeWords, Lower(t.text));
    }
  }

  // =====================================================================
  // Reply composer: generate_reply_obj
  // =====================================================================

  /** `"@{name} "`: the handle the reply is addressed to. */
  function MentionPrefix(name: string): (p: string)
    ensures |p| == |name| + 2 && p[0] == '@' && p[|p| - 1] == ' '
    ensures p[1..|p| - 1] == name
  {
    "@" + name + " "
  }

  /** The length a song reply must stay strictly below. */
  function Budget(name: string): (r: int)
    ensures r == TWEET_LIMIT - 2 - |name|
  {
    TWEET_LIMIT - |MentionPrefix(name)|
  }

  /** `replies_with_usable_length`: the replies shorter than the budget, in their order. */
  function UsableReplies(replies: seq<string>, budget: int): (r: seq<string>)
    ensures forall x :: x in r <==> x in replies && |x| < budget
    ensures |r| <= |replies|
  {
    if |replies| == 0 then []
    else
      var init, last := replies[..|replies| - 1], replies[|replies| - 1];
      assert replies == init + [last];
      if |last| < budget then UsableReplies(init, budget) + [last] else UsableReplies(init, budget)
  }

  /** `random.choice(xs)` for the draw `draw`. */
  function Choice(xs: seq<string>, draw: nat): (r: string)
    requires |xs| > 0
    ensures r in xs
  {
    xs[draw % |xs|]
  }

  /** Every element of the list is the outcome of some draw. */
  lemma ChoiceReachesEvery(xs: seq<string>, x: string)
    requires x in xs
    ensures exists d: nat :: Choice(xs, d) == x
  {
    var i :| 0 <= i < |xs| && xs[i] == x;
    assert Choice(xs, i) == x;
  }

  /** `common.LATEST_SONG_NAME in twt.text.lower()`: the name itself is not lowered. */
  predicate SongNamed(t: Tweet, cfg: Config)
    ensures SongNamed(t, cfg) ==> |cfg.latestSongName| <= |t.text|
  {
    Contains(Lower(t.text), cfg.latestSongName)
  }

  /** The reply picked before the check against the last reply sent. */
  function SongPick(t: Tweet, cfg: Config, draw: nat): (r: string)
    ensures r == PLACEHOLDER_REPLY || r in cfg.songReplies
  {
    var usable := UsableReplies(cfg.songReplies, Budget(t.screenName));
    if |usable| == 0 || SongNamed(t, cfg) then PLACEHOLDER_REPLY else Choice(usable, draw)
  }

  /**
   * `generate_reply_obj`: the pick is replaced by a draw from the non-song
   * replies when it equals the last reply sent; that draw raises when the
   * non-song list is empty.
   */
  function ComposeReply(t: Tweet, lastReply: string, cfg: Config, draw: Draw): (r: Outcome<ReplyObj>)
    ensures r.Raised? ==> r.error == IndexError && |cfg.nonSongReplies| == 0
    ensures r.Ok? ==> && StartsWith(r.value.reply, MentionPrefix(t.screenName))
                      && r.value.tweetId == t.id
                      && r.value.username == t.screenName
  {
    var pick := SongPick(t, cfg, draw.song);
    var text :- if pick == lastReply then
                  if |cfg.nonSongReplies| == 0 then Raised(IndexError)
                  else Ok(Choice(cfg.nonSongReplies, draw.fallback))
                else Ok(pick);
    Ok(ReplyObj(MentionPrefix(t.screenName) + text, t.id, t.screenName))
  }

  /** `generate_reply_obj` as the source runs it: a loop collects the usable song replies. */
  method GenerateReplyObj(t: Tweet, lastReply: string, cfg: Config, draw: Draw) returns (r: Outcome<ReplyObj>)
    ensures r == ComposeReply(t, lastReply, cfg, draw)
  {
    var prefix := "@" + t.screenName + " ";
    var usable := CollectUsableReplies(cfg.songReplies, TWEET_LIMIT - |prefix|);
    var pick: string;
    if |usable| == 0 || Contains(Lower(t.text), cfg.latestSongName) {
      pick := PLACEHOLDER_REPLY;
    } else {
      pick := usable[draw.song % |usable|];
    }
    assert pick == SongPick(t, cfg, draw.song);
    if pick == lastReply {
      if |cfg.nonSongReplies| == 0 {
        return Raised(IndexError);
      }
      pick := cfg.nonSongReplies[draw.fallback % |cfg.nonSongReplies|];
    }
    r := Ok(ReplyObj(prefix + pick, t.id, t.screenName));
  }

  /** The loop that fills `replies_with_usable_length`. */
  method CollectUsableReplies(replies: seq<string>, budget: int) returns (usable: seq<string>)
    ensures usable == UsableReplies(replies, budget)
  {
    usable := [];
    var i := 0;
    while i < |replies|
      invariant 0 <= i <= |replies|
      invariant usable == UsableReplies(replies[..i], budget)
    {
      assert replies[..i + 1][..i] == replies[..i];
      if |replies[i]| < budget {
        usable := usable + [replies[i]];
      }
      i := i + 1;
    }
    assert replies[..i] == replies;
  }

  /**
   * Before the redraw the pick is the placeholder exactly when no song reply
   * fits or the song is named in the tweet; otherwise it is a song reply
   * short enough that the whole message stays under the limit.
   */
  lemma SongPickCases(t: Tweet, cfg: Config, draw: nat)
    ensures var pick := SongPick(t, cfg, draw);
      && ((forall x :: x in cfg.songReplies ==> |x| >= Budget(t.screenName)) || SongNamed(t, cfg)
          ==> pick == PLACEHOLDER_REPLY)
      && (!(forall x :: x in cfg.songReplies ==> |x| >= Budget(t.screenName)) && !SongNamed(t, cfg)
          ==> pick in cfg.songReplies && |MentionPrefix(t.screenName) + pick| < TWEET_LIMIT)
  {
    var usable := UsableReplies(cfg.songReplies, Budget(t.screenName));
    if |usable| > 0 {
      assert usable[0] in usable;
    }
  }

  /** Every song reply that fits is a possible pick, unless the song is named. */
  lemma SongPickReachesEveryFit(t: Tweet, cfg: Config, x: string)
    requires x in cfg.songReplies && |x| < Budget(t.screenName) && !SongNamed(t, cfg)
    ensures exists d: nat :: SongPick(t, cfg, d) == x
  {
    var usable := UsableReplies(cfg.songReplies, Budget(t.screenName));
    ChoiceReachesEvery(usable, x);
    var d: nat :| Choice(usable, d) == x;
    assert SongPick(t, cfg, d) == x;
  }

  /**
   * The redraw: a pick equal to the last reply sent is replaced by a
   * non-song reply (or raises when there is none); any other pick is kept.
   */
  lemma RedrawCases(t: Tweet, lastReply: string, cfg: Config, draw: Draw)
    ensures var pick, r := SongPick(t, cfg, draw.song), ComposeReply(t, lastReply, cfg, draw);
      && (pick == lastReply && |cfg.nonSongReplies| == 0 ==> r == Raised(IndexError))
      && (pick == lastReply && |cfg.nonSongReplies| > 0 ==>
            r.Ok? && r.value.reply[|MentionPrefix(t.screenName)|..] in cfg.nonSongReplies)
      && (pick != lastReply ==> r.Ok? && r.value.reply == MentionPrefix(t.screenName) + pick)
  {
  }

  /** Without a redraw, a reply to a handle of at most 135 characters stays under the limit. */
  lemma ReplyWithinLimit(t: Tweet, lastReply: string, cfg: Config, draw: Draw)
    requires |t.screenName| <= 135 && SongPick(t, cfg, draw.song) != lastReply
    ensures ComposeReply(t, lastReply, cfg, draw).Ok?
    ensures |ComposeReply(t, lastReply, cfg, draw).value.reply| < TWEET_LIMIT
  {
    SongPickCases(t, cfg, draw.song);
  }

  /** The redrawn non-song reply is not measured: a long one takes the message over the limit. */
  lemma FallbackIgnoresLimit(t: Tweet, lastReply: string, cfg: Config, draw: Draw)
    requires SongPick(t, cfg, draw.song) == lastReply && |cfg.nonSongReplies| > 0
    requires |Choice(cfg.nonSongReplies, draw.fallback)| >= Budget(t.screenName)
    ensures ComposeReply(t, lastReply, cfg, draw).Ok?
    ensures |ComposeReply(t, lastReply, cfg, draw).value.reply| >= TWEET_LIMIT
  {
  }

  /** When the redraw happens and the last reply is not a non-song reply, the text changes. */
  lemma RedrawAvoidsRepeat(t: Tweet, lastReply: string, cfg: Config, draw: Draw)
    requires SongPick(t, cfg, draw.song) == lastReply && lastReply !in cfg.nonSongReplies
    requires |cfg.nonSongReplies| > 0
    ensures ComposeReply(t, lastReply, cfg, draw).Ok?
    ensures ComposeReply(t, lastReply, cfg, draw).value.reply != MentionPrefix(t.screenName) + lastReply
  {
    RedrawCases(t, lastReply, cfg, draw);
  }

  // =====================================================================
  // State updater: update_database
  // =====================================================================

  /**
   * `update_database` on the value of `DATABASE`. The last-seen pointer
   * moves only when `str(created_at)` is greater as a string; the reply is
   * stored with every `@word` + space removed.
   */
  function Updated(s: State, t: Tweet, obj: ReplyObj): (s': State)
    ensures LexLessEq(s.lastDate, s'.lastDate) && LexLessEq(t.createdAt, s'.lastDate)
    ensures s'.lastDate == s.lastDate || s'.lastDate == t.createdAt
    ensures LexLess(s.lastDate, t.createdAt) ==> s'.lastTweetId == PyStr(IntToStr(t.id))
    ensures !LexLess(s.lastDate, t.createdAt) ==> s'.lastTweetId == s.lastTweetId
    ensures |s'.users| == |s.users| + 1 && s'.users[..|s.users|] == s.users
    ensures s'.users[|s.users|] == t.screenName
    ensures s'.lastReply == RemoveUsernameFromTweet(obj.reply)
    ensures t.id in s'.records
    ensures s'.records[t.id] == Record(t.screenName, t.text, t.geo, t.id, t.createdAt, s'.lastReply)
    ensures s'.records.Keys == s.records.Keys + {t.id}
    ensures forall id :: id in s.records && id != t.id ==> s'.records[id] == s.records[id]
  {
    var newer := LexLess(s.lastDate, t.createdAt);
    assert newer ==> LexLessEq(s.lastDate, t.createdAt) by {
      if newer {
        LexLessAsymmetric(s.lastDate, t.createdAt);
      }
    }
    LexLessIrreflexive(s.lastDate);
    LexLessIrreflexive(t.createdAt);
    var message := RemoveUsernameFromTweet(obj.reply);
    State(
      if newer then t.createdAt else s.lastDate,
      if newer then PyStr(IntToStr(t.id)) else s.lastTweetId,
      s.users + [t.screenName],
      message,
      s.records[t.id := Record(t.screenName, t.text, t.geo, t.id, t.createdAt, message)])
  }

  /** Replying to a user not yet in the list keeps the state valid. */
  lemma UpdatePreservesValid(s: State, t: Tweet, obj: ReplyObj)
    requires Valid(s) && t.screenName !in s.users
    ensures Valid(Updated(s, t, obj))
  {
    var s' := Updated(s, t, obj);
    forall id | id in s'.records ensures s'.records[id].username in s'.users {
      if id != t.id {
        assert s.records[id].username in s.users;
      } else {
        assert s'.users[|s.users|] == t.screenName;
      }
    }
  }

  /**
   * The dictionary itself. `update_database` changes it in place; the
   * filter and the composer read it through `Model()`.
   */
  class Database {
    var lastDate: string
    var lastTweetId: PyScalar
    var users: seq<string>
    var lastReply: string
    var records: map<int, Record>

    function Model(): State
      reads this
    {
      State(lastDate, lastTweetId, users, lastReply, records)
    }

    /** A database holding the given contents, as a loaded snapshot would. */
    constructor (s: State)
      ensures Model() == s
    {
      lastDate, lastTweetId, users, lastReply, records :=
        s.lastDate, s.lastTweetId, s.users, s.lastReply, s.records;
    }

    method UpdateDatabase(t: Tweet, obj: ReplyObj)
      modifies this
      ensures Model() == Updated(old(Model()), t, obj)
      ensures LexLessEq(old(lastDate), lastDate)
      ensures users == old(users) + [t.screenName]
      ensures old(Valid(Model())) && t.screenName !in old(users) ==> Valid(Model())
    {
      if LexLess(lastDate, t.createdAt) {
        lastDate := t.createdAt;
        lastTweetId := PyStr(IntToStr(t.id));
      }
      var message := RemoveUsernameFromTweet(obj.reply);
      records := records[t.id := Record(t.screenName, t.text, t.geo, t.id, t.createdAt, message)];
      users := users + [t.screenName];
      lastReply := message;
      if old(Valid(Model())) && t.screenName !in old(users) {
        UpdatePreservesValid(old(Model()), t, obj);
      }
    }
  }

  // =====================================================================
  // The per-tweet loop of get_tweets_and_reply
  // =====================================================================

  datatype RunEnd = Finished | Aborted(error: PyError)
  datatype RunResult = RunResult(state: State, end: RunEnd)

  /**
   * One tweet: the filter as written decides whether to skip it, or to
   * compose a reply and record it; an exception in either ends the run.
   */
  function Step(s: State, t: Tweet, draw: Draw, retweetsAllowed: bool, cfg: Config): (r: Outcome<State>)
    ensures r.Ok? ==> r.value.users == s.users || r.value.users == s.users + [t.screenName]
  {
    var qualifies :- QualifiesAsWritten(t, retweetsAllowed, s, cfg);
    if !qualifies then Ok(s)
    else
      var obj :- ComposeReply(t, s.lastReply, cfg, draw);
      Ok(Updated(s, t, obj))
  }

  /** The loop over the found tweets; an exception ends it with the state reached so far. */
  function Run(s: State, tweets: seq<Tweet>, draws: seq<Draw>, retweetsAllowed: bool, cfg: Config): (r: RunResult)
    requires |draws| == |tweets|
    ensures |s.users| <= |r.state.users| <= |s.users| + |tweets|
    decreases |tweets|
  {
    if |tweets| == 0 then RunResult(s, Finished)
    else match Step(s, tweets[0], draws[0], retweetsAllowed, cfg)
      case Raised(e) => RunResult(s, Aborted(e))
      case Ok(s1) => Run(s1, tweets[1..], draws[1..], retweetsAllowed, cfg)
  }

  /**
   * `get_tweets_and_reply` once the search has returned `tweets`; the follow
   * request and the reply post are calls into the API and change nothing here.
   */
  method GetTweetsAndReply(db: Database, tweets: seq<Tweet>, draws: seq<Draw>, retweetsAllowed: bool, cfg: Config)
    returns (end: RunEnd)
    requires |draws| == |tweets|
    modifies db
    ensures RunResult(db.Model(), end) == Run(old(db.Model()), tweets, draws, retweetsAllowed, cfg)
  {
    if |tweets| == 0 {
      return Finished;
    }
    var i := 0;
    while i < |tweets|
      invariant 0 <= i <= |tweets|
      invariant Run(db.Model(), tweets[i..], draws[i..], retweetsAllowed, cfg)
             == Run(old(db.Model()), tweets, draws, retweetsAllowed, cfg)
    {
      var twt := tweets[i];
      assert tweets[i..][0] == twt && tweets[i..][1..] == tweets[i + 1..];
      assert draws[i..][0] == draws[i] && draws[i..][1..] == draws[i + 1..];
      var qualifies := QualifiesAsWritten(twt, retweetsAllowed, db.Model(), cfg);
      if qualifies.Raised? {
        return Aborted(qualifies.error);
      }
      if qualifies.value {
        var reply := GenerateReplyObj(twt, db.lastReply, cfg, draws[i]);
        if reply.Raised? {
          return Aborted(reply.error);
        }
        db.UpdateDatabase(twt, reply.value);
      }
      i := i + 1;
    }
    return Finished;
  }
}
