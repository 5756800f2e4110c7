/**
 * Properties of whole runs of the bot's loop, of the reply composer and the
 * updater taken together, and of the duplicate test as the source writes it.
 */
module BotProperties {
  import opened PyText
  import opened Mentions
  import opened Bot

  // =====================================================================
  // What a run keeps
  // =====================================================================

  /** A tweet that passes the filter and gets a reply leaves a valid state valid. */
  lemma StepPreservesValid(s: State, t: Tweet, draw: Draw, retweetsAllowed: bool, cfg: Config)
    requires Valid(s)
    ensures Step(s, t, draw, retweetsAllowed, cfg).Ok? ==> Valid(Step(s, t, draw, retweetsAllowed, cfg).value)
  {
    QualifiesAsWrittenIff(t, retweetsAllowed, s, cfg);
    if QualifiesAsWritten(t, retweetsAllowed, s, cfg).value {
      var r := ComposeReply(t, s.lastReply, cfg, draw);
      if r.Ok? {
        UpdatePreservesValid(s, t, r.value);
      }
    }
  }

  /**
   * `users_we_tweeted_to` is appended to without a check, yet it never holds
   * a user twice, and every record names a listed user: the filter turns a
   * listed user away before the append.
   */
  lemma {:induction false} RunPreservesValid(s: State, tweets: seq<Tweet>, draws: seq<Draw>, retweetsAllowed: bool, cfg: Config)
    requires |draws| == |tweets| && Valid(s)
    ensures Valid(Run(s, tweets, draws, retweetsAllowed, cfg).state)
    decreases |tweets|
  {
    if |tweets| > 0 {
      StepPreservesValid(s, tweets[0], draws[0], retweetsAllowed, cfg);
      var r := Step(s, tweets[0], draws[0], retweetsAllowed, cfg);
      if r.Ok? {
        RunPreservesValid(r.value, tweets[1..], draws[1..], retweetsAllowed, cfg);
      }
    }
  }

  /** The stored date string never decreases over a run. */
  lemma {:induction false} RunDateNeverDecreases(s: State, tweets: seq<Tweet>, draws: seq<Draw>, retweetsAllowed: bool, cfg: Config)
    requires |draws| == |tweets|
    ensures LexLessEq(s.lastDate, Run(s, tweets, draws, retweetsAllowed, cfg).state.lastDate)
    decreases |tweets|
  {
    LexLessIrreflexive(s.lastDate);
    if |tweets| > 0 {
      var r := Step(s, tweets[0], draws[0], retweetsAllowed, cfg);
      if r.Ok? {
        RunDateNeverDecreases(r.value, tweets[1..], draws[1..], retweetsAllowed, cfg);
        LexLessEqTransitive(s.lastDate, r.value.lastDate, Run(s, tweets, draws, retweetsAllowed, cfg).state.lastDate);
      }
    }
  }

  /**
   * A run only appends to the list of users and never drops a record: every
   * earlier user stays in place, every earlier id stays recorded, and a
   * record changes only when a tweet of the run carries its id.
   */
  lemma {:induction false} RunOnlyAdds(s: State, tweets: seq<Tweet>, draws: seq<Draw>, retweetsAllowed: bool, cfg: Config)
    requires |draws| == |tweets|
    ensures var s' := Run(s, tweets, draws, retweetsAllowed, cfg).state;
      && |s.users| <= |s'.users| && s'.users[..|s.users|] == s.users
      && s.records.Keys <= s'.records.Keys
      && forall id :: id in s.records && (forall i :: 0 <= i < |tweets| ==> tweets[i].id != id)
           ==> s'.records[id] == s.records[id]
    decreases |tweets|
  {
    if |tweets| > 0 {
      var r := Step(s, tweets[0], draws[0], retweetsAllowed, cfg);
      if r.Ok? {
        RunOnlyAdds(r.value, tweets[1..], draws[1..], retweetsAllowed, cfg);
        var s' := Run(s, tweets, draws, retweetsAllowed, cfg).state;
        assert s'.users[..|r.value.users|][..|s.users|] == s'.users[..|s.users|];
        forall id | id in s.records && (forall i :: 0 <= i < |tweets| ==> tweets[i].id != id)
          ensures s'.records[id] == s.records[id]
        {
          assert tweets[0].id != id;
          forall i | 0 <= i < |tweets[1..]| ensures tweets[1..][i].id != id {
            assert tweets[1..][i] == tweets[i + 1];
          }
        }
      }
    }
  }

  /**
   * Tweet ids identify their authors: a tweet whose id is recorded was
   * written by the recorded user, and two tweets of the run with one id
   * have one author.
   */
  predicate IdsNameAuthors(s: State, tweets: seq<Tweet>) {
    && (forall i :: 0 <= i < |tweets| && tweets[i].id in s.records ==>
          s.records[tweets[i].id].username == tweets[i].screenName)
    && (forall i, j :: 0 <= i < j < |tweets| && tweets[i].id == tweets[j].id ==>
          tweets[i].screenName == tweets[j].screenName)
  }

  /**
   * Although the duplicate test as written never fires, a run from a valid
   * state never answers a recorded tweet again when ids identify authors:
   * its author is listed, and the listed-user test turns it away. Every
   * earlier record stays as it was.
   */
  lemma {:induction false} RunKeepsRecords(s: State, tweets: seq<Tweet>, draws: seq<Draw>, retweetsAllowed: bool, cfg: Config)
    requires |draws| == |tweets| && Valid(s) && IdsNameAuthors(s, tweets)
    ensures var s' := Run(s, tweets, draws, retweetsAllowed, cfg).state;
      forall id :: id in s.records ==> id in s'.records && s'.records[id] == s.records[id]
    decreases |tweets|
  {
    if |tweets| > 0 {
      var t := tweets[0];
      QualifiesAsWrittenIff(t, retweetsAllowed, s, cfg);
      StepPreservesValid(s, t, draws[0], retweetsAllowed, cfg);
      var r := Step(s, t, draws[0], retweetsAllowed, cfg);
      if r.Ok? {
        var s1 := r.value;
        assert t.id in s.records ==> s1 == s;
        forall id | id in s.records ensures id in s1.records && s1.records[id] == s.records[id] {
        }
        forall i | 0 <= i < |tweets[1..]| && tweets[1..][i].id in s1.records
          ensures s1.records[tweets[1..][i].id].username == tweets[1..][i].screenName
        {
          assert tweets[1..][i] == tweets[i + 1];
        }
        forall i, j | 0 <= i < j < |tweets[1..]| && tweets[1..][i].id == tweets[1..][j].id
          ensures tweets[1..][i].screenName == tweets[1..][j].screenName
        {
          assert tweets[1..][i] == tweets[i + 1] && tweets[1..][j] == tweets[j + 1];
        }
        RunKeepsRecords(s1, tweets[1..], draws[1..], retweetsAllowed, cfg);
      }
    }
  }

  // =====================================================================
  // Scenarios
  // =====================================================================

  /** A retweet, with retweets disallowed, is skipped and the state is left as it was. */
  lemma RunSkipsRetweet(s: State, t: Tweet, draw: Draw, cfg: Config)
    requires StartsWith(Lower(t.text), RETWEET_MARKER)
    ensures Run(s, [t], [draw], false, cfg) == RunResult(s, Finished)
  {
    assert [t][1..] == [] && [draw][1..] == [];
  }

  /**
   * A new tweet from a user never replied to, with a clean text, is answered
   * and recorded: its id gets a record, its author joins the list, and the
   * last-seen pointer (`date_of_last_tweet`) moves to it when its date string
   * is greater.
   */
  lemma RunAnswersFreshTweet(s: State, t: Tweet, draw: Draw, retweetsAllowed: bool, cfg: Config)
    requires retweetsAllowed || !StartsWith(Lower(t.text), RETWEET_MARKER)
    requires t.screenName !in s.users
    requires forall w :: w in cfg.negativeWords ==> !Contains(Lower(t.text), Lower(w))
    requires |cfg.nonSongReplies| > 0
    ensures var r := Run(s, [t], [draw], retweetsAllowed, cfg);
      && r.end == Finished
      && t.id in r.state.records && r.state.records[t.id].username == t.screenName
      && r.state.users == s.users + [t.screenName]
      && (LexLess(s.lastDate, t.createdAt) ==> r.state.lastTweetId == PyStr(IntToStr(t.id)))
  {
    QualifiesAsWrittenIff(t, retweetsAllowed, s, cfg);
    assert [t][1..] == [] && [draw][1..] == [];
  }

  // =====================================================================
  // The repeat check across two replies
  // =====================================================================

  /**
   * A reply to a well-formed handle is stored without its mention prefix, so
   * when its text has no `@`, a later pick of the same text is recognised
   * and redrawn.
   */
  lemma RepeatedPickIsRedrawn(s: State, t: Tweet, obj: ReplyObj, text: string, t2: Tweet, cfg: Config, draw2: Draw)
    requires |t.screenName| > 0 && IsWord(t.screenName)
    requires obj.reply == MentionPrefix(t.screenName) + text && '@' !in text
    requires SongPick(t2, cfg, draw2.song) == text
    ensures Updated(s, t, obj).lastReply == text
    ensures var r := ComposeReply(t2, text, cfg, draw2);
      r.Raised? || r.value.reply[|MentionPrefix(t2.screenName)|..] in cfg.nonSongReplies
  {
    assert MentionPrefix(t.screenName) + text == "@" + t.screenName + " " + text;
    RemoveLeadingMention(t.screenName, text);
    RemoveIsIdentityWithoutAt(text);
    RedrawCases(t2, text, cfg, draw2);
  }

  /**
   * A reply text that itself starts with a mention is stored without it, so
   * the same text picked next time differs from what was stored and is sent
   * again.
   */
  lemma MentionInReplyEscapesRepeatCheck(s: State, t: Tweet, obj: ReplyObj, w: string, rest: string)
    requires |t.screenName| > 0 && IsWord(t.screenName) && |w| > 0 && IsWord(w)
    requires obj.reply == MentionPrefix(t.screenName) + ("@" + w + " " + rest)
    ensures Updated(s, t, obj).lastReply != "@" + w + " " + rest
  {
    var text := "@" + w + " " + rest;
    assert obj.reply == "@" + t.screenName + " " + text;
    RemoveLeadingMention(t.screenName, text);
    RemoveLeadingMention(w, rest);
  }

  /**
   * The song's name is not lowered before it is looked for in the lowered
   * text: a name with a capital letter is never found, so it never switches
   * the reply to the placeholder.
   */
  lemma CapitalisedSongNameNeverMatches(t: Tweet, cfg: Config, j: int)
    requires 0 <= j < |cfg.latestSongName| && IsUpper(cfg.latestSongName[j])
    ensures !SongNamed(t, cfg)
  {
    UpperNeverInLowered(t.text, cfg.latestSongName, j);
  }

  // =====================================================================
  // The duplicate test as written
  // =====================================================================

  /**
   * In a valid state, where a recorded tweet's author is already listed, the
   * filter as written decides every tweet as the corrected filter does: the
   * author test catches what the dead duplicate test misses.
   */
  lemma AsWrittenAgreesOnValidStates(t: Tweet, retweetsAllowed: bool, s: State, cfg: Config)
    requires Valid(s)
    requires t.id in s.records ==> s.records[t.id].username == t.screenName
    ensures QualifiesAsWritten(t, retweetsAllowed, s, cfg) == Ok(Qualifies(t, retweetsAllowed, s, cfg))
  {
    DedupGuardNeverFires(s, t.id);
  }

  /**
   * Where a record's author is not listed (say, a dictionary loaded from an
   * older file), the filter as written accepts a tweet that is already
   * recorded, and a reply would overwrite its record.
   */
  lemma AsWrittenAcceptsRecordedTweet()
    ensures var rec := Record("bob", "hello", None, 5, "2017-01-01 10:00:00", "hi");
            var s := State("2017-01-01 10:00:00", PyInt(1), [], "hi", map[5 := rec]);
            var t := Tweet(5, "hello", "bob", "2017-01-01 10:00:00", None);
            var cfg := Config([], [], [], "");
      && QualifiesAsWritten(t, true, s, cfg) == Ok(true)
      && !Qualifies(t, true, s, cfg)
  {
    var rec := Record("bob", "hello", None, 5, "2017-01-01 10:00:00", "hi");
    var s := State("2017-01-01 10:00:00", PyInt(1), [], "hi", map[5 := rec]);
    DedupGuardNeverFires(s, 5);
  }
}
