/**
 * `remove_username_from_tweet`: `re.sub("@\w+\s", "", text)`, written out as
 * a left-to-right scan. The pattern is a Python 2 byte-string pattern without
 * the UNICODE flag, so `\w` is `[A-Za-z0-9_]` and `\s` is `[ \t\n\r\f\v]`.
 */
module Mentions {

  predicate IsWordChar(c: char) {
    'a' <= c <= 'z' || 'A' <= c <= 'Z' || '0' <= c <= '9' || c == '_'
  }

  predicate IsSpaceChar(c: char) {
    c == ' ' || 9 <= c as int <= 13
  }

  predicate IsWord(s: string) {
    forall i :: 0 <= i < |s| ==> IsWordChar(s[i])
  }

  /** The pattern `@\w+\s` matches exactly the first `n` characters of `s`. */
  predicate MatchesAt(s: string, n: int) {
    3 <= n <= |s| && s[0] == '@' && IsWord(s[1..n - 1]) && IsSpaceChar(s[n - 1])
  }

  /** The number of word characters `s` starts with: how far a greedy `\w+` reaches. */
  function WordRun(s: string): (r: nat)
    ensures r <= |s| && IsWord(s[..r])
    ensures r < |s| ==> !IsWordChar(s[r])
  {
    if |s| > 0 && IsWordChar(s[0]) then 1 + WordRun(s[1..]) else 0
  }

  /**
   * The length of the match of `@\w+\s` at the start of `s`, or 0 when the
   * pattern does not match there. Backtracking cannot help the greedy `\w+`:
   * a shorter run is followed by a word character, never by a space.
   */
  function MatchLength(s: string): (r: nat)
    ensures r > 0 ==> MatchesAt(s, r)
    ensures forall n :: MatchesAt(s, n) ==> r == n
  {
    if |s| > 0 && s[0] == '@' then
      var w := WordRun(s[1..]);
      if w > 0 && w + 1 < |s| && IsSpaceChar(s[w + 1]) then
        assert s[1..][..w] == s[1..w + 1];
        w + 2
      else
        0
    else
      0
  }

  /** `re.sub("@\w+\s", "", s)`: every match, taken left to right without overlap, is deleted. */
  function RemoveUsernameFromTweet(s: string): (r: string)
    ensures |r| <= |s|
    decreases |s|
  {
    if |s| == 0 then ""
    else
      var m := MatchLength(s);
      if m > 0 then RemoveUsernameFromTweet(s[m..])
      else [s[0]] + RemoveUsernameFromTweet(s[1..])
  }

  /** Text before the first `@` is kept as it is. */
  lemma {:induction false} RemoveKeepsTextWithoutAt(a: string, b: string)
    requires '@' !in a
    ensures RemoveUsernameFromTweet(a + b) == a + RemoveUsernameFromTweet(b)
    decreases |a|
  {
    if |a| > 0 {
      assert (a + b)[0] == a[0] && (a + b)[1..] == a[1..] + b;
      RemoveKeepsTextWithoutAt(a[1..], b);
    } else {
      assert a + b == b;
    }
  }

  /** A text with no `@` has no mention to remove. */
  lemma RemoveIsIdentityWithoutAt(s: string)
    requires '@' !in s
    ensures RemoveUsernameFromTweet(s) == s
  {
    RemoveKeepsTextWithoutAt(s, "");
    assert s + "" == s;
  }

  /** The mention `"@<name> "` in front of a text is removed, and only it. */
  lemma RemoveLeadingMention(name: string, s: string)
    requires |name| > 0 && IsWord(name)
    ensures RemoveUsernameFromTweet("@" + name + " " + s) == RemoveUsernameFromTweet(s)
  {
    var t := "@" + name + " " + s;
    assert MatchesAt(t, |name| + 2) by {
      assert t[1..|name| + 1] == name;
    }
    assert t[|name| + 2..] == s;
  }

  /** The example the function's documentation gives: `"@mike hello"` becomes `"hello"`. */
  lemma RemoveExample()
    ensures RemoveUsernameFromTweet("@mike hello") == "hello"
  {
    assert "@mike hello" == "@" + "mike" + " " + "hello";
    RemoveLeadingMention("mike", "hello");
    RemoveIsIdentityWithoutAt("hello");
  }

  /**
   * One pass of `re.sub` can leave a mention behind: in `"@@b c <rest>"` the
   * match `"@b "` is removed, which brings `"@"` and `"c "` together into a
   * new match that the pass has already gone past.
   */
  lemma RemoveIsNotIdempotent(b: string, c: string, rest: string)
    requires |b| > 0 && IsWord(b) && |c| > 0 && IsWord(c)
    ensures RemoveUsernameFromTweet("@@" + b + " " + (c + " " + rest))
         == "@" + (c + " " + RemoveUsernameFromTweet(rest))
    ensures MatchesAt("@" + (c + " " + RemoveUsernameFromTweet(rest)), |c| + 2)
  {
    RemoveKeepsLoneAt(b, c + " " + rest);
    WordThenSpace(c, rest);
    MentionMatches(c, RemoveUsernameFromTweet(rest));
  }

  /** `"@<c> "` in front of a text is a match of the pattern. */
  lemma MentionMatches(c: string, s: string)
    requires |c| > 0 && IsWord(c)
    ensures MatchesAt("@" + (c + " " + s), |c| + 2)
  {
    var r := "@" + (c + " " + s);
    assert r[1..|c| + 1] == c;
  }

  /** A word and a space in front of a text are kept as they are. */
  lemma WordThenSpace(c: string, rest: string)
    requires IsWord(c)
    ensures RemoveUsernameFromTweet(c + " " + rest) == c + " " + RemoveUsernameFromTweet(rest)
  {
    assert '@' !in c + " ";
    RemoveKeepsTextWithoutAt(c + " ", rest);
  }

  /** An `@` followed by another `@` starts no match and is kept. */
  lemma RemoveKeepsLoneAt(name: string, s: string)
    requires |name| > 0 && IsWord(name)
    ensures RemoveUsernameFromTweet("@@" + name + " " + s) == "@" + RemoveUsernameFromTweet(s)
  {
    var t := "@@" + name + " " + s;
    assert t[1..] == "@" + name + " " + s;
    assert !IsWordChar(t[1..][0]);
    RemoveLeadingMention(name, s);
  }
}
