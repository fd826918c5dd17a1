/**
 * The `tweet2` command: which chat links it accepts and which message id
 * it reads from them, how it strips pings from the text, the per-room
 * cache of Twitter clients built from the room's key-value configuration,
 * and the order in which `tweet` checks its guards before it posts.
 */
module BetterTweet {
  import opened Wrappers
  import Strings
  import PostMessage

  type Room = PostMessage.Room

  // ---------------------------------------------------------------- transcript links

  const SCHEME := "http://"
  const CHAT_HOST := "chat.stackoverflow.com"
  const TRANSCRIPT_PREFIX := SCHEME + CHAT_HOST + "/transcript/message/"

  /** `#\d+`. */
  predicate IsFragment(f: string) {
    |f| >= 2 && f[0] == '#' && Strings.AllDigits(f[1..])
  }

  /**
   * `~^http://chat\.stackoverflow\.com/transcript/message/(\d+)(?:#\d+)?$~`
   * and `(int) $matches[1]`: the message id, or `None` when the link does
   * not match.
   */
  function MessageId(url: string): Option<nat> {
    if |url| < |TRANSCRIPT_PREFIX| || url[..|TRANSCRIPT_PREFIX|] != TRANSCRIPT_PREFIX then None
    else
      var body := Strings.StripFinalNewline(url[|TRANSCRIPT_PREFIX|..]);
      var digits := Strings.DigitRun(body);
      var fragment := body[|digits|..];
      if digits != [] && (fragment == [] || IsFragment(fragment)) then Some(Strings.ParseDigits(digits))
      else None
  }

  /**
   * `isMessageValid`. Its regex has a capturing `(#\d+)?` where the id
   * extractor has `(?:#\d+)?`; both accept the same links, so one matcher
   * serves both.
   */
  predicate IsMessageValid(url: string) {
    MessageId(url).Some?
  }

  /** A transcript link spelled out: prefix, id digits, optional `#digits`, optional final newline. */
  ghost predicate TranscriptLink(url: string, id: nat) {
    exists digits, fragment, newline ::
      && url == TRANSCRIPT_PREFIX + digits + fragment + newline
      && digits != [] && Strings.AllDigits(digits)
      && (fragment == [] || IsFragment(fragment))
      && (newline == [] || newline == "\n")
      && Strings.ParseDigits(digits) == id
  }

  /** Every link of the documented shape is accepted, and its id is its first digit group. */
  lemma MessageIdComplete(digits: string, fragment: string, newline: string)
    requires digits != [] && Strings.AllDigits(digits)
    requires fragment == [] || IsFragment(fragment)
    requires newline == [] || newline == "\n"
    ensures MessageId(TRANSCRIPT_PREFIX + digits + fragment + newline) == Some(Strings.ParseDigits(digits))
  {
    var url := TRANSCRIPT_PREFIX + digits + fragment + newline;
    LinkParts(TRANSCRIPT_PREFIX, digits, fragment, newline);
    MessageIdOfParts(url, digits + fragment, digits, fragment);
  }

  /** How the matcher's steps take apart a link built from a prefix, digits, a fragment and a newline. */
  lemma LinkParts(p: string, digits: string, fragment: string, newline: string)
    requires digits != [] && Strings.AllDigits(digits)
    requires fragment == [] || IsFragment(fragment)
    requires newline == [] || newline == "\n"
    ensures var url := p + digits + fragment + newline;
      var body := digits + fragment;
      && |url| >= |p| && url[..|p|] == p
      && Strings.StripFinalNewline(url[|p|..]) == body
      && Strings.DigitRun(body) == digits && body[|digits|..] == fragment
  {
    var url := p + digits + fragment + newline;
    var body := digits + fragment;
    assert url[..|p|] == p && url[|p|..] == body + newline by {
      assert url == p + (body + newline);
    }
    assert Strings.StripFinalNewline(body + newline) == body by {
      BodyKeepsEnd(digits, fragment);
      StripKnownNewline(body, newline);
    }
    BodyDigits(digits, fragment);
  }

  lemma StripKnownNewline(body: string, newline: string)
    requires body != [] && body[|body| - 1] != '\n'
    requires newline == [] || newline == "\n"
    ensures Strings.StripFinalNewline(body + newline) == body
  {
    if newline == "\n" {
      assert (body + newline)[..|body|] == body;
    }
  }

  lemma BodyDigits(digits: string, fragment: string)
    requires digits != [] && Strings.AllDigits(digits)
    requires fragment == [] || IsFragment(fragment)
    ensures Strings.DigitRun(digits + fragment) == digits && (digits + fragment)[|digits|..] == fragment
  {
    var body := digits + fragment;
    assert body[..|digits|] == digits;
    if fragment != [] {
      assert body[|digits|] == '#';
    }
    Strings.DigitRunOfPrefix(body, |digits|);
  }

  /** The matcher's steps, given their results. */
  lemma MessageIdOfParts(url: string, body: string, digits: string, fragment: string)
    requires |url| >= |TRANSCRIPT_PREFIX| && url[..|TRANSCRIPT_PREFIX|] == TRANSCRIPT_PREFIX
    requires Strings.StripFinalNewline(url[|TRANSCRIPT_PREFIX|..]) == body
    requires Strings.DigitRun(body) == digits && body[|digits|..] == fragment
    requires digits != [] && (fragment == [] || IsFragment(fragment))
    ensures MessageId(url) == Some(Strings.ParseDigits(digits))
  {
  }

  /** A link body of digits and an optional fragment does not end in a newline. */
  lemma BodyKeepsEnd(digits: string, fragment: string)
    requires digits != [] && Strings.AllDigits(digits)
    requires fragment == [] || IsFragment(fragment)
    ensures var body := digits + fragment; body[|body| - 1] != '\n'
  {
    var body := digits + fragment;
    if fragment == [] {
      assert body[|body| - 1] == digits[|digits| - 1];
    } else {
      assert body[|body| - 1] == fragment[1..][|fragment| - 2];
    }
  }

  /** Every accepted link has the documented shape, with the returned id. */
  lemma MessageIdSound(url: string, id: nat)
    requires MessageId(url) == Some(id)
    ensures TranscriptLink(url, id)
  {
    var p := TRANSCRIPT_PREFIX;
    var rest := url[|p|..];
    var body := Strings.StripFinalNewline(rest);
    var digits := Strings.DigitRun(body);
    var fragment := body[|digits|..];
    var newline := rest[|body|..];
    MessageIdFacts(url, id);
    LinkShape(url, p);
    TranscriptLinkOf(url, id, digits, fragment, newline);
  }

  lemma TranscriptLinkOf(url: string, id: nat, digits: string, fragment: string, newline: string)
    requires url == TRANSCRIPT_PREFIX + digits + fragment + newline
    requires digits != [] && Strings.AllDigits(digits)
    requires fragment == [] || IsFragment(fragment)
    requires newline == [] || newline == "\n"
    requires Strings.ParseDigits(digits) == id
    ensures TranscriptLink(url, id)
  {
  }

  /** What an accepted link's matcher steps found. */
  lemma MessageIdFacts(url: string, id: nat)
    requires MessageId(url) == Some(id)
    ensures |url| >= |TRANSCRIPT_PREFIX| && url[..|TRANSCRIPT_PREFIX|] == TRANSCRIPT_PREFIX
    ensures var body := Strings.StripFinalNewline(url[|TRANSCRIPT_PREFIX|..]);
      var digits := Strings.DigitRun(body);
      var fragment := body[|digits|..];
      digits != [] && (fragment == [] || IsFragment(fragment)) && Strings.ParseDigits(digits) == id
  {
  }

  /** A string that starts with `p` is `p`, the digit run, what follows it and the stripped newline. */
  lemma LinkShape(url: string, p: string)
    requires |p| <= |url| && url[..|p|] == p
    ensures var rest := url[|p|..];
      var body := Strings.StripFinalNewline(rest);
      var digits := Strings.DigitRun(body);
      && url == p + digits + body[|digits|..] + rest[|body|..]
      && (rest[|body|..] == [] || rest[|body|..] == "\n")
  {
    var rest := url[|p|..];
    var body := Strings.StripFinalNewline(rest);
    var digits := Strings.DigitRun(body);
    var newline := rest[|body|..];
    assert newline == [] || newline == "\n" by {
      StripFinalNewlineSplit(rest);
    }
    assert url == p + ((digits + body[|digits|..]) + newline) by {
      assert url == p + rest;
      assert rest == body + newline by {
        StripFinalNewlineSplit(rest);
      }
      assert body == digits + body[|digits|..];
    }
    Strings.Assoc(p, digits + body[|digits|..], newline);
    Strings.Assoc(p, digits, body[|digits|..]);
  }

  lemma StripFinalNewlineSplit(s: string)
    ensures var r := Strings.StripFinalNewline(s);
      |r| <= |s| && s == r + s[|r|..] && (s[|r|..] == [] || s[|r|..] == "\n")
  {
  }

  /** The matcher accepts exactly the documented links, and reports their id. */
  lemma MessageIdMeaning(url: string, id: nat)
    ensures MessageId(url) == Some(id) <==> TranscriptLink(url, id)
  {
    if MessageId(url) == Some(id) {
      MessageIdSound(url, id);
    }
    if TranscriptLink(url, id) {
      var digits, fragment, newline :|
        && url == TRANSCRIPT_PREFIX + digits + fragment + newline
        && digits != [] && Strings.AllDigits(digits)
        && (fragment == [] || IsFragment(fragment))
        && (newline == [] || newline == "\n")
        && Strings.ParseDigits(digits) == id;
      MessageIdComplete(digits, fragment, newline);
    }
  }

  /** The link to message `n` carries `n` back. */
  lemma MessageIdRoundTrip(n: nat)
    ensures MessageId(TRANSCRIPT_PREFIX + Strings.NatToString(n)) == Some(n)
  {
    Strings.ParseNatToString(n);
    MessageIdComplete(Strings.NatToString(n), [], []);
    assert TRANSCRIPT_PREFIX + Strings.NatToString(n) + [] + [] == TRANSCRIPT_PREFIX + Strings.NatToString(n);
  }

  /** The secure scheme, another host and a link without digits are all refused. */
  lemma MessageIdRejects()
    ensures !IsMessageValid("https://" + CHAT_HOST + "/transcript/message/1")
    ensures !IsMessageValid(SCHEME + "chat.stackexchange.com" + "/transcript/message/1")
    ensures !IsMessageValid(TRANSCRIPT_PREFIX)
    ensures !IsMessageValid(TRANSCRIPT_PREFIX + "#1")
  {
    var p := TRANSCRIPT_PREFIX;
    var secure := "https://" + CHAT_HOST + "/transcript/message/1";
    assert secure[..|p|] != p by {
      assert secure[..|p|][4] == secure[4] == "https://"[4] == 's';
      assert p[4] == SCHEME[4] == ':';
    }
    var other := SCHEME + "chat.stackexchange.com" + "/transcript/message/1";
    assert other[..|p|] != p by {
      assert other[..|p|][17] == other[17] == "chat.stackexchange.com"[10] == 'e';
      assert p[17] == CHAT_HOST[10] == 'o';
    }
    assert (p + "#1")[|p|..] == "#1";
    assert (p + "#1")[..|p|] == p;
  }

  // ---------------------------------------------------------------- pings

  /** `@` followed by at least one character of `[^\s]` starts a ping at `k`. */
  predicate PingStartsAt(s: string, k: nat) {
    k + 1 < |s| && s[k] == '@' && !Strings.IsWs(s[k + 1])
  }

  /**
   * Where a match of `(@[^\s]+)(?:$|\s)` starting at `k` ends: the greedy
   * `[^\s]+` takes the whole run, then `$` matches at the end or before a
   * final newline (and is tried first), otherwise one whitespace character
   * is consumed.
   */
  function PingEnd(s: string, k: nat): (e: nat)
    requires PingStartsAt(s, k)
    ensures k + 2 <= e <= |s|
  {
    var j := RunEnd(s, k + 1);
    if j == |s| || (j == |s| - 1 && s[j] == '\n') then j else j + 1
  }

  /** Where the run of `[^\s]` characters starting at `j` ends. */
  function RunEnd(s: string, j: nat): (e: nat)
    requires j <= |s|
    ensures j <= e <= |s|
    decreases |s| - j
  {
    if j == |s| || Strings.IsWs(s[j]) then j else RunEnd(s, j + 1)
  }

  /** The run ends at the first whitespace character. */
  lemma {:induction false} RunEndAt(s: string, j: nat, e: nat)
    requires j <= e <= |s|
    requires forall k :: j <= k < e ==> !Strings.IsWs(s[k])
    requires e < |s| ==> Strings.IsWs(s[e])
    ensures RunEnd(s, j) == e
    decreases e - j
  {
    if j < e {
      RunEndAt(s, j + 1, e);
    }
  }

  /** A match of `(?:^|\s)(@[^\s]+)(?:$|\s)` starting at `i`: `^` only at the very start. */
  function PingMatchAt(s: string, i: nat): (r: Option<nat>)
    requires i < |s|
    ensures r.Some? ==> i < r.value <= |s|
  {
    if i == 0 && PingStartsAt(s, 0) then Some(PingEnd(s, 0))
    else if Strings.IsWs(s[i]) && PingStartsAt(s, i + 1) then Some(PingEnd(s, i + 1))
    else None
  }

  /** `preg_replace` with an empty replacement, from position `i`: matches are deleted, scanning resumes after each. */
  function RemovePingsFrom(s: string, i: nat): string
    requires i <= |s|
    decreases |s| - i
  {
    if i == |s| then []
    else
      match PingMatchAt(s, i)
      case Some(e) => RemovePingsFrom(s, e)
      case None => [s[i]] + RemovePingsFrom(s, i + 1)
  }

  /** `removePings`. */
  function RemovePings(text: string): string {
    RemovePingsFrom(text, 0)
  }

  lemma {:induction false} RemovePingsFromShorter(s: string, i: nat)
    requires i <= |s|
    ensures |RemovePingsFrom(s, i)| <= |s| - i
    decreases |s| - i
  {
    if i < |s| {
      RemovePingsFromStep(s, i);
      var m := PingMatchAt(s, i);
      if m.Some? {
        assert |RemovePingsFrom(s, m.value)| <= |s| - m.value by {
          RemovePingsFromShorter(s, m.value);
        }
      } else {
        assert |RemovePingsFrom(s, i + 1)| <= |s| - (i + 1) by {
          RemovePingsFromShorter(s, i + 1);
        }
      }
    }
  }

  /** One step of the scan: a match at `i` is dropped, otherwise the character is kept. */
  lemma RemovePingsFromStep(s: string, i: nat)
    requires i < |s|
    ensures PingMatchAt(s, i).Some? ==> RemovePingsFrom(s, i) == RemovePingsFrom(s, PingMatchAt(s, i).value)
    ensures PingMatchAt(s, i).None? ==> RemovePingsFrom(s, i) == [s[i]] + RemovePingsFrom(s, i + 1)
  {
  }

  /** Removing pings never makes the text longer. */
  lemma RemovePingsShorter(text: string)
    ensures |RemovePings(text)| <= |text|
  {
    RemovePingsFromShorter(text, 0);
  }

  lemma {:induction false} RemovePingsFromNoAt(s: string, i: nat)
    requires i <= |s|
    requires forall k :: i <= k < |s| ==> s[k] != '@'
    ensures RemovePingsFrom(s, i) == s[i..]
    decreases |s| - i
  {
    if i < |s| {
      assert RemovePingsFrom(s, i + 1) == s[i + 1..] by {
        RemovePingsFromNoAt(s, i + 1);
      }
      assert s[i..] == [s[i]] + s[i + 1..];
    }
  }

  /** Text without `@` is left as it is. */
  lemma RemovePingsNoAt(text: string)
    requires forall k :: 0 <= k < |text| ==> text[k] != '@'
    ensures RemovePings(text) == text
  {
    RemovePingsFromNoAt(text, 0);
  }

  /** Text scanned from `i` up to an `@`-free stretch ending at `n` is kept as it is. */
  lemma {:induction false} RemovePingsFromAtFree(s: string, i: nat, n: nat)
    requires i <= n < |s|
    requires forall k :: i <= k <= n ==> s[k] != '@'
    ensures RemovePingsFrom(s, i) == s[i..n] + RemovePingsFrom(s, n)
    decreases n - i
  {
    if i < n {
      var rest := RemovePingsFrom(s, n);
      assert RemovePingsFrom(s, i) == [s[i]] + RemovePingsFrom(s, i + 1) by {
        RemovePingsFromKeeps(s, i);
      }
      assert RemovePingsFrom(s, i + 1) == s[i + 1..n] + rest by {
        RemovePingsFromAtFree(s, i + 1, n);
      }
      SliceCons(s, i, n, rest);
    }
  }

  lemma SliceCons(s: string, i: nat, n: nat, rest: string)
    requires i < n <= |s|
    ensures [s[i]] + (s[i + 1..n] + rest) == s[i..n] + rest
  {
    assert s[i..n] == [s[i]] + s[i + 1..n];
    Strings.Assoc([s[i]], s[i + 1..n], rest);
  }

  /** No match at `i` when neither `s[i]` nor the character after it is `@`: the character is kept. */
  lemma RemovePingsFromKeeps(s: string, i: nat)
    requires i + 1 < |s| && s[i] != '@' && s[i + 1] != '@'
    ensures RemovePingsFrom(s, i) == [s[i]] + RemovePingsFrom(s, i + 1)
  {
    assert PingMatchAt(s, i) == None;
  }

  /** An `@`-free text in front of a non-`@` character is kept whole. */
  lemma RemovePingsKeepsPrefix(a: string, t: string)
    requires forall i :: 0 <= i < |a| ==> a[i] != '@'
    requires t != [] && t[0] != '@'
    ensures RemovePings(a + t) == a + RemovePingsFrom(a + t, |a|)
  {
    var s := a + t;
    assert forall j :: 0 <= j < |a| ==> s[j] == a[j];
    RemovePingsFromAtFree(s, 0, |a|);
    assert s[..|a|] == a;
  }

  /**
   * The match of a ping `@name` at `k`, followed by `tail`: the name is
   * taken whole, then `$` ends the match at the end or before a final
   * newline, and otherwise one whitespace character is consumed.
   */
  lemma PingEndOf(s: string, k: nat, name: string, tail: string)
    requires name != [] && Strings.NoWs(name)
    requires tail != [] ==> Strings.IsWs(tail[0])
    requires k + 1 <= |s| && s[k] == '@' && s[k + 1..] == name + tail
    ensures PingStartsAt(s, k)
    ensures PingEnd(s, k) == if tail == [] || tail == "\n" then k + 1 + |name| else k + 2 + |name|
  {
    var e := k + 1 + |name|;
    assert forall i :: k + 1 <= i < e ==> s[i] == name[i - k - 1];
    assert e < |s| ==> s[e] == tail[0];
    RunEndAt(s, k + 1, e);
    assert tail == "\n" <==> e == |s| - 1 && s[e] == '\n' by {
      if e == |s| - 1 {
        assert tail == [s[e]];
      }
    }
  }

  /**
   * A ping between two words takes the whitespace on both sides with it:
   * `a @name b` becomes `ab`.
   */
  lemma RemovePingsInside(a: string, name: string, b: string)
    requires forall i :: 0 <= i < |a| ==> a[i] != '@'
    requires name != [] && Strings.NoWs(name)
    requires forall i :: 0 <= i < |b| ==> b[i] != '@'
    ensures RemovePings(a + " @" + name + " " + b) == a + b
  {
    var t := " @" + name + " " + b;
    var s := a + t;
    var k := |a|;
    var e := k + |name| + 3;
    assert s == a + " @" + name + " " + b;
    RemovePingsKeepsPrefix(a, t);
    assert PingMatchAt(s, k) == Some(e) by {
      assert s[k] == ' ' && s[k + 1] == '@';
      assert s[k + 2..] == name + (" " + b);
      PingEndOf(s, k + 1, name, " " + b);
    }
    assert RemovePingsFrom(s, e) == b by {
      assert s[e..] == b;
      RemovePingsFromNoAt(s, e);
    }
  }

  /** A ping at the end takes the whitespace before it: `a @name` becomes `a`. */
  lemma RemovePingsAtEnd(a: string, name: string)
    requires forall i :: 0 <= i < |a| ==> a[i] != '@'
    requires name != [] && Strings.NoWs(name)
    ensures RemovePings(a + " @" + name) == a
  {
    var t := " @" + name;
    var s := a + t;
    var k := |a|;
    assert s == a + " @" + name;
    RemovePingsKeepsPrefix(a, t);
    assert PingMatchAt(s, k) == Some(|s|) by {
      assert s[k] == ' ' && s[k + 1] == '@';
      assert s[k + 2..] == name + [];
      PingEndOf(s, k + 1, name, []);
    }
    assert RemovePingsFrom(s, |s|) == [];
    assert a + [] == a;
  }

  /**
   * Before a final newline `$` matches too, so the newline stays:
   * `a @name\n` becomes `a\n`.
   */
  lemma RemovePingsBeforeFinalNewline(a: string, name: string)
    requires forall i :: 0 <= i < |a| ==> a[i] != '@'
    requires name != [] && Strings.NoWs(name)
    ensures RemovePings(a + " @" + name + "\n") == a + "\n"
  {
    var t := " @" + name + "\n";
    var s := a + t;
    var k := |a|;
    assert s == a + " @" + name + "\n";
    RemovePingsKeepsPrefix(a, t);
    assert PingMatchAt(s, k) == Some(|s| - 1) by {
      assert s[k] == ' ' && s[k + 1] == '@';
      assert s[k + 2..] == name + "\n";
      PingEndOf(s, k + 1, name, "\n");
    }
    assert RemovePingsFrom(s, |s| - 1) == "\n" by {
      assert s[|s| - 1..] == "\n";
      RemovePingsFromNoAt(s, |s| - 1);
    }
  }

  /** A ping at the start takes the whitespace after it: `@name b` becomes `b`. */
  lemma RemovePingsAtStart(name: string, b: string)
    requires name != [] && Strings.NoWs(name)
    requires forall i :: 0 <= i < |b| ==> b[i] != '@'
    ensures RemovePings("@" + name + " " + b) == b
  {
    var s := "@" + name + " " + b;
    var e := |name| + 2;
    assert PingMatchAt(s, 0) == Some(e) by {
      assert s[1..] == name + (" " + b);
      PingEndOf(s, 0, name, " " + b);
    }
    assert RemovePingsFrom(s, e) == b by {
      assert s[e..] == b;
      RemovePingsFromNoAt(s, e);
    }
  }

  /**
   * A ping right after a removed one is kept: the whitespace before it was
   * consumed by the first match.
   */
  lemma RemovePingsAdjacent()
    ensures RemovePings("a @b @c") == "a@c"
  {
    var u := "a @b @c";
    assert PingMatchAt(u, 1) == Some(5) by {
      RunEndAt(u, 3, 4);
    }
    assert RemovePingsFrom(u, 5) == "@c" by {
      assert PingMatchAt(u, 5) == None;
      assert PingMatchAt(u, 6) == None;
    }
  }

  // ---------------------------------------------------------------- tweet links

  /** The link posted back to the room once Twitter answers. */
  function TweetUri(screenName: string, idStr: string): string {
    "https://twitter.com/" + screenName + "/status/" + idStr
  }

  predicate NoSlash(s: string) {
    forall i :: 0 <= i < |s| ==> s[i] != '/'
  }

  /** The leading `[^/]*` run of `s`. */
  function NonSlashRun(s: string): (r: string)
    ensures |r| <= |s| && r == s[..|r|] && NoSlash(r)
    ensures |r| < |s| ==> s[|r|] == '/'
  {
    if s == [] || s[0] == '/' then [] else [s[0]] + NonSlashRun(s[1..])
  }

  /**
   * `~https://twitter.com/[^/]+/status/(\d+)~` tried at the start of `s`
   * (where a match is the leftmost one): the status id, or `None`. The
   * unescaped `.` matches one byte other than a newline, so it admits an
   * ASCII character only: after the first byte of a multi-byte character
   * `com/` would have to match a continuation byte.
   */
  function StatusIdAtStart(s: string): Option<nat> {
    if |s| < 20 || s[..15] != "https://twitter" || s[15] == '\n' || s[15] as int >= 128 || s[16..20] != "com/" then None
    else
      var rest := s[20..];
      var name := NonSlashRun(rest);
      var after := rest[|name|..];
      if name == [] || |after| < 8 || after[..8] != "/status/" then None
      else
        var digits := Strings.DigitRun(after[8..]);
        if digits == [] then None else Some(Strings.ParseDigits(digits))
  }

  lemma {:induction false} NonSlashRunOfPrefix(s: string, n: nat)
    requires n <= |s| && NoSlash(s[..n]) && (n < |s| ==> s[n] == '/')
    ensures NonSlashRun(s) == s[..n]
  {
    if n > 0 {
      assert s[..n][0] == s[0];
      assert s[1..][..n - 1] == s[..n][1..];
      NonSlashRunOfPrefix(s[1..], n - 1);
      assert s[..n] == [s[0]] + s[1..][..n - 1];
    }
  }

  /**
   * The retweet-id extractor reads a posted tweet link back: the status
   * id it finds is the `id_str` the link was built from.
   */
  lemma TweetUriReadBack(screenName: string, idStr: string)
    requires screenName != [] && NoSlash(screenName)
    requires idStr != [] && Strings.AllDigits(idStr)
    ensures StatusIdAtStart(TweetUri(screenName, idStr)) == Some(Strings.ParseDigits(idStr))
  {
    var s := TweetUri(screenName, idStr);
    assert s[..15] == "https://twitter" && s[15] == '.' && s[16..20] == "com/" && s[20..] == screenName + "/status/" + idStr by {
      assert s == "https://twitter.com/" + (screenName + "/status/" + idStr);
    }
    StatusIdOfParts(s, screenName, idStr);
  }

  /** A string made of the fixed head, a slash-free name, `/status/` and digits yields those digits. */
  lemma StatusIdOfParts(s: string, name: string, digits: string)
    requires |s| >= 20 && s[..15] == "https://twitter" && s[15] != '\n' && s[15] as int < 128 && s[16..20] == "com/"
    requires s[20..] == name + "/status/" + digits
    requires name != [] && NoSlash(name)
    requires digits != [] && Strings.AllDigits(digits)
    ensures StatusIdAtStart(s) == Some(Strings.ParseDigits(digits))
  {
    var rest := s[20..];
    assert NonSlashRun(rest) == name by {
      assert rest[..|name|] == name;
      NonSlashRunOfPrefix(rest, |name|);
    }
    var after := rest[|name|..];
    assert after[..8] == "/status/" && after[8..] == digits by {
      assert after == "/status/" + digits;
    }
    assert Strings.DigitRun(digits) == digits by {
      Strings.DigitRunOfPrefix(digits, |digits|);
      assert digits[..|digits|] == digits;
    }
  }

  // ---------------------------------------------------------------- client cache

  /** Twitter credentials, as the access-token factory builds them. */
  datatype AccessToken = AccessToken(token: string, secret: string)

  /** An API client; the client factory is an opaque constructor. */
  datatype ApiClient = ApiClient(accessToken: AccessToken)

  datatype StoreKey = StoreKey(key: string, room: Room)

  /** The per-room key-value store, as a map from key and room to value. */
  datatype KeyValueStore = KeyValueStore(values: map<StoreKey, string>)

  /** One question put to the store: `exists` or `get`. */
  datatype StoreCall = ExistsCall(key: string) | GetCall(key: string)

  datatype NotConfigured = NotConfigured(message: string)

  const TOKEN_KEY := "oauth.access_token"
  const SECRET_KEY := "oauth.access_token_secret"
  const CONFIG_KEYS: seq<string> := [TOKEN_KEY, SECRET_KEY]

  predicate Has(store: KeyValueStore, key: string, room: Room) {
    StoreKey(key, room) in store.values
  }

  function Get(store: KeyValueStore, key: string, room: Room): string
    requires Has(store, key, room)
  {
    store.values[StoreKey(key, room)]
  }

  /** The first key, in order, that the store lacks for `room`. */
  function FirstMissing(store: KeyValueStore, room: Room, keys: seq<string>): (m: Option<string>)
    ensures m.Some? ==> m.value in keys && !Has(store, m.value, room)
    ensures m.None? <==> forall k :: k in keys ==> Has(store, k, room)
  {
    if keys == [] then None
    else if !Has(store, keys[0], room) then Some(keys[0])
    else FirstMissing(store, room, keys[1..])
  }

  /** The store calls of the configuration loop: `exists`, then `get` while keys are found. */
  function ConfigCalls(store: KeyValueStore, room: Room, keys: seq<string>): seq<StoreCall> {
    if keys == [] then []
    else if !Has(store, keys[0], room) then [ExistsCall(keys[0])]
    else [ExistsCall(keys[0]), GetCall(keys[0])] + ConfigCalls(store, room, keys[1..])
  }

  /** What `getClientForRoom` yields for a room, given the cache and the store. */
  function ClientFor(clients: map<string, ApiClient>, store: KeyValueStore, room: Room): Result<ApiClient, NotConfigured> {
    if room.ident in clients then Ok(clients[room.ident])
    else
      match FirstMissing(store, room, CONFIG_KEYS)
      case Some(key) => Err(NotConfigured("Missing config key: " + key))
      case None =>
        assert TOKEN_KEY in CONFIG_KEYS && SECRET_KEY in CONFIG_KEYS;
        Ok(ApiClient(AccessToken(Get(store, TOKEN_KEY, room), Get(store, SECRET_KEY, room))))
  }

  /** The store calls `getClientForRoom` makes: none on a cache hit. */
  function LookupCalls(clients: map<string, ApiClient>, store: KeyValueStore, room: Room): seq<StoreCall> {
    if room.ident in clients then [] else ConfigCalls(store, room, CONFIG_KEYS)
  }

  /** The cache after `getClientForRoom`: a new client is kept under this room's identifier. */
  function CacheAfter(clients: map<string, ApiClient>, store: KeyValueStore, room: Room): map<string, ApiClient> {
    match ClientFor(clients, store, room)
    case Ok(client) => clients[room.ident := client]
    case Err(_) => clients
  }

  lemma {:induction false} FirstMissingAppend(store: KeyValueStore, room: Room, keys: seq<string>, key: string)
    requires FirstMissing(store, room, keys) == None
    ensures FirstMissing(store, room, keys + [key]) == (if Has(store, key, room) then None else Some(key))
    ensures ConfigCalls(store, room, keys + [key]) ==
      ConfigCalls(store, room, keys) + [ExistsCall(key)] + (if Has(store, key, room) then [GetCall(key)] else [])
  {
    if keys != [] {
      var tail := keys[1..];
      assert (keys + [key])[0] == keys[0] && (keys + [key])[1..] == tail + [key];
      assert FirstMissing(store, room, tail) == None;
      assert FirstMissing(store, room, tail + [key]) == (if Has(store, key, room) then None else Some(key))
        && ConfigCalls(store, room, tail + [key]) ==
          ConfigCalls(store, room, tail) + [ExistsCall(key)] + (if Has(store, key, room) then [GetCall(key)] else [])
      by {
        FirstMissingAppend(store, room, tail, key);
      }
      var head := [ExistsCall(keys[0]), GetCall(keys[0])];
      assert ConfigCalls(store, room, keys + [key]) == head + ConfigCalls(store, room, tail + [key]);
      assert ConfigCalls(store, room, keys) == head + ConfigCalls(store, room, tail);
      var last := if Has(store, key, room) then [GetCall(key)] else [];
      Strings.Assoc(head, ConfigCalls(store, room, tail) + [ExistsCall(key)], last);
      Strings.Assoc(head, ConfigCalls(store, room, tail), [ExistsCall(key)]);
    }
  }

  lemma {:induction false} FirstMissingStops(store: KeyValueStore, room: Room, keys: seq<string>, rest: seq<string>)
    requires FirstMissing(store, room, keys).Some?
    ensures FirstMissing(store, room, keys + rest) == FirstMissing(store, room, keys)
    ensures ConfigCalls(store, room, keys + rest) == ConfigCalls(store, room, keys)
  {
    assert (keys + rest)[0] == keys[0];
    if Has(store, keys[0], room) {
      assert (keys + rest)[1..] == keys[1..] + rest;
      FirstMissingStops(store, room, keys[1..], rest);
    }
  }

  /**
   * The keys are checked in order: a missing token is reported before the
   * secret is looked at, and a missing secret after the token was read.
   */
  lemma MissingKeyOrder(store: KeyValueStore, room: Room)
    ensures !Has(store, TOKEN_KEY, room) ==>
      && ClientFor(map[], store, room) == Err(NotConfigured("Missing config key: oauth.access_token"))
      && LookupCalls(map[], store, room) == [ExistsCall(TOKEN_KEY)]
    ensures Has(store, TOKEN_KEY, room) && !Has(store, SECRET_KEY, room) ==>
      && ClientFor(map[], store, room) == Err(NotConfigured("Missing config key: oauth.access_token_secret"))
      && LookupCalls(map[], store, room) == [ExistsCall(TOKEN_KEY), GetCall(TOKEN_KEY), ExistsCall(SECRET_KEY)]
  {
    assert CONFIG_KEYS[0] == TOKEN_KEY && CONFIG_KEYS[1..] == [SECRET_KEY];
    assert [SECRET_KEY][1..] == [];
    assert "Missing config key: " + TOKEN_KEY == "Missing config key: oauth.access_token";
    assert "Missing config key: " + SECRET_KEY == "Missing config key: oauth.access_token_secret";
    if !Has(store, TOKEN_KEY, room) {
      assert FirstMissing(store, room, CONFIG_KEYS) == Some(TOKEN_KEY);
    } else if !Has(store, SECRET_KEY, room) {
      assert FirstMissing(store, room, [SECRET_KEY]) == Some(SECRET_KEY);
      assert FirstMissing(store, room, CONFIG_KEYS) == Some(SECRET_KEY);
      assert ConfigCalls(store, room, [SECRET_KEY]) == [ExistsCall(SECRET_KEY)];
    }
  }

  /**
   * Once a room has a client, later lookups return that same client and
   * never reach the store, whatever the store then holds.
   */
  lemma CachedClientIsStable(clients: map<string, ApiClient>, store: KeyValueStore, later: KeyValueStore, room: Room)
    requires ClientFor(clients, store, room).Ok?
    ensures ClientFor(CacheAfter(clients, store, room), later, room) == ClientFor(clients, store, room)
    ensures LookupCalls(CacheAfter(clients, store, room), later, room) == []
    ensures CacheAfter(CacheAfter(clients, store, room), later, room) == CacheAfter(clients, store, room)
  {
    var c := CacheAfter(clients, store, room);
    assert room.ident in c;
    assert c[room.ident := c[room.ident]] == c;
  }

  /** A lookup changes the cache at most at its own room's identifier. */
  lemma CacheAfterOnlyThisRoom(clients: map<string, ApiClient>, store: KeyValueStore, room: Room, other: string)
    requires other != room.ident
    ensures other in CacheAfter(clients, store, room) <==> other in clients
    ensures other in clients ==> CacheAfter(clients, store, room)[other] == clients[other]
  {
  }

  // ---------------------------------------------------------------- the command

  const REFUSAL := "I'm sorry Dave, I'm afraid I can't do that"
  const NOT_CONFIGURED := "I'm not currently configured for tweeting :-("
  const TOO_LONG := "Boo! The message exceeds the 140 character limit. :-("
  const TWEET_LIMIT := 140

  /** The request sent to Twitter. */
  datatype ApiRequest = Retweet(id: nat) | Update(text: string)

  /**
   * The answers of the chat server, the admin storage and Twitter that
   * `tweet` waits for, given up front: whether the user is an admin,
   * whether the linked message is a tweet (and the status id found in it,
   * if any), the message's text once its DOM is flattened, and the
   * `user.screen_name` and `id_str` of Twitter's reply.
   */
  datatype World = World(
    isAdmin: bool,
    isRetweet: bool,
    retweetId: Option<nat>,
    messageText: string,
    screenName: string,
    idStr: string)

  /** How `tweet` ends: nothing, a reply to the user, a tweet whose link is posted, or the uncaught "ID not found". */
  datatype TweetOutcome =
    | Silent
    | Replied(text: string)
    | Posted(client: ApiClient, request: ApiRequest, uri: string)
    | IdNotFound

  /** The decision `tweet` takes, given the client lookup's result. */
  function TweetDecision(url: string, world: World, client: Result<ApiClient, NotConfigured>): (o: TweetOutcome)
    ensures !IsMessageValid(url) ==> o == Silent
    ensures IsMessageValid(url) && !world.isAdmin ==> o == Replied(REFUSAL)
    ensures IsMessageValid(url) && world.isAdmin && client.Err? ==> o == Replied(NOT_CONFIGURED)
    ensures o.Posted? ==> o.client == client.value && o.uri == TweetUri(world.screenName, world.idStr)
    ensures o.Posted? && o.request.Update? ==> |o.request.text| <= TWEET_LIMIT
  {
    if !IsMessageValid(url) then Silent
    else if !world.isAdmin then Replied(REFUSAL)
    else
      match client
      case Err(_) => Replied(NOT_CONFIGURED)
      case Ok(c) =>
        if world.isRetweet then
          match world.retweetId
          case None => IdNotFound
          case Some(id) => Posted(c, Retweet(id), TweetUri(world.screenName, world.idStr))
        else
          var text := RemovePings(world.messageText);
          if |text| > TWEET_LIMIT then Replied(TOO_LONG)
          else Posted(c, Update(text), TweetUri(world.screenName, world.idStr))
  }

  /** An invalid link is ignored whatever the user, the store or Twitter would say. */
  lemma InvalidLinkIgnoresWorld(url: string, w1: World, w2: World, c1: Result<ApiClient, NotConfigured>, c2: Result<ApiClient, NotConfigured>)
    requires !IsMessageValid(url)
    ensures TweetDecision(url, w1, c1) == TweetDecision(url, w2, c2)
  {
  }

  /** For a new tweet the limit is on the text after pings are removed; exactly `TWEET_LIMIT` characters pass. */
  lemma TweetLengthLimit(url: string, world: World, client: ApiClient)
    requires IsMessageValid(url) && world.isAdmin && !world.isRetweet
    ensures TweetDecision(url, world, Ok(client)) == Replied(TOO_LONG) <==> |RemovePings(world.messageText)| > TWEET_LIMIT
    ensures |RemovePings(world.messageText)| <= TWEET_LIMIT ==>
      TweetDecision(url, world, Ok(client)) == Posted(client, Update(RemovePings(world.messageText)), TweetUri(world.screenName, world.idStr))
  {
  }

  /** A text of at most `TWEET_LIMIT` characters is never refused for its length. */
  lemma ShortTextFits(url: string, world: World, client: ApiClient)
    requires IsMessageValid(url) && world.isAdmin && !world.isRetweet && |world.messageText| <= TWEET_LIMIT
    ensures TweetDecision(url, world, Ok(client)).Posted?
  {
    RemovePingsShorter(world.messageText);
  }

  /** The plugin, with its per-room cache of Twitter clients. */
  class BetterTweetPlugin {
    var clients: map<string, ApiClient>

    constructor ()
      ensures clients == map[]
    {
      clients := map[];
    }

    /**
     * `getClientForRoom`: a cached client is returned without asking the
     * store; otherwise each configuration key is checked in turn, the
     * first missing one is reported and the cache is left alone, and when
     * all are there a new client is built and cached for this room.
     */
    method GetClientForRoom(room: Room, store: KeyValueStore) returns (r: Result<ApiClient, NotConfigured>, calls: seq<StoreCall>)
      modifies this
      ensures r == ClientFor(old(clients), store, room)
      ensures calls == LookupCalls(old(clients), store, room)
      ensures clients == CacheAfter(old(clients), store, room)
    {
      if room.ident in clients {
        assert clients[room.ident := clients[room.ident]] == clients;
        return Ok(clients[room.ident]), [];
      }

      var keys := CONFIG_KEYS;
      var config: map<string, string> := map[];
      calls := [];
      var i := 0;
      while i < |keys|
        invariant 0 <= i <= |keys|
        invariant clients == old(clients)
        invariant FirstMissing(store, room, keys[..i]) == None
        invariant calls == ConfigCalls(store, room, keys[..i])
        invariant forall k :: k in keys[..i] ==> k in config && config[k] == Get(store, k, room)
      {
        var key := keys[i];
        assert keys[..i + 1] == keys[..i] + [key];
        FirstMissingAppend(store, room, keys[..i], key);
        if !Has(store, key, room) {
          calls := calls + [ExistsCall(key)];
          assert keys == keys[..i + 1] + keys[i + 1..];
          FirstMissingStops(store, room, keys[..i + 1], keys[i + 1..]);
          assert FirstMissing(store, room, CONFIG_KEYS) == Some(key);
          assert ClientFor(old(clients), store, room) == Err(NotConfigured("Missing config key: " + key));
          return Err(NotConfigured("Missing config key: " + key)), calls;
        }
        calls := calls + [ExistsCall(key), GetCall(key)];
        config := config[key := Get(store, key, room)];
        i := i + 1;
      }
      assert keys[..i] == keys;
      var client := ApiClient(AccessToken(config[TOKEN_KEY], config[SECRET_KEY]));
      clients := clients[room.ident := client];
      return Ok(client), calls;
    }

    /**
     * `tweet`: the link is checked first, then the user's admin rights,
     * then the client is looked up; only then is the message fetched and
     * tweeted or retweeted.
     */
    method Tweet(room: Room, url: string, store: KeyValueStore, world: World) returns (o: TweetOutcome, calls: seq<StoreCall>)
      modifies this
      ensures o == TweetDecision(url, world, ClientFor(old(clients), store, room))
      ensures IsMessageValid(url) && world.isAdmin ==>
        clients == CacheAfter(old(clients), store, room) && calls == LookupCalls(old(clients), store, room)
      ensures !(IsMessageValid(url) && world.isAdmin) ==> clients == old(clients) && calls == []
    {
      if !IsMessageValid(url) {
        return Silent, [];
      }
      if !world.isAdmin {
        return Replied(REFUSAL), [];
      }
      var r;
      r, calls := GetClientForRoom(room, store);
      if r.Err? {
        return Replied(NOT_CONFIGURED), calls;
      }
      var uri := TweetUri(world.screenName, world.idStr);
      if world.isRetweet {
        if world.retweetId.None? {
          return IdNotFound, calls;
        }
        return Posted(r.value, Retweet(world.retweetId.value), uri), calls;
      }
      var text := RemovePings(world.messageText);
      if |text| > TWEET_LIMIT {
        return Replied(TOO_LONG), calls;
      }
      return Posted(r.value, Update(text), uri), calls;
    }
  }

  /** A configured admin's second tweet reuses the cached client and asks the store nothing. */
  method ScenarioSecondTweetUsesCache() {
    var room := PostMessage.Room("11");
    var store := KeyValueStore(map[StoreKey(TOKEN_KEY, room) := "t", StoreKey(SECRET_KEY, room) := "s"]);
    var client := ApiClient(AccessToken("t", "s"));
    assert ClientFor(map[], store, room) == Ok(client) by {
      assert Has(store, TOKEN_KEY, room) && Has(store, SECRET_KEY, room);
      assert FirstMissing(store, room, CONFIG_KEYS) == None;
    }
    var url := TRANSCRIPT_PREFIX + "42";
    assert IsMessageValid(url) by {
      MessageIdComplete("42", [], []);
      assert url == TRANSCRIPT_PREFIX + "42" + [] + [];
    }
    var world := World(true, true, Some(7), "", "jeeves", "99");
    var uri := TweetUri("jeeves", "99");
    var plugin := new BetterTweetPlugin();
    var first, calls1 := plugin.Tweet(room, url, store, world);
    assert first == Posted(client, Retweet(7), uri);
    assert plugin.clients == map[room.ident := client];
    var second, calls2 := plugin.Tweet(room, url, KeyValueStore(map[]), world);
    assert second == first && calls2 == [];
  }
}
