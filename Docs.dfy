/**
 * The `!!docs` plugin's text handling: which messages it answers, the
 * lookup pattern and URL it builds, how it reads a PHP manual page, and
 * the reply it formats. A manual page is abstracted to the text of its
 * first `h1`, its first `h2`, and its first element of class `para` and
 * of class `dc-title`.
 */
module Docs {
  import opened Wrappers
  import Strings
  import UrlEncoding

  /** A chat message: plain text, or a command with its parameters. */
  datatype Message = Plain(text: string) | Command(command: string, parameters: seq<string>)

  const COMMAND := "docs"
  const URL_BASE := "http://php.net"
  const LOOKUP_URL_BASE := URL_BASE + "/manual-lookup.php?scope=quickref&pattern="

  const MYSQL_MESSAGE :=
    "[**Please, don't use `mysql_*` functions in new code**](http://bit.ly/phpmsql). "
    + "They are no longer maintained [and are officially deprecated](http://j.mp/XqV7Lp). "
    + "See the [**red box**](http://j.mp/Te9zIL)? Learn about [*prepared statements*](http://j.mp/T9hLWi) instead, "
    + "and use [PDO](http://php.net/pdo) or [MySQLi](http://php.net/mysqli) - "
    + "[this article](http://j.mp/QEx8IB) will help you decide which. If you choose PDO, "
    + "[here is a good tutorial](http://j.mp/PoWehJ)."

  /** The plugin answers `docs` commands that carry at least one parameter. */
  function ValidMessage(m: Message): (valid: bool)
    ensures valid <==> m.Command? && m.command == COMMAND && |m.parameters| > 0
  {
    match m
    case Plain(_) => false
    case Command(c, ps) => c == COMMAND && ps != []
  }

  // ---------------------------------------------------------------- pattern

  /** PHP's `implode`. */
  function Implode(glue: string, pieces: seq<string>): string {
    if |pieces| == 0 then "" else if |pieces| == 1 then pieces[0] else pieces[0] + glue + Implode(glue, pieces[1..])
  }

  /** PHP's `str_replace('::', '.', s)`: left to right, without overlaps. */
  function ReplaceDoubleColons(s: string): string {
    if |s| >= 2 && s[0] == ':' && s[1] == ':' then "." + ReplaceDoubleColons(s[2..])
    else if s == [] then []
    else [s[0]] + ReplaceDoubleColons(s[1..])
  }

  /** The lookup pattern of a command: its parameters joined by spaces, `::` turned into `.`. */
  function Pattern(parameters: seq<string>): (p: string)
    ensures !HasDoubleColon(p)
  {
    ReplaceLeavesNoDoubleColon(Implode(" ", parameters));
    ReplaceDoubleColons(Implode(" ", parameters))
  }

  predicate HasDoubleColon(s: string) {
    exists i :: 0 <= i < |s| - 1 && s[i] == ':' && s[i + 1] == ':'
  }

  /** `n` copies of `c`. */
  function Repeat(c: char, n: nat): (r: string)
    ensures |r| == n
  {
    if n == 0 then [] else [c] + Repeat(c, n - 1)
  }

  lemma ReplaceHead(s: string)
    ensures ReplaceDoubleColons(s) == [] <==> s == []
    ensures s != [] ==> ReplaceDoubleColons(s)[0] == (if |s| >= 2 && s[0] == ':' && s[1] == ':' then '.' else s[0])
  {
  }

  /** No `::` survives the replacement. */
  lemma {:induction false} ReplaceLeavesNoDoubleColon(s: string)
    ensures !HasDoubleColon(ReplaceDoubleColons(s))
  {
    var r := ReplaceDoubleColons(s);
    if |s| >= 2 && s[0] == ':' && s[1] == ':' {
      var t := ReplaceDoubleColons(s[2..]);
      ReplaceLeavesNoDoubleColon(s[2..]);
      assert r == "." + t;
      forall i | 0 <= i < |r| - 1 ensures !(r[i] == ':' && r[i + 1] == ':') {
        if i > 0 {
          assert r[i] == t[i - 1] && r[i + 1] == t[i];
        }
      }
    } else if s != [] {
      var t := ReplaceDoubleColons(s[1..]);
      ReplaceLeavesNoDoubleColon(s[1..]);
      ReplaceHead(s[1..]);
      assert r == [s[0]] + t;
      forall i | 0 <= i < |r| - 1 ensures !(r[i] == ':' && r[i + 1] == ':') {
        if i > 0 {
          assert r[i] == t[i - 1] && r[i + 1] == t[i];
        }
      }
    }
  }

  lemma ColonTail(b: nat, rest: string)
    requires b <= 1 && (rest == [] || rest[0] != ':')
    ensures ReplaceDoubleColons(Repeat(':', b) + rest) == Repeat(':', b) + ReplaceDoubleColons(rest)
  {
    if b == 0 {
      assert Repeat(':', b) + rest == rest;
    } else {
      var s := Repeat(':', b) + rest;
      assert Repeat(':', b) == [':'] by {
        assert Repeat(':', 0) == [];
      }
      assert s[0] == ':' && s[1..] == rest;
      ReplaceSingle(s);
    }
  }

  /** Where no `::` starts, the first character is copied. */
  lemma ReplaceSingle(s: string)
    requires s != [] && !(|s| >= 2 && s[0] == ':' && s[1] == ':')
    ensures ReplaceDoubleColons(s) == [s[0]] + ReplaceDoubleColons(s[1..])
  {
  }

  lemma {:induction false} ColonPairs(m: nat, b: nat, rest: string)
    requires b <= 1 && (rest == [] || rest[0] != ':')
    ensures ReplaceDoubleColons(Repeat(':', 2 * m + b) + rest) == Repeat('.', m) + Repeat(':', b) + ReplaceDoubleColons(rest)
  {
    if m == 0 {
      ColonTail(b, rest);
    } else {
      ColonPairs(m - 1, b, rest);
      ColonPairsStep(m, b, rest);
    }
  }

  /** One more pair of colons in front adds one dot in front. */
  lemma ColonPairsStep(m: nat, b: nat, rest: string)
    requires m >= 1
    requires ReplaceDoubleColons(Repeat(':', 2 * (m - 1) + b) + rest) == Repeat('.', m - 1) + Repeat(':', b) + ReplaceDoubleColons(rest)
    ensures ReplaceDoubleColons(Repeat(':', 2 * m + b) + rest) == Repeat('.', m) + Repeat(':', b) + ReplaceDoubleColons(rest)
  {
    var n := 2 * (m - 1) + b;
    var x := Repeat(':', n) + rest;
    var s := Repeat(':', 2 * m + b) + rest;
    assert s == "::" + x by {
      assert 2 * m + b == n + 2;
      ColonSplit(n, rest);
    }
    assert ReplaceDoubleColons(s) == "." + ReplaceDoubleColons(x) by {
      ReplaceStep(x);
    }
    assert Repeat('.', m) == "." + Repeat('.', m - 1) by {
      RepeatCons('.', m - 1);
    }
    Strings.Assoc(".", Repeat('.', m - 1) + Repeat(':', b), ReplaceDoubleColons(rest));
    Strings.Assoc(".", Repeat('.', m - 1), Repeat(':', b));
  }

  lemma ColonSplit(n: nat, rest: string)
    ensures Repeat(':', n + 2) + rest == "::" + (Repeat(':', n) + rest)
  {
  }

  lemma ReplaceStep(t: string)
    ensures ReplaceDoubleColons("::" + t) == "." + ReplaceDoubleColons(t)
  {
    assert ("::" + t)[2..] == t;
  }

  /** A run of `k` colons becomes `k / 2` dots followed by `k % 2` colons. */
  lemma ReplaceColonRun(k: nat, rest: string)
    requires rest == [] || rest[0] != ':'
    ensures ReplaceDoubleColons(Repeat(':', k) + rest) == Repeat('.', k / 2) + Repeat(':', k % 2) + ReplaceDoubleColons(rest)
  {
    assert k == 2 * (k / 2) + k % 2;
    ColonPairs(k / 2, k % 2, rest);
  }

  lemma RepeatCons(c: char, n: nat)
    ensures Repeat(c, n + 1) == [c] + Repeat(c, n)
  {
  }

  /** Text without colons is left as it is. */
  lemma {:induction false} ReplaceWithoutColons(s: string)
    requires forall i :: 0 <= i < |s| ==> s[i] != ':'
    ensures ReplaceDoubleColons(s) == s
  {
    if s != [] {
      ReplaceWithoutColons(s[1..]);
      assert s == [s[0]] + s[1..];
    }
  }

  // ---------------------------------------------------------------- lookup

  /** What the plugin does with a pattern: answer with the mysql warning, or fetch a URL. */
  datatype Lookup = MysqlWarning(reply: string) | Fetch(url: string)

  /**
   * A pattern starting `mysql_` gets the fixed warning and no request;
   * any other pattern is fetched from the lookup URL, whose query value
   * percent-decodes to exactly the pattern's bytes.
   */
  function LookupFor(pattern: string): (l: Lookup)
    ensures l.MysqlWarning? <==> |pattern| >= 6 && pattern[..6] == "mysql_"
    ensures l.MysqlWarning? ==> l.reply == MYSQL_MESSAGE
    ensures l.Fetch? ==>
      && |l.url| >= |LOOKUP_URL_BASE|
      && l.url[..|LOOKUP_URL_BASE|] == LOOKUP_URL_BASE
      && UrlEncoding.IsEncoded(l.url[|LOOKUP_URL_BASE|..])
      && UrlEncoding.PercentDecode(l.url[|LOOKUP_URL_BASE|..]) == Some(UrlEncoding.Utf8Encode(pattern))
  {
    if |pattern| >= 6 && pattern[..6] == "mysql_" then MysqlWarning(MYSQL_MESSAGE)
    else
      var query := UrlEncoding.RawUrlEncode(UrlEncoding.Utf8Encode(pattern));
      UrlEncoding.DecodeRawUrlEncode(UrlEncoding.Utf8Encode(pattern));
      UrlEncoding.RawUrlEncodeIsEncoded(UrlEncoding.Utf8Encode(pattern));
      assert (LOOKUP_URL_BASE + query)[|LOOKUP_URL_BASE|..] == query;
      Fetch(LOOKUP_URL_BASE + query)
  }

  /** The first step of answering a valid command. */
  function GetResult(parameters: seq<string>): Lookup {
    LookupFor(Pattern(parameters))
  }

  // ---------------------------------------------------------------- normalisation

  /** The characters PHP's `trim` strips by default. */
  predicate IsTrimChar(c: char) {
    c == ' ' || c == '\t' || c == '\n' || c == '\r' || c == '\0' || c == '\U{000B}'
  }

  /** `preg_replace('/\s+/', ' ', s)`. */
  function CollapseWs(s: string): string
    decreases |s|
  {
    if s == [] then []
    else if Strings.IsWs(s[0]) then [' '] + CollapseWs(Strings.DropWs(s))
    else [s[0]] + CollapseWs(s[1..])
  }

  function TrimLeft(s: string): (r: string)
    ensures |r| <= |s| && r == s[|s| - |r|..]
    ensures r != [] ==> !IsTrimChar(r[0])
  {
    if s != [] && IsTrimChar(s[0]) then TrimLeft(s[1..]) else s
  }

  function TrimRight(s: string): (r: string)
    ensures |r| <= |s| && r == s[..|r|]
    ensures r != [] ==> !IsTrimChar(r[|r| - 1])
  {
    if s != [] && IsTrimChar(s[|s| - 1]) then TrimRight(s[..|s| - 1]) else s
  }

  /** PHP's `trim`. */
  function Trim(s: string): string {
    TrimRight(TrimLeft(s))
  }

  /** `normalizeMessageContent`: each whitespace run becomes one space, then the ends are trimmed. */
  function Normalize(s: string): string {
    Trim(CollapseWs(s))
  }

  predicate OnlySpaces(s: string) {
    forall i :: 0 <= i < |s| && Strings.IsWs(s[i]) ==> s[i] == ' '
  }

  predicate NoAdjacentWs(s: string) {
    forall i :: 0 <= i < |s| - 1 ==> !(Strings.IsWs(s[i]) && Strings.IsWs(s[i + 1]))
  }

  /** The shape `Normalize` leaves: single spaces only, and nothing `trim` would strip at the ends. */
  predicate IsNormal(s: string) {
    && OnlySpaces(s)
    && NoAdjacentWs(s)
    && (s != [] ==> !IsTrimChar(s[0]) && !IsTrimChar(s[|s| - 1]))
  }

  lemma CollapseHead(s: string)
    ensures CollapseWs(s) == [] <==> s == []
    ensures s != [] ==> (Strings.IsWs(CollapseWs(s)[0]) <==> Strings.IsWs(s[0]))
  {
  }

  lemma {:induction false} CollapseShape(s: string)
    ensures OnlySpaces(CollapseWs(s)) && NoAdjacentWs(CollapseWs(s))
    decreases |s|
  {
    if s != [] {
      var r := CollapseWs(s);
      if Strings.IsWs(s[0]) {
        var t := Strings.DropWs(s);
        CollapseShape(t);
        CollapseHead(t);
        assert r == [' '] + CollapseWs(t);
      } else {
        CollapseShape(s[1..]);
        CollapseHead(s[1..]);
        assert r == [s[0]] + CollapseWs(s[1..]);
      }
    }
  }

  lemma {:induction false} CollapseFixes(s: string)
    requires OnlySpaces(s) && NoAdjacentWs(s)
    ensures CollapseWs(s) == s
  {
    if s != [] {
      assert OnlySpaces(s[1..]) && NoAdjacentWs(s[1..]);
      CollapseFixes(s[1..]);
      if Strings.IsWs(s[0]) {
        assert Strings.DropWs(s[1..]) == s[1..];
        assert s == [' '] + s[1..];
      } else {
        assert s == [s[0]] + s[1..];
      }
    }
  }

  lemma SliceKeepsSpacing(s: string, i: nat, j: nat)
    requires OnlySpaces(s) && NoAdjacentWs(s) && i <= j <= |s|
    ensures OnlySpaces(s[i..j]) && NoAdjacentWs(s[i..j])
  {
    var t := s[i..j];
    forall k | 0 <= k < |t| - 1 ensures !(Strings.IsWs(t[k]) && Strings.IsWs(t[k + 1])) {
      assert t[k] == s[i + k] && t[k + 1] == s[i + k + 1];
    }
  }

  lemma {:induction false} TrimKeepsSpacing(c: string)
    requires OnlySpaces(c) && NoAdjacentWs(c)
    ensures IsNormal(Trim(c))
  {
    var t := TrimLeft(c);
    var u := TrimRight(t);
    assert OnlySpaces(t) && NoAdjacentWs(t) by {
      SliceKeepsSpacing(c, |c| - |t|, |c|);
    }
    assert OnlySpaces(u) && NoAdjacentWs(u) by {
      SliceKeepsSpacing(t, 0, |u|);
    }
    assert u != [] ==> u[0] == t[0];
  }

  /** `Normalize` always produces normal text. */
  lemma NormalizeIsNormal(s: string)
    ensures IsNormal(Normalize(s))
  {
    CollapseShape(s);
    TrimKeepsSpacing(CollapseWs(s));
  }

  /** Normal text is left unchanged. */
  lemma NormalIsFixpoint(s: string)
    requires IsNormal(s)
    ensures Normalize(s) == s
  {
    CollapseFixes(s);
  }

  lemma NormalizeIdempotent(s: string)
    ensures Normalize(Normalize(s)) == Normalize(s)
  {
    NormalizeIsNormal(s);
    NormalIsFixpoint(Normalize(s));
  }

  /** The space `preg_replace` leaves for a leading whitespace run. */
  function LeadingSpace(s: string): string {
    if s != [] && Strings.IsWs(s[0]) then " " else ""
  }

  /** The space `preg_replace` leaves for a trailing whitespace run. */
  function TrailingSpace(s: string): string {
    if s != [] && Strings.IsWs(s[|s| - 1]) then " " else ""
  }

  /** A text starting with a word: collapsing gives that word, then the collapsed rest. */
  lemma {:induction false} CollapseToken(s: string)
    requires s != [] && !Strings.IsWs(s[0])
    ensures CollapseWs(s) == Strings.Token(s) + CollapseWs(s[|Strings.Token(s)|..])
    decreases |s|
  {
    var t := s[1..];
    assert CollapseWs(s) == [s[0]] + CollapseWs(t);
    assert Strings.Token(s) == [s[0]] + Strings.Token(t);
    if t != [] && !Strings.IsWs(t[0]) {
      var w := Strings.Token(t);
      assert CollapseWs(t) == w + CollapseWs(t[|w|..]) by {
        CollapseToken(t);
      }
      assert t[|w|..] == s[|w| + 1..];
      Strings.Assoc([s[0]], w, CollapseWs(t[|w|..]));
    } else {
      assert Strings.Token(t) == [];
    }
  }

  /**
   * A text that starts with a word (or is empty) collapses to its words
   * joined by single spaces, plus one space if it ends in whitespace.
   */
  lemma {:induction false} CollapseWords(s: string)
    requires s == [] || !Strings.IsWs(s[0])
    ensures CollapseWs(s) == Implode(" ", Strings.Words(s)) + TrailingSpace(s)
    decreases |s|, 1
  {
    if s != [] {
      var w := Strings.Token(s);
      var rest := s[|w|..];
      if rest == [] {
        OneWord(s);
      } else if Strings.DropWs(rest) == [] {
        WordThenBlank(s);
      } else {
        WordThenMore(s);
      }
    }
  }

  /** A text that is a single word collapses to itself. */
  lemma {:induction false} OneWord(s: string)
    requires s != [] && !Strings.IsWs(s[0]) && s[|Strings.Token(s)|..] == []
    ensures CollapseWs(s) == Implode(" ", Strings.Words(s)) + TrailingSpace(s)
  {
    var w := Strings.Token(s);
    var rest := s[|w|..];
    assert CollapseWs(s) == w + CollapseWs(rest) by {
      CollapseToken(s);
    }
    assert Strings.Words(s) == [w] + Strings.Words(rest) by {
      WordsAfterToken(s);
    }
    LastWord(s, w);
  }

  /** A word followed by whitespace only collapses to the word and one space. */
  lemma {:induction false} WordThenBlank(s: string)
    requires s != [] && !Strings.IsWs(s[0])
    requires s[|Strings.Token(s)|..] != [] && Strings.DropWs(s[|Strings.Token(s)|..]) == []
    ensures CollapseWs(s) == Implode(" ", Strings.Words(s)) + TrailingSpace(s)
  {
    var w := Strings.Token(s);
    var rest := s[|w|..];
    assert CollapseWs(s) == w + " " && Strings.Words(s) == [w] by {
      PeelBlank(s);
    }
    assert Strings.IsWs(rest[|rest| - 1]) by {
      BlankLast(rest);
    }
    BlankTail(s, w, rest);
  }

  /** Peeling a word that only whitespace follows. */
  lemma {:induction false} PeelBlank(s: string)
    requires s != [] && !Strings.IsWs(s[0])
    requires s[|Strings.Token(s)|..] != [] && Strings.DropWs(s[|Strings.Token(s)|..]) == []
    ensures CollapseWs(s) == Strings.Token(s) + " " && Strings.Words(s) == [Strings.Token(s)]
  {
    var w := Strings.Token(s);
    var r2 := Strings.DropWs(s[|w|..]);
    Peel(s);
    assert CollapseWs(r2) == [] && Strings.Words(r2) == [];
    assert " " + CollapseWs(r2) == " ";
    assert [w] + Strings.Words(r2) == [w];
  }

  /** A word, whitespace, then more words: the first word, one space, and the collapsed rest. */
  lemma {:induction false} WordThenMore(s: string)
    requires s != [] && !Strings.IsWs(s[0])
    requires s[|Strings.Token(s)|..] != [] && Strings.DropWs(s[|Strings.Token(s)|..]) != []
    ensures CollapseWs(s) == Implode(" ", Strings.Words(s)) + TrailingSpace(s)
    decreases |s|, 0
  {
    var w := Strings.Token(s);
    var rest := s[|w|..];
    var r2 := Strings.DropWs(rest);
    assert CollapseWs(s) == w + (" " + CollapseWs(r2)) && Strings.Words(s) == [w] + Strings.Words(r2) by {
      Peel(s);
    }
    var ws := Strings.Words(r2);
    assert CollapseWs(r2) == Implode(" ", ws) + TrailingSpace(r2) by {
      CollapseWords(r2);
    }
    assert TrailingSpace(r2) == TrailingSpace(s) by {
      SameLast(s, rest, r2);
    }
    assert ws != [] by {
      WordsOfBlank(r2);
    }
    JoinStep(w, ws, TrailingSpace(s));
  }

  /** Peeling the first word and the whitespace run after it. */
  lemma {:induction false} Peel(s: string)
    requires s != [] && !Strings.IsWs(s[0]) && s[|Strings.Token(s)|..] != []
    ensures var w := Strings.Token(s);
      var r2 := Strings.DropWs(s[|w|..]);
      && CollapseWs(s) == w + (" " + CollapseWs(r2))
      && Strings.Words(s) == [w] + Strings.Words(r2)
  {
    var w := Strings.Token(s);
    var rest := s[|w|..];
    assert CollapseWs(s) == w + CollapseWs(rest) by {
      CollapseToken(s);
    }
    assert Strings.Words(s) == [w] + Strings.Words(rest) by {
      WordsAfterToken(s);
    }
    CollapseRun(rest);
  }

  /** `Words` of a text starting with a word: that word, then the words of the rest. */
  lemma {:induction false} WordsAfterToken(s: string)
    requires s != [] && !Strings.IsWs(s[0])
    ensures Strings.Words(s) == [Strings.Token(s)] + Strings.Words(s[|Strings.Token(s)|..])
  {
    assert Strings.DropWs(s) == s;
    WordsCons(s);
  }

  /** A whitespace run collapses to one space and carries no word. */
  lemma {:induction false} CollapseRun(s: string)
    requires s != [] && Strings.IsWs(s[0])
    ensures CollapseWs(s) == " " + CollapseWs(Strings.DropWs(s))
    ensures Strings.Words(s) == Strings.Words(Strings.DropWs(s))
  {
    DropWsOfDropped(s);
  }

  /** A text that is one word: its words are that word, and it ends in no whitespace. */
  lemma {:induction false} LastWord(s: string, w: string)
    requires s != [] && w == Strings.Token(s) && s[|w|..] == []
    ensures Strings.Words(s[|w|..]) == [] && CollapseWs(s[|w|..]) == []
    ensures Implode(" ", [w] + Strings.Words(s[|w|..])) + TrailingSpace(s) == w + CollapseWs(s[|w|..])
  {
    assert s == w;
    assert !Strings.IsWs(s[|s| - 1]);
    assert [w] + [] == [w];
  }

  /** A word followed by whitespace only: the text collapses to the word and one space. */
  lemma {:induction false} BlankTail(s: string, w: string, rest: string)
    requires w != [] && |w| <= |s| && rest == s[|w|..] && rest != [] && Strings.IsWs(rest[|rest| - 1])
    ensures Implode(" ", [w]) + TrailingSpace(s) == w + " "
  {
    assert Implode(" ", [w]) == w;
    assert s[|s| - 1] == rest[|rest| - 1];
    assert TrailingSpace(s) == " ";
  }

  /** A text that `\s*` consumes whole ends in whitespace. */
  lemma {:induction false} BlankLast(s: string)
    requires s != [] && Strings.DropWs(s) == []
    ensures Strings.IsWs(s[|s| - 1])
  {
  }

  /** The last character of a text is that of any non-empty suffix. */
  lemma {:induction false} SameLast(s: string, rest: string, r2: string)
    requires |s| >= |rest| && rest == s[|s| - |rest|..]
    requires |rest| >= |r2| && r2 == rest[|rest| - |r2|..] && r2 != []
    ensures TrailingSpace(r2) == TrailingSpace(s)
  {
    assert r2[|r2| - 1] == s[|s| - 1];
  }

  /** Joining a word in front of a non-empty list of words. */
  lemma JoinStep(w: string, ws: seq<string>, t: string)
    requires ws != []
    ensures Implode(" ", [w] + ws) + t == w + (" " + (Implode(" ", ws) + t))
  {
    assert ([w] + ws)[0] == w && ([w] + ws)[1..] == ws;
    Strings.Assoc(w, " " + Implode(" ", ws), t);
    Strings.Assoc(w, " ", Implode(" ", ws));
    Strings.Assoc(" ", Implode(" ", ws), t);
  }

  /** Any text collapses to its words joined by single spaces, with one space for a leading or trailing run. */
  lemma {:induction false} CollapseMeaning(s: string)
    ensures CollapseWs(s) ==
      LeadingSpace(s) + Implode(" ", Strings.Words(s)) + TrailingSpace(Strings.DropWs(s))
  {
    if s != [] && Strings.IsWs(s[0]) {
      CollapseAfterRun(s);
    } else {
      CollapseNoRun(s);
    }
  }

  lemma {:induction false} CollapseNoRun(s: string)
    requires s == [] || !Strings.IsWs(s[0])
    ensures CollapseWs(s) ==
      LeadingSpace(s) + Implode(" ", Strings.Words(s)) + TrailingSpace(Strings.DropWs(s))
  {
    assert Strings.DropWs(s) == s && LeadingSpace(s) == "";
    CollapseWords(s);
    assert LeadingSpace(s) + Implode(" ", Strings.Words(s)) == Implode(" ", Strings.Words(s));
  }

  lemma {:induction false} CollapseAfterRun(s: string)
    requires s != [] && Strings.IsWs(s[0])
    ensures CollapseWs(s) ==
      LeadingSpace(s) + Implode(" ", Strings.Words(s)) + TrailingSpace(Strings.DropWs(s))
  {
    var d := Strings.DropWs(s);
    var j := Implode(" ", Strings.Words(d));
    assert CollapseWs(s) == " " + CollapseWs(d) && Strings.Words(s) == Strings.Words(d) by {
      CollapseRun(s);
    }
    assert CollapseWs(d) == j + TrailingSpace(d) by {
      CollapseWords(d);
    }
    assert LeadingSpace(s) == " ";
    Strings.Assoc(" ", j, TrailingSpace(d));
  }

  /** `trim` removes a leading space along with the rest of the leading run. */
  lemma {:induction false} TrimLeadingSpace(x: string)
    ensures Trim(" " + x) == Trim(x)
  {
    assert (" " + x)[1..] == x;
  }

  lemma {:induction false} TrimLeftAppend(x: string, y: string)
    ensures TrimLeft(x + y) == if TrimLeft(x) == [] then TrimLeft(y) else TrimLeft(x) + y
  {
    if x == [] {
      assert x + y == y;
    } else {
      assert (x + y)[0] == x[0];
      if IsTrimChar(x[0]) {
        assert (x + y)[1..] == x[1..] + y;
        TrimLeftAppend(x[1..], y);
      }
    }
  }

  /** `trim` removes a trailing space along with the rest of the trailing run. */
  lemma {:induction false} TrimTrailingSpace(x: string)
    ensures Trim(x + " ") == Trim(x)
  {
    TrimLeftAppend(x, " ");
    var z := TrimLeft(x);
    if z != [] {
      assert (z + " ")[..|z|] == z;
    }
  }

  /** `trim` ignores a space added at either end. */
  lemma {:induction false} TrimAround(l: string, j: string, t: string)
    requires l == "" || l == " "
    requires t == "" || t == " "
    ensures Trim(l + j + t) == Trim(j)
  {
    var jt := j + t;
    assert Trim(jt) == Trim(j) by {
      TrimRightEnd(j, t);
    }
    assert l + j + t == l + jt by {
      Strings.Assoc(l, j, t);
    }
    TrimLeftEnd(l, jt);
  }

  lemma {:induction false} TrimRightEnd(j: string, t: string)
    requires t == "" || t == " "
    ensures Trim(j + t) == Trim(j)
  {
    if t == " " {
      TrimTrailingSpace(j);
    } else {
      assert j + t == j;
    }
  }

  lemma {:induction false} TrimLeftEnd(l: string, j: string)
    requires l == "" || l == " "
    ensures Trim(l + j) == Trim(j)
  {
    if l == " " {
      TrimLeadingSpace(j);
    } else {
      assert l + j == j;
    }
  }

  /**
   * What normalization means: the text's `\s`-separated words, joined by
   * single spaces, with `trim`'s characters stripped from the ends.
   */
  lemma {:induction false} NormalizeMeaning(s: string)
    ensures Normalize(s) == Trim(Implode(" ", Strings.Words(s)))
  {
    CollapseMeaning(s);
    TrimAround(LeadingSpace(s), Implode(" ", Strings.Words(s)), TrailingSpace(Strings.DropWs(s)));
  }

  // ---------------------------------------------------------------- manual page kinds

  datatype PageKind = Book | Class | Function

  function KindName(k: PageKind): string {
    match k
    case Book => "book"
    case Class => "class"
    case Function => "function"
  }

  predicate NoDot(s: string) {
    forall i :: 0 <= i < |s| ==> s[i] != '.'
  }

  /** `t` is exactly `/<kind>.<name>.php` with a non-empty, dot-free name. */
  predicate IsPageSuffix(t: string, k: PageKind) {
    var n := KindName(k);
    && |t| >= |n| + 7
    && t[0] == '/' && t[1..|n| + 1] == n && t[|n| + 1] == '.'
    && t[|t| - 4..] == ".php"
    && NoDot(t[|n| + 2..|t| - 4])
  }

  /** The kind whose alternative of the group matches all of `t`, trying them in the regex's order. */
  function PageAt(t: string): Option<PageKind> {
    if IsPageSuffix(t, Book) then Some(Book)
    else if IsPageSuffix(t, Class) then Some(Class)
    else if IsPageSuffix(t, Function) then Some(Function)
    else None
  }

  /** The leftmost start position from `i` on where the pattern matches up to the end of `b`. */
  function SearchFrom(b: string, i: nat): Option<PageKind>
    requires i <= |b|
    decreases |b| - i
  {
    if PageAt(b[i..]).Some? then PageAt(b[i..])
    else if i == |b| then None
    else SearchFrom(b, i + 1)
  }

  /** `preg_match('#/(book|class|function)\.[^.]+\.php$#', url)` and its first group. */
  function PageOfUrl(url: string): Option<PageKind> {
    SearchFrom(Strings.StripFinalNewline(url), 0)
  }

  /** The declarative reading of that regex: some suffix of the URL, less at most one final newline, has the shape. */
  ghost predicate EndsWithPage(url: string, k: PageKind) {
    exists i :: 0 <= i <= |url| &&
      (IsPageSuffix(url[i..], k) || (i < |url| && url[|url| - 1] == '\n' && IsPageSuffix(url[i..|url| - 1], k)))
  }

  lemma PageAtExact(t: string, k: PageKind)
    ensures PageAt(t) == Some(k) <==> IsPageSuffix(t, k)
  {
    if IsPageSuffix(t, k) {
      assert t[1] == KindName(k)[0];
    }
  }

  /** The position of the last `.` before index `e` of `b`. */
  function LastDot(b: string, e: nat): Option<nat>
    requires e <= |b|
  {
    if e == 0 then None else if b[e - 1] == '.' then Some(e - 1) else LastDot(b, e - 1)
  }

  /** Which kind name, preceded by `/`, ends at index `p` of `b`. */
  function KindBefore(b: string, p: nat): Option<PageKind>
    requires p <= |b|
  {
    if p >= 5 && b[p - 5..p] == "/book" then Some(Book)
    else if p >= 6 && b[p - 6..p] == "/class" then Some(Class)
    else if p >= 9 && b[p - 9..p] == "/function" then Some(Function)
    else None
  }

  lemma {:induction false} LastDotIs(b: string, m: nat, e: nat)
    requires m < e <= |b| && b[m] == '.'
    requires forall x :: m < x < e ==> b[x] != '.'
    ensures LastDot(b, e) == Some(m)
    decreases e
  {
    if e - 1 != m {
      LastDotIs(b, m, e - 1);
    }
  }

  lemma PageSuffixDot(b: string, i: nat, k: PageKind)
    requires i <= |b| && IsPageSuffix(b[i..], k)
    ensures LastDot(b, |b| - 4) == Some(i + |KindName(k)| + 1)
  {
    var n := KindName(k);
    var t := b[i..];
    var p := i + |n| + 1;
    assert b[p] == t[|n| + 1];
    var mid := t[|n| + 2..|t| - 4];
    assert NoDot(mid);
    forall x | p < x < |b| - 4 ensures b[x] != '.' {
      assert b[x] == mid[x - p - 1];
    }
    LastDotIs(b, p, |b| - 4);
  }

  lemma PageSuffixKind(b: string, i: nat, k: PageKind)
    requires i <= |b| && IsPageSuffix(b[i..], k)
    ensures KindBefore(b, i + |KindName(k)| + 1) == Some(k)
  {
    var n := KindName(k);
    var p := i + |n| + 1;
    var w := b[i..p];
    assert w == "/" + n by {
      assert w == [b[i..][0]] + b[i..][1..|n| + 1];
    }
    match k
    case Book =>
    case Class =>
      assert b[p - 5..p] == w[1..];
    case Function =>
      assert b[p - 5..p][0] == w[4] == 'c';
      assert b[p - 6..p][0] == w[3] == 'n';
      assert b[p - 9..p] == w;
  }

  /** A match of the shape is pinned down by the last dot before `.php` and the name before that dot. */
  lemma PageSuffixAnchor(b: string, i: nat, k: PageKind)
    requires i <= |b| && IsPageSuffix(b[i..], k)
    ensures LastDot(b, |b| - 4) == Some(i + |KindName(k)| + 1)
    ensures KindBefore(b, i + |KindName(k)| + 1) == Some(k)
  {
    PageSuffixDot(b, i, k);
    PageSuffixKind(b, i, k);
  }

  /** Two matches of the shape within one string start at the same place and name the same kind. */
  lemma PageSuffixUnique(b: string, i: nat, j: nat, k: PageKind, k': PageKind)
    requires i <= |b| && j <= |b| && IsPageSuffix(b[i..], k) && IsPageSuffix(b[j..], k')
    ensures i == j && k == k'
  {
    PageSuffixAnchor(b, i, k);
    PageSuffixAnchor(b, j, k');
  }

  lemma {:induction false} SearchFromSound(b: string, i: nat)
    requires i <= |b|
    ensures SearchFrom(b, i).Some? ==> exists j :: i <= j <= |b| && PageAt(b[j..]) == SearchFrom(b, i)
    decreases |b| - i
  {
    if PageAt(b[i..]).None? && i < |b| {
      SearchFromSound(b, i + 1);
    }
  }

  lemma {:induction false} SearchFromComplete(b: string, i: nat, j: nat)
    requires i <= j <= |b| && PageAt(b[j..]).Some?
    ensures SearchFrom(b, i).Some?
    decreases j - i
  {
    if PageAt(b[i..]).None? {
      SearchFromComplete(b, i + 1, j);
    }
  }

  lemma EndsWithPageAt(url: string, k: PageKind, j: nat)
    requires j <= |Strings.StripFinalNewline(url)| && IsPageSuffix(Strings.StripFinalNewline(url)[j..], k)
    ensures EndsWithPage(url, k)
  {
    var t := Strings.StripFinalNewline(url)[j..];
    if url != [] && url[|url| - 1] == '\n' {
      assert t == url[j..|url| - 1];
      assert 0 <= j <= |url| &&
        (IsPageSuffix(url[j..], k) || (j < |url| && url[|url| - 1] == '\n' && IsPageSuffix(url[j..|url| - 1], k)));
    } else {
      assert t == url[j..];
    }
  }

  lemma PageOfUrlSound(url: string, k: PageKind)
    requires PageOfUrl(url) == Some(k)
    ensures EndsWithPage(url, k)
  {
    var b := Strings.StripFinalNewline(url);
    SearchFromSound(b, 0);
    var j :| 0 <= j <= |b| && PageAt(b[j..]) == Some(k);
    PageAtExact(b[j..], k);
    EndsWithPageAt(url, k, j);
  }

  lemma PageOfUrlComplete(url: string, k: PageKind, i: nat)
    requires i <= |url|
    requires IsPageSuffix(url[i..], k) || (i < |url| && url[|url| - 1] == '\n' && IsPageSuffix(url[i..|url| - 1], k))
    ensures PageOfUrl(url) == Some(k)
  {
    var b := Strings.StripFinalNewline(url);
    if IsPageSuffix(url[i..], k) {
      assert url[|url| - 1] == url[i..][|url[i..]| - 1] == 'p';
      assert b == url;
    } else {
      assert b == url[..|url| - 1] && url[i..|url| - 1] == b[i..];
    }
    assert IsPageSuffix(b[i..], k);
    PageAtExact(b[i..], k);
    SearchFromComplete(b, 0, i);
    SearchFromSound(b, 0);
    var j :| 0 <= j <= |b| && PageAt(b[j..]) == SearchFrom(b, 0);
    var k' := SearchFrom(b, 0).value;
    PageAtExact(b[j..], k');
    PageSuffixUnique(b, i, j, k, k');
  }

  /** The constructive search agrees with the declarative reading, in both directions. */
  lemma PageOfUrlMeaning(url: string, k: PageKind)
    ensures PageOfUrl(url) == Some(k) <==> EndsWithPage(url, k)
  {
    if PageOfUrl(url) == Some(k) {
      PageOfUrlSound(url, k);
    }
    if EndsWithPage(url, k) {
      var i :| 0 <= i <= |url| &&
        (IsPageSuffix(url[i..], k) || (i < |url| && url[|url| - 1] == '\n' && IsPageSuffix(url[i..|url| - 1], k)));
      PageOfUrlComplete(url, k, i);
    }
  }

  // ---------------------------------------------------------------- page details

  datatype Doc = Doc(h1: Option<string>, h2: Option<string>, para: Option<string>, dcTitle: Option<string>)

  /** The symbol and description a reply shows. */
  datatype Details = Details(symbol: string, description: string)

  /** The page is not in a shape the plugin understands. */
  datatype NoComprende = NoComprende(reason: string)

  /** Pages such as control-structures.foreach.php: the `h2` names the symbol. */
  function PageDetailsFromH2(doc: Doc): (r: Result<Details, NoComprende>)
    ensures r.Err? <==> doc.h2.None?
    ensures r.Err? ==> r.error == NoComprende("No h2 elements in HTML")
    ensures r.Ok? ==> r.value.symbol == Normalize(doc.h2.value)
    ensures r.Ok? ==> r.value.description == (if doc.para.Some? then Normalize(doc.para.value) else r.value.symbol)
    ensures r.Ok? ==> IsNormal(r.value.symbol) && IsNormal(r.value.description)
  {
    match doc.h2
    case None => Err(NoComprende("No h2 elements in HTML"))
    case Some(h2) =>
      var symbol := Normalize(h2);
      NormalizeIsNormal(h2);
      var description := if doc.para.Some? then Normalize(doc.para.value) else symbol;
      NormalizeIsNormal(doc.para.GetOr(""));
      Ok(Details(symbol, description))
  }

  /** Appending text that keeps the spacing rules and ends in a non-trimmed character keeps text normal. */
  lemma AppendKeepsNormal(s: string, tail: string)
    requires IsNormal(s) && s != []
    requires OnlySpaces(tail) && NoAdjacentWs(tail) && tail != [] && !IsTrimChar(tail[|tail| - 1])
    ensures IsNormal(s + tail)
  {
    var r := s + tail;
    forall i | 0 <= i < |r| - 1 ensures !(Strings.IsWs(r[i]) && Strings.IsWs(r[i + 1])) {
      if i < |s| - 1 {
        assert r[i] == s[i] && r[i + 1] == s[i + 1];
      } else if i >= |s| {
        assert r[i] == tail[i - |s|] && r[i + 1] == tail[i - |s| + 1];
      } else {
        assert r[i] == s[|s| - 1];
      }
    }
  }

  lemma FunctionNameNormal(title: string)
    requires IsNormal(title)
    ensures IsNormal(title + "()") && IsNormal(title + "()" + " function")
  {
    if title == [] {
      assert title + "()" == "()";
    } else {
      AppendKeepsNormal(title, "()");
    }
    AppendKeepsNormal(title + "()", " function");
  }

  /** Function pages: the `h1` is the name, shown with `()`. */
  function FunctionDetails(doc: Doc): (r: Result<Details, NoComprende>)
    ensures r.Err? <==> doc.h1.None?
    ensures r.Err? ==> r.error == NoComprende("No h1 elements in HTML")
    ensures r.Ok? ==> r.value.symbol == Normalize(doc.h1.value) + "()"
    ensures r.Ok? && doc.dcTitle.Some? ==> r.value.description == Normalize(doc.dcTitle.value)
    ensures r.Ok? && doc.dcTitle.None? ==> r.value.description == r.value.symbol + " function"
    ensures r.Ok? ==> IsNormal(r.value.symbol) && IsNormal(r.value.description)
  {
    match doc.h1
    case None => Err(NoComprende("No h1 elements in HTML"))
    case Some(h1) =>
      var name := Normalize(h1) + "()";
      NormalizeIsNormal(h1);
      FunctionNameNormal(Normalize(h1));
      match doc.dcTitle
      case None => Ok(Details(name, name + " function"))
      case Some(dcTitle) =>
        NormalizeIsNormal(dcTitle);
        Ok(Details(name, Normalize(dcTitle)))
  }

  lemma BookTitleNormal(title: string)
    requires IsNormal(title)
    ensures title != [] ==> IsNormal(title + " book")
  {
    if title != [] {
      AppendKeepsNormal(title, " book");
    }
  }

  /** Book pages: the `h1` is the title; an empty title gives the description " book". */
  function BookDetails(doc: Doc): (r: Result<Details, NoComprende>)
    ensures r.Err? <==> doc.h1.None?
    ensures r.Err? ==> r.error == NoComprende("No h1 elements in HTML")
    ensures r.Ok? ==> r.value == Details(Normalize(doc.h1.value), Normalize(doc.h1.value) + " book")
    ensures r.Ok? ==> IsNormal(r.value.symbol) && (r.value.symbol != [] ==> IsNormal(r.value.description))
  {
    match doc.h1
    case None => Err(NoComprende("No h1 elements in HTML"))
    case Some(h1) =>
      var title := Normalize(h1);
      NormalizeIsNormal(h1);
      BookTitleNormal(title);
      Ok(Details(title, title + " book"))
  }

  /** `s` begins with `keyword` in any ASCII letter case. */
  predicate StartsWithKeyword(s: string, keyword: string) {
    |s| >= |keyword| && Strings.LowerAscii(s[..|keyword|]) == keyword
  }

  /** `\s+class\s*$/i`, applied where the preceding word ended. */
  predicate ClassTail(d: string) {
    var e := Strings.DropWs(d);
    StartsWithKeyword(e, "class") && Strings.DropWs(e[5..]) == []
  }

  /** `\s+(\S+)\s+class\s*$/i` and its group, applied after `the`. */
  function MatchAfterThe(b: string): (r: Option<string>)
    ensures r.Some? ==> r.value != [] && Strings.NoWs(r.value)
  {
    var c := Strings.DropWs(b);
    var x := Strings.Token(c);
    // Token is maximal, so what follows a non-empty x starts with whitespace.
    var d := c[|x|..];
    if x == [] || d == [] || !ClassTail(d) then None else Some(x)
  }

  /** `preg_match('/^\s*the\s+(\S+)\s+class\s*$/i', title)` and its group. */
  function ClassTitleMatch(t: string): (r: Option<string>)
    ensures r.Some? ==> r.value != [] && Strings.NoWs(r.value)
  {
    var a := Strings.DropWs(t);
    if |a| < 4 || !StartsWithKeyword(a, "the") || !Strings.IsWs(a[3]) then None
    else MatchAfterThe(a[3..])
  }

  lemma WordsOfBlank(s: string)
    ensures Strings.Words(s) == [] <==> Strings.DropWs(s) == []
  {
  }

  lemma DropWsOfDropped(s: string)
    ensures Strings.DropWs(Strings.DropWs(s)) == Strings.DropWs(s)
  {
  }

  /** Case folding maps no letter to whitespace, so a folded keyword has no whitespace either. */
  lemma FoldedKeywordHasNoWs(s: string, keyword: string)
    requires Strings.LowerAscii(s) == keyword && Strings.NoWs(keyword)
    ensures Strings.NoWs(s)
  {
    forall i | 0 <= i < |s| ensures !Strings.IsWs(s[i]) {
      assert Strings.LowerAscii(s)[i] == keyword[i];
    }
  }

  lemma KeywordsHaveNoWs()
    ensures Strings.NoWs("the") && Strings.NoWs("class")
  {
  }

  /** A keyword followed by a word break is exactly a first word that folds to the keyword. */
  lemma KeywordIsToken(a: string, keyword: string)
    requires Strings.NoWs(keyword)
    ensures (StartsWithKeyword(a, keyword) && (|a| == |keyword| || Strings.IsWs(a[|keyword|])))
      <==> Strings.LowerAscii(Strings.Token(a)) == keyword
  {
    var w := Strings.Token(a);
    if StartsWithKeyword(a, keyword) && (|a| == |keyword| || Strings.IsWs(a[|keyword|])) {
      FoldedKeywordHasNoWs(a[..|keyword|], keyword);
      Strings.TokenOfPrefix(a, |keyword|);
    }
    if Strings.LowerAscii(w) == keyword {
      assert w == a[..|keyword|];
    }
  }

  /** Unfolding `Words` once at a non-blank string. */
  lemma WordsCons(s: string)
    requires Strings.DropWs(s) != []
    ensures Strings.Words(s) ==
      [Strings.Token(Strings.DropWs(s))] + Strings.Words(Strings.DropWs(s)[|Strings.Token(Strings.DropWs(s))|..])
  {
  }

  lemma ClassTailSound(d: string)
    requires ClassTail(d)
    ensures Strings.Words(d) == [Strings.Token(Strings.DropWs(d))]
    ensures Strings.LowerAscii(Strings.Token(Strings.DropWs(d))) == "class"
  {
    var e := Strings.DropWs(d);
    var rest := e[5..];
    assert |e| == 5 || Strings.IsWs(e[5]) by {
      if |e| > 5 {
        assert Strings.IsWs(rest[0]);
      }
    }
    var w := Strings.Token(e);
    assert Strings.LowerAscii(w) == "class" by {
      KeywordsHaveNoWs();
      KeywordIsToken(e, "class");
    }
    assert |w| == 5;
    assert Strings.Words(d) == [w] + Strings.Words(rest) by {
      WordsCons(d);
    }
    assert Strings.Words(rest) == [] by {
      WordsOfBlank(rest);
    }
  }

  lemma ClassTailComplete(d: string)
    requires |Strings.Words(d)| == 1 && Strings.LowerAscii(Strings.Words(d)[0]) == "class"
    ensures ClassTail(d)
  {
    var e := Strings.DropWs(d);
    WordsOfBlank(d);
    WordsCons(d);
    var w := Strings.Token(e);
    assert w == Strings.Words(d)[0];
    assert |w| == 5;
    WordsOfBlank(e[5..]);
    KeywordIsToken(e, "class");
  }

  lemma MatchAfterTheParts(b: string, x: string)
    requires MatchAfterThe(b) == Some(x)
    ensures x != [] && x == Strings.Token(Strings.DropWs(b)) && ClassTail(Strings.DropWs(b)[|x|..])
  {
  }

  lemma MatchAfterTheSound(b: string, x: string)
    requires x != [] && x == Strings.Token(Strings.DropWs(b)) && ClassTail(Strings.DropWs(b)[|x|..])
    ensures |Strings.Words(b)| == 2 && Strings.Words(b)[0] == x && Strings.LowerAscii(Strings.Words(b)[1]) == "class"
  {
    var d := Strings.DropWs(b)[|x|..];
    assert Strings.Words(b) == [x] + Strings.Words(d) by {
      WordsCons(b);
    }
    var w3 := Strings.Token(Strings.DropWs(d));
    assert Strings.Words(d) == [w3] && Strings.LowerAscii(w3) == "class" by {
      ClassTailSound(d);
    }
    ConsTwo(Strings.Words(b), x, Strings.Words(d));
  }

  lemma ConsTwo(w: seq<string>, head: string, rest: seq<string>)
    requires w == [head] + rest && |rest| == 1
    ensures |w| == 2 && w[0] == head && w[1] == rest[0]
  {
  }

  lemma MatchAfterTheComplete(b: string, x: string)
    requires |Strings.Words(b)| == 2 && Strings.Words(b)[0] == x && Strings.LowerAscii(Strings.Words(b)[1]) == "class"
    ensures MatchAfterThe(b) == Some(x)
  {
    var c := Strings.DropWs(b);
    WordsOfBlank(b);
    WordsCons(b);
    var w := Strings.Token(c);
    var d := c[|w|..];
    assert w == x && w != [];
    assert Strings.Words(d) == Strings.Words(b)[1..];
    WordsOfBlank(d);
    ClassTailComplete(d);
  }

  lemma ClassTitleMatchParts(t: string, x: string)
    requires ClassTitleMatch(t) == Some(x)
    ensures var a := Strings.DropWs(t);
      |a| >= 4 && StartsWithKeyword(a, "the") && Strings.IsWs(a[3]) && MatchAfterThe(a[3..]) == Some(x)
  {
  }

  lemma ClassTitleMatchSound(t: string, x: string)
    requires var a := Strings.DropWs(t);
      |a| >= 4 && StartsWithKeyword(a, "the") && Strings.IsWs(a[3]) && MatchAfterThe(a[3..]) == Some(x)
    ensures var w := Strings.Words(t);
      |w| == 3 && Strings.LowerAscii(w[0]) == "the" && w[1] == x && Strings.LowerAscii(w[2]) == "class"
  {
    var a := Strings.DropWs(t);
    assert Strings.LowerAscii(Strings.Token(a)) == "the" by {
      KeywordsHaveNoWs();
      KeywordIsToken(a, "the");
    }
    assert Strings.Words(t) == [Strings.Token(a)] + Strings.Words(a[3..]) by {
      WordsCons(t);
    }
    MatchAfterTheParts(a[3..], x);
    MatchAfterTheSound(a[3..], x);
    ConsThree(Strings.Words(t), Strings.Token(a), Strings.Words(a[3..]));
  }

  lemma ConsThree(w: seq<string>, head: string, rest: seq<string>)
    requires w == [head] + rest && |rest| == 2
    ensures |w| == 3 && w[0] == head && w[1] == rest[0] && w[2] == rest[1]
  {
  }

  lemma ClassTitleMatchComplete(t: string, x: string)
    requires var w := Strings.Words(t);
      |w| == 3 && Strings.LowerAscii(w[0]) == "the" && w[1] == x && Strings.LowerAscii(w[2]) == "class"
    ensures ClassTitleMatch(t) == Some(x)
  {
    var a := Strings.DropWs(t);
    WordsOfBlank(t);
    WordsCons(t);
    var w := Strings.Token(a);
    assert Strings.LowerAscii(w) == "the" && |w| == 3;
    KeywordsHaveNoWs();
    KeywordIsToken(a, "the");
    var b := a[3..];
    assert Strings.Words(b) == Strings.Words(t)[1..];
    WordsOfBlank(b);
    MatchAfterTheComplete(b, x);
  }

  /**
   * The title regex matches exactly the titles made of three words, the
   * first `the` and the last `class` in any letter case; the group is the
   * middle word.
   */
  lemma ClassTitleMatchMeaning(t: string, x: string)
    ensures ClassTitleMatch(t) == Some(x) <==>
      var w := Strings.Words(t);
      |w| == 3 && Strings.LowerAscii(w[0]) == "the" && w[1] == x && Strings.LowerAscii(w[2]) == "class"
  {
    if ClassTitleMatch(t) == Some(x) {
      ClassTitleMatchParts(t, x);
      ClassTitleMatchSound(t, x);
    }
    var w := Strings.Words(t);
    if |w| == 3 && Strings.LowerAscii(w[0]) == "the" && w[1] == x && Strings.LowerAscii(w[2]) == "class" {
      ClassTitleMatchComplete(t, x);
    }
  }

  /** Class pages: "The X class" titles give the symbol X, other titles are shown whole. */
  function ClassDetails(doc: Doc): (r: Result<Details, NoComprende>)
    ensures r.Err? <==> doc.h1.None?
    ensures r.Err? ==> r.error == NoComprende("No h1 elements in HTML")
    ensures r.Ok? ==> r.value.symbol == ClassTitleMatch(Normalize(doc.h1.value)).GetOr(Normalize(doc.h1.value))
    ensures r.Ok? && doc.para.Some? ==> r.value.description == Normalize(doc.para.value)
    ensures r.Ok? && doc.para.None? ==> r.value.description == Normalize(doc.h1.value)
    ensures r.Ok? ==> IsNormal(r.value.description)
    ensures r.Ok? && ClassTitleMatch(Normalize(doc.h1.value)).Some? ==> r.value.symbol != [] && Strings.NoWs(r.value.symbol)
  {
    match doc.h1
    case None => Err(NoComprende("No h1 elements in HTML"))
    case Some(h1) =>
      var title := Normalize(h1);
      NormalizeIsNormal(h1);
      var symbol := ClassTitleMatch(title).GetOr(title);
      match doc.para
      case None => Ok(Details(symbol, title))
      case Some(para) =>
        NormalizeIsNormal(para);
        Ok(Details(symbol, Normalize(para)))
  }

  // ---------------------------------------------------------------- reply

  /** The builder chosen by the URL's page kind. */
  function DetailsFor(url: string, doc: Doc): Result<Details, NoComprende> {
    match PageOfUrl(url)
    case Some(Book) => BookDetails(doc)
    case Some(Class) => ClassDetails(doc)
    case Some(Function) => FunctionDetails(doc)
    case None => PageDetailsFromH2(doc)
  }

  function MatchReply(url: string, d: Details): string {
    "[ [`" + d.symbol + "`](" + url + ") ] " + d.description
  }

  function NotUnderstoodReply(url: string): string {
    "That [manual page](" + url + ") seems to be in a format I don't understand"
  }

  /** `getMessageFromMatch` once the page is fetched: the formatted details, or the apology. */
  function MessageFromMatch(url: string, doc: Doc): (reply: string)
    ensures DetailsFor(url, doc).Ok? ==> reply == MatchReply(url, DetailsFor(url, doc).value)
    ensures DetailsFor(url, doc).Err? ==> reply == NotUnderstoodReply(url)
  {
    match DetailsFor(url, doc)
    case Ok(d) => MatchReply(url, d)
    case Err(_) => NotUnderstoodReply(url)
  }

  /** The heading the URL's builder needs: `h1` for book, class and function pages, `h2` otherwise. */
  predicate HeadingMissing(url: string, doc: Doc) {
    if PageOfUrl(url).Some? then doc.h1.None? else doc.h2.None?
  }

  /** The apology is given exactly when the needed heading is missing. */
  lemma NotUnderstoodExactly(url: string, doc: Doc)
    ensures MessageFromMatch(url, doc) == NotUnderstoodReply(url) <==> HeadingMissing(url, doc)
  {
    var r := MessageFromMatch(url, doc);
    if DetailsFor(url, doc).Ok? {
      assert r[0] == '[' && NotUnderstoodReply(url)[0] == 'T';
    }
  }
}
