/** `_normalize_string`: the scanner that prepares a schema definition for parsing. */
module SchemaText {
  import opened Wrappers

  /** What `str.strip` removes at both ends. */
  predicate Space(c: char) {
    var k := c as int;
    9 <= k <= 13 || 28 <= k <= 32 || k == 0x85 || k == 0xA0 || k == 0x1680 || 0x2000 <= k <= 0x200A ||
    k == 0x2028 || k == 0x2029 || k == 0x202F || k == 0x205F || k == 0x3000
  }

  function StripLeft(s: string): string {
    if s != "" && Space(s[0]) then StripLeft(s[1..]) else s
  }

  function StripRight(s: string): string {
    if s != "" && Space(s[|s| - 1]) then StripRight(s[..|s| - 1]) else s
  }

  function Strip(s: string): string { StripRight(StripLeft(s)) }

  predicate Trimmed(s: string) { s != "" ==> !Space(s[0]) && !Space(s[|s| - 1]) }

  lemma {:induction false} StripLeftTrims(s: string)
    ensures StripLeft(s) != "" ==> !Space(StripLeft(s)[0])
  {
    if s != "" && Space(s[0]) { StripLeftTrims(s[1..]); }
  }

  lemma {:induction false} StripRightTrims(s: string)
    requires s != "" ==> !Space(s[0])
    ensures Trimmed(StripRight(s))
  {
    if s != "" && Space(s[|s| - 1]) { StripRightTrims(s[..|s| - 1]); }
  }

  lemma StripTrims(s: string)
    ensures Trimmed(Strip(s))
    ensures Trimmed(s) ==> Strip(s) == s
  {
    StripLeftTrims(s);
    StripRightTrims(StripLeft(s));
  }

  /** The white space of `str.strip`, character by character. */
  lemma SpaceListed(c: char)
    ensures Space(c) <==> (c as int) in {
      0x09, 0x0A, 0x0B, 0x0C, 0x0D, 0x1C, 0x1D, 0x1E, 0x1F, 0x20, 0x85, 0xA0, 0x1680,
      0x2000, 0x2001, 0x2002, 0x2003, 0x2004, 0x2005, 0x2006, 0x2007, 0x2008, 0x2009, 0x200A,
      0x2028, 0x2029, 0x202F, 0x205F, 0x3000}
  {}

  predicate AllSpace(s: string) { forall c :: c in s ==> Space(c) }

  /** Only white space is stripped: before the text kept and after it. */
  lemma StripsSpace(s: string) returns (a: string, b: string)
    ensures s == a + Strip(s) + b && AllSpace(a) && AllSpace(b)
  {
    var left := StripLeft(s);
    a := StripsLeft(s);
    b := StripsRight(left);
    assert s == a + (Strip(s) + b);
  }

  lemma {:induction false} StripsLeft(s: string) returns (a: string)
    ensures s == a + StripLeft(s) && AllSpace(a)
  {
    a := "";
    if s != "" && Space(s[0]) {
      var more := StripsLeft(s[1..]);
      a := [s[0]] + more;
      assert s == [s[0]] + s[1..];
    }
  }

  lemma {:induction false} StripsRight(s: string) returns (b: string)
    ensures s == StripRight(s) + b && AllSpace(b)
  {
    b := "";
    if s != "" && Space(s[|s| - 1]) {
      var more := StripsRight(s[..|s| - 1]);
      b := more + [s[|s| - 1]];
      assert s == s[..|s| - 1] + [s[|s| - 1]];
    }
  }

  /** All white space is stripped, so there is no other answer. */
  lemma StripIs(a: string, m: string, b: string)
    requires AllSpace(a) && AllSpace(b) && Trimmed(m)
    ensures Strip(a + m + b) == m
  {
    SkipLeft(a, m + b);
    assert a + (m + b) == a + m + b;
    if m == "" {
      SkipLeft(b, "");
      assert b + "" == b && m + b == b;
    } else {
      assert StripLeft(m + b) == m + b;
      SkipRight(m, b);
    }
  }

  lemma {:induction false} SkipLeft(a: string, s: string)
    requires AllSpace(a)
    ensures StripLeft(a + s) == StripLeft(s)
  {
    if a == "" {
      assert a + s == s;
    } else {
      assert (a + s)[1..] == a[1..] + s;
      SkipLeft(a[1..], s);
    }
  }

  lemma {:induction false} SkipRight(s: string, b: string)
    requires AllSpace(b) && s != "" && !Space(s[|s| - 1])
    ensures StripRight(s + b) == s
  {
    if b == "" {
      assert s + b == s;
    } else {
      var front := b[..|b| - 1];
      assert (s + b)[..|s + b| - 1] == s + front;
      SkipRight(s, front);
    }
  }

  /** The scanner's flags; `quote` is the source's `string_char`. */
  datatype Flags = Flags(inComment: bool, inString: bool, quote: Option<char>)

  const START := Flags(false, false, None)

  /** The flags once `c` has been looked at. */
  function Look(f: Flags, c: char): Flags {
    var g := if c == '#' then f.(inComment := true) else if c == '\n' then f.(inComment := false) else f;
    if c == '"' || c == '\'' then
      if g.inString && g.quote == Some(c) then g.(inString := false)
      else if !g.inString then g.(inString := true, quote := Some(c))
      else g
    else g
  }

  predicate Blank(c: char) { c == ' ' || c == '\t' }

  /** Whether `c` is left out: a blank outside comments and strings, or a newline after a newline. */
  predicate Dropped(f: Flags, c: char, afterNewline: bool) {
    (!Look(f, c).inComment && !Look(f, c).inString && Blank(c)) || (c == '\n' && afterNewline)
  }

  /** What the scan adds to its result for the rest of a text. */
  function Scan(text: string, f: Flags, afterNewline: bool): string {
    if text == "" then ""
    else
      var c := text[0];
      if Dropped(f, c, afterNewline) then Scan(text[1..], Look(f, c), afterNewline)
      else [c] + Scan(text[1..], Look(f, c), c == '\n')
  }

  function Normalized(text: string): string { Scan(Strip(text), START, false) }

  /** `_normalize_string`. */
  method NormalizeString(text: string) returns (result: string)
    ensures result == Normalized(text)
  {
    var stripped := Strip(text);
    result := "";
    var in_comment, in_string := false, false;
    var string_char: Option<char> := None;
    for i := 0 to |stripped|
      invariant result + Scan(stripped[i..], Flags(in_comment, in_string, string_char), EndsWithNewline(result))
             == Normalized(text)
    {
      var c := stripped[i];
      ghost var before := Flags(in_comment, in_string, string_char);
      ScanNext(result, stripped, i, before);
      if c == '#' {
        in_comment := true;
      }
      if c == '\n' {
        in_comment := false;
      }
      if c == '"' || c == '\'' {
        if in_string && string_char == Some(c) {
          in_string := false;
        } else if !in_string {
          in_string := true;
          string_char := Some(c);
        }
      }
      assert Look(before, c) == Flags(in_comment, in_string, string_char);
      if !in_comment && !in_string && Blank(c) {
        continue;
      }
      if c == '\n' && EndsWithNewline(result) {
        continue;
      }
      result := result + [c];
    }
    assert stripped[|stripped|..] == "";
  }

  /** One turn of the loop: the character is left out or moves to the result. */
  lemma ScanNext(result: string, text: string, i: nat, f: Flags)
    requires i < |text|
    ensures var c := text[i];
      result + Scan(text[i..], f, EndsWithNewline(result)) ==
        if Dropped(f, c, EndsWithNewline(result)) then result + Scan(text[i + 1..], Look(f, c), EndsWithNewline(result))
        else result + [c] + Scan(text[i + 1..], Look(f, c), EndsWithNewline(result + [c]))
  {
    var c := text[i];
    assert text[i..][0] == c && text[i..][1..] == text[i + 1..];
    var rest := Scan(text[i + 1..], Look(f, c), c == '\n');
    assert result + ([c] + rest) == result + [c] + rest;
  }

  predicate EndsWithNewline(s: string) { s != "" && s[|s| - 1] == '\n' }

  // ---------------------------------------------------------------------------------------
  // Theorems
  // ---------------------------------------------------------------------------------------

  /** Scanning what a scan kept, from the same flags, keeps all of it. */
  lemma {:induction false} ScanAgain(text: string, f: Flags, afterNewline: bool)
    requires afterNewline ==> !f.inComment
    ensures Scan(Scan(text, f, afterNewline), f, afterNewline) == Scan(text, f, afterNewline)
  {
    if text != "" {
      var c := text[0];
      var kept := Scan(text[1..], Look(f, c), if Dropped(f, c, afterNewline) then afterNewline else c == '\n');
      if Dropped(f, c, afterNewline) {
        assert Look(f, c) == f;
        ScanAgain(text[1..], f, afterNewline);
      } else {
        ScanAgain(text[1..], Look(f, c), c == '\n');
        assert ([c] + kept)[1..] == kept;
      }
    }
  }

  /** A text that ends in a non-space keeps its last character. */
  lemma {:induction false} LastKept(text: string, f: Flags, afterNewline: bool)
    requires text != "" && !Space(text[|text| - 1])
    ensures var r := Scan(text, f, afterNewline); r != "" && r[|r| - 1] == text[|text| - 1]
  {
    var c := text[0];
    assert Space(' ') && Space('\t') && Space('\n');
    if |text| > 1 {
      LastKept(text[1..], Look(f, c), if Dropped(f, c, afterNewline) then afterNewline else c == '\n');
    }
  }

  lemma NormalizedIsTrimmed(text: string)
    ensures Trimmed(Normalized(text))
  {
    var t := Strip(text);
    StripTrims(text);
    assert Space(' ') && Space('\t') && Space('\n');
    if t != "" {
      LastKept(t, START, false);
      assert Normalized(text)[0] == t[0];
    }
  }

  /** White space around a definition makes no difference. */
  lemma SpaceAround(a: string, text: string, b: string)
    requires AllSpace(a) && AllSpace(b)
    ensures Normalized(a + text + b) == Normalized(text)
  {
    var x, y := StripsSpace(text);
    StripTrims(text);
    StripIs(a + x, Strip(text), y + b);
    assert a + text + b == (a + x) + Strip(text) + (y + b);
  }

  /** Normalising twice is normalising once. */
  lemma Idempotent(text: string)
    ensures Normalized(Normalized(text)) == Normalized(text)
  {
    NormalizedIsTrimmed(text);
    StripTrims(Normalized(text));
    ScanAgain(Strip(text), START, false);
  }

  ghost predicate NoBlankLine(s: string) {
    forall i, j :: 0 <= i && j == i + 1 && j < |s| && s[i] == '\n' ==> s[j] != '\n'
  }

  /** Newlines kept are never adjacent, nor first when a newline came before. */
  lemma {:induction false} ScanNewlines(text: string, f: Flags, afterNewline: bool)
    ensures NoBlankLine(Scan(text, f, afterNewline))
    ensures afterNewline && Scan(text, f, afterNewline) != "" ==> Scan(text, f, afterNewline)[0] != '\n'
  {
    if text != "" {
      var c := text[0];
      if Dropped(f, c, afterNewline) {
        ScanNewlines(text[1..], Look(f, c), afterNewline);
      } else {
        ScanNewlines(text[1..], Look(f, c), c == '\n');
        var rest := Scan(text[1..], Look(f, c), c == '\n');
        var r := [c] + rest;
        forall i, j | 0 <= i && j == i + 1 && j < |r| && r[i] == '\n' ensures r[j] != '\n' {
          assert r[j] == rest[j - 1];
          if i > 0 { assert r[i] == rest[i - 1]; }
        }
      }
    }
  }

  lemma NoBlankLines(text: string)
    ensures NoBlankLine(Normalized(text))
  {
    ScanNewlines(Strip(text), START, false);
  }

  /** `a` is `b` with some characters left out. */
  predicate Subsequence(a: string, b: string) {
    a == "" || (b != "" && ((a[0] == b[0] && Subsequence(a[1..], b[1..])) || Subsequence(a, b[1..])))
  }

  /** The characters other than blanks, with one newline for each run of newlines between them;
      `newline` says that the run has begun. */
  function Lines(s: string, newline: bool): string {
    if s == "" then ""
    else if Blank(s[0]) || (s[0] == '\n' && newline) then Lines(s[1..], newline)
    else [s[0]] + Lines(s[1..], s[0] == '\n')
  }

  lemma {:induction false} ScanOnlyLeavesOut(text: string, f: Flags, afterNewline: bool)
    ensures Subsequence(Scan(text, f, afterNewline), text)
  {
    if text != "" {
      var c := text[0];
      if Dropped(f, c, afterNewline) {
        ScanOnlyLeavesOut(text[1..], Look(f, c), afterNewline);
      } else {
        ScanOnlyLeavesOut(text[1..], Look(f, c), c == '\n');
        assert ([c] + Scan(text[1..], Look(f, c), c == '\n'))[1..] == Scan(text[1..], Look(f, c), c == '\n');
      }
    }
  }

  lemma {:induction false} ScanKeepsLines(text: string, f: Flags, afterNewline: bool, newline: bool)
    requires afterNewline ==> newline
    ensures Lines(Scan(text, f, afterNewline), newline) == Lines(text, newline)
  {
    if text != "" {
      var c := text[0];
      var next := if Blank(c) then newline else c == '\n';
      if Dropped(f, c, afterNewline) {
        ScanKeepsLines(text[1..], Look(f, c), afterNewline, newline);
      } else {
        ScanKeepsLines(text[1..], Look(f, c), c == '\n', next);
        assert ([c] + Scan(text[1..], Look(f, c), c == '\n'))[1..] == Scan(text[1..], Look(f, c), c == '\n');
      }
    }
  }

  /** The result is the stripped text with nothing missing but blanks and newlines, and with a line
      break wherever the stripped text has one. */
  lemma OnlyBlanksAndNewlinesGo(text: string)
    ensures Subsequence(Normalized(text), Strip(text))
    ensures Lines(Normalized(text), false) == Lines(Strip(text), false)
  {
    ScanOnlyLeavesOut(Strip(text), START, false);
    ScanKeepsLines(Strip(text), START, false, false);
  }

  /** Every blank lies in a comment or a string. */
  predicate Tight(s: string, f: Flags)
    decreases |s|
  {
    s != "" ==>
      var g := Look(f, s[0]);
      (Blank(s[0]) ==> g.inComment || g.inString) && Tight(s[1..], g)
  }

  lemma {:induction false} ScanTight(text: string, f: Flags, afterNewline: bool)
    requires afterNewline ==> !f.inComment
    ensures Tight(Scan(text, f, afterNewline), f)
  {
    if text != "" {
      var c := text[0];
      if Dropped(f, c, afterNewline) {
        assert Look(f, c) == f;
        ScanTight(text[1..], f, afterNewline);
      } else {
        ScanTight(text[1..], Look(f, c), c == '\n');
        assert ([c] + Scan(text[1..], Look(f, c), c == '\n'))[1..] == Scan(text[1..], Look(f, c), c == '\n');
      }
    }
  }

  /** Every blank lies outside comments and strings. */
  predicate Loose(s: string, f: Flags)
    decreases |s|
  {
    s != "" ==>
      var g := Look(f, s[0]);
      (Blank(s[0]) ==> !g.inComment && !g.inString) && Loose(s[1..], g)
  }

  lemma {:induction false} ScanBlanks(text: string, f: Flags, afterNewline: bool)
    ensures (forall c :: c in Scan(text, f, afterNewline) ==> !Blank(c)) <==> Loose(text, f)
  {
    if text != "" {
      var c, g := text[0], Look(f, text[0]);
      if Dropped(f, c, afterNewline) {
        ScanBlanks(text[1..], g, afterNewline);
      } else {
        ScanBlanks(text[1..], g, c == '\n');
        var rest := Scan(text[1..], g, c == '\n');
        assert c in [c] + rest && forall d :: d in [c] + rest <==> d == c || d in rest;
      }
    }
  }

  /** All blanks go exactly when all of them lie outside comments and strings. */
  lemma AllBlanksGo(text: string)
    ensures (forall c :: c in Normalized(text) ==> !Blank(c)) <==> Loose(Strip(text), START)
  {
    ScanBlanks(Strip(text), START, false);
  }

  /** A tight text without blank lines is left as it is. */
  lemma {:induction false} ScanKeepsTidy(s: string, f: Flags, afterNewline: bool)
    requires Tight(s, f) && NoBlankLine(s) && (afterNewline && s != "" ==> s[0] != '\n')
    ensures Scan(s, f, afterNewline) == s
  {
    if s != "" {
      var rest := s[1..];
      assert rest != "" && s[0] == '\n' ==> s[1] != '\n';
      forall i, j | 0 <= i && j == i + 1 && j < |rest| && rest[i] == '\n' ensures rest[j] != '\n' {
        assert rest[i] == s[i + 1] && rest[j] == s[j + 1];
      }
      ScanKeepsTidy(rest, Look(f, s[0]), s[0] == '\n');
    }
  }

  /** The texts normalising leaves alone, which are all the texts it yields: no space at the ends, no
      blank outside comments and strings, no blank line. */
  lemma NormalForms(text: string)
    ensures Normalized(text) == text <==> Trimmed(text) && Tight(text, START) && NoBlankLine(text)
  {
    if Normalized(text) == text {
      NormalizedIsTrimmed(text);
      ScanTight(Strip(text), START, false);
      NoBlankLines(text);
    }
    if Trimmed(text) && Tight(text, START) && NoBlankLine(text) {
      StripTrims(text);
      ScanKeepsTidy(text, START, false);
    }
  }

  /** The flags after a whole text. */
  function LookAll(f: Flags, text: string): Flags
    decreases |text|
  {
    if text == "" then f else LookAll(Look(f, text[0]), text[1..])
  }

  /** A stretch of one line that lies inside a comment, or inside a string up to its closing quote. */
  predicate Protected(f: Flags, body: string) {
    '\n' !in body && (f.inComment || (f.inString && f.quote.Some? && f.quote.value !in body))
  }

  /** Comments and strings come through verbatim, blanks included. */
  lemma {:induction false} Verbatim(body: string, rest: string, f: Flags, afterNewline: bool)
    requires Protected(f, body) && body != ""
    ensures Scan(body + rest, f, afterNewline) == body + Scan(rest, LookAll(f, body), false)
    decreases |body|
  {
    var c := body[0];
    assert c in body && forall d :: d in body[1..] ==> d in body;
    assert (body + rest)[1..] == body[1..] + rest;
    if body[1..] == "" {
      assert body == [c] && body[1..] + rest == rest;
    } else {
      assert Protected(Look(f, c), body[1..]);
      Verbatim(body[1..], rest, Look(f, c), false);
      assert [c] + (body[1..] + Scan(rest, LookAll(f, body), false)) == body + Scan(rest, LookAll(f, body), false);
    }
  }

  /** Where each kept character is scanned again, the flags are those of the first pass: after any
      beginning of the text, scanning what was kept of it leads to the same flags. */
  lemma {:induction false} SameFlags(text: string, f: Flags, afterNewline: bool)
    requires afterNewline ==> !f.inComment
    ensures LookAll(f, Scan(text, f, afterNewline)) == LookAll(f, text)
  {
    if text != "" {
      var c := text[0];
      if Dropped(f, c, afterNewline) {
        assert Look(f, c) == f;
        SameFlags(text[1..], f, afterNewline);
      } else {
        SameFlags(text[1..], Look(f, c), c == '\n');
        assert ([c] + Scan(text[1..], Look(f, c), c == '\n'))[1..] == Scan(text[1..], Look(f, c), c == '\n');
      }
    }
  }

  lemma {:induction false} LookConcat(f: Flags, a: string, b: string)
    ensures LookAll(f, a + b) == LookAll(LookAll(f, a), b)
    decreases |a|
  {
    if a == "" {
      assert a + b == b;
    } else {
      assert (a + b)[1..] == a[1..] + b;
      LookConcat(Look(f, a[0]), a[1..], b);
    }
  }

  /** After a text the scanner is in a comment exactly when there is a `#` without a newline after it. */
  lemma {:induction false} CommentExactly(f: Flags, s: string)
    ensures LookAll(f, s).inComment
       <==> (f.inComment && '\n' !in s) || exists j :: 0 <= j < |s| && s[j] == '#' && '\n' !in s[j..]
    decreases |s|
  {
    if s != "" {
      var rest := s[1..];
      CommentExactly(Look(f, s[0]), rest);
      assert s == [s[0]] + rest && s[0..] == s;
      forall j | 0 <= j < |rest| ensures rest[j..] == s[j + 1..] && rest[j] == s[j + 1] {}
      assert forall j :: 1 <= j < |s| ==> s[j..] == rest[j - 1..] && s[j] == rest[j - 1];
    }
  }

  /** A string begins at either quote and lasts to the next quote of the same kind. */
  lemma StringSpan(f: Flags, q: char, body: string)
    requires !f.inString && (q == '"' || q == '\'') && q !in body
    ensures LookAll(f, [q] + body).inString && LookAll(f, [q] + body).quote == Some(q)
    ensures !LookAll(f, [q] + body + [q]).inString
  {
    assert ([q] + body)[1..] == body;
    InString(Look(f, q), q, body);
    LookConcat(f, [q] + body, [q]);
    var g := LookAll(f, [q] + body);
    assert [q][1..] == "";
    assert LookAll(g, [q]) == Look(g, q);
  }

  lemma {:induction false} InString(f: Flags, q: char, body: string)
    requires f.inString && f.quote == Some(q) && q !in body
    ensures LookAll(f, body).inString && LookAll(f, body).quote == Some(q)
    decreases |body|
  {
    if body != "" {
      assert body[0] in body && forall c :: c in body[1..] ==> c in body;
      InString(Look(f, body[0]), q, body[1..]);
    }
  }

  /** Without quotes none begins or ends. */
  lemma {:induction false} NoQuotes(f: Flags, s: string)
    requires '"' !in s && '\'' !in s
    ensures LookAll(f, s).inString == f.inString && LookAll(f, s).quote == f.quote
    decreases |s|
  {
    if s != "" {
      assert s[0] in s && forall c :: c in s[1..] ==> c in s;
      NoQuotes(Look(f, s[0]), s[1..]);
    }
  }

  /** Neither quotes nor newlines. */
  predicate Wording(s: string) { '\n' !in s && '"' !in s && '\'' !in s }

  lemma {:induction false} LookWording(f: Flags, s: string)
    requires f.inComment && Wording(s)
    ensures LookAll(f, s) == f
    decreases |s|
  {
    if s != "" {
      assert s[0] in s && forall c :: c in s[1..] ==> c in s;
      LookWording(f, s[1..]);
    }
  }

  /** A quote in a comment opens a string: `# don't` and `a = 1` on the next line stay as they are. */
  lemma QuoteInComment(a: string, b: string, rest: string)
    requires Wording(a) && Wording(b) && '\n' !in rest && '\'' !in rest
    requires Trimmed("#" + (a + "'" + b + ("\n" + rest))) && rest != ""
    ensures Normalized("#" + (a + "'" + b + ("\n" + rest))) == "#" + (a + "'" + b + ("\n" + rest))
  {
    var comment, tail := a + "'" + b, "\n" + rest;
    var f, g := Flags(true, false, None), Flags(true, true, Some('\''));
    StripTrims("#" + (comment + tail));
    LookComment(a, b);
    Verbatim(comment, tail, f, false);
    ScanInString(rest);
    assert ("#" + (comment + tail))[1..] == comment + tail;
  }

  lemma LookComment(a: string, b: string)
    requires Wording(a) && Wording(b)
    ensures LookAll(Flags(true, false, None), a + "'" + b) == Flags(true, true, Some('\''))
  {
    var f := Flags(true, false, None);
    LookConcat(f, a + "'", b);
    LookConcat(f, a, "'");
    LookWording(f, a);
    LookWording(Flags(true, true, Some('\'')), b);
    assert "'"[1..] == "";
  }

  /** The line after it is still in the string. */
  lemma ScanInString(rest: string)
    requires '\n' !in rest && '\'' !in rest && rest != ""
    ensures Scan("\n" + rest, Flags(true, true, Some('\'')), false) == "\n" + rest
  {
    Verbatim(rest, "", Flags(false, true, Some('\'')), true);
    assert rest + "" == rest && ("\n" + rest)[1..] == rest;
  }
}
