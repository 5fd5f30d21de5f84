/** Turning an argument list into one command line: the Microsoft C runtime convention
    (`_args2cmd`) and the POSIX shell convention (`_args2sh`). Each printer is proved against a
    reader written from the public rules of the other side. */
module CommandQuoting {
  import opened Wrappers

  function Repeat(c: char, n: nat): (s: string)
    ensures |s| == n
  {
    if n == 0 then "" else [c] + Repeat(c, n - 1)
  }

  lemma {:induction false} RepeatSnoc(c: char, n: nat)
    ensures Repeat(c, n + 1) == Repeat(c, n) + [c]
  {
    if n > 0 { RepeatSnoc(c, n - 1); }
  }

  predicate Blank(c: char) { c == ' ' || c == '\t' }

  // ---------------------------------------------------------------------------------------
  // Microsoft C runtime
  // ---------------------------------------------------------------------------------------

  predicate NeedsQuote(arg: string) { ' ' in arg || '\t' in arg || arg == "" }

  /** What is still to be written for the rest of an argument when `bs` backslashes are pending. */
  function Escaped(arg: string, bs: nat, quoted: bool): string {
    if arg == "" then Repeat('\\', bs) + (if quoted then Repeat('\\', bs) + "\"" else "")
    else if arg[0] == '\\' then Escaped(arg[1..], bs + 1, quoted)
    else if arg[0] == '"' then Repeat('\\', 2 * bs) + "\\\"" + Escaped(arg[1..], 0, quoted)
    else Repeat('\\', bs) + [arg[0]] + Escaped(arg[1..], 0, quoted)
  }

  function CmdWord(arg: string): string {
    (if NeedsQuote(arg) then "\"" else "") + Escaped(arg, 0, NeedsQuote(arg))
  }

  function CmdTail(args: seq<string>): string {
    if args == [] then "" else " " + CmdWord(args[0]) + CmdTail(args[1..])
  }

  function CmdLine(args: seq<string>): string {
    if args == [] then "" else CmdWord(args[0]) + CmdTail(args[1..])
  }

  /** Splitting a command line by the rules of "Parsing C command-line arguments": `bs` counts the
      backslashes just read, `started` says whether an argument has begun, `word` is what is known
      of it. 2n backslashes before a quote give n and a delimiter, 2n+1 give n and a literal
      quote, a doubled quote inside a quoted part is a literal quote, other backslashes are
      literal, and blanks outside quotes separate. */
  function CmdSplitFrom(s: string, started: bool, quoted: bool, bs: nat, word: string): seq<string> {
    if s == "" then
      if started then [word + Repeat('\\', bs)] else []
    else if s[0] == '\\' then
      CmdSplitFrom(s[1..], true, quoted, bs + 1, word)
    else if s[0] == '"' then
      if bs % 2 == 1 then
        CmdSplitFrom(s[1..], true, quoted, 0, word + Repeat('\\', bs / 2) + "\"")
      else if quoted && |s| > 1 && s[1] == '"' then
        CmdSplitFrom(s[2..], true, true, 0, word + Repeat('\\', bs / 2) + "\"")
      else
        CmdSplitFrom(s[1..], true, !quoted, 0, word + Repeat('\\', bs / 2))
    else if Blank(s[0]) && !quoted then
      (if started then [word + Repeat('\\', bs)] else []) + CmdSplitFrom(s[1..], false, false, 0, "")
    else
      CmdSplitFrom(s[1..], true, quoted, 0, word + Repeat('\\', bs) + [s[0]])
  }

  function CmdSplit(line: string): seq<string> { CmdSplitFrom(line, false, false, 0, "") }

  lemma {:induction false} ScanBackslashes(n: nat, s: string, started: bool, quoted: bool, bs: nat, word: string)
    ensures CmdSplitFrom(Repeat('\\', n) + s, started, quoted, bs, word)
         == CmdSplitFrom(s, started || n > 0, quoted, bs + n, word)
  {
    var t := Repeat('\\', n) + s;
    if n == 0 {
      assert t == s;
    } else {
      assert t[1..] == Repeat('\\', n - 1) + s;
      ScanBackslashes(n - 1, s, true, quoted, bs + 1, word);
    }
  }

  /** What the reader makes of a line whose first argument is already known. */
  function CmdAfter(word: string, rest: string): seq<string> {
    [word] + (if rest == "" then [] else CmdSplit(rest[1..]))
  }

  /** An ordinary character takes the backslashes before it as they are. */
  lemma ScanOrdinary(c: char, n: nat, s: string, started: bool, quoted: bool, word: string)
    requires c != '\\' && c != '"' && (quoted || !Blank(c))
    ensures CmdSplitFrom(Repeat('\\', n) + ([c] + s), started, quoted, 0, word)
         == CmdSplitFrom(s, true, quoted, 0, word + Repeat('\\', n) + [c])
  {
    ScanBackslashes(n, [c] + s, started, quoted, 0, word);
    assert ([c] + s)[1..] == s;
  }

  /** Backslashes at the end of an unquoted argument are literal. */
  lemma ScanEnd(n: nat, rest: string, started: bool, word: string)
    requires rest == "" || rest[0] == ' '
    requires started || n > 0
    ensures CmdSplitFrom(Repeat('\\', n) + rest, started, false, 0, word) == CmdAfter(word + Repeat('\\', n), rest)
  {
    ScanBackslashes(n, rest, started, false, 0, word);
  }

  /** The reader undoes `Escaped`: it yields the pending backslashes and the argument, and goes on
      after the separator. */
  lemma {:induction false} ScanEscaped(arg: string, bs: nat, quoted: bool, rest: string, started: bool, word: string)
    requires rest == "" || rest[0] == ' '
    requires !quoted ==> forall c :: c in arg ==> !Blank(c)
    requires started || bs > 0 || arg != ""
    ensures CmdSplitFrom(Escaped(arg, bs, quoted) + rest, started, quoted, 0, word)
         == CmdAfter(word + Repeat('\\', bs) + arg, rest)
    decreases |arg|
  {
    if arg == "" {
      ScanEmpty(bs, quoted, rest, started, word);
    } else {
      var c, tail := arg[0], arg[1..];
      assert c in arg && forall d :: d in tail ==> d in arg;
      assert arg == [c] + tail;
      if c == '\\' {
        ScanEscaped(tail, bs + 1, quoted, rest, started, word);
        RepeatSnoc('\\', bs);
        assert word + Repeat('\\', bs + 1) + tail == word + Repeat('\\', bs) + arg;
      } else {
        ScanEscaped(tail, 0, quoted, rest, true, word + Repeat('\\', bs) + [c]);
        ScanStep(c, tail, bs, quoted, rest, started, word);
      }
    }
  }

  lemma ScanEmpty(bs: nat, quoted: bool, rest: string, started: bool, word: string)
    requires rest == "" || rest[0] == ' '
    requires started || bs > 0
    ensures CmdSplitFrom(Escaped("", bs, quoted) + rest, started, quoted, 0, word)
         == CmdAfter(word + Repeat('\\', bs) + "", rest)
  {
    var pending, s := Repeat('\\', bs), Escaped("", bs, quoted) + rest;
    assert word + pending + "" == word + pending;
    if quoted {
      assert s == pending + (pending + ("\"" + rest));
      ScanClosing(bs, rest, started, word);
    } else {
      assert s == pending + rest;
      ScanEnd(bs, rest, started, word);
    }
  }

  /** A character that is not a backslash, once the rest is known to read back. */
  lemma ScanStep(c: char, tail: string, bs: nat, quoted: bool, rest: string, started: bool, word: string)
    requires rest == "" || rest[0] == ' '
    requires c != '\\' && (quoted || !Blank(c))
    requires var w := word + Repeat('\\', bs) + [c];
      CmdSplitFrom(Escaped(tail, 0, quoted) + rest, true, quoted, 0, w) == CmdAfter(w + Repeat('\\', 0) + tail, rest)
    ensures CmdSplitFrom(Escaped([c] + tail, bs, quoted) + rest, started, quoted, 0, word)
         == CmdAfter(word + Repeat('\\', bs) + ([c] + tail), rest)
  {
    var pending, more := Repeat('\\', bs), Escaped(tail, 0, quoted) + rest;
    EscapedCons(c, tail, bs, quoted, rest);
    if c == '"' {
      ScanLiteralQuote(bs, more, started, quoted, word);
    } else {
      ScanOrdinary(c, bs, more, started, quoted, word);
    }
    assert word + pending + [c] + Repeat('\\', 0) + tail == word + pending + ([c] + tail);
  }

  lemma EscapedCons(c: char, tail: string, bs: nat, quoted: bool, rest: string)
    requires c != '\\'
    ensures var more := Escaped(tail, 0, quoted) + rest;
      Escaped([c] + tail, bs, quoted) + rest ==
        if c == '"' then Repeat('\\', 2 * bs) + ("\\\"" + more) else Repeat('\\', bs) + ([c] + more)
  {
    assert ([c] + tail)[1..] == tail;
  }

  /** 2n+1 backslashes before a quote read as n backslashes and the quote itself. */
  lemma ScanLiteralQuote(n: nat, s: string, started: bool, quoted: bool, word: string)
    ensures CmdSplitFrom(Repeat('\\', 2 * n) + ("\\\"" + s), started, quoted, 0, word)
         == CmdSplitFrom(s, true, quoted, 0, word + Repeat('\\', n) + "\"")
  {
    var t := "\\\"" + s;
    ScanBackslashes(2 * n, t, started, quoted, 0, word);
    assert t[1..] == "\"" + s;
    assert ("\"" + s)[1..] == s;
    assert (2 * n + 1) % 2 == 1 && (2 * n + 1) / 2 == n;
  }

  /** 2n backslashes before the closing quote read as n backslashes. */
  lemma ScanClosing(n: nat, rest: string, started: bool, word: string)
    requires rest == "" || rest[0] == ' '
    ensures CmdSplitFrom(Repeat('\\', n) + (Repeat('\\', n) + ("\"" + rest)), started, true, 0, word)
         == CmdAfter(word + Repeat('\\', n), rest)
  {
    var t := "\"" + rest;
    ScanBackslashes(n, Repeat('\\', n) + t, started, true, 0, word);
    ScanBackslashes(n, t, started || n > 0, true, n, word);
    assert t[1..] == rest;
    var w := word + Repeat('\\', n);
    assert (n + n) % 2 == 0 && (n + n) / 2 == n;
    assert CmdSplitFrom(t, started || n > 0, true, n + n, word) == CmdSplitFrom(rest, true, false, 0, w);
    assert w + Repeat('\\', 0) == w;
  }

  lemma ScanWord(arg: string, rest: string)
    requires rest == "" || rest[0] == ' '
    ensures CmdSplit(CmdWord(arg) + rest) == CmdAfter(arg, rest)
  {
    var quoted := NeedsQuote(arg);
    var body := Escaped(arg, 0, quoted) + rest;
    assert "" + Repeat('\\', 0) + arg == arg;
    if quoted {
      var s := CmdWord(arg) + rest;
      assert s == "\"" + body;
      assert s[1..] == body;
      assert "" + Repeat('\\', 0) == "";
      ScanEscaped(arg, 0, true, rest, true, "");
    } else {
      assert CmdWord(arg) + rest == body;
      ScanEscaped(arg, 0, false, rest, false, "");
    }
  }

  lemma {:induction false} ScanWords(first: string, others: seq<string>)
    ensures CmdSplit(CmdWord(first) + CmdTail(others)) == [first] + others
    decreases |others|
  {
    var rest := CmdTail(others);
    ScanWord(first, rest);
    if others != [] {
      assert rest[1..] == CmdWord(others[0]) + CmdTail(others[1..]);
      ScanWords(others[0], others[1..]);
      assert [others[0]] + others[1..] == others;
    }
  }

  /** The Microsoft C runtime splits the command line back into exactly the arguments. */
  lemma CmdRoundTrip(args: seq<string>)
    ensures CmdSplit(CmdLine(args)) == args
  {
    if args == [] {
      assert CmdLine(args) == "";
    } else {
      var first, others := args[0], args[1..];
      assert CmdLine(args) == CmdWord(first) + CmdTail(others);
      ScanWords(first, others);
      assert [first] + others == args;
    }
  }

  lemma CmdWordNotEmpty(arg: string)
    ensures CmdWord(arg) != ""
  {
    if !NeedsQuote(arg) { EscapedNotEmpty(arg, 0, false); }
  }

  lemma {:induction false} EscapedNotEmpty(arg: string, bs: nat, quoted: bool)
    requires bs > 0 || arg != ""
    ensures Escaped(arg, bs, quoted) != ""
    decreases |arg|
  {
    if arg != "" && arg[0] == '\\' { EscapedNotEmpty(arg[1..], bs + 1, quoted); }
  }

  /** The inner loop: writes the characters of one argument, holding back runs of backslashes. */
  method EscapeChars(arg: string, needquote: bool) returns (text: string)
    ensures text == Escaped(arg, 0, needquote)
  {
    text := "";
    var bs_buf := "";
    for i := 0 to |arg|
      invariant bs_buf == Repeat('\\', |bs_buf|)
      invariant text + Escaped(arg[i..], |bs_buf|, needquote) == Escaped(arg, 0, needquote)
    {
      EscapedNext(text, arg, i, |bs_buf|, needquote);
      var c := arg[i];
      if c == '\\' {
        RepeatSnoc('\\', |bs_buf|);
        bs_buf := bs_buf + [c];
      } else if c == '"' {
        text := text + Repeat('\\', 2 * |bs_buf|) + "\\\"";
        bs_buf := "";
      } else {
        text := text + bs_buf + [c];
        bs_buf := "";
      }
    }
    assert arg[|arg|..] == "";
    text := text + bs_buf;
    if needquote {
      text := text + bs_buf + "\"";
    }
  }

  /** One turn of the inner loop moves what one character stands for to the text. */
  lemma EscapedNext(text: string, arg: string, i: nat, bs: nat, quoted: bool)
    requires i < |arg|
    ensures var c, rest := arg[i], arg[i + 1..];
      text + Escaped(arg[i..], bs, quoted) ==
        if c == '\\' then text + Escaped(rest, bs + 1, quoted)
        else if c == '"' then text + Repeat('\\', 2 * bs) + "\\\"" + Escaped(rest, 0, quoted)
        else text + Repeat('\\', bs) + [c] + Escaped(rest, 0, quoted)
  {
    var c, rest := arg[i], arg[i + 1..];
    assert arg[i..][0] == c && arg[i..][1..] == rest;
    var more := Escaped(rest, 0, quoted);
    if c == '"' {
      assert text + (Repeat('\\', 2 * bs) + "\\\"" + more) == text + Repeat('\\', 2 * bs) + "\\\"" + more;
    } else if c != '\\' {
      assert text + (Repeat('\\', bs) + [c] + more) == text + Repeat('\\', bs) + [c] + more;
    }
  }

  /** The body of the outer loop: one argument, after a space when something is already written. */
  method AppendCmdWord(before: string, arg: string) returns (line: string)
    ensures line == before + (if before == "" then "" else " ") + CmdWord(arg)
  {
    line := before;
    if line != "" {
      line := line + " ";
    }
    var needquote := ' ' in arg || '\t' in arg || arg == "";
    if needquote {
      line := line + "\"";
    }
    var text := EscapeChars(arg, needquote);
    line := line + text;
  }

  /** `_args2cmd`; the pieces the source joins at the end are kept joined here. */
  method Args2Cmd(args: seq<string>) returns (line: string)
    ensures line == CmdLine(args)
    ensures CmdSplit(line) == args
  {
    line := "";
    for i := 0 to |args|
      invariant line == "" <==> i == 0
      invariant line == CmdLine(args[..i])
    {
      line := AppendCmdWord(line, args[i]);
      CmdLineSnoc(args[..i], args[i]);
      assert args[..i] + [args[i]] == args[..i + 1];
      CmdWordNotEmpty(args[i]);
    }
    assert args[..|args|] == args;
    CmdRoundTrip(args);
  }

  lemma {:induction false} CmdTailSnoc(args: seq<string>, arg: string)
    ensures CmdTail(args + [arg]) == CmdTail(args) + (" " + CmdWord(arg))
  {
    if args == [] {
      assert (args + [arg])[1..] == [];
    } else {
      assert (args + [arg])[1..] == args[1..] + [arg];
      CmdTailSnoc(args[1..], arg);
    }
  }

  lemma CmdLineSnoc(args: seq<string>, arg: string)
    ensures CmdLine(args + [arg]) == CmdLine(args) + (if args == [] then "" else " ") + CmdWord(arg)
  {
    if args == [] {
      assert (args + [arg])[1..] == [];
    } else {
      assert (args + [arg])[1..] == args[1..] + [arg];
      CmdTailSnoc(args[1..], arg);
    }
  }

  // ---------------------------------------------------------------------------------------
  // POSIX shell
  // ---------------------------------------------------------------------------------------

  /** The characters the source's regular expression leaves unquoted. */
  predicate ShSafe(c: char) {
    'a' <= c <= 'z' || 'A' <= c <= 'Z' || '0' <= c <= '9' ||
    c in {'_', '@', '%', '+', '=', ':', ',', '.', '/', '-'}
  }

  /** `arg.replace("'", "'\"'\"'")`. */
  function EscapeSingle(arg: string): string {
    if arg == "" then ""
    else (if arg[0] == '\'' then "'\"'\"'" else [arg[0]]) + EscapeSingle(arg[1..])
  }

  function ShWord(arg: string): string {
    if arg == "" then "''"
    else if forall c :: c in arg ==> ShSafe(c) then arg
    else "'" + EscapeSingle(arg) + "'"
  }

  function ShTail(args: seq<string>): string {
    if args == [] then "" else " " + ShWord(args[0]) + ShTail(args[1..])
  }

  function ShLine(args: seq<string>): string {
    if args == [] then "" else ShWord(args[0]) + ShTail(args[1..])
  }

  /** The characters that, unquoted, mean something else to a shell (POSIX.1-2017, Shell Command
      Language, 2.2), besides blanks and quotes: operators, expansions, patterns, comments, reserved words. */
  predicate ShSpecial(c: char) {
    c in {'|', '&', ';', '<', '>', '(', ')', '$', '`', '\\', '\n', '*', '?', '[', '#', '~', '{', '}', '!'}
  }

  datatype Quoting = Plain | Single | Double

  /** The word list a POSIX shell makes of a line (2.2.2, 2.2.3 and 2.6.7 there): blanks outside quotes
      separate words, quotes are removed, everything between single quotes is literal. A special
      character that quotes do not protect gives no word list at all. */
  function ShSplitFrom(s: string, mode: Quoting, started: bool, word: string): Option<seq<string>> {
    if s == "" then
      if mode != Plain then None else if started then Some([word]) else Some([])
    else
      var c := s[0];
      match mode
      case Single =>
        if c == '\'' then ShSplitFrom(s[1..], Plain, true, word)
        else ShSplitFrom(s[1..], Single, true, word + [c])
      case Double =>
        if c == '"' then ShSplitFrom(s[1..], Plain, true, word)
        else if c in {'$', '`', '\\'} then None
        else ShSplitFrom(s[1..], Double, true, word + [c])
      case Plain =>
        if c == '\'' then ShSplitFrom(s[1..], Single, true, word)
        else if c == '"' then ShSplitFrom(s[1..], Double, true, word)
        else if Blank(c) then
          var rest := ShSplitFrom(s[1..], Plain, false, "");
          if started && rest.Some? then Some([word] + rest.value) else rest
        else if ShSpecial(c) then None
        else ShSplitFrom(s[1..], Plain, true, word + [c])
  }

  function ShSplit(line: string): Option<seq<string>> { ShSplitFrom(line, Plain, false, "") }

  /** What the shell makes of a line whose first word is already known. */
  function ShAfter(word: string, rest: string): Option<seq<string>>
    requires rest == "" || rest[0] == ' '
  {
    if rest == "" then Some([word])
    else
      var more := ShSplit(rest[1..]);
      if more.Some? then Some([word] + more.value) else None
  }

  lemma {:induction false} ScanSafe(arg: string, rest: string, started: bool, word: string)
    requires forall c :: c in arg ==> ShSafe(c)
    requires rest == "" || rest[0] == ' '
    requires started || arg != ""
    ensures ShSplitFrom(arg + rest, Plain, started, word) == ShAfter(word + arg, rest)
    decreases |arg|
  {
    var s := arg + rest;
    if arg == "" {
      assert s == rest && word + arg == word;
    } else {
      assert arg[0] in arg && forall c :: c in arg[1..] ==> c in arg;
      assert s[1..] == arg[1..] + rest;
      ScanSafe(arg[1..], rest, true, word + [arg[0]]);
      assert word + [arg[0]] + arg[1..] == word + arg;
    }
  }

  /** The five characters written for a single quote read back as that quote. */
  lemma ScanInnerQuote(more: string, word: string)
    ensures ShSplitFrom("'\"'\"'" + more, Single, true, word) == ShSplitFrom(more, Single, true, word + "'")
  {
    var s1, s2, s3, s4 := "\"'\"'" + more, "'\"'" + more, "\"'" + more, "'" + more;
    assert ("'\"'\"'" + more)[1..] == s1;
    assert s1[1..] == s2;
    assert s2[1..] == s3;
    assert s3[1..] == s4;
    assert s4[1..] == more;
    assert ShSplitFrom(s2, Double, true, word) == ShSplitFrom(s3, Double, true, word + "'");
    assert ShSplitFrom(s3, Double, true, word + "'") == ShSplitFrom(s4, Plain, true, word + "'");
  }

  lemma {:induction false} ScanSingle(arg: string, rest: string, word: string)
    requires rest == "" || rest[0] == ' '
    ensures ShSplitFrom(EscapeSingle(arg) + ("'" + rest), Single, true, word) == ShAfter(word + arg, rest)
    decreases |arg|
  {
    var close := "'" + rest;
    var s := EscapeSingle(arg) + close;
    if arg == "" {
      assert s == close && close[1..] == rest;
      assert "" + rest == rest && word + "" == word;
      ScanSafe("", rest, true, word);
    } else {
      var more := EscapeSingle(arg[1..]) + close;
      var w := word + [arg[0]];
      ScanSingle(arg[1..], rest, w);
      assert w + arg[1..] == word + arg;
      if arg[0] == '\'' {
        assert s == "'\"'\"'" + more;
        ScanInnerQuote(more, word);
      } else {
        assert s[1..] == more;
      }
    }
  }

  lemma ScanShWord(arg: string, rest: string)
    requires rest == "" || rest[0] == ' '
    ensures ShSplit(ShWord(arg) + rest) == ShAfter(arg, rest)
  {
    if arg != "" && forall c :: c in arg ==> ShSafe(c) {
      assert "" + arg == arg;
      ScanSafe(arg, rest, false, "");
    } else {
      assert ShWord(arg) == "'" + EscapeSingle(arg) + "'";
      ScanQuotedWord(arg, rest);
    }
  }

  lemma ScanOpening(body: string)
    ensures ShSplit("'" + body) == ShSplitFrom(body, Single, true, "")
  {
    assert ("'" + body)[1..] == body;
  }

  lemma ScanQuotedWord(arg: string, rest: string)
    requires rest == "" || rest[0] == ' '
    ensures ShSplit("'" + EscapeSingle(arg) + "'" + rest) == ShAfter(arg, rest)
  {
    var body := EscapeSingle(arg) + ("'" + rest);
    assert "'" + EscapeSingle(arg) + "'" + rest == "'" + body;
    ScanOpening(body);
    ScanSingle(arg, rest, "");
    assert "" + arg == arg;
  }

  lemma {:induction false} ScanShWords(first: string, others: seq<string>)
    ensures ShSplit(ShWord(first) + ShTail(others)) == Some([first] + others)
    decreases |others|
  {
    ScanShWord(first, ShTail(others));
    if others == [] {
      assert [first] + others == [first];
    } else {
      ScanShWords(others[0], others[1..]);
      assert [others[0]] + others[1..] == others;
      AfterWord(first, ShWord(others[0]) + ShTail(others[1..]), others);
      TailText(others);
    }
  }

  lemma AfterWord(word: string, more: string, words: seq<string>)
    requires ShSplit(more) == Some(words)
    ensures ShAfter(word, " " + more) == Some([word] + words)
  {
    assert (" " + more)[1..] == more;
  }

  lemma TailText(others: seq<string>)
    requires others != []
    ensures ShTail(others) == " " + (ShWord(others[0]) + ShTail(others[1..]))
  {}

  /** A POSIX shell reads the line back as exactly the arguments, with nothing left to expand. */
  lemma ShRoundTrip(args: seq<string>)
    ensures ShSplit(ShLine(args)) == Some(args)
  {
    if args != [] {
      ScanShWords(args[0], args[1..]);
      assert [args[0]] + args[1..] == args;
    }
  }

  /** `" ".join(ret_list)` over words already quoted. */
  function Spaced(words: seq<string>): string {
    if words == [] then "" else words[0] + SpacedTail(words[1..])
  }

  function SpacedTail(words: seq<string>): string {
    if words == [] then "" else " " + words[0] + SpacedTail(words[1..])
  }

  lemma {:induction false} SpacedWords(args: seq<string>, words: seq<string>)
    requires |words| == |args| && forall i :: 0 <= i < |args| ==> words[i] == ShWord(args[i])
    ensures SpacedTail(words) == ShTail(args)
    ensures Spaced(words) == ShLine(args)
  {
    if args != [] { SpacedWords(args[1..], words[1..]); }
  }

  /** `_args2sh`. */
  method Args2Sh(args: seq<string>) returns (line: string)
    ensures line == ShLine(args)
    ensures ShSplit(line) == Some(args)
  {
    var ret_list: seq<string> := [];
    for i := 0 to |args|
      invariant |ret_list| == i
      invariant forall k :: 0 <= k < i ==> ret_list[k] == ShWord(args[k])
    {
      var arg := args[i];
      if arg == "" {
        ret_list := ret_list + ["''"];
        continue;
      }
      if forall c :: c in arg ==> ShSafe(c) {
        ret_list := ret_list + [arg];
        continue;
      }
      ret_list := ret_list + ["'" + EscapeSingle(arg) + "'"];
    }
    SpacedWords(args, ret_list);
    ShRoundTrip(args);
    line := Spaced(ret_list);
  }

  /** The arguments written as they are: not empty, and made of letters, digits and _@%+=:,./- alone. */
  lemma ShBare(arg: string)
    ensures ShWord(arg) == arg <==> arg != "" && forall c :: c in arg ==>
      'a' <= c <= 'z' || 'A' <= c <= 'Z' || '0' <= c <= '9' ||
      c in {'_', '@', '%', '+', '=', ':', ',', '.', '/', '-'}
  {
    EscapeSingleLength(arg);
  }

  lemma {:induction false} EscapeSingleLength(arg: string)
    ensures |EscapeSingle(arg)| >= |arg|
  {
    if arg != "" { EscapeSingleLength(arg[1..]); }
  }

  /** The arguments the other style writes as they are: not empty, without blanks and double quotes. */
  lemma CmdBare(arg: string)
    ensures CmdWord(arg) == arg <==> arg != "" && ' ' !in arg && '\t' !in arg && '"' !in arg
  {
    EscapedLength(arg, 0, NeedsQuote(arg));
    if !NeedsQuote(arg) { EscapedBare(arg, 0); }
  }

  lemma {:induction false} EscapedLength(arg: string, bs: nat, quoted: bool)
    ensures |Escaped(arg, bs, quoted)| >= bs + |arg|
    ensures '"' in arg || quoted ==> |Escaped(arg, bs, quoted)| > bs + |arg|
  {
    if arg != "" {
      assert arg == [arg[0]] + arg[1..];
      EscapedLength(arg[1..], if arg[0] == '\\' then bs + 1 else 0, quoted);
    }
  }

  lemma {:induction false} EscapedBare(arg: string, bs: nat)
    ensures '"' !in arg ==> Escaped(arg, bs, false) == Repeat('\\', bs) + arg
  {
    if arg != "" && '"' !in arg {
      var more := Repeat('\\', bs);
      assert arg == [arg[0]] + arg[1..];
      if arg[0] == '\\' {
        EscapedBare(arg[1..], bs + 1);
        RepeatSnoc('\\', bs);
        assert more + ['\\'] + arg[1..] == more + arg;
      } else {
        EscapedBare(arg[1..], 0);
        assert more + [arg[0]] + arg[1..] == more + arg;
      }
    }
  }

  /** No two argument lists share a command line, in either style. */
  lemma QuotingInjective(args: seq<string>, other: seq<string>)
    requires CmdLine(args) == CmdLine(other) || ShLine(args) == ShLine(other)
    ensures args == other
  {
    CmdRoundTrip(args);
    CmdRoundTrip(other);
    ShRoundTrip(args);
    ShRoundTrip(other);
  }
}
