/**
 The reproduction command line of a report, and the shell that reads it back: token
 recognition and quote removal of POSIX.1-2017 XCU sections 2.2.1, 2.2.2, 2.2.3 and 2.3.
 */
module ShellQuote {
  import opened Strings
  import opened Wrappers

  /** The characters that shellQuote leaves bare. */
  predicate IsSafe(c: char) {
    || 'A' <= c <= 'Z'
    || 'a' <= c <= 'z'
    || '0' <= c <= '9'
    || c in "_@%+=:,./-"
  }

  predicate AllSafe(s: string) {
    forall i :: 0 <= i < |s| ==> IsSafe(s[i])
  }

  const ESCAPED_QUOTE := "'\\''"

  function ReplaceQuotes(s: string): string {
    if s == "" then ""
    else (if s[0] == '\'' then ESCAPED_QUOTE else [s[0]]) + ReplaceQuotes(s[1..])
  }

  function Quote(s: string): string {
    if s == "" then "''"
    else if AllSafe(s) then s
    else "'" + ReplaceQuotes(s) + "'"
  }

  function QuoteAll(args: seq<string>): (quoted: seq<string>)
    ensures |quoted| == |args|
    ensures forall i :: 0 <= i < |args| ==> quoted[i] == Quote(args[i])
  {
    seq(|args|, i requires 0 <= i < |args| => Quote(args[i]))
  }

  function CommandLine(args: seq<string>): string {
    Join(QuoteAll(args), " ")
  }

  method CommandLineFromArgs(args: seq<string>) returns (line: string)
    ensures line == CommandLine(args)
  {
    var quoted := [];
    for i := 0 to |args|
      invariant quoted == QuoteAll(args[..i])
    {
      quoted := quoted + [Quote(args[i])];
    }
    assert args[..|args|] == args;
    line := Join(quoted, " ");
  }

  /** An argument is left as it is if and only if it is not empty and holds nothing but listed characters. */
  lemma LeftBareIff(s: string)
    ensures Quote(s) == s <==>
            s != "" && forall i :: 0 <= i < |s| ==> IsListed(s[i])
  {
    forall i | 0 <= i < |s| ensures IsSafe(s[i]) <==> IsListed(s[i]) {
      SafeListed(s[i]);
    }
    hide IsSafe, IsListed;
    ReplacedLength(s);
  }

  predicate IsListed(c: char) {
    c in "ABCDEFGHIJKLMNOPQRSTUVWXYZ" || c in "abcdefghijklmnopqrstuvwxyz" || c in "0123456789" || c in "_@%+=:,./-"
  }

  lemma SafeListed(c: char)
    ensures IsSafe(c) <==> IsListed(c)
  {
  }

  lemma {:induction false} ReplacedLength(s: string)
    ensures |ReplaceQuotes(s)| >= |s|
  {
    if s != "" {
      ReplacedLength(s[1..]);
    }
  }

  // ---------------------------------------------------------------- the shell

  datatype Mode = Bare | Single | Double

  /** Unquoted, these characters end or replace the text of a word instead of standing for themselves. */
  predicate IsSpecial(c: char) {
    c in "|&;<>()$`*?[#~\n"
  }

  predicate IsBlank(c: char) {
    c == ' ' || c == '\t'
  }

  function Emit(word: Option<string>, rest: Option<seq<string>>): Option<seq<string>> {
    var words :- rest;
    Some(if word.Some? then [word.value] + words else words)
  }

  function Append(word: Option<string>, c: char): Option<string> {
    Some((if word.Some? then word.value else "") + [c])
  }

  function Begin(word: Option<string>): Option<string> {
    if word.Some? then word else Some("")
  }

  /**
   The words of a simple command line after quote removal, scanning from the left; `word` is
   the word being built, if any. None when a quote is left open, when the line holds a NUL, or when an
   unquoted special character would make the shell do more than split words.
   */
  function Scan(s: string, mode: Mode, word: Option<string>): Option<seq<string>>
    decreases |s|
  {
    if s == "" then
      if mode.Bare? then Emit(word, Some([])) else None
    else if s[0] == '\0' then None
    else
      match mode
      case Bare =>
        if IsBlank(s[0]) then Emit(word, Scan(s[1..], Bare, None))
        else if s[0] == '\'' then Scan(s[1..], Single, Begin(word))
        else if s[0] == '"' then Scan(s[1..], Double, Begin(word))
        else if s[0] == '\\' then
          if |s| == 1 || s[1] == '\0' then None
          else if s[1] == '\n' then Scan(s[2..], Bare, word)
          else Scan(s[2..], Bare, Append(word, s[1]))
        else if IsSpecial(s[0]) then None
        else Scan(s[1..], Bare, Append(word, s[0]))
      case Single =>
        if s[0] == '\'' then Scan(s[1..], Bare, word)
        else Scan(s[1..], Single, Append(word, s[0]))
      case Double =>
        if s[0] == '"' then Scan(s[1..], Bare, word)
        else if s[0] == '$' || s[0] == '`' then None
        else if s[0] == '\\' && |s| > 1 && s[1] in "$`\"\\" then Scan(s[2..], Double, Append(word, s[1]))
        else if s[0] == '\\' && |s| > 1 && s[1] == '\n' then Scan(s[2..], Double, word)
        else Scan(s[1..], Double, Append(word, s[0]))
  }

  function Tokenize(line: string): Option<seq<string>> {
    Scan(line, Bare, None)
  }

  // ---------------------------------------------------------------- round trip

  predicate NulFree(s: string) {
    forall i :: 0 <= i < |s| ==> s[i] != '\0'
  }

  /** A character that shellQuote leaves bare means nothing to the shell but itself. */
  lemma SafeIsPlain(c: char)
    requires IsSafe(c)
    ensures !IsSpecial(c) && !IsBlank(c) && c != '\'' && c != '"' && c != '\\' && c != '\0'
  {
  }

  lemma {:induction false} ScanSafe(s: string, rest: string, word: string)
    requires AllSafe(s)
    ensures NulFree(s)
    ensures Scan(s + rest, Bare, Some(word)) == Scan(rest, Bare, Some(word + s))
  {
    if s == "" {
      assert s + rest == rest && word + s == word;
    } else {
      hide IsSafe, IsSpecial, IsBlank;
      assert IsSafe(s[0]);
      SafeIsPlain(s[0]);
      assert (s + rest)[1..] == s[1..] + rest;
      ScanSafe(s[1..], rest, word + [s[0]]);
      assert word + [s[0]] + s[1..] == word + s;
    }
  }

  /** Inside single quotes, the replaced text and the closing quote add exactly the original text. */
  lemma {:induction false} ScanReplaced(s: string, rest: string, word: string)
    ensures Scan(ReplaceQuotes(s) + "'" + rest, Single, Some(word))
         == if NulFree(s) then Scan(rest, Bare, Some(word + s)) else None
  {
    var text := ReplaceQuotes(s) + "'" + rest;
    if s == "" {
      assert text == "'" + rest && text[1..] == rest && word + s == word;
    } else {
      var tail := ReplaceQuotes(s[1..]) + "'" + rest;
      assert s == [s[0]] + s[1..];
      assert NulFree(s) <==> s[0] != '\0' && NulFree(s[1..]);
      ScanReplaced(s[1..], rest, word + [s[0]]);
      assert word + [s[0]] + s[1..] == word + s;
      if s[0] == '\'' {
        assert text == ESCAPED_QUOTE + tail;
        ScanEscapedQuote(tail, word);
      } else {
        assert text == [s[0]] + tail && text[1..] == tail;
      }
    }
  }

  /** The four characters '\'' leave the quotes, add one quote character and enter them again. */
  lemma ScanEscapedQuote(tail: string, word: string)
    ensures Scan(ESCAPED_QUOTE + tail, Single, Some(word)) == Scan(tail, Single, Some(word + "'"))
  {
    var text := ESCAPED_QUOTE + tail;
    assert text[1..] == "\\''" + tail;
    assert text[1..][2..] == "'" + tail;
    assert ("'" + tail)[1..] == tail;
    assert text[1..][1] == '\'';
    assert Scan(text, Single, Some(word)) == Scan(text[1..], Bare, Some(word));
    assert Scan(text[1..], Bare, Some(word)) == Scan("'" + tail, Bare, Some(word + "'"));
  }

  lemma ScanBareWord(arg: string, rest: string)
    requires arg != "" && AllSafe(arg)
    ensures NulFree(arg) && Scan(arg + rest, Bare, None) == Scan(rest, Bare, Some(arg))
  {
    hide IsSafe, IsSpecial, IsBlank;
    var text := arg + rest;
    ScanSafe(arg, rest, "");
    assert IsSafe(arg[0]) && text[0] == arg[0];
    SafeIsPlain(arg[0]);
    assert "" + arg == arg;
    assert Append(None, text[0]) == Append(Some(""), text[0]);
    assert Scan(text, Bare, None) == Scan(text[1..], Bare, Append(None, text[0]));
  }

  /** A quoted argument is scanned as one word whose text is the argument. */
  lemma ScanQuoted(arg: string, rest: string)
    ensures Scan(Quote(arg) + rest, Bare, None)
         == if NulFree(arg) then Scan(rest, Bare, Some(arg)) else None
  {
    hide ReplaceQuotes, AllSafe;
    var text := Quote(arg) + rest;
    if arg == "" {
      assert text[1..] == "'" + rest && text[1..][1..] == rest;
    } else if AllSafe(arg) {
      ScanBareWord(arg, rest);
    } else {
      assert text[1..] == ReplaceQuotes(arg) + "'" + rest;
      ScanReplaced(arg, rest, "");
      assert "" + arg == arg;
    }
  }

  lemma EmitFirst(rest: Option<seq<string>>, args: seq<string>)
    requires |args| > 0
    ensures Emit(Some(args[0]), rest) == Some(args) <==> rest == Some(args[1..])
  {
    assert args == [args[0]] + args[1..];
    if rest.Some? {
      assert ([args[0]] + rest.value)[1..] == rest.value;
    }
  }

  /** What follows the first argument on the line is scanned as the other arguments. */
  lemma ScanOthers(args: seq<string>)
    requires |args| > 0
    ensures var rest := if |args| == 1 then "" else " " + CommandLine(args[1..]);
            CommandLine(args) == Quote(args[0]) + rest &&
            Scan(rest, Bare, Some(args[0])) == Emit(Some(args[0]), Tokenize(CommandLine(args[1..])))
  {
    hide Quote;
    assert QuoteAll(args)[1..] == QuoteAll(args[1..]);
    if |args| == 1 {
      assert Quote(args[0]) + "" == Quote(args[0]);
    } else {
      var rest := " " + CommandLine(args[1..]);
      assert rest[1..] == CommandLine(args[1..]);
    }
  }

  /** The shell reads the command line back as exactly the arguments, if and only if none holds a NUL. */
  lemma {:induction false} CommandLineRoundTrip(args: seq<string>)
    ensures Tokenize(CommandLine(args)) == Some(args) <==> forall i :: 0 <= i < |args| ==> NulFree(args[i])
  {
    hide Quote, NulFree, Emit, CommandLine;
    if args == [] {
      EmptyLine();
    } else {
      ScanOthers(args);
      ScanQuoted(args[0], if |args| == 1 then "" else " " + CommandLine(args[1..]));
      EmitFirst(Tokenize(CommandLine(args[1..])), args);
      CommandLineRoundTrip(args[1..]);
      assert (forall i :: 0 <= i < |args| ==> NulFree(args[i]))
        <==> NulFree(args[0]) && forall i :: 0 <= i < |args[1..]| ==> NulFree(args[1..][i]);
    }
  }

  lemma EmptyLine()
    ensures CommandLine([]) == "" && Tokenize("") == Some([])
  {
  }
}
