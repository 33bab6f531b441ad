/**
 The parser that takes testify's failure text apart, and the layout it undoes.
 strings.Split, TrimSpace, CutPrefix, HasPrefix and Join are modelled on character sequences.
 */
module FailureDetails {
  import opened Strings
  import opened Wrappers

  /** unicode.IsSpace. */
  predicate IsSpace(c: char) {
    || '\t' <= c <= '\r'
    || c == ' ' || c == '\U{85}' || c == '\U{a0}' || c == '\U{1680}'
    || '\U{2000}' <= c <= '\U{200a}'
    || c == '\U{2028}' || c == '\U{2029}' || c == '\U{202f}' || c == '\U{205f}' || c == '\U{3000}'
  }

  function TrimLeft(s: string): (r: string)
    ensures r == "" || !IsSpace(r[0])
  {
    if s != "" && IsSpace(s[0]) then TrimLeft(s[1..]) else s
  }

  function TrimRight(s: string): (r: string)
    ensures r == "" || !IsSpace(r[|r| - 1])
  {
    if s != "" && IsSpace(s[|s| - 1]) then TrimRight(s[..|s| - 1]) else s
  }

  function TrimSpace(s: string): string {
    TrimRight(TrimLeft(s))
  }

  function Split(s: string): (lines: seq<string>)
    ensures |lines| >= 1
  {
    if s == "" then [""]
    else
      var rest := Split(s[1..]);
      if s[0] == '\n' then [""] + rest else [[s[0]] + rest[0]] + rest[1..]
  }

  function CutPrefix(s: string, prefix: string): Option<string> {
    if prefix <= s then Some(s[|prefix|..]) else None
  }

  // ---------------------------------------------------------------- the parser, as functions

  const ERROR := "Error:"
  const MESSAGES := "Messages:"
  const TRACE := "Error Trace:"
  const TEST := "Test:"

  datatype Section = NoSection | ErrorSection | MessagesSection

  datatype State = State(section: Section, errors: seq<string>, context: seq<string>)

  function AppendNonEmpty(parts: seq<string>, text: string): seq<string> {
    if text != "" then parts + [text] else parts
  }

  /** The effect of one line. */
  function Step(st: State, line: string): State {
    var trimmed := TrimSpace(line);
    if trimmed == "" then st
    else if ERROR <= trimmed then
      State(ErrorSection, AppendNonEmpty(st.errors, TrimSpace(trimmed[|ERROR|..])), st.context)
    else if MESSAGES <= trimmed then
      State(MessagesSection, st.errors, AppendNonEmpty(st.context, TrimSpace(trimmed[|MESSAGES|..])))
    else if TRACE <= trimmed || TEST <= trimmed then st.(section := NoSection)
    else
      match st.section
      case ErrorSection => st.(errors := st.errors + [trimmed])
      case MessagesSection => st.(context := st.context + [trimmed])
      case NoSection => st
  }

  function Run(st: State, lines: seq<string>): State
    decreases lines
  {
    if lines == [] then st else Run(Step(st, lines[0]), lines[1..])
  }

  function Finish(st: State, msg: string): (string, string) {
    var errors := if st.errors == [] then [TrimSpace(msg)] else st.errors;
    (if st.context != [] then Join(errors, "\n") + " | " + st.context[0] else Join(errors, "\n"), Join(st.context, "\n"))
  }

  function Extract(msg: string): (string, string) {
    Finish(Run(State(NoSection, [], []), Split(msg)), msg)
  }

  // ---------------------------------------------------------------- the parser, as the reporter runs it

  method ExtractFailureDetails(msg: string) returns (errorMessage: string, failureContext: string)
    ensures (errorMessage, failureContext) == Extract(msg)
  {
    var lines := Split(msg);
    var section := NoSection;
    var errorParts: seq<string>, contextParts: seq<string> := [], [];
    for i := 0 to |lines|
      invariant Run(State(NoSection, [], []), lines) == Run(State(section, errorParts, contextParts), lines[i..])
    {
      assert lines[i..][1..] == lines[i + 1..];
      var trimmed := TrimSpace(lines[i]);
      if trimmed == "" {
        continue;
      }
      var afterError := CutPrefix(trimmed, ERROR);
      if afterError.Some? {
        section := ErrorSection;
        var clean := TrimSpace(afterError.value);
        if clean != "" {
          errorParts := errorParts + [clean];
        }
        continue;
      }
      var afterMessages := CutPrefix(trimmed, MESSAGES);
      if afterMessages.Some? {
        section := MessagesSection;
        var clean := TrimSpace(afterMessages.value);
        if clean != "" {
          contextParts := contextParts + [clean];
        }
        continue;
      }
      if TRACE <= trimmed || TEST <= trimmed {
        section := NoSection;
        continue;
      }
      match section {
        case ErrorSection => errorParts := errorParts + [trimmed];
        case MessagesSection => contextParts := contextParts + [trimmed];
        case NoSection =>
      }
    }
    assert lines[|lines|..] == [];
    if |errorParts| == 0 {
      errorParts := errorParts + [TrimSpace(msg)];
    }
    errorMessage := Join(errorParts, "\n");
    failureContext := Join(contextParts, "\n");
    if |contextParts| > 0 {
      errorMessage := errorMessage + " | " + contextParts[0];
    }
  }

  // ---------------------------------------------------------------- lines

  predicate OneLine(s: string) {
    '\n' !in s
  }

  lemma {:induction false} SplitOneLine(s: string)
    requires OneLine(s)
    ensures Split(s) == [s]
  {
    if s != "" {
      SplitOneLine(s[1..]);
      assert [s[0]] + s[1..] == s;
    }
  }

  lemma {:induction false} SplitFirst(line: string, rest: string)
    requires OneLine(line)
    ensures Split(line + "\n" + rest) == [line] + Split(rest)
  {
    var s := line + "\n" + rest;
    if line == "" {
      assert s[1..] == rest;
    } else {
      assert s[1..] == line[1..] + "\n" + rest;
      SplitFirst(line[1..], rest);
      assert [line[0]] + line[1..] == line;
    }
  }

  /** Splitting undoes joining lines that hold no newline. */
  lemma {:induction false} SplitJoin(lines: seq<string>)
    requires lines != [] && forall i :: 0 <= i < |lines| ==> OneLine(lines[i])
    ensures Split(Join(lines, "\n")) == lines
  {
    if |lines| == 1 {
      SplitOneLine(lines[0]);
    } else {
      SplitJoin(lines[1..]);
      SplitFirst(lines[0], Join(lines[1..], "\n"));
      assert [lines[0]] + lines[1..] == lines;
    }
  }

  // ---------------------------------------------------------------- trimming

  predicate Blank(s: string) {
    forall i :: 0 <= i < |s| ==> IsSpace(s[i])
  }

  /** Neither end is white space. */
  predicate Trimmed(s: string) {
    s != "" && !IsSpace(s[0]) && !IsSpace(s[|s| - 1])
  }

  lemma {:induction false} TrimBlankLeft(pad: string, s: string)
    requires Blank(pad)
    ensures TrimLeft(pad + s) == TrimLeft(s)
  {
    hide IsSpace;
    if pad == "" {
      assert pad + s == s;
    } else {
      assert (pad + s)[1..] == pad[1..] + s;
      TrimBlankLeft(pad[1..], s);
    }
  }

  lemma TrimPadded(pad: string, s: string)
    requires Blank(pad) && Trimmed(s)
    ensures TrimSpace(pad + s) == s
  {
    TrimmedStays(s);
    hide IsSpace, Blank, TrimLeft, TrimRight;
    TrimBlankLeft(pad, s);
  }

  lemma TrimmedStays(s: string)
    requires Trimmed(s)
    ensures TrimLeft(s) == s && TrimRight(s) == s
  {
    hide IsSpace;
  }

  // ---------------------------------------------------------------- the layout

  predicate IsMarker(s: string) {
    "Error:" <= s || "Messages:" <= s || "Error Trace:" <= s || "Test:" <= s
  }

  /** A labelled block: the heading line carries the first content line, indented lines carry the others. */
  function Labelled(heading: string, pad: string, content: seq<string>, indent: string): seq<string>
    requires content != []
  {
    ["\t" + heading + pad + content[0]] + Indented(content[1..], indent)
  }

  function Indented(content: seq<string>, indent: string): (lines: seq<string>)
    ensures |lines| == |content|
    ensures forall i :: 0 <= i < |content| ==> lines[i] == indent + content[i]
  {
    seq(|content|, i requires 0 <= i < |content| => indent + content[i])
  }

  /** One failure as testify lays it out: trace, error, test name and, if the caller gave any, messages. */
  datatype Failure = Failure(
    trace: seq<string>, errors: seq<string>, test: string, messages: seq<string>,
    tracePad: string, errorPad: string, testPad: string, messagesPad: string, indent: string)

  /**
   Content lines are single, trimmed lines; those of the trace, which are positions, start with no marker;
   padding is blank.
   */
  ghost predicate WellFormed(f: Failure) {
    && f.trace != [] && f.errors != []
    && Content(f.trace) && Content(f.errors) && Content(f.messages) && Content([f.test]) && Clean(f.trace)
    && Padding(f.tracePad) && Padding(f.errorPad) && Padding(f.testPad) && Padding(f.messagesPad) && Padding(f.indent)
  }

  ghost predicate Content(lines: seq<string>) {
    forall i :: 0 <= i < |lines| ==> OneLine(lines[i]) && Trimmed(lines[i])
  }

  /** No continuation line starts with a marker. */
  ghost predicate Clean(lines: seq<string>) {
    forall i :: 1 <= i < |lines| ==> !IsMarker(lines[i])
  }

  predicate Padding(s: string) {
    Blank(s) && OneLine(s)
  }

  function LayoutLines(f: Failure): seq<string>
    requires f.trace != [] && f.errors != []
  {
    [""] + Labelled("Error Trace:", f.tracePad, f.trace, f.indent)
      + Labelled("Error:", f.errorPad, f.errors, f.indent)
      + Labelled("Test:", f.testPad, [f.test], f.indent)
      + (if f.messages == [] then [] else Labelled("Messages:", f.messagesPad, f.messages, f.indent))
      + [""]
  }

  function Layout(f: Failure): string
    requires f.trace != [] && f.errors != []
  {
    Join(LayoutLines(f), "\n")
  }

  // ---------------------------------------------------------------- parsing the layout

  lemma {:induction false} RunSplit(st: State, a: seq<string>, b: seq<string>)
    ensures Run(st, a + b) == Run(Run(st, a), b)
    decreases a
  {
    hide Step;
    if a == [] {
      assert a + b == b;
    } else {
      assert (a + b)[1..] == a[1..] + b;
      RunSplit(Step(st, a[0]), a[1..], b);
    }
  }

  function Collect(st: State, lines: seq<string>): State {
    match st.section
    case ErrorSection => st.(errors := st.errors + lines)
    case MessagesSection => st.(context := st.context + lines)
    case NoSection => st
  }

  lemma CollectTwice(st: State, a: seq<string>, b: seq<string>)
    ensures Collect(Collect(st, a), b) == Collect(st, a + b)
    ensures Collect(st, []) == st
  {
    assert st.errors + a + b == st.errors + (a + b);
    assert st.context + a + b == st.context + (a + b);
    assert st.errors + [] == st.errors && st.context + [] == st.context;
  }

  lemma ContentStep(st: State, indent: string, text: string)
    requires Blank(indent) && Trimmed(text) && !IsMarker(text)
    ensures Step(st, indent + text) == Collect(st, [text])
  {
    hide IsSpace, TrimSpace, Blank;
    TrimPadded(indent, text);
  }

  lemma {:induction false} RunIndented(st: State, content: seq<string>, indent: string)
    requires Blank(indent)
    requires forall i :: 0 <= i < |content| ==> Trimmed(content[i]) && !IsMarker(content[i])
    ensures Run(st, Indented(content, indent)) == Collect(st, content)
    decreases content
  {
    hide Step, Collect, Blank, Trimmed, IsMarker;
    if content == [] {
      CollectTwice(st, [], []);
    } else {
      var lines := Indented(content, indent);
      ContentStep(st, indent, content[0]);
      assert lines[1..] == Indented(content[1..], indent);
      RunIndented(Collect(st, [content[0]]), content[1..], indent);
      CollectTwice(st, [content[0]], content[1..]);
      assert [content[0]] + content[1..] == content;
    }
  }

  /** A heading line is trimmed to the heading followed by its padding and its content. */
  lemma LabelLine(heading: string, pad: string, text: string)
    requires heading != "" && !IsSpace(heading[0]) && Trimmed(text) && Blank(pad)
    ensures TrimSpace("\t" + heading + pad + text) == heading + pad + text
    ensures heading <= heading + pad + text
    ensures TrimSpace((heading + pad + text)[|heading|..]) == text
  {
    hide IsSpace;
    var whole := heading + pad + text;
    assert IsSpace('\t') by { TabIsSpace(); }
    assert Trimmed(whole);
    TrimPadded("\t", whole);
    assert "\t" + whole == "\t" + heading + pad + text;
    assert whole[|heading|..] == pad + text;
    TrimPadded(pad, text);
  }

  lemma TabIsSpace()
    ensures IsSpace('\t')
  {
  }

  predicate IsLabel(heading: string) {
    heading == ERROR || heading == MESSAGES || heading == TRACE || heading == TEST
  }

  /** What the first line of a labelled block does to the state. */
  function Enter(st: State, heading: string, text: string): State {
    if heading == ERROR then State(ErrorSection, st.errors + [text], st.context)
    else if heading == MESSAGES then State(MessagesSection, st.errors, st.context + [text])
    else st.(section := NoSection)
  }

  lemma LabelStep(st: State, heading: string, pad: string, text: string)
    requires IsLabel(heading) && Trimmed(text) && Blank(pad)
    ensures Step(st, "\t" + heading + pad + text) == Enter(st, heading, text)
  {
    LabelLine(heading, pad, text);
    hide IsSpace, TrimSpace, Blank, Trimmed;
    var whole := heading + pad + text;
    assert whole[..|heading|] == heading;
    if heading == ERROR {
    } else if heading == MESSAGES {
      assert whole[0] == 'M';
    } else if heading == TRACE {
      assert whole[0] == 'E' && whole[5] == ' ';
    } else {
      assert whole[0] == 'T';
    }
  }

  lemma RunLabelled(st: State, heading: string, pad: string, content: seq<string>, indent: string)
    requires IsLabel(heading) && content != [] && Content(content) && Clean(content) && Blank(pad) && Blank(indent)
    ensures Run(st, Labelled(heading, pad, content, indent)) == Collect(Enter(st, heading, content[0]), content[1..])
  {
    hide IsSpace, Step, Enter, Collect, IsMarker, Trimmed;
    var lines := Labelled(heading, pad, content, indent);
    LabelStep(st, heading, pad, content[0]);
    assert lines[1..] == Indented(content[1..], indent);
    RunIndented(Enter(st, heading, content[0]), content[1..], indent);
  }

  lemma BlankLine(st: State)
    ensures Run(st, [""]) == st
  {
    assert TrimSpace("") == "";
    assert [""][1..] == [];
    assert Step(st, "") == st;
  }

  /** The first line of a labelled block, then its continuation lines. */
  lemma RunBlock(st: State, heading: string, pad: string, content: seq<string>, indent: string)
    requires IsLabel(heading) && content != [] && Content(content) && Blank(pad)
    ensures Run(st, Labelled(heading, pad, content, indent)) == Run(Enter(st, heading, content[0]), Indented(content[1..], indent))
  {
    hide IsSpace, Step, Enter, Trimmed;
    var lines := Labelled(heading, pad, content, indent);
    LabelStep(st, heading, pad, content[0]);
    assert lines[1..] == Indented(content[1..], indent);
  }

  /** The state after the errors of a layout, and after its messages. */
  function AfterErrors(f: Failure): State
    requires f.errors != []
  {
    Run(State(ErrorSection, [f.errors[0]], []), Indented(f.errors[1..], f.indent))
  }

  function AfterMessages(f: Failure): State
    requires f.errors != []
  {
    var st := AfterErrors(f).(section := NoSection);
    if f.messages == [] then st else Run(Enter(st, MESSAGES, f.messages[0]), Indented(f.messages[1..], f.indent))
  }

  lemma RunLayout(f: Failure)
    requires WellFormed(f)
    ensures Run(State(NoSection, [], []), LayoutLines(f)) == AfterMessages(f)
  {
    hide Step, Run, IsSpace, Content, Clean, Blank, OneLine, Labelled, Indented;
    var st0 := State(NoSection, [], []);
    var trace := Labelled("Error Trace:", f.tracePad, f.trace, f.indent);
    var errors := Labelled("Error:", f.errorPad, f.errors, f.indent);
    var test := Labelled("Test:", f.testPad, [f.test], f.indent);
    var messages := if f.messages == [] then [] else Labelled("Messages:", f.messagesPad, f.messages, f.indent);
    RunSplit(st0, [""] + trace + errors + test + messages, [""]);
    RunSplit(st0, [""] + trace + errors + test, messages);
    RunSplit(st0, [""] + trace + errors, test);
    RunSplit(st0, [""] + trace, errors);
    RunSplit(st0, [""], trace);
    BlankLine(st0);
    RunLabelled(st0, "Error Trace:", f.tracePad, f.trace, f.indent);
    RunBlock(st0, "Error:", f.errorPad, f.errors, f.indent);
    assert [] + [f.errors[0]] == [f.errors[0]];
    CleanOne(f.test);
    RunLabelled(AfterErrors(f), "Test:", f.testPad, [f.test], f.indent);
    assert [f.test][1..] == [];
    var st3 := AfterErrors(f).(section := NoSection);
    CollectTwice(st3, [], []);
    BlankLine(AfterMessages(f));
    if f.messages == [] {
      RunNothing(st3);
    } else {
      RunBlock(st3, "Messages:", f.messagesPad, f.messages, f.indent);
    }
  }

  lemma CleanOne(line: string)
    ensures Clean([line])
  {
  }

  lemma RunNothing(st: State)
    ensures Run(st, []) == st
  {
  }

  lemma LayoutIsLines(f: Failure)
    requires WellFormed(f)
    ensures forall i :: 0 <= i < |LayoutLines(f)| ==> OneLine(LayoutLines(f)[i])
  {
    hide IsSpace, IsMarker, Trimmed, Blank;
    LabelledIsLines("Error Trace:", f.tracePad, f.trace, f.indent);
    LabelledIsLines("Error:", f.errorPad, f.errors, f.indent);
    LabelledIsLines("Test:", f.testPad, [f.test], f.indent);
    if f.messages != [] {
      LabelledIsLines("Messages:", f.messagesPad, f.messages, f.indent);
    }
  }

  lemma LabelledIsLines(heading: string, pad: string, content: seq<string>, indent: string)
    requires content != [] && OneLine(heading) && OneLine(pad) && OneLine(indent)
    requires forall i :: 0 <= i < |content| ==> OneLine(content[i])
    ensures forall i :: 0 <= i < |Labelled(heading, pad, content, indent)| ==> OneLine(Labelled(heading, pad, content, indent)[i])
  {
  }

  // ---------------------------------------------------------------- nothing but clean lines comes back

  function Total(lines: seq<string>): nat {
    if lines == [] then 0 else Total(lines[..|lines| - 1]) + |lines[|lines| - 1]|
  }

  /** The text kept so far. */
  function Size(st: State): nat {
    Total(st.errors) + Total(st.context)
  }

  lemma TotalSnoc(lines: seq<string>, line: string)
    ensures Total(lines + [line]) == Total(lines) + |line|
  {
    assert (lines + [line])[..|lines|] == lines;
  }

  lemma {:induction false} TotalFirst(lines: seq<string>)
    requires lines != []
    ensures Total(lines) == |lines[0]| + Total(lines[1..])
  {
    var n := |lines|;
    if n > 1 {
      TotalFirst(lines[..n - 1]);
      assert lines[..n - 1][1..] == lines[1..][..n - 2] && lines[1..][n - 2] == lines[n - 1];
    } else {
      assert lines[..n - 1] == [] && lines[1..] == [];
    }
  }

  lemma {:induction false} TrimShortens(s: string)
    ensures |TrimLeft(s)| <= |s| && |TrimRight(s)| <= |s|
    ensures OneLine(s) ==> OneLine(TrimLeft(s)) && OneLine(TrimRight(s))
    decreases s
  {
    hide IsSpace;
    if s != "" {
      TrimShortens(s[1..]);
      TrimShortens(s[..|s| - 1]);
    }
  }

  /** Single, non-empty lines. */
  ghost predicate Single(lines: seq<string>) {
    forall i :: 0 <= i < |lines| ==> OneLine(lines[i]) && lines[i] != ""
  }

  /** What was kept is single, non-empty lines, and there are errors among it. */
  ghost predicate Kept(st: State) {
    st.errors != [] && Single(st.errors) && Single(st.context)
  }

  lemma AppendAdds(lines: seq<string>, text: string)
    requires Single(lines) && OneLine(text)
    ensures Single(AppendNonEmpty(lines, text)) && Total(AppendNonEmpty(lines, text)) == Total(lines) + |text|
    ensures text != "" ==> AppendNonEmpty(lines, text) == lines + [text]
    ensures lines != [] ==> AppendNonEmpty(lines, text) != []
  {
    hide OneLine;
    TotalSnoc(lines, text);
  }

  /** A continuation line adds no more than its text, and less if it starts with a marker. */
  lemma LineAdds(st: State, indent: string, text: string)
    requires Kept(st) && Blank(indent) && Trimmed(text) && OneLine(text)
    ensures Kept(Step(st, indent + text))
    ensures Size(Step(st, indent + text)) <= Size(st) + |text|
    ensures IsMarker(text) ==> Size(Step(st, indent + text)) < Size(st) + |text|
  {
    TrimPadded(indent, text);
    assert text != "";
    hide IsSpace, Trimmed, Blank, TrimSpace, Single, AppendNonEmpty, Total, OneLine;
    if ERROR <= text {
      MarkerAdds(text, ERROR);
      AppendAdds(st.errors, TrimSpace(text[|ERROR|..]));
    } else if MESSAGES <= text {
      MarkerAdds(text, MESSAGES);
      AppendAdds(st.context, TrimSpace(text[|MESSAGES|..]));
    } else if !(TRACE <= text || TEST <= text) {
      AppendAdds(st.errors, text);
      AppendAdds(st.context, text);
    }
  }

  lemma MarkerAdds(text: string, marker: string)
    requires OneLine(text) && marker != ""
    ensures marker <= text ==> |TrimSpace(text[|marker|..])| < |text| && OneLine(TrimSpace(text[|marker|..]))
  {
    hide IsSpace;
    if marker <= text {
      TrimShortens(text[|marker|..]);
      TrimShortens(TrimLeft(text[|marker|..]));
    }
  }

  lemma {:induction false} LinesAdd(st: State, content: seq<string>, indent: string)
    requires Kept(st) && Content(content) && Blank(indent)
    ensures Kept(Run(st, Indented(content, indent)))
    ensures Size(Run(st, Indented(content, indent))) <= Size(st) + Total(content)
    ensures (exists i :: 0 <= i < |content| && IsMarker(content[i])) ==>
              Size(Run(st, Indented(content, indent))) < Size(st) + Total(content)
    decreases content
  {
    hide IsSpace, Step, Size, Total, Kept, IsMarker, Trimmed, Blank, OneLine;
    if content != [] {
      var lines := Indented(content, indent);
      assert lines[1..] == Indented(content[1..], indent);
      LineAdds(st, indent, content[0]);
      LinesAdd(Step(st, lines[0]), content[1..], indent);
      TotalFirst(content);
      if i :| 0 <= i < |content| && IsMarker(content[i]) && i > 0 {
        assert content[1..][i - 1] == content[i];
      }
    }
  }

  ghost predicate AllClean(f: Failure) {
    Clean(f.errors) && Clean(f.messages)
  }

  lemma CleanTail(content: seq<string>)
    requires content != []
    ensures Clean(content) <==> !exists i :: 0 <= i < |content[1..]| && IsMarker(content[1..][i])
  {
    hide IsMarker;
    if i :| 1 <= i < |content| && IsMarker(content[i]) {
      assert content[1..][i - 1] == content[i];
    }
    assert forall i :: 0 <= i < |content[1..]| ==> content[1..][i] == content[i + 1];
  }

  /** All the text comes back only if every continuation line is clean. */
  lemma KeptText(f: Failure)
    requires WellFormed(f)
    ensures Kept(AfterMessages(f))
    ensures Size(AfterMessages(f)) <= Total(f.errors) + Total(f.messages)
    ensures !AllClean(f) ==> Size(AfterMessages(f)) < Total(f.errors) + Total(f.messages)
  {
    hide IsSpace, Run, IsMarker, Blank, OneLine, Total;
    var st1 := State(ErrorSection, [f.errors[0]], []);
    LinesAdd(st1, f.errors[1..], f.indent);
    TotalFirst(f.errors);
    CleanTail(f.errors);
    OneTotal(f.errors[0]);
    if f.messages != [] {
      var st := AfterErrors(f).(section := NoSection);
      TotalSnoc(st.context, f.messages[0]);
      LinesAdd(Enter(st, MESSAGES, f.messages[0]), f.messages[1..], f.indent);
      TotalFirst(f.messages);
      CleanTail(f.messages);
    }
  }

  lemma OneTotal(line: string)
    ensures Total([line]) == |line| && Total([]) == 0
  {
    assert [line][..0] == [];
  }

  lemma CleanComesBack(f: Failure)
    requires WellFormed(f) && AllClean(f)
    ensures AfterMessages(f).errors == f.errors && AfterMessages(f).context == f.messages
  {
    hide IsSpace, Run, IsMarker, Blank, OneLine;
    RunIndented(State(ErrorSection, [f.errors[0]], []), f.errors[1..], f.indent);
    assert [f.errors[0]] + f.errors[1..] == f.errors;
    if f.messages != [] {
      var st := State(NoSection, f.errors, []);
      RunIndented(Enter(st, MESSAGES, f.messages[0]), f.messages[1..], f.indent);
      assert [] + [f.messages[0]] + f.messages[1..] == f.messages;
    }
  }

  lemma JoinInjective(a: seq<string>, b: seq<string>)
    requires Single(a) && Single(b) && Join(a, "\n") == Join(b, "\n")
    ensures a == b
  {
    if a != [] && b != [] {
      SplitJoin(a);
      SplitJoin(b);
    }
  }

  /** Equal results come from equal error and message lines. */
  lemma FinishInjective(s: State, t: State, msg: string, other: string)
    requires Kept(s) && Kept(t) && Finish(s, msg) == Finish(t, other)
    ensures s.errors == t.errors && s.context == t.context
  {
    hide Join, OneLine;
    JoinInjective(s.context, t.context);
    if s.context != [] {
      var tail := " | " + s.context[0];
      assert Join(s.errors, "\n") + tail == Join(s.errors, "\n") + " | " + s.context[0];
      assert Join(t.errors, "\n") + tail == Join(t.errors, "\n") + " | " + t.context[0];
      SameFront(Join(s.errors, "\n"), Join(t.errors, "\n"), tail);
    }
    JoinInjective(s.errors, t.errors);
  }

  lemma SameFront(a: string, b: string, tail: string)
    requires a + tail == b + tail
    ensures a == b
  {
    assert (a + tail)[..|a|] == a && (b + tail)[..|b|] == b;
  }

  /**
   Parsing the laid-out text gives back the error lines joined, with the first message line as a suffix, and
   the message lines joined as context, if and only if no continuation line of errors or messages starts with
   a marker.
   */
  lemma ExtractUndoesLayout(f: Failure)
    requires WellFormed(f)
    ensures Extract(Layout(f)) ==
            (if f.messages == [] then Join(f.errors, "\n") else Join(f.errors, "\n") + " | " + f.messages[0], Join(f.messages, "\n"))
       <==> AllClean(f)
  {
    var st, meant := AfterMessages(f), State(NoSection, f.errors, f.messages);
    KeptText(f);
    assert Kept(meant) by { ContentKept(f); }
    LayoutIsLines(f);
    LayoutNonEmpty(f);
    if AllClean(f) {
      CleanComesBack(f);
    }
    hide IsSpace, Content, Clean, Run, LayoutLines, Kept, AfterMessages, AllClean, Join;
    SplitJoin(LayoutLines(f));
    RunLayout(f);
    if Finish(st, Layout(f)) == Finish(meant, Layout(f)) {
      FinishInjective(st, meant, Layout(f), Layout(f));
    }
  }

  lemma ContentKept(f: Failure)
    requires WellFormed(f)
    ensures Kept(State(NoSection, f.errors, f.messages))
  {
    hide IsSpace, OneLine;
  }

  /** Text in which no line starts with a marker is passed on whole, trimmed, without context. */
  lemma PlainTextPassedOn(msg: string)
    requires forall i :: 0 <= i < |Split(msg)| ==> !IsMarker(TrimSpace(Split(msg)[i]))
    ensures Extract(msg) == (TrimSpace(msg), "")
  {
    hide TrimSpace, IsMarker, Step;
    RunPlain(Split(msg));
  }

  lemma {:induction false} RunPlain(lines: seq<string>)
    requires forall i :: 0 <= i < |lines| ==> !IsMarker(TrimSpace(lines[i]))
    ensures Run(State(NoSection, [], []), lines) == State(NoSection, [], [])
    decreases lines
  {
    hide TrimSpace;
    if lines != [] {
      RunPlain(lines[1..]);
    }
  }

  lemma LayoutNonEmpty(f: Failure)
    requires f.trace != [] && f.errors != []
    ensures LayoutLines(f) != []
  {
  }

  // ---------------------------------------------------------------- any text

  /** The text that a line contributes: what follows its heading, or all of it, trimmed. */
  function Payload(line: string): string {
    var t := TrimSpace(line);
    if "Error:" <= t then TrimSpace(t[6..]) else if "Messages:" <= t then TrimSpace(t[9..]) else t
  }

  /** The nearest heading at or above line i is the given one. */
  ghost predicate Under(lines: seq<string>, heading: string, i: nat) {
    exists j :: 0 <= j <= i < |lines| && heading <= TrimSpace(lines[j]) &&
                forall k :: j < k <= i ==> !IsMarker(TrimSpace(lines[k]))
  }

  ghost predicate Gives(lines: seq<string>, heading: string, i: nat) {
    i < |lines| && Under(lines, heading, i) && Payload(lines[i]) != ""
  }

  /** The non-empty payloads of exactly the lines under a heading, in order. */
  ghost predicate Picked(lines: seq<string>, heading: string, picks: seq<nat>, texts: seq<string>) {
    && |picks| == |texts|
    && (forall p, q :: 0 <= p < q < |picks| ==> picks[p] < picks[q])
    && (forall i: nat :: i in picks <==> Gives(lines, heading, i))
    && forall p :: 0 <= p < |picks| ==> picks[p] < |lines| && texts[p] == Payload(lines[picks[p]])
  }

  lemma UnderNext(lines: seq<string>, heading: string, i: nat)
    requires i < |lines|
    ensures Under(lines, heading, i) <==>
            heading <= TrimSpace(lines[i]) || (!IsMarker(TrimSpace(lines[i])) && i > 0 && Under(lines, heading, i - 1))
  {
    hide TrimSpace, IsMarker;
  }

  lemma UnderFront(lines: seq<string>, heading: string, n: nat, i: nat)
    requires i < n <= |lines|
    ensures Under(lines[..n], heading, i) <==> Under(lines, heading, i)
  {
    hide TrimSpace, IsMarker;
    var front := lines[..n];
    assert forall k :: 0 <= k < n ==> front[k] == lines[k];
  }

  lemma PickNext(lines: seq<string>, heading: string, picks: seq<nat>, texts: seq<string>) returns (more: seq<nat>)
    requires lines != [] && Picked(lines[..|lines| - 1], heading, picks, texts)
    ensures var n := |lines| - 1;
            Picked(lines, heading, more, texts + if Under(lines, heading, n) && Payload(lines[n]) != "" then [Payload(lines[n])] else [])
  {
    var n := |lines| - 1;
    GivesFront(lines, heading);
    hide Under, Payload, Gives;
    var front := lines[..n];
    assert forall p :: 0 <= p < |picks| ==> picks[p] in picks;
    more := picks;
    if Gives(lines, heading, n) {
      more := picks + [n];
      assert forall i :: i in more <==> i in picks || i == n;
    } else {
      assert texts + [] == texts;
    }
  }

  lemma GivesFront(lines: seq<string>, heading: string)
    requires lines != []
    ensures var n := |lines| - 1;
            (forall i: nat :: Gives(lines[..n], heading, i) <==> i < n && Gives(lines, heading, i)) &&
            (Gives(lines, heading, n) <==> Under(lines, heading, n) && Payload(lines[n]) != "") &&
            forall i: nat :: Gives(lines, heading, i) ==> i <= n
  {
    hide Under, Payload;
    var n := |lines| - 1;
    forall i: nat | i < n ensures lines[..n][i] == lines[i] && (Under(lines[..n], heading, i) <==> Under(lines, heading, i)) {
      UnderFront(lines, heading, n, i);
    }
  }

  /** What one line does, in terms of the heading it is under. */
  lemma StepPicks(st: State, line: string, error: bool, message: bool)
    requires st.section.ErrorSection? <==> error
    requires st.section.MessagesSection? <==> message
    ensures var t, next := TrimSpace(line), Step(st, line);
            var inError := "Error:" <= t || (!IsMarker(t) && error);
            var inMessage := "Messages:" <= t || (!IsMarker(t) && message);
            (next.section.ErrorSection? <==> inError) && (next.section.MessagesSection? <==> inMessage) &&
            next.errors == st.errors + (if inError && Payload(line) != "" then [Payload(line)] else []) &&
            next.context == st.context + (if inMessage && Payload(line) != "" then [Payload(line)] else [])
  {
    hide TrimSpace;
    var t := TrimSpace(line);
    Headings(t);
    assert st.errors + [] == st.errors && st.context + [] == st.context;
  }

  /** No text starts with two headings, and the empty one starts with none. */
  lemma Headings(t: string)
    ensures "Error:" <= t ==> t[0] == 'E' && t[5] == ':'
    ensures "Messages:" <= t ==> t[0] == 'M'
    ensures "Error Trace:" <= t ==> t[0] == 'E' && t[5] == ' '
    ensures "Test:" <= t ==> t[0] == 'T'
  {
  }

  lemma {:induction false} LinesPicked(lines: seq<string>) returns (errors: seq<nat>, messages: seq<nat>)
    ensures var st, n := Run(State(NoSection, [], []), lines), |lines| - 1;
            Picked(lines, "Error:", errors, st.errors) && Picked(lines, "Messages:", messages, st.context) &&
            (st.section.ErrorSection? <==> n >= 0 && Under(lines, "Error:", n)) &&
            (st.section.MessagesSection? <==> n >= 0 && Under(lines, "Messages:", n))
  {
    hide Step, TrimSpace, Payload, IsMarker, Under;
    errors, messages := [], [];
    if lines != [] {
      var n := |lines| - 1;
      var front, st0 := lines[..n], State(NoSection, [], []);
      assert front + [lines[n]] == lines;
      RunSplit(st0, front, [lines[n]]);
      var st := Run(st0, front);
      assert Run(st, [lines[n]]) == Step(st, lines[n]);
      errors, messages := LinesPicked(front);
      errors := PickNext(lines, "Error:", errors, st.errors);
      messages := PickNext(lines, "Messages:", messages, st.context);
      hide Picked, Run;
      UnderNext(lines, "Error:", n);
      UnderNext(lines, "Messages:", n);
      if n > 0 {
        UnderFront(lines, "Error:", n, n - 1);
        UnderFront(lines, "Messages:", n, n - 1);
      }
      StepPicks(st, lines[n], n > 0 && Under(lines, "Error:", n - 1), n > 0 && Under(lines, "Messages:", n - 1));
    }
  }

  /**
   For any text: the message joins the payloads of the lines under an Error heading, or is the trimmed text if there
   are none, and ends with the first payload under a Messages heading; the context joins all of those.
   */
  lemma ExtractMeans(msg: string) returns (e: seq<nat>, errors: seq<string>, m: seq<nat>, messages: seq<string>)
    ensures Picked(Split(msg), "Error:", e, errors) && Picked(Split(msg), "Messages:", m, messages)
    ensures Extract(msg).0 == (if errors == [] then TrimSpace(msg) else Join(errors, "\n"))
                              + (if messages == [] then "" else " | " + messages[0])
    ensures Extract(msg).1 == Join(messages, "\n")
  {
    hide TrimSpace, Run, Split, Picked;
    e, m := LinesPicked(Split(msg));
    var st := Run(State(NoSection, [], []), Split(msg));
    errors, messages := st.errors, st.context;
    assert Join([TrimSpace(msg)], "\n") == TrimSpace(msg);
    var text := if errors == [] then TrimSpace(msg) else Join(errors, "\n");
    if messages == [] {
      assert text + "" == text;
    } else {
      assert text + " | " + messages[0] == text + (" | " + messages[0]);
    }
  }

  /** Lines are split at every newline and nowhere else. */
  lemma {:induction false} JoinSplit(s: string)
    ensures Join(Split(s), "\n") == s
    ensures forall i :: 0 <= i < |Split(s)| ==> OneLine(Split(s)[i])
  {
    if s != "" {
      var rest := Split(s[1..]);
      JoinSplit(s[1..]);
      if s[0] == '\n' {
        assert Split(s)[1..] == rest;
        assert s == "" + "\n" + s[1..];
      } else {
        var first := [s[0]] + rest[0];
        assert Split(s)[1..] == rest[1..] && Split(s)[0] == first;
        assert s == [s[0]] + s[1..];
        if |rest| > 1 {
          assert [s[0]] + (rest[0] + "\n" + Join(rest[1..], "\n")) == first + "\n" + Join(rest[1..], "\n");
        }
      }
    }
  }

  /** White space as Unicode lists it. */
  predicate IsWhite(c: char) {
    c in [
      '\t', '\n', '\U{b}', '\U{c}', '\r', ' ', '\U{85}', '\U{a0}', '\U{1680}', '\U{2000}', '\U{2001}', '\U{2002}', '\U{2003}',
      '\U{2004}', '\U{2005}', '\U{2006}', '\U{2007}', '\U{2008}', '\U{2009}', '\U{200a}', '\U{2028}', '\U{2029}', '\U{202f}',
      '\U{205f}', '\U{3000}']
  }

  /** Trimming takes away white space at both ends, all of it, and nothing else. */
  lemma TrimSpaceMeans(s: string) returns (i: nat, j: nat)
    ensures i <= j <= |s| && TrimSpace(s) == s[i..j]
    ensures forall k :: 0 <= k < i || j <= k < |s| ==> IsWhite(s[k])
    ensures i < j ==> !IsWhite(s[i]) && !IsWhite(s[j - 1])
  {
    i, j := TrimCuts(s);
    hide TrimSpace, IsSpace, IsWhite;
    forall k | 0 <= k < |s| ensures IsSpace(s[k]) <==> IsWhite(s[k]) {
      SpaceListed(s[k]);
    }
  }

  lemma TrimCuts(s: string) returns (i: nat, j: nat)
    ensures i <= j <= |s| && TrimSpace(s) == s[i..j]
    ensures forall k :: 0 <= k < i || j <= k < |s| ==> IsSpace(s[k])
    ensures i < j ==> !IsSpace(s[i]) && !IsSpace(s[j - 1])
  {
    hide IsSpace;
    i := LeftCut(s);
    var rest := s[i..];
    assert rest == "" || !IsSpace(rest[0]);
    var cut := RightCut(rest);
    var trimmed := TrimRight(rest);
    assert trimmed == "" || !IsSpace(trimmed[|trimmed| - 1]);
    j := i + cut;
    hide TrimLeft, TrimRight;
    assert trimmed == s[i..j];
    assert forall k :: j <= k < |s| ==> s[k] == rest[k - i];
  }

  lemma SpaceListed(c: char)
    ensures IsSpace(c) <==> IsWhite(c)
  {
  }

  lemma {:induction false} LeftCut(s: string) returns (i: nat)
    ensures i <= |s| && TrimLeft(s) == s[i..]
    ensures forall k :: 0 <= k < i ==> IsSpace(s[k])
  {
    hide IsSpace;
    i := 0;
    if s != "" && IsSpace(s[0]) {
      var rest := LeftCut(s[1..]);
      i := rest + 1;
      assert forall k :: 1 <= k < i ==> s[k] == s[1..][k - 1];
    }
  }

  lemma {:induction false} RightCut(s: string) returns (j: nat)
    ensures j <= |s| && TrimRight(s) == s[..j]
    ensures forall k :: j <= k < |s| ==> IsSpace(s[k])
  {
    hide IsSpace;
    j := |s|;
    if s != "" && IsSpace(s[|s| - 1]) {
      j := RightCut(s[..|s| - 1]);
    }
  }
}
