/** Brace counting: one pass over a line, against stripping first and counting afterwards. */
module Braces {

  predicate IsQuote(c: char) {
    c == '"' || c == '\'' || c == '`'
  }

  datatype Mode = Code | Quoted(quote: char)

  /** What is left of a line when quoted text and a trailing comment are deleted, starting inside
      code or inside a string opened by the given quote. */
  function Strip(line: string, mode: Mode): string
    decreases |line|
  {
    if line == [] then []
    else if mode.Quoted? then
      if line[0] == '\\' && |line| > 1 then Strip(line[2..], mode)
      else Strip(line[1..], if line[0] == mode.quote then Code else mode)
    else if line[0] == '/' && |line| > 1 && line[1] == '/' then []
    else if IsQuote(line[0]) then Strip(line[1..], Quoted(line[0]))
    else [line[0]] + Strip(line[1..], Code)
  }

  function Count(s: string, c: char): nat {
    if s == [] then 0 else (if s[0] == c then 1 else 0) + Count(s[1..], c)
  }

  /** Opening minus closing braces outside strings and comments. */
  function NetBraces(line: string): int {
    Count(Strip(line, Code), '{') - Count(Strip(line, Code), '}')
  }

  lemma {:induction false} StripPlain(line: string)
    requires forall k :: 0 <= k < |line| ==> !IsQuote(line[k]) && line[k] != '/'
    ensures Strip(line, Code) == line
  {
    if line != [] {
      StripPlain(line[1..]);
    }
  }

  /** The text of a string between its quotes: other characters than the quote, and a backslash only
      with the character it escapes. */
  predicate Inside(body: string, quote: char) {
    body == "" ||
    if body[0] == '\\' then |body| > 1 && Inside(body[2..], quote)
    else body[0] != quote && Inside(body[1..], quote)
  }

  /** A string is deleted with its quotes, whichever of the three they are. */
  lemma StripString(quote: char, body: string, rest: string)
    requires IsQuote(quote) && Inside(body, quote)
    ensures Strip([quote] + body + [quote] + rest, Code) == Strip(rest, Code)
    ensures Strip([quote] + body, Code) == ""
  {
    InsideString(quote, body, [quote] + rest);
    InsideString(quote, body, "");
    assert [quote] + body + [quote] + rest == [quote] + (body + ([quote] + rest));
    assert ([quote] + (body + ([quote] + rest)))[1..] == body + ([quote] + rest);
    assert ([quote] + body)[1..] == body && body + "" == body;
    assert ([quote] + rest)[1..] == rest;
  }

  lemma {:induction false} InsideString(quote: char, body: string, rest: string)
    requires IsQuote(quote) && Inside(body, quote)
    ensures Strip(body + rest, Quoted(quote)) == Strip(rest, Quoted(quote))
    decreases |body|
  {
    if body == "" {
      assert body + rest == rest;
    } else if body[0] == '\\' {
      assert (body + rest)[2..] == body[2..] + rest;
      InsideString(quote, body[2..], rest);
    } else {
      assert (body + rest)[1..] == body[1..] + rest;
      InsideString(quote, body[1..], rest);
    }
  }

  /** A comment is deleted to the end of the line, and every other character of code is kept. */
  lemma StripCode(c: char, rest: string)
    ensures Strip("//" + rest, Code) == ""
    ensures !IsQuote(c) && !(c == '/' && rest != "" && rest[0] == '/') ==>
              Strip([c] + rest, Code) == [c] + Strip(rest, Code)
  {
    assert ([c] + rest)[1..] == rest;
  }

  method CountNetBraces(line: string) returns (net: int)
    ensures net == NetBraces(line)
  {
    net := 0;
    var inString, stringChar := false, '\0';
    var i := 0;
    while i < |line|
      invariant 0 <= i <= |line|
      invariant var rest := Strip(line[i..], if inString then Quoted(stringChar) else Code);
                NetBraces(line) == net + Count(rest, '{') - Count(rest, '}')
    {
      var ch := line[i];
      assert line[i..][0] == ch && line[i..][1..] == line[i + 1..];
      if inString {
        if ch == '\\' && i + 1 < |line| {
          assert line[i..][2..] == line[i + 2..];
          i := i + 2;
          continue;
        }
        if ch == stringChar {
          inString := false;
        }
        i := i + 1;
        continue;
      }
      if ch == '/' && i + 1 < |line| && line[i + 1] == '/' {
        return;
      }
      if ch == '"' || ch == '\'' || ch == '`' {
        inString := true;
        stringChar := ch;
        i := i + 1;
        continue;
      }
      ghost var tail := Strip(line[i + 1..], Code);
      assert Strip(line[i..], Code) == [ch] + tail && ([ch] + tail)[1..] == tail;
      match ch {
        case '{' => net := net + 1;
        case '}' => net := net - 1;
        case _ =>
      }
      i := i + 1;
    }
  }
}

/** The source formatter. */
module Formatter {
  import opened Text
  import opened Braces

  const KEYWORDS: set<string> := {
    "server", "database", "cache", "broker", "route", "fn", "every", "cron",
    "subscribe", "test", "struct", "interface", "middleware", "ws", "enum", "validate",
    "type", "export", "app", "agent"
  }

  function TrimOpeners(word: string): string {
    if word != [] && (word[|word| - 1] == '(' || word[|word| - 1] == '{' || word[|word| - 1] == '[')
    then TrimOpeners(word[..|word| - 1]) else word
  }

  /** The line starts a top-level declaration. */
  predicate StartsDeclaration(trimmed: string) {
    Fields(trimmed) != [] && TrimOpeners(Fields(trimmed)[0]) in KEYWORDS
  }

  predicate Closes(trimmed: string) {
    "}" <= trimmed || "]" <= trimmed
  }

  function Max(a: int, b: int): int {
    if a < b then b else a
  }

  function Indent(level: nat): string {
    seq(4 * level, _ => ' ')
  }

  // ---------------------------------------------------------------- the formatter as written

  /** One pass over the lines, then trailing blank lines go and one newline comes back. */
  method FormatText(content: string) returns (output: string)
    ensures output == Format(content)
  {
    hide StartsDeclaration, NetBraces, TrimLeft, TrimRight, Reaches, Layout, Entries, Split, Join, DropBlankTail;
    var lines := Split(content, '\n');
    SplitPieces(content, '\n');
    var result: seq<string> := [];
    var indentLevel := 0;
    var prevEmpty := false;
    var prevWasBlock := false;
    NothingRead();
    assert lines[..0] == [];
    for i := 0 to |lines|
      invariant indentLevel >= 0
      invariant Reaches(lines[..i], result, indentLevel, prevEmpty, prevWasBlock)
    {
      assert lines[..i + 1] == lines[..i] + [lines[i]];
      var trimmed := TrimSpace(lines[i]);
      if trimmed == "" {
        BlankStep(lines[..i], lines[i], result, indentLevel, prevEmpty, prevWasBlock);
        if !prevEmpty {
          result := result + [""];
          prevEmpty := true;
        }
        continue;
      }
      TextStep(lines[..i], lines[i], result, indentLevel, prevEmpty, prevWasBlock);
      prevEmpty := false;
      TrimSpaceTrims(lines[i]);
      result, indentLevel := FormatLine(i, trimmed, result, indentLevel, prevEmpty, prevWasBlock);
      prevWasBlock := "}" <= trimmed;
    }
    assert lines[..|lines|] == lines;
    TailOfRun(lines, result, indentLevel, prevEmpty, prevWasBlock);
    result := DropTrailing(result);
    output := Join(result, "\n") + "\n";
  }

  method DropTrailing(lines: seq<string>) returns (result: seq<string>)
    ensures result == DropBlankTail(lines)
  {
    result := lines;
    while |result| > 0 && TrimSpace(result[|result| - 1]) == ""
      invariant DropBlankTail(result) == DropBlankTail(lines)
    {
      result := result[..|result| - 1];
    }
  }

  /** Writing one non-blank line. */
  method FormatLine(i: nat, trimmed: string, before: seq<string>, level: nat, prevEmpty: bool, prevWasBlock: bool)
    returns (result: seq<string>, indentLevel: nat)
    requires trimmed != "" && IsTrimmed(trimmed) && !prevEmpty
    requires i == 0 ==> before == []
    ensures result == before + WithBlank(InsertsBlank(before, level, trimmed, prevWasBlock), level, trimmed)
    ensures indentLevel == NextLevel(level, trimmed)
  {
    result := before;
    var current: int := level;
    var netBraces := CountNetBraces(trimmed);
    if "}" <= trimmed || "]" <= trimmed {
      current := current - 1;
      if current < 0 {
        current := 0;
      }
    }
    if current == 0 && i > 0 {
      assert Fields(trimmed) != [];
      var firstWord := Fields(trimmed)[0];
      firstWord := TrimOpeners(firstWord);
      if firstWord in KEYWORDS && !prevEmpty && |result| > 0 && result[|result| - 1] != "" {
        if !prevWasBlock {
          result := result + [""];
        }
      }
    }
    var formatted := Indent(current) + trimmed;
    result := result + [formatted];
    if netBraces > 0 {
      current := current + netBraces;
    } else if netBraces < 0 && !("}" <= trimmed) && !("]" <= trimmed) {
      current := current + netBraces;
      if current < 0 {
        current := 0;
      }
    }
    indentLevel := current;
  }

  // ---------------------------------------------------------------- what it means

  /** A non-blank source line: its text, and whether the line before it is blank. */
  datatype Entry = Entry(gap: bool, text: string)

  predicate Blank(line: string) {
    TrimSpace(line) == ""
  }

  predicate EndsBlank(lines: seq<string>) {
    lines != [] && Blank(lines[|lines| - 1])
  }

  function Entries(lines: seq<string>): seq<Entry> {
    if lines == [] then []
    else
      var n := |lines| - 1;
      if Blank(lines[n]) then Entries(lines[..n])
      else Entries(lines[..n]) + [Entry(EndsBlank(lines[..n]), TrimSpace(lines[n]))]
  }

  /** The level a line is written at, given the level left by the lines before it. */
  function WrittenLevel(level: nat, text: string): nat {
    if Closes(text) then Max(0, level - 1) else level
  }

  /** The level after a line. A line that starts with a closer is taken back by one level only, and
      never gives a level back. */
  function NextLevel(level: nat, text: string): nat {
    var written := WrittenLevel(level, text);
    var net := NetBraces(text);
    if net > 0 then written + net
    else if Closes(text) then written
    else Max(0, written + net)
  }

  /** The level line by line: a line that starts with a closer takes one level back, whatever it
      closes; every other line takes back what it closes; what it opens is added. */
  lemma LevelByCases(level: nat, text: string)
    ensures var closer := "}" <= text || "]" <= text;
            var net := NetBraces(text);
            && (!closer && net >= 0 ==> NextLevel(level, text) == level + net)
            && (!closer && net < 0 <= level + net ==> NextLevel(level, text) == level + net)
            && (!closer && level + net < 0 ==> NextLevel(level, text) == 0)
            && (closer && level > 0 && net <= 0 ==> NextLevel(level, text) == level - 1)
            && (closer && level > 0 && net > 0 ==> NextLevel(level, text) == level - 1 + net)
            && (closer && level == 0 && net <= 0 ==> NextLevel(level, text) == 0)
            && (closer && level == 0 && net > 0 ==> NextLevel(level, text) == net)
  {
    hide NetBraces;
  }

  function LevelAfter(es: seq<Entry>): nat {
    if es == [] then 0 else NextLevel(LevelAfter(es[..|es| - 1]), es[|es| - 1].text)
  }

  /** A blank line is wanted before entry `k`: the source has one, or a top-level declaration
      follows something other than the end of a block. */
  predicate WantsBlank(es: seq<Entry>, k: nat)
    requires k < |es|
  {
    || es[k].gap
    || (&& k > 0
        && WrittenLevel(LevelAfter(es[..k]), es[k].text) == 0
        && StartsDeclaration(es[k].text)
        && !("}" <= es[k - 1].text))
  }

  function Rendered(es: seq<Entry>, k: nat): seq<string>
    requires k < |es|
  {
    (if WantsBlank(es, k) then [""] else []) +
    [Indent(WrittenLevel(LevelAfter(es[..k]), es[k].text)) + es[k].text]
  }

  /** The lines printed for a sequence of entries. */
  function Layout(es: seq<Entry>): seq<string> {
    if es == [] then [] else Layout(es[..|es| - 1]) + Rendered(es, |es| - 1)
  }

  /** Parse into entries, then print: the two-stage meaning of the one-pass formatter. */
  function Format(content: string): string {
    Join(Layout(Entries(Split(content, '\n'))), "\n") + "\n"
  }

  /** The state of the pass after `lines`. */
  ghost predicate Reaches(lines: seq<string>, result: seq<string>, level: int, prevEmpty: bool, prevWasBlock: bool) {
    var es := Entries(lines);
    && result == Layout(es) + (if EndsBlank(lines) then [""] else [])
    && level == LevelAfter(es)
    && prevEmpty == EndsBlank(lines)
    && prevWasBlock == (es != [] && "}" <= es[|es| - 1].text)
  }

  /** The test for inserting a blank line, on the lines written so far. */
  predicate InsertsBlank(result: seq<string>, level: nat, text: string, prevWasBlock: bool) {
    && WrittenLevel(level, text) == 0 && StartsDeclaration(text)
    && result != [] && result[|result| - 1] != "" && !prevWasBlock
  }

  function WithBlank(blank: bool, level: nat, text: string): seq<string> {
    (if blank then [""] else []) + [Indent(WrittenLevel(level, text)) + text]
  }

  function DropBlankTail(lines: seq<string>): seq<string> {
    if EndsBlank(lines) then DropBlankTail(lines[..|lines| - 1]) else lines
  }

  lemma NothingRead()
    ensures Reaches([], [], 0, false, false) && Entries([]) == []
  {
  }

  lemma TailOfRun(lines: seq<string>, result: seq<string>, level: nat, prevEmpty: bool, prevWasBlock: bool)
    requires Reaches(lines, result, level, prevEmpty, prevWasBlock)
    requires forall l :: l in lines ==> '\n' !in l
    ensures DropBlankTail(result) == Layout(Entries(lines))
  {
    hide StartsDeclaration, NetBraces, TrimLeft, TrimRight, IsTrimmed, LevelAfter, WantsBlank;
    EntriesAreProper(lines);
    LayoutShape(Entries(lines));
    EmptyIsBlank();
    if EndsBlank(lines) {
      assert result[..|result| - 1] == Layout(Entries(lines));
    }
  }

  lemma EmptyIsBlank()
    ensures Blank("") && Clean("")
  {
  }

  lemma {:induction false} BlankStep(lines: seq<string>, line: string, result: seq<string>, level: nat,
                                     prevEmpty: bool, prevWasBlock: bool)
    requires Reaches(lines, result, level, prevEmpty, prevWasBlock) && Blank(line)
    ensures Reaches(lines + [line], if prevEmpty then result else result + [""], level, true, prevWasBlock)
  {
    hide StartsDeclaration, NetBraces, TrimLeft, TrimRight, IsTrimmed;
  }

  lemma {:induction false} TextStep(lines: seq<string>, line: string, result: seq<string>, level: nat,
                                    prevEmpty: bool, prevWasBlock: bool)
    requires Reaches(lines, result, level, prevEmpty, prevWasBlock) && !Blank(line)
    requires forall l :: l in lines ==> '\n' !in l
    ensures lines == [] ==> result == []
    ensures var text := TrimSpace(line);
            Reaches(lines + [line], result + WithBlank(InsertsBlank(result, level, text, prevWasBlock), level, text),
                    NextLevel(level, text), false, "}" <= text)
  {
    hide StartsDeclaration, NetBraces, TrimLeft, TrimRight, IsTrimmed;
    var text := TrimSpace(line);
    assert (lines + [line])[..|lines|] == lines;
    var es := Entries(lines);
    var e := Entry(EndsBlank(lines), text);
    assert Entries(lines + [line]) == es + [e];
    LayoutSnoc(es, e);
    EntriesAreProper(lines);
    LayoutShape(es);
    assert (es + [e])[..|es|] == es;
    EmptyIsBlank();
  }

  lemma LayoutSnoc(es: seq<Entry>, e: Entry)
    ensures Layout(es + [e]) == Layout(es) + Rendered(es + [e], |es|)
    ensures LevelAfter(es + [e]) == NextLevel(LevelAfter(es), e.text)
  {
    hide StartsDeclaration, NetBraces;
    assert (es + [e])[..|es|] == es;
  }

  // ---------------------------------------------------------------- shape of the output

  /** Entries as they come out of a source text: trimmed, one line each, not blank. */
  ghost predicate Proper(es: seq<Entry>) {
    forall k :: 0 <= k < |es| ==> es[k].text != "" && IsTrimmed(es[k].text) && '\n' !in es[k].text
  }

  lemma {:induction false} EntriesAreProper(lines: seq<string>)
    requires forall l :: l in lines ==> '\n' !in l
    ensures Proper(Entries(lines))
  {
    if lines != [] {
      var n := |lines| - 1;
      EntriesAreProper(lines[..n]);
      TrimSpaceTrims(lines[n]);
      assert lines[n] in lines;
    }
  }

  lemma SourceEntriesAreProper(content: string)
    ensures Proper(Entries(Split(content, '\n')))
  {
    SplitPieces(content, '\n');
    EntriesAreProper(Split(content, '\n'));
  }

  ghost predicate NoAdjacentBlanks(lines: seq<string>) {
    forall k :: 0 <= k < |lines| - 1 ==> !(Blank(lines[k]) && Blank(lines[k + 1]))
  }

  /** One line, without a carriage return at its end. */
  predicate Clean(line: string) {
    '\n' !in line && (line == [] || line[|line| - 1] != '\r')
  }

  lemma RenderedLine(es: seq<Entry>, k: nat)
    requires Proper(es) && k < |es|
    ensures var line := Rendered(es, k)[|Rendered(es, k)| - 1];
            !Blank(line) && TrimSpace(line) == es[k].text && Clean(line) && line != ""
  {
    var level := WrittenLevel(LevelAfter(es[..k]), es[k].text);
    TrimIndented(Indent(level), es[k].text);
    assert Rendered(es, k)[|Rendered(es, k)| - 1] == Indent(level) + es[k].text;
    assert IsTrimmed(es[k].text);
  }

  /** No two adjacent blank lines, the last line is not blank, and no line holds a newline. */
  lemma {:induction false} LayoutShape(es: seq<Entry>)
    requires Proper(es)
    ensures NoAdjacentBlanks(Layout(es))
    ensures Layout(es) == [] <==> es == []
    ensures es != [] ==> !Blank(Layout(es)[|Layout(es)| - 1])
    ensures forall l :: l in Layout(es) ==> Clean(l)
  {
    hide Clean, StartsDeclaration, NetBraces, TrimLeft, TrimRight, IsTrimmed, LevelAfter, WantsBlank;
    if es != [] {
      var n := |es| - 1;
      assert Proper(es[..n]);
      LayoutShape(es[..n]);
      RenderedLine(es, n);
      EmptyIsBlank();
      assert forall l :: l in Rendered(es, n) ==> l == "" || l == Rendered(es, n)[|Rendered(es, n)| - 1];
    }
  }

  // ---------------------------------------------------------------- formatting twice

  /** The entries with their gaps made explicit, as they are read back from the printed lines. */
  function Settled(es: seq<Entry>): seq<Entry> {
    if es == [] then []
    else Settled(es[..|es| - 1]) + [Entry(WantsBlank(es, |es| - 1), es[|es| - 1].text)]
  }

  lemma {:induction false} SettledSame(es: seq<Entry>)
    ensures |Settled(es)| == |es| && LevelAfter(Settled(es)) == LevelAfter(es)
    ensures forall k :: 0 <= k < |es| ==> Settled(es)[k].text == es[k].text
  {
    hide NextLevel, WantsBlank, LevelAfter;
    if es == [] {
      assert Settled(es) == es;
    } else {
      var n := |es| - 1;
      var before := Settled(es[..n]);
      var e := Entry(WantsBlank(es, n), es[n].text);
      SettledSame(es[..n]);
      LevelSnoc(before, e);
      LevelSnoc(es[..n], es[n]);
      assert es[..n] + [es[n]] == es;
      assert Settled(es) == before + [e];
      hide Settled;
      forall k | 0 <= k < |es|
        ensures (before + [e])[k].text == es[k].text
      {
        if k < n { assert es[..n][k] == es[k]; }
      }
    }
  }

  lemma LevelSnoc(es: seq<Entry>, e: Entry)
    ensures LevelAfter(es + [e]) == NextLevel(LevelAfter(es), e.text)
  {
  }

  lemma EntriesSnoc(lines: seq<string>, line: string)
    ensures Blank(line) ==> Entries(lines + [line]) == Entries(lines)
    ensures !Blank(line) ==> Entries(lines + [line]) == Entries(lines) + [Entry(EndsBlank(lines), TrimSpace(line))]
  {
  }

  /** Reading the printed lines back gives the same texts. */
  lemma {:induction false} EntriesOfLayout(es: seq<Entry>)
    requires Proper(es)
    ensures Entries(Layout(es)) == Settled(es)
  {
    hide LevelAfter, WantsBlank, Entries, TrimSpace;
    if es == [] {
      NothingRead();
    } else {
      var n := |es| - 1;
      var before := Layout(es[..n]);
      assert Proper(es[..n]);
      EntriesOfLayout(es[..n]);
      LayoutShape(es[..n]);
      RenderedLine(es, n);
      EmptyIsBlank();
      var r := Rendered(es, n);
      var line := r[|r| - 1];
      if WantsBlank(es, n) {
        assert before + r == (before + [""]) + [line];
        EntriesSnoc(before, "");
        EntriesSnoc(before + [""], line);
      } else {
        assert before + r == before + [line];
        EntriesSnoc(before, line);
      }
    }
  }

  /** Explicit gaps change nothing in print. */
  lemma {:induction false} LayoutOfSettled(es: seq<Entry>)
    ensures Layout(Settled(es)) == Layout(es)
  {
    hide StartsDeclaration, NetBraces;
    if es != [] {
      var n := |es| - 1;
      var s := Settled(es);
      LayoutOfSettled(es[..n]);
      SettledSame(es);
      SettledSame(es[..n]);
      assert s[..n] == Settled(es[..n]);
    }
  }

  /** The lines of a formatted text: the printed lines and the empty rest after the newline. */
  lemma LinesOfFormatted(content: string)
    ensures Entries(Split(Format(content), '\n')) == Settled(Entries(Split(content, '\n')))
  {
    hide Layout, Entries, Settled, Blank, Clean;
    var es := Entries(Split(content, '\n'));
    var printed := Layout(es);
    SourceEntriesAreProper(content);
    LayoutShape(es);
    EntriesOfLayout(es);
    EmptyIsBlank();
    if es == [] {
      NothingRead();
      assert Format(content) == [] + ['\n'] + [];
      SplitAtSep([], '\n', []);
      assert Split(Format(content), '\n') == [""] + [""] && [] + [""] == [""];
      EntriesSnoc([], "");
      EntriesSnoc([""], "");
    } else {
      CleanLines(printed);
      hide Split, Join;
      JoinSnoc(printed, "", "\n");
      assert Format(content) == Join(printed + [""], "\n");
      SplitJoin(printed + [""], '\n');
      EntriesSnoc(printed, "");
    }
  }

  lemma CleanLines(lines: seq<string>)
    requires forall l :: l in lines ==> Clean(l)
    ensures forall l :: l in lines ==> '\n' !in l
  {
  }

  /** Formatting formatted text changes nothing. */
  lemma FormatIsIdempotent(content: string)
    ensures Format(Format(content)) == Format(content)
  {
    LinesOfFormatted(content);
    LayoutOfSettled(Entries(Split(content, '\n')));
  }

  // ---------------------------------------------------------------- what formatting keeps

  /** The trimmed non-blank lines of a text, in order. */
  function Kept(lines: seq<string>): seq<string> {
    if lines == [] then []
    else
      var n := |lines| - 1;
      Kept(lines[..n]) + if Blank(lines[n]) then [] else [TrimSpace(lines[n])]
  }

  lemma {:induction false} KeptAreTexts(lines: seq<string>)
    ensures |Kept(lines)| == |Entries(lines)|
    ensures forall k :: 0 <= k < |Entries(lines)| ==> Kept(lines)[k] == Entries(lines)[k].text
  {
    if lines != [] {
      KeptAreTexts(lines[..|lines| - 1]);
    }
  }

  /** Formatting keeps exactly the sequence of trimmed non-blank lines. */
  lemma FormatKeepsLines(content: string)
    ensures Kept(Split(Format(content), '\n')) == Kept(Split(content, '\n'))
  {
    var es := Entries(Split(content, '\n'));
    LinesOfFormatted(content);
    SettledSame(es);
    KeptAreTexts(Split(content, '\n'));
    KeptAreTexts(Split(Format(content), '\n'));
  }

  /** A formatted text is a list of lines without two adjacent blanks and without a blank last
      line, followed by exactly one newline; without any non-blank line it is that newline. */
  lemma FormatShape(content: string) returns (lines: seq<string>)
    ensures lines == Layout(Entries(Split(content, '\n')))
    ensures Format(content) == Join(lines, "\n") + "\n"
    ensures forall l :: l in lines ==> '\n' !in l
    ensures lines != [] ==> Split(Format(content), '\n') == lines + [""]
    ensures NoAdjacentBlanks(lines)
    ensures lines != [] ==> !Blank(lines[|lines| - 1])
    ensures var out := Format(content); |out| >= 2 ==> out[|out| - 2] != '\n'
    ensures Kept(Split(content, '\n')) == [] <==> Format(content) == "\n"
  {
    hide Layout, Entries, Kept, Blank, Clean, Split, Join;
    var es := Entries(Split(content, '\n'));
    lines := Layout(es);
    SourceEntriesAreProper(content);
    LayoutShape(es);
    KeptAreTexts(Split(content, '\n'));
    CleanLines(lines);
    EmptyIsBlank();
    if es == [] {
      JoinNothing();
    } else {
      assert lines[|lines| - 1] != "";
      JoinSnoc(lines, "", "\n");
      assert Format(content) == Join(lines + [""], "\n");
      SplitJoin(lines + [""], '\n');
      JoinEndsLikeLast(lines);
    }
  }

  lemma JoinNothing()
    ensures Join([], "\n") == ""
  {
  }

  lemma JoinEndsLikeLast(lines: seq<string>)
    requires lines != [] && lines[|lines| - 1] != "" && '\n' !in lines[|lines| - 1]
    ensures var body := Join(lines, "\n"); body != "" && body[|body| - 1] != '\n'
  {
    var n := |lines| - 1;
    if n > 0 {
      assert lines == lines[..n] + [lines[n]];
      JoinSnoc(lines[..n], lines[n], "\n");
    }
  }

  // ---------------------------------------------------------------- check mode

  /** Windows line ends become Unix line ends. */
  function Normalize(s: string): string {
    if s == [] then []
    else if |s| >= 2 && s[0] == '\r' && s[1] == '\n' then ['\n'] + Normalize(s[2..])
    else [s[0]] + Normalize(s[1..])
  }

  datatype Outcome = Written(text: string) | Accepted | NotFormatted

  method FormatFile(content: string, checkOnly: bool) returns (o: Outcome)
    ensures !checkOnly ==> o == Written(Format(content))
    ensures checkOnly ==> o == if Normalize(Format(content)) == Normalize(content) then Accepted else NotFormatted
  {
    var output := FormatText(content);
    if checkOnly {
      if Normalize(output) != Normalize(content) {
        return NotFormatted;
      }
      return Accepted;
    }
    o := Written(output);
  }

  /** Whatever `fmt` writes, `fmt --check` accepts. */
  method FormatThenCheck(content: string) returns (o: Outcome)
    ensures o == Accepted
  {
    var written := FormatFile(content, false);
    FormatIsIdempotent(content);
    o := FormatFile(written.text, true);
  }

  function DropCR(line: string): string {
    if line != [] && line[|line| - 1] == '\r' then line[..|line| - 1] else line
  }

  function StripCRs(lines: seq<string>): seq<string> {
    if |lines| <= 1 then lines else [DropCR(lines[0])] + StripCRs(lines[1..])
  }

  /** Normalizing takes the carriage return off every line but the last. */
  lemma {:induction false} NormalizedLines(s: string)
    ensures Split(Normalize(s), '\n') == StripCRs(Split(s, '\n'))
    decreases |s|
  {
    if s == [] {
    } else if |s| >= 2 && s[0] == '\r' && s[1] == '\n' {
      NormalizedLines(s[2..]);
      assert s == ['\r'] + ['\n'] + s[2..];
      SplitAtSep(['\r'], '\n', s[2..]);
      SplitAtSep([], '\n', Normalize(s[2..]));
      StripFirst(['\r'], Split(s[2..], '\n'));
      assert Normalize(s) == [] + ['\n'] + Normalize(s[2..]);
    } else {
      NormalizedLines(s[1..]);
      var q, n := Split(s[1..], '\n'), Normalize(s[1..]);
      assert Normalize(s) == [s[0]] + n && ([s[0]] + n)[1..] == n;
      if s[0] == '\n' {
        StripFirst([], q);
      } else {
        StripGrown(s[0], s[1..]);
      }
    }
  }

  lemma {:induction false} StripFirst(first: string, rest: seq<string>)
    requires rest != []
    ensures StripCRs([first] + rest) == [DropCR(first)] + StripCRs(rest)
  {
  }

  lemma {:induction false} StripGrown(c: char, t: string)
    requires !(t != [] && c == '\r' && t[0] == '\n')
    ensures var q := Split(t, '\n'); var r := StripCRs(q);
            q != [] && r != [] && StripCRs([[c] + q[0]] + q[1..]) == [[c] + r[0]] + r[1..]
  {
    var q := Split(t, '\n');
    SplitPieces(t, '\n');
    assert |q| > 1 && q[0] == [] ==> t[0] == '\n';
    hide Split;
    if |q| > 1 {
      StripFirst([c] + q[0], q[1..]);
      var r := StripCRs(q);
      assert r == [DropCR(q[0])] + StripCRs(q[1..]);
      hide StripCRs;
      assert r[1..] == StripCRs(q[1..]);
      if q[0] != [] {
        assert DropCR([c] + q[0]) == [c] + DropCR(q[0]);
      }
    }
  }

  lemma {:induction false} StripKeepsTrim(lines: seq<string>)
    ensures |StripCRs(lines)| == |lines|
    ensures forall k :: 0 <= k < |lines| ==> TrimSpace(StripCRs(lines)[k]) == TrimSpace(lines[k])
  {
    hide TrimSpace;
    if |lines| > 1 {
      StripKeepsTrim(lines[1..]);
      var first := lines[0];
      if DropCR(first) != first {
        assert first == DropCR(first) + ['\r'];
        TrimSnocSpace(DropCR(first), '\r');
      }
    }
  }

  /** Entries only look at trimmed lines. */
  lemma {:induction false} EntriesByTrim(a: seq<string>, b: seq<string>)
    requires |a| == |b| && forall k :: 0 <= k < |a| ==> TrimSpace(a[k]) == TrimSpace(b[k])
    ensures Entries(a) == Entries(b)
  {
    hide TrimLeft, TrimRight;
    if a != [] {
      EntriesByTrim(a[..|a| - 1], b[..|a| - 1]);
    }
  }

  lemma FormatIgnoresLineEnds(content: string)
    ensures Format(Normalize(content)) == Format(content)
  {
    NormalizedLines(content);
    var lines := Split(content, '\n');
    StripKeepsTrim(lines);
    EntriesByTrim(lines, StripCRs(lines));
  }

  /** Lines without carriage return at the end survive normalizing. */
  lemma {:induction false} NormalizeLine(line: string, rest: string)
    requires Clean(line)
    ensures Normalize(line + ['\n'] + rest) == line + ['\n'] + Normalize(rest)
    decreases |line|
  {
    var s := line + ['\n'] + rest;
    if line == [] {
      assert s[1..] == rest;
    } else {
      assert s[1..] == line[1..] + ['\n'] + rest;
      assert line[0] == '\r' ==> |line| > 1 && s[1] == line[1] && line[1] in line;
      NormalizeLine(line[1..], rest);
      assert [line[0]] + line[1..] == line;
    }
  }

  lemma {:induction false} NormalizeLines(lines: seq<string>)
    requires lines != []
    requires forall l :: l in lines ==> Clean(l)
    ensures Normalize(Join(lines, "\n") + "\n") == Join(lines, "\n") + "\n"
  {
    if |lines| == 1 {
      assert lines[0] + "\n" == lines[0] + ['\n'] + [];
      NormalizeLine(lines[0], []);
    } else {
      var rest := Join(lines[1..], "\n") + "\n";
      assert Join(lines, "\n") + "\n" == lines[0] + ['\n'] + rest;
      NormalizeLines(lines[1..]);
      NormalizeLine(lines[0], rest);
    }
  }

  lemma FormattedIsNormal(content: string)
    ensures Normalize(Format(content)) == Format(content)
  {
    var es := Entries(Split(content, '\n'));
    SourceEntriesAreProper(content);
    LayoutShape(es);
    if es == [] {
      assert Format(content) == ['\n'] + [];
    } else {
      NormalizeLines(Layout(es));
    }
  }

  /** `fmt --check` accepts a text exactly when, up to Windows line ends, formatting leaves it
      alone. */
  lemma CheckAcceptsFixpoints(content: string)
    ensures Normalize(Format(content)) == Normalize(content) <==> Format(Normalize(content)) == Normalize(content)
  {
    FormattedIsNormal(content);
    FormatIgnoresLineEnds(content);
  }

  // ---------------------------------------------------------------- indentation and nesting

  function DepthAfter(es: seq<Entry>): nat {
    if es == [] then 0 else Max(0, DepthAfter(es[..|es| - 1]) + NetBraces(es[|es| - 1].text))
  }

  /** The level kept by the formatter is the brace depth after every line. */
  ghost predicate LevelIsDepth(es: seq<Entry>) {
    forall k :: 0 <= k <= |es| ==> LevelAfter(es[..k]) == DepthAfter(es[..k])
  }

  /** A line that starts with a closer must close exactly one brace, or stand where there is
      nothing (more) to close. */
  predicate ClosesPlainly(depth: nat, text: string) {
    Closes(text) ==> NetBraces(text) == -1 || depth == 0 || (depth == 1 && NetBraces(text) < 0)
  }

  lemma LineLevel(depth: nat, text: string)
    ensures NextLevel(depth, text) == Max(0, depth + NetBraces(text)) <==> ClosesPlainly(depth, text)
  {
  }

  lemma AfterStep(es: seq<Entry>, k: nat)
    requires k < |es|
    ensures LevelAfter(es[..k + 1]) == NextLevel(LevelAfter(es[..k]), es[k].text)
    ensures DepthAfter(es[..k + 1]) == Max(0, DepthAfter(es[..k]) + NetBraces(es[k].text))
  {
    assert es[..k + 1][..k] == es[..k];
  }

  lemma {:induction false} PlainKeepsLevel(es: seq<Entry>, n: nat)
    requires n <= |es| && forall k :: 0 <= k < n ==> ClosesPlainly(DepthAfter(es[..k]), es[k].text)
    ensures LevelAfter(es[..n]) == DepthAfter(es[..n])
  {
    hide NextLevel, NetBraces, ClosesPlainly;
    if n > 0 {
      PlainKeepsLevel(es, n - 1);
      AfterStep(es, n - 1);
      LineLevel(DepthAfter(es[..n - 1]), es[n - 1].text);
    }
  }

  /** The indent level follows the brace depth on all lines exactly when every closing line is a
      plain one. */
  lemma LevelIsDepthIff(es: seq<Entry>)
    ensures LevelIsDepth(es) <==> forall k :: 0 <= k < |es| ==> ClosesPlainly(DepthAfter(es[..k]), es[k].text)
  {
    hide NextLevel, NetBraces, ClosesPlainly, LevelAfter, DepthAfter;
    if LevelIsDepth(es) {
      forall k | 0 <= k < |es|
        ensures ClosesPlainly(DepthAfter(es[..k]), es[k].text)
      {
        AfterStep(es, k);
        assert LevelAfter(es[..k]) == DepthAfter(es[..k]);
        assert LevelAfter(es[..k + 1]) == DepthAfter(es[..k + 1]);
        LineLevel(DepthAfter(es[..k]), es[k].text);
      }
    }
    if forall k :: 0 <= k < |es| ==> ClosesPlainly(DepthAfter(es[..k]), es[k].text) {
      forall n | 0 <= n <= |es|
        ensures LevelAfter(es[..n]) == DepthAfter(es[..n])
      {
        PlainKeepsLevel(es, n);
      }
    }
  }

  // ---------------------------------------------------------------- what stands in front of a line

  /** The line is the text behind four spaces for each level. */
  ghost predicate IndentedBy(line: string, level: nat, text: string) {
    && |line| == 4 * level + |text|
    && (forall i :: 0 <= i < 4 * level ==> line[i] == ' ')
    && line[4 * level..] == text
  }

  /** The non-blank lines of a text as they are. */
  function NonBlank(lines: seq<string>): seq<string> {
    if lines == [] then []
    else NonBlank(lines[..|lines| - 1]) + if Blank(lines[|lines| - 1]) then [] else [lines[|lines| - 1]]
  }

  lemma NonBlankSnoc(lines: seq<string>, line: string)
    ensures NonBlank(lines + [line]) == NonBlank(lines) + if Blank(line) then [] else [line]
  {
    assert (lines + [line])[..|lines|] == lines;
  }

  function WrittenAt(es: seq<Entry>, k: nat): nat
    requires k < |es|
  {
    WrittenLevel(LevelAfter(es[..k]), es[k].text)
  }

  function PrintedLine(es: seq<Entry>, k: nat): string
    requires k < |es|
  {
    Indent(WrittenAt(es, k)) + es[k].text
  }

  lemma {:induction false} RenderedIs(es: seq<Entry>, k: nat)
    requires Proper(es) && k < |es|
    ensures Rendered(es, k) == (if WantsBlank(es, k) then [""] else []) + [PrintedLine(es, k)]
    ensures !Blank(PrintedLine(es, k))
  {
    hide LevelAfter, WantsBlank, Blank, WrittenLevel, Indent, IsTrimmed;
    RenderedLine(es, k);
  }

  lemma {:induction false} NonBlankStep(es: seq<Entry>)
    requires Proper(es) && es != []
    ensures NonBlank(Layout(es)) == NonBlank(Layout(es[..|es| - 1])) + [PrintedLine(es, |es| - 1)]
  {
    hide NonBlank, WantsBlank, Blank, PrintedLine, Rendered;
    var n := |es| - 1;
    var before, line := Layout(es[..n]), PrintedLine(es, n);
    RenderedIs(es, n);
    EmptyIsBlank();
    assert Layout(es) == before + Rendered(es, n);
    hide Layout;
    NonBlankSnoc(before, line);
    NonBlankSnoc(before, "");
    NonBlankSnoc(before + [""], line);
    assert before + ([""] + [line]) == (before + [""]) + [line] && before + ([] + [line]) == before + [line];
  }

  lemma {:induction false} NonBlankLayout(es: seq<Entry>)
    requires Proper(es)
    ensures |NonBlank(Layout(es))| == |es|
    ensures forall k :: 0 <= k < |es| ==> NonBlank(Layout(es))[k] == PrintedLine(es, k)
  {
    hide NonBlank, Layout, PrintedLine;
    if es == [] {
      NothingPrinted();
    } else {
      var n := |es| - 1;
      assert Proper(es[..n]);
      NonBlankLayout(es[..n]);
      NonBlankStep(es);
      forall k | 0 <= k < n
        ensures PrintedLine(es[..n], k) == PrintedLine(es, k)
      {
        SamePrinted(es, n, k);
      }
    }
  }

  lemma SamePrinted(es: seq<Entry>, n: nat, k: nat)
    requires k < n <= |es|
    ensures PrintedLine(es[..n], k) == PrintedLine(es, k)
  {
    assert es[..n][..k] == es[..k];
  }

  lemma NothingPrinted()
    ensures Layout([]) == [] && NonBlank([]) == []
  {
  }

  /** Every non-blank line of the output is the trimmed source line behind four spaces for each level;
      where every closing line is a plain one, the level is the brace depth before the line, less one
      for a line that starts with a closer. */
  lemma FormatIndents(content: string)
    ensures var es := Entries(Split(content, '\n'));
            var out := NonBlank(Split(Format(content), '\n'));
            && |out| == |es|
            && (forall k :: 0 <= k < |es| ==> IndentedBy(out[k], WrittenAt(es, k), es[k].text))
            && ((forall k :: 0 <= k < |es| ==> ClosesPlainly(DepthAfter(es[..k]), es[k].text)) ==>
                  forall k :: 0 <= k < |es| ==>
                    var depth := DepthAfter(es[..k]);
                    IndentedBy(out[k], if Closes(es[k].text) && depth > 0 then depth - 1 else depth, es[k].text))
  {
    hide Split, Entries, Layout, NonBlank, LevelAfter, DepthAfter, ClosesPlainly, Format, Closes, IndentedBy;
    var es := Entries(Split(content, '\n'));
    SourceEntriesAreProper(content);
    NonBlankLayout(es);
    NonBlankOutput(content);
    forall k | 0 <= k < |es|
      ensures IndentedBy(PrintedLine(es, k), WrittenAt(es, k), es[k].text)
    {
      IndentIsSpaces(WrittenAt(es, k), es[k].text);
    }
    if forall k :: 0 <= k < |es| ==> ClosesPlainly(DepthAfter(es[..k]), es[k].text) {
      forall k | 0 <= k < |es|
        ensures LevelAfter(es[..k]) == DepthAfter(es[..k])
      {
        PlainKeepsLevel(es, k);
      }
    }
  }

  lemma IndentIsSpaces(level: nat, text: string)
    ensures IndentedBy(Indent(level) + text, level, text)
  {
  }

  lemma NonBlankOutput(content: string)
    ensures NonBlank(Split(Format(content), '\n')) == NonBlank(Layout(Entries(Split(content, '\n'))))
  {
    hide Entries, Layout, NonBlank, Blank, Join, Split;
    var lines := FormatShape(content);
    EmptyIsBlank();
    if lines == [] {
      JoinNothing();
      assert Format(content) == [] + ['\n'] + [];
      SplitAtSep([], '\n', []);
      SplitNoSep([], '\n');
      assert Split(Format(content), '\n') == [] + [""] + [""];
      NonBlankSnoc([], "");
      NonBlankSnoc([] + [""], "");
    } else {
      NonBlankSnoc(lines, "");
    }
  }

  /** The words that open a declaration, written out. */
  predicate Declares(word: string) {
    || word == "server" || word == "database" || word == "cache" || word == "broker" || word == "route"
    || word == "fn" || word == "every" || word == "cron" || word == "subscribe" || word == "test"
    || word == "struct" || word == "interface" || word == "middleware" || word == "ws" || word == "enum"
    || word == "validate" || word == "type" || word == "export" || word == "app" || word == "agent"
  }

  /** A line of the output has a blank line before it if and only if it has one in the source, or it
      opens a declaration at the outermost level and the line before it does not close a block. */
  lemma FormatGaps(content: string, k: nat)
    requires k < |Entries(Split(content, '\n'))|
    ensures var es, out := Entries(Split(content, '\n')), Entries(Split(Format(content), '\n'));
            && |out| == |es| && out[k].text == es[k].text
            && (out[k].gap <==>
                || es[k].gap
                || (&& k > 0 && WrittenAt(es, k) == 0 && !("}" <= es[k - 1].text)
                    && Fields(es[k].text) != []
                    && Declares(TrimOpeners(Fields(es[k].text)[0]))))
  {
    hide Split, Entries, LevelAfter, Format, Fields, TrimOpeners;
    var es := Entries(Split(content, '\n'));
    LinesOfFormatted(content);
    SettledSame(es);
    SettledAt(es, k);
  }

  lemma {:induction false} SettledAt(es: seq<Entry>, k: nat)
    requires k < |es|
    ensures |Settled(es)| == |es| && Settled(es)[k].gap == WantsBlank(es, k)
  {
    hide LevelAfter, StartsDeclaration;
    var n := |es| - 1;
    SettledSame(es[..n]);
    if k < n {
      SettledAt(es[..n], k);
      assert es[..n][..k] == es[..k];
    }
  }

  /** `} else {` loses a level: what follows is written at level 0, at brace depth 1. */
  lemma ElseLosesALevel()
    ensures var es := [Entry(false, "if x {"), Entry(false, "} else {")];
            LevelAfter(es) == 0 && DepthAfter(es) == 1
  {
    var a, b := Entry(false, "if x {"), Entry(false, "} else {");
    NetOfIf();
    NetOfElse();
    hide NetBraces;
    assert [a, b][..1] == [a] && [a][..0] == [];
  }

  lemma NetOfIf()
    ensures NetBraces("if x {") == 1
  {
    var line := "if x {";
    assert forall k :: 0 <= k < |line| ==> !IsQuote(line[k]) && line[k] != '/';
    StripPlain(line);
    hide Strip;
    CountUpTo(line, 5, '{');
    CountUpTo(line, 5, '}');
  }

  const ELSE_LINE: string := "} else {"

  lemma NetOfElse()
    ensures NetBraces(ELSE_LINE) == 0
  {
    ElseIsPlain();
    ElseCounts();
    hide Strip, Count;
  }

  lemma ElseIsPlain()
    ensures Strip(ELSE_LINE, Code) == ELSE_LINE
  {
    hide Strip;
    StripPlain(ELSE_LINE);
  }

  lemma ElseCounts()
    ensures Count(ELSE_LINE, '{') == Count(ELSE_LINE, '}') == 1
  {
    CountUpTo(ELSE_LINE, 7, '{');
    CountUpTo(ELSE_LINE[1..], 6, '}');
    assert ELSE_LINE[1..][6..] == ELSE_LINE[7..] == "{";
  }

  /** Skipping a stretch without the character counted. */
  lemma {:induction false} CountUpTo(s: string, n: nat, c: char)
    requires n < |s| && forall k :: 0 <= k < n ==> s[k] != c
    ensures Count(s, c) == Count(s[n..], c)
    decreases n
  {
    if n > 0 {
      CountUpTo(s[1..], n - 1, c);
      assert s[1..][n - 1..] == s[n..];
    }
  }
}
