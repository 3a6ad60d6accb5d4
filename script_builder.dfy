/**
 * The diskpart script builder: a fluent object that appends one command
 * line per call to a text buffer (`StringBuilder.AppendLine`, whose line
 * terminator is the Windows "\r\n") and hands the whole script out with
 * `Build`.  The buffer is modelled as the sequence of lines appended so far;
 * the script text is that sequence rendered with a "\r\n" after each line.
 *
 * diskpart reads its script file line by line.  `ScriptLines` is that
 * reading, and `ScriptRoundTrip` is the reason the builder is sound: as long
 * as no appended line contains a line break, the script diskpart reads back
 * is exactly the list of commands the builder was asked for.
 */
module ScriptBuilder {
  import opened Common
  import opened Text

  // ------------------------------------------------------- script text

  const NewLine: string := "\r\n"

  /** A line diskpart reads as one command: it holds no line break. */
  predicate Plain(line: string) {
    forall i :: 0 <= i < |line| ==> line[i] != '\n' && line[i] != '\r'
  }

  predicate AllPlain(lines: seq<string>) {
    forall i :: 0 <= i < |lines| ==> Plain(lines[i])
  }

  /** The buffer's text: every line followed by the line terminator. */
  function Render(lines: seq<string>): (text: string)
    ensures text == [] <==> lines == []
    ensures lines != [] ==> |text| >= 2 && text[|text| - 2..] == NewLine
  {
    if lines == [] then [] else lines[0] + NewLine + Render(lines[1..])
  }

  /** A line read from a file loses the carriage return before its '\n'. */
  function DropCR(piece: string): string {
    if |piece| > 0 && piece[|piece| - 1] == '\r' then piece[..|piece| - 1] else piece
  }

  /** The lines a line-oriented reader sees in a script text. */
  function ScriptLines(script: string): (lines: seq<string>)
    ensures lines == [] <==> script == []
    ensures forall i :: 0 <= i < |lines| ==> '\n' !in lines[i]
    decreases |script|
  {
    if script == [] then []
    else
      var k := IndexOf(script, '\n');
      var head := DropCR(script[..k]);
      assert '\n' !in head by {
        assert forall j :: 0 <= j < |head| ==> head[j] == script[j];
      }
      [head] + (if k == |script| then [] else ScriptLines(script[k + 1..]))
  }

  /** Reading a text that starts with a break-free piece and a '\n'. */
  lemma ScriptLinesCons(a: string, rest: string)
    requires '\n' !in a
    ensures ScriptLines(a + "\n" + rest) == [DropCR(a)] + ScriptLines(rest)
  {
    var s := a + "\n" + rest;
    var k := IndexOf(s, '\n');
    assert forall i :: 0 <= i < |a| ==> s[i] == a[i];
    assert s[|a|] == '\n';
    assert k == |a|;
    assert s[..k] == a && s[k + 1..] == rest;
  }

  /** Rendering break-free lines and reading the text back gives the lines. */
  lemma {:induction false} ScriptRoundTrip(lines: seq<string>)
    requires AllPlain(lines)
    ensures ScriptLines(Render(lines)) == lines
  {
    if lines != [] {
      var head := lines[0] + "\r";
      assert Render(lines) == head + "\n" + Render(lines[1..]);
      assert '\n' !in head by {
        assert Plain(lines[0]);
      }
      ScriptLinesCons(head, Render(lines[1..]));
      assert DropCR(head) == lines[0];
      ScriptRoundTrip(lines[1..]);
    }
  }

  // ------------------------------------------------------------ pieces

  /** `s` with every character of `drop` removed (`string.Replace(c, "")`). */
  function Without(s: string, drop: set<char>): (r: string)
    ensures forall i :: 0 <= i < |r| ==> r[i] !in drop && r[i] in s
    ensures forall i :: 0 <= i < |s| && s[i] !in drop ==> s[i] in r
    ensures (forall i :: 0 <= i < |s| ==> s[i] !in drop) ==> r == s
  {
    if s == [] then []
    else
      assert s == [s[0]] + s[1..];
      (if s[0] in drop then [] else [s[0]]) + Without(s[1..], drop)
  }

  /** Removal works piece by piece, so the kept characters stay in their order and number. */
  lemma {:induction false} WithoutAppend(a: string, b: string, drop: set<char>)
    ensures Without(a + b, drop) == Without(a, drop) + Without(b, drop)
  {
    if a == [] {
      assert a + b == b;
    } else {
      var x, t := a[0], a[1..];
      var kept := if x in drop then [] else [x];
      calc {
        Without(a + b, drop);
        { assert a + b == [x] + (t + b); WithoutCons(x, t + b, drop); }
        kept + Without(t + b, drop);
        { WithoutAppend(t, b, drop); }
        kept + (Without(t, drop) + Without(b, drop));
        (kept + Without(t, drop)) + Without(b, drop);
        { assert a == [x] + t; WithoutCons(x, t, drop); }
        Without(a, drop) + Without(b, drop);
      }
    }
  }

  /** Removal's step on one leading character. */
  lemma WithoutCons(x: char, t: string, drop: set<char>)
    ensures Without([x] + t, drop) == (if x in drop then [] else [x]) + Without(t, drop)
  {
    assert ([x] + t)[1..] == t;
  }

  /** The label as the source escapes it: every '"' removed. */
  function StripQuotes(volumeLabel: string): (r: string)
    ensures forall c :: c in r <==> c in volumeLabel && c != '"'
  {
    Without(volumeLabel, {'"'})
  }

  /** The label as it must be escaped: quotes and line breaks removed. */
  function SafeLabel(volumeLabel: string): (r: string)
    ensures '"' !in r && Plain(r)
    ensures forall c :: c in r <==> c in volumeLabel && c !in {'"', '\r', '\n'}
  {
    Without(volumeLabel, {'"', '\r', '\n'})
  }

  /** Line breaks removed, for text interpolated into a single line. */
  function SingleLine(s: string): string {
    Without(s, {'\r', '\n'})
  }

  function QuickSuffix(quick: bool): string {
    if quick then " quick" else ""
  }

  lemma LowerAsciiKeepsPlain(s: string)
    requires Plain(s)
    ensures Plain(LowerAscii(s))
  {
    var r := LowerAscii(s);
    forall i | 0 <= i < |r|
      ensures r[i] != '\n' && r[i] != '\r'
    {
      assert s[i] in s;
    }
  }

  lemma IntToDecimalPlain(n: int)
    ensures Plain(IntToDecimal(n))
  {
    var d := NatToDecimal(if n < 0 then -n else n);
    assert '\n' !in d && '\r' !in d by {
      forall i | 0 <= i < |d|
        ensures d[i] != '\n' && d[i] != '\r'
      {
        assert IsDigit(d[i]);
      }
    }
  }

  // ------------------------------------------------------------- lines

  /** "select disk n": one line whose number reads back as the disk's. */
  function SelectDiskLine(diskNumber: int): (line: string)
    ensures Plain(line) && Argument(line, "select disk ") == Some(diskNumber)
  {
    NumberKeywordsPlain();
    KeywordNumber("select disk ", diskNumber)
  }

  /** "select partition n": one line whose number reads back as the partition's. */
  function SelectPartitionLine(partitionNumber: int): (line: string)
    ensures Plain(line) && Argument(line, "select partition ") == Some(partitionNumber)
  {
    NumberKeywordsPlain();
    KeywordNumber("select partition ", partitionNumber)
  }

  /** "create partition primary", with " size=N" exactly when a size is given. */
  function CreatePrimaryLine(sizeMb: Option<int>): (line: string)
    ensures Plain(line)
    ensures sizeMb.Some? ==> Argument(line, "create partition primary size=") == sizeMb
    ensures Contains(line, "size=") <==> sizeMb.Some?
  {
    NumberKeywordsPlain();
    match sizeMb
    case Some(mb) =>
      var line := KeywordNumber("create partition primary size=", mb);
      assert ExactlyAt(line, "size=", 25);
      line
    case None =>
      assert "size="[2] == 'z';
      MissingCharExcludes("create partition primary", "size=", 2);
      "create partition primary"
  }

  /** A keyword followed by the decimal text of a number: one line, and the number reads back. */
  function KeywordNumber(keyword: string, n: int): (line: string)
    requires Plain(keyword)
    ensures Plain(line) && Argument(line, keyword) == Some(n)
    ensures line == keyword + IntToDecimal(n)
  {
    KeywordNumberPlain(keyword, n);
    ParseIntRoundTrip(n);
    assert (keyword + IntToDecimal(n))[|keyword|..] == IntToDecimal(n);
    keyword + IntToDecimal(n)
  }

  /**
   * The format command: filesystem lowercased, label quoted, " quick" when
   * asked for.  Line breaks never reach the script (see the as-written form
   * below for what happens otherwise).
   */
  function FormatLine(filesystem: string, volumeLabel: string, quick: bool): (line: string)
    ensures Plain(line)
    ensures EndsWith(line, " quick") <==> quick
  {
    var fs := LowerAscii(SingleLine(filesystem));
    LowerAsciiKeepsPlain(SingleLine(filesystem));
    FormatTextPlain(fs, SafeLabel(volumeLabel), quick);
    FormatTextQuick(fs, SafeLabel(volumeLabel), quick);
    "format fs=" + fs + " label=\"" + SafeLabel(volumeLabel) + "\"" + QuickSuffix(quick)
  }

  /**
   * The format command exactly as the source writes it: only quotes are
   * removed. On break-free input it is the corrected command.
   */
  function FormatLineAsWritten(filesystem: string, volumeLabel: string, quick: bool): (line: string)
    ensures Plain(filesystem) && Plain(volumeLabel) ==> line == FormatLine(filesystem, volumeLabel, quick)
    ensures EndsWith(line, " quick") <==> quick
  {
    var line := "format fs=" + LowerAscii(filesystem) + " label=\"" + StripQuotes(volumeLabel) + "\"" + QuickSuffix(quick);
    FormatTextQuick(LowerAscii(filesystem), StripQuotes(volumeLabel), quick);
    if Plain(filesystem) && Plain(volumeLabel) then
      assert SingleLine(filesystem) == filesystem;
      StripQuotesIsSafeOnPlain(volumeLabel);
      line
    else
      line
  }

  /** A format command built from break-free pieces is break-free. */
  lemma FormatTextPlain(fs: string, name: string, quick: bool)
    requires Plain(fs) && Plain(name)
    ensures Plain("format fs=" + fs + " label=\"" + name + "\"" + QuickSuffix(quick))
  {
    FormatKeywordsPlain();
    PlainConcat("format fs=", fs);
    PlainConcat("format fs=" + fs, " label=\"");
    PlainConcat("format fs=" + fs + " label=\"", name);
    PlainConcat("format fs=" + fs + " label=\"" + name, "\"");
    PlainConcat("format fs=" + fs + " label=\"" + name + "\"", QuickSuffix(quick));
  }

  /** A format command ends in " quick" exactly when a quick format is asked for. */
  lemma FormatTextQuick(fs: string, name: string, quick: bool)
    ensures EndsWith("format fs=" + fs + " label=\"" + name + "\"" + QuickSuffix(quick), " quick") <==> quick
  {
    var line := "format fs=" + fs + " label=\"" + name + "\"" + QuickSuffix(quick);
    if !quick {
      assert line[|line| - 1] == '"';
    }
  }

  const AssignLine: string := "assign"

  /** "delete partition", with " override" exactly when protection is overridden. */
  function DeleteLine(overrideProtected: bool): (line: string)
    ensures Plain(line)
    ensures Contains(line, "override") <==> overrideProtected
  {
    if overrideProtected then
      assert ExactlyAt("delete partition override", "override", 17);
      "delete partition override"
    else
      assert "override"[1] == 'v';
      MissingCharExcludes("delete partition", "override", 1);
      "delete partition"
  }

  /** "shrink desired=m": one line whose number reads back as the size. */
  function ShrinkDesiredLine(mb: int): (line: string)
    ensures Plain(line) && Argument(line, "shrink desired=") == Some(mb)
  {
    NumberKeywordsPlain();
    KeywordNumber("shrink desired=", mb)
  }

  const ShrinkQueryMaxLine: string := "shrink querymax"

  /** "extend size=m": one line whose number reads back as the size. */
  function ExtendSizeLine(mb: int): (line: string)
    ensures Plain(line) && Argument(line, "extend size=") == Some(mb)
  {
    NumberKeywordsPlain();
    KeywordNumber("extend size=", mb)
  }

  // ------------------------------------------------ what the lines say

  predicate StartsWith(s: string, prefix: string) {
    |prefix| <= |s| && s[..|prefix|] == prefix
  }

  predicate EndsWith(s: string, suffix: string) {
    |suffix| <= |s| && s[|s| - |suffix|..] == suffix
  }

  /** The integer argument after a command keyword, as diskpart reads it. */
  function Argument(line: string, keyword: string): Option<int> {
    if StartsWith(line, keyword) then ParseInt(line[|keyword|..]) else None
  }

  /** A text lacking one character of `p` cannot contain `p`. */
  lemma MissingCharExcludes(s: string, p: string, k: nat)
    requires k < |p| && p[k] !in s
    ensures !Contains(s, p)
  {
  }

  /**
   * The format command ends in " quick" exactly when a quick format is asked
   * for, its filesystem holds no upper-case letter, and the quoted label
   * holds no quote, so the label cannot end the quoted field early.
   */
  lemma FormatLineFields(filesystem: string, volumeLabel: string, quick: bool)
    ensures EndsWith(FormatLine(filesystem, volumeLabel, quick), " quick") <==> quick
    ensures var fs := LowerAscii(SingleLine(filesystem));
      StartsWith(FormatLine(filesystem, volumeLabel, quick), "format fs=" + fs + " label=\"")
      && forall i :: 0 <= i < |fs| ==> !('A' <= fs[i] <= 'Z')
    ensures '"' !in SafeLabel(volumeLabel)
  {
    var fs := LowerAscii(SingleLine(filesystem));
    var head := "format fs=" + fs + " label=\"";
    var line := FormatLine(filesystem, volumeLabel, quick);
    assert line == head + SafeLabel(volumeLabel) + "\"" + QuickSuffix(quick);
    assert line[..|head|] == head;
    if !quick {
      assert line[|line| - 1] == '"';
    }
  }

  /**
   * Reading the label back: after the opening quote, the text up to the next
   * '"' is the escaped label, and that quote is the one closing the field.
   */
  lemma FormatLineLabelReadsBack(filesystem: string, volumeLabel: string, quick: bool)
    ensures var head := "format fs=" + LowerAscii(SingleLine(filesystem)) + " label=\"";
      var line := FormatLine(filesystem, volumeLabel, quick);
      StartsWith(line, head)
      && IndexOf(line[|head|..], '"') < |line[|head|..]|
      && line[|head|..][..IndexOf(line[|head|..], '"')] == SafeLabel(volumeLabel)
  {
    var head := "format fs=" + LowerAscii(SingleLine(filesystem)) + " label=\"";
    var tail := QuickSuffix(quick);
    assert FormatLine(filesystem, volumeLabel, quick) == head + SafeLabel(volumeLabel) + "\"" + tail;
    QuotedFieldReadsBack(head, SafeLabel(volumeLabel), tail);
  }

  /** A quote-free field between two quotes is read back up to the closing one. */
  lemma QuotedFieldReadsBack(head: string, name: string, tail: string)
    requires '"' !in name
    ensures var line := head + name + "\"" + tail;
      StartsWith(line, head)
      && IndexOf(line[|head|..], '"') == |name|
      && line[|head|..][..|name|] == name
  {
    var line := head + name + "\"" + tail;
    var rest := name + "\"" + tail;
    assert line == head + rest;
    assert line[..|head|] == head;
    assert line[|head|..] == rest;
    assert forall i :: 0 <= i < |name| ==> rest[i] == name[i] && rest[i] != '"';
    assert rest[|name|] == '"';
    assert rest[..|name|] == name;
  }

  /** Removing quotes and line breaks leaves a clean label unchanged, and doing it twice changes nothing. */
  lemma SafeLabelKeepsCleanLabels(volumeLabel: string)
    ensures Plain(volumeLabel) && '"' !in volumeLabel ==> SafeLabel(volumeLabel) == volumeLabel
    ensures SafeLabel(SafeLabel(volumeLabel)) == SafeLabel(volumeLabel)
  {
  }

  /** The fixed text of the numbered commands holds no line break. */
  lemma NumberKeywordsPlain()
    ensures Plain("select disk ") && Plain("select partition ")
    ensures Plain("create partition primary size=") && Plain("create partition primary")
    ensures Plain("shrink desired=") && Plain("extend size=")
  {
  }

  lemma KeywordNumberPlain(keyword: string, n: int)
    requires Plain(keyword)
    ensures Plain(keyword + IntToDecimal(n))
  {
    IntToDecimalPlain(n);
  }

  /** The fixed text of the format command holds no line break. */
  lemma FormatKeywordsPlain()
    ensures Plain("format fs=") && Plain(" label=\"") && Plain("\"")
    ensures Plain(QuickSuffix(true)) && Plain(QuickSuffix(false))
  {
  }

  /** A format command, once rendered, is read back as that one command. */
  lemma FormatLineStaysOneLine(filesystem: string, volumeLabel: string, quick: bool)
    ensures ScriptLines(Render([FormatLine(filesystem, volumeLabel, quick)])) == [FormatLine(filesystem, volumeLabel, quick)]
  {
    ScriptRoundTrip([FormatLine(filesystem, volumeLabel, quick)]);
  }

  lemma {:induction false} StripQuotesIsSafeOnPlain(volumeLabel: string)
    requires Plain(volumeLabel)
    ensures SafeLabel(volumeLabel) == StripQuotes(volumeLabel)
  {
    if volumeLabel != [] {
      assert volumeLabel[0] in volumeLabel;
      assert Plain(volumeLabel[1..]) by {
        forall c | c in volumeLabel[1..] ensures c in volumeLabel {
          var j :| 0 <= j < |volumeLabel[1..]| && volumeLabel[1..][j] == c;
          assert volumeLabel[j + 1] == c;
        }
      }
      StripQuotesIsSafeOnPlain(volumeLabel[1..]);
    }
  }

  /**
   * As written, a label holding line breaks splits the format command: any
   * text between two line breaks of the label is read by diskpart as a
   * command of its own.  The label "Data\nclean\n", for one, yields a
   * separate `clean` command, which wipes every partition of the selected disk.
   */
  lemma LabelLineBreakInjectsCommand(filesystem: string, name: string, command: string, quick: bool)
    requires Plain(filesystem) && Plain(name) && Plain(command)
    requires '"' !in name && '"' !in command
    ensures ScriptLines(Render([FormatLineAsWritten(filesystem, name + "\n" + command + "\n", quick)]))
      == ["format fs=" + LowerAscii(filesystem) + " label=\"" + name, command, "\"" + QuickSuffix(quick)]
  {
    TwoLinesKeepTheirQuoteFreedom(name, command);
    var lead := "format fs=" + LowerAscii(filesystem) + " label=\"";
    Regroup(lead, name, command, QuickSuffix(quick));
    FormatPiecesPlain(filesystem, name, quick);
    ReadBackThreePieces(lead + name, command, "\"" + QuickSuffix(quick));
  }

  /** Quote removal leaves two quote-free lines joined by line breaks as they are. */
  lemma TwoLinesKeepTheirQuoteFreedom(name: string, command: string)
    requires '"' !in name && '"' !in command
    ensures StripQuotes(name + "\n" + command + "\n") == name + "\n" + command + "\n"
  {
    var volumeLabel := name + "\n" + command + "\n";
    forall i | 0 <= i < |volumeLabel| ensures volumeLabel[i] != '"' {
      if i < |name| {
        assert volumeLabel[i] == name[i] && name[i] in name;
      } else if |name| < i < |name| + 1 + |command| {
        assert volumeLabel[i] == command[i - |name| - 1] && command[i - |name| - 1] in command;
      }
    }
  }

  /** The pieces of an as-written format command around a two-line label are break-free. */
  lemma FormatPiecesPlain(filesystem: string, name: string, quick: bool)
    requires Plain(filesystem) && Plain(name)
    ensures Plain("format fs=" + LowerAscii(filesystem) + " label=\"" + name)
    ensures Plain("\"" + QuickSuffix(quick))
  {
    LowerAsciiKeepsPlain(filesystem);
    FormatKeywordsPlain();
    PlainConcat("format fs=", LowerAscii(filesystem));
    PlainConcat("format fs=" + LowerAscii(filesystem), " label=\"");
    PlainConcat("format fs=" + LowerAscii(filesystem) + " label=\"", name);
    PlainConcat("\"", QuickSuffix(quick));
  }

  lemma Regroup(lead: string, name: string, command: string, suffix: string)
    ensures lead + (name + "\n" + command + "\n") + "\"" + suffix
      == (lead + name) + "\n" + command + "\n" + ("\"" + suffix)
  {
  }

  lemma PlainConcat(a: string, b: string)
    requires Plain(a) && Plain(b)
    ensures Plain(a + b)
  {
    forall i | 0 <= i < |a + b|
      ensures (a + b)[i] != '\n' && (a + b)[i] != '\r'
    {
      if i >= |a| {
        assert (a + b)[i] == b[i - |a|];
      }
    }
  }

  /** A rendered line made of three break-free pieces joined by '\n' reads back as three lines. */
  lemma ReadBackThreePieces(a: string, b: string, c: string)
    requires Plain(a) && Plain(b) && Plain(c)
    ensures ScriptLines(Render([a + "\n" + b + "\n" + c])) == [a, b, c]
  {
    var cr := c + "\r";
    var rest := cr + "\n" + [];
    RenderThreePieces(a, b, c);
    assert '\n' !in a && '\n' !in b && '\n' !in cr by {
      assert forall i :: 0 <= i < |a| ==> a[i] != '\n';
      assert forall i :: 0 <= i < |b| ==> b[i] != '\n';
      assert forall i :: 0 <= i < |cr| ==> cr[i] != '\n' by {
        assert forall i :: 0 <= i < |c| ==> cr[i] == c[i];
      }
    }
    ScriptLinesCons(a, b + "\n" + rest);
    ScriptLinesCons(b, rest);
    ScriptLinesCons(cr, []);
    DropCRPlain(a);
    DropCRPlain(b);
    assert DropCR(cr) == c;
  }

  /** The rendering of one three-piece line, regrouped around its line feeds. */
  lemma RenderThreePieces(a: string, b: string, c: string)
    ensures Render([a + "\n" + b + "\n" + c]) == a + "\n" + (b + "\n" + ((c + "\r") + "\n" + []))
  {
    var x := a + "\n" + b + "\n" + c;
    assert [x][1..] == [];
    assert Render([x]) == x + NewLine;
  }

  /** A break-free piece loses nothing to the carriage-return rule. */
  lemma DropCRPlain(a: string)
    requires Plain(a)
    ensures DropCR(a) == a
  {
    if |a| > 0 {
      assert a[|a| - 1] != '\r';
    }
  }

  // ----------------------------------------------------------- builder

  /** `DiskpartScriptBuilder`: the lines appended so far stand for its buffer. */
  class DiskpartScriptBuilder {
    var lines: seq<string>

    ghost predicate Valid()
      reads this
    {
      AllPlain(lines)
    }

    constructor()
      ensures Valid() && lines == []
    {
      lines := [];
    }

    method SelectDisk(diskNumber: int32) returns (self: DiskpartScriptBuilder)
      requires Valid()
      modifies this
      ensures Valid() && self == this
      ensures lines == old(lines) + [SelectDiskLine(diskNumber)]
    {
      lines := lines + [SelectDiskLine(diskNumber)];
      self := this;
    }

    method SelectPartition(partitionNumber: int32) returns (self: DiskpartScriptBuilder)
      requires Valid()
      modifies this
      ensures Valid() && self == this
      ensures lines == old(lines) + [SelectPartitionLine(partitionNumber)]
    {
      lines := lines + [SelectPartitionLine(partitionNumber)];
      self := this;
    }

    method CreatePartitionPrimary(sizeMb: Option<int64>) returns (self: DiskpartScriptBuilder)
      requires Valid()
      modifies this
      ensures Valid() && self == this
      ensures lines == old(lines) + [CreatePrimaryLine(if sizeMb.Some? then Some(sizeMb.value as int) else None)]
    {
      var size: Option<int> := if sizeMb.Some? then Some(sizeMb.value as int) else None;
      if sizeMb.Some? {
        lines := lines + ["create partition primary size=" + IntToDecimal(sizeMb.value as int)];
      } else {
        lines := lines + ["create partition primary"];
      }
      self := this;
    }

    method FormatPartition(filesystem: string, volumeLabel: string, quick: bool) returns (self: DiskpartScriptBuilder)
      requires Valid()
      modifies this
      ensures Valid() && self == this
      ensures lines == old(lines) + [FormatLine(filesystem, volumeLabel, quick)]
    {
      var quickText := if quick then " quick" else "";
      var safeLabel := SafeLabel(volumeLabel);
      var line := "format fs=" + LowerAscii(SingleLine(filesystem)) + " label=\"" + safeLabel + "\"" + quickText;
      assert line == FormatLine(filesystem, volumeLabel, quick);
      lines := lines + [line];
      self := this;
    }

    method AssignLetter() returns (self: DiskpartScriptBuilder)
      requires Valid()
      modifies this
      ensures Valid() && self == this
      ensures lines == old(lines) + [AssignLine]
    {
      lines := lines + [AssignLine];
      self := this;
    }

    method DeletePartition(overrideProtected: bool) returns (self: DiskpartScriptBuilder)
      requires Valid()
      modifies this
      ensures Valid() && self == this
      ensures lines == old(lines) + [DeleteLine(overrideProtected)]
    {
      lines := lines + [if overrideProtected then "delete partition override" else "delete partition"];
      self := this;
    }

    method ShrinkDesired(mb: int64) returns (self: DiskpartScriptBuilder)
      requires Valid()
      modifies this
      ensures Valid() && self == this
      ensures lines == old(lines) + [ShrinkDesiredLine(mb)]
    {
      lines := lines + [ShrinkDesiredLine(mb)];
      self := this;
    }

    method ShrinkQueryMax() returns (self: DiskpartScriptBuilder)
      requires Valid()
      modifies this
      ensures Valid() && self == this
      ensures lines == old(lines) + [ShrinkQueryMaxLine]
    {
      lines := lines + [ShrinkQueryMaxLine];
      self := this;
    }

    method ExtendSize(mb: int64) returns (self: DiskpartScriptBuilder)
      requires Valid()
      modifies this
      ensures Valid() && self == this
      ensures lines == old(lines) + [ExtendSizeLine(mb)]
    {
      lines := lines + [ExtendSizeLine(mb)];
      self := this;
    }

    /** The script text; read line by line it gives back the appended lines in order. */
    function Build(): (script: string)
      reads this
      requires Valid()
      ensures ScriptLines(script) == lines
    {
      ScriptRoundTrip(lines);
      Render(lines)
    }
  }
}
