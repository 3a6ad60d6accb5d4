/**
 * The text side of the diskpart service: which scripts it hands to
 * diskpart for each partition operation, how it decides from diskpart's
 * output whether the operation failed, and how it reads the reclaimable
 * size out of the output of `shrink querymax`.  Running diskpart itself
 * (temporary file, process, output capture) is not modelled: the output is
 * a parameter.
 */
module DiskpartService {
  import opened Common
  import opened Text
  import opened ScriptBuilder

  // ------------------------------------------------------ error detection

  /** Phrases whose presence anywhere in the output means diskpart failed. */
  const ErrorPhrases: seq<string> := [
    "DiskPart has encountered an error",
    "There is not enough usable space",
    "The arguments specified are not valid",
    "Access is denied",
    "Virtual Disk Service error"
  ]

  /** Some phrase of `phrases` occurs in `output`, ignoring case (`Any`). */
  function AnyPhraseIn(output: string, phrases: seq<string>): (b: bool)
    ensures b <==> exists i :: 0 <= i < |phrases| && ContainsIgnoreCase(output, phrases[i])
  {
    if phrases == [] then false
    else ContainsIgnoreCase(output, phrases[0]) || AnyPhraseIn(output, phrases[1..])
  }

  /** `ContainsError`: one of the five error phrases occurs in the output, ignoring case. */
  function ContainsError(output: string): (b: bool)
    ensures b <==> exists i :: 0 <= i < |ErrorPhrases| && ContainsIgnoreCase(output, ErrorPhrases[i])
  {
    AnyPhraseIn(output, ErrorPhrases)
  }

  /** diskpart always exits with 0; success is read from the output text. */
  function Succeeded(output: string): (ok: bool)
    ensures ok <==> forall i :: 0 <= i < |ErrorPhrases| ==> !ContainsIgnoreCase(output, ErrorPhrases[i])
  {
    !ContainsError(output)
  }

  /** An error phrase, written in any letter case, anywhere in the output marks a failure. */
  lemma ErrorPhraseDetected(before: string, written: string, after: string, i: nat)
    requires i < |ErrorPhrases| && EqualsIgnoreCase(written, ErrorPhrases[i])
    ensures !Succeeded(before + written + after)
  {
    var s := before + written + after;
    assert s[|before|..|before| + |written|] == written;
    assert OccursAt(s, ErrorPhrases[i], |before|);
  }

  /** More output around a failing output never turns it into a success. */
  lemma ErrorPersists(output: string, before: string, after: string)
    requires ContainsError(output)
    ensures ContainsError(before + output + after)
  {
    var i :| 0 <= i < |ErrorPhrases| && ContainsIgnoreCase(output, ErrorPhrases[i]);
    var p := ErrorPhrases[i];
    var j :| 0 <= j <= |output| - |p| && OccursAt(output, p, j);
    var s := before + output + after;
    assert s[|before| + j..|before| + j + |p|] == output[j..j + |p|];
    assert OccursAt(s, p, |before| + j);
  }

  // ------------------------------------------------ reclaimable-size parse

  /** ASCII characters .NET's `\s` matches. */
  predicate IsSpace(c: char) {
    c == ' ' || '\t' <= c <= '\r'
  }

  /** End of the longest run of digits starting at `i`. */
  function DigitRunEnd(s: string, i: nat): (e: nat)
    requires i <= |s|
    ensures i <= e <= |s|
    ensures forall m :: i <= m < e ==> IsDigit(s[m])
    ensures e < |s| ==> !IsDigit(s[e])
    decreases |s| - i
  {
    if i < |s| && IsDigit(s[i]) then DigitRunEnd(s, i + 1) else i
  }

  /** End of the longest run of white space starting at `i`. */
  function SpaceRunEnd(s: string, i: nat): (e: nat)
    requires i <= |s|
    ensures i <= e <= |s|
    ensures forall m :: i <= m < e ==> IsSpace(s[m])
    ensures e < |s| ==> !IsSpace(s[e])
    decreases |s| - i
  {
    if i < |s| && IsSpace(s[i]) then SpaceRunEnd(s, i + 1) else i
  }

  /** The unit `MB|Megabytes`, ignoring case, at index `k`. */
  predicate UnitAt(s: string, k: nat) {
    OccursAt(s, "MB", k) || OccursAt(s, "Megabytes", k)
  }

  /**
   * The pattern `(\d+)\s*(?:MB|Megabytes)` matches from `i` with the digit
   * group `s[i..j]` and the white space `s[j..k]`.
   */
  predicate PatternAt(s: string, i: nat, j: nat, k: nat) {
    i < j <= k <= |s|
    && (forall m :: i <= m < j ==> IsDigit(s[m]))
    && (forall m :: j <= m < k ==> IsSpace(s[m]))
    && UnitAt(s, k)
  }

  /** The pattern matches from `i` taking the longest digit and space runs. */
  predicate MatchAt(s: string, i: nat) {
    i < |s| && IsDigit(s[i]) && UnitAt(s, SpaceRunEnd(s, DigitRunEnd(s, i)))
  }

  lemma UnitStartsWithM(s: string, k: nat)
    requires UnitAt(s, k)
    ensures k < |s| && (s[k] == 'M' || s[k] == 'm')
  {
    if OccursAt(s, "MB", k) {
      assert s[k..k + 2][0] == s[k];
    } else {
      assert s[k..k + 9][0] == s[k];
    }
  }

  /**
   * The pattern matches from `i` exactly when the greedy runs do, and then
   * the digit group and the white space are determined: whatever order the
   * matcher tries the alternatives in, it captures the whole digit run.
   */
  lemma PatternIsGreedy(s: string, i: nat, j: nat, k: nat)
    requires PatternAt(s, i, j, k)
    ensures j == DigitRunEnd(s, i) && k == SpaceRunEnd(s, j) && MatchAt(s, i)
  {
    UnitStartsWithM(s, k);
    assert !IsSpace(s[k]);
    assert !IsDigit(s[j]) by {
      if j < k {
        assert IsSpace(s[j]);
      }
    }
  }

  lemma MatchIsPattern(s: string, i: nat)
    requires MatchAt(s, i)
    ensures PatternAt(s, i, DigitRunEnd(s, i), SpaceRunEnd(s, DigitRunEnd(s, i)))
  {
  }

  /** Leftmost index at or after `from` where the pattern matches. */
  function FirstMatch(s: string, from: nat): (r: Option<nat>)
    ensures r.Some? ==> from <= r.value < |s| && MatchAt(s, r.value)
    ensures forall m :: from <= m && (r.None? || m < r.value) ==> !MatchAt(s, m)
    decreases |s| - from
  {
    if from >= |s| then None
    else if MatchAt(s, from) then Some(from)
    else FirstMatch(s, from + 1)
  }

  /** `long.Parse` throws on a digit run beyond the range of `long`. */
  datatype ParseFault = Overflow

  const LongLimit: int := 0x8000_0000_0000_0000

  /** The size in one line: the first match's digit group, or 0 without a match. */
  function ParseLine(line: string): (r: Result<int64, ParseFault>)
    ensures r.Ok? ==> r.value >= 0
  {
    match FirstMatch(line, 0)
    case None => Ok(0)
    case Some(i) =>
      var digits := line[i..DigitRunEnd(line, i)];
      assert AllDigits(digits);
      var v := DecimalValue(digits);
      if v < LongLimit then Ok(v) else Err(Overflow)
  }

  /** Index of the first line mentioning "reclaimable", ignoring case. */
  function FirstReclaimable(lines: seq<string>): (r: Option<nat>)
    ensures r.Some? ==> r.value < |lines| && ContainsIgnoreCase(lines[r.value], "reclaimable")
    ensures forall m :: 0 <= m < |lines| && (r.None? || m < r.value) ==> !ContainsIgnoreCase(lines[m], "reclaimable")
  {
    if lines == [] then None
    else if ContainsIgnoreCase(lines[0], "reclaimable") then Some(0)
    else
      match FirstReclaimable(lines[1..])
      case None => None
      case Some(k) => Some(k + 1)
  }

  /** `ParseQueryMaxMb`: the size the first "reclaimable" line reports, 0 when there is none. */
  function ParseQueryMaxMb(output: string): (r: Result<int64, ParseFault>)
    ensures r.Ok? ==> r.value >= 0
  {
    var lines := SplitOn(output, '\n');
    match FirstReclaimable(lines)
    case None => Ok(0)
    case Some(k) => ParseLine(lines[k])
  }

  /** Without a "reclaimable" line the reclaimable size is 0. */
  lemma NoReclaimableLineGivesZero(output: string)
    requires forall l :: l in SplitOn(output, '\n') ==> !ContainsIgnoreCase(l, "reclaimable")
    ensures ParseQueryMaxMb(output) == Ok(0)
  {
  }

  /** Lines after the first "reclaimable" line are never looked at. */
  lemma LaterLinesIgnored(line: string, rest: string)
    requires '\n' !in line && ContainsIgnoreCase(line, "reclaimable")
    ensures ParseQueryMaxMb(line + "\n" + rest) == ParseLine(line)
  {
    SplitOnPrefix(line, '\n', rest);
  }

  /** Lines before the first "reclaimable" line are skipped. */
  lemma EarlierLinesSkipped(line: string, rest: string)
    requires '\n' !in line && !ContainsIgnoreCase(line, "reclaimable")
    ensures ParseQueryMaxMb(line + "\n" + rest) == ParseQueryMaxMb(rest)
  {
    SplitOnPrefix(line, '\n', rest);
    var lines := SplitOn(line + "\n" + rest, '\n');
    assert lines[1..] == SplitOn(rest, '\n');
  }

  /**
   * A line of the form diskpart prints, "... reclaimable ...: 51200 MB" or
   * "... 43016 Megabytes", yields the printed number.
   */
  lemma ReportedSizeParsed(prefix: string, digits: string, spaces: string, unit: string, suffix: string)
    requires forall m :: 0 <= m < |prefix| ==> !IsDigit(prefix[m])
    requires digits != [] && AllDigits(digits) && DecimalValue(digits) < LongLimit
    requires forall m :: 0 <= m < |spaces| ==> IsSpace(spaces[m])
    requires EqualsIgnoreCase(unit, "MB") || EqualsIgnoreCase(unit, "Megabytes")
    ensures ParseLine(prefix + digits + spaces + unit + suffix) == Ok(DecimalValue(digits))
  {
    var line := prefix + digits + spaces + unit + suffix;
    var i, j := |prefix|, |prefix| + |digits|;
    LayoutIsPattern(prefix, digits, spaces, unit, suffix, line, i, j, j + |spaces|);
    assert forall m :: 0 <= m < i ==> !MatchAt(line, m);
    ParseLineOfPattern(line, i, j, j + |spaces|);
  }

  /**
   * The leftmost match is the one the line's size is read from: its digit
   * group, when it fits a `long`, and an overflow fault when it does not.
   */
  lemma ParseLineOfPattern(line: string, i: nat, j: nat, k: nat)
    requires PatternAt(line, i, j, k)
    requires forall m :: 0 <= m < i ==> !MatchAt(line, m)
    ensures AllDigits(line[i..j])
    ensures ParseLine(line) == if DecimalValue(line[i..j]) < LongLimit then Ok(DecimalValue(line[i..j])) else Err(Overflow)
  {
    PatternIsGreedy(line, i, j, k);
  }

  /** A line on which the pattern matches nowhere reports a size of 0. */
  lemma NoMatchGivesZero(line: string)
    requires forall m :: 0 <= m < |line| ==> !MatchAt(line, m)
    ensures ParseLine(line) == Ok(0)
  {
  }

  /** The first "reclaimable" line's leftmost size is the result, whatever follows. */
  lemma ReclaimableLineGivesItsSize(line: string, rest: string, i: nat, j: nat, k: nat)
    requires '\n' !in line && ContainsIgnoreCase(line, "reclaimable")
    requires PatternAt(line, i, j, k)
    requires forall m :: 0 <= m < i ==> !MatchAt(line, m)
    ensures AllDigits(line[i..j])
    ensures ParseQueryMaxMb(line + "\n" + rest)
         == if DecimalValue(line[i..j]) < LongLimit then Ok(DecimalValue(line[i..j])) else Err(Overflow)
  {
    LaterLinesIgnored(line, rest);
    ParseLineOfPattern(line, i, j, k);
  }

  /** A first "reclaimable" line without a size in it gives 0, whatever follows. */
  lemma ReclaimableLineWithoutSize(line: string, rest: string)
    requires '\n' !in line && ContainsIgnoreCase(line, "reclaimable")
    requires forall m :: 0 <= m < |line| ==> !MatchAt(line, m)
    ensures ParseQueryMaxMb(line + "\n" + rest) == Ok(0)
  {
    LaterLinesIgnored(line, rest);
    NoMatchGivesZero(line);
  }

  /** The printed layout is a match of the pattern right after the prefix. */
  lemma LayoutIsPattern(prefix: string, digits: string, spaces: string, unit: string, suffix: string,
                        line: string, i: nat, j: nat, k: nat)
    requires forall m :: 0 <= m < |prefix| ==> !IsDigit(prefix[m])
    requires digits != [] && AllDigits(digits)
    requires forall m :: 0 <= m < |spaces| ==> IsSpace(spaces[m])
    requires EqualsIgnoreCase(unit, "MB") || EqualsIgnoreCase(unit, "Megabytes")
    requires line == prefix + digits + spaces + unit + suffix
    requires i == |prefix| && j == i + |digits| && k == j + |spaces|
    ensures PatternAt(line, i, j, k)
    ensures line[i..j] == digits
    ensures forall m :: 0 <= m < i ==> !IsDigit(line[m])
  {
    assert line[k..k + |unit|] == unit;
    assert UnitAt(line, k);
    assert line[i..j] == digits;
    forall m | i <= m < j ensures IsDigit(line[m]) {
      assert line[m] == digits[m - i];
    }
    forall m | j <= m < k ensures IsSpace(line[m]) {
      assert line[m] == spaces[m - j];
    }
    forall m | 0 <= m < i ensures !IsDigit(line[m]) {
      assert line[m] == prefix[m];
    }
  }

  // ------------------------------------------------------------- scripts

  const DefaultLabel: string := "New Volume"

  /** `label ?? "New Volume"`: a given label is kept as it is, a missing one becomes "New Volume". */
  function LabelOrDefault(volumeLabel: Option<string>): (name: string)
    ensures volumeLabel.Some? ==> name == volumeLabel.value
    ensures volumeLabel.None? ==> name == "New Volume"
  {
    if volumeLabel.Some? then volumeLabel.value else DefaultLabel
  }

  /** `AddPartitionAsync`'s script: select, create with the size, quick format, assign. */
  method AddPartitionScript(diskNumber: int32, sizeMb: int64, volumeLabel: Option<string>, filesystemType: string)
    returns (script: string)
    ensures ScriptLines(script) == [
      SelectDiskLine(diskNumber),
      CreatePrimaryLine(Some(sizeMb as int)),
      FormatLine(filesystemType, LabelOrDefault(volumeLabel), true),
      AssignLine]
  {
    script := CreateAndFormatScript(diskNumber, sizeMb, LabelOrDefault(volumeLabel), filesystemType);
  }

  /** The builder chain of `AddPartitionAsync`, once the label is chosen. */
  method CreateAndFormatScript(diskNumber: int32, sizeMb: int64, name: string, filesystemType: string)
    returns (script: string)
    ensures ScriptLines(script) == [
      SelectDiskLine(diskNumber), CreatePrimaryLine(Some(sizeMb as int)), FormatLine(filesystemType, name, true), AssignLine]
  {
    var builder := new DiskpartScriptBuilder();
    var b := builder.SelectDisk(diskNumber);
    assert b.lines == [SelectDiskLine(diskNumber)];
    b := b.CreatePartitionPrimary(Some(sizeMb));
    assert b.lines == [SelectDiskLine(diskNumber), CreatePrimaryLine(Some(sizeMb as int))];
    b := b.FormatPartition(filesystemType, name, true);
    assert b.lines == [SelectDiskLine(diskNumber), CreatePrimaryLine(Some(sizeMb as int)), FormatLine(filesystemType, name, true)];
    b := b.AssignLetter();
    script := b.Build();
  }

  /** `DeletePartitionAsync`'s script: select disk and partition, then delete. */
  method DeletePartitionScript(diskNumber: int32, partitionNumber: int32, forceOverride: bool)
    returns (script: string)
    ensures ScriptLines(script) == [
      SelectDiskLine(diskNumber), SelectPartitionLine(partitionNumber), DeleteLine(forceOverride)]
  {
    var builder := new DiskpartScriptBuilder();
    var b := builder.SelectDisk(diskNumber);
    b := b.SelectPartition(partitionNumber);
    b := b.DeletePartition(forceOverride);
    script := b.Build();
  }

  /** `QueryShrinkMaxAsync`'s script: select disk and partition, then ask for the maximum. */
  method QueryShrinkMaxScript(diskNumber: int32, partitionNumber: int32) returns (script: string)
    ensures ScriptLines(script) == [
      SelectDiskLine(diskNumber), SelectPartitionLine(partitionNumber), ShrinkQueryMaxLine]
  {
    var builder := new DiskpartScriptBuilder();
    var b := builder.SelectDisk(diskNumber);
    b := b.SelectPartition(partitionNumber);
    b := b.ShrinkQueryMax();
    script := b.Build();
  }

  /** `ShrinkPartitionAsync`'s script: select disk and partition, then shrink by the amount. */
  method ShrinkPartitionScript(diskNumber: int32, partitionNumber: int32, shrinkMb: int64) returns (script: string)
    ensures ScriptLines(script) == [
      SelectDiskLine(diskNumber), SelectPartitionLine(partitionNumber), ShrinkDesiredLine(shrinkMb)]
  {
    var builder := new DiskpartScriptBuilder();
    var b := builder.SelectDisk(diskNumber);
    b := b.SelectPartition(partitionNumber);
    b := b.ShrinkDesired(shrinkMb);
    script := b.Build();
  }

  /** `ExtendPartitionAsync`'s script: select disk and partition, then extend by the amount. */
  method ExtendPartitionScript(diskNumber: int32, partitionNumber: int32, extendMb: int64) returns (script: string)
    ensures ScriptLines(script) == [
      SelectDiskLine(diskNumber), SelectPartitionLine(partitionNumber), ExtendSizeLine(extendMb)]
  {
    var builder := new DiskpartScriptBuilder();
    var b := builder.SelectDisk(diskNumber);
    b := b.SelectPartition(partitionNumber);
    b := b.ExtendSize(extendMb);
    script := b.Build();
  }
}
