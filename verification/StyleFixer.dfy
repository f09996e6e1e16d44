/** The line-based checks of utils/check-style-clang-format.py: trailing
    whitespace and tabs, with the clang-format guards, in check and fix mode. */
module StyleFixer {

  const TAB_SIZE: nat := 4
  const GUARD_ON := "// clang-format on"
  const GUARD_OFF := "// clang-format off"

  // ---------------------------------------------------------------------
  // Python strings
  // ---------------------------------------------------------------------

  /** str.isspace for one character. */
  predicate IsSpace(c: char) {
    var n := c as int;
    || 0x09 <= n <= 0x0D || 0x1C <= n <= 0x20 || n == 0x85 || n == 0xA0 || n == 0x1680
    || 0x2000 <= n <= 0x200A || n == 0x2028 || n == 0x2029 || n == 0x202F || n == 0x205F || n == 0x3000
  }

  function Rstrip(s: string): string {
    if s != [] && IsSpace(s[|s| - 1]) then Rstrip(s[..|s| - 1]) else s
  }

  function Lstrip(s: string): string {
    if s != [] && IsSpace(s[0]) then Lstrip(s[1..]) else s
  }

  function Strip(s: string): string {
    Lstrip(Rstrip(s))
  }

  /** The width a tab takes at a column. */
  function TabWidth(col: nat): (w: nat)
    ensures 1 <= w <= TAB_SIZE
  {
    TAB_SIZE - col % TAB_SIZE
  }

  /** What a character at a column expands to. */
  function Expanded(c: char, col: nat): string {
    if c == '\t' then seq(TabWidth(col), _ => ' ') else [c]
  }

  function NextColumn(c: char, col: nat): nat {
    if c == '\n' || c == '\r' then 0 else col + |Expanded(c, col)|
  }

  /** str.expandtabs, from a column on. */
  function ExpandTabs(s: string, col: nat): string {
    if s == [] then [] else Expanded(s[0], col) + ExpandTabs(s[1..], NextColumn(s[0], col))
  }

  function ColumnAfter(s: string, col: nat): nat {
    if s == [] then col else ColumnAfter(s[1..], NextColumn(s[0], col))
  }

  lemma {:induction false} ExpandAppend(a: string, b: string, col: nat)
    ensures ExpandTabs(a + b, col) == ExpandTabs(a, col) + ExpandTabs(b, ColumnAfter(a, col))
  {
    if a == [] {
      assert a + b == b;
    } else {
      assert (a + b)[1..] == a[1..] + b;
      ExpandAppend(a[1..], b, NextColumn(a[0], col));
    }
  }

  lemma {:induction false} ExpandHas(s: string, col: nat, c: char)
    requires c != ' '
    ensures c in ExpandTabs(s, col) <==> c in s && c != '\t'
  {
    if s == [] {
    } else {
      ExpandHas(s[1..], NextColumn(s[0], col), c);
      assert s == [s[0]] + s[1..];
    }
  }

  lemma {:induction false} ExpandNoTab(s: string, col: nat)
    requires '\t' !in s
    ensures ExpandTabs(s, col) == s
  {
    if s == [] {
    } else {
      assert s[0] in s && s[0] != '\t';
      ExpandNoTab(s[1..], NextColumn(s[0], col));
      assert s == [s[0]] + s[1..];
    }
  }

  lemma {:induction false} ExpandSpaces(s: string, col: nat)
    requires forall c :: c in s ==> IsSpace(c)
    ensures forall c :: c in ExpandTabs(s, col) ==> IsSpace(c)
  {
    if s == [] {
    } else {
      assert s == [s[0]] + s[1..];
      ExpandSpaces(s[1..], NextColumn(s[0], col));
    }
  }

  // Stripping as a decomposition: spaces, core, spaces.

  predicate NoEndSpace(s: string) {
    s == [] || !IsSpace(s[|s| - 1])
  }

  predicate NoStartSpace(s: string) {
    s == [] || !IsSpace(s[0])
  }

  predicate AllSpace(s: string) {
    forall c :: c in s ==> IsSpace(c)
  }

  lemma {:induction false} RstripSplits(s: string) returns (tail: string)
    ensures s == Rstrip(s) + tail && AllSpace(tail) && NoEndSpace(Rstrip(s))
  {
    if s != [] && IsSpace(s[|s| - 1]) {
      var t := RstripSplits(s[..|s| - 1]);
      tail := t + [s[|s| - 1]];
      assert s == Rstrip(s) + tail;
    } else {
      tail := [];
    }
  }

  lemma {:induction false} LstripSplits(s: string) returns (head: string)
    ensures s == head + Lstrip(s) && AllSpace(head) && NoStartSpace(Lstrip(s))
  {
    if s != [] && IsSpace(s[0]) {
      var h := LstripSplits(s[1..]);
      head := [s[0]] + h;
      assert s == head + Lstrip(s);
    } else {
      head := [];
    }
  }

  lemma {:induction false} RstripOf(core: string, tail: string)
    requires NoEndSpace(core) && AllSpace(tail)
    ensures Rstrip(core + tail) == core
  {
    if tail == [] {
      assert core + tail == core;
    } else {
      var n := |tail| - 1;
      assert (core + tail)[..|core + tail| - 1] == core + tail[..n];
      assert tail[n] in tail;
      RstripOf(core, tail[..n]);
    }
  }

  lemma {:induction false} LstripOf(head: string, core: string)
    requires NoStartSpace(core) && AllSpace(head)
    ensures Lstrip(head + core) == core
  {
    if head == [] {
      assert head + core == core;
    } else {
      assert (head + core)[1..] == head[1..] + core;
      assert head[0] in head;
      LstripOf(head[1..], core);
    }
  }

  /** A line is spaces, then its stripped text, then spaces. */
  lemma StripSplits(s: string) returns (head: string, tail: string)
    ensures s == head + Strip(s) + tail && AllSpace(head) && AllSpace(tail)
    ensures NoStartSpace(Strip(s)) && NoEndSpace(Strip(s))
  {
    tail := RstripSplits(s);
    head := LstripSplits(Rstrip(s));
    if Strip(s) != [] {
      assert Rstrip(s)[|Rstrip(s)| - 1] == Strip(s)[|Strip(s)| - 1];
    }
  }

  lemma StripOf(head: string, core: string, tail: string)
    requires AllSpace(head) && AllSpace(tail) && core != [] && NoStartSpace(core) && NoEndSpace(core)
    ensures Strip(head + core + tail) == core
  {
    RstripOf(head + core, tail);
    LstripOf(head, core);
  }

  // ---------------------------------------------------------------------
  // The checks on one line
  // ---------------------------------------------------------------------

  datatype Rule = Whitespace | Tabs

  datatype LineCheck = LineCheck(compliant: bool, fixed: string)

  /** check_whitespace_line and check_tabs_line. */
  function CheckLine(rule: Rule, line: string): LineCheck {
    match rule
    case Whitespace =>
      var fixed := Rstrip(line) + "\n";
      LineCheck(fixed == line, fixed)
    case Tabs =>
      if '\t' in line then LineCheck(false, ExpandTabs(line, 0)) else LineCheck(true, line)
  }

  /** What a fixed line is like: compliant. */
  lemma FixedLineCompliant(rule: Rule, line: string)
    ensures CheckLine(rule, CheckLine(rule, line).fixed).compliant
  {
    match rule
    case Whitespace =>
      var tail := RstripSplits(line);
      RstripOf(Rstrip(line), "\n");
    case Tabs =>
      if '\t' in line {
        ExpandHas(line, 0, '\t');
      }
  }

  lemma CompliantLineUnchanged(rule: Rule, line: string)
    requires CheckLine(rule, line).compliant
    ensures CheckLine(rule, line).fixed == line
  {
  }

  /** A fix leaves guards alone: what a line strips to is not changed when it
      has no tab in it. */
  lemma FixKeepsStripped(rule: Rule, line: string)
    requires Strip(line) != [] && '\t' !in Strip(line)
    ensures Strip(CheckLine(rule, line).fixed) == Strip(line)
  {
    var core := Strip(line);
    match rule
    case Whitespace =>
      var tail := RstripSplits(line);
      RstripOf(Rstrip(line), "\n");
    case Tabs =>
      if '\t' in line {
        var head, tail := StripSplits(line);
        ExpandAppend(head + core, tail, 0);
        ExpandAppend(head, core, 0);
        ExpandNoTab(core, ColumnAfter(head, 0));
        ExpandSpaces(head, 0);
        ExpandSpaces(tail, ColumnAfter(head + core, 0));
        StripOf(ExpandTabs(head, 0), core, ExpandTabs(tail, ColumnAfter(head + core, 0)));
      }
  }

  // ---------------------------------------------------------------------
  // Guards and whole files, as lists of lines
  // ---------------------------------------------------------------------

  datatype Guard = On | Off | NoGuard

  /** A line is a guard when it strips to one. */
  function GuardOf(line: string): Guard {
    var lineStripped := Strip(line);
    if lineStripped == GUARD_ON then On else if lineStripped == GUARD_OFF then Off else NoGuard
  }

  function Switched(guard: Guard, enabled: bool): bool {
    guard.On? || (enabled && !guard.Off?)
  }

  predicate IsGuard(line: string) {
    !GuardOf(line).NoGuard?
  }

  function AfterGuard(enabled: bool, line: string): bool {
    Switched(GuardOf(line), enabled)
  }

  /** Whether formatting is enabled before line i. */
  function EnabledBefore(lines: seq<string>, i: nat): bool
    requires i <= |lines|
  {
    i == 0 || AfterGuard(EnabledBefore(lines, i - 1), lines[i - 1])
  }

  /** Whether line i is checked: always, unless guards are respected; then
      outside guarded regions, and the guards themselves. */
  predicate Checked(lines: seq<string>, respectGuards: bool, i: nat)
    requires i < |lines|
  {
    !respectGuards || AfterGuard(EnabledBefore(lines, i), lines[i]) || IsGuard(lines[i])
  }

  ghost predicate Compliant(rule: Rule, respectGuards: bool, lines: seq<string>) {
    forall i :: 0 <= i < |lines| ==> !Offends(rule, respectGuards, lines, i)
  }

  /** A line that is checked and not compliant. */
  predicate Offends(rule: Rule, respectGuards: bool, lines: seq<string>, i: nat)
    requires i < |lines|
  {
    Checked(lines, respectGuards, i) && !CheckLine(rule, lines[i]).compliant
  }

  function FixedLine(rule: Rule, respectGuards: bool, lines: seq<string>, i: nat): string
    requires i < |lines|
  {
    if Checked(lines, respectGuards, i) then CheckLine(rule, lines[i]).fixed else lines[i]
  }

  function FixedLines(rule: Rule, respectGuards: bool, lines: seq<string>): seq<string> {
    seq(|lines|, i requires 0 <= i < |lines| => FixedLine(rule, respectGuards, lines, i))
  }

  /** One line of that: with formatting enabled after the fix only if it was
      enabled before, the line changes nothing about it. */
  lemma FixedGuardStep(rule: Rule, line: string, enabled: bool, enabledFixed: bool)
    ensures (enabledFixed ==> enabled) ==> AfterGuard(enabled, line) || IsGuard(line) ==>
      AfterGuard(enabledFixed, CheckLine(rule, line).fixed) ==> AfterGuard(enabled, line)
    ensures (enabledFixed ==> enabled) ==> !AfterGuard(enabled, line) && !IsGuard(line) ==>
      !AfterGuard(enabledFixed, line)
  {
    if Strip(line) == GUARD_OFF {
      FixKeepsStripped(rule, line);
    }
  }

  /** Line i of the second file enables formatting only where the first does. */
  ghost predicate EnablesLess(lines: seq<string>, fixed: seq<string>, i: nat)
    requires i < |lines| == |fixed|
  {
    forall enabledFixed: bool :: (enabledFixed ==> EnabledBefore(lines, i)) ==>
      AfterGuard(enabledFixed, fixed[i]) ==> AfterGuard(EnabledBefore(lines, i), lines[i])
  }

  lemma {:induction false} OnlyDisables(lines: seq<string>, fixed: seq<string>, i: nat)
    requires i <= |lines| == |fixed|
    requires forall j :: 0 <= j < i ==> EnablesLess(lines, fixed, j)
    ensures EnabledBefore(fixed, i) ==> EnabledBefore(lines, i)
  {
    if i == 0 {
    } else {
      OnlyDisables(lines, fixed, i - 1);
      assert EnablesLess(lines, fixed, i - 1);
    }
  }

  /** A fix can turn formatting off where it was on, never the other way round. */
  lemma FixOnlyDisables(rule: Rule, lines: seq<string>, i: nat)
    requires i <= |lines|
    ensures EnabledBefore(FixedLines(rule, true, lines), i) ==> EnabledBefore(lines, i)
  {
    var fixed := FixedLines(rule, true, lines);
    forall j | 0 <= j < i
      ensures EnablesLess(lines, fixed, j)
    {
      assert fixed[j] == FixedLine(rule, true, lines, j);
      FixedGuardStep(rule, lines[j], EnabledBefore(lines, j), true);
      FixedGuardStep(rule, lines[j], EnabledBefore(lines, j), false);
    }
    OnlyDisables(lines, fixed, i);
  }

  /** Lines checked after a fix were checked by the fix. */
  lemma CheckedAgainWasChecked(rule: Rule, respectGuards: bool, lines: seq<string>, i: nat)
    requires i < |lines| && Checked(FixedLines(rule, respectGuards, lines), respectGuards, i)
    ensures Checked(lines, respectGuards, i)
  {
    if respectGuards {
      FixOnlyDisables(rule, lines, i);
      if Strip(lines[i]) == GUARD_OFF {
        FixKeepsStripped(rule, lines[i]);
      }
    }
  }

  /** A fixed file is compliant. */
  lemma FixedIsCompliant(rule: Rule, respectGuards: bool, lines: seq<string>)
    ensures Compliant(rule, respectGuards, FixedLines(rule, respectGuards, lines))
  {
    var fixed := FixedLines(rule, respectGuards, lines);
    forall i | 0 <= i < |fixed|
      ensures !Offends(rule, respectGuards, fixed, i)
    {
      if Checked(fixed, respectGuards, i) {
        CheckedAgainWasChecked(rule, respectGuards, lines, i);
        FixedLineCompliant(rule, lines[i]);
      }
    }
  }

  /** Fixing is idempotent, and changes nothing in a compliant file. */
  lemma CompliantIsFixed(rule: Rule, respectGuards: bool, lines: seq<string>)
    ensures Compliant(rule, respectGuards, lines) <==> FixedLines(rule, respectGuards, lines) == lines
  {
    if Compliant(rule, respectGuards, lines) {
      forall i | 0 <= i < |lines|
        ensures FixedLine(rule, respectGuards, lines, i) == lines[i]
      {
        assert !Offends(rule, respectGuards, lines, i);
        if Checked(lines, respectGuards, i) {
          CompliantLineUnchanged(rule, lines[i]);
        }
      }
    } else {
      FixedIsCompliant(rule, respectGuards, lines);
    }
  }

  /** A tab fix does not bring trailing whitespace back. */
  lemma TabFixKeepsWhitespaceClean(respectGuards: bool, lines: seq<string>)
    requires Compliant(Whitespace, false, lines)
    ensures Compliant(Whitespace, false, FixedLines(Tabs, respectGuards, lines))
  {
    var fixed := FixedLines(Tabs, respectGuards, lines);
    forall i | 0 <= i < |lines|
      ensures CheckLine(Whitespace, fixed[i]).compliant
    {
      assert !Offends(Whitespace, false, lines, i);
      ExpandedLineClean(lines[i]);
    }
  }

  lemma ExpandedLineClean(line: string)
    requires Rstrip(line) + "\n" == line
    ensures Rstrip(ExpandTabs(line, 0)) + "\n" == ExpandTabs(line, 0)
  {
    var core := Rstrip(line);
    var tail := RstripSplits(line);
    ExpandAppend(core, "\n", 0);
    assert ExpandTabs("\n", ColumnAfter(core, 0)) == "\n";
    if core != [] {
      var n := |core| - 1;
      var last := [core[n]];
      assert core == core[..n] + last;
      ExpandAppend(core[..n], last, 0);
      assert ExpandTabs(last, ColumnAfter(core[..n], 0)) == last;
    }
    RstripOf(ExpandTabs(core, 0), "\n");
  }

  // ---------------------------------------------------------------------
  // Files on disk
  // ---------------------------------------------------------------------

  /** Universal newlines: CR LF and CR alone are read as LF. */
  function Normalized(s: string): string {
    if s == [] then []
    else if s[0] == '\r' then
      if |s| > 1 && s[1] == '\n' then "\n" + Normalized(s[2..]) else "\n" + Normalized(s[1..])
    else [s[0]] + Normalized(s[1..])
  }

  function FirstNewline(s: string): (n: nat)
    ensures n <= |s| && '\n' !in s[..n] && (n < |s| ==> s[n] == '\n')
  {
    if s == [] || s[0] == '\n' then 0
    else
      var n := 1 + FirstNewline(s[1..]);
      assert s[..n] == [s[0]] + s[1..][..n - 1];
      n
  }

  function SplitLines(s: string): seq<string> {
    if s == [] then []
    else
      var n := FirstNewline(s);
      if n == |s| then [s] else [s[..n + 1]] + SplitLines(s[n + 1..])
  }

  function ReadLines(disk: string): seq<string> {
    SplitLines(Normalized(disk))
  }

  function WriteLines(lines: seq<string>): string {
    if lines == [] then [] else lines[0] + WriteLines(lines[1..])
  }

  /** A line as readlines returns it; only the last one may lack its newline. */
  predicate LineShape(line: string, last: bool) {
    && line != [] && '\r' !in line && '\n' !in line[..|line| - 1]
    && (last || line[|line| - 1] == '\n')
  }

  predicate FileShape(lines: seq<string>) {
    forall i :: 0 <= i < |lines| ==> LineShape(lines[i], i == |lines| - 1)
  }

  lemma {:induction false} NormalizedNoReturn(s: string)
    ensures '\r' !in Normalized(s)
  {
    if s == [] {
    } else {
      if s[0] == '\r' && |s| > 1 && s[1] == '\n' {
        NormalizedNoReturn(s[2..]);
      } else {
        NormalizedNoReturn(s[1..]);
      }
    }
  }

  lemma {:induction false} NormalizedUnchanged(s: string)
    requires '\r' !in s
    ensures Normalized(s) == s
  {
    if s == [] {
    } else {
      assert s[0] in s;
      NormalizedUnchanged(s[1..]);
      assert s == [s[0]] + s[1..];
    }
  }

  lemma {:induction false} SplitShape(s: string)
    requires '\r' !in s
    ensures FileShape(SplitLines(s))
  {
    if s == [] {
    } else {
      var n := FirstNewline(s);
      if n < |s| {
        SplitShape(s[n + 1..]);
        var rest := SplitLines(s[n + 1..]);
        assert s[..n + 1][..n] == s[..n];
        forall i | 0 <= i < |SplitLines(s)|
          ensures LineShape(SplitLines(s)[i], i == |SplitLines(s)| - 1)
        {
          if i > 0 {
            assert SplitLines(s)[i] == rest[i - 1];
          }
        }
      } else {
        assert s[..|s| - 1] == s[..n][..|s| - 1];
      }
    }
  }

  lemma ReadShape(disk: string)
    ensures FileShape(ReadLines(disk))
  {
    NormalizedNoReturn(disk);
    SplitShape(Normalized(disk));
  }

  /** Writing lines and reading them back. */
  lemma {:induction false} SplitWritten(lines: seq<string>)
    requires FileShape(lines)
    ensures SplitLines(WriteLines(lines)) == lines
    ensures '\r' !in WriteLines(lines)
  {
    if lines == [] {
    } else {
      var first, rest := lines[0], lines[1..];
      assert LineShape(first, |lines| == 1);
      assert FileShape(rest) by {
        assert forall i :: 0 <= i < |rest| ==> rest[i] == lines[i + 1];
      }
      SplitWritten(rest);
      var s := first + WriteLines(rest);
      if first[|first| - 1] == '\n' {
        FirstNewlineAt(s, |first| - 1);
        assert s[..|first|] == first && s[|first|..] == WriteLines(rest);
      } else {
        assert rest == [];
        assert s == first;
        assert first == first[..|first| - 1] + [first[|first| - 1]];
        assert FirstNewline(first) == |first|;
      }
    }
  }

  lemma FirstNewlineAt(s: string, n: nat)
    requires n < |s| && s[n] == '\n' && forall i :: 0 <= i < n ==> s[i] != '\n'
    ensures FirstNewline(s) == n
  {
    var m := FirstNewline(s);
    assert m < |s|;
    assert m <= n;
  }

  lemma WriteThenRead(lines: seq<string>)
    requires FileShape(lines)
    ensures ReadLines(WriteLines(lines)) == lines
  {
    SplitWritten(lines);
    NormalizedUnchanged(WriteLines(lines));
  }

  /** Fixed lines are again lines of a file. */
  lemma FixKeepsShape(rule: Rule, respectGuards: bool, lines: seq<string>)
    requires FileShape(lines)
    ensures FileShape(FixedLines(rule, respectGuards, lines))
  {
    forall i | 0 <= i < |lines|
      ensures LineShape(FixedLine(rule, respectGuards, lines, i), i == |lines| - 1)
    {
      FixedLineShape(rule, lines[i], i == |lines| - 1);
    }
  }

  lemma FixedLineShape(rule: Rule, line: string, last: bool)
    requires LineShape(line, last)
    ensures LineShape(CheckLine(rule, line).fixed, last)
  {
    match rule
    case Whitespace => StrippedLineShape(line);
    case Tabs => ExpandedLineShape(line, last);
  }

  lemma StrippedLineShape(line: string)
    requires LineShape(line, true)
    ensures LineShape(Rstrip(line) + "\n", false)
  {
    var n := |line| - 1;
    var tail := RstripSplits(line);
    var core := Rstrip(line);
    forall i | 0 <= i < |core|
      ensures core[i] != '\n' && core[i] != '\r'
    {
      assert core[i] == line[i] && line[i] in line;
      if i < n {
        assert line[..n][i] == line[i];
      }
    }
    assert (core + "\n")[..|core|] == core;
  }

  lemma ExpandedLineShape(line: string, last: bool)
    requires LineShape(line, last)
    ensures LineShape(ExpandTabs(line, 0), last)
  {
    var n := |line| - 1;
    var init, col := line[..n], ColumnAfter(line[..n], 0);
    assert line == init + [line[n]];
    ExpandAppend(init, [line[n]], 0);
    ExpandHas(init, 0, '\n');
    ExpandHas(line, 0, '\r');
    var front, back := ExpandTabs(init, 0), Expanded(line[n], col);
    assert ExpandTabs([line[n]], col) == back;
    assert '\n' !in back[..|back| - 1];
    assert (front + back)[..|front + back| - 1] == front + back[..|back| - 1];
  }

  /** What a run in fix mode leaves on disk. */
  function FixedDisk(rule: Rule, respectGuards: bool, disk: string): string {
    var lines := ReadLines(disk);
    var fixed := FixedLines(rule, respectGuards, lines);
    if fixed == lines then disk else WriteLines(fixed)
  }

  lemma FixedDiskLines(rule: Rule, respectGuards: bool, disk: string)
    ensures ReadLines(FixedDisk(rule, respectGuards, disk)) == FixedLines(rule, respectGuards, ReadLines(disk))
  {
    ReadShape(disk);
    FixKeepsShape(rule, respectGuards, ReadLines(disk));
    WriteThenRead(FixedLines(rule, respectGuards, ReadLines(disk)));
  }

  /** After a fix, the same check reports the file compliant, and a second fix
      leaves it as it is. */
  lemma FixThenCheck(rule: Rule, respectGuards: bool, disk: string)
    ensures var disk' := FixedDisk(rule, respectGuards, disk);
      && Compliant(rule, respectGuards, ReadLines(disk'))
      && FixedDisk(rule, respectGuards, disk') == disk'
  {
    FixedDiskLines(rule, respectGuards, disk);
    FixedIsCompliant(rule, respectGuards, ReadLines(disk));
    CompliantIsFixed(rule, respectGuards, FixedLines(rule, respectGuards, ReadLines(disk)));
  }

  /** The two fixes in the order of the program, whitespace everywhere and then
      tabs outside guards, leave a file that both checks accept. */
  lemma FixAllThenCheckAll(disk: string)
    ensures var disk' := FixedDisk(Tabs, true, FixedDisk(Whitespace, false, disk));
      && Compliant(Whitespace, false, ReadLines(disk'))
      && Compliant(Tabs, true, ReadLines(disk'))
  {
    var clean := FixedDisk(Whitespace, false, disk);
    FixThenCheck(Whitespace, false, disk);
    FixThenCheck(Tabs, true, clean);
    FixedDiskLines(Tabs, true, clean);
    TabFixKeepsWhitespaceClean(true, ReadLines(clean));
  }

  // ---------------------------------------------------------------------
  // The program
  // ---------------------------------------------------------------------

  ghost function OffendingFlags(rule: Rule, respectGuards: bool, lines: seq<string>): seq<bool> {
    seq(|lines|, i requires 0 <= i < |lines| => Offends(rule, respectGuards, lines, i))
  }

  /** The numbers below n that are flagged, in order. */
  ghost function Numbers(flags: seq<bool>, n: nat): seq<nat>
    requires n <= |flags|
  {
    if n == 0 then [] else Numbers(flags, n - 1) + if flags[n - 1] then [n - 1] else []
  }

  lemma {:induction false} NumbersMembers(flags: seq<bool>, n: nat)
    requires n <= |flags|
    ensures forall i: nat :: i in Numbers(flags, n) <==> i < n && flags[i]
  {
    if n == 0 {
    } else {
      NumbersMembers(flags, n - 1);
    }
  }

  lemma {:induction false} NumbersPrefix(flags: seq<bool>, i: nat, n: nat)
    requires i <= n <= |flags|
    ensures Numbers(flags, i) <= Numbers(flags, n)
    decreases n - i
  {
    if i == n {
    } else {
      NumbersPrefix(flags, i, n - 1);
    }
  }

  /** All numbers that are flagged, or just the first. */
  ghost function Listed(flags: seq<bool>, all: bool): seq<nat> {
    var numbers := Numbers(flags, |flags|);
    if all || numbers == [] then numbers else [numbers[0]]
  }

  lemma FirstListed(flags: seq<bool>, i: nat)
    requires i < |flags| && flags[i] && Numbers(flags, i) == []
    ensures Listed(flags, false) == [i]
  {
    NumbersPrefix(flags, i + 1, |flags|);
    assert Numbers(flags, i + 1) == [i];
  }

  /** What a run over the lines of a file goes through: whether formatting is
      enabled before each line, whether the line offends, and how it is fixed. */
  datatype Plan = Plan(enabled: seq<bool>, offends: seq<bool>, fixed: seq<string>)

  /** The plan is right for a classification of lines as guards and a check. */
  ghost predicate Right(plan: Plan, guardOf: string -> Guard, check: string -> LineCheck, respectGuards: bool,
                        lines: seq<string>)
  {
    && |plan.offends| == |plan.fixed| == |lines| && |plan.enabled| == |lines| + 1
    && plan.enabled[0]
    && forall i {:trigger plan.offends[i]} :: 0 <= i < |lines| ==>
         var guard, result := guardOf(lines[i]), check(lines[i]);
         var skipped := respectGuards && guard.NoGuard? && !plan.enabled[i + 1];
         && plan.enabled[i + 1] == Switched(guard, plan.enabled[i])
         && plan.offends[i] == (!skipped && !result.compliant)
         && plan.fixed[i] == if skipped then lines[i] else result.fixed
  }

  lemma RightLine(rule: Rule, respectGuards: bool, lines: seq<string>, i: nat)
    requires i < |lines|
    ensures var guard, result := GuardOf(lines[i]), CheckLine(rule, lines[i]);
      var skipped := respectGuards && guard.NoGuard? && !EnabledBefore(lines, i + 1);
      && EnabledBefore(lines, i + 1) == Switched(guard, EnabledBefore(lines, i))
      && Offends(rule, respectGuards, lines, i) == (!skipped && !result.compliant)
      && FixedLine(rule, respectGuards, lines, i) == if skipped then lines[i] else result.fixed
  {
  }

  lemma RightPlan(rule: Rule, respectGuards: bool, lines: seq<string>) returns (plan: Plan)
    ensures Right(plan, GuardOf, line => CheckLine(rule, line), respectGuards, lines)
    ensures plan.offends == OffendingFlags(rule, respectGuards, lines)
    ensures plan.fixed == FixedLines(rule, respectGuards, lines)
  {
    plan := Plan(seq(|lines| + 1, i requires 0 <= i <= |lines| => EnabledBefore(lines, i)),
                 OffendingFlags(rule, respectGuards, lines), FixedLines(rule, respectGuards, lines));
    forall i {:trigger plan.offends[i]} | 0 <= i < |lines|
      ensures var guard, result := GuardOf(lines[i]), CheckLine(rule, lines[i]);
        var skipped := respectGuards && guard.NoGuard? && !plan.enabled[i + 1];
        && plan.enabled[i + 1] == Switched(guard, plan.enabled[i])
        && plan.offends[i] == (!skipped && !result.compliant)
        && plan.fixed[i] == if skipped then lines[i] else result.fixed
    {
      RightLine(rule, respectGuards, lines, i);
    }
  }

  /** The loop over the lines of a file, with the check as a parameter. It gives
      up early, at the first offending line, only in check mode without verbose. */
  method SweepLines(lines: seq<string>, fix: bool, verbose: bool, respectGuards: bool,
                    guardOf: string -> Guard, check: string -> LineCheck, ghost plan: Plan)
    returns (compliant: bool, infos: seq<nat>, fileLines: seq<string>)
    requires forall line :: check(line).compliant ==> check(line).fixed == line
    requires Right(plan, guardOf, check, respectGuards, lines)
    ensures compliant <==> infos == []
    ensures infos == Listed(plan.offends, fix || verbose)
    ensures fix || verbose ==> fileLines == plan.fixed
  {
    compliant, infos := true, [];
    var enabled := true;
    fileLines := lines;
    for i := 0 to |lines|
      invariant respectGuards ==> enabled == plan.enabled[i]
      invariant |fileLines| == |lines|
      invariant forall j :: 0 <= j < i ==> fileLines[j] == plan.fixed[j]
      invariant forall j :: i <= j < |lines| ==> fileLines[j] == lines[j]
      invariant infos == Numbers(plan.offends, i)
      invariant fix || verbose || infos == []
      invariant compliant <==> infos == []
    {
      var line := lines[i];
      assert Numbers(plan.offends, i + 1) == infos + if plan.offends[i] then [i] else [];
      if respectGuards {
        var guard := guardOf(line);
        enabled := Switched(guard, enabled);
        if !enabled && guard.NoGuard? {
          continue;
        }
      }
      var result := check(line);
      if !result.compliant {
        compliant := false;
        fileLines := fileLines[i := result.fixed];
        infos := infos + [i];
        if !fix && !verbose {
          FirstListed(plan.offends, i);
          break;
        }
      }
    }
  }

  /** A file is compliant exactly when no offending line is listed. */
  lemma ListedCompliance(rule: Rule, respectGuards: bool, lines: seq<string>, all: bool)
    ensures var infos := Listed(OffendingFlags(rule, respectGuards, lines), all);
      && (infos == [] <==> Compliant(rule, respectGuards, lines))
      && (all ==> forall i: nat :: i in infos <==> i < |lines| && Offends(rule, respectGuards, lines, i))
  {
    var flags := OffendingFlags(rule, respectGuards, lines);
    var numbers := Numbers(flags, |flags|);
    NumbersMembers(flags, |flags|);
    if numbers == [] {
      forall i | 0 <= i < |lines| ensures !Offends(rule, respectGuards, lines, i) {
        assert i !in numbers;
        assert !flags[i];
      }
    } else {
      assert numbers[0] in numbers;
      assert flags[numbers[0]];
    }
  }

  lemma CompliantLinesUnchanged(rule: Rule)
    ensures forall line :: CheckLine(rule, line).compliant ==> CheckLine(rule, line).fixed == line
  {
    forall line | CheckLine(rule, line).compliant ensures CheckLine(rule, line).fixed == line {
      CompliantLineUnchanged(rule, line);
    }
  }

  /** A run over the lines of a file. */
  method CheckLines(lines: seq<string>, fix: bool, verbose: bool, respectGuards: bool, rule: Rule)
    returns (compliant: bool, infos: seq<nat>, fileLines: seq<string>)
    ensures compliant <==> Compliant(rule, respectGuards, lines)
    ensures infos == Listed(OffendingFlags(rule, respectGuards, lines), fix || verbose)
    ensures fix || verbose ==> fileLines == FixedLines(rule, respectGuards, lines)
  {
    ghost var plan := RightPlan(rule, respectGuards, lines);
    CompliantLinesUnchanged(rule);
    compliant, infos, fileLines :=
      SweepLines(lines, fix, verbose, respectGuards, GuardOf, line => CheckLine(rule, line), plan);
    ListedCompliance(rule, respectGuards, lines, fix || verbose);
  }

  /** A run on one file. The verdict is the same in check and fix mode, verbose
      or not; only fix mode changes the file. With fix or verbose, infos lists
      every offending line in order, otherwise the first one. */
  method CheckManuallyFile(disk: string, fix: bool, verbose: bool, respectGuards: bool, rule: Rule)
    returns (compliant: bool, infos: seq<nat>, disk': string)
    ensures compliant <==> Compliant(rule, respectGuards, ReadLines(disk))
    ensures disk' == if fix then FixedDisk(rule, respectGuards, disk) else disk
    ensures infos == Listed(OffendingFlags(rule, respectGuards, ReadLines(disk)), fix || verbose)
  {
    var lines := ReadLines(disk);
    var fileLines;
    compliant, infos, fileLines := CheckLines(lines, fix, verbose, respectGuards, rule);
    CompliantIsFixed(rule, respectGuards, lines);
    disk' := disk;
    if fix && !compliant {
      disk' := WriteLines(fileLines);
    }
  }
}
