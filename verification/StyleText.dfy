/** What utils/check-style-clang-format.py does to the text of a file, said without
    the functions that do it: which lines are within guards, which offend, what is
    left of a line after a fix, and which lines a file has. */
module StyleText {
  import opened StyleFixer

  // ---------------------------------------------------------------------
  // Guards
  // ---------------------------------------------------------------------

  predicate OnText(line: string) {
    Strip(line) == "// clang-format on"
  }

  predicate OffText(line: string) {
    Strip(line) == "// clang-format off"
  }

  /** No guard among the lines from lo up to hi. */
  ghost predicate NoGuards(lines: seq<string>, lo: nat, hi: nat) {
    forall k :: lo <= k < hi && k < |lines| ==> !OnText(lines[k]) && !OffText(lines[k])
  }

  /** The nearest guard above position i is the off guard in line j. */
  ghost predicate OffAbove(lines: seq<string>, j: nat, i: nat) {
    j < i <= |lines| && OffText(lines[j]) && NoGuards(lines, j + 1, i)
  }

  ghost predicate BelowOff(lines: seq<string>, i: nat) {
    exists j: nat :: OffAbove(lines, j, i)
  }

  /** Line i is within guards: the nearest guard above is an off guard, and the
      line is no guard itself. */
  ghost predicate Guarded(lines: seq<string>, i: nat)
    requires i < |lines|
  {
    !OnText(lines[i]) && !OffText(lines[i]) && BelowOff(lines, i)
  }

  lemma BelowOffNext(lines: seq<string>, i: nat)
    requires i < |lines|
    ensures BelowOff(lines, i + 1) <==> OffText(lines[i]) || (!OnText(lines[i]) && BelowOff(lines, i))
  {
    var next := i + 1;
    if OffText(lines[i]) {
      assert OffAbove(lines, i, next);
    } else if j: nat :| OffAbove(lines, j, i) && !OnText(lines[i]) {
      assert OffAbove(lines, j, next);
    } else if j: nat :| OffAbove(lines, j, next) {
      assert j < i;
      assert OffAbove(lines, j, i);
    }
  }

  lemma {:induction false} DisabledByText(lines: seq<string>, i: nat)
    requires i <= |lines|
    ensures !EnabledBefore(lines, i) <==> BelowOff(lines, i)
  {
    if i == 0 {
    } else {
      DisabledByText(lines, i - 1);
      BelowOffNext(lines, i - 1);
    }
  }

  /** With guards respected, a line is checked exactly when it is not within them. */
  lemma CheckedByText(lines: seq<string>, i: nat)
    requires i < |lines|
    ensures Checked(lines, true, i) <==> !Guarded(lines, i)
  {
    DisabledByText(lines, i);
  }

  // ---------------------------------------------------------------------
  // Offending lines
  // ---------------------------------------------------------------------

  /** A line must end with a newline and nothing blank before it; it must have no
      tab. */
  predicate BadText(rule: Rule, line: string) {
    match rule
    case Whitespace =>
      !(line != [] && line[|line| - 1] == '\n' && (|line| == 1 || !IsSpace(line[|line| - 2])))
    case Tabs => '\t' in line
  }

  lemma ComplianceByText(rule: Rule, line: string)
    ensures CheckLine(rule, line).compliant <==> !BadText(rule, line)
  {
    match rule
    case Whitespace =>
      var tail := RstripSplits(line);
      if !BadText(rule, line) {
        var core := line[..|line| - 1];
        assert line == core + "\n";
        RstripOf(core, "\n");
      }
    case Tabs =>
  }

  /** Which lines offend, and what becomes of the others: nothing. */
  lemma OffendsByText(rule: Rule, respectGuards: bool, lines: seq<string>, i: nat)
    requires i < |lines|
    ensures Offends(rule, respectGuards, lines, i) <==>
      !(respectGuards && Guarded(lines, i)) && BadText(rule, lines[i])
    ensures FixedLine(rule, respectGuards, lines, i)
      == if Offends(rule, respectGuards, lines, i) then CheckLine(rule, lines[i]).fixed else lines[i]
  {
    CheckedByText(lines, i);
    ComplianceByText(rule, lines[i]);
    if CheckLine(rule, lines[i]).compliant {
      CompliantLineUnchanged(rule, lines[i]);
    }
  }

  /** A line below an off guard, with no guard in between, is left alone. */
  lemma GuardedLineKept(rule: Rule, lines: seq<string>, j: nat, i: nat)
    requires j < i < |lines| && Strip(lines[j]) == "// clang-format off" && NoGuards(lines, j + 1, i + 1)
    ensures !Offends(rule, true, lines, i) && FixedLine(rule, true, lines, i) == lines[i]
  {
    assert OffAbove(lines, j, i);
    OffendsByText(rule, true, lines, i);
  }

  /** A line below an on guard, with no guard in between, or with no guard above,
      is checked and fixed. */
  lemma UnguardedLineChecked(rule: Rule, lines: seq<string>, i: nat)
    requires i < |lines|
    requires NoGuards(lines, 0, i)
          || exists j :: 0 <= j < i && Strip(lines[j]) == "// clang-format on" && NoGuards(lines, j + 1, i)
    ensures Offends(rule, true, lines, i) <==> BadText(rule, lines[i])
    ensures FixedLine(rule, true, lines, i) == CheckLine(rule, lines[i]).fixed
  {
    OffendsByText(rule, true, lines, i);
    CheckedByText(lines, i);
  }

  // ---------------------------------------------------------------------
  // Fixed lines
  // ---------------------------------------------------------------------

  /** A whitespace fix takes the blanks off the end, and no more, and ends the
      line. */
  lemma WhitespaceFixByText(core: string, blanks: string)
    requires NoEndSpace(core) && AllSpace(blanks)
    ensures CheckLine(Whitespace, core + blanks).fixed == core + "\n"
  {
    RstripOf(core, blanks);
  }

  /** Which of the ASCII characters are blank: space, and tab to carriage return and
      file to unit separator. */
  lemma BlankCharacters()
    ensures IsSpace(' ') && IsSpace('\t') && IsSpace('\n') && IsSpace('\r') && IsSpace('\U{0B}') && IsSpace('\U{0C}')
    ensures forall c: char :: '!' <= c <= '~' ==> !IsSpace(c)
    ensures forall c: char :: '\U{0E}' <= c <= '\U{1B}' || c < '\t' ==> !IsSpace(c)
  {
  }

  /** A line with a blank and a tab before its end, and one without an end. */
  lemma TrailingBlanks()
    ensures !CheckLine(Whitespace, "a b \t\n").compliant && CheckLine(Whitespace, "a b \t\n").fixed == "a b\n"
    ensures !CheckLine(Whitespace, "a b").compliant && CheckLine(Whitespace, "a b").fixed == "a b\n"
  {
    BlankCharacters();
    assert "a b \t\n" == "a b" + " \t\n" && "a b" == "a b" + "";
    WhitespaceFixByText("a b", " \t\n");
    WhitespaceFixByText("a b", "");
  }

  /** What is neither tab nor space. */
  function Ink(s: string): string {
    if s == [] then [] else (if s[0] == '\t' || s[0] == ' ' then [] else [s[0]]) + Ink(s[1..])
  }

  lemma {:induction false} InkAppend(a: string, b: string)
    ensures Ink(a + b) == Ink(a) + Ink(b)
  {
    if a == [] {
      assert a + b == b;
    } else {
      assert (a + b)[1..] == a[1..] + b;
      InkAppend(a[1..], b);
    }
  }

  lemma {:induction false} NoInk(n: nat)
    ensures Ink(seq(n, _ => ' ')) == []
  {
    if n == 0 {
    } else {
      NoInk(n - 1);
      assert seq(n, _ => ' ')[1..] == seq(n - 1, _ => ' ');
    }
  }

  /** A tab fix changes tabs and spaces only. */
  lemma {:induction false} TabFixKeepsInk(s: string, col: nat)
    ensures Ink(ExpandTabs(s, col)) == Ink(s)
  {
    if s == [] {
    } else {
      var head := Expanded(s[0], col);
      TabFixKeepsInk(s[1..], NextColumn(s[0], col));
      InkAppend(head, ExpandTabs(s[1..], NextColumn(s[0], col)));
      if s[0] == '\t' {
        NoInk(|head|);
        assert head == seq(|head|, _ => ' ');
      }
    }
  }

  /** Each tab becomes one to four spaces, up to the next column that is a
      multiple of four. */
  lemma TabStop(a: string, b: string) returns (w: nat)
    ensures 1 <= w <= 4 && (ColumnAfter(a, 0) + w) % 4 == 0
    ensures ExpandTabs(a + "\t" + b, 0)
      == ExpandTabs(a, 0) + seq(w, _ => ' ') + ExpandTabs(b, ColumnAfter(a, 0) + w)
  {
    var col := ColumnAfter(a, 0);
    w := TabWidth(col);
    assert a + "\t" + b == a + ("\t" + b);
    ExpandAppend(a, "\t" + b, 0);
    assert ("\t" + b)[1..] == b;
    assert ExpandTabs("\t" + b, col) == seq(w, _ => ' ') + ExpandTabs(b, col + w);
  }

  /** The column is the length of what has been written of the line. */
  lemma {:induction false} ColumnIsLength(a: string, col: nat)
    requires '\n' !in a && '\r' !in a
    ensures ColumnAfter(a, col) == col + |ExpandTabs(a, col)|
  {
    if a == [] {
    } else {
      assert a[0] in a;
      assert forall c :: c in a[1..] ==> c in a;
      ColumnIsLength(a[1..], NextColumn(a[0], col));
    }
  }

  // ---------------------------------------------------------------------
  // Lines of a file
  // ---------------------------------------------------------------------

  lemma {:induction false} NormalizedAppend(a: string, b: string)
    requires '\r' !in a
    ensures Normalized(a + b) == a + Normalized(b)
  {
    if a == [] {
      assert a + b == b;
    } else {
      assert a[0] in a && forall c :: c in a[1..] ==> c in a;
      assert (a + b)[1..] == a[1..] + b;
      NormalizedAppend(a[1..], b);
    }
  }

  /** A carriage return, with the newline after it if there is one, is read as one
      newline. */
  lemma ReturnsNormalized(a: string, b: string)
    requires '\r' !in a
    ensures Normalized(a) == a
    ensures Normalized(a + ("\r\n" + b)) == a + ("\n" + Normalized(b))
    ensures (b == [] || b[0] != '\n') ==> Normalized(a + ("\r" + b)) == a + ("\n" + Normalized(b))
  {
    NormalizedUnchanged(a);
    NormalizedAppend(a, "\r\n" + b);
    assert ("\r\n" + b)[2..] == b;
    NormalizedAppend(a, "\r" + b);
    assert ("\r" + b)[1..] == b;
  }

  /** The lines read are the text of the file, cut after every newline. */
  lemma {:induction false} NothingLost(s: string)
    ensures WriteLines(SplitLines(s)) == s
  {
    if s == [] {
    } else {
      var n := FirstNewline(s);
      if n == |s| {
        assert SplitLines(s)[1..] == [];
        assert s + [] == s;
      } else {
        NothingLost(s[n + 1..]);
        assert SplitLines(s)[1..] == SplitLines(s[n + 1..]);
        assert s == s[..n + 1] + s[n + 1..];
      }
    }
  }

  lemma LinesByText(disk: string)
    ensures WriteLines(ReadLines(disk)) == Normalized(disk)
    ensures FileShape(ReadLines(disk))
  {
    NothingLost(Normalized(disk));
    ReadShape(disk);
  }

  // ---------------------------------------------------------------------
  // Reported lines
  // ---------------------------------------------------------------------

  lemma {:induction false} NumbersAscend(flags: seq<bool>, n: nat)
    requires n <= |flags|
    ensures forall a :: 0 <= a < |Numbers(flags, n)| ==> Numbers(flags, n)[a] < n
    ensures forall a, b :: 0 <= a < b < |Numbers(flags, n)| ==> Numbers(flags, n)[a] < Numbers(flags, n)[b]
  {
    if n == 0 {
    } else {
      NumbersAscend(flags, n - 1);
    }
  }

  /** What is listed of flagged numbers: in ascending order, all or the first. */
  lemma ListedByFlags(flags: seq<bool>, all: bool)
    ensures var infos := Listed(flags, all);
      && (forall a, b :: 0 <= a < b < |infos| ==> infos[a] < infos[b])
      && (forall i :: i in infos ==> i < |flags| && flags[i])
      && (forall i: nat :: i < |flags| && flags[i] ==> infos != [] && infos[0] <= i && (all ==> i in infos))
      && (!all ==> |infos| <= 1)
  {
    var numbers := Numbers(flags, |flags|);
    NumbersMembers(flags, |flags|);
    NumbersAscend(flags, |flags|);
    if numbers != [] {
      assert numbers[0] in numbers;
    }
    forall i: nat | i < |flags| && flags[i] ensures numbers != [] && numbers[0] <= i {
      assert i in numbers;
    }
  }

  /** The lines reported are the bad ones outside guards, in ascending order: all of
      them, or the first. */
  lemma ReportedByText(rule: Rule, respectGuards: bool, lines: seq<string>, all: bool)
    ensures var infos := Listed(OffendingFlags(rule, respectGuards, lines), all);
      && (forall a, b :: 0 <= a < b < |infos| ==> infos[a] < infos[b])
      && (forall i :: i in infos ==> i < |lines|)
      && (forall i: nat :: i < |lines| ==>
            if !(respectGuards && Guarded(lines, i)) && BadText(rule, lines[i])
            then infos != [] && infos[0] <= i && (all ==> i in infos)
            else i !in infos)
      && (!all ==> |infos| <= 1)
  {
    var flags := OffendingFlags(rule, respectGuards, lines);
    ListedByFlags(flags, all);
    forall i: nat | i < |lines|
      ensures flags[i] <==> !(respectGuards && Guarded(lines, i)) && BadText(rule, lines[i])
    {
      OffendsByText(rule, respectGuards, lines, i);
    }
  }
}
