/**
 * The four-process example: init(1) with children bash(2) and sshd(3), and
 * zsh(4) under sshd, every command a path that exists.
 */
module ProcessExample {
  import opened Wrappers
  import opened PyText
  import opened ProcessRegistry
  import opened ProcessPrefix
  import opened ProcessRender
  import opened ProcessInfo
  import opened ProcessTree
  import opened ProcessShape

  const Records: seq<Record> := [
    Record(0, 1, "/sbin/init"), Record(1, 2, "/usr/bin/bash"),
    Record(1, 3, "/usr/bin/sshd"), Record(3, 4, "/usr/bin/zsh")]

  const Processes: Registry := map[
    0 := Node("", [1], None),
    1 := Node("/sbin/init", [2, 3], Some(0)),
    2 := Node("/usr/bin/bash", [], Some(1)),
    3 := Node("/usr/bin/sshd", [4], Some(1)),
    4 := Node("/usr/bin/zsh", [], Some(3))]

  /** The builder loop turns the four records into the example dictionary. */
  lemma ExampleBuilt()
    ensures Built(Records) == Processes
  {
    BuiltOfFour(Records[0], Records[1], Records[2], Records[3]);
    assert Records == [Records[0], Records[1], Records[2], Records[3]];
    InsertInit();
    InsertBash();
    InsertSshd();
    InsertZsh();
  }

  /** Four records give the dictionary of four loop iterations. */
  lemma BuiltOfFour(a: Record, b: Record, c: Record, d: Record)
    ensures Built([a, b, c, d]) == Insert(Insert(Insert(Insert(map[], a), b), c), d)
  {
    SnocLiterals(a, b, c, d);
    assert Mentioned([]) == {};
    assert Built([]) == map[];
    BuiltSnoc([], a);
    BuiltSnoc([a], b);
    BuiltSnoc([a, b], c);
    BuiltSnoc([a, b, c], d);
  }

  lemma SnocLiterals<T>(a: T, b: T, c: T, d: T)
    ensures [] + [a] == [a] && [a] + [b] == [a, b]
    ensures [a, b] + [c] == [a, b, c] && [a, b, c] + [d] == [a, b, c, d]
  {
  }

  const AfterInit: Registry := map[0 := Node("", [1], None), 1 := Node("/sbin/init", [], Some(0))]

  const AfterBash: Registry := map[
    0 := Node("", [1], None), 1 := Node("/sbin/init", [2], Some(0)), 2 := Node("/usr/bin/bash", [], Some(1))]

  const AfterSshd: Registry := map[
    0 := Node("", [1], None), 1 := Node("/sbin/init", [2, 3], Some(0)), 2 := Node("/usr/bin/bash", [], Some(1)),
    3 := Node("/usr/bin/sshd", [], Some(1))]

  lemma InsertInit()
    ensures Insert(map[], Records[0]) == AfterInit
  {
    InsertStep(map[], Records[0], AfterInit);
  }

  lemma InsertBash()
    ensures Insert(AfterInit, Records[1]) == AfterBash
  {
    InsertStep(AfterInit, Records[1], AfterBash);
  }

  lemma InsertSshd()
    ensures Insert(AfterBash, Records[2]) == AfterSshd
  {
    InsertStep(AfterBash, Records[2], AfterSshd);
  }

  lemma InsertZsh()
    ensures Insert(AfterSshd, Records[3]) == Processes
  {
    InsertStep(AfterSshd, Records[3], Processes);
  }

  /** An expected dictionary after one insertion, checked entry by entry. */
  lemma InsertStep(reg: Registry, r: Record, want: Registry)
    requires r.pid != r.ppid
    requires want.Keys == reg.Keys + {r.pid, r.ppid}
    requires want[r.pid] == Entry(reg, Some(r.pid)).(command := r.command, parent := Some(r.ppid))
    requires var up := Entry(reg, Some(r.ppid)); want[r.ppid] == up.(children := up.children + [r.pid])
    requires forall k :: k in reg && k != r.pid && k != r.ppid ==> want[k] == reg[k]
    ensures Insert(reg, r) == want
  {
  }

  /** os.path.exists for the example: every command path exists. */
  const AllExist: string -> bool := p => true

  lemma ExampleFinite()
    ensures Finite(Processes, 1, 3)
  {
    ExampleEntries();
    assert Finite(Processes, 4, 1);
    assert Finite(Processes, 2, 2);
    assert Finite(Processes, 3, 2);
  }

  lemma ExampleLabels()
    ensures Label(Processes, AllExist, 1) == "init(1)"
    ensures Label(Processes, AllExist, 2) == "bash(2)"
    ensures Label(Processes, AllExist, 3) == "sshd(3)"
    ensures Label(Processes, AllExist, 4) == "zsh(4)"
  {
    LabelInit();
    LabelBash();
    LabelSshd();
    LabelZsh();
  }

  lemma LabelInit()
    ensures Label(Processes, AllExist, 1) == "init(1)"
  {
    assert Processes[1].command == "/sbin/init";
    ExampleSpelling();
    ExampleLabel(1, "/sbin", "init");
  }

  lemma LabelBash()
    ensures Label(Processes, AllExist, 2) == "bash(2)"
  {
    assert Processes[2].command == "/usr/bin/bash";
    ExampleSpelling();
    ExampleLabel(2, "/usr/bin", "bash");
  }

  lemma LabelSshd()
    ensures Label(Processes, AllExist, 3) == "sshd(3)"
  {
    assert Processes[3].command == "/usr/bin/sshd";
    ExampleSpelling();
    ExampleLabel(3, "/usr/bin", "sshd");
  }

  lemma LabelZsh()
    ensures Label(Processes, AllExist, 4) == "zsh(4)"
  {
    assert Processes[4].command == "/usr/bin/zsh";
    ExampleSpelling();
    ExampleLabel(4, "/usr/bin", "zsh");
  }

  /** The commands split at their last '/', and the labels spelled out. */
  lemma ExampleSpelling()
    ensures "/sbin/init" == "/sbin" + "/" + "init" && "init" + "(" + [DigitChar(1)] + ")" == "init(1)"
    ensures "/usr/bin/bash" == "/usr/bin" + "/" + "bash" && "bash" + "(" + [DigitChar(2)] + ")" == "bash(2)"
    ensures "/usr/bin/sshd" == "/usr/bin" + "/" + "sshd" && "sshd" + "(" + [DigitChar(3)] + ")" == "sshd(3)"
    ensures "/usr/bin/zsh" == "/usr/bin" + "/" + "zsh" && "zsh" + "(" + [DigitChar(4)] + ")" == "zsh(4)"
  {
  }

  /** Each command of the example is shown by the name after its last '/'. */
  lemma ExampleLabel(pid: nat, dir: string, name: string)
    requires 1 <= pid <= 4 && '/' !in name && Processes[pid].command == dir + "/" + name
    ensures Label(Processes, AllExist, pid) == name + "(" + [DigitChar(pid)] + ")"
  {
    LabelOfPath(Processes, pid, dir, name);
  }

  lemma LabelOfPath(reg: Registry, pid: nat, dir: string, name: string)
    requires pid < 10 && '/' !in name
    requires Entry(reg, Some(pid)).command == dir + "/" + name
    ensures Label(reg, AllExist, pid) == name + "(" + [DigitChar(pid)] + ")"
  {
    BasenameOf(dir, name);
  }

  /** Every children list of the example names its parent back, once. */
  lemma ExampleConsistent()
    ensures Consistent(Processes)
  {
    assert Processes.Keys == {0, 1, 2, 3, 4};
    forall p, c | p in Processes && c in Processes[p].children
      ensures Entry(Processes, Some(c)).parent == Some(p)
    {
      if p == 0 {
        assert c == 1;
      } else if p == 1 {
        assert c == 2 || c == 3;
      } else if p == 3 {
        assert c == 4;
      } else {
        assert false;
      }
    }
    forall p | p in Processes
      ensures Distinct(Processes[p].children)
    {
      assert |Processes[p].children| <= 1 || Processes[p].children == [2, 3];
    }
  }

  lemma ExampleEntries()
    ensures Entry(Processes, Some(1)).children == [2, 3]
    ensures Entry(Processes, Some(2)).children == []
    ensures Entry(Processes, Some(3)).children == [4]
    ensures Entry(Processes, Some(4)).children == []
  {
  }

  /** The pre-order walk from init(1): bash, then sshd (the last child), then zsh. */
  const Walked: seq<Visit> := [Visit(1, []), Visit(2, [false]), Visit(3, [true]), Visit(4, [true, true])]

  lemma ExampleWalk()
    ensures Finite(Processes, 1, 3)
    ensures Walk(Processes, 1, [], 3) == Walked
  {
    ExampleFinite();
    ExampleEntries();
    var zsh := Walk(Processes, 4, [true, true], 1);
    assert zsh == [Visit(4, [true, true])] by {
      assert WalkKids(Processes, [], 0, [true, true], 0) == [];
    }
    var sshd := Walk(Processes, 3, [true], 2);
    assert sshd == [Visit(3, [true])] + zsh by {
      assert WalkKids(Processes, [4], 1, [true], 1) == [];
      assert [true] + [0 == |[4]| - 1] == [true, true];
      assert WalkKids(Processes, [4], 0, [true], 1) == zsh;
    }
    var bash := Walk(Processes, 2, [false], 2);
    assert bash == [Visit(2, [false])] by {
      assert WalkKids(Processes, [], 0, [false], 1) == [];
    }
    var kids := [2, 3];
    assert WalkKids(Processes, kids, 2, [], 2) == [];
    assert WalkKids(Processes, kids, 1, [], 2) == sshd by {
      assert [] + [1 == |kids| - 1] == [true];
    }
    assert WalkKids(Processes, kids, 0, [], 2) == bash + sshd by {
      assert [] + [0 == |kids| - 1] == [false];
    }
    assert Walked == [Visit(1, [])] + bash + sshd;
  }

  /** The four prefixes of the example, in both readings of line 56. */
  lemma ExampleLayouts()
    ensures Layout(AsWritten, []) == "" && Layout(Intended, []) == ""
    ensures Layout(AsWritten, [false]) == " |- " && Layout(Intended, [false]) == " |- "
    ensures Layout(AsWritten, [true]) == " `- " && Layout(Intended, [true]) == " `- "
    ensures Layout(AsWritten, [true, true]) == " `   `- "
    ensures Layout(Intended, [true, true]) == "     `- "
  {
    assert Columns(AsWritten, [true, true], 1) == " `  ";
    assert Columns(Intended, [true, true], 1) == "    ";
  }

  /** The lines printed for the example, given how line 56 reads. */
  lemma ExamplePrintout(fix: Fixup)
    ensures Finite(Processes, 1, 3)
    ensures Render(fix, Processes, AllExist, 1, "", 3) ==
      ["init(1)", " |- bash(2)", " `- sshd(3)", Layout(fix, [true, true]) + "zsh(4)"]
  {
    ExampleConsistent();
    ExampleWalk();
    PrintoutIsLayout(fix, Processes, AllExist, 1, 3);
    ExampleLines(fix);
  }

  lemma ExampleLines(fix: Fixup)
    ensures Lines(fix, Processes, AllExist, Walked) ==
      ["init(1)", " |- bash(2)", " `- sshd(3)", Layout(fix, [true, true]) + "zsh(4)"]
  {
    var lines := Lines(fix, Processes, AllExist, Walked);
    assert |lines| == 4;
    LineInit(fix);
    LineBash(fix);
    LineSshd(fix);
    LineZsh(fix);
    FourOf(lines);
  }

  lemma FourOf<T>(s: seq<T>)
    requires |s| == 4
    ensures s == [s[0], s[1], s[2], s[3]]
  {
  }

  lemma LineInit(fix: Fixup)
    ensures |Lines(fix, Processes, AllExist, Walked)| == 4
    ensures Lines(fix, Processes, AllExist, Walked)[0] == "init(1)"
  {
    assert Walked[0] == Visit(1, []);
    LabelInit();
    ExampleStrings();
  }

  lemma LineBash(fix: Fixup)
    ensures |Lines(fix, Processes, AllExist, Walked)| == 4
    ensures Lines(fix, Processes, AllExist, Walked)[1] == " |- bash(2)"
  {
    assert Walked[1] == Visit(2, [false]);
    assert Layout(fix, [false]) == " |- ";
    LabelBash();
    ExampleStrings();
  }

  lemma LineSshd(fix: Fixup)
    ensures |Lines(fix, Processes, AllExist, Walked)| == 4
    ensures Lines(fix, Processes, AllExist, Walked)[2] == " `- sshd(3)"
  {
    assert Walked[2] == Visit(3, [true]);
    assert Layout(fix, [true]) == " `- ";
    LabelSshd();
    ExampleStrings();
  }

  lemma LineZsh(fix: Fixup)
    ensures |Lines(fix, Processes, AllExist, Walked)| == 4
    ensures Lines(fix, Processes, AllExist, Walked)[3] == Layout(fix, [true, true]) + "zsh(4)"
  {
    assert Walked[3] == Visit(4, [true, true]);
    LabelZsh();
  }

  lemma ExampleStrings()
    ensures "" + "init(1)" == "init(1)"
    ensures " |- " + "bash(2)" == " |- bash(2)"
    ensures " `- " + "sshd(3)" == " `- sshd(3)"
    ensures " `   `- " + "zsh(4)" == " `   `- zsh(4)"
    ensures "     `- " + "zsh(4)" == "     `- zsh(4)"
  {
  }

  /**
   * As written, the grandchild under the root's last child keeps the
   * back-quote of its ancestor's column.
   */
  lemma ExampleAsWritten()
    ensures Finite(Processes, 1, 3) && Render(AsWritten, Processes, AllExist, 1, "", 3) ==
      ["init(1)", " |- bash(2)", " `- sshd(3)", " `   `- zsh(4)"]
  {
    ExamplePrintout(AsWritten);
    assert Layout(AsWritten, [true, true]) + "zsh(4)" == " `   `- " + "zsh(4)" by { ExampleLayouts(); }
    ExampleStrings();
  }

  /** With the column check the regex evidently intends, that column is blank. */
  lemma ExampleIntended()
    ensures Finite(Processes, 1, 3) && Render(Intended, Processes, AllExist, 1, "", 3) ==
      ["init(1)", " |- bash(2)", " `- sshd(3)", "     `- zsh(4)"]
  {
    ExamplePrintout(Intended);
    assert Layout(Intended, [true, true]) + "zsh(4)" == "     `- " + "zsh(4)" by { ExampleLayouts(); }
    ExampleStrings();
  }

  // ----- the whole script on the ps output of the example -----

  /** A line of `ps axo ppid,pid,comm` with fixed padding, column-aligned for single-digit pids. */
  function PsLine(r: Record): string {
    FormatLine("    ", r, "     ", " ", "\n")
  }

  const Output: seq<string> := ["  PPID   PID COMMAND", PsLine(Records[0]), PsLine(Records[1]), PsLine(Records[2]),
                                PsLine(Records[3])]

  lemma PsLineParses(r: Record)
    requires Trimmed(r.command)
    ensures ParseRecord(PsLine(r)) == Some(r)
  {
    assert IsSpace(' ') && IsSpace('\n');
    assert AllSpace("    ") && AllSpace("     ") && AllSpace(" ") && AllSpace("\n");
    ParseFormatLine("    ", r, "     ", " ", "\n");
  }

  predicate Trimmed(command: string) {
    command != [] && !IsSpace(command[0]) && !IsSpace(command[|command| - 1])
  }

  lemma ExampleTrimmed(i: nat)
    requires i < |Records|
    ensures Trimmed(Records[i].command)
  {
    var c := Records[i].command;
    assert c[0] == '/';
    assert c[|c| - 1] in "tnhd";
  }

  /** Four lines that each parse give their four records. */
  lemma ParseEachOfFour<T>(parse: string -> Option<T>, l0: string, l1: string, l2: string, l3: string,
                           r0: T, r1: T, r2: T, r3: T)
    requires parse(l0) == Some(r0) && parse(l1) == Some(r1) && parse(l2) == Some(r2) && parse(l3) == Some(r3)
    ensures ParseEach(parse, [l0, l1, l2, l3]) == Some([r0, r1, r2, r3])
  {
    SnocLiterals(l0, l1, l2, l3);
    SnocLiterals(r0, r1, r2, r3);
    ParseEachSnoc(parse, [], l0);
    ParseEachSnoc(parse, [l0], l1);
    ParseEachSnoc(parse, [l0, l1], l2);
    ParseEachSnoc(parse, [l0, l1, l2], l3);
  }

  /** A header and four ps lines give the dictionary of their four records. */
  lemma ParsedOfFour(header: string, r0: Record, r1: Record, r2: Record, r3: Record)
    requires Trimmed(r0.command) && Trimmed(r1.command) && Trimmed(r2.command) && Trimmed(r3.command)
    ensures Parsed([header, PsLine(r0), PsLine(r1), PsLine(r2), PsLine(r3)]) == Some(Built([r0, r1, r2, r3]))
  {
    var output := [header, PsLine(r0), PsLine(r1), PsLine(r2), PsLine(r3)];
    assert output[1..] == [PsLine(r0), PsLine(r1), PsLine(r2), PsLine(r3)];
    PsLineParses(r0);
    PsLineParses(r1);
    PsLineParses(r2);
    PsLineParses(r3);
    ParseEachOfFour(ParseRecord, PsLine(r0), PsLine(r1), PsLine(r2), PsLine(r3), r0, r1, r2, r3);
  }

  /** The main block reads the example dictionary off the ps output. */
  lemma ExampleParsed()
    ensures Parsed(Output) == Some(Processes)
  {
    ExampleTrimmed(0);
    ExampleTrimmed(1);
    ExampleTrimmed(2);
    ExampleTrimmed(3);
    ParsedOfFour("  PPID   PID COMMAND", Records[0], Records[1], Records[2], Records[3]);
    assert Records == [Records[0], Records[1], Records[2], Records[3]];
    ExampleBuilt();
  }

  /** The script run on the example's ps output prints the four lines of the as-written layout. */
  method ExampleRun() returns (printed: Option<seq<string>>)
    ensures printed == Some(["init(1)", " |- bash(2)", " `- sshd(3)", " `   `- zsh(4)"])
  {
    ExampleParsed();
    ExampleAsWritten();
    printed := PrintTree(Output, AllExist, 3);
  }

  // ----- a record given twice -----

  /** A snapshot in which the record of b(2) under a(1) appears twice. */
  const Repeated: seq<Record> := [Record(0, 1, "a"), Record(1, 2, "b"), Record(1, 2, "b")]

  const RepeatedProcesses: Registry := map[
    0 := Node("", [1], None), 1 := Node("a", [2, 2], Some(0)), 2 := Node("b", [], Some(1))]

  const AfterA: Registry := map[0 := Node("", [1], None), 1 := Node("a", [], Some(0))]

  const AfterB: Registry := map[
    0 := Node("", [1], None), 1 := Node("a", [2], Some(0)), 2 := Node("b", [], Some(1))]

  /** The builder loop lists pid 2 twice under pid 1. */
  lemma RepeatedBuilt()
    ensures Built(Repeated) == RepeatedProcesses
  {
    BuiltOfThree(Repeated[0], Repeated[1], Repeated[2]);
    assert Repeated == [Repeated[0], Repeated[1], Repeated[2]];
    InsertA();
    InsertB();
    InsertBAgain();
  }

  lemma BuiltOfThree(a: Record, b: Record, c: Record)
    ensures Built([a, b, c]) == Insert(Insert(Insert(map[], a), b), c)
  {
    SnocLiterals(a, b, c, c);
    assert Mentioned([]) == {};
    assert Built([]) == map[];
    BuiltSnoc([], a);
    BuiltSnoc([a], b);
    BuiltSnoc([a, b], c);
  }

  lemma InsertA()
    ensures Insert(map[], Repeated[0]) == AfterA
  {
    InsertStep(map[], Repeated[0], AfterA);
  }

  lemma InsertB()
    ensures Insert(AfterA, Repeated[1]) == AfterB
  {
    InsertStep(AfterA, Repeated[1], AfterB);
  }

  lemma InsertBAgain()
    ensures Insert(AfterB, Repeated[2]) == RepeatedProcesses
  {
    InsertStep(AfterB, Repeated[2], RepeatedProcesses);
  }

  /** The children list of pid 1 repeats pid 2, so the dictionary is not consistent. */
  lemma RepeatedInconsistent()
    ensures !Consistent(RepeatedProcesses)
  {
    var kids := RepeatedProcesses[1].children;
    assert kids[0] == kids[1];
  }

  /** os.path.exists for this snapshot: no command is a path. */
  const NoneExist: string -> bool := p => false

  const RepeatedWalked: seq<Visit> := [Visit(1, []), Visit(2, [false]), Visit(2, [true])]

  /** The walk from pid 1 visits pid 2 twice, the second time flagged as the last child. */
  lemma RepeatedWalk()
    ensures Finite(RepeatedProcesses, 1, 3)
    ensures Walk(RepeatedProcesses, 1, [], 3) == RepeatedWalked
    ensures !DistinctPids(Walk(RepeatedProcesses, 1, [], 3))
  {
    var reg := RepeatedProcesses;
    assert Entry(reg, Some(1)).children == [2, 2] && Entry(reg, Some(2)).children == [];
    assert Finite(reg, 2, 2);
    var first := Walk(reg, 2, [false], 2);
    assert first == [Visit(2, [false])] by {
      assert WalkKids(reg, [], 0, [false], 1) == [];
    }
    var second := Walk(reg, 2, [true], 2);
    assert second == [Visit(2, [true])] by {
      assert WalkKids(reg, [], 0, [true], 1) == [];
    }
    var kids := [2, 2];
    assert WalkKids(reg, kids, 2, [], 2) == [];
    assert WalkKids(reg, kids, 1, [], 2) == second by {
      assert [] + [1 == |kids| - 1] == [true];
    }
    assert WalkKids(reg, kids, 0, [], 2) == first + second by {
      assert [] + [0 == |kids| - 1] == [false];
    }
    assert RepeatedWalked == [Visit(1, [])] + first + second;
    assert RepeatedWalked[1].pid == RepeatedWalked[2].pid;
  }

  /**
   * print_hierarchy compares children[-1] by value, so both copies of b(2)
   * are taken for the last child and drawn with the last-child connector.
   */
  lemma RepeatedPrintout()
    ensures Finite(RepeatedProcesses, 1, 3)
    ensures Render(AsWritten, RepeatedProcesses, NoneExist, 1, "", 3) == ["a(1)", " `- b(2)", " `- b(2)"]
  {
    var reg := RepeatedProcesses;
    RepeatedWalk();
    RepeatedRoot();
    RepeatedKids();
    assert Entry(reg, Some(1)).children == [2, 2];
    assert "" + "a(1)" == "a(1)";
  }

  /** The children loop of a(1) prints b(2) twice, the same way. */
  lemma RepeatedKids()
    ensures Finite(RepeatedProcesses, 2, 2)
    ensures RenderKids(AsWritten, RepeatedProcesses, NoneExist, [2, 2], " |- ", 2) == [" `- b(2)", " `- b(2)"]
  {
    var reg := RepeatedProcesses;
    RepeatedCopy();
    var copy := Render(AsWritten, reg, NoneExist, 2, " |- ", 2);
    assert [2, 2][1..] == [2];
    assert RenderKids(AsWritten, reg, NoneExist, [2], " |- ", 2) == copy;
  }

  /** The root a(1): no prefix, and its children get " |- ". */
  lemma RepeatedRoot()
    ensures ShownPrefix(AsWritten, RepeatedProcesses, 1, "") == ""
    ensures Label(RepeatedProcesses, NoneExist, 1) == "a(1)"
    ensures ChildPrefix("") == " |- "
  {
    var reg := RepeatedProcesses;
    RewriteEmpty(AsWritten, IsLastChild(reg, Entry(reg, Some(1)).parent), IsLastChild(reg, Some(1)));
    assert IntToString(1) == "1";
    assert Dashless("") == "";
  }

  /** Each copy of b(2) is printed as a last child. */
  lemma RepeatedCopy()
    ensures Finite(RepeatedProcesses, 2, 2)
    ensures Render(AsWritten, RepeatedProcesses, NoneExist, 2, " |- ", 2) == [" `- b(2)"]
  {
    var reg := RepeatedProcesses;
    assert Entry(reg, Some(2)).children == [];
    RepeatedCopyShown();
    RepeatedLabel();
    assert " `- " + "b(2)" == " `- b(2)";
  }

  lemma RepeatedCopyShown()
    ensures ShownPrefix(AsWritten, RepeatedProcesses, 2, " |- ") == " `- "
  {
    var reg := RepeatedProcesses;
    assert IsLastChild(reg, Some(2));
    ShownIsLayout(AsWritten, reg, 2, [true]);
    assert Incoming(AsWritten, [true]) == " |- " by {
      assert Layout(AsWritten, []) == "" && Dashless("") == "";
    }
    ExampleLayouts();
  }

  lemma RepeatedLabel()
    ensures Label(RepeatedProcesses, NoneExist, 2) == "b(2)"
  {
    assert Entry(RepeatedProcesses, Some(2)).command == "b";
    assert IntToString(2) == "2";
  }

  /** The walk's layout would draw the first copy with the branch connector. */
  lemma RepeatedLayoutDiffers()
    ensures Finite(RepeatedProcesses, 1, 3)
    ensures Lines(AsWritten, RepeatedProcesses, NoneExist, Walk(RepeatedProcesses, 1, [], 3))[1] == " |- b(2)"
  {
    var reg := RepeatedProcesses;
    RepeatedWalk();
    var w := RepeatedWalked;
    assert w[1] == Visit(2, [false]);
    assert Lines(AsWritten, reg, NoneExist, w)[1] == LineOf(AsWritten, reg, NoneExist)(w[1]);
    ExampleLayouts();
    RepeatedLabel();
    assert " |- " + "b(2)" == " |- b(2)";
  }
}
