/**
 * The script's main block: read the ps output, skip its header, build the
 * processes dictionary line by line and print the hierarchy from pid 1.
 */
module ProcessTree {
  import opened Wrappers
  import opened PyText
  import opened ProcessRegistry
  import opened ProcessInfo
  import opened ProcessPrefix
  import opened ProcessRender

  /**
   * Every line through parse, stopping at the first line it rejects: the
   * builder loop over the lines after the header, whichever line parser.
   */
  function ParseEach<T>(parse: string -> Option<T>, lines: seq<string>): (rs: Option<seq<T>>)
    ensures rs.Some? ==> |rs.value| == |lines|
  {
    if lines == [] then Some([])
    else
      match ParseEach(parse, lines[..|lines| - 1])
      case None => None
      case Some(rs) =>
        match parse(lines[|lines| - 1])
        case None => None
        case Some(r) => Some(rs + [r])
  }

  /** The records of all the lines, or None when one of them makes the loop raise ValueError. */
  function ParseAll(lines: seq<string>): Option<seq<Record>> {
    ParseEach(ParseRecord, lines)
  }

  /** One more line: its record is appended, or the whole parse fails. */
  lemma ParseEachSnoc<T>(parse: string -> Option<T>, lines: seq<string>, line: string)
    ensures ParseEach(parse, lines + [line]) ==
      match ParseEach(parse, lines)
      case None => None
      case Some(rs) =>
        match parse(line)
        case None => None
        case Some(r) => Some(rs + [r])
  {
    assert (lines + [line])[..|lines|] == lines;
  }

  /** A parse that succeeds keeps one record per line, in line order. */
  lemma {:induction false} ParseEachRecords<T>(parse: string -> Option<T>, lines: seq<string>)
    requires ParseEach(parse, lines).Some?
    ensures forall i :: 0 <= i < |lines| ==> parse(lines[i]) == Some(ParseEach(parse, lines).value[i])
  {
    if lines != [] {
      var front := lines[..|lines| - 1];
      ParseEachRecords(parse, front);
      var rs := ParseEach(parse, front).value;
      var r := parse(lines[|lines| - 1]).value;
      assert ParseEach(parse, lines).value == rs + [r];
      forall i | 0 <= i < |lines|
        ensures parse(lines[i]) == Some((rs + [r])[i])
      {
        if i < |front| {
          assert lines[i] == front[i];
        }
      }
    }
  }

  /** The parse fails exactly when some line fails. */
  lemma {:induction false} ParseEachFails<T>(parse: string -> Option<T>, lines: seq<string>)
    ensures ParseEach(parse, lines).None? <==> exists i :: 0 <= i < |lines| && parse(lines[i]).None?
  {
    if lines != [] {
      var front := lines[..|lines| - 1];
      ParseEachFails(parse, front);
      if ParseEach(parse, front).None? {
        var i :| 0 <= i < |front| && parse(front[i]).None?;
        assert lines[i] == front[i];
      } else if parse(lines[|lines| - 1]).Some? {
        forall i | 0 <= i < |lines|
          ensures parse(lines[i]).Some?
        {
          if i < |front| {
            assert lines[i] == front[i];
          }
        }
      }
    }
  }

  /** The records of a successful parse are those of the lines, one by one. */
  lemma ParseAllRecords(lines: seq<string>)
    requires ParseAll(lines).Some?
    ensures |ParseAll(lines).value| == |lines|
    ensures forall i :: 0 <= i < |lines| ==> ParseRecord(lines[i]) == Some(ParseAll(lines).value[i])
  {
    ParseEachRecords(ParseRecord, lines);
  }

  /** The main block raises ValueError exactly when some line after the header is rejected. */
  lemma ParseAllFails(lines: seq<string>)
    ensures ParseAll(lines).None? <==> exists i :: 0 <= i < |lines| && ParseRecord(lines[i]).None?
  {
    ParseEachFails(ParseRecord, lines);
  }

  /**
   * The dictionary the main block builds from the lines ps writes, or None
   * where it stops with an exception: no header line to skip (the
   * generator's next() fails) or a line the loop cannot unpack or convert.
   */
  ghost function Parsed(output: seq<string>): Option<Registry> {
    if output == [] then None
    else
      match ParseAll(output[1..])
      case None => None
      case Some(rs) => Some(Built(rs))
  }

  /** Lines 30-34 and 73-80: skip the header, then parse and insert one line at a time. */
  method LoadProcesses(output: seq<string>) returns (processes: Option<Registry>)
    ensures processes == Parsed(output)
  {
    if output == [] {
      return None;
    }
    var reg: Registry := map[];
    ghost var rs: seq<Record> := [];
    for i := 1 to |output|
      invariant ParseAll(output[1..i]) == Some(rs)
      invariant reg == Built(rs)
    {
      SliceSnoc(output, 1, i);
      ParseEachSnoc(ParseRecord, output[1..i], output[i]);
      match ParseRecord(output[i])
      case None =>
        ParseAllFails(output[1..]);
        assert output[1..][i - 1] == output[i];
        return None;
      case Some(r) =>
        BuiltSnoc(rs, r);
        reg := Insert(reg, r);
        rs := rs + [r];
    }
    assert output[1..|output|] == output[1..];
    return Some(reg);
  }

  lemma SliceSnoc<T>(s: seq<T>, lo: int, hi: int)
    requires 0 <= lo <= hi < |s|
    ensures s[lo..hi + 1] == s[lo..hi] + [s[hi]]
  {
  }

  /**
   * The whole script on the given ps output: the lines it prints, or None
   * when it raises an exception before printing. The ghost bound n stands
   * for the recursion terminating: every children path from pid 1 is shorter.
   */
  method PrintTree(output: seq<string>, pathExists: string -> bool, ghost n: nat) returns (printed: Option<seq<string>>)
    requires Parsed(output).Some? ==> Finite(Parsed(output).value, 1, n)
    ensures printed.None? <==> Parsed(output).None?
    ensures printed.Some? ==> printed.value == Render(AsWritten, Parsed(output).value, pathExists, 1, "", n)
  {
    var processes := LoadProcesses(output);
    match processes
    case None =>
      return None;
    case Some(reg) =>
      return Some(Render(AsWritten, reg, pathExists, 1, "", n));
  }

  /**
   * When the ps snapshot lists each pid once, the script prints the
   * pre-order walk from pid 1, one line per node, drawn with the column
   * layout of its path.
   */
  lemma PrintoutOfSnapshot(output: seq<string>, pathExists: string -> bool, n: nat)
    requires output != [] && ParseAll(output[1..]).Some?
    requires UniquePids(ParseAll(output[1..]).value)
    requires Finite(Parsed(output).value, 1, n)
    ensures Render(AsWritten, Parsed(output).value, pathExists, 1, "", n) ==
      Lines(AsWritten, Parsed(output).value, pathExists, Walk(Parsed(output).value, 1, [], n))
  {
    BuiltConsistent(ParseAll(output[1..]).value);
    PrintoutIsLayout(AsWritten, Parsed(output).value, pathExists, 1, n);
  }

  /** A header line alone gives a dictionary with no entry: pid 1 prints as the default, "(1)". */
  lemma HeaderOnly(header: string, pathExists: string -> bool)
    ensures Parsed([header]) == Some(map[])
    ensures Finite(map[], 1, 1)
    ensures Render(AsWritten, map[], pathExists, 1, "", 1) == [DisplayName("", pathExists) + "(1)"]
  {
    assert [header][1..] == [];
    assert Mentioned([]) == {};
    RootLine(AsWritten, map[], pathExists, 1, 1);
    assert IntToString(1) == "1";
    assert Entry(map[], Some(1)) == Default;
    assert Label(map[], pathExists, 1) == DisplayName("", pathExists) + "(1)";
    assert |Render(AsWritten, map[], pathExists, 1, "", 1)| == 1;
  }

  /**
   * When no line after the header has pid 1, the first printed line is the
   * default entry's: an empty name and "(1)", whatever else was loaded.
   */
  lemma RootAbsent(output: seq<string>, pathExists: string -> bool, n: nat)
    requires output != [] && ParseAll(output[1..]).Some?
    requires forall i :: 0 <= i < |output| - 1 ==> ParseAll(output[1..]).value[i].pid != 1
    requires Finite(Parsed(output).value, 1, n)
    ensures Render(AsWritten, Parsed(output).value, pathExists, 1, "", n)[0] == "(1)"
  {
    var rs := ParseAll(output[1..]).value;
    var reg := Parsed(output).value;
    assert reg == Built(rs);
    RootLine(AsWritten, reg, pathExists, 1, n);
    assert LastWith(rs, 1).None?;
    BuiltEntry(rs, 1);
    assert DisplayName("", pathExists) == "";
    assert IntToString(1) == "1";
  }
}
