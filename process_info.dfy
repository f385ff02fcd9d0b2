/**
 * Turning one line of `ps axo ppid,pid,comm` output into a record: the
 * generator's rstrip().split(None, 2), the three-way unpacking of the
 * builder loop and the two int() conversions after it.
 */
module ProcessInfo {
  import opened Wrappers
  import opened PyText
  import opened ProcessRegistry

  /** line.rstrip().split(None, 2): at most three fields. */
  function Fields(line: string): (fields: seq<string>)
    ensures |fields| <= 3
    ensures forall i :: 0 <= i < |fields| ==> fields[i] != [] && !IsSpace(fields[i][0])
    ensures forall i :: 0 <= i < |fields| ==> !IsSpace(fields[i][|fields[i]| - 1])
  {
    var t := RStrip(line);
    SplitWhitespace(t, 2)
  }

  /**
   * The record one line yields, or None where the script raises ValueError:
   * fewer than three fields to unpack, or a pid field int() rejects.
   */
  function ParseRecord(line: string): (r: Option<Record>)
    ensures r.Some? ==> |Fields(line)| == 3 && r.value.command == Fields(line)[2]
    ensures r.Some? ==> ParseInt(Fields(line)[0]) == Some(r.value.ppid)
    ensures r.Some? ==> ParseInt(Fields(line)[1]) == Some(r.value.pid)
    ensures r.None? <==> |Fields(line)| < 3 || ParseInt(Fields(line)[0]).None? || ParseInt(Fields(line)[1]).None?
  {
    var fields := Fields(line);
    if |fields| < 3 then None
    else
      match ParseInt(fields[0])
      case None => None
      case Some(ppid) =>
        match ParseInt(fields[1])
        case None => None
        case Some(pid) => Some(Record(ppid, pid, fields[2]))
  }

  /**
   * A column-aligned ps line: leading blanks, the two numbers, the command
   * (which may hold inner blanks), trailing blanks and the newline.
   */
  function FormatLine(w0: string, r: Record, w1: string, w2: string, tail: string): string {
    w0 + IntToString(r.ppid) + w1 + IntToString(r.pid) + w2 + r.command + tail
  }

  /** Parsing undoes formatting, whatever the column padding. */
  lemma ParseFormatLine(w0: string, r: Record, w1: string, w2: string, tail: string)
    requires AllSpace(w0) && AllSpace(tail)
    requires w1 != [] && AllSpace(w1) && w2 != [] && AllSpace(w2)
    requires r.command != [] && !IsSpace(r.command[0]) && !IsSpace(r.command[|r.command| - 1])
    ensures ParseRecord(FormatLine(w0, r, w1, w2, tail)) == Some(r)
  {
    var a := IntToString(r.ppid);
    var b := IntToString(r.pid);
    IntToStringIsWord(r.ppid);
    IntToStringIsWord(r.pid);
    FieldsOfColumns(w0, a, w1, b, w2, r.command, tail);
    assert FormatLine(w0, r, w1, w2, tail) == w0 + a + w1 + b + w2 + r.command + tail;
    ParseIntOfIntToString(r.ppid);
    ParseIntOfIntToString(r.pid);
  }

  lemma FieldsOfColumns(w0: string, a: string, w1: string, b: string, w2: string, c: string, tail: string)
    requires AllSpace(w0) && AllSpace(tail)
    requires w1 != [] && AllSpace(w1) && w2 != [] && AllSpace(w2)
    requires a != [] && NoSpace(a) && b != [] && NoSpace(b)
    requires c != [] && !IsSpace(c[0]) && !IsSpace(c[|c| - 1])
    ensures Fields(w0 + a + w1 + b + w2 + c + tail) == [a, b, c]
  {
    var body := w0 + a + w1 + b + w2 + c;
    assert body[|body| - 1] == c[|c| - 1];
    RStripOf(body, tail);
    SplitColumns(w0, a, w1, b, w2, c);
  }

  lemma SplitColumns(w0: string, a: string, w1: string, b: string, w2: string, c: string)
    requires AllSpace(w0) && w1 != [] && AllSpace(w1) && w2 != [] && AllSpace(w2)
    requires a != [] && NoSpace(a) && b != [] && NoSpace(b)
    requires c != [] && !IsSpace(c[0])
    ensures SplitWhitespace(w0 + a + w1 + b + w2 + c, 2) == [a, b, c]
  {
    var rest := b + w2 + c;
    Regroup(w0 + a + w1, b, w2, c);
    SplitTail(b, w2, c);
    ConsOf(a, SplitWhitespace(rest, 1), [b, c]);
    SplitWhitespaceOfWords(w0, a, w1, rest, 1);
  }

  lemma Regroup(x: string, b: string, w: string, c: string)
    ensures x + b + w + c == x + (b + w + c)
  {
  }

  lemma SplitTail(b: string, w2: string, c: string)
    requires w2 != [] && AllSpace(w2) && b != [] && NoSpace(b)
    requires c != [] && !IsSpace(c[0])
    ensures SplitWhitespace(b + w2 + c, 1) == [b, c]
  {
    assert b + w2 + c == [] + b + w2 + c;
    assert [] + c == c;
    SplitWhitespaceRemainder([], c);
    ConsOf(b, SplitWhitespace(c, 0), [c]);
    SplitWhitespaceOfWords([], b, w2, c, 0);
  }

  lemma ConsOf<T>(x: T, s: seq<T>, t: seq<T>)
    requires s == t
    ensures [x] + s == [x] + t
  {
  }

  /** A blank line (or an empty one) has no fields to unpack. */
  lemma BlankLineRejected(line: string)
    requires AllSpace(line)
    ensures ParseRecord(line) == None
  {
    RStripOfBlank(line);
    assert RStrip(line) == [];
  }
}
