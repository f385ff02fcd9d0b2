/**
 * The Python text built-ins the process-tree script and the Pomodoro timer
 * rely on: str.isspace, str.rstrip, str.split(None, maxsplit),
 * int() on a decimal string, str() of an int and the "{:02}" format.
 */
module PyText {
  import opened Wrappers

  /**
   * The characters Python's str.isspace accepts (the set str.split and
   * str.rstrip use): tab to carriage return, the separators U+001C to
   * U+001F, space, U+0085, U+00A0 and the Unicode space separators.
   */
  predicate IsSpace(c: char) {
    || '\t' <= c <= '\r'
    || '\U{1C}' <= c <= ' '
    || c == '\U{85}' || c == '\U{A0}' || c == '\U{1680}'
    || '\U{2000}' <= c <= '\U{200A}'
    || c == '\U{2028}' || c == '\U{2029}' || c == '\U{202F}' || c == '\U{205F}' || c == '\U{3000}'
  }

  predicate NoSpace(s: string) {
    forall i :: 0 <= i < |s| ==> !IsSpace(s[i])
  }

  predicate AllSpace(s: string) {
    forall i :: 0 <= i < |s| ==> IsSpace(s[i])
  }

  predicate IsDigit(c: char) {
    '0' <= c <= '9'
  }

  predicate AllDigits(s: string) {
    forall i :: 0 <= i < |s| ==> IsDigit(s[i])
  }

  // ----- stripping and splitting -----

  /** str.rstrip(): drops the trailing whitespace. */
  function RStrip(s: string): (r: string)
    ensures r <= s
    ensures r == [] || !IsSpace(r[|r| - 1])
  {
    if s != [] && IsSpace(s[|s| - 1]) then RStrip(s[..|s| - 1]) else s
  }

  /** Number of leading whitespace characters. */
  function SpacesAhead(s: string): (k: nat)
    ensures k <= |s|
    ensures k < |s| ==> !IsSpace(s[k])
  {
    if s != [] && IsSpace(s[0]) then 1 + SpacesAhead(s[1..]) else 0
  }

  lemma {:induction false} SpacesAheadAreSpaces(s: string)
    ensures AllSpace(s[..SpacesAhead(s)])
  {
    if s != [] && IsSpace(s[0]) {
      SpacesAheadAreSpaces(s[1..]);
      assert s[..SpacesAhead(s)] == [s[0]] + s[1..][..SpacesAhead(s[1..])];
    }
  }

  /** Length of the leading run of non-whitespace characters. */
  function WordAhead(s: string): (k: nat)
    ensures k <= |s|
    ensures k < |s| ==> IsSpace(s[k])
  {
    if s != [] && !IsSpace(s[0]) then 1 + WordAhead(s[1..]) else 0
  }

  lemma {:induction false} WordAheadIsWord(s: string)
    ensures NoSpace(s[..WordAhead(s)])
  {
    if s != [] && !IsSpace(s[0]) {
      WordAheadIsWord(s[1..]);
      assert s[..WordAhead(s)] == [s[0]] + s[1..][..WordAhead(s[1..])];
    }
  }

  /**
   * The whitespace int() ignores around its argument. CPython first maps
   * every non-ASCII whitespace character to ' ' and then skips only
   * " \t\n\v\f\r", so the ASCII separators U+001C to U+001F, which
   * str.isspace accepts, are not skipped.
   */
  predicate IsIntSpace(c: char) {
    IsSpace(c) && !('\U{1C}' <= c <= '\U{1F}')
  }

  /** The argument of int() with the whitespace it ignores removed from both ends. */
  function IntStrip(s: string): (r: string)
    ensures r == [] || (!IsIntSpace(r[0]) && !IsIntSpace(r[|r| - 1]))
    ensures |r| <= |s|
    decreases |s|
  {
    if s != [] && IsIntSpace(s[0]) then IntStrip(s[1..])
    else if s != [] && IsIntSpace(s[|s| - 1]) then IntStrip(s[..|s| - 1])
    else s
  }

  /** A string with no whitespace at either end is its own strip. */
  lemma StripOfTrimmed(s: string)
    requires s != [] && !IsSpace(s[0]) && !IsSpace(s[|s| - 1])
    ensures IntStrip(s) == s
  {
  }

  /** Whitespace int() ignores, on either side, does not change what it strips to. */
  lemma IntStripOfPadded(w0: string, t: string, w1: string)
    requires forall i :: 0 <= i < |w0| ==> IsIntSpace(w0[i])
    requires forall i :: 0 <= i < |w1| ==> IsIntSpace(w1[i])
    requires t != [] && !IsIntSpace(t[0]) && !IsIntSpace(t[|t| - 1])
    ensures IntStrip(w0 + t + w1) == t
  {
    assert w0 + t + w1 == w0 + (t + w1);
    assert (t + w1)[0] == t[0];
    IntStripLeft(w0, t + w1);
    IntStripRight(t, w1);
  }

  lemma {:induction false} IntStripLeft(w0: string, u: string)
    requires forall i :: 0 <= i < |w0| ==> IsIntSpace(w0[i])
    requires u != [] && !IsIntSpace(u[0])
    ensures IntStrip(w0 + u) == IntStrip(u)
    decreases |w0|
  {
    if w0 != [] {
      var s := w0 + u;
      assert s[0] == w0[0];
      assert s[1..] == w0[1..] + u;
      IntStripLeft(w0[1..], u);
    } else {
      assert w0 + u == u;
    }
  }

  lemma {:induction false} IntStripRight(t: string, w1: string)
    requires forall i :: 0 <= i < |w1| ==> IsIntSpace(w1[i])
    requires t != [] && !IsIntSpace(t[0]) && !IsIntSpace(t[|t| - 1])
    ensures IntStrip(t + w1) == t
    decreases |w1|
  {
    var s := t + w1;
    assert s[0] == t[0];
    if w1 != [] {
      var w := w1[..|w1| - 1];
      assert s[|s| - 1] == w1[|w1| - 1];
      assert IntStrip(s) == IntStrip(s[..|s| - 1]);
      assert s[..|s| - 1] == t + w;
      IntStripRight(t, w);
    } else {
      assert s == t;
    }
  }

  /**
   * str.split(None, maxsplit), as CPython's split_whitespace does it: skip a
   * whitespace run, cut the next word, and once maxsplit words are cut return
   * the rest (leading whitespace skipped, trailing whitespace kept) as one
   * last field.
   */
  function SplitWhitespace(s: string, maxsplit: nat): (fields: seq<string>)
    ensures |fields| <= maxsplit + 1
    ensures SplitShape(fields, maxsplit)
    ensures s == [] || !IsSpace(s[|s| - 1]) ==> EndsShape(fields)
    decreases |s|
  {
    var t := s[SpacesAhead(s)..];
    if t == [] then []
    else if maxsplit == 0 then
      assert t[0] == s[SpacesAhead(s)] && t[|t| - 1] == s[|s| - 1];
      [t]
    else
      var w := WordAhead(t);
      assert w > 0 by {
        assert !IsSpace(t[0]);
      }
      var word := t[..w];
      var tail := t[w..];
      assert |word| == w && word[0] == t[0];
      WordAheadIsWord(t);
      assert tail == [] || tail[|tail| - 1] == s[|s| - 1];
      var rest := SplitWhitespace(tail, maxsplit - 1);
      SplitShapeCons(word, rest, maxsplit);
      if s == [] || !IsSpace(s[|s| - 1]) then
        assert !IsSpace(word[|word| - 1]);
        EndsShapeCons(word, rest);
        [word] + rest
      else
        [word] + rest
  }

  /**
   * No field is empty or starts with whitespace, and every field that is
   * not the remainder is a single word.
   */
  predicate SplitShape(fields: seq<string>, maxsplit: nat) {
    && (forall i :: 0 <= i < |fields| ==> fields[i] != [] && !IsSpace(fields[i][0]))
    && (forall i :: 0 <= i < |fields| && i < maxsplit ==> NoSpace(fields[i]))
  }

  /** No field ends in whitespace. */
  predicate EndsShape(fields: seq<string>) {
    forall i :: 0 <= i < |fields| ==> fields[i] != [] && !IsSpace(fields[i][|fields[i]| - 1])
  }

  lemma SplitShapeCons(word: string, rest: seq<string>, maxsplit: nat)
    requires word != [] && NoSpace(word) && maxsplit > 0
    requires SplitShape(rest, maxsplit - 1)
    ensures SplitShape([word] + rest, maxsplit)
  {
    var fields := [word] + rest;
    forall i | 0 <= i < |fields|
      ensures fields[i] != [] && !IsSpace(fields[i][0])
      ensures i < maxsplit ==> NoSpace(fields[i])
    {
      if i > 0 {
        assert fields[i] == rest[i - 1];
      }
    }
  }

  lemma EndsShapeCons(word: string, rest: seq<string>)
    requires word != [] && !IsSpace(word[|word| - 1]) && EndsShape(rest)
    ensures EndsShape([word] + rest)
  {
    var fields := [word] + rest;
    forall i | 0 <= i < |fields|
      ensures fields[i] != [] && !IsSpace(fields[i][|fields[i]| - 1])
    {
      if i > 0 {
        assert fields[i] == rest[i - 1];
      }
    }
  }

  /** Concrete splitting: whitespace, a word, whitespace, then the rest. */
  lemma SplitWhitespaceOfWords(w0: string, a: string, w1: string, rest: string, m: nat)
    requires AllSpace(w0) && a != [] && NoSpace(a)
    requires w1 != [] && AllSpace(w1)
    ensures SplitWhitespace(w0 + a + w1 + rest, m + 1) == [a] + SplitWhitespace(rest, m)
  {
    var v := a + w1 + rest;
    assert w0 + a + w1 + rest == w0 + v;
    SplitWhitespaceSkips(w0, v, m + 1);
    SplitWhitespaceCutsWord(a, w1, rest, m);
  }

  /** A string that starts with a word and then whitespace gives that word as its first field. */
  lemma SplitWhitespaceCutsWord(a: string, w1: string, rest: string, m: nat)
    requires a != [] && NoSpace(a) && w1 != [] && AllSpace(w1)
    ensures SplitWhitespace(a + w1 + rest, m + 1) == [a] + SplitWhitespace(rest, m)
  {
    var u := w1 + rest;
    assert a + w1 + rest == a + u;
    assert u[0] == w1[0];
    SplitFirstWord(a, u, m);
    SplitWhitespaceSkips(w1, rest, m);
  }

  /** The first field of a word followed by whitespace or nothing. */
  lemma SplitFirstWord(a: string, u: string, m: nat)
    requires a != [] && NoSpace(a) && (u == [] || IsSpace(u[0]))
    ensures SplitWhitespace(a + u, m + 1) == [a] + SplitWhitespace(u, m)
  {
    var t := a + u;
    assert t[0] == a[0];
    WordAheadOf(a, u);
    assert SpacesAhead(t) == 0;
    assert t[0..] == t;
    assert t[..|a|] == a;
    assert t[|a|..] == u;
  }

  lemma SplitWhitespaceSkips(w: string, rest: string, maxsplit: nat)
    requires AllSpace(w)
    ensures SplitWhitespace(w + rest, maxsplit) == SplitWhitespace(rest, maxsplit)
  {
    SpacesAheadOf(w, rest);
    assert (w + rest)[SpacesAhead(w + rest)..] == rest[SpacesAhead(rest)..];
  }

  /** With no splits left, the field is the rest after the leading whitespace. */
  lemma SplitWhitespaceRemainder(w0: string, c: string)
    requires AllSpace(w0) && c != [] && !IsSpace(c[0])
    ensures SplitWhitespace(w0 + c, 0) == [c]
  {
    SpacesAheadOf(w0, c);
    assert (w0 + c)[|w0|..] == c;
  }

  /** rstrip() of an all-whitespace string is empty. */
  lemma {:induction false} RStripOfBlank(s: string)
    requires AllSpace(s)
    ensures RStrip(s) == []
    decreases |s|
  {
    if s != [] {
      RStripOfBlank(s[..|s| - 1]);
    }
  }

  lemma {:induction false} SpacesAheadOf(w: string, rest: string)
    requires AllSpace(w)
    ensures SpacesAhead(w + rest) == |w| + SpacesAhead(rest)
  {
    if w != [] {
      assert (w + rest)[1..] == w[1..] + rest;
      SpacesAheadOf(w[1..], rest);
    } else {
      assert w + rest == rest;
    }
  }

  lemma {:induction false} WordAheadOf(a: string, rest: string)
    requires NoSpace(a) && (rest == [] || IsSpace(rest[0]))
    ensures WordAhead(a + rest) == |a|
  {
    if a != [] {
      assert (a + rest)[1..] == a[1..] + rest;
      WordAheadOf(a[1..], rest);
    } else {
      assert a + rest == rest;
    }
  }

  lemma {:induction false} RStripOf(c: string, w: string)
    requires c != [] && !IsSpace(c[|c| - 1]) && AllSpace(w)
    ensures RStrip(c + w) == c
    decreases |w|
  {
    if w == [] {
      assert c + w == c;
    } else {
      assert (c + w)[..|c + w| - 1] == c + w[..|w| - 1];
      RStripOf(c, w[..|w| - 1]);
    }
  }

  // ----- decimal numerals -----

  function DigitChar(d: nat): (c: char)
    requires d < 10
    ensures IsDigit(c)
  {
    (('0' as int) + d) as char
  }

  function DigitValue(c: char): (d: nat)
    requires IsDigit(c)
    ensures d < 10
  {
    (c as int) - ('0' as int)
  }

  /** str() of a non-negative int: its decimal digits, no leading zero. */
  function NatToString(n: nat): (s: string)
    ensures s != [] && AllDigits(s)
    ensures |s| > 1 ==> s[0] != '0'
    ensures n < 10 <==> |s| == 1
  {
    if n < 10 then [DigitChar(n)] else NatToString(n / 10) + [DigitChar(n % 10)]
  }

  /** str() of an int: a '-' before the digits of a negative number. */
  function IntToString(x: int): (s: string)
    ensures s != [] && !IsSpace(s[0]) && !IsSpace(s[|s| - 1])
    ensures x >= 0 <==> (s[0] != '-')
  {
    if x < 0 then "-" + NatToString(-x) else NatToString(x)
  }

  lemma IntToStringIsWord(x: int)
    ensures NoSpace(IntToString(x))
  {
    var s := IntToString(x);
    forall i | 0 <= i < |s| ensures !IsSpace(s[i]) {
      assert s[i] == '-' || IsDigit(s[i]);
    }
  }

  /** The value of a string of decimal digits. */
  function DigitsValue(s: string): nat
    requires AllDigits(s)
  {
    if s == [] then 0 else DigitsValue(s[..|s| - 1]) * 10 + DigitValue(s[|s| - 1])
  }

  lemma {:induction false} DigitsValueOfNatToString(n: nat)
    ensures DigitsValue(NatToString(n)) == n
  {
    if n >= 10 {
      var s := NatToString(n);
      assert s[..|s| - 1] == NatToString(n / 10);
      DigitsValueOfNatToString(n / 10);
    }
  }

  /**
   * The body int() accepts after its sign: ASCII digits, where single
   * underscores may separate two digits.
   */
  predicate DigitGroups(b: string) {
    && b != []
    && IsDigit(b[0]) && IsDigit(b[|b| - 1])
    && (forall i :: 0 <= i < |b| ==> IsDigit(b[i]) || b[i] == '_')
    && (forall i :: 0 <= i < |b| - 1 ==> b[i] == '_' ==> b[i + 1] != '_')
  }

  function DropUnderscores(b: string): (d: string)
    requires forall i :: 0 <= i < |b| ==> IsDigit(b[i]) || b[i] == '_'
    ensures AllDigits(d)
  {
    if b == [] then []
    else (if b[0] == '_' then [] else [b[0]]) + DropUnderscores(b[1..])
  }

  lemma {:induction false} DropUnderscoresOfDigits(b: string)
    requires AllDigits(b)
    ensures DropUnderscores(b) == b
  {
    if b != [] {
      DropUnderscoresOfDigits(b[1..]);
    }
  }

  /** The value int() gives a sign-less body, or None when it is malformed. */
  function ParseUnsigned(body: string): (r: Option<nat>)
    ensures r.Some? <==> DigitGroups(body)
  {
    if DigitGroups(body) then Some(DigitsValue(DropUnderscores(body))) else None
  }

  /**
   * int(s) for base 10: surrounding whitespace is ignored, then an optional
   * sign, then digit groups; None stands for the ValueError int() raises.
   */
  function ParseInt(s: string): (r: Option<int>)
    ensures r.Some? ==> IntStrip(s) != []
  {
    ParseSigned(IntStrip(s))
  }

  /** int(" 5\n") is 5, but int("\U{1C}5") raises: the separator is not skipped. */
  lemma IntSkipsOnlyItsWhitespace()
    ensures ParseInt(" 5\n") == Some(5)
    ensures ParseInt("\U{1C}5") == None
  {
    IntStripOfPadded(" ", "5", "\n");
    ParseSignedOfNatToString(5);
    assert NatToString(5) == "5";
    var s := "\U{1C}5";
    assert IntStrip(s) == s;
    assert !DigitGroups(s);
  }

  /** int() on an already stripped string: an optional sign, then digit groups. */
  function ParseSigned(t: string): (r: Option<int>)
    ensures r.Some? ==> t != []
  {
    if t != [] && (t[0] == '+' || t[0] == '-') then
      match ParseUnsigned(t[1..])
      case None => None
      case Some(v) => Some(if t[0] == '-' then -(v as int) else v as int)
    else
      match ParseUnsigned(t)
      case None => None
      case Some(v) => Some(v)
  }

  lemma ParseUnsignedOfNatToString(n: nat)
    ensures ParseUnsigned(NatToString(n)) == Some(n)
  {
    var d := NatToString(n);
    DigitsValueOfNatToString(n);
    DropUnderscoresOfDigits(d);
    assert DigitGroups(d);
  }

  /** With nothing to strip, int() reads the sign and the digits directly. */
  lemma ParseIntOfTrimmed(s: string)
    requires s != [] && !IsSpace(s[0]) && !IsSpace(s[|s| - 1])
    ensures ParseInt(s) == ParseSigned(s)
  {
    StripOfTrimmed(s);
  }

  /** int(str(x)) == x. */
  lemma ParseIntOfIntToString(x: int)
    ensures ParseInt(IntToString(x)) == Some(x)
  {
    ParseIntOfTrimmed(IntToString(x));
    if x < 0 {
      ParseSignedOfNegative(-x);
    } else {
      ParseSignedOfNatToString(x);
    }
  }

  lemma ParseSignedOfNegative(n: nat)
    ensures ParseSigned("-" + NatToString(n)) == Some(-(n as int))
  {
    var t := "-" + NatToString(n);
    ParseUnsignedOfNatToString(n);
    assert t[1..] == NatToString(n);
  }

  lemma ParseSignedOfNatToString(n: nat)
    ensures ParseSigned(NatToString(n)) == Some(n as int)
  {
    var d := NatToString(n);
    ParseUnsignedOfNatToString(n);
    assert IsDigit(d[0]);
  }

  /** Python's f"{n:02}" for a non-negative int: zero-padded to two digits. */
  function Pad2(n: nat): (s: string)
    ensures |s| >= 2 && AllDigits(s)
    ensures n < 100 ==> |s| == 2 && DigitsValue(s) == n
  {
    DigitsValueOfNatToString(n);
    var d := NatToString(n);
    if |d| < 2 then
      var s := "0" + d;
      assert s[..1] == "0";
      s
    else d
  }
}
