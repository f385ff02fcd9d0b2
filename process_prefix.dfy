/**
 * The connector prefix of the process-tree printout: the three rewrites
 * print_hierarchy applies to it (the grandparent fix-up substitution, the
 * last-child substitution and the dash removal), and the column layout
 * they add up to.
 *
 * A prefix is drawn in columns of four characters, one per ancestor below
 * the root: " |  " while that ancestor still has siblings to come, blank
 * once it was the last one, and " |- " or " `- " for the node itself.
 */
module ProcessPrefix {
  import opened PyText

  /**
   * Which grandparent fix-up: the pattern of the source, or the one its
   * drawing evidently aims at (see Intended below).
   */
  datatype Fixup = AsWritten | Intended

  // ----- the grandparent fix-up, re.sub(r'^(\s+\|.+)[\|`](\s+\|- )$', r'\1 \2', s) -----

  /** Length of the trailing whitespace run. */
  function TrailingSpaces(s: string): (k: nat)
    ensures k <= |s|
    ensures k < |s| ==> !IsSpace(s[|s| - 1 - k])
  {
    if s != [] && IsSpace(s[|s| - 1]) then 1 + TrailingSpaces(s[..|s| - 1]) else 0
  }

  lemma {:induction false} TrailingSpacesAreSpaces(s: string)
    ensures AllSpace(s[|s| - TrailingSpaces(s)..])
  {
    if s != [] && IsSpace(s[|s| - 1]) {
      var t := s[..|s| - 1];
      TrailingSpacesAreSpaces(t);
      assert s[|s| - TrailingSpaces(s)..] == t[|t| - TrailingSpaces(t)..] + [s[|s| - 1]];
    }
  }

  /** A non-space character followed only by whitespace ends the trailing run. */
  lemma {:induction false} TrailingSpacesOf(s: string, pos: int)
    requires 0 <= pos < |s| && !IsSpace(s[pos]) && AllSpace(s[pos + 1..])
    ensures TrailingSpaces(s) == |s| - 1 - pos
    decreases |s|
  {
    if pos < |s| - 1 {
      assert IsSpace(s[|s| - 1]) by {
        assert s[pos + 1..][|s| - 1 - (pos + 1)] == s[|s| - 1];
      }
      var t := s[..|s| - 1];
      assert t[pos + 1..] == s[pos + 1..][..|s| - 1 - (pos + 1)];
      TrailingSpacesOf(t, pos);
    }
  }

  /** The prefix ends in the branch connector "|- ". */
  predicate EndsWithBranch(s: string) {
    |s| >= 3 && s[|s| - 3..] == "|- "
  }

  /**
   * Group 1 of the pattern, checked the way the regex engine finds it: the
   * leading whitespace run (\s+ cannot give back, since '|' is no
   * whitespace), a '|', and at least one more character. The intended
   * reading drops the '|': any prefix that starts with whitespace.
   */
  predicate GroupOne(fix: Fixup, g: string) {
    match fix
    case AsWritten =>
      var j := SpacesAhead(g);
      1 <= j && j + 1 < |g| && g[j] == '|'
    case Intended => g != [] && IsSpace(g[0])
  }

  /**
   * The substitution of line 56: the connector before the whitespace run
   * that precedes the final "|- " becomes a space, when it is '|' or '`'
   * and what precedes it matches group 1.
   */
  function FixGrandparent(fix: Fixup, s: string): (r: string)
    ensures |r| == |s|
  {
    if !EndsWithBranch(s) then s
    else
      var body := s[..|s| - 3];
      var k := TrailingSpaces(body);
      if k == 0 || k == |body| then s
      else
        var pos := |body| - 1 - k;
        if (s[pos] == '|' || s[pos] == '`') && GroupOne(fix, s[..pos]) then s[pos := ' '] else s
  }

  /** Group 1 as the pattern states it. */
  predicate GroupOneSpec(fix: Fixup, g: string) {
    match fix
    case AsWritten => exists j :: 1 <= j && j + 1 < |g| && g[j] == '|' && AllSpace(g[..j])
    case Intended => g != [] && IsSpace(g[0])
  }

  /** Group 2 as the pattern states it: whitespace, then "|- " at the very end. */
  predicate GroupTwo(g: string) {
    |g| >= 4 && g[|g| - 3..] == "|- " && AllSpace(g[..|g| - 3])
  }

  /** The whole pattern matches s with its [\|`] at position pos. */
  predicate MatchAt(fix: Fixup, s: string, pos: int) {
    && 0 <= pos < |s|
    && (s[pos] == '|' || s[pos] == '`')
    && GroupOneSpec(fix, s[..pos])
    && GroupTwo(s[pos + 1..])
  }

  lemma GroupOneIff(fix: Fixup, g: string)
    ensures GroupOne(fix, g) <==> GroupOneSpec(fix, g)
  {
    if fix == AsWritten {
      var j := SpacesAhead(g);
      SpacesAheadAreSpaces(g);
      if GroupOneSpec(fix, g) {
        var j' :| 1 <= j' && j' + 1 < |g| && g[j'] == '|' && AllSpace(g[..j']);
        assert g == g[..j'] + g[j'..];
        SpacesAheadOf(g[..j'], g[j'..]);
        assert SpacesAhead(g[j'..]) == 0;
      }
    }
  }

  /**
   * The computed fix-up is the regex substitution: where the pattern
   * matches, exactly the matched connector becomes a space; where it does
   * not, nothing changes.
   */
  lemma FixGrandparentIsSubstitution(fix: Fixup, s: string)
    ensures forall pos :: MatchAt(fix, s, pos) ==> FixGrandparent(fix, s) == s[pos := ' ']
    ensures FixGrandparent(fix, s) != s ==> exists pos :: MatchAt(fix, s, pos)
  {
    forall pos | MatchAt(fix, s, pos)
      ensures FixGrandparent(fix, s) == s[pos := ' ']
    {
      FixAtMatch(fix, s, pos);
    }
    if FixGrandparent(fix, s) != s {
      var body := s[..|s| - 3];
      var k := TrailingSpaces(body);
      var pos := |body| - 1 - k;
      TrailingSpacesAreSpaces(body);
      GroupOneIff(fix, s[..pos]);
      assert s[pos + 1..] == body[|body| - k..] + "|- ";
      assert MatchAt(fix, s, pos);
    }
  }

  lemma FixAtMatch(fix: Fixup, s: string, pos: int)
    requires MatchAt(fix, s, pos)
    ensures FixGrandparent(fix, s) == s[pos := ' ']
  {
    var g2 := s[pos + 1..];
    assert s[|s| - 3..] == g2[|g2| - 3..];
    var body := s[..|s| - 3];
    assert body[pos + 1..] == g2[..|g2| - 3];
    TrailingSpacesOf(body, pos);
    GroupOneIff(fix, s[..pos]);
  }

  /** The fix-up only touches characters before the final "|- ". */
  lemma FixKeepsBranch(fix: Fixup, s: string)
    requires EndsWithBranch(s)
    ensures EndsWithBranch(FixGrandparent(fix, s))
  {
    var r := FixGrandparent(fix, s);
    assert r[|r| - 3..] == s[|s| - 3..];
  }

  // ----- the last-child mark and the dash removal -----

  /** re.sub(r'\|- $', '`- ', s): a final "|- " becomes "`- ". */
  function MarkLast(s: string): (r: string)
    ensures EndsWithBranch(s) ==> r == s[|s| - 3 := '`']
    ensures !EndsWithBranch(s) ==> r == s
  {
    if EndsWithBranch(s) then s[..|s| - 3] + "`- " else s
  }

  /** s.replace('-', ' '). */
  function Dashless(s: string): (r: string)
    ensures |r| == |s|
  {
    if s == [] then [] else Dashless(s[..|s| - 1]) + [if s[|s| - 1] == '-' then ' ' else s[|s| - 1]]
  }

  /** Every dash becomes a space and every other character stays. */
  lemma {:induction false} DashlessReplaces(s: string)
    ensures forall i :: 0 <= i < |s| ==> Dashless(s)[i] == (if s[i] == '-' then ' ' else s[i])
  {
    if s != [] {
      var t := s[..|s| - 1];
      DashlessReplaces(t);
      assert forall i :: 0 <= i < |t| ==> s[i] == t[i];
    }
  }

  lemma DashlessAppend(a: string, b: string)
    ensures Dashless(a + b) == Dashless(a) + Dashless(b)
  {
    DashlessReplaces(a);
    DashlessReplaces(b);
    DashlessReplaces(a + b);
    assert forall i :: 0 <= i < |a| ==> (a + b)[i] == a[i];
    assert forall i :: |a| <= i < |a| + |b| ==> (a + b)[i] == b[i - |a|];
  }

  /** The prefix print_hierarchy hands to each child. */
  function ChildPrefix(shown: string): string {
    Dashless(shown) + " |- "
  }

  /**
   * The prefix a node is printed with: the grandparent fix-up when its
   * parent is the last child of the grandparent, then the last-child mark
   * when it is the last child of its parent.
   */
  function Rewrite(fix: Fixup, parentLast: bool, last: bool, prefix: string): (shown: string)
    ensures |shown| == |prefix|
  {
    var p1 := if parentLast then FixGrandparent(fix, prefix) else prefix;
    if last then MarkLast(p1) else p1
  }

  // ----- the layout the rewrites produce -----

  /**
   * Whether the column of an ancestor that was the last among its siblings
   * is blanked. As written, group 1 needs the first column to hold '|', so
   * under a last child of the root no column is ever blanked, and the
   * first column never is.
   */
  predicate Cleared(fix: Fixup, flags: seq<bool>, k: nat) {
    match fix
    case AsWritten => k >= 1 && flags != [] && !flags[0]
    case Intended => true
  }

  /** The mark in the column of the ancestor at depth k + 1. */
  function Marker(fix: Fixup, flags: seq<bool>, k: nat): char
    requires k < |flags|
  {
    if !flags[k] then '|' else if Cleared(fix, flags, k) then ' ' else '`'
  }

  function Column(fix: Fixup, flags: seq<bool>, k: nat): string
    requires k < |flags|
  {
    [' ', Marker(fix, flags, k), ' ', ' ']
  }

  /** The first m columns, for the ancestors at depths 1 to m. */
  function Columns(fix: Fixup, flags: seq<bool>, m: nat): string
    requires m <= |flags|
  {
    if m == 0 then "" else Columns(fix, flags, m - 1) + Column(fix, flags, m - 1)
  }

  function Connector(last: bool): string {
    if last then " `- " else " |- "
  }

  /**
   * The prefix of a node whose path from the root has the last-child flags
   * `flags` (one per node below the root, the node's own flag last).
   */
  function Layout(fix: Fixup, flags: seq<bool>): string {
    if flags == [] then "" else Columns(fix, flags, |flags| - 1) + Connector(flags[|flags| - 1])
  }

  lemma {:induction false} ColumnsLength(fix: Fixup, flags: seq<bool>, m: nat)
    requires m <= |flags|
    ensures |Columns(fix, flags, m)| == 4 * m
  {
    if m > 0 {
      ColumnsLength(fix, flags, m - 1);
    }
  }

  /** Every column is four characters wide, so a node at depth d has a 4·d prefix. */
  lemma LayoutLength(fix: Fixup, flags: seq<bool>)
    ensures |Layout(fix, flags)| == 4 * |flags|
  {
    if flags != [] {
      ColumnsLength(fix, flags, |flags| - 1);
    }
  }

  /** Column k of any line holds the mark of the ancestor at depth k + 1. */
  lemma {:induction false} ColumnsAt(fix: Fixup, flags: seq<bool>, m: nat, k: nat)
    requires k < m <= |flags|
    ensures |Columns(fix, flags, m)| == 4 * m
    ensures Columns(fix, flags, m)[4 * k..4 * k + 4] == Column(fix, flags, k)
  {
    ColumnsLength(fix, flags, m);
    ColumnsLength(fix, flags, m - 1);
    if k < m - 1 {
      ColumnsAt(fix, flags, m - 1, k);
      var c := Columns(fix, flags, m - 1);
      assert Columns(fix, flags, m)[4 * k..4 * k + 4] == c[4 * k..4 * k + 4];
    }
  }

  lemma LayoutColumn(fix: Fixup, flags: seq<bool>, k: nat)
    requires k + 1 < |flags|
    ensures |Layout(fix, flags)| == 4 * |flags|
    ensures Layout(fix, flags)[4 * k..4 * k + 4] == Column(fix, flags, k)
  {
    LayoutLength(fix, flags);
    ColumnsAt(fix, flags, |flags| - 1, k);
    var c := Columns(fix, flags, |flags| - 1);
    assert Layout(fix, flags)[4 * k..4 * k + 4] == c[4 * k..4 * k + 4];
  }

  /** A line below the root ends in "`- " exactly for a last child, and in "|- " otherwise. */
  lemma LayoutConnector(fix: Fixup, flags: seq<bool>)
    requires flags != []
    ensures |Layout(fix, flags)| >= 3
    ensures Layout(fix, flags)[|Layout(fix, flags)| - 3..] == (if flags[|flags| - 1] then "`- " else "|- ")
  {
    LayoutLength(fix, flags);
  }

  /**
   * With the intended fix-up, a blank column is drawn under every ancestor
   * that was a last child, and a bar under every other one.
   */
  lemma IntendedContinuation(flags: seq<bool>, k: nat)
    requires k + 1 < |flags|
    ensures |Layout(Intended, flags)| == 4 * |flags|
    ensures Layout(Intended, flags)[4 * k + 1] == (if flags[k] then ' ' else '|')
  {
    LayoutColumn(Intended, flags, k);
    assert Layout(Intended, flags)[4 * k + 1] == Layout(Intended, flags)[4 * k..4 * k + 4][1];
  }

  // ----- the rewrites build the layout, one level at a time -----

  lemma {:induction false} ColumnsExtend(fix: Fixup, flags: seq<bool>, f: bool, m: nat)
    requires m <= |flags|
    ensures Columns(fix, flags + [f], m) == Columns(fix, flags, m)
  {
    if m > 0 {
      ColumnsExtend(fix, flags, f, m - 1);
      assert (flags + [f])[m - 1] == flags[m - 1];
      assert (flags + [f])[0] == flags[0];
    }
  }

  lemma {:induction false} DashlessColumns(fix: Fixup, flags: seq<bool>, m: nat)
    requires m <= |flags|
    ensures Dashless(Columns(fix, flags, m)) == Columns(fix, flags, m)
  {
    if m > 0 {
      DashlessColumns(fix, flags, m - 1);
      DashlessAppend(Columns(fix, flags, m - 1), Column(fix, flags, m - 1));
      DashlessNoDash(Column(fix, flags, m - 1));
    }
  }

  lemma DashlessNoDash(s: string)
    requires forall i :: 0 <= i < |s| ==> s[i] != '-'
    ensures Dashless(s) == s
  {
    DashlessReplaces(s);
  }

  lemma DashlessConnector(last: bool)
    ensures Dashless(Connector(last)) == [' ', if last then '`' else '|', ' ', ' ']
  {
    DashlessReplaces(Connector(last));
  }

  /** The leading whitespace of the first m columns, with a space after them. */
  lemma GroupOneOfColumns(fix: Fixup, flags: seq<bool>, m: nat)
    requires m < |flags|
    ensures GroupOne(fix, Columns(fix, flags, m) + " ") <==> Cleared(fix, flags, m)
  {
    var g := Columns(fix, flags, m) + " ";
    ColumnsLength(fix, flags, m);
    if m > 0 {
      ColumnsAt(fix, flags, m, 0);
      assert g[..4] == Column(fix, flags, 0);
      if fix == AsWritten {
        GroupOneAfterBlank(g);
      }
    } else if fix == AsWritten {
      GroupOneAfterBlank(g);
    }
  }

  /** As written, a prefix " c…" with c no whitespace matches group 1 exactly when c is '|'. */
  lemma GroupOneAfterBlank(g: string)
    requires |g| >= 1 && g[0] == ' '
    requires |g| >= 2 ==> !IsSpace(g[1])
    ensures GroupOne(AsWritten, g) <==> |g| >= 3 && g[1] == '|'
  {
    assert IsSpace(' ');
    if |g| >= 2 {
      assert SpacesAhead(g) == 1 by {
        assert g[1..][0] == g[1];
      }
    }
  }

  /** The fix-up on a prefix whose last column holds the connector c. */
  lemma FixOnColumns(fix: Fixup, cols: string, c: char)
    requires c == '|' || c == '`'
    ensures FixGrandparent(fix, cols + [' ', c, ' ', ' '] + " |- ") ==
      if GroupOne(fix, cols + " ") then cols + [' ', ' ', ' ', ' '] + " |- " else cols + [' ', c, ' ', ' '] + " |- "
  {
    var s := cols + [' ', c, ' ', ' '] + " |- ";
    var pos := |cols| + 1;
    var body := s[..|s| - 3];
    assert body == cols + [' ', c, ' ', ' ', ' '];
    assert body[pos + 1..] == "   ";
    TrailingSpacesOf(body, pos);
    assert s[..pos] == cols + " ";
    assert s[pos := ' '] == cols + [' ', ' ', ' ', ' '] + " |- ";
  }

  lemma ChildPrefixOfLayout(fix: Fixup, flags: seq<bool>)
    requires flags != []
    ensures ChildPrefix(Layout(fix, flags)) ==
      Columns(fix, flags, |flags| - 1) + [' ', if flags[|flags| - 1] then '`' else '|', ' ', ' '] + " |- "
  {
    var d := |flags|;
    var cols := Columns(fix, flags, d - 1);
    var conn := Connector(flags[d - 1]);
    calc {
      ChildPrefix(Layout(fix, flags));
      Dashless(cols + conn) + " |- ";
    == { DashlessAppend(cols, conn); }
      Dashless(cols) + Dashless(conn) + " |- ";
    == { DashlessColumns(fix, flags, d - 1); DashlessConnector(flags[d - 1]); }
      cols + [' ', if flags[d - 1] then '`' else '|', ' ', ' '] + " |- ";
    }
  }

  lemma MarkLastOnBranch(a: string)
    ensures MarkLast(a + " |- ") == a + " `- "
  {
    var s := a + " |- ";
    assert s[|s| - 3..] == "|- ";
    assert s[..|s| - 3] == a + " ";
  }

  lemma LayoutExtend(fix: Fixup, flags: seq<bool>, last: bool)
    ensures Layout(fix, flags + [last]) ==
      Columns(fix, flags, |flags|) + Connector(last)
  {
    ColumnsExtend(fix, flags, last, |flags|);
  }

  /**
   * One level of print_hierarchy: the prefix handed to a child of a node
   * printed with Layout(fix, flags), once rewritten, is the child's layout.
   */
  lemma RewriteStep(fix: Fixup, flags: seq<bool>, parentLast: bool, last: bool)
    requires flags != [] ==> parentLast == flags[|flags| - 1]
    ensures Rewrite(fix, parentLast, last, ChildPrefix(Layout(fix, flags))) == Layout(fix, flags + [last])
  {
    if flags == [] {
      RewriteUnderRoot(fix, parentLast, last);
    } else {
      RewriteUnderChild(fix, flags, last);
    }
  }

  /** The children of pid 1: the root's prefix " |- " becomes the first column layout. */
  lemma RewriteUnderRoot(fix: Fixup, parentLast: bool, last: bool)
    ensures Rewrite(fix, parentLast, last, ChildPrefix(Layout(fix, []))) == Layout(fix, [last])
  {
    LayoutExtend(fix, [], last);
    assert [] + [last] == [last];
    assert ChildPrefix(Layout(fix, [])) == " |- ";
    assert TrailingSpaces(" ") == 1;
    var p1 := " |- ";
    assert p1 == (if parentLast then FixGrandparent(fix, " |- ") else " |- ");
    assert "" + " |- " == p1;
    MarkLastOnBranch("");
  }

  /** Deeper down: the parent's marker column is settled, and a new branch is added. */
  lemma RewriteUnderChild(fix: Fixup, flags: seq<bool>, last: bool)
    requires flags != []
    ensures Rewrite(fix, flags[|flags| - 1], last, ChildPrefix(Layout(fix, flags))) == Layout(fix, flags + [last])
  {
    var d := |flags|;
    var parentLast := flags[d - 1];
    LayoutExtend(fix, flags, last);
    var cols := Columns(fix, flags, d - 1);
    var c := if flags[d - 1] then '`' else '|';
    ChildPrefixOfLayout(fix, flags);
    var before := cols + [' ', c, ' ', ' '];
    var m := Marker(fix, flags + [last], d - 1);
    var after := cols + [' ', m, ' ', ' '];
    assert Columns(fix, flags + [last], d) == after by {
      ColumnsExtend(fix, flags, last, d - 1);
    }
    assert Columns(fix, flags, d) == after by {
      ColumnsExtend(fix, flags, last, d);
    }
    var p1 := if parentLast then FixGrandparent(fix, before + " |- ") else before + " |- ";
    assert p1 == after + " |- " by {
      if parentLast {
        FixOnColumns(fix, cols, c);
        GroupOneOfColumns(fix, flags, d - 1);
        assert (flags + [last])[0] == flags[0];
      }
    }
    MarkLastOnBranch(after);
  }

  /** The root's empty prefix survives both rewrites. */
  lemma RewriteEmpty(fix: Fixup, parentLast: bool, last: bool)
    ensures Rewrite(fix, parentLast, last, "") == ""
  {
  }
}
