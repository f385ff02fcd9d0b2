/**
 * print_hierarchy: the recursive pre-order printout of the process tree
 * from one pid, one line per process, prefix + name + "(" + pid + ")".
 *
 * The recursion is bounded by a ghost depth n (Finite): the source recurses
 * without a bound and never terminates on a cycle of parent links.
 */
module ProcessRender {
  import opened Wrappers
  import opened PyText
  import opened ProcessRegistry
  import opened ProcessPrefix

  // ----- names -----

  /** os.path.basename on POSIX paths: what follows the last '/'. */
  function Basename(path: string): (name: string)
    ensures '/' !in name
    ensures |name| <= |path| && path[|path| - |name|..] == name
    ensures |name| < |path| ==> path[|path| - |name| - 1] == '/'
  {
    if path == [] || path[|path| - 1] == '/' then []
    else Basename(path[..|path| - 1]) + [path[|path| - 1]]
  }

  /** The basename of dir/name is name, for a name without '/'. */
  lemma {:induction false} BasenameOf(dir: string, name: string)
    requires '/' !in name
    ensures Basename(dir + "/" + name) == name
    decreases |name|
  {
    var s := dir + "/" + name;
    if name != [] {
      var front := name[..|name| - 1];
      assert s[..|s| - 1] == dir + "/" + front;
      assert name[|name| - 1] in name;
      BasenameOf(dir, front);
      assert front + [name[|name| - 1]] == name;
    }
  }

  /** The name printed for a command; pathExists stands for os.path.exists. */
  function DisplayName(command: string, pathExists: string -> bool): string {
    if pathExists(command) then Basename(command) else command
  }

  /** name + "(" + pid + ")" for the pid's entry (the default entry for an unseen pid). */
  function Label(reg: Registry, pathExists: string -> bool, pid: int): string {
    DisplayName(Entry(reg, Some(pid)).command, pathExists) + "(" + IntToString(pid) + ")"
  }

  // ----- the two children[-1] checks -----

  /**
   * processes[processes[x]['parent_pid']]['children'][-1] == x. An empty
   * children list raises IndexError, which the source catches: the test
   * then reads as false. An int never equals None.
   */
  predicate IsLastChild(reg: Registry, x: Option<int>) {
    var kids := Entry(reg, Entry(reg, x).parent).children;
    kids != [] && Some(kids[|kids| - 1]) == x
  }

  /** The prefix pid is printed with, given the prefix it was called with. */
  function ShownPrefix(fix: Fixup, reg: Registry, pid: int, prefix: string): string {
    Rewrite(fix, IsLastChild(reg, Entry(reg, Some(pid)).parent), IsLastChild(reg, Some(pid)), prefix)
  }

  // ----- the recursion -----

  /** Every path of children links from pid has fewer than n nodes. */
  ghost predicate Finite(reg: Registry, pid: int, n: nat)
    decreases n
  {
    n > 0 && forall c :: c in Entry(reg, Some(pid)).children ==> Finite(reg, c, n - 1)
  }

  /** The lines print_hierarchy(processes, pid, prefix) prints. */
  function Render(fix: Fixup, reg: Registry, pathExists: string -> bool, pid: int, prefix: string,
                  ghost n: nat): seq<string>
    requires Finite(reg, pid, n)
    decreases n, 0, 0
  {
    var shown := ShownPrefix(fix, reg, pid, prefix);
    var kids := Entry(reg, Some(pid)).children;
    [shown + Label(reg, pathExists, pid)] +
      (if kids == [] then [] else RenderKids(fix, reg, pathExists, kids, ChildPrefix(shown), n - 1))
  }

  /** The for loop over the children, each printed with the same prefix. */
  function RenderKids(fix: Fixup, reg: Registry, pathExists: string -> bool, kids: seq<int>, prefix: string,
                      ghost n: nat): seq<string>
    requires forall c :: c in kids ==> Finite(reg, c, n)
    decreases n, 1, |kids|
  {
    if kids == [] then []
    else Render(fix, reg, pathExists, kids[0], prefix, n) + RenderKids(fix, reg, pathExists, kids[1..], prefix, n)
  }

  // ----- the reference: a pre-order walk and its drawing -----

  /** A node reached by the walk, with the last-child flags of its path below the root. */
  datatype Visit = Visit(pid: int, flags: seq<bool>)

  /** Pre-order: the node, then each child's subtree in children order; the last child is flagged. */
  ghost function Walk(reg: Registry, pid: int, flags: seq<bool>, n: nat): seq<Visit>
    requires Finite(reg, pid, n)
    decreases n, 0, 0
  {
    [Visit(pid, flags)] + WalkKids(reg, Entry(reg, Some(pid)).children, 0, flags, n - 1)
  }

  ghost function WalkKids(reg: Registry, kids: seq<int>, i: nat, flags: seq<bool>, n: nat): seq<Visit>
    requires i <= |kids| && forall c :: c in kids ==> Finite(reg, c, n)
    decreases n, 1, |kids| - i
  {
    if i == |kids| then []
    else Walk(reg, kids[i], flags + [i == |kids| - 1], n) + WalkKids(reg, kids, i + 1, flags, n)
  }

  /** The drawing of one visited node: its layout, then its label. */
  ghost function Line(fix: Fixup, reg: Registry, pathExists: string -> bool, v: Visit): string {
    Layout(fix, v.flags) + Label(reg, pathExists, v.pid)
  }

  /** The drawing of a walk, one line per visited node. */
  ghost function Lines(fix: Fixup, reg: Registry, pathExists: string -> bool, visits: seq<Visit>): seq<string> {
    MapSeq(LineOf(fix, reg, pathExists), visits)
  }

  /** Line with the drawing context fixed, as a function of the visit. */
  ghost function LineOf(fix: Fixup, reg: Registry, pathExists: string -> bool): Visit -> string {
    v => Line(fix, reg, pathExists, v)
  }

  /** f applied to every element of s, in order. */
  ghost function MapSeq<T, U>(f: T -> U, s: seq<T>): seq<U> {
    seq(|s|, i requires 0 <= i < |s| => f(s[i]))
  }

  lemma MapSeqAppend<T, U>(f: T -> U, a: seq<T>, b: seq<T>)
    ensures MapSeq(f, a + b) == MapSeq(f, a) + MapSeq(f, b)
  {
    var l := MapSeq(f, a + b);
    var r := MapSeq(f, a) + MapSeq(f, b);
    assert |l| == |r|;
    forall i | 0 <= i < |l|
      ensures l[i] == r[i]
    {
      if i < |a| {
        assert (a + b)[i] == a[i];
      } else {
        assert (a + b)[i] == b[i - |a|];
      }
    }
  }

  lemma LinesAppend(fix: Fixup, reg: Registry, pathExists: string -> bool, a: seq<Visit>, b: seq<Visit>)
    ensures Lines(fix, reg, pathExists, a + b) == Lines(fix, reg, pathExists, a) + Lines(fix, reg, pathExists, b)
  {
    MapSeqAppend(LineOf(fix, reg, pathExists), a, b);
  }

  // ----- print_hierarchy draws the walk -----

  /**
   * On a consistent dictionary, print_hierarchy from pid, called with the
   * prefix its parent hands down, prints the layout of the walk from pid.
   */
  lemma {:induction false} RenderIsLayout(fix: Fixup, reg: Registry, pathExists: string -> bool, pid: int,
                                          flags: seq<bool>, n: nat)
    requires Consistent(reg) && Finite(reg, pid, n)
    requires flags != [] ==> flags[|flags| - 1] == IsLastChild(reg, Some(pid))
    requires |flags| >= 2 ==> flags[|flags| - 2] == IsLastChild(reg, Entry(reg, Some(pid)).parent)
    ensures Render(fix, reg, pathExists, pid, Incoming(fix, flags), n) == Lines(fix, reg, pathExists, Walk(reg, pid, flags, n))
    decreases n, 0, 0
  {
    var prefix := Incoming(fix, flags);
    var shown := ShownPrefix(fix, reg, pid, prefix);
    ShownIsLayout(fix, reg, pid, flags);
    var kids := Entry(reg, Some(pid)).children;
    var head := Visit(pid, flags);
    var rest := WalkKids(reg, kids, 0, flags, n - 1);
    var below := if kids == [] then [] else RenderKids(fix, reg, pathExists, kids, ChildPrefix(shown), n - 1);
    assert below == Lines(fix, reg, pathExists, rest) by {
      if kids != [] {
        assert kids[0..] == kids;
        RenderKidsIsLayout(fix, reg, pathExists, pid, 0, flags, n - 1);
      }
    }
    calc {
      Render(fix, reg, pathExists, pid, prefix, n);
      [shown + Label(reg, pathExists, pid)] + below;
    == { assert Lines(fix, reg, pathExists, [head]) == [shown + Label(reg, pathExists, pid)]; }
      Lines(fix, reg, pathExists, [head]) + Lines(fix, reg, pathExists, rest);
    == { LinesAppend(fix, reg, pathExists, [head], rest); }
      Lines(fix, reg, pathExists, [head] + rest);
      Lines(fix, reg, pathExists, Walk(reg, pid, flags, n));
    }
  }

  /**
   * The prefix a node is printed with, given the prefix its parent hands
   * down, is the layout of its path, when the flags are its own and its
   * parent's last-child checks.
   */
  lemma ShownIsLayout(fix: Fixup, reg: Registry, pid: int, flags: seq<bool>)
    requires flags != [] ==> flags[|flags| - 1] == IsLastChild(reg, Some(pid))
    requires |flags| >= 2 ==> flags[|flags| - 2] == IsLastChild(reg, Entry(reg, Some(pid)).parent)
    ensures ShownPrefix(fix, reg, pid, Incoming(fix, flags)) == Layout(fix, flags)
  {
    var parentLast := IsLastChild(reg, Entry(reg, Some(pid)).parent);
    var last := IsLastChild(reg, Some(pid));
    if flags == [] {
      assert Incoming(fix, flags) == "";
      RewriteEmpty(fix, parentLast, last);
    } else {
      var up := flags[..|flags| - 1];
      assert Incoming(fix, flags) == ChildPrefix(Layout(fix, up));
      assert up + [last] == flags;
      assert up != [] ==> parentLast == up[|up| - 1];
      RewriteStep(fix, up, parentLast, last);
    }
  }

  /** The prefix a node at the end of the path `flags` is called with. */
  function Incoming(fix: Fixup, flags: seq<bool>): string {
    if flags == [] then "" else ChildPrefix(Layout(fix, flags[..|flags| - 1]))
  }

  lemma {:induction false} RenderKidsIsLayout(fix: Fixup, reg: Registry, pathExists: string -> bool, parent: int,
                                              i: nat, flags: seq<bool>, n: nat)
    requires Consistent(reg)
    requires i <= |Entry(reg, Some(parent)).children|
    requires forall c :: c in Entry(reg, Some(parent)).children ==> Finite(reg, c, n)
    requires flags != [] ==> flags[|flags| - 1] == IsLastChild(reg, Some(parent))
    ensures var kids := Entry(reg, Some(parent)).children;
      RenderKids(fix, reg, pathExists, kids[i..], ChildPrefix(Layout(fix, flags)), n) ==
      Lines(fix, reg, pathExists, WalkKids(reg, kids, i, flags, n))
    decreases n, 1, |Entry(reg, Some(parent)).children| - i
  {
    var kids := Entry(reg, Some(parent)).children;
    if i < |kids| {
      var kid := kids[i];
      var flags' := flags + [i == |kids| - 1];
      assert parent in reg;
      assert kid in kids;
      assert Entry(reg, Some(kid)).parent == Some(parent);
      assert flags'[|flags'| - 1] == IsLastChild(reg, Some(kid)) by {
        assert Distinct(reg[parent].children);
      }
      assert flags'[..|flags'| - 1] == flags;
      RenderIsLayout(fix, reg, pathExists, kid, flags', n);
      RenderKidsIsLayout(fix, reg, pathExists, parent, i + 1, flags, n);
      assert kids[i..][1..] == kids[i + 1..];
      LinesAppend(fix, reg, pathExists, Walk(reg, kid, flags', n), WalkKids(reg, kids, i + 1, flags, n));
    }
  }

  /** The whole printout from a root called with prefix '': the layout of the walk from it. */
  lemma PrintoutIsLayout(fix: Fixup, reg: Registry, pathExists: string -> bool, root: int, n: nat)
    requires Consistent(reg) && Finite(reg, root, n)
    ensures Render(fix, reg, pathExists, root, "", n) == Lines(fix, reg, pathExists, Walk(reg, root, [], n))
  {
    RenderIsLayout(fix, reg, pathExists, root, [], n);
  }

  // ----- facts that hold on any dictionary -----

  /** The root, called with prefix '', is printed with no prefix at all. */
  lemma RootLine(fix: Fixup, reg: Registry, pathExists: string -> bool, root: int, n: nat)
    requires Finite(reg, root, n)
    ensures Render(fix, reg, pathExists, root, "", n)[0] == Label(reg, pathExists, root)
  {
    RewriteEmpty(fix, IsLastChild(reg, Entry(reg, Some(root)).parent), IsLastChild(reg, Some(root)));
  }

  /**
   * A node called with a child prefix is printed with a prefix of the same
   * length ending in "`- " when it is the last entry of its parent's
   * children, and in "|- " otherwise.
   */
  lemma ShownConnector(fix: Fixup, reg: Registry, pid: int, above: string)
    ensures |ShownPrefix(fix, reg, pid, ChildPrefix(above))| == |above| + 4
    ensures var s := ShownPrefix(fix, reg, pid, ChildPrefix(above));
      s[|s| - 3..] == if IsLastChild(reg, Some(pid)) then "`- " else "|- "
  {
    var q := ChildPrefix(above);
    assert EndsWithBranch(q);
    FixKeepsBranch(fix, q);
  }

  /** The depth bound is only a proof device: any two bounds give the same printout. */
  lemma {:induction false} RenderFuel(fix: Fixup, reg: Registry, pathExists: string -> bool, pid: int, prefix: string,
                                      n: nat, m: nat)
    requires Finite(reg, pid, n) && Finite(reg, pid, m)
    ensures Render(fix, reg, pathExists, pid, prefix, n) == Render(fix, reg, pathExists, pid, prefix, m)
    decreases n, 0, 0
  {
    var kids := Entry(reg, Some(pid)).children;
    var shown := ShownPrefix(fix, reg, pid, prefix);
    RenderKidsFuel(fix, reg, pathExists, kids, ChildPrefix(shown), n - 1, m - 1);
  }

  lemma {:induction false} RenderKidsFuel(fix: Fixup, reg: Registry, pathExists: string -> bool, kids: seq<int>,
                                          prefix: string, n: nat, m: nat)
    requires forall c :: c in kids ==> Finite(reg, c, n) && Finite(reg, c, m)
    ensures RenderKids(fix, reg, pathExists, kids, prefix, n) == RenderKids(fix, reg, pathExists, kids, prefix, m)
    decreases n, 1, |kids|
  {
    if kids != [] {
      RenderFuel(fix, reg, pathExists, kids[0], prefix, n, m);
      RenderKidsFuel(fix, reg, pathExists, kids[1..], prefix, n, m);
    }
  }
}
