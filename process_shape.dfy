/**
 * The shape of the printout: on a dictionary whose parent links and
 * children lists agree, the walk print_hierarchy follows from a root prints
 * every pid reachable through children links, prints each of them once, and
 * prints each at the depth of its distance from the root along parent links.
 */
module ProcessShape {
  import opened Wrappers
  import opened ProcessRegistry
  import opened ProcessRender
  import opened ProcessTree

  // ----- children paths and parent chains -----

  /** Each pid of ps is listed among the children of the one before it. */
  ghost predicate Path(reg: Registry, ps: seq<int>) {
    forall t :: 0 <= t < |ps| - 1 ==> ps[t + 1] in Entry(reg, Some(ps[t])).children
  }

  /** There is a children path of d links from a to b. */
  ghost predicate Reaches(reg: Registry, a: int, d: int, b: int) {
    d >= 0 && exists ps :: Path(reg, ps) && |ps| == d + 1 && ps[0] == a && ps[|ps| - 1] == b
  }

  /** What k lookups of parent_pid lead to from x (None stays None). */
  function Ancestor(reg: Registry, x: Option<int>, k: nat): Option<int>
    decreases k
  {
    if k == 0 then x else Ancestor(reg, Entry(reg, x).parent, k - 1)
  }

  lemma PathSlice(reg: Registry, ps: seq<int>, lo: int, hi: int)
    requires Path(reg, ps) && 0 <= lo <= hi <= |ps|
    ensures Path(reg, ps[lo..hi])
  {
    var s := ps[lo..hi];
    forall t | 0 <= t < |s| - 1
      ensures s[t + 1] in Entry(reg, Some(s[t])).children
    {
      assert s[t] == ps[lo + t] && s[t + 1] == ps[lo + t + 1];
    }
  }

  lemma PathCons(reg: Registry, a: int, ps: seq<int>)
    requires Path(reg, ps) && ps != [] && ps[0] in Entry(reg, Some(a)).children
    ensures Path(reg, [a] + ps)
  {
    var s := [a] + ps;
    forall t | 0 <= t < |s| - 1
      ensures s[t + 1] in Entry(reg, Some(s[t])).children
    {
      if t > 0 {
        assert s[t] == ps[t - 1] && s[t + 1] == ps[t];
      }
    }
  }

  /** A listed child names its parent back, on a consistent dictionary. */
  lemma ParentLink(reg: Registry, a: int, c: int)
    requires Consistent(reg) && c in Entry(reg, Some(a)).children
    ensures Entry(reg, Some(c)).parent == Some(a)
  {
    assert a in reg;
  }

  /** Along a children path, following parent links from its end leads back to its start. */
  lemma {:induction false} PathAncestor(reg: Registry, ps: seq<int>)
    requires Consistent(reg) && Path(reg, ps) && ps != []
    ensures Ancestor(reg, Some(ps[|ps| - 1]), |ps| - 1) == Some(ps[0])
    decreases |ps|
  {
    if |ps| > 1 {
      var rest := ps[1..];
      PathSlice(reg, ps, 1, |ps|);
      PathAncestor(reg, rest);
      AncestorSnoc(reg, Some(ps[|ps| - 1]), |ps| - 2);
      assert rest[0] == ps[1] && rest[|rest| - 1] == ps[|ps| - 1];
      ParentLink(reg, ps[0], ps[1]);
    }
  }

  /** The last of k + 1 parent steps is taken from where k steps lead. */
  lemma {:induction false} AncestorSnoc(reg: Registry, x: Option<int>, k: nat)
    ensures Ancestor(reg, x, k + 1) == Entry(reg, Ancestor(reg, x, k)).parent
    decreases k
  {
    if k > 0 {
      AncestorSnoc(reg, Entry(reg, x).parent, k - 1);
    }
  }

  /** From a node with bound n, a path of children links has at most n nodes and ends at a bound reduced by its length. */
  lemma {:induction false} FinitePath(reg: Registry, ps: seq<int>, n: nat)
    requires Path(reg, ps) && ps != [] && Finite(reg, ps[0], n)
    ensures |ps| <= n && Finite(reg, ps[|ps| - 1], n - |ps| + 1)
    decreases |ps|
  {
    if |ps| > 1 {
      var rest := ps[1..];
      assert ps[1] in Entry(reg, Some(ps[0])).children;
      PathSlice(reg, ps, 1, |ps|);
      assert rest[0] == ps[1] && rest[|rest| - 1] == ps[|ps| - 1];
      FinitePath(reg, rest, n - 1);
    }
  }

  /** Below a node with a depth bound, no children path leads back to it. */
  lemma {:induction false} FiniteAcyclic(reg: Registry, ps: seq<int>, n: nat)
    requires Path(reg, ps) && |ps| >= 2 && Finite(reg, ps[0], n)
    ensures ps[|ps| - 1] != ps[0]
    decreases n
  {
    FinitePath(reg, ps, n);
    if ps[|ps| - 1] == ps[0] {
      FiniteAcyclic(reg, ps, n - |ps| + 1);
      assert false;
    }
  }

  /** Two children paths that end at the same pid agree on their common tail. */
  lemma {:induction false} PathSuffix(reg: Registry, p: seq<int>, q: seq<int>)
    requires Consistent(reg) && Path(reg, p) && Path(reg, q)
    requires 1 <= |p| <= |q| && p[|p| - 1] == q[|q| - 1]
    ensures p == q[|q| - |p|..]
    decreases |p|
  {
    if |p| > 1 {
      var x := p[|p| - 1];
      ParentLink(reg, p[|p| - 2], x);
      ParentLink(reg, q[|q| - 2], x);
      var p' := p[..|p| - 1];
      var q' := q[..|q| - 1];
      PathSlice(reg, p, 0, |p| - 1);
      PathSlice(reg, q, 0, |q| - 1);
      PathSuffix(reg, p', q');
      assert p == p' + [x];
      assert q[|q| - |p|..] == q'[|q'| - |p'|..] + [x];
    }
  }

  /** Below a node with a depth bound, a pid is reached by one children path only. */
  lemma PathUnique(reg: Registry, p: seq<int>, q: seq<int>, n: nat)
    requires Consistent(reg) && Path(reg, p) && Path(reg, q) && p != [] && q != []
    requires p[0] == q[0] && p[|p| - 1] == q[|q| - 1] && Finite(reg, p[0], n)
    ensures p == q
  {
    if |p| <= |q| {
      PathUniqueOrdered(reg, p, q, n);
    } else {
      PathUniqueOrdered(reg, q, p, n);
    }
  }

  lemma PathUniqueOrdered(reg: Registry, p: seq<int>, q: seq<int>, n: nat)
    requires Consistent(reg) && Path(reg, p) && Path(reg, q) && 1 <= |p| <= |q|
    requires p[0] == q[0] && p[|p| - 1] == q[|q| - 1] && Finite(reg, p[0], n)
    ensures p == q
  {
    PathSuffix(reg, p, q);
    var t := |q| - |p|;
    assert q[t] == p[0];
    if t > 0 {
      PathSlice(reg, q, 0, t + 1);
      FiniteAcyclic(reg, q[..t + 1], n);
      assert false;
    }
  }

  // ----- where the walk's visits come from -----

  /** Every visit in w is reached from a by as many links as it has flags beyond depth. */
  ghost predicate ReachedFrom(reg: Registry, a: int, depth: int, w: seq<Visit>) {
    forall i :: 0 <= i < |w| ==> |w[i].flags| >= depth && Reaches(reg, a, |w[i].flags| - depth, w[i].pid)
  }

  /** Every visit in w is reached from one of kids[i..] by one link fewer than it has flags beyond depth. */
  ghost predicate ReachedFromKids(reg: Registry, kids: seq<int>, i: nat, depth: int, w: seq<Visit>) {
    forall k :: 0 <= k < |w| ==>
      && |w[k].flags| > depth
      && exists j :: i <= j < |kids| && Reaches(reg, kids[j], |w[k].flags| - depth - 1, w[k].pid)
  }

  /** Each visit of the walk from pid is reached from pid by as many children links as it has flags beyond the start's. */
  lemma {:induction false} WalkReaches(reg: Registry, pid: int, flags: seq<bool>, n: nat)
    requires Finite(reg, pid, n)
    ensures ReachedFrom(reg, pid, |flags|, Walk(reg, pid, flags, n))
    decreases n, 0, 0
  {
    var w := Walk(reg, pid, flags, n);
    var kids := Entry(reg, Some(pid)).children;
    var wk := WalkKids(reg, kids, 0, flags, n - 1);
    assert w == [Visit(pid, flags)] + wk;
    WalkKidsReach(reg, pid, 0, flags, n - 1);
    forall i | 0 <= i < |w|
      ensures |w[i].flags| >= |flags| && Reaches(reg, pid, |w[i].flags| - |flags|, w[i].pid)
    {
      if i == 0 {
        assert Path(reg, [pid]);
      } else {
        var v := wk[i - 1];
        assert w[i] == v;
        var j :| 0 <= j < |kids| && Reaches(reg, kids[j], |v.flags| - |flags| - 1, v.pid);
        var ps :| Path(reg, ps) && |ps| == |v.flags| - |flags| && ps[0] == kids[j] && ps[|ps| - 1] == v.pid;
        PathCons(reg, pid, ps);
        assert ([pid] + ps)[0] == pid && ([pid] + ps)[|ps|] == v.pid;
      }
    }
  }

  /** Each visit of the children loop from child i on is reached from one of those children. */
  lemma {:induction false} WalkKidsReach(reg: Registry, parent: int, i: nat, flags: seq<bool>, n: nat)
    requires i <= |Entry(reg, Some(parent)).children|
    requires forall c :: c in Entry(reg, Some(parent)).children ==> Finite(reg, c, n)
    ensures var kids := Entry(reg, Some(parent)).children;
      ReachedFromKids(reg, kids, i, |flags|, WalkKids(reg, kids, i, flags, n))
    decreases n, 1, |Entry(reg, Some(parent)).children| - i
  {
    var kids := Entry(reg, Some(parent)).children;
    if i < |kids| {
      var a := Walk(reg, kids[i], flags + [i == |kids| - 1], n);
      var b := WalkKids(reg, kids, i + 1, flags, n);
      var w := WalkKids(reg, kids, i, flags, n);
      assert w == a + b;
      WalkReaches(reg, kids[i], flags + [i == |kids| - 1], n);
      WalkKidsReach(reg, parent, i + 1, flags, n);
      forall k | 0 <= k < |w|
        ensures |w[k].flags| > |flags| &&
          exists j :: i <= j < |kids| && Reaches(reg, kids[j], |w[k].flags| - |flags| - 1, w[k].pid)
      {
        if k < |a| {
          assert w[k] == a[k];
          assert Reaches(reg, kids[i], |w[k].flags| - |flags| - 1, w[k].pid);
        } else {
          assert w[k] == b[k - |a|];
        }
      }
    }
  }

  // ----- each pid once -----

  /** No pid is visited twice. */
  ghost predicate DistinctPids(w: seq<Visit>) {
    forall i, j :: 0 <= i < j < |w| ==> w[i].pid != w[j].pid
  }

  lemma {:induction false} WalkDistinct(reg: Registry, pid: int, flags: seq<bool>, n: nat)
    requires Consistent(reg) && Finite(reg, pid, n)
    ensures DistinctPids(Walk(reg, pid, flags, n))
    decreases n, 0, 0
  {
    var w := Walk(reg, pid, flags, n);
    var kids := Entry(reg, Some(pid)).children;
    var wk := WalkKids(reg, kids, 0, flags, n - 1);
    assert w == [Visit(pid, flags)] + wk;
    WalkKidsDistinct(reg, pid, 0, flags, n - 1);
    WalkKidsReach(reg, pid, 0, flags, n - 1);
    forall k | 0 <= k < |wk|
      ensures wk[k].pid != pid
    {
      var v := wk[k];
      var j :| 0 <= j < |kids| && Reaches(reg, kids[j], |v.flags| - |flags| - 1, v.pid);
      var ps :| Path(reg, ps) && |ps| == |v.flags| - |flags| && ps[0] == kids[j] && ps[|ps| - 1] == v.pid;
      PathCons(reg, pid, ps);
      assert ([pid] + ps)[0] == pid && ([pid] + ps)[|ps|] == v.pid;
      FiniteAcyclic(reg, [pid] + ps, n);
    }
    forall a, b | 0 <= a < b < |w|
      ensures w[a].pid != w[b].pid
    {
      assert w[b] == wk[b - 1];
      if a > 0 {
        assert w[a] == wk[a - 1];
      }
    }
  }

  /** The subtrees of distinct children share no pid. */
  lemma {:induction false} WalkKidsDistinct(reg: Registry, parent: int, i: nat, flags: seq<bool>, n: nat)
    requires Consistent(reg) && Finite(reg, parent, n + 1)
    requires forall c :: c in Entry(reg, Some(parent)).children ==> Finite(reg, c, n)
    requires i <= |Entry(reg, Some(parent)).children|
    ensures var kids := Entry(reg, Some(parent)).children;
      DistinctPids(WalkKids(reg, kids, i, flags, n))
    decreases n, 1, |Entry(reg, Some(parent)).children| - i
  {
    var kids := Entry(reg, Some(parent)).children;
    if i < |kids| {
      var a := Walk(reg, kids[i], flags + [i == |kids| - 1], n);
      var b := WalkKids(reg, kids, i + 1, flags, n);
      var w := WalkKids(reg, kids, i, flags, n);
      assert w == a + b;
      WalkDistinct(reg, kids[i], flags + [i == |kids| - 1], n);
      WalkKidsDistinct(reg, parent, i + 1, flags, n);
      forall k, l | 0 <= k < |a| && 0 <= l < |b|
        ensures a[k].pid != b[l].pid
      {
        SubtreesApart(reg, parent, i, flags, n, k, l);
      }
      forall x, y | 0 <= x < y < |w|
        ensures w[x].pid != w[y].pid
      {
        if y < |a| {
          assert w[x] == a[x] && w[y] == a[y];
        } else if x < |a| {
          assert w[x] == a[x] && w[y] == b[y - |a|];
        } else {
          assert w[x] == b[x - |a|] && w[y] == b[y - |a|];
        }
      }
    }
  }

  /** A pid in the subtree of child i is in no later child's subtree. */
  lemma SubtreesApart(reg: Registry, parent: int, i: nat, flags: seq<bool>, n: nat, k: int, l: int)
    requires Consistent(reg) && Finite(reg, parent, n + 1)
    requires i < |Entry(reg, Some(parent)).children|
    requires forall c :: c in Entry(reg, Some(parent)).children ==> Finite(reg, c, n)
    requires var kids := Entry(reg, Some(parent)).children;
      0 <= k < |Walk(reg, kids[i], flags + [i == |kids| - 1], n)| && 0 <= l < |WalkKids(reg, kids, i + 1, flags, n)|
    ensures var kids := Entry(reg, Some(parent)).children;
      Walk(reg, kids[i], flags + [i == |kids| - 1], n)[k].pid != WalkKids(reg, kids, i + 1, flags, n)[l].pid
  {
    var kids := Entry(reg, Some(parent)).children;
    var a := Walk(reg, kids[i], flags + [i == |kids| - 1], n);
    var b := WalkKids(reg, kids, i + 1, flags, n);
    WalkReaches(reg, kids[i], flags + [i == |kids| - 1], n);
    WalkKidsReach(reg, parent, i + 1, flags, n);
    if a[k].pid == b[l].pid {
      var ps :| Path(reg, ps) && |ps| == |a[k].flags| - |flags| && ps[0] == kids[i] && ps[|ps| - 1] == a[k].pid;
      var j :| i + 1 <= j < |kids| && Reaches(reg, kids[j], |b[l].flags| - |flags| - 1, b[l].pid);
      var qs :| Path(reg, qs) && |qs| == |b[l].flags| - |flags| && qs[0] == kids[j] && qs[|qs| - 1] == b[l].pid;
      assert parent in reg && Distinct(kids);
      SameChild(reg, parent, ps, qs, n + 1);
      assert false;
    }
  }

  /** Two children paths from children of one bounded node to the same pid start at the same child. */
  lemma SameChild(reg: Registry, parent: int, ps: seq<int>, qs: seq<int>, n: nat)
    requires Consistent(reg) && Finite(reg, parent, n) && Path(reg, ps) && Path(reg, qs) && ps != [] && qs != []
    requires ps[0] in Entry(reg, Some(parent)).children && qs[0] in Entry(reg, Some(parent)).children
    requires ps[|ps| - 1] == qs[|qs| - 1]
    ensures ps[0] == qs[0]
  {
    PathCons(reg, parent, ps);
    PathCons(reg, parent, qs);
    assert ([parent] + ps)[|ps|] == ([parent] + qs)[|qs|];
    PathUnique(reg, [parent] + ps, [parent] + qs, n);
    assert ([parent] + ps)[1] == ps[0] && ([parent] + qs)[1] == qs[0];
  }

  // ----- every reachable pid -----

  /** c occurs in s starting at index off. */
  ghost predicate StretchAt<T>(s: seq<T>, off: int, c: seq<T>) {
    0 <= off && off + |c| <= |s| && forall t :: 0 <= t < |c| ==> s[off + t] == c[t]
  }

  lemma StretchPrefix<T>(a: seq<T>, b: seq<T>)
    ensures StretchAt(a + b, 0, a)
  {
    forall t | 0 <= t < |a|
      ensures (a + b)[0 + t] == a[t]
    {
    }
  }

  lemma StretchShift<T>(a: seq<T>, b: seq<T>, o: int, c: seq<T>)
    requires StretchAt(b, o, c)
    ensures StretchAt(a + b, |a| + o, c)
  {
    forall t | 0 <= t < |c|
      ensures (a + b)[|a| + o + t] == c[t]
    {
      assert b[o + t] == c[t];
    }
  }

  lemma StretchIndex<T>(s: seq<T>, off: int, c: seq<T>, t: int)
    requires StretchAt(s, off, c) && 0 <= t < |c|
    ensures s[off + t] == c[t]
  {
  }

  /** The walk of child j is a contiguous stretch of the children loop's walk from child i. */
  lemma {:induction false} WalkKidsContains(reg: Registry, kids: seq<int>, i: nat, j: nat, flags: seq<bool>, n: nat)
    returns (off: int)
    requires i <= j < |kids| && forall c :: c in kids ==> Finite(reg, c, n)
    ensures StretchAt(WalkKids(reg, kids, i, flags, n), off, Walk(reg, kids[j], flags + [j == |kids| - 1], n))
    decreases |kids| - i
  {
    var wi := Walk(reg, kids[i], flags + [i == |kids| - 1], n);
    var rest := WalkKids(reg, kids, i + 1, flags, n);
    assert WalkKids(reg, kids, i, flags, n) == wi + rest;
    if i == j {
      off := 0;
      StretchPrefix(wi, rest);
    } else {
      var o := WalkKidsContains(reg, kids, i + 1, j, flags, n);
      off := |wi| + o;
      StretchShift(wi, rest, o, Walk(reg, kids[j], flags + [j == |kids| - 1], n));
    }
  }

  /** The end of every children path from pid is visited, with one flag per link. */
  lemma {:induction false} WalkComplete(reg: Registry, pid: int, flags: seq<bool>, n: nat, ps: seq<int>)
    returns (i: nat)
    requires Finite(reg, pid, n) && Path(reg, ps) && ps != [] && ps[0] == pid
    ensures var w := Walk(reg, pid, flags, n);
      i < |w| && w[i].pid == ps[|ps| - 1] && |w[i].flags| == |flags| + |ps| - 1
    decreases n
  {
    var w := Walk(reg, pid, flags, n);
    var kids := Entry(reg, Some(pid)).children;
    var wk := WalkKids(reg, kids, 0, flags, n - 1);
    assert w == [Visit(pid, flags)] + wk;
    if |ps| == 1 {
      i := 0;
    } else {
      assert ps[1] in kids;
      var j :| 0 <= j < |kids| && kids[j] == ps[1];
      var f := flags + [j == |kids| - 1];
      var wj := Walk(reg, kids[j], f, n - 1);
      var off := WalkKidsContains(reg, kids, 0, j, flags, n - 1);
      StretchShift([Visit(pid, flags)], wk, off, wj);
      PathSlice(reg, ps, 1, |ps|);
      var rest := ps[1..];
      assert rest[0] == ps[1] && rest[|rest| - 1] == ps[|ps| - 1];
      var i' := WalkComplete(reg, kids[j], f, n - 1, rest);
      i := 1 + off + i';
      StretchIndex(w, 1 + off, wj, i');
    }
  }

  // ----- the shape, on any consistent dictionary and on a snapshot -----

  /**
   * The walk from root visits every pid reachable from root through
   * children links, each exactly once, and visits each at a depth (the
   * number of its flags) that is its distance from root along parent links.
   */
  ghost predicate TreeShaped(reg: Registry, root: int, w: seq<Visit>) {
    && DistinctPids(w)
    && (forall i :: 0 <= i < |w| ==> Ancestor(reg, Some(w[i].pid), |w[i].flags|) == Some(root))
    && (forall ps :: Path(reg, ps) && ps != [] && ps[0] == root ==>
          exists i :: 0 <= i < |w| && w[i].pid == ps[|ps| - 1] && |w[i].flags| == |ps| - 1)
  }

  lemma WalkShape(reg: Registry, root: int, n: nat)
    requires Consistent(reg) && Finite(reg, root, n)
    ensures TreeShaped(reg, root, Walk(reg, root, [], n))
  {
    var w := Walk(reg, root, [], n);
    WalkDistinct(reg, root, [], n);
    WalkReaches(reg, root, [], n);
    forall i | 0 <= i < |w|
      ensures Ancestor(reg, Some(w[i].pid), |w[i].flags|) == Some(root)
    {
      var ps :| Path(reg, ps) && |ps| == |w[i].flags| + 1 && ps[0] == root && ps[|ps| - 1] == w[i].pid;
      PathAncestor(reg, ps);
    }
    forall ps | Path(reg, ps) && ps != [] && ps[0] == root
      ensures exists i :: 0 <= i < |w| && w[i].pid == ps[|ps| - 1] && |w[i].flags| == |ps| - 1
    {
      var i := WalkComplete(reg, root, [], n, ps);
    }
  }

  /** For a ps snapshot with each pid once, the printout from pid 1 has that shape. */
  lemma SnapshotShape(output: seq<string>, n: nat)
    requires output != [] && ParseAll(output[1..]).Some?
    requires UniquePids(ParseAll(output[1..]).value)
    requires Finite(Parsed(output).value, 1, n)
    ensures TreeShaped(Parsed(output).value, 1, Walk(Parsed(output).value, 1, [], n))
  {
    BuiltConsistent(ParseAll(output[1..]).value);
    WalkShape(Parsed(output).value, 1, n);
  }
}
