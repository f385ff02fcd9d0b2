/**
 * The processes dictionary of the process-tree script: a defaultdict from
 * pid to {command, children, parent_pid}, filled by the builder loop of the
 * script's main block, one ps record at a time.
 */
module ProcessRegistry {
  import opened Wrappers

  /** One ps line after parsing: parent pid, pid and command name. */
  datatype Record = Record(ppid: int, pid: int, command: string)

  /** One dictionary value; parent is None until a record names the pid. */
  datatype Node = Node(command: string, children: seq<int>, parent: Option<int>)

  /** The value the defaultdict's factory creates for a key not yet seen. */
  const Default: Node := Node("", [], None)

  type Registry = map<int, Node>

  /**
   * processes[k]. Only int keys are ever written, so a None key (the
   * parent_pid of a pid no record names) always reads the default.
   */
  function Entry(reg: Registry, k: Option<int>): Node {
    if k.Some? && k.value in reg then reg[k.value] else Default
  }

  /** One iteration of the builder loop: set command and parent of pid, append pid to ppid's children. */
  function Insert(reg: Registry, r: Record): (reg': Registry)
    ensures reg'.Keys == reg.Keys + {r.pid, r.ppid}
    ensures reg'[r.pid].command == r.command && reg'[r.pid].parent == Some(r.ppid)
    ensures reg'[r.ppid].children == Entry(reg, Some(r.ppid)).children + [r.pid]
    ensures r.pid != r.ppid ==> reg'[r.pid].children == Entry(reg, Some(r.pid)).children
    ensures r.pid != r.ppid ==> reg'[r.ppid].command == Entry(reg, Some(r.ppid)).command
    ensures r.pid != r.ppid ==> reg'[r.ppid].parent == Entry(reg, Some(r.ppid)).parent
    ensures forall k :: k in reg && k != r.pid && k != r.ppid ==> reg'[k] == reg[k]
  {
    var own := Entry(reg, Some(r.pid));
    var reg1 := reg[r.pid := own.(command := r.command, parent := Some(r.ppid))];
    var up := Entry(reg1, Some(r.ppid));
    reg1[r.ppid := up.(children := up.children + [r.pid])]
  }

  // ----- the registry as a function of the whole record list -----

  /** The last record with the given pid, if any. */
  function LastWith(rs: seq<Record>, k: int): (r: Option<Record>)
    ensures r.None? <==> forall i :: 0 <= i < |rs| ==> rs[i].pid != k
    ensures r.Some? ==> exists i :: 0 <= i < |rs| && rs[i] == r.value && r.value.pid == k &&
                                   (forall j :: i < j < |rs| ==> rs[j].pid != k)
  {
    if rs == [] then None
    else if rs[|rs| - 1].pid == k then Some(rs[|rs| - 1])
    else LastWith(rs[..|rs| - 1], k)
  }

  /** The pids of the records naming k as parent, in input order, repeats kept. */
  function ChildrenOf(rs: seq<Record>, k: int): (ch: seq<int>)
    ensures |ch| <= |rs|
    ensures forall c :: c in ch <==> exists i :: 0 <= i < |rs| && rs[i].ppid == k && rs[i].pid == c
  {
    if rs == [] then []
    else
      var r := rs[|rs| - 1];
      assert forall i :: 0 <= i < |rs| - 1 ==> rs[..|rs| - 1][i] == rs[i];
      ChildrenOf(rs[..|rs| - 1], k) + (if r.ppid == k then [r.pid] else [])
  }

  function CommandOf(rs: seq<Record>, k: int): string {
    match LastWith(rs, k)
    case Some(r) => r.command
    case None => ""
  }

  function ParentOf(rs: seq<Record>, k: int): Option<int> {
    match LastWith(rs, k)
    case Some(r) => Some(r.ppid)
    case None => None
  }

  /** Every pid and parent pid mentioned by some record. */
  function Mentioned(rs: seq<Record>): set<int> {
    (set r | r in rs :: r.pid) + (set r | r in rs :: r.ppid)
  }

  /**
   * The dictionary the builder loop leaves behind, stated record-list-wide:
   * one entry per mentioned pid, command and parent from the last record
   * with that pid (or the default when there is none), children from every
   * record naming it as parent.
   */
  ghost function Built(rs: seq<Record>): Registry {
    map k | k in Mentioned(rs) :: Node(CommandOf(rs, k), ChildrenOf(rs, k), ParentOf(rs, k))
  }

  /** Each loop iteration extends the dictionary of the records so far by one record. */
  lemma BuiltSnoc(rs: seq<Record>, r: Record)
    ensures Built(rs + [r]) == Insert(Built(rs), r)
  {
    var a := Built(rs + [r]);
    var b := Insert(Built(rs), r);
    BuiltSnocKeys(rs, r);
    forall k | k in a.Keys
      ensures a[k] == b[k]
    {
      BuiltSnocAt(rs, r, k);
    }
  }

  lemma BuiltSnocKeys(rs: seq<Record>, r: Record)
    ensures Built(rs + [r]).Keys == Insert(Built(rs), r).Keys
  {
    MentionedSnoc(rs, r);
  }

  lemma MentionedSnoc(rs: seq<Record>, r: Record)
    ensures Mentioned(rs + [r]) == Mentioned(rs) + {r.pid, r.ppid}
  {
    var rs' := rs + [r];
    assert r in rs';
    assert forall x :: x in rs' ==> x in rs || x == r;
  }

  lemma BuiltSnocAt(rs: seq<Record>, r: Record, k: int)
    requires k in Mentioned(rs + [r])
    ensures k in Insert(Built(rs), r) && Built(rs + [r])[k] == Insert(Built(rs), r)[k]
  {
    MentionedSnoc(rs, r);
    var rs' := rs + [r];
    LastWithSnoc(rs, r, k);
    ChildrenOfSnoc(rs, r, k);
    BuiltEntry(rs, k);
    var b := Insert(Built(rs), r);
    assert Built(rs')[k] == Node(CommandOf(rs', k), ChildrenOf(rs', k), ParentOf(rs', k));
    if k != r.pid && k != r.ppid {
      assert b[k] == Built(rs)[k];
    } else {
      assert b[k] == Node(b[k].command, b[k].children, b[k].parent);
    }
  }

  lemma LastWithSnoc(rs: seq<Record>, r: Record, k: int)
    ensures LastWith(rs + [r], k) == if r.pid == k then Some(r) else LastWith(rs, k)
  {
    assert (rs + [r])[..|rs|] == rs;
  }

  lemma ChildrenOfSnoc(rs: seq<Record>, r: Record, k: int)
    ensures ChildrenOf(rs + [r], k) == ChildrenOf(rs, k) + (if r.ppid == k then [r.pid] else [])
  {
    assert (rs + [r])[..|rs|] == rs;
  }

  /** Every entry after the builder loop, read through the defaultdict. */
  lemma BuiltEntry(rs: seq<Record>, k: int)
    ensures Entry(Built(rs), Some(k)) == Node(CommandOf(rs, k), ChildrenOf(rs, k), ParentOf(rs, k))
  {
    if k !in Mentioned(rs) {
      assert forall i :: 0 <= i < |rs| ==> rs[i] in rs;
      assert LastWith(rs, k).None?;
      assert ChildrenOf(rs, k) == [] by {
        if ChildrenOf(rs, k) != [] {
          assert ChildrenOf(rs, k)[0] in ChildrenOf(rs, k);
        }
      }
    }
  }

  // ----- consistency of parent and children links -----

  /** No two records share a pid (what ps output of one snapshot gives). */
  predicate UniquePids(rs: seq<Record>) {
    forall i, j :: 0 <= i < |rs| && 0 <= j < |rs| && rs[i].pid == rs[j].pid ==> i == j
  }

  /** No pid occurs twice in the sequence. */
  predicate Distinct(s: seq<int>) {
    forall i, j :: 0 <= i < j < |s| ==> s[i] != s[j]
  }

  /**
   * The dictionary describes a forest: every child listed under p names p
   * as its parent, and no children list repeats a pid.
   */
  predicate Consistent(reg: Registry) {
    && (forall p, c :: p in reg && c in reg[p].children ==> Entry(reg, Some(c)).parent == Some(p))
    && (forall p :: p in reg ==> Distinct(reg[p].children))
  }

  /** With one record per pid, the children lists and parent links agree. */
  lemma BuiltConsistent(rs: seq<Record>)
    requires UniquePids(rs)
    ensures Consistent(Built(rs))
  {
    var reg := Built(rs);
    forall p, c | p in reg && c in reg[p].children
      ensures Entry(reg, Some(c)).parent == Some(p)
    {
      assert c in ChildrenOf(rs, p);
      var i :| 0 <= i < |rs| && rs[i].ppid == p && rs[i].pid == c;
      assert c in Mentioned(rs) by { assert rs[i] in rs; }
      var j :| 0 <= j < |rs| && rs[j] == LastWith(rs, c).value && rs[j].pid == c;
      assert i == j;
    }
    forall p | p in reg
      ensures Distinct(reg[p].children)
    {
      ChildrenDistinct(rs, p);
    }
  }

  lemma {:induction false} ChildrenDistinct(rs: seq<Record>, k: int)
    requires UniquePids(rs)
    ensures Distinct(ChildrenOf(rs, k))
  {
    if rs != [] {
      var front := rs[..|rs| - 1];
      var r := rs[|rs| - 1];
      assert UniquePids(front) by {
        assert forall i :: 0 <= i < |front| ==> front[i] == rs[i];
      }
      ChildrenDistinct(front, k);
      if r.ppid == k {
        assert r.pid !in ChildrenOf(front, k);
      }
    }
  }

  /** A repeated record for a pid keeps both copies in the parent's children. */
  lemma DuplicateKept(rs: seq<Record>, r: Record)
    ensures ChildrenOf(rs + [r, r], r.ppid) == ChildrenOf(rs, r.ppid) + [r.pid, r.pid]
    ensures CommandOf(rs + [r, r], r.pid) == r.command
  {
    var rs1 := rs + [r];
    var rs2 := rs + [r, r];
    assert rs2 == rs1 + [r];
    assert rs2[..|rs2| - 1] == rs1;
    assert rs1[..|rs1| - 1] == rs;
  }
}
