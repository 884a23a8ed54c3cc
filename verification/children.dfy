/**
 * `childproc`: with a row selected, walk a fresh enumeration of
 * `(pid, name, ppid)` and keep, in enumeration order, the processes whose
 * parent is the selected pid. It reads the operating system directly and never
 * touches `procdata`.
 */
module Children {
  import opened Wrappers
  import opened ProcessCache

  /**
   * One item of `psutil.process_iter(['pid', 'name', 'ppid'])`; `ppid` is
   * `None` when psutil could not read it.
   */
  datatype ProcInfo = ProcInfo(pid: Pid, name: string, ppid: Option<Pid>)

  /** What the user is shown. */
  datatype ChildOutcome =
    | NoSelection                               // line 69: the "select a process" warning
    | NoChildren(parent: Pid)                   // line 91: the "no child processes" notice
    | ChildList(parent: Pid, kids: seq<Proc>)   // lines 81-89: a window listing the children

  /** Line 77: `proc` is a child of `parent`. A missing `ppid` equals no pid. */
  predicate IsChildOf(proc: ProcInfo, parent: Pid) {
    proc.ppid == Some(parent)
  }

  /** Reference definition: the children of `parent` in `table`, as `(pid, name)`, in table order. */
  function ChildrenOf(table: seq<ProcInfo>, parent: Pid): (kids: seq<Proc>)
    decreases |table|
  {
    if table == [] then []
    else
      var rest := ChildrenOf(table[1..], parent);
      if IsChildOf(table[0], parent) then [Proc(table[0].pid, table[0].name)] + rest else rest
  }

  /** Lines 73-78: the accumulating loop. */
  method ListChildren(table: seq<ProcInfo>, parent: Pid) returns (kids: seq<Proc>)
    ensures kids == ChildrenOf(table, parent)
  {
    kids := [];
    var i := 0;
    while i < |table|
      invariant i <= |table|
      invariant kids + ChildrenOf(table[i..], parent) == ChildrenOf(table, parent)
      decreases |table| - i
    {
      assert table[i..][1..] == table[i + 1..];
      if IsChildOf(table[i], parent) {
        kids := kids + [Proc(table[i].pid, table[i].name)];
      }
      i := i + 1;
    }
    assert table[i..] == [];
  }

  /** One click of "Child Processes": the selected pid, if any, and a fresh enumeration. */
  method ChildProc(selection: Option<Pid>, table: seq<ProcInfo>) returns (o: ChildOutcome)
    ensures o.NoSelection? <==> selection.None?
    ensures o.NoChildren? <==> selection.Some? && ChildrenOf(table, selection.value) == []
    ensures o.ChildList? ==>
      && o.parent == selection.value
      && o.kids == ChildrenOf(table, selection.value)
      && o.kids != []
    ensures o.NoChildren? ==> o.parent == selection.value
  {
    if selection.None? {
      return NoSelection;
    }
    var parent := selection.value;
    var kids := ListChildren(table, parent);
    if kids != [] {
      o := ChildList(parent, kids);
    } else {
      o := NoChildren(parent);
    }
  }

  /**
   * Exactly the children: a `(pid, name)` pair is listed if and only if some
   * enumerated process with that pid and name has the selected pid as parent.
   */
  lemma {:induction false} ChildrenExactly(table: seq<ProcInfo>, parent: Pid, c: Proc)
    ensures c in ChildrenOf(table, parent) <==>
      exists i | 0 <= i < |table| :: table[i] == ProcInfo(c.pid, c.name, Some(parent))
    decreases |table|
  {
    if table != [] {
      ChildrenExactly(table[1..], parent, c);
      if exists i | 0 <= i < |table[1..]| :: table[1..][i] == ProcInfo(c.pid, c.name, Some(parent)) {
        var i :| 0 <= i < |table[1..]| && table[1..][i] == ProcInfo(c.pid, c.name, Some(parent));
        assert table[i + 1] == ProcInfo(c.pid, c.name, Some(parent));
      }
      if exists i | 0 <= i < |table| :: table[i] == ProcInfo(c.pid, c.name, Some(parent)) {
        var i :| 0 <= i < |table| && table[i] == ProcInfo(c.pid, c.name, Some(parent));
        if i > 0 {
          assert table[1..][i - 1] == table[i];
        }
      }
    }
  }

  /**
   * Enumeration order is kept: the children found in two consecutive stretches
   * of the enumeration are those of the first stretch followed by those of the second.
   */
  lemma {:induction false} ChildrenOfAppend(a: seq<ProcInfo>, b: seq<ProcInfo>, parent: Pid)
    ensures ChildrenOf(a + b, parent) == ChildrenOf(a, parent) + ChildrenOf(b, parent)
    decreases |a|
  {
    if a == [] {
      assert a + b == b;
    } else {
      assert (a + b)[1..] == a[1..] + b;
      ChildrenOfAppend(a[1..], b, parent);
    }
  }

  /**
   * The live-table example: against a table where one process has parent 101
   * and none has parent 202, the children of 101 are exactly that process and
   * 202 has none, which is the ordinary "no child processes" outcome.
   */
  lemma ChildrenScenario()
    ensures var table := [ProcInfo(1, "init", None), ProcInfo(101, "alpha", Some(1)),
                          ProcInfo(303, "gamma", Some(101)), ProcInfo(202, "beta", Some(1))];
      && ChildrenOf(table, 101) == [Proc(303, "gamma")]
      && ChildrenOf(table, 202) == []
  {
    var table := [ProcInfo(1, "init", None), ProcInfo(101, "alpha", Some(1)),
                  ProcInfo(303, "gamma", Some(101)), ProcInfo(202, "beta", Some(1))];
    assert table[1..][1..][1..][1..] == [];
  }
}
