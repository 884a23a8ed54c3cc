/**
 * `proclist`: the display refresh. It remembers the pid of the selected row,
 * clears the table, inserts one row per `procdata` item in insertion order,
 * and re-selects the first row that carries the remembered pid.
 */
module Snapshot {
  import opened Wrappers
  import opened PyDict
  import opened Memory
  import opened ProcessCache

  /** One table row: `(pid, name, rss, vms)`. */
  datatype Row = Row(pid: Pid, name: string, rss: Option<Megabytes>, vms: Option<Megabytes>)

  /** The table after a refresh: its rows, top to bottom, and the index of the selected row, if any. */
  datatype View = View(rows: seq<Row>, selected: Option<nat>)

  /** A view whose selection, if any, is one of its rows, as the widget guarantees. */
  predicate Selectable(v: View) {
    v.selected.Some? ==> v.selected.value < |v.rows|
  }

  /** Line 47: the pid of the selected row, or `None` when nothing is selected. */
  function SelectedPid(v: View): (pid: Option<Pid>)
    requires Selectable(v)
    ensures pid.Some? <==> v.selected.Some?
    ensures pid.Some? ==> pid.value == v.rows[v.selected.value].pid
  {
    match v.selected
    case None => None
    case Some(i) => Some(v.rows[i].pid)
  }

  /** Lines 53-54: one row per cache item, in the cache's insertion order. */
  function Rows(cache: Cache): (rows: seq<Row>)
    ensures |rows| == |cache.order|
    ensures forall i | 0 <= i < |rows| ::
              var pid := cache.order[i];
              && rows[i].pid == pid
              && Record(rows[i].name, rows[i].rss, rows[i].vms) == cache.entries[pid]
  {
    var items := Items(cache);
    seq(|items|, i requires 0 <= i < |items| =>
      Row(items[i].0, items[i].1.name, items[i].1.rss, items[i].1.vms))
  }

  /** Lines 57-60: the index of the first row carrying `pid`, or `None` if no row does. */
  function FirstRowOf(rows: seq<Row>, pid: Pid): (r: Option<nat>)
    ensures r.Some? ==> r.value < |rows| && rows[r.value].pid == pid
    ensures r.Some? ==> forall j | 0 <= j < r.value :: rows[j].pid != pid
    ensures r.None? ==> forall j | 0 <= j < |rows| :: rows[j].pid != pid
    decreases |rows|
  {
    if rows == [] then None
    else if rows[0].pid == pid then Some(0)
    else
      match FirstRowOf(rows[1..], pid)
      case None => None
      case Some(k) => Some(k + 1)
  }

  /**
   * One call of `proclist`, with `previous` the pid line 47 read from the old
   * selection. Tk hands the pid cell back as a non-empty string, so the truth
   * test on line 56 passes whenever a row was selected, pid 0 included.
   */
  function Proclist(cache: Cache, previous: Option<Pid>): (v: View)
    ensures Selectable(v)
    ensures |v.rows| == |cache.order| == |cache.entries|
    ensures forall i | 0 <= i < |v.rows| ::
              && v.rows[i].pid == cache.order[i]
              && Record(v.rows[i].name, v.rows[i].rss, v.rows[i].vms) == cache.entries[cache.order[i]]
    ensures v.selected.Some? <==> previous.Some? && previous.value in cache.entries
    ensures v.selected.Some? ==> v.rows[v.selected.value].pid == previous.value
  {
    var rows := Rows(cache);
    OrderCountsKeys(cache);
    if previous.Some? then
      var r := FirstRowOf(rows, previous.value);
      assert r.None? ==> previous.value !in cache.entries by {
        if r.None? && previous.value in cache.entries {
          RowOfKey(cache, previous.value);
        }
      }
      View(rows, r)
    else View(rows, None)
  }

  /** Every cached pid has a row. */
  lemma RowOfKey(cache: Cache, pid: Pid)
    requires pid in cache.entries
    ensures exists i | 0 <= i < |Rows(cache)| :: Rows(cache)[i].pid == pid
  {
    var rows := Rows(cache);
    assert pid in cache.order;
    var i :| 0 <= i < |cache.order| && cache.order[i] == pid;
    assert rows[i].pid == pid;
  }

  /**
   * The rows list every cache entry exactly once, with its own record, in
   * insertion order: no entry is lost, repeated or altered on the way to the table.
   */
  lemma RowsListEachEntryOnce(cache: Cache, previous: Option<Pid>)
    ensures var rows := Proclist(cache, previous).rows;
      && |rows| == |cache.entries|
      && (forall i | 0 <= i < |rows| :: rows[i].pid == cache.order[i])
      && (forall pid :: pid in cache.entries <==> exists i | 0 <= i < |rows| :: rows[i].pid == pid)
      && (forall i | 0 <= i < |rows| ::
            rows[i].pid in cache.entries
            && cache.entries[rows[i].pid] == Record(rows[i].name, rows[i].rss, rows[i].vms))
      && (forall i, j | 0 <= i < j < |rows| :: rows[i].pid != rows[j].pid)
  {
    var rows := Proclist(cache, previous).rows;
    forall pid
      ensures pid in cache.entries <==> exists i | 0 <= i < |rows| :: rows[i].pid == pid
    {
      if pid in cache.entries {
        RowOfKey(cache, pid);
      }
    }
    forall i, j | 0 <= i < j < |rows|
      ensures rows[i].pid != rows[j].pid
    {
      assert cache.order[i] != cache.order[j];
    }
  }

  /**
   * Selection preservation: after a refresh that selected a row, the next
   * refresh of the same cache, handed that row's pid, selects the same row and
   * produces the same view.
   */
  lemma ReselectIsStable(cache: Cache, previous: Option<Pid>)
    ensures var v := Proclist(cache, previous);
      Proclist(cache, SelectedPid(v)) == v
  {
    var v := Proclist(cache, previous);
    if v.selected.Some? {
      var pid := v.rows[v.selected.value].pid;
      assert pid == previous.value;
    }
  }

  /**
   * The selected row is the row of the remembered pid: a cache lists each pid
   * once, so the first matching row is the only one.
   */
  lemma SelectionIsTheRowOfThePid(cache: Cache, pid: Pid, i: nat)
    requires i < |cache.order| && cache.order[i] == pid
    ensures Proclist(cache, Some(pid)).selected == Some(i)
  {
    forall j | 0 <= j < |cache.order| && j != i
      ensures cache.order[j] != pid
    {
    }
  }
}
