/**
 * `meminfo(pid)`: one process's resident and virtual memory. The operating
 * system's answer is an input, so the query itself is a value.
 */
module Memory {
  import opened Wrappers

  /** What `psutil.Process(pid).memory_info()` does for one pid. */
  datatype MemQuery =
    | Usage(rssBytes: nat, vmsBytes: nat) // the two byte counts
    | NoSuchProcess                        // `psutil.NoSuchProcess` (and its subclass `ZombieProcess`)
    | AccessDenied                         // `psutil.AccessDenied`, which `meminfo` does not catch

  /**
   * A memory figure in megabytes, `bytes / (1024 * 1024)`, kept as the byte
   * count it is computed from.
   */
  datatype Megabytes = Megabytes(bytes: nat)

  /** The `(rss_memory, vms_memory)` pair `meminfo` returns; `None` is Python's `None`. */
  datatype Figures = Figures(rss: Option<Megabytes>, vms: Option<Megabytes>)

  /**
   * `meminfo`: both figures when the query answers, `(None, None)` when the
   * process is gone, and any other exception escapes to the caller.
   */
  function MemInfo(q: MemQuery): (r: Result<Figures, MemQuery>)
    ensures r.Failure? <==> q.AccessDenied?
    ensures r.Failure? ==> r.error == q
    ensures r.Success? ==> (r.value.rss.Some? <==> r.value.vms.Some?)
    ensures r.Success? ==> (r.value.rss.Some? <==> q.Usage?)
    ensures r.Success? && q.Usage? ==>
              r.value.rss.value.bytes == q.rssBytes && r.value.vms.value.bytes == q.vmsBytes
  {
    match q
    case Usage(rss, vms) => Success(Figures(Some(Megabytes(rss)), Some(Megabytes(vms))))
    case NoSuchProcess => Success(Figures(None, None))
    case AccessDenied => Failure(q)
  }
}
