/**
 * `ooo.oshi.software.os.mac.MacOperatingSystem`: lists every pid with
 * `proc_listpids`, builds a process object for each distinct one and keeps
 * those whose first update succeeded.
 */
module MacOperatingSystem {
  import opened Wrappers
  import opened JavaInt
  import opened Process
  import opened Streams
  import OS = OperatingSystem
  import opened MacProcess

  /** Bytes per pid in the buffer `proc_listpids` fills. */
  const INT_SIZE: int := 4

  const NEGATIVE_ARRAY_SIZE: string := "java.lang.NegativeArraySizeException"

  /**
   * The kernel's answers to the two `proc_listpids` calls: the byte count
   * the sizing call returns, and the pids the filling call would write given
   * room enough.
   */
  datatype PidListing = PidListing(sizeBytes: Int32, listed: seq<Int32>)

  /**
   * The pid array after the filling call: a zeroed array of `n` slots whose
   * leading slots the kernel overwrote with as many listed pids as fit.
   */
  function PidBuffer(n: nat, listed: seq<Int32>): (r: seq<Int32>)
    ensures |r| == n
    ensures forall i :: 0 <= i < n ==> r[i] == if i < |listed| then listed[i] else 0
  {
    seq(n, i requires 0 <= i < n => if i < |listed| then listed[i] else 0)
  }

  /**
   * `getProcess(pid)` as a value: the snapshot of a freshly built process,
   * or `None` (null) when its first update left it `INVALID`.
   */
  function Resolve(pid: Int32, p: Probe, major: Int32, minor: Int32): (r: Option<Snapshot>)
    ensures r.None? <==> p.taskInfoResult < 0 || p.taskInfo.threadNum == 0
    ensures r.Some? ==> r.value.pid == pid && r.value.attrs.state != INVALID
  {
    DeriveFailsFast(INITIAL_ATTRIBUTES, p, major, minor);
    var a := Derive(INITIAL_ATTRIBUTES, p, major, minor).0;
    if a.state == INVALID then None else Some(Snapshot(pid, a))
  }

  /** `queryAllProcesses()` as a value; the error is the exception the array allocation throws. */
  function QueryAll(listing: PidListing, probes: Int32 -> Probe, major: Int32, minor: Int32)
    : Result<seq<Snapshot>, string>
  {
    var n := Div(listing.sizeBytes, INT_SIZE);
    if n < 0 then Failure(NEGATIVE_ARRAY_SIZE)
    else Success(OS.GetProcessesByPids(PidBuffer(n, listing.listed), (q: Int32) => Resolve(q, probes(q), major, minor)))
  }

  /**
   * The query throws only for a sizing answer of -4 or less (an error
   * answer of -1 truncates to an empty array); otherwise it returns at most
   * one valid process per pid slot, no pid twice, and each returned pid is
   * a listed pid that fit, or the 0 of an unfilled slot.
   */
  lemma QueryAllContents(listing: PidListing, probes: Int32 -> Probe, major: Int32, minor: Int32)
    ensures QueryAll(listing, probes, major, minor).Failure? <==> listing.sizeBytes <= -INT_SIZE
    ensures var r := QueryAll(listing, probes, major, minor);
      var n := Div(listing.sizeBytes, INT_SIZE);
      r.Success? ==>
        |r.value| <= n &&
        (forall i :: 0 <= i < |r.value| ==> r.value[i].attrs.state != INVALID) &&
        (forall i, j :: 0 <= i < j < |r.value| ==> r.value[i].pid != r.value[j].pid) &&
        (forall i :: 0 <= i < |r.value| ==>
           r.value[i].pid in listing.listed[..if n < |listing.listed| then n else |listing.listed|] ||
           (r.value[i].pid == 0 && n > |listing.listed|))
  {
    var n := Div(listing.sizeBytes, INT_SIZE);
    if n >= 0 {
      var resolve := (q: Int32) => Resolve(q, probes(q), major, minor);
      forall q ensures resolve(q).Some? ==> resolve(q).value.pid == q {
        assert resolve(q) == Resolve(q, probes(q), major, minor);
      }
      ListedProcesses(n, listing.listed, resolve);
    }
  }

  /**
   * `queryAllProcesses` keeps the order of the pid array: the pids of its
   * result are the first occurrences in that array, some dropped.
   */
  lemma QueryAllInOrder(listing: PidListing, probes: Int32 -> Probe, major: Int32, minor: Int32)
    ensures var r := QueryAll(listing, probes, major, minor);
      var n := Div(listing.sizeBytes, INT_SIZE);
      r.Success? ==> n >= 0 && Subsequence(OS.PidsOf(r.value), Distinct(PidBuffer(n, listing.listed)))
  {
    var n := Div(listing.sizeBytes, INT_SIZE);
    if n >= 0 {
      var resolve := (q: Int32) => Resolve(q, probes(q), major, minor);
      forall q ensures resolve(q).Some? ==> resolve(q).value.pid == q {
        assert resolve(q) == Resolve(q, probes(q), major, minor);
      }
      OS.GetProcessesByPidsInOrder(PidBuffer(n, listing.listed), resolve);
    }
  }

  lemma ListedProcesses(n: nat, listed: seq<Int32>, resolve: Int32 -> Option<Snapshot>)
    requires forall q :: resolve(q).Some? ==> resolve(q).value.pid == q
    ensures var r := OS.GetProcessesByPids(PidBuffer(n, listed), resolve);
      var m := if n < |listed| then n else |listed|;
      |r| <= n &&
      (forall i :: 0 <= i < |r| ==> r[i].attrs.state != INVALID) &&
      (forall i, j :: 0 <= i < j < |r| ==> r[i].pid != r[j].pid) &&
      (forall i :: 0 <= i < |r| ==> r[i].pid in listed[..m] || (r[i].pid == 0 && n > |listed|))
  {
    var buf := PidBuffer(n, listed);
    var r := OS.GetProcessesByPids(buf, resolve);
    var m := if n < |listed| then n else |listed|;
    OS.GetProcessesByPidsDistinct(buf, resolve);
    forall i | 0 <= i < |r|
      ensures r[i].attrs.state != INVALID
      ensures r[i].pid in listed[..m] || (r[i].pid == 0 && n > |listed|)
    {
      OS.GetProcessesByPidsContents(buf, resolve, r[i]);
      var q :| q in buf && resolve(q) == Some(r[i]);
      var k :| 0 <= k < n && buf[k] == q;
      if k < m {
        assert listed[..m][k] == q;
      }
    }
  }

  /** `getProcesses(filter, sort, limit)` on this platform, as a value. */
  function GetProcessesOf(listing: PidListing, probes: Int32 -> Probe, major: Int32, minor: Int32,
                          filter: Option<Snapshot -> bool>, sort: Option<OS.Order>, limit: Int32)
    : Result<seq<Snapshot>, string>
  {
    var all := QueryAll(listing, probes, major, minor);
    if all.Failure? then Failure(all.error) else Success(OS.GetProcesses(all.value, filter, sort, limit))
  }

  class MacOperatingSystem {
    const major: Int32
    const minor: Int32

    /** The OS version, parsed once when the facade is built. */
    constructor (major: Int32, minor: Int32)
      ensures this.major == major && this.minor == minor
    {
      this.major := major;
      this.minor := minor;
    }

    /** `getProcess(pid)`: a new process object, or null when it is `INVALID` after its first update. */
    method GetProcess(pid: Int32, p: Probe) returns (proc: MacOSProcess?)
      ensures proc == null <==> Resolve(pid, p, major, minor).None?
      ensures proc != null ==> fresh(proc) && proc.Valid() && proc.Snap() == Resolve(pid, p, major, minor).value
    {
      var created := new MacOSProcess(pid, major, minor, p);
      DeriveFailsFast(INITIAL_ATTRIBUTES, p, major, minor);
      if created.attrs.state == INVALID {
        proc := null;
      } else {
        proc := created;
      }
    }

    /** The pid array: zeroed, then the leading slots filled from the kernel's list. */
    static method ListPids(n: nat, listed: seq<Int32>) returns (pids: array<Int32>)
      ensures fresh(pids) && pids[..] == PidBuffer(n, listed)
    {
      pids := new Int32[n](_ => 0);
      var k := 0;
      while k < n && k < |listed|
        invariant 0 <= k <= n
        invariant k <= |listed|
        invariant forall i :: 0 <= i < k ==> pids[i] == listed[i]
        invariant forall i :: k <= i < n ==> pids[i] == 0
      {
        pids[k] := listed[k];
        k := k + 1;
      }
    }

    /**
     * `queryAllProcesses()`: sizes and fills the pid array, then builds a
     * process object for each distinct pid in turn and keeps the valid ones.
     */
    method QueryAllProcesses(listing: PidListing, probes: Int32 -> Probe)
      returns (r: Result<seq<Snapshot>, string>)
      ensures r == QueryAll(listing, probes, major, minor)
    {
      var n := Div(listing.sizeBytes, INT_SIZE);
      if n < 0 {
        return Failure(NEGATIVE_ARRAY_SIZE);
      }
      var pids := ListPids(n, listing.listed);
      r := Success(OS.GetProcessesByPids(pids[..], (q: Int32) => Resolve(q, probes(q), major, minor)));
    }

    /** `getProcesses(filter, sort, limit)`: the stream over `queryAllProcesses()`. */
    method GetProcesses(listing: PidListing, probes: Int32 -> Probe,
                        filter: Option<Snapshot -> bool>, sort: Option<OS.Order>, limit: Int32)
      returns (r: Result<seq<Snapshot>, string>)
      ensures r == GetProcessesOf(listing, probes, major, minor, filter, sort, limit)
    {
      var all := QueryAllProcesses(listing, probes);
      if all.Failure? {
        return Failure(all.error);
      }
      r := Success(OS.GetProcesses(all.value, filter, sort, limit));
    }
  }
}
