/**
 * `MacOSProcess`: how the kernel's answers about one pid become the
 * attributes of a process object (`updateAttributes`), the affinity mask,
 * and the memoized argument, environment and command-line queries.
 *
 * Every native call is an input: a `Probe` holds what `proc_pidinfo`,
 * `proc_pidpath`, `getpwuid`, `getgrgid` and `proc_pid_rusage` answer for
 * the pid, together with the wall-clock reading taken on entry. The
 * `proc_taskallinfo` record is given with its fields already decoded.
 */
module MacProcess {
  import opened Wrappers
  import opened JavaInt
  import opened Bytes
  import opened ProcArgs
  import opened Process
  import opened Memoizer

  /** The `pbi_flags` bit of a 64-bit process. */
  const P_LP64: int := 0x4

  /** The `pbi_status` codes of the BSD process states. */
  const SSLEEP: int := 1
  const SWAIT: int := 2
  const SRUN: int := 3
  const SIDL: int := 4
  const SZOMB: int := 5
  const SSTOP: int := 6

  /** The length of the `pbi_comm` name field. */
  const MAXCOMLEN: nat := 16

  const MICROS_PER_MILLI: int := 1000
  const MILLIS_PER_SECOND: int := 1000

  /** The fields of `proc_taskallinfo` that are read, with their Java types. */
  datatype TaskAllInfo = TaskAllInfo(
    threadNum: Int32,
    comm: seq<Byte>,
    status: Int32,
    ppid: Int32,
    uid: Int32,
    gid: Int32,
    startSec: Int64,
    startUsec: Int64,
    nfiles: Int32,
    flags: Int32,
    priority: Int32,
    virtualSize: Int64,
    residentSize: Int64,
    totalSystem: Int64,
    totalUser: Int64,
    pageins: Int32,
    faults: Int32,
    csw: Int32)

  /**
   * The kernel's answers for one pid. Each `...Result` is the return code of
   * the call; the field after it is what the call wrote. `passwd` and
   * `groups` are `getpwuid` and `getgrgid`, `None` standing for a null entry.
   */
  datatype Probe = Probe(
    now: Int64,
    taskInfoResult: Int32,
    taskInfo: TaskAllInfo,
    pathResult: Int32,
    path: Str,
    passwd: Int32 -> Option<Str>,
    groups: Int32 -> Option<Str>,
    rusageResult: Int32,
    diskRead: Int64,
    diskWritten: Int64,
    vnodeResult: Int32,
    cwd: Str)

  /** The status switch: the six BSD codes map to their states, any other code to `OTHER`. */
  function StateOf(status: Int32): (s: State)
    ensures s != INVALID
    ensures s == OTHER <==> !(SSLEEP <= status <= SSTOP)
    ensures s != OTHER ==> StatusCode(s) == Some(status)
  {
    if status == SSLEEP then SLEEPING
    else if status == SWAIT then WAITING
    else if status == SRUN then RUNNING
    else if status == SIDL then NEW
    else if status == SZOMB then ZOMBIE
    else if status == SSTOP then STOPPED
    else OTHER
  }

  /** The BSD code of a state, for the six states that have one. */
  function StatusCode(s: State): Option<Int32>
  {
    match s
    case SLEEPING => Some(SSLEEP)
    case WAITING => Some(SWAIT)
    case RUNNING => Some(SRUN)
    case NEW => Some(SIDL)
    case ZOMBIE => Some(SZOMB)
    case STOPPED => Some(SSTOP)
    case _ => None
  }

  /** Every state with a code is what that code maps to, so no two codes share a state. */
  lemma StatusCodeRoundTrip(s: State)
    ensures StatusCode(s).Some? ==> StateOf(StatusCode(s).value) == s
    ensures StatusCode(s).None? <==> s == OTHER || s == INVALID
  {
  }

  /**
   * The name held in `pbi_comm`: the bytes before the first NUL among the
   * first `MAXCOMLEN`.
   */
  function CommName(comm: seq<Byte>): (r: Str)
    ensures |r| <= MAXCOMLEN && |r| <= |comm| && r == comm[..|r|]
    ensures NUL !in r
    ensures |r| < |comm| && |r| < MAXCOMLEN ==> comm[|r|] == NUL
  {
    var field := if |comm| <= MAXCOMLEN then comm else comm[..MAXCOMLEN];
    var i := IndexOf(field, NUL);
    if i == -1 then field else field[..i]
  }

  /** The name after a successful `proc_pidpath`: the last piece of `path.split("/")`, if there is one. */
  function NameAfterPath(name: Str, path: Str): Str
  {
    var pathSplit := JavaSplit(path, SLASH);
    if |pathSplit| > 0 then pathSplit[|pathSplit| - 1] else name
  }

  /**
   * A path with a byte other than '/' names the process by its last
   * segment, however many slashes end it; a path of slashes only leaves the
   * name as it was; the empty path gives the empty name.
   */
  lemma NameAfterPathSegments(name: Str, path: Str)
    ensures (exists k :: 0 <= k < |path| && path[k] != SLASH) ==>
      var r := NameAfterPath(name, path);
      r != [] && SLASH !in r && LastRunIs(path, r, TrailingCount(path, SLASH), SLASH)
    ensures path != [] && (forall k :: 0 <= k < |path| ==> path[k] == SLASH) ==> NameAfterPath(name, path) == name
    ensures path == [] ==> NameAfterPath(name, path) == []
  {
    if exists k :: 0 <= k < |path| && path[k] != SLASH {
      NameIsLastSegment(name, path);
    } else if path != [] {
      JavaSplitOfSeparators(path, SLASH);
    }
  }

  lemma NameIsLastSegment(name: Str, path: Str)
    requires exists k :: 0 <= k < |path| && path[k] != SLASH
    ensures var r := NameAfterPath(name, path);
      r != [] && SLASH !in r && LastRunIs(path, r, TrailingCount(path, SLASH), SLASH)
  {
    LastPieceOfJavaSplit(path, SLASH);
    var parts := JavaSplit(path, SLASH);
    var r := parts[|parts| - 1];
    assert NameAfterPath(name, path) == r;
  }

  /** `(flags & P_LP64) == 0 ? 32 : 64` on the 32-bit pattern of `flags`. */
  function Bitness(flags: Int32): Int32
  {
    if (flags % TWO_32) / P_LP64 % 2 == 0 then 32 else 64
  }

  /** The bitness is 64 exactly when bit 2 (`P_LP64`) of the flags is set, and 32 otherwise. */
  lemma BitnessIsFlagBit(flags: Int32)
    ensures Bitness(flags) == 32 || Bitness(flags) == 64
    ensures Bitness(flags) == 64 <==> Bit(flags % TWO_32, 2)
  {
    var x: nat := flags % TWO_32;
    assert x / 2 / 2 == x / 4;
    assert Bit(x, 2) == Bit(x / 2 / 2, 0);
  }

  /** The start time in epoch milliseconds: `sec * 1000 + usec / 1000` in `long` arithmetic. */
  function StartTime(sec: Int64, usec: Int64): Int64
  {
    Wrap64(Wrap64(sec * MILLIS_PER_SECOND) + Div(usec, MICROS_PER_MILLI))
  }

  /**
   * When nothing overflows, the start time is the (sec, usec) timestamp
   * truncated to whole milliseconds.
   */
  lemma StartTimeTruncatesToMillis(sec: Int64, usec: Int64)
    requires 0 <= usec && 0 <= sec * 1_000_000 + usec < TWO_63
    ensures StartTime(sec, usec) * 1000 <= sec * 1_000_000 + usec < StartTime(sec, usec) * 1000 + 1000
  {
    var q := Div(usec, MICROS_PER_MILLI);
    assert q * 1000 <= usec < q * 1000 + 1000;
    assert 0 <= sec * 1000 + q < TWO_63;
    if sec < 0 {
      assert sec * 1000 >= -TWO_63;
    }
  }

  /**
   * The name after an update with the answers `p`: the path's last segment
   * when `proc_pidpath` succeeds and yields one, then the `pbi_comm` name
   * if the name is still empty.
   */
  function UpdatedName(name: Str, p: Probe): Str
  {
    var named := if p.pathResult > 0 then NameAfterPath(name, p.path) else name;
    if named == [] then CommName(p.taskInfo.comm) else named
  }

  /** Whether the rusage call is made: macOS 10.9 or later, as the source tests the version. */
  predicate DiskCountersAvailable(majorVersion: Int32, minorVersion: Int32)
  {
    majorVersion > 10 || minorVersion >= 9
  }

  /** The path and the name a successful update gives. */
  function WithPathAndName(a: Attributes, p: Probe): Attributes
  {
    a.(path := if p.pathResult > 0 then p.path else a.path, name := UpdatedName(a.name, p))
  }

  /** The state, the parent and the owner a successful update gives. */
  function WithStateAndOwner(a: Attributes, p: Probe): Attributes
  {
    var t := p.taskInfo;
    a.(state := StateOf(t.status),
       parentProcessID := t.ppid,
       userID := Some(IntToString(t.uid)),
       user := if p.passwd(t.uid).Some? then p.passwd(t.uid) else a.user,
       groupID := Some(IntToString(t.gid)),
       group := if p.groups(t.gid).Some? then p.groups(t.gid) else a.group)
  }

  /** The sizes, times, bitness and counters a successful update gives. */
  function WithCounters(a: Attributes, p: Probe): Attributes
  {
    var t := p.taskInfo;
    var start := StartTime(t.startSec, t.startUsec);
    a.(priority := t.priority,
       virtualSize := t.virtualSize,
       residentSetSize := t.residentSize,
       kernelTime := Div(t.totalSystem, NANOS_PER_MILLI),
       userTime := Div(t.totalUser, NANOS_PER_MILLI),
       startTime := start,
       upTime := Wrap64(p.now as int - start as int),
       openFiles := t.nfiles,
       bitness := Bitness(t.flags),
       majorFaults := t.pageins,
       minorFaults := t.faults as int - t.pageins as int,
       contextSwitches := t.csw)
  }

  /** The disk counters and working directory a successful update gives. */
  function WithDiskAndCwd(a: Attributes, p: Probe, majorVersion: Int32, minorVersion: Int32): Attributes
  {
    var disk := DiskCountersAvailable(majorVersion, minorVersion) && p.rusageResult == 0;
    a.(bytesRead := if disk then p.diskRead else a.bytesRead,
       bytesWritten := if disk then p.diskWritten else a.bytesWritten,
       currentWorkingDirectory := if p.vnodeResult > 0 then Some(p.cwd) else a.currentWorkingDirectory)
  }

  /** Every field a successful `updateAttributes` assigns, in the source's order, from the previous attributes `a`. */
  function Fill(a: Attributes, p: Probe, majorVersion: Int32, minorVersion: Int32): Attributes
  {
    var counted := a.(threadCount := p.taskInfo.threadNum);
    WithDiskAndCwd(WithCounters(WithStateAndOwner(WithPathAndName(counted, p), p), p), p, majorVersion, minorVersion)
  }

  /**
   * `updateAttributes` on a process whose fields are `a`: the new fields and
   * the returned flag.
   */
  function Derive(a: Attributes, p: Probe, majorVersion: Int32, minorVersion: Int32): (Attributes, bool)
  {
    if p.taskInfoResult < 0 then (a.(state := INVALID), false)
    else if p.taskInfo.threadNum == 0 then (a.(threadCount := 0, state := INVALID), false)
    else (Fill(a, p, majorVersion, minorVersion), true)
  }

  /**
   * The update fails exactly on a negative task-info answer or a thread
   * count of 0 (an answer of 0 is not a failure); a failure marks the
   * process `INVALID` and changes nothing else but the thread count it read,
   * and a success never leaves the process `INVALID`.
   */
  lemma DeriveFailsFast(a: Attributes, p: Probe, majorVersion: Int32, minorVersion: Int32)
    ensures var (r, ok) := Derive(a, p, majorVersion, minorVersion);
      (ok <==> p.taskInfoResult >= 0 && p.taskInfo.threadNum != 0) &&
      (ok <==> r.state != INVALID) &&
      (p.taskInfoResult < 0 ==> r == a.(state := INVALID)) &&
      (p.taskInfoResult >= 0 && p.taskInfo.threadNum == 0 ==> r == a.(threadCount := 0, state := INVALID))
  {
  }

  /**
   * On success the state follows the status code, the identities are the
   * decimal texts of uid and gid (which parse back to them), and a user or
   * group name is replaced only when the lookup finds one.
   */
  lemma DeriveStateAndOwner(a: Attributes, p: Probe, majorVersion: Int32, minorVersion: Int32)
    requires Derive(a, p, majorVersion, minorVersion).1
    ensures var r := Derive(a, p, majorVersion, minorVersion).0;
      var t := p.taskInfo;
      (SSLEEP <= t.status <= SSTOP ==> StatusCode(r.state) == Some(t.status)) &&
      (!(SSLEEP <= t.status <= SSTOP) ==> r.state == OTHER) &&
      r.userID.Some? && ParseInt(r.userID.value) == t.uid &&
      r.groupID.Some? && ParseInt(r.groupID.value) == t.gid &&
      (p.passwd(t.uid).None? ==> r.user == a.user) &&
      (p.passwd(t.uid).Some? ==> r.user == p.passwd(t.uid)) &&
      (p.groups(t.gid).None? ==> r.group == a.group) &&
      (p.groups(t.gid).Some? ==> r.group == p.groups(t.gid))
  {
    IntToStringRoundTrip(p.taskInfo.uid);
    IntToStringRoundTrip(p.taskInfo.gid);
  }

  /**
   * On success the name is the last segment of a path the kernel returned
   * when it has one; otherwise it is the old name, or the `pbi_comm` name
   * when that is empty (as it is for an empty path).
   */
  lemma DeriveName(a: Attributes, p: Probe, majorVersion: Int32, minorVersion: Int32)
    requires Derive(a, p, majorVersion, minorVersion).1
    ensures var r := Derive(a, p, majorVersion, minorVersion).0;
      (p.pathResult > 0 ==> r.path == p.path) && (p.pathResult <= 0 ==> r.path == a.path) &&
      (p.pathResult > 0 && (exists k :: 0 <= k < |p.path| && p.path[k] != SLASH) ==>
        r.name != [] && LastRunIs(p.path, r.name, TrailingCount(p.path, SLASH), SLASH)) &&
      (p.pathResult <= 0 || (p.path != [] && forall k :: 0 <= k < |p.path| ==> p.path[k] == SLASH) ==>
        r.name == if a.name == [] then CommName(p.taskInfo.comm) else a.name) &&
      (p.pathResult > 0 && p.path == [] ==> r.name == CommName(p.taskInfo.comm))
  {
    var r := Derive(a, p, majorVersion, minorVersion).0;
    assert r.name == UpdatedName(a.name, p);
    assert r.path == if p.pathResult > 0 then p.path else a.path;
    UpdatedNameCases(a.name, p);
  }

  /** The three ways `UpdatedName` can go: a path segment, the old name, or the `pbi_comm` name. */
  lemma UpdatedNameCases(name: Str, p: Probe)
    ensures p.pathResult > 0 && (exists k :: 0 <= k < |p.path| && p.path[k] != SLASH) ==>
      UpdatedName(name, p) != [] && LastRunIs(p.path, UpdatedName(name, p), TrailingCount(p.path, SLASH), SLASH)
    ensures p.pathResult <= 0 || (p.path != [] && forall k :: 0 <= k < |p.path| ==> p.path[k] == SLASH) ==>
      UpdatedName(name, p) == if name == [] then CommName(p.taskInfo.comm) else name
    ensures p.pathResult > 0 && p.path == [] ==> UpdatedName(name, p) == CommName(p.taskInfo.comm)
  {
    if p.pathResult > 0 {
      var named := NameAfterPath(name, p.path);
      assert UpdatedName(name, p) == if named == [] then CommName(p.taskInfo.comm) else named;
      NameAfterPathSegments(name, p.path);
    }
  }

  /**
   * On success the times are whole milliseconds of the kernel's
   * nanoseconds, the up time added to the start time is the clock reading
   * (modulo 2^64), the bitness follows `P_LP64`, and the faults split into
   * major (page-ins) and minor faults that add up to the total.
   */
  lemma DeriveConversions(a: Attributes, p: Probe, majorVersion: Int32, minorVersion: Int32)
    requires Derive(a, p, majorVersion, minorVersion).1
    ensures var r := Derive(a, p, majorVersion, minorVersion).0;
      var t := p.taskInfo;
      (t.totalSystem >= 0 ==> r.kernelTime * NANOS_PER_MILLI <= t.totalSystem < (r.kernelTime + 1) * NANOS_PER_MILLI) &&
      (t.totalUser >= 0 ==> r.userTime * NANOS_PER_MILLI <= t.totalUser < (r.userTime + 1) * NANOS_PER_MILLI) &&
      (r.upTime + r.startTime - p.now) % TWO_64 == 0 &&
      (-TWO_63 <= p.now - r.startTime < TWO_63 ==> r.upTime == p.now - r.startTime) &&
      (r.bitness == 64 <==> Bit(t.flags % TWO_32, 2)) && (r.bitness == 32 || r.bitness == 64) &&
      r.majorFaults == t.pageins && r.minorFaults + r.majorFaults == t.faults &&
      r.openFiles == t.nfiles && r.contextSwitches == t.csw
  {
    BitnessIsFlagBit(p.taskInfo.flags);
  }

  /**
   * The disk counters are replaced only on macOS 10.9 or later and when the
   * rusage call succeeds; otherwise they keep their previous values.
   */
  lemma DeriveDiskCounters(a: Attributes, p: Probe, majorVersion: Int32, minorVersion: Int32)
    requires Derive(a, p, majorVersion, minorVersion).1
    ensures var r := Derive(a, p, majorVersion, minorVersion).0;
      ((majorVersion > 10 || minorVersion >= 9) && p.rusageResult == 0 ==>
        r.bytesRead == p.diskRead && r.bytesWritten == p.diskWritten) &&
      (!(majorVersion > 10 || minorVersion >= 9) || p.rusageResult != 0 ==>
        r.bytesRead == a.bytesRead && r.bytesWritten == a.bytesWritten) &&
      (p.vnodeResult > 0 ==> r.currentWorkingDirectory == Some(p.cwd)) &&
      (p.vnodeResult <= 0 ==> r.currentWorkingDirectory == a.currentWorkingDirectory)
  {
  }

  /**
   * `getAffinityMask()` for the `hw.logicalcpu` answer `n`: `(1L << n) - 1`
   * when `n < 64` (the shift distance taken modulo 64), otherwise -1.
   */
  function AffinityMask(n: Int32): Int64
  {
    if n < 64 then Wrap64(Wrap64(Pow2(n % 64)) - 1) else -1
  }

  /**
   * For 0 <= n < 64 the mask has exactly its n lowest bits set; from 64
   * processors on, all 64 bits are set.
   */
  lemma AffinityMaskBits(n: Int32, i: nat)
    requires n >= 0
    ensures n < 64 ==> AffinityMask(n) == Pow2(n) - 1 && (Bit(Unsigned64(AffinityMask(n)), i) <==> i < n)
    ensures n >= 64 ==> Unsigned64(AffinityMask(n)) == TWO_64 - 1 && (Bit(Unsigned64(AffinityMask(n)), i) <==> i < 64)
  {
    if n < 64 {
      AffinityMaskBelow64(n);
      LowBitsMask(n, i);
    } else {
      Pow2Widths();
      assert Unsigned64(AffinityMask(n)) == Pow2(64) - 1;
      LowBitsMask(64, i);
    }
  }

  lemma AffinityMaskBelow64(n: Int32)
    requires 0 <= n < 64
    ensures AffinityMask(n) == Pow2(n) - 1 && Unsigned64(AffinityMask(n)) == Pow2(n) - 1
  {
    ShiftDistance(n);
    var p := Pow2(n);
    assert AffinityMask(n) == Wrap64(Wrap64(p) - 1);
    Pow2Widths();
    if n == 63 {
      // 1L << 63 is Long.MIN_VALUE, and subtracting one wraps round to Long.MAX_VALUE.
      WrapAroundLongMin();
    } else {
      Pow2Monotone(n, 62);
      assert Pow2(63) == 2 * Pow2(62);
      assert Wrap64(p) == p;
    }
  }

  /** A shift distance below 64 is taken as it is. */
  lemma ShiftDistance(n: int)
    requires 0 <= n < 64
    ensures n % 64 == n
  {
  }

  /**
   * A process object. Its id, the OS version it was built for and its two
   * memoized suppliers are fixed; the attribute fields that
   * `updateAttributes` assigns are held together in `attrs`.
   */
  class MacOSProcess {
    const pid: Int32
    const majorVersion: Int32
    const minorVersion: Int32
    const commandLine: ExpiringMemoizer<Str>
    const argsEnviron: ExpiringMemoizer<(seq<Str>, Env)>
    var attrs: Attributes

    /** What the getters answer while a process list is filtered and sorted. */
    function Snap(): Snapshot
      reads this
    {
      Snapshot(pid, attrs)
    }

    /**
     * Both suppliers keep their first value forever, and a command line once
     * computed is the trimmed join of the arguments that are kept.
     */
    ghost predicate Valid()
      reads commandLine, argsEnviron
    {
      commandLine as object != argsEnviron as object &&
      commandLine.Valid() && commandLine.ttlNanos < 0 &&
      argsEnviron.Valid() && argsEnviron.ttlNanos < 0 &&
      (commandLine.value.Some? ==>
        argsEnviron.value.Some? && commandLine.value.value == QueryCommandLine(argsEnviron.value.value.0))
    }

    /** `new MacOSProcess(pid, major, minor)`: the field initialisers, then `updateAttributes()`. */
    constructor (pid: Int32, major: Int32, minor: Int32, p: Probe)
      ensures this.pid == pid && majorVersion == major && minorVersion == minor
      ensures attrs == Derive(INITIAL_ATTRIBUTES, p, major, minor).0
      ensures Valid() && fresh(commandLine) && fresh(argsEnviron)
      ensures commandLine.value.None? && argsEnviron.value.None?
    {
      this.pid := pid;
      majorVersion := major;
      minorVersion := minor;
      commandLine := new ExpiringMemoizer.MemoizeForever();
      argsEnviron := new ExpiringMemoizer.MemoizeForever();
      attrs := INITIAL_ATTRIBUTES;
      new;
      var _ := UpdateAttributes(p);
    }

    /** `updateAttributes()` with the kernel's answers `p`. */
    method UpdateAttributes(p: Probe) returns (ok: bool)
      modifies this
      ensures (attrs, ok) == Derive(old(attrs), p, majorVersion, minorVersion)
    {
      var now := p.now;
      if 0 > p.taskInfoResult {
        attrs := attrs.(state := INVALID);
        return false;
      }
      var t := p.taskInfo;
      attrs := attrs.(threadCount := t.threadNum);
      if 0 == attrs.threadCount {
        attrs := attrs.(state := INVALID);
        return false;
      }
      SetPathAndName(p);
      SetStateAndOwner(p);
      SetCounters(p);
      SetDiskAndCwd(p);
      return true;
    }

    /** Lines 393-405 of `updateAttributes`: the path, and the name taken from it or from `pbi_comm`. */
    method SetPathAndName(p: Probe)
      modifies this
      ensures attrs == WithPathAndName(old(attrs), p)
    {
      if 0 < p.pathResult {
        attrs := attrs.(path := p.path);
        var pathSplit := JavaSplit(attrs.path, SLASH);
        if |pathSplit| > 0 {
          attrs := attrs.(name := pathSplit[|pathSplit| - 1]);
        }
      }
      if attrs.name == [] {
        attrs := attrs.(name := CommName(p.taskInfo.comm));
      }
    }

    /** Lines 407-443 of `updateAttributes`: the state, the parent and the owner. */
    method SetStateAndOwner(p: Probe)
      modifies this
      ensures attrs == WithStateAndOwner(old(attrs), p)
    {
      var t := p.taskInfo;
      attrs := attrs.(state := StateOf(t.status));
      attrs := attrs.(parentProcessID := t.ppid);
      var uid := t.uid;
      attrs := attrs.(userID := Some(IntToString(uid)));
      var pwuid := p.passwd(uid);
      if pwuid.Some? {
        attrs := attrs.(user := pwuid);
      }
      var gid := t.gid;
      attrs := attrs.(groupID := Some(IntToString(gid)));
      var grgid := p.groups(gid);
      if grgid.Some? {
        attrs := attrs.(group := grgid);
      }
    }

    /** Lines 445-457 of `updateAttributes`: sizes, times, bitness and counters. */
    method SetCounters(p: Probe)
      modifies this
      ensures attrs == WithCounters(old(attrs), p)
    {
      var t := p.taskInfo;
      attrs := attrs.(priority := t.priority);
      attrs := attrs.(virtualSize := t.virtualSize);
      attrs := attrs.(residentSetSize := t.residentSize);
      attrs := attrs.(kernelTime := Div(t.totalSystem, NANOS_PER_MILLI));
      attrs := attrs.(userTime := Div(t.totalUser, NANOS_PER_MILLI));
      attrs := attrs.(startTime := StartTime(t.startSec, t.startUsec));
      attrs := attrs.(upTime := Wrap64(p.now as int - attrs.startTime as int));
      attrs := attrs.(openFiles := t.nfiles);
      attrs := attrs.(bitness := Bitness(t.flags));
      attrs := attrs.(majorFaults := t.pageins);
      attrs := attrs.(minorFaults := t.faults as int - attrs.majorFaults as int);
      attrs := attrs.(contextSwitches := t.csw);
    }

    /** Lines 459-471 of `updateAttributes`: the disk counters on recent systems, and the working directory. */
    method SetDiskAndCwd(p: Probe)
      modifies this
      ensures attrs == WithDiskAndCwd(old(attrs), p, majorVersion, minorVersion)
    {
      if majorVersion > 10 || minorVersion >= 9 {
        if 0 == p.rusageResult {
          attrs := attrs.(bytesRead := p.diskRead);
          attrs := attrs.(bytesWritten := p.diskWritten);
        }
      }
      if 0 < p.vnodeResult {
        attrs := attrs.(currentWorkingDirectory := Some(p.cwd));
      }
    }

    /**
     * `argsEnviron.get()`: the arguments and environment parsed from the
     * `kern.procargs2` answer `m` on the first call, the same pair ever after.
     * The parse is `queryArgsAndEnvironment` as written, padding NULs after
     * the executable path included (`ProcArgs.QueryArgsAndEnvironment`).
     */
    method ArgsEnviron(now: Int64, m: Option<seq<Byte>>, argmax: int) returns (r: (seq<Str>, Env))
      requires Valid()
      requires m.Some? ==> WellFormedBuffer(m.value, argmax)
      modifies argsEnviron
      ensures Valid() && argsEnviron.value == Some(r)
      ensures old(argsEnviron.value).Some? ==> r == old(argsEnviron.value).value
      ensures old(argsEnviron.value).None? ==> r == ArgsAndEnvAsWritten(m)
    {
      if MustCompute(argsEnviron.expirationNanos, now, argsEnviron.ttlNanos) {
        var args, env := QueryArgsAndEnvironment(m, argmax);
        r := argsEnviron.Get(now, (args, env));
      } else {
        r := argsEnviron.Get(now, ([], []));
      }
    }

    /** `getArguments()`. */
    method GetArguments(now: Int64, m: Option<seq<Byte>>, argmax: int) returns (args: seq<Str>)
      requires Valid()
      requires m.Some? ==> WellFormedBuffer(m.value, argmax)
      modifies argsEnviron
      ensures Valid() && argsEnviron.value.Some? && args == argsEnviron.value.value.0
      ensures old(argsEnviron.value).Some? ==> argsEnviron.value == old(argsEnviron.value)
      ensures old(argsEnviron.value).None? ==> args == ArgsAndEnvAsWritten(m).0
    {
      var r := ArgsEnviron(now, m, argmax);
      args := r.0;
    }

    /** `getEnvironmentVariables()`. */
    method GetEnvironmentVariables(now: Int64, m: Option<seq<Byte>>, argmax: int) returns (env: Env)
      requires Valid()
      requires m.Some? ==> WellFormedBuffer(m.value, argmax)
      modifies argsEnviron
      ensures Valid() && argsEnviron.value.Some? && env == argsEnviron.value.value.1
      ensures old(argsEnviron.value).Some? ==> argsEnviron.value == old(argsEnviron.value)
      ensures old(argsEnviron.value).None? ==> env == ArgsAndEnvAsWritten(m).1
    {
      var r := ArgsEnviron(now, m, argmax);
      env := r.1;
    }

    /**
     * `getCommandLine()`: computed once, from the arguments, which are
     * themselves fetched only when the command line is.
     */
    method GetCommandLine(now: Int64, m: Option<seq<Byte>>, argmax: int) returns (r: Str)
      requires Valid()
      requires m.Some? ==> WellFormedBuffer(m.value, argmax)
      modifies commandLine, argsEnviron
      ensures Valid() && argsEnviron.value.Some?
      ensures r == QueryCommandLine(argsEnviron.value.value.0)
      ensures old(commandLine.value).Some? ==> r == old(commandLine.value).value && unchanged(argsEnviron)
      ensures old(argsEnviron.value).Some? ==> argsEnviron.value == old(argsEnviron.value)
      ensures old(argsEnviron.value).None? ==> r == QueryCommandLine(ArgsAndEnvAsWritten(m).0)
    {
      if MustCompute(commandLine.expirationNanos, now, commandLine.ttlNanos) {
        var args := GetArguments(now, m, argmax);
        r := commandLine.Get(now, QueryCommandLine(args));
      } else {
        r := commandLine.Get(now, []);
      }
    }
  }
}
