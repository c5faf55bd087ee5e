/**
 * What an `OSProcess` reports: its state and the attributes that
 * `updateAttributes` fills in, as one value. Strings the kernel hands over
 * are byte strings; `userID` and `groupID` are the decimal texts Java builds.
 */
module Process {
  import opened Wrappers
  import opened JavaInt
  import opened Bytes

  /** `OSProcess.State`. */
  datatype State = NEW | RUNNING | SLEEPING | WAITING | ZOMBIE | STOPPED | OTHER | INVALID

  /** The fields of a process object other than its id; `None` stands for Java's `null`. */
  datatype Attributes = Attributes(
    name: Str,
    path: Str,
    currentWorkingDirectory: Option<Str>,
    user: Option<Str>,
    userID: Option<string>,
    group: Option<Str>,
    groupID: Option<string>,
    state: State,
    parentProcessID: Int32,
    threadCount: Int32,
    priority: Int32,
    virtualSize: Int64,
    residentSetSize: Int64,
    kernelTime: Int64,
    userTime: Int64,
    startTime: Int64,
    upTime: Int64,
    bytesRead: Int64,
    bytesWritten: Int64,
    openFiles: Int64,
    bitness: Int32,
    minorFaults: Int64,
    majorFaults: Int64,
    contextSwitches: Int64)

  /** The field initialisers of a freshly allocated process object. */
  const INITIAL_ATTRIBUTES: Attributes :=
    Attributes([], [], None, None, None, None, None, INVALID, 0, 0, 0, 0, 0, 0, 0, 0, 0, 0, 0, 0, 0, 0, 0, 0)

  /** What the getters of one process object answer while a process list is filtered and sorted. */
  datatype Snapshot = Snapshot(pid: Int32, attrs: Attributes)
}
