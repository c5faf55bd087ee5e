/**
 * `ooo.oshi.software.os.OperatingSystem` and `AbstractOperatingSystem`: the
 * stock process filters and orders, and the process queries built from them
 * over whatever list of processes the platform reports.
 */
module OperatingSystem {
  import opened Wrappers
  import opened JavaInt
  import opened Process
  import opened Comparators
  import opened Streams

  // ---------------------------------------------------- ProcessFiltering

  /** `ALL_PROCESSES`: no filtering. */
  predicate AllProcesses(p: Snapshot)
  {
    true
  }

  /** `VALID_PROCESS`: excludes processes whose state is `INVALID`. */
  predicate ValidProcess(p: Snapshot)
  {
    p.attrs.state != INVALID
  }

  /** `NO_PARENT`: only processes that are their own parent. */
  predicate NoParent(p: Snapshot)
  {
    p.attrs.parentProcessID == p.pid
  }

  /** `BITNESS_64`. */
  predicate Bitness64(p: Snapshot)
  {
    p.attrs.bitness == 64
  }

  /** `BITNESS_32`. */
  predicate Bitness32(p: Snapshot)
  {
    p.attrs.bitness == 32
  }

  /** The two bitness filters never both accept a process. */
  lemma BitnessFiltersDisjoint(p: Snapshot)
    ensures !(Bitness64(p) && Bitness32(p))
    ensures Bitness64(p) || Bitness32(p) <==> p.attrs.bitness in {32, 64}
  {
  }

  // ------------------------------------------------------ ProcessSorting

  type Order = (Snapshot, Snapshot) -> int

  /** `NO_SORTING`: every pair compares equal. */
  function NoSorting(p1: Snapshot, p2: Snapshot): int
  {
    0
  }

  /** `RSS_DESC`: `comparingLong(getResidentSetSize)`, reversed. */
  function RssDesc(p1: Snapshot, p2: Snapshot): int
  {
    Compare(p2.attrs.residentSetSize, p1.attrs.residentSetSize)
  }

  /** `UPTIME_ASC`: `comparingLong(getUpTime)`. */
  function UptimeAsc(p1: Snapshot, p2: Snapshot): int
  {
    Compare(p1.attrs.upTime, p2.attrs.upTime)
  }

  /** `UPTIME_DESC`: `UPTIME_ASC.reversed()`. */
  function UptimeDesc(p1: Snapshot, p2: Snapshot): int
  {
    UptimeAsc(p2, p1)
  }

  /** `PID_ASC`: `comparingInt(getProcessID)`. */
  function PidAsc(p1: Snapshot, p2: Snapshot): int
  {
    Compare(p1.pid, p2.pid)
  }

  /** `PARENTPID_ASC`: `comparingInt(getParentProcessID)`. */
  function ParentPidAsc(p1: Snapshot, p2: Snapshot): int
  {
    Compare(p1.attrs.parentProcessID, p2.attrs.parentProcessID)
  }

  /** `NAME_ASC`: `comparing(getName, CASE_INSENSITIVE_ORDER)`. */
  function NameAsc(p1: Snapshot, p2: Snapshot): int
  {
    CompareIgnoreCase(p1.attrs.name, p2.attrs.name)
  }

  lemma NoSortingValid()
    ensures ValidComparator(NoSorting)
  {
  }

  /** Every stock order keeps the `Comparator` contract, so sorting by it is well defined. */
  lemma StockOrdersValid()
    ensures ValidComparator(NoSorting)
    ensures ValidComparator(RssDesc)
    ensures ValidComparator(UptimeAsc)
    ensures ValidComparator(UptimeDesc)
    ensures ValidComparator(PidAsc)
    ensures ValidComparator(ParentPidAsc)
    ensures ValidComparator(NameAsc)
  {
    assert ValidComparator(UptimeAsc);
    ReversedValid(UptimeAsc, UptimeDesc);
    IgnoreCaseValid((p: Snapshot) => p.attrs.name, NameAsc);
  }

  /** The orders mean what their names say: a negative result puts the first argument first. */
  lemma StockOrdersMeaning(p1: Snapshot, p2: Snapshot)
    ensures RssDesc(p1, p2) < 0 <==> p1.attrs.residentSetSize > p2.attrs.residentSetSize
    ensures UptimeAsc(p1, p2) < 0 <==> p1.attrs.upTime < p2.attrs.upTime
    ensures UptimeDesc(p1, p2) < 0 <==> p1.attrs.upTime > p2.attrs.upTime
    ensures PidAsc(p1, p2) < 0 <==> p1.pid < p2.pid
    ensures ParentPidAsc(p1, p2) < 0 <==> p1.attrs.parentProcessID < p2.attrs.parentProcessID
    ensures NameAsc(p1, p2) == 0 <==> Fold(p1.attrs.name) == Fold(p2.attrs.name)
  {
    CompareIgnoreCaseIsFolded(p1.attrs.name, p2.attrs.name);
    LexZero(Fold(p1.attrs.name), Fold(p2.attrs.name));
  }

  // ---------------------------------------------------- process queries

  /**
   * `getProcesses(filter, sort, limit)`: the processes `filter` accepts
   * (all when it is null), stably sorted by `sort` (left in place when it is
   * null), cut to the first `limit` when `limit` is positive.
   */
  function GetProcesses(all: seq<Snapshot>, filter: Option<Snapshot -> bool>,
                        sort: Option<Order>, limit: Int32): seq<Snapshot>
  {
    var accept := if filter.None? then AllProcesses else filter.value;
    var order := if sort.None? then NoSorting else sort.value;
    var sorted := SortBy(order, Filter(accept, all));
    if limit > 0 then Limit(sorted, limit) else sorted
  }

  /** Everything returned passes the filter and came from the platform's list. */
  lemma GetProcessesFiltered(all: seq<Snapshot>, filter: Option<Snapshot -> bool>,
                             sort: Option<Order>, limit: Int32)
    ensures var r := GetProcesses(all, filter, sort, limit);
      (filter.Some? ==> forall p :: p in r ==> filter.value(p)) &&
      multiset(r) <= multiset(all)
  {
    var accept := if filter.None? then AllProcesses else filter.value;
    var order := if sort.None? then NoSorting else sort.value;
    var sorted := SortBy(order, Filter(accept, all));
    FilterSubMultiset(accept, all);
    SortByPermutes(order, Filter(accept, all));
    LimitSubMultiset(sorted, if limit > 0 then limit as nat else |sorted|);
    forall p | p in GetProcesses(all, filter, sort, limit)
      ensures p in Filter(accept, all)
    {
      assert p in multiset(sorted);
    }
  }

  /**
   * Nothing the filter accepts is lost except to the limit: the result holds
   * `limit` processes, or every accepted one when there are fewer or no limit.
   */
  lemma GetProcessesCount(all: seq<Snapshot>, filter: Option<Snapshot -> bool>,
                          sort: Option<Order>, limit: Int32)
    ensures var accepted := Filter(if filter.None? then AllProcesses else filter.value, all);
      |GetProcesses(all, filter, sort, limit)|
        == if 0 < limit < |accepted| then limit as int else |accepted|
  {
  }

  /**
   * With a valid order the result is sorted, and processes comparing equal
   * keep the order in which the platform listed them.
   */
  lemma GetProcessesOrdered(all: seq<Snapshot>, filter: Option<Snapshot -> bool>,
                            sort: Option<Order>, limit: Int32)
    requires sort.Some? ==> ValidComparator(sort.value)
    ensures var order := if sort.None? then NoSorting else sort.value;
      var accepted := Filter(if filter.None? then AllProcesses else filter.value, all);
      var r := GetProcesses(all, filter, sort, limit);
      Sorted(order, r) &&
      r <= SortBy(order, accepted) &&
      forall e :: Equivalents(order, e, SortBy(order, accepted)) == Equivalents(order, e, accepted)
  {
    var accepted := Filter(if filter.None? then AllProcesses else filter.value, all);
    var order := if sort.None? then NoSorting else sort.value;
    if sort.None? {
      NoSortingValid();
    }
    var sorted := SortBy(order, accepted);
    assert GetProcesses(all, filter, sort, limit) == if limit > 0 then Limit(sorted, limit) else sorted;
    SortBySorted(order, accepted);
    LimitSorted(order, sorted, if limit > 0 then limit as nat else |sorted|);
    forall e ensures Equivalents(order, e, sorted) == Equivalents(order, e, accepted) {
      SortByStable(order, e, accepted);
    }
  }

  /** `getProcesses()`: no filter, no order, no limit returns the list as the platform gave it. */
  lemma GetProcessesDefault(all: seq<Snapshot>)
    ensures GetProcesses(all, None, None, 0) == all
  {
    FilterAll(AllProcesses, all);
    SortByAllEqual(NoSorting, all);
  }

  /** Without a sort the processes stay in the platform's order. */
  lemma GetProcessesUnsorted(all: seq<Snapshot>, filter: Option<Snapshot -> bool>, limit: Int32)
    ensures var accepted := Filter(if filter.None? then AllProcesses else filter.value, all);
      GetProcesses(all, filter, None, limit) <= accepted
  {
    var accept := if filter.None? then AllProcesses else filter.value;
    SortByAllEqual(NoSorting, Filter(accept, all));
  }

  /**
   * `getProcesses(pids)`: each distinct pid in encounter order, looked up
   * with `getProcess`; lookups returning null and processes already
   * `INVALID` are dropped.
   */
  function GetProcessesByPids(pids: seq<Int32>, getProcess: Int32 -> Option<Snapshot>): seq<Snapshot>
  {
    Resolved(Distinct(pids), getProcess)
  }

  /** `map(getProcess).filter(Objects::nonNull).filter(VALID_PROCESS)`. */
  function Resolved(pids: seq<Int32>, getProcess: Int32 -> Option<Snapshot>): (r: seq<Snapshot>)
    ensures |r| <= |pids|
  {
    if pids == [] then []
    else
      var rest := Resolved(pids[1..], getProcess);
      match getProcess(pids[0])
      case Some(p) => if ValidProcess(p) then [p] + rest else rest
      case None => rest
  }

  /** `Resolved` keeps exactly the valid answers to the pids it was given. */
  lemma {:induction false} ResolvedElements(pids: seq<Int32>, getProcess: Int32 -> Option<Snapshot>, p: Snapshot)
    ensures p in Resolved(pids, getProcess) <==>
      ValidProcess(p) && exists k :: 0 <= k < |pids| && getProcess(pids[k]) == Some(p)
  {
    if pids != [] {
      ResolvedElements(pids[1..], getProcess, p);
      if exists k :: 0 <= k < |pids| && getProcess(pids[k]) == Some(p) {
        var k :| 0 <= k < |pids| && getProcess(pids[k]) == Some(p);
        if k > 0 {
          assert getProcess(pids[1..][k - 1]) == Some(p);
        }
      }
      if exists k :: 0 <= k < |pids| - 1 && getProcess(pids[1..][k]) == Some(p) {
        var k :| 0 <= k < |pids| - 1 && getProcess(pids[1..][k]) == Some(p);
        assert getProcess(pids[k + 1]) == Some(p);
      }
    }
  }

  /**
   * The result of `getProcesses(pids)`: only valid processes, each the
   * lookup of a requested pid, never more than the distinct pids requested,
   * and every valid lookup of a requested pid is there.
   */
  lemma GetProcessesByPidsContents(pids: seq<Int32>, getProcess: Int32 -> Option<Snapshot>, p: Snapshot)
    ensures var r := GetProcessesByPids(pids, getProcess);
      |r| <= |Distinct(pids)| <= |pids| &&
      (p in r <==> ValidProcess(p) && exists q :: q in pids && getProcess(q) == Some(p))
  {
    var d := Distinct(pids);
    ResolvedElements(d, getProcess, p);
    if exists k :: 0 <= k < |d| && getProcess(d[k]) == Some(p) {
      var k :| 0 <= k < |d| && getProcess(d[k]) == Some(p);
      assert d[k] in pids;
    }
    if exists q :: q in pids && getProcess(q) == Some(p) {
      var q :| q in pids && getProcess(q) == Some(p);
      var k :| 0 <= k < |pids| && pids[k] == q;
      var i :| 0 <= i < |d| && d[i] == q;
      assert getProcess(d[i]) == Some(p);
    }
  }

  /** The pids of a list of processes, in list order. */
  function PidsOf(r: seq<Snapshot>): (pids: seq<Int32>)
    ensures |pids| == |r| && forall i :: 0 <= i < |r| ==> pids[i] == r[i].pid
  {
    seq(|r|, i requires 0 <= i < |r| => r[i].pid)
  }

  /** `Resolved` answers the pids in the order it was given them. */
  lemma {:induction false} ResolvedInOrder(d: seq<Int32>, getProcess: Int32 -> Option<Snapshot>)
    requires forall q :: getProcess(q).Some? ==> getProcess(q).value.pid == q
    ensures Subsequence(PidsOf(Resolved(d, getProcess)), d)
  {
    if d != [] {
      var rest := Resolved(d[1..], getProcess);
      ResolvedInOrder(d[1..], getProcess);
      var g := getProcess(d[0]);
      if g.Some? && ValidProcess(g.value) {
        assert PidsOf([g.value] + rest)[1..] == PidsOf(rest);
      }
    }
  }

  /**
   * The pids of `getProcesses(pids)` keep the first-occurrence order of the
   * requested pids: they are `Distinct(pids)` with some pids dropped, and
   * `DistinctFirstOccurrence` states that order.
   */
  lemma GetProcessesByPidsInOrder(pids: seq<Int32>, getProcess: Int32 -> Option<Snapshot>)
    requires forall q :: getProcess(q).Some? ==> getProcess(q).value.pid == q
    ensures Subsequence(PidsOf(GetProcessesByPids(pids, getProcess)), Distinct(pids))
  {
    ResolvedInOrder(Distinct(pids), getProcess);
  }

  /**
   * When `getProcess` answers with the pid it was asked for, no pid appears
   * twice in the result of `getProcesses(pids)`.
   */
  lemma GetProcessesByPidsDistinct(pids: seq<Int32>, getProcess: Int32 -> Option<Snapshot>)
    requires forall q :: getProcess(q).Some? ==> getProcess(q).value.pid == q
    ensures PidsDistinct(GetProcessesByPids(pids, getProcess))
  {
    ResolvedDistinct(Distinct(pids), getProcess);
  }

  /** No two processes in the list share a pid. */
  ghost predicate PidsDistinct(r: seq<Snapshot>)
  {
    forall i, j :: 0 <= i < j < |r| ==> r[i].pid != r[j].pid
  }

  lemma {:induction false} ResolvedDistinct(d: seq<Int32>, getProcess: Int32 -> Option<Snapshot>)
    requires forall q :: getProcess(q).Some? ==> getProcess(q).value.pid == q
    requires forall i, j :: 0 <= i < j < |d| ==> d[i] != d[j]
    ensures var r := Resolved(d, getProcess);
      (forall p :: p in r ==> p.pid in d) && PidsDistinct(r)
  {
    if d != [] {
      var r := Resolved(d, getProcess);
      var rest := Resolved(d[1..], getProcess);
      ResolvedDistinct(d[1..], getProcess);
      assert d[0] !in d[1..];
      forall i | 0 <= i < |rest| ensures rest[i].pid in d && rest[i].pid != d[0] {
        assert rest[i] in rest;
      }
      var g := getProcess(d[0]);
      if g.Some? && ValidProcess(g.value) {
        assert r == [g.value] + rest;
        forall i, j | 0 <= i < j < |r| ensures r[i].pid != r[j].pid {
          assert r[j] == rest[j - 1];
          if i > 0 {
            assert r[i] == rest[i - 1];
          }
        }
      } else {
        assert r == rest;
      }
    }
  }
}
