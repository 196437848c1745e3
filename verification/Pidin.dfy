/** Grouping of `pidin` rows into processes (parsePidinThreads, internal/qconn/sysinfo.go). A row is
    the list of its whitespace-separated fields: pid, tid, name, priority, state, blocked-on. */
module Pidin {
  import opened QconnText
  import opened DecimalText

  datatype Thread = Thread(tid: int, priority: string, state: string, blocked: string)

  datatype Process = Process(pid: int, name: string, numThreads: nat, threads: seq<Thread>)

  type Row = seq<string>

  // ----- one row -----

  function Join(fields: seq<string>): string {
    if fields == [] then "" else if |fields| == 1 then fields[0] else fields[0] + " " + Join(fields[1..])
  }

  datatype Entry = NotData | Data(pid: int, name: string, thread: Thread)

  /** A data row has at least five fields and numeric pid and tid; headers and the rest are skipped. */
  function Parse(f: Row): Entry {
    if |f| < 5 then NotData
    else if Atoi(f[0]).None? || Atoi(f[1]).None? then NotData
    else Data(Atoi(f[0]).value, f[2], Thread(Atoi(f[1]).value, f[3], f[4], Join(f[5..])))
  }

  function Entries(rows: seq<Row>): seq<Entry> {
    seq(|rows|, i requires 0 <= i < |rows| => Parse(rows[i]))
  }

  // ----- the reference: what grouping means -----

  predicate Belongs(e: Entry, pid: int) {
    e.Data? && e.pid == pid
  }

  /** The threads of one process: its rows, in order. */
  function ThreadsOf(es: seq<Entry>, pid: int): seq<Thread> {
    if es == [] then []
    else
      var n := |es| - 1;
      ThreadsOf(es[..n], pid) + (if Belongs(es[n], pid) then [es[n].thread] else [])
  }

  /** The pids in the order in which they first appear. */
  function Order(es: seq<Entry>): (pids: seq<int>)
    ensures forall i, j | 0 <= i < j < |pids| :: pids[i] != pids[j]
  {
    if es == [] then []
    else
      var n := |es| - 1;
      var before := Order(es[..n]);
      if es[n].Data? && es[n].pid !in before then before + [es[n].pid] else before
  }

  /** The index of the first row of a process; the number of rows if it has none. */
  function FirstRow(es: seq<Entry>, pid: int): (k: nat)
    ensures k <= |es|
    ensures k < |es| ==> Belongs(es[k], pid)
    ensures forall i | 0 <= i < k :: !Belongs(es[i], pid)
  {
    if es == [] then 0
    else
      var n := |es| - 1;
      var k := FirstRow(es[..n], pid);
      if k < n || Belongs(es[n], pid) then k else |es|
  }

  /** A process: named by its first row, with the threads of all its rows. */
  function GroupOf(es: seq<Entry>, pid: int): Process {
    var k, ts := FirstRow(es, pid), ThreadsOf(es, pid);
    Process(pid, if k < |es| then es[k].name else "", |ts|, ts)
  }

  function Grouped(es: seq<Entry>): seq<Process> {
    var pids := Order(es);
    seq(|pids|, i requires 0 <= i < |pids| => GroupOf(es, pids[i]))
  }

  // ----- properties of the grouping -----

  lemma {:induction false} ListedIffPresent(es: seq<Entry>, pid: int)
    ensures pid in Order(es) <==> FirstRow(es, pid) < |es|
  {
    if es != [] {
      ListedIffPresent(es[..|es| - 1], pid);
    }
  }

  /** The order of the result is the order of the processes' first rows. */
  lemma {:induction false} OrderIsFirstAppearance(es: seq<Entry>, i: nat, j: nat)
    requires i < j < |Order(es)|
    ensures FirstRow(es, Order(es)[i]) < FirstRow(es, Order(es)[j]) < |es|
  {
    var n := |es| - 1;
    if j < |Order(es[..n])| {
      OrderIsFirstAppearance(es[..n], i, j);
    } else {
      ListedIffPresent(es[..n], Order(es)[i]);
      ListedIffPresent(es[..n], Order(es)[j]);
    }
  }

  function DataRows(es: seq<Entry>): nat {
    if es == [] then 0 else DataRows(es[..|es| - 1]) + (if es[|es| - 1].Data? then 1 else 0)
  }

  function TotalThreads(ps: seq<Process>): nat {
    if ps == [] then 0 else TotalThreads(ps[..|ps| - 1]) + ps[|ps| - 1].numThreads
  }

  /** Threads counted over a list of pids. */
  function CountThreads(es: seq<Entry>, pids: seq<int>): nat {
    if pids == [] then 0 else CountThreads(es, pids[..|pids| - 1]) + |ThreadsOf(es, pids[|pids| - 1])|
  }

  lemma {:induction false} CountWithOneMoreRow(es: seq<Entry>, pids: seq<int>)
    requires es != []
    requires forall i, j | 0 <= i < j < |pids| :: pids[i] != pids[j]
    ensures var last := es[|es| - 1];
      CountThreads(es, pids) == CountThreads(es[..|es| - 1], pids)
        + (if last.Data? && last.pid in pids then 1 else 0)
  {
    if pids != [] {
      CountWithOneMoreRow(es, pids[..|pids| - 1]);
    }
  }

  lemma {:induction false} NoRowsNoThreads(es: seq<Entry>, pid: int)
    requires pid !in Order(es)
    ensures ThreadsOf(es, pid) == []
  {
    if es != [] {
      NoRowsNoThreads(es[..|es| - 1], pid);
    }
  }

  lemma {:induction false} CountsAreConserved(es: seq<Entry>)
    ensures CountThreads(es, Order(es)) == DataRows(es)
  {
    if es != [] {
      var n := |es| - 1;
      var before, now := Order(es[..n]), Order(es);
      CountsAreConserved(es[..n]);
      CountWithOneMoreRow(es, now);
      if now != before {
        assert now[..|now| - 1] == before;
        NoRowsNoThreads(es[..n], es[n].pid);
      }
    }
  }

  lemma {:induction false} TotalIsCount(es: seq<Entry>, pids: seq<int>)
    ensures TotalThreads(seq(|pids|, i requires 0 <= i < |pids| => GroupOf(es, pids[i]))) == CountThreads(es, pids)
  {
    var ps := seq(|pids|, i requires 0 <= i < |pids| => GroupOf(es, pids[i]));
    if pids != [] {
      var init := pids[..|pids| - 1];
      TotalIsCount(es, init);
      assert ps[..|ps| - 1] == seq(|init|, i requires 0 <= i < |init| => GroupOf(es, init[i]));
    }
  }

  /** No row is lost or counted twice: the processes have as many threads as there are data rows. */
  lemma ThreadsAreConserved(es: seq<Entry>)
    ensures TotalThreads(Grouped(es)) == DataRows(es)
  {
    CountsAreConserved(es);
    TotalIsCount(es, Order(es));
  }

  // ----- the loop -----

  /** A process under construction. */
  class Cell {
    var pid: int
    var name: string
    var numThreads: nat
    var threads: seq<Thread>

    constructor (pid: int, name: string)
      ensures this.pid == pid && this.name == name && numThreads == 0 && threads == []
    {
      this.pid, this.name, numThreads, threads := pid, name, 0, [];
    }

    function Current(): Process
      reads this
    {
      Process(pid, name, numThreads, threads)
    }
  }

  /** What one more data row does to the groups. */
  lemma OneMoreRow(es: seq<Entry>, e: Entry, pid: int)
    ensures GroupOf(es + [e], pid) ==
      if !Belongs(e, pid) then GroupOf(es, pid)
      else
        var g := GroupOf(es, pid);
        Process(pid, if pid in Order(es) then g.name else e.name, g.numThreads + 1, g.threads + [e.thread])
    ensures Order(es + [e]) == if e.Data? && e.pid !in Order(es) then Order(es) + [e.pid] else Order(es)
    ensures pid !in Order(es) ==> ThreadsOf(es, pid) == []
  {
    assert (es + [e])[..|es|] == es;
    ListedIffPresent(es, pid);
    if pid !in Order(es) {
      NoRowsNoThreads(es, pid);
    }
  }

  /** The map of processes and the order of their first appearance. */
  class Table {
    var byPid: map<int, Cell>
    var order: seq<int>

    constructor ()
      ensures byPid == map[] && order == []
    {
      byPid, order := map[], [];
    }

    /** The cells are exactly the groups of the rows seen so far. */
    ghost predicate Holds(es: seq<Entry>)
      reads this, byPid.Values
    {
      && order == Order(es)
      && byPid.Keys == (set p | p in order)
      && (forall p, q | p in byPid && q in byPid && p != q :: byPid[p] != byPid[q])
      && (forall p | p in byPid :: byPid[p].Current() == GroupOf(es, p))
    }

    method Add(ghost es: seq<Entry>, e: Entry)
      requires e.Data? && Holds(es)
      modifies this, byPid.Values
      ensures Holds(es + [e])
      ensures fresh(byPid.Values - old(byPid.Values))
    {
      ghost var es' := es + [e];
      OneMoreRow(es, e, e.pid);
      forall p | p in byPid
        ensures p != e.pid ==> GroupOf(es', p) == GroupOf(es, p)
      {
        OneMoreRow(es, e, p);
      }
      if e.pid !in byPid {
        var c := new Cell(e.pid, e.name);
        byPid := byPid[e.pid := c];
        order := order + [e.pid];
      }
      var cell := byPid[e.pid];
      cell.threads := cell.threads + [e.thread];
      cell.numThreads := |cell.threads|;
      assert cell.Current() == GroupOf(es', e.pid);
      forall p | p in byPid && p != e.pid
        ensures byPid[p].Current() == GroupOf(es', p)
      {
      }
    }

    method AddRow(ghost es: seq<Entry>, e: Entry)
      requires Holds(es)
      modifies this, byPid.Values
      ensures Holds(es + [e])
      ensures fresh(byPid.Values - old(byPid.Values))
    {
      if e.NotData? {
        SkippedRow(es, e);
      } else {
        Add(es, e);
      }
    }

    method Result(ghost es: seq<Entry>) returns (result: seq<Process>)
      requires Holds(es)
      ensures result == Grouped(es)
    {
      result := [];
      for k := 0 to |order|
        invariant |result| == k
        invariant forall j | 0 <= j < k :: result[j] == GroupOf(es, order[j])
      {
        result := result + [byPid[order[k]].Current()];
      }
    }
  }

  lemma SkippedRow(es: seq<Entry>, e: Entry)
    requires e.NotData?
    ensures Order(es + [e]) == Order(es)
    ensures forall p | p in Order(es) :: GroupOf(es + [e], p) == GroupOf(es, p)
  {
    OneMoreRow(es, e, 0);
    forall p | p in Order(es)
      ensures GroupOf(es + [e], p) == GroupOf(es, p)
    {
      OneMoreRow(es, e, p);
    }
  }
}
