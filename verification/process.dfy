/** The per-process snapshot: a process id fixed at construction and the CPU
    utilisation last computed for it. Every other accessor reads the kernel
    files of that pid afresh through the stat reader. */
module Process {
  import opened Wrappers
  import opened Decimal
  import opened Text
  import LinuxParser

  /** The files the reader opens under /proc/<pid>. */
  datatype PidFiles = PidFiles(stat: seq<string>, status: seq<string>, cmdline: seq<string>)

  /** Everything the snapshot's accessors read: the system-wide files, the per-pid files and the
      clock ticks per second that `sysconf(_SC_CLK_TCK)` reports. */
  datatype Machine = Machine(uptime: seq<string>, stat: seq<string>, passwd: seq<string>,
                             procs: map<int, PidFiles>, clockTicks: int)

  /** The files of `pid`; a process without a directory has files that cannot be opened, which
      the reader treats as empty. */
  function FilesOf(m: Machine, pid: int): PidFiles {
    if pid in m.procs then m.procs[pid] else PidFiles([], [], [])
  }

  /** The snapshot's state: `pid_` and `cpuUtilization_`. */
  datatype Process = Process(pid: int, cpuUtilization: real)

  /** `Pid()`. */
  function Pid(p: Process): int {
    p.pid
  }

  /** `CpuUtilization()`: the process's active jiffies over the system's total jiffies, stored in
      the snapshot and returned. The identity is kept. */
  method CpuUtilization(p: Process, m: Machine) returns (q: Process, u: real)
    requires LinuxParser.PidStatReadable(FilesOf(m, p.pid).stat)
    requires LinuxParser.JiffiesReadable(m.stat) && LinuxParser.Jiffies(m.stat) > 0
    ensures Pid(q) == Pid(p)
    ensures q.cpuUtilization == u
    ensures u == Ratio(LinuxParser.SumWhere(LinuxParser.StreamTokens(FilesOf(m, p.pid).stat), LinuxParser.IsPidCpuField),
                       LinuxParser.Jiffies(m.stat))
  {
    var active := LinuxParser.PidActiveJiffies(FilesOf(m, p.pid).stat);
    u := Ratio(active, LinuxParser.Jiffies(m.stat));
    q := p.(cpuUtilization := u);
  }

  /** `(float)a / (float)b` without rounding: the share `a` is of `b`. */
  function Ratio(a: nat, b: nat): (r: real)
    requires b > 0
    ensures r >= 0.0 && r * b as real == a as real
    ensures a <= b ==> r <= 1.0
  {
    a as real / b as real
  }

  /** `Command()`. */
  function Command(p: Process, m: Machine): string {
    LinuxParser.Command(FilesOf(m, p.pid).cmdline)
  }

  /** `Ram()`. */
  function Ram(p: Process, m: Machine): string
    requires LinuxParser.RamReadable(FilesOf(m, p.pid).status)
  {
    LinuxParser.Ram(FilesOf(m, p.pid).status)
  }

  /** `User()`. */
  function User(p: Process, m: Machine): string {
    LinuxParser.User(FilesOf(m, p.pid).status, m.passwd)
  }

  predicate UpTimeReadable(p: Process, m: Machine) {
    m.clockTicks > 0 && LinuxParser.StartTimesReadable(FilesOf(m, p.pid).stat)
  }

  /** `UpTime()`: the age of the process, system uptime minus the process's start time, both in
      seconds since boot; `None` where the source would read an uninitialised start time. */
  function UpTime(p: Process, m: Machine): Option<int>
    requires UpTimeReadable(p, m)
  {
    Age(LinuxParser.PidUpTime(FilesOf(m, p.pid).stat, m.clockTicks), LinuxParser.UpTime(m.uptime))
  }

  /** Seconds since the start, when the start is known. */
  function Age(start: Option<int>, system: int): Option<int> {
    match start
    case None => None
    case Some(s) => Some(system - s)
  }

  /** `operator<`: inverted, so that `p` comes first when it is busier. */
  predicate Less(p: Process, q: Process) {
    q.cpuUtilization < p.cpuUtilization
  }

  /** The pass-through accessors read the files of the snapshot's own pid and nothing of its
      stored utilisation: two snapshots of one pid agree on all of them. */
  lemma AccessorsFollowPid(p: Process, q: Process, m: Machine)
    requires Pid(p) == Pid(q)
    ensures Command(p, m) == Command(q, m)
    ensures User(p, m) == User(q, m)
    ensures LinuxParser.RamReadable(FilesOf(m, p.pid).status) ==> Ram(p, m) == Ram(q, m)
  {
    assert FilesOf(m, p.pid) == FilesOf(m, q.pid);
  }

  /** The same for the age of the process. */
  lemma UpTimeFollowsPid(p: Process, q: Process, m: Machine)
    requires Pid(p) == Pid(q)
    ensures UpTimeReadable(p, m) ==> UpTimeReadable(q, m) && UpTime(p, m) == UpTime(q, m)
  {
    assert FilesOf(m, p.pid) == FilesOf(m, q.pid);
  }

  /** A snapshot's age, from an uptime line "<secs>.<frac> <idle>" and a stat line whose field 22
      holds its start in clock ticks. */
  lemma UpTimeIsAge(p: Process, m: Machine, secs: nat, frac: string, idle: string, fields: seq<string>, ticks: nat, start: int)
    requires IsDigits(frac) && |m.uptime| > 0 && m.uptime[0] == NatToString(secs) + "." + frac + " " + idle
    requires AllTokens(fields) && |fields| >= 22 && fields[21] == NatToString(ticks)
    requires FilesOf(m, p.pid).stat == [Unwords(fields)] && m.clockTicks > 0
    requires start == ticks / m.clockTicks
    ensures UpTimeReadable(p, m)
    ensures UpTime(p, m) == Some(secs - start)
  {
    StartTimeOf(p, m, fields, ticks);
    SystemUpTimeOf(m, secs, frac, idle);
    UpTimeOfParts(p, m, start, secs);
  }

  lemma UpTimeOfParts(p: Process, m: Machine, start: int, system: nat)
    requires UpTimeReadable(p, m)
    requires LinuxParser.PidUpTime(FilesOf(m, p.pid).stat, m.clockTicks) == Some(start)
    requires LinuxParser.UpTime(m.uptime) == system
    ensures UpTime(p, m) == Some(system - start)
  {
    assert UpTime(p, m) == Age(Some(start), system);
  }

  lemma StartTimeOf(p: Process, m: Machine, fields: seq<string>, ticks: nat)
    requires AllTokens(fields) && |fields| >= 22 && fields[21] == NatToString(ticks)
    requires FilesOf(m, p.pid).stat == [Unwords(fields)] && m.clockTicks > 0
    ensures UpTimeReadable(p, m)
    ensures LinuxParser.PidUpTime(FilesOf(m, p.pid).stat, m.clockTicks) == Some(ticks / m.clockTicks)
  {
    LinuxParser.PidUpTimeOfStatLine(fields, ticks, m.clockTicks);
  }

  lemma SystemUpTimeOf(m: Machine, secs: nat, frac: string, idle: string)
    requires IsDigits(frac) && |m.uptime| > 0 && m.uptime[0] == NatToString(secs) + "." + frac + " " + idle
    ensures LinuxParser.UpTime(m.uptime) == secs
  {
    LinuxParser.UpTimeTruncates(secs, frac, idle, m.uptime[1..]);
    assert m.uptime == [m.uptime[0]] + m.uptime[1..];
  }

  ghost predicate Irreflexive() {
    forall p :: !Less(p, p)
  }

  ghost predicate Asymmetric() {
    forall p, q :: Less(p, q) ==> !Less(q, p)
  }

  ghost predicate Transitive() {
    forall p, q, r :: Less(p, q) && Less(q, r) ==> Less(p, r)
  }

  /** Neither before the other: equal utilisation. */
  predicate Equivalent(p: Process, q: Process) {
    !Less(p, q) && !Less(q, p)
  }

  ghost predicate EquivalenceTransitive() {
    forall p, q, r :: Equivalent(p, q) && Equivalent(q, r) ==> Equivalent(p, r)
  }

  /** `operator<` is a strict weak ordering, which is what `std::sort` requires of it. */
  lemma LessIsStrictWeakOrder()
    ensures Irreflexive() && Asymmetric() && Transitive() && EquivalenceTransitive()
    ensures forall p, q :: Equivalent(p, q) <==> p.cpuUtilization == q.cpuUtilization
  {
  }

  /** What an ascending sort by `Less` produces: no snapshot is before an earlier one. */
  predicate SortedByLess(ps: seq<Process>) {
    forall i, j :: 0 <= i < j < |ps| ==> !Less(ps[j], ps[i])
  }

  /** Sorted by the inverted comparison means highest utilisation first. */
  lemma SortedByLessIsBusiestFirst(ps: seq<Process>)
    ensures SortedByLess(ps) <==>
      forall i, j :: 0 <= i < j < |ps| ==> ps[i].cpuUtilization >= ps[j].cpuUtilization
  {
  }

  /** Sortedness follows from its adjacent pairs: checking neighbours is enough. */
  lemma {:induction false} SortedByLessFromNeighbours(ps: seq<Process>)
    requires forall i :: 0 <= i < |ps| - 1 ==> !Less(ps[i + 1], ps[i])
    ensures SortedByLess(ps)
    decreases |ps|
  {
    if |ps| > 1 {
      SortedByLessFromNeighbours(ps[1..]);
      forall j | 1 <= j < |ps|
        ensures ps[0].cpuUtilization >= ps[j].cpuUtilization
      {
        assert !Less(ps[1], ps[0]);
        if j > 1 {
          assert ps[1..][0] == ps[1] && ps[1..][j - 1] == ps[j];
        }
      }
    }
  }

  /** Utilisations 0.5 and 0.2 sort as [0.5, 0.2]. */
  lemma BusierSortsFirst(p: Process, q: Process)
    requires p.cpuUtilization == 0.5 && q.cpuUtilization == 0.2
    ensures Less(p, q) && !Less(q, p)
    ensures SortedByLess([p, q]) && !SortedByLess([q, p])
  {
    assert Less([q, p][1], [q, p][0]);
  }
}
