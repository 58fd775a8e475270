/** The stat reader of the process monitor. Every parser of the source opens one
    kernel file and reads it with `std::getline` and `>>`; here each file is a
    parameter holding its lines, and a file that cannot be opened is the empty
    sequence of lines (the source returns the same default for both). */
module LinuxParser {
  import opened Wrappers
  import opened Text
  import opened Decimal

  // ---------------------------------------------------------------------------
  // Operating system name: /etc/os-release

  /** The three `std::replace` calls applied to each os-release line: spaces become
      underscores, then `=` and `"` become spaces. */
  function OsReleaseLine(line: string): string {
    Replace(Replace(Replace(line, ' ', '_'), '=', ' '), '"', ' ')
  }

  datatype PairScan = Found(value: string) | NotFound(last: string)

  /** `while (linestream >> key >> value)` over one line's tokens: pairs are read two tokens
      at a time; a trailing lone token leaves `value` as it was. */
  function ScanPairs(ts: seq<string>, value: string): PairScan
    decreases |ts|
  {
    if |ts| < 2 then NotFound(value)
    else if ts[0] == "PRETTY_NAME" then Found(ts[1])
    else ScanPairs(ts[2..], ts[1])
  }

  function OperatingSystemFrom(lines: seq<string>, value: string): string
    decreases |lines|
  {
    if |lines| == 0 then value
    else
      match ScanPairs(Tokens(OsReleaseLine(lines[0])), value)
      case Found(v) => Replace(v, '_', ' ')
      case NotFound(v) => OperatingSystemFrom(lines[1..], v)
  }

  /** `OperatingSystem()`: the PRETTY_NAME value with underscores turned back into spaces.
      When no line has that key, the source returns whatever value the last pair read. */
  function OperatingSystem(osRelease: seq<string>): string {
    OperatingSystemFrom(osRelease, "")
  }

  /** A `KEY="value"` line of os-release. */
  function AssignmentLine(key: string, v: string): string {
    key + "=\"" + v + "\""
  }

  /** What a quoted os-release value may contain for the source to read it back whole: plain
      spaces, but no other whitespace and no `=` or `"`. */
  predicate IsQuotedValue(v: string) {
    |v| > 0 && forall i :: 0 <= i < |v| ==> v[i] == ' ' || (!IsSpace(v[i]) && v[i] != '=' && v[i] != '"')
  }

  predicate IsKey(key: string) {
    IsToken(key) && '=' !in key && '"' !in key
  }

  /** The three replacements act on each character independently. */
  function OsReleaseChar(c: char): char {
    if c == ' ' then '_' else if c == '=' || c == '"' then ' ' else c
  }

  lemma OsReleaseLineByChar(s: string)
    ensures |OsReleaseLine(s)| == |s|
    ensures forall i :: 0 <= i < |s| ==> OsReleaseLine(s)[i] == OsReleaseChar(s[i])
  {
  }

  lemma OsReleaseLineOfAssignment(key: string, v: string)
    requires IsKey(key) && IsQuotedValue(v)
    ensures OsReleaseLine(AssignmentLine(key, v)) == key + "  " + Replace(v, ' ', '_') + " "
  {
    var s := AssignmentLine(key, v);
    var r := Replace(v, ' ', '_');
    var t := key + "  " + r + " ";
    OsReleaseLineByChar(s);
    assert |s| == |t|;
    forall i | 0 <= i < |s|
      ensures OsReleaseChar(s[i]) == t[i]
    {
      if i < |key| {
        assert s[i] == key[i] && t[i] == key[i];
        assert key[i] != ' ' && key[i] != '=' && key[i] != '"' by {
          assert key[i] in key;
        }
      } else if i == |key| || i == |key| + 1 {
      } else if i < |key| + 2 + |v| {
        var k := i - |key| - 2;
        assert s[i] == v[k] && t[i] == r[k];
      }
    }
  }

  lemma QuotedValueIsToken(v: string)
    requires IsQuotedValue(v)
    ensures IsToken(Replace(v, ' ', '_'))
  {
  }

  lemma TokensOfSpacedWord(r: string)
    requires IsToken(r)
    ensures Tokens(" " + r + " ") == [r]
  {
    TokensSplitAtSpace(r, ' ', "");
    assert r + [' '] + "" == r + " ";
    TokensOfToken(r);
    TokensAfterSpace(' ', r + " ");
    assert [' '] + (r + " ") == " " + r + " ";
  }

  lemma TokensOfAssignment(key: string, v: string)
    requires IsKey(key) && IsQuotedValue(v)
    ensures Tokens(OsReleaseLine(AssignmentLine(key, v))) == [key, Replace(v, ' ', '_')]
  {
    var r := Replace(v, ' ', '_');
    assert OsReleaseLine(AssignmentLine(key, v)) == key + [' '] + (" " + r + " ") by {
      OsReleaseLineOfAssignment(key, v);
      assert key + [' '] + (" " + r + " ") == key + "  " + r + " ";
    }
    assert Tokens(" " + r + " ") == [r] by {
      QuotedValueIsToken(v);
      TokensOfSpacedWord(r);
    }
    assert Tokens(key) == [key] by {
      TokensOfToken(key);
    }
    TokensSplitAtSpace(key, ' ', " " + r + " ");
  }

  /** A line without the token PRETTY_NAME only updates the fallback value. */
  lemma {:induction false} ScanPairsWithoutKey(ts: seq<string>, value: string)
    requires "PRETTY_NAME" !in ts
    ensures ScanPairs(ts, value).NotFound?
    decreases |ts|
  {
    if |ts| >= 2 {
      ScanPairsWithoutKey(ts[2..], ts[1]);
    }
  }

  predicate MentionsPrettyName(line: string) {
    "PRETTY_NAME" in Tokens(OsReleaseLine(line))
  }

  /** Lines that do not mention PRETTY_NAME only change the fallback value `v` carried on. */
  lemma {:induction false} OperatingSystemSkips(pre: seq<string>, line: string, post: seq<string>, value: string)
    returns (v: string)
    requires forall i :: 0 <= i < |pre| ==> !MentionsPrettyName(pre[i])
    ensures OperatingSystemFrom(pre + [line] + post, value) == OperatingSystemFrom([line] + post, v)
    decreases |pre|
  {
    if |pre| == 0 {
      assert pre + [line] + post == [line] + post;
      v := value;
    } else {
      var ts := Tokens(OsReleaseLine(pre[0]));
      ScanPairsWithoutKey(ts, value);
      var lines := pre + [line] + post;
      assert lines[0] == pre[0];
      assert lines[1..] == pre[1..] + [line] + post;
      assert OperatingSystemFrom(lines, value) == OperatingSystemFrom(lines[1..], ScanPairs(ts, value).last);
      v := OperatingSystemSkips(pre[1..], line, post, ScanPairs(ts, value).last);
    }
  }

  /** For a value without underscores: the first PRETTY_NAME="..." line gives the name, spaces
      included, when no earlier line holds the token PRETTY_NAME, whatever follows it. An
      underscore in the value would come back as a space (`PrettyNameLine`). */
  lemma OperatingSystemReadsPrettyName(pre: seq<string>, v: string, post: seq<string>)
    requires IsQuotedValue(v) && '_' !in v
    requires forall i :: 0 <= i < |pre| ==> !MentionsPrettyName(pre[i])
    ensures OperatingSystem(pre + [AssignmentLine("PRETTY_NAME", v)] + post) == v
  {
    var line := AssignmentLine("PRETTY_NAME", v);
    var w := OperatingSystemSkips(pre, line, post, "");
    PrettyNameLine(v, post, w);
    ReplaceUndo(v, ' ', '_');
  }

  /** Reaching the PRETTY_NAME line ends the scan with its value, underscores turned back. */
  lemma PrettyNameLine(v: string, post: seq<string>, w: string)
    requires IsQuotedValue(v)
    ensures OperatingSystemFrom([AssignmentLine("PRETTY_NAME", v)] + post, w) == Replace(Replace(v, ' ', '_'), '_', ' ')
  {
    var line := AssignmentLine("PRETTY_NAME", v);
    var r := Replace(v, ' ', '_');
    assert Tokens(OsReleaseLine(line)) == ["PRETTY_NAME", r] by {
      TokensOfAssignment("PRETTY_NAME", v);
    }
    assert ScanPairs(["PRETTY_NAME", r], w) == Found(r);
    assert ([line] + post)[0] == line;
  }

  /** Without a PRETTY_NAME line the result is not empty: it is the raw value of the last
      assignment, with its spaces still turned into underscores. */
  lemma OperatingSystemWithoutPrettyName(pre: seq<string>, key: string, v: string)
    requires IsKey(key) && key != "PRETTY_NAME" && IsQuotedValue(v)
    requires forall i :: 0 <= i < |pre| ==> !MentionsPrettyName(pre[i])
    ensures OperatingSystem(pre + [AssignmentLine(key, v)]) == Replace(v, ' ', '_')
  {
    var line := AssignmentLine(key, v);
    var w := OperatingSystemSkips(pre, line, [], "");
    TokensOfAssignment(key, v);
    assert pre + [line] + [] == pre + [line];
    assert [line] + [] == [line];
    assert ScanPairs([key, Replace(v, ' ', '_')], w) == NotFound(Replace(v, ' ', '_'));
    assert OperatingSystemFrom([line], w) == OperatingSystemFrom([], Replace(v, ' ', '_'));
  }

  // ---------------------------------------------------------------------------
  // Kernel version: /proc/version

  /** `Kernel()`: the third token of the first line ("Linux version <release> ..."), or ""
      when the line has fewer than three tokens. */
  function Kernel(version: seq<string>): (r: string)
    ensures r == "" || IsToken(r)
  {
    var ts := Tokens(FirstLine(version));
    if |ts| >= 3 then ts[2] else ""
  }

  lemma KernelReadsThirdToken(os: string, word: string, release: string, more: seq<string>, rest: seq<string>)
    requires AllTokens([os, word, release] + more)
    ensures Kernel([Unwords([os, word, release] + more)] + rest) == release
  {
    TokensOfUnwords([os, word, release] + more);
  }

  // ---------------------------------------------------------------------------
  // Process list: the entries of /proc

  datatype DirEntry = DirEntry(name: string, isDirectory: bool)

  /** An entry `Pids()` keeps: a directory whose name is all digits. */
  predicate IsPidEntry(e: DirEntry) {
    e.isDirectory && IsDigits(e.name)
  }

  /** `std::stoi` of an empty all-digit name would throw; directory names are never empty. */
  predicate NamedDirectories(entries: seq<DirEntry>) {
    forall i :: 0 <= i < |entries| && entries[i].isDirectory ==> entries[i].name != ""
  }

  /** `Pids()`: the numbers named by the all-digit directories, in directory order. */
  function Pids(entries: seq<DirEntry>): (pids: seq<int>)
    requires NamedDirectories(entries)
    ensures forall n :: n in pids <==>
      exists i :: 0 <= i < |entries| && IsPidEntry(entries[i]) && Value(entries[i].name) == n
    ensures |pids| <= |entries|
    decreases |entries|
  {
    if |entries| == 0 then []
    else
      var rest := Pids(entries[1..]);
      assert forall i :: 1 <= i < |entries| ==> entries[i] == entries[1..][i - 1];
      if IsPidEntry(entries[0]) then [Value(entries[0].name) as int] + rest else rest
  }

  /** Entries are handled one by one: the listing order is kept. */
  lemma {:induction false} PidsAppend(a: seq<DirEntry>, b: seq<DirEntry>)
    requires NamedDirectories(a) && NamedDirectories(b)
    ensures NamedDirectories(a + b) && Pids(a + b) == Pids(a) + Pids(b)
    decreases |a|
  {
    if |a| == 0 {
      assert a + b == b;
    } else {
      assert (a + b)[1..] == a[1..] + b;
      PidsAppend(a[1..], b);
    }
  }

  function PidDirectories(ps: seq<nat>): (entries: seq<DirEntry>)
    ensures |entries| == |ps|
  {
    seq(|ps|, i requires 0 <= i < |ps| => DirEntry(NatToString(ps[i]), true))
  }

  /** Listing one directory per process id gives the ids back, in listing order. */
  lemma {:induction false} PidsOfPidDirectories(ps: seq<nat>)
    ensures NamedDirectories(PidDirectories(ps))
    ensures Pids(PidDirectories(ps)) == ps
    decreases |ps|
  {
    if |ps| > 0 {
      assert PidDirectories(ps)[1..] == PidDirectories(ps[1..]);
      PidsOfPidDirectories(ps[1..]);
      assert ps == [ps[0]] + ps[1..];
    }
  }

  // ---------------------------------------------------------------------------
  // System uptime: /proc/uptime

  /** `UpTime()`: `>> long` on the first line, so the whole seconds of the first field. */
  function UpTime(uptime: seq<string>): nat {
    var ts := Tokens(FirstLine(uptime));
    if |ts| == 0 then 0 else LeadingValue(ts[0])
  }

  /** The fractional part of "12345.67 54321.00" is dropped. */
  lemma UpTimeTruncates(secs: nat, frac: string, idle: string, rest: seq<string>)
    requires IsDigits(frac)
    ensures UpTime([NatToString(secs) + "." + frac + " " + idle] + rest) == secs
  {
    var n := NatToString(secs);
    var w := n + "." + frac;
    assert IsToken(w) by {
      assert forall i :: 0 <= i < |w| ==> w[i] == '.' || IsDigit(w[i]);
    }
    TokensOfWordThen(w, idle);
    assert w == n + ("." + frac);
    DigitPrefixOfNumeral(n, "." + frac);
  }

  // ---------------------------------------------------------------------------
  // CPU summary line: the first line of /proc/stat

  /** Positions of the counters on the CPU summary line, after its "cpu" label. */
  const IdxUser := 0
  const IdxNice := 1
  const IdxSystem := 2
  const IdxIdle := 3
  const IdxIOwait := 4
  const IdxIrq := 5
  const IdxSoftIrq := 6
  const IdxSteal := 7
  const IdxGuest := 8
  const IdxGuestNice := 9

  /** `CpuUtilization()`: every token of the first line except the literal "cpu", in order. */
  function CpuUtilization(stat: seq<string>): (sample: seq<string>)
    ensures forall t :: t in sample <==> t in Tokens(FirstLine(stat)) && t != "cpu"
  {
    RemoveAll(Tokens(FirstLine(stat)), "cpu")
  }

  /** The sample is the first line's tokens other than "cpu", at their original positions and in
      their original order. */
  lemma CpuUtilizationInOrder(stat: seq<string>)
    ensures var ts := Tokens(FirstLine(stat));
      KeepsInOrder(ts, "cpu", CpuUtilization(stat), KeptBelow(ts, "cpu", |ts|), |ts|)
  {
    RemoveAllInOrder(Tokens(FirstLine(stat)), "cpu");
  }

  /** Sum of the leading values of the fields of `fields` whose position `keep` selects. */
  function SumWhere(fields: seq<string>, keep: int -> bool): nat
    decreases |fields|
  {
    if |fields| == 0 then 0
    else
      var k := |fields| - 1;
      SumWhere(fields[..k], keep) + (if keep(k) then LeadingValue(fields[k]) else 0)
  }

  /** What position `k` adds to the sum. */
  function Selected(fields: seq<string>, keep: int -> bool, k: nat): nat
    requires k < |fields|
  {
    if keep(k) then LeadingValue(fields[k]) else 0
  }

  /** One more field, at position k, adds its value exactly when it is selected. */
  lemma SumWhereStep(fields: seq<string>, keep: int -> bool, k: nat)
    requires k < |fields|
    ensures SumWhere(fields[..k + 1], keep) == SumWhere(fields[..k], keep) + Selected(fields, keep, k)
  {
    assert fields[..k + 1][..k] == fields[..k];
  }

  /** Every selected field can be given to `std::stol` without an exception. */
  predicate StolReadable(fields: seq<string>, keep: int -> bool) {
    forall i :: 0 <= i < |fields| && keep(i) ==> StartsWithDigit(fields[i])
  }

  /** The counters `Jiffies()` adds up: all but guest and guest_nice, which the kernel
      already counts inside user and nice. */
  predicate IsJiffyField(i: int) {
    i != IdxGuest && i != IdxGuestNice
  }

  predicate IsIdleField(i: int) {
    i == IdxIdle || i == IdxIOwait
  }

  predicate IsActiveField(i: int) {
    IsJiffyField(i) && !IsIdleField(i)
  }

  predicate JiffiesReadable(stat: seq<string>) {
    StolReadable(CpuUtilization(stat), IsJiffyField)
  }

  /** `Jiffies()`: total CPU time since boot. */
  function Jiffies(stat: seq<string>): nat
    requires JiffiesReadable(stat)
  {
    SumWhere(CpuUtilization(stat), IsJiffyField)
  }

  predicate IdleReadable(stat: seq<string>) {
    var sample := CpuUtilization(stat);
    |sample| > IdxIOwait && StartsWithDigit(sample[IdxIdle]) && StartsWithDigit(sample[IdxIOwait])
  }

  /** `IdleJiffies()`: idle plus iowait; the source indexes the sample without a bounds check,
      so a line with fewer than five counters is outside its contract. */
  function IdleJiffies(stat: seq<string>): nat
    requires IdleReadable(stat)
  {
    var sample := CpuUtilization(stat);
    Stol(sample[IdxIdle]) + Stol(sample[IdxIOwait])
  }

  /** `ActiveJiffies()`: total minus idle, which is exactly the sum of the counters that are
      neither guest nor idle time, so it is never negative. */
  function ActiveJiffies(stat: seq<string>): (r: int)
    requires JiffiesReadable(stat) && IdleReadable(stat)
    ensures r == SumWhere(CpuUtilization(stat), IsActiveField)
    ensures r >= 0
  {
    var sample := CpuUtilization(stat);
    SumWhereDrop(sample, IsJiffyField, IsActiveField, IdxIdle, IdxIOwait);
    Jiffies(stat) - IdleJiffies(stat)
  }

  /** Dropping two selected positions from a selection removes exactly their values from the sum. */
  lemma {:induction false} SumWhereDrop(fields: seq<string>, keep: int -> bool, kept: int -> bool, a: int, b: int)
    requires 0 <= a < |fields| && 0 <= b < |fields| && a != b
    requires keep(a) && keep(b)
    requires forall i :: kept(i) <==> keep(i) && i != a && i != b
    ensures SumWhere(fields, keep) == SumWhere(fields, kept) + LeadingValue(fields[a]) + LeadingValue(fields[b])
    decreases |fields|
  {
    var k := |fields| - 1;
    var init := fields[..k];
    if k == a || k == b {
      var other := if k == a then b else a;
      assert init[other] == fields[other];
      SumWhereDropOne(init, keep, kept, other);
    } else {
      assert init[a] == fields[a] && init[b] == fields[b];
      SumWhereDrop(init, keep, kept, a, b);
    }
  }

  lemma {:induction false} SumWhereDropOne(fields: seq<string>, keep: int -> bool, kept: int -> bool, a: int)
    requires 0 <= a < |fields| && keep(a)
    requires forall i :: 0 <= i < |fields| ==> (kept(i) <==> keep(i) && i != a)
    ensures SumWhere(fields, keep) == SumWhere(fields, kept) + LeadingValue(fields[a])
    decreases |fields|
  {
    var k := |fields| - 1;
    var init := fields[..k];
    if k == a {
      SumWhereSame(init, keep, kept);
    } else {
      assert init[a] == fields[a];
      SumWhereDropOne(init, keep, kept, a);
    }
  }

  lemma {:induction false} SumWhereSame(fields: seq<string>, keep: int -> bool, kept: int -> bool)
    requires forall i :: 0 <= i < |fields| ==> (kept(i) <==> keep(i))
    ensures SumWhere(fields, keep) == SumWhere(fields, kept)
    decreases |fields|
  {
    if |fields| > 0 {
      SumWhereSame(fields[..|fields| - 1], keep, kept);
    }
  }

  /** For a full ten-counter sample the total is the sum of all counters minus guest and
      guest_nice, and active plus idle is the total. */
  lemma JiffiesOfFullSample(stat: seq<string>)
    requires JiffiesReadable(stat) && IdleReadable(stat)
    requires |CpuUtilization(stat)| == 10
    ensures var sample := CpuUtilization(stat);
      Jiffies(stat) == SumWhere(sample, AnyField) - LeadingValue(sample[IdxGuest]) - LeadingValue(sample[IdxGuestNice])
    ensures ActiveJiffies(stat) + IdleJiffies(stat) == Jiffies(stat)
  {
    var sample := CpuUtilization(stat);
    SumWhereDrop(sample, AnyField, IsJiffyField, IdxGuest, IdxGuestNice);
  }

  predicate AnyField(i: int) {
    true
  }

  /** A CPU summary line built from named counters, as the kernel writes it. */
  datatype CpuTimes = CpuTimes(user: nat, nice: nat, system: nat, idle: nat, iowait: nat,
                               irq: nat, softirq: nat, steal: nat, guest: nat, guestNice: nat)

  function CpuValues(t: CpuTimes): seq<nat> {
    [t.user, t.nice, t.system, t.idle, t.iowait, t.irq, t.softirq, t.steal, t.guest, t.guestNice]
  }

  /** `std::to_string` of each value. */
  function Numerals(vs: seq<nat>): (ns: seq<string>)
    ensures |ns| == |vs|
    ensures forall i :: 0 <= i < |vs| ==> ns[i] == NatToString(vs[i])
  {
    seq(|vs|, i requires 0 <= i < |vs| => NatToString(vs[i]))
  }

  function CpuLine(t: CpuTimes): string {
    "cpu  " + Unwords(Numerals(CpuValues(t)))
  }

  lemma NumeralsAreTokens(vs: seq<nat>)
    ensures AllTokens(Numerals(vs))
    ensures "cpu" !in Numerals(vs)
    ensures forall i :: 0 <= i < |vs| ==> StartsWithDigit(Numerals(vs)[i])
  {
    var ns := Numerals(vs);
    forall i | 0 <= i < |ns|
      ensures IsToken(ns[i]) && ns[i] != "cpu"
    {
      NumeralIsToken(ns[i]);
      assert IsDigit(ns[i][0]);
    }
  }

  lemma TokensOfCpuLine(t: CpuTimes)
    ensures Tokens(CpuLine(t)) == ["cpu"] + Numerals(CpuValues(t))
  {
    var ns := Numerals(CpuValues(t));
    NumeralsAreTokens(CpuValues(t));
    TokensOfUnwords(ns);
    TokensAfterSpace(' ', Unwords(ns));
    TokensOfWordThen("cpu", " " + Unwords(ns));
    assert "cpu" + " " + (" " + Unwords(ns)) == CpuLine(t);
  }

  /** The sample read back from a CPU summary line is its ten counters, in kernel order. */
  lemma CpuUtilizationOfCpuLine(t: CpuTimes, rest: seq<string>)
    ensures CpuUtilization([CpuLine(t)] + rest) == Numerals(CpuValues(t))
  {
    var ns := Numerals(CpuValues(t));
    TokensOfCpuLine(t);
    NumeralsAreTokens(CpuValues(t));
    RemoveAllAbsent(ns, "cpu");
    assert (["cpu"] + ns)[1..] == ns;
  }

  lemma {:induction false} RemoveAllAbsent(ts: seq<string>, w: string)
    requires w !in ts
    ensures RemoveAll(ts, w) == ts
    decreases |ts|
  {
    if |ts| > 0 {
      RemoveAllAbsent(ts[1..], w);
      assert ts == [ts[0]] + ts[1..];
    }
  }

  /** The same sum over numbers instead of their numerals. */
  function NatSumWhere(vs: seq<nat>, keep: int -> bool): nat
    decreases |vs|
  {
    if |vs| == 0 then 0
    else
      var k := |vs| - 1;
      NatSumWhere(vs[..k], keep) + (if keep(k) then vs[k] else 0)
  }

  /** Summing the numerals `std::to_string` wrote gives the sum of the numbers. */
  lemma {:induction false} SumWhereOfNumerals(vs: seq<nat>, keep: int -> bool)
    ensures SumWhere(Numerals(vs), keep) == NatSumWhere(vs, keep)
    decreases |vs|
  {
    if |vs| > 0 {
      var k := |vs| - 1;
      assert Numerals(vs)[..k] == Numerals(vs[..k]);
      SumWhereOfNumerals(vs[..k], keep);
      LeadingValueOfNatToString(vs[k]);
    }
  }

  /** The contribution of position `k`: its value when selected, nothing otherwise. */
  function Pick(vs: seq<nat>, keep: int -> bool, k: nat): nat
    requires k < |vs|
  {
    if keep(k) then vs[k] else 0
  }

  lemma NatSumStep(vs: seq<nat>, keep: int -> bool, k: nat)
    requires k < |vs|
    ensures NatSumWhere(vs[..k + 1], keep) == NatSumWhere(vs[..k], keep) + Pick(vs, keep, k)
  {
    assert vs[..k + 1][..k] == vs[..k];
  }

  /** Ten counters, position by position. */
  lemma NatSumOfTen(vs: seq<nat>, keep: int -> bool)
    requires |vs| == 10
    ensures NatSumWhere(vs, keep) ==
      Pick(vs, keep, 0) + Pick(vs, keep, 1) + Pick(vs, keep, 2) + Pick(vs, keep, 3) + Pick(vs, keep, 4)
      + Pick(vs, keep, 5) + Pick(vs, keep, 6) + Pick(vs, keep, 7) + Pick(vs, keep, 8) + Pick(vs, keep, 9)
  {
    assert NatSumWhere(vs[..0], keep) == 0;

    assert NatSumWhere(vs[..1], keep) == Pick(vs, keep, 0) by {
      NatSumStep(vs, keep, 0);
    }
    assert NatSumWhere(vs[..2], keep) == Pick(vs, keep, 0) + Pick(vs, keep, 1) by {
      NatSumStep(vs, keep, 1);
    }
    assert NatSumWhere(vs[..3], keep) == Pick(vs, keep, 0) + Pick(vs, keep, 1) + Pick(vs, keep, 2) by {
      NatSumStep(vs, keep, 2);
    }
    assert NatSumWhere(vs[..4], keep) == Pick(vs, keep, 0) + Pick(vs, keep, 1) + Pick(vs, keep, 2) + Pick(vs, keep, 3) by {
      NatSumStep(vs, keep, 3);
    }
    assert NatSumWhere(vs[..5], keep) == Pick(vs, keep, 0) + Pick(vs, keep, 1) + Pick(vs, keep, 2) + Pick(vs, keep, 3) + Pick(vs, keep, 4) by {
      NatSumStep(vs, keep, 4);
    }
    assert NatSumWhere(vs[..6], keep) == Pick(vs, keep, 0) + Pick(vs, keep, 1) + Pick(vs, keep, 2) + Pick(vs, keep, 3) + Pick(vs, keep, 4) + Pick(vs, keep, 5) by {
      NatSumStep(vs, keep, 5);
    }
    assert NatSumWhere(vs[..7], keep) == Pick(vs, keep, 0) + Pick(vs, keep, 1) + Pick(vs, keep, 2) + Pick(vs, keep, 3) + Pick(vs, keep, 4) + Pick(vs, keep, 5) + Pick(vs, keep, 6) by {
      NatSumStep(vs, keep, 6);
    }
    assert NatSumWhere(vs[..8], keep) == Pick(vs, keep, 0) + Pick(vs, keep, 1) + Pick(vs, keep, 2) + Pick(vs, keep, 3) + Pick(vs, keep, 4) + Pick(vs, keep, 5) + Pick(vs, keep, 6) + Pick(vs, keep, 7) by {
      NatSumStep(vs, keep, 7);
    }
    assert NatSumWhere(vs[..9], keep) == Pick(vs, keep, 0) + Pick(vs, keep, 1) + Pick(vs, keep, 2) + Pick(vs, keep, 3) + Pick(vs, keep, 4) + Pick(vs, keep, 5) + Pick(vs, keep, 6) + Pick(vs, keep, 7) + Pick(vs, keep, 8) by {
      NatSumStep(vs, keep, 8);
    }
    assert NatSumWhere(vs[..10], keep) == Pick(vs, keep, 0) + Pick(vs, keep, 1) + Pick(vs, keep, 2) + Pick(vs, keep, 3) + Pick(vs, keep, 4) + Pick(vs, keep, 5) + Pick(vs, keep, 6) + Pick(vs, keep, 7) + Pick(vs, keep, 8) + Pick(vs, keep, 9) by {
      NatSumStep(vs, keep, 9);
    }
    assert vs[..10] == vs;
  }

  /** Jiffies, idle and active time read from a CPU summary line are the named counter sums. */
  lemma JiffiesOfCpuLine(t: CpuTimes, rest: seq<string>)
    ensures JiffiesReadable([CpuLine(t)] + rest) && IdleReadable([CpuLine(t)] + rest)
    ensures Jiffies([CpuLine(t)] + rest)
         == t.user + t.nice + t.system + t.idle + t.iowait + t.irq + t.softirq + t.steal
    ensures IdleJiffies([CpuLine(t)] + rest) == t.idle + t.iowait
    ensures ActiveJiffies([CpuLine(t)] + rest) == t.user + t.nice + t.system + t.irq + t.softirq + t.steal
  {
    var vs := CpuValues(t);
    CpuUtilizationOfCpuLine(t, rest);
    NumeralsAreTokens(vs);
    LeadingValueOfNatToString(t.idle);
    LeadingValueOfNatToString(t.iowait);
    SumWhereOfNumerals(vs, IsJiffyField);
    SumWhereOfNumerals(vs, IsActiveField);
    NatSumOfTen(vs, IsJiffyField);
    NatSumOfTen(vs, IsActiveField);
  }

  // ---------------------------------------------------------------------------
  // Per-process CPU time: /proc/<pid>/stat, fields 14 to 17

  /** All tokens of all lines, in order: the stream that the source's position counter walks,
      since the counter is not reset at a new line. */
  function StreamTokens(lines: seq<string>): seq<string>
    decreases |lines|
  {
    if |lines| == 0 then [] else StreamTokens(lines[..|lines| - 1]) + Tokens(lines[|lines| - 1])
  }

  lemma {:induction false} StreamTokensPrefix(lines: seq<string>, i: nat)
    requires i <= |lines|
    ensures StreamTokens(lines[..i]) <= StreamTokens(lines)
    decreases |lines| - i
  {
    if i < |lines| {
      StreamTokensPrefix(lines, i + 1);
      assert lines[..i + 1][..i] == lines[..i];
    } else {
      assert lines[..i] == lines;
    }
  }

  /** utime, stime, cutime and cstime: 1-based fields 14 to 17, so 0-based positions 13 to 16. */
  predicate IsPidCpuField(i: int) {
    13 <= i < 17
  }

  predicate PidStatReadable(stat: seq<string>) {
    StolReadable(StreamTokens(stat), IsPidCpuField)
  }

  /** `ActiveJiffies(pid)`, with the source's loops: every token of every line advances one
      counter, and the tokens it finds at 14 to 17 are added up. */
  method PidActiveJiffies(stat: seq<string>) returns (total: nat)
    requires PidStatReadable(stat)
    ensures total == SumWhere(StreamTokens(stat), IsPidCpuField)
  {
    total := 0;
    var index := 1;
    for i := 0 to |stat|
      invariant index == |StreamTokens(stat[..i])| + 1
      invariant total == SumWhere(StreamTokens(stat[..i]), IsPidCpuField)
    {
      index, total := PidStatLine(stat, i, index, total);
    }
    assert stat[..|stat|] == stat;
  }

  /** The inner loop of `ActiveJiffies(pid)`: the tokens of line `i`, each advancing the
      1-based counter `index` and added to `total` at positions 14 to 17. */
  method PidStatLine(stat: seq<string>, i: nat, index0: int, total0: nat) returns (index: int, total: nat)
    requires i < |stat| && PidStatReadable(stat)
    requires index0 == |StreamTokens(stat[..i])| + 1
    requires total0 == SumWhere(StreamTokens(stat[..i]), IsPidCpuField)
    ensures index == |StreamTokens(stat[..i + 1])| + 1
    ensures total == SumWhere(StreamTokens(stat[..i + 1]), IsPidCpuField)
  {
    var done := StreamTokens(stat[..i]);
    var ts := Tokens(stat[i]);
    index, total := index0, total0;
    StreamTokensNextLine(stat, i);
    assert done + ts[..0] == done;
    for j := 0 to |ts|
      invariant index == |done| + j + 1
      invariant total == SumWhere(done + ts[..j], IsPidCpuField)
    {
      PidStatToken(stat, i, j);
      if index == 14 || index == 15 || index == 16 || index == 17 {
        total := total + Stol(ts[j]);
      }
      index := index + 1;
    }
    assert ts[..|ts|] == ts;
  }

  /** The tokens of the first `i + 1` lines are those of the first `i` followed by line `i`'s. */
  lemma StreamTokensNextLine(stat: seq<string>, i: nat)
    requires i < |stat|
    ensures StreamTokens(stat[..i + 1]) == StreamTokens(stat[..i]) + Tokens(stat[i])
    ensures StreamTokens(stat[..i + 1]) <= StreamTokens(stat)
  {
    assert stat[..i + 1][..i] == stat[..i];
    StreamTokensPrefix(stat, i + 1);
  }

  /** Token `j` of line `i` sits at stream position |tokens before line i| + j: it is added when
      that position is one of the four, and then it starts with a digit. */
  lemma PidStatToken(stat: seq<string>, i: nat, j: nat)
    requires i < |stat| && j < |Tokens(stat[i])| && PidStatReadable(stat)
    ensures var done, ts := StreamTokens(stat[..i]), Tokens(stat[i]);
      IsPidCpuField(|done| + j) ==> StartsWithDigit(ts[j])
    ensures var done, ts := StreamTokens(stat[..i]), Tokens(stat[i]);
      SumWhere(done + ts[..j + 1], IsPidCpuField)
        == SumWhere(done + ts[..j], IsPidCpuField) + (if IsPidCpuField(|done| + j) then LeadingValue(ts[j]) else 0)
  {
    var done, ts := StreamTokens(stat[..i]), Tokens(stat[i]);
    StreamTokensNextLine(stat, i);
    var next := done + ts[..j + 1];
    assert next[..|done| + j] == done + ts[..j];
    assert next[|done| + j] == ts[j];
    assert StreamTokens(stat)[|done| + j] == ts[j];
  }

  /** Selecting only positions below `hi` ignores everything from `hi` on. */
  lemma {:induction false} SumWhereBelow(fields: seq<string>, keep: int -> bool, hi: nat)
    requires hi <= |fields|
    requires forall i :: hi <= i < |fields| ==> !keep(i)
    ensures SumWhere(fields, keep) == SumWhere(fields[..hi], keep)
    decreases |fields|
  {
    if |fields| > hi {
      var k := |fields| - 1;
      assert fields[..k][..hi] == fields[..hi];
      SumWhereBelow(fields[..k], keep, hi);
    } else {
      assert fields[..hi] == fields;
    }
  }

  lemma {:induction false} SumWhereNone(fields: seq<string>, keep: int -> bool)
    requires forall i :: 0 <= i < |fields| ==> !keep(i)
    ensures SumWhere(fields, keep) == 0
    decreases |fields|
  {
    if |fields| > 0 {
      SumWhereNone(fields[..|fields| - 1], keep);
    }
  }

  lemma StreamTokensOfOneLine(line: string)
    ensures StreamTokens([line]) == Tokens(line)
  {
    assert [line][..0] == [];
  }

  /** Selecting positions 13 to 16 of at least 17 fields adds up exactly those four. */
  lemma SumWherePidCpuFields(fields: seq<string>)
    requires |fields| >= 17
    ensures SumWhere(fields, IsPidCpuField)
         == LeadingValue(fields[13]) + LeadingValue(fields[14]) + LeadingValue(fields[15]) + LeadingValue(fields[16])
  {
    SumWhereBelow(fields, IsPidCpuField, 17);
    var f := fields[..17];
    assert f[..17] == f;
    SumWhereNone(f[..13], IsPidCpuField);
    assert SumWhere(f[..14], IsPidCpuField) == Selected(f, IsPidCpuField, 13) by {
      SumWhereStep(f, IsPidCpuField, 13);
    }
    assert SumWhere(f[..15], IsPidCpuField) == Selected(f, IsPidCpuField, 13) + Selected(f, IsPidCpuField, 14) by {
      SumWhereStep(f, IsPidCpuField, 14);
    }
    assert SumWhere(f[..16], IsPidCpuField)
        == Selected(f, IsPidCpuField, 13) + Selected(f, IsPidCpuField, 14) + Selected(f, IsPidCpuField, 15) by {
      SumWhereStep(f, IsPidCpuField, 15);
    }
    assert SumWhere(f[..17], IsPidCpuField)
        == Selected(f, IsPidCpuField, 13) + Selected(f, IsPidCpuField, 14) + Selected(f, IsPidCpuField, 15)
           + Selected(f, IsPidCpuField, 16) by {
      SumWhereStep(f, IsPidCpuField, 16);
    }
  }

  /** On a one-line stat file the sum is utime + stime + cutime + cstime. */
  lemma PidActiveJiffiesOfStatLine(fields: seq<string>)
    requires AllTokens(fields) && |fields| >= 17
    ensures StreamTokens([Unwords(fields)]) == fields
    ensures SumWhere(StreamTokens([Unwords(fields)]), IsPidCpuField)
         == LeadingValue(fields[13]) + LeadingValue(fields[14]) + LeadingValue(fields[15]) + LeadingValue(fields[16])
  {
    TokensOfUnwords(fields);
    StreamTokensOfOneLine(Unwords(fields));
    SumWherePidCpuFields(fields);
  }

  /** The counter runs on across lines: splitting the same tokens over two lines moves nothing. */
  lemma StreamTokensOfTwoLines(a: string, b: string)
    ensures StreamTokens([a, b]) == Tokens(a) + Tokens(b)
    ensures StreamTokens([a + " " + b]) == Tokens(a) + Tokens(b)
  {
    assert [a, b][..1] == [a];
    StreamTokensOfOneLine(a);
    assert StreamTokens([a, b]) == StreamTokens([a]) + Tokens(b);
    StreamTokensOfOneLine(a + " " + b);
    TokensSplitAtSpace(a, ' ', b);
  }

  // ---------------------------------------------------------------------------
  // Process counts: "processes" and "procs_running" lines of /proc/stat

  /** The variables of `linestream >> key >> value` that outlive each line. */
  datatype KeyRead = KeyRead(key: string, value: nat)

  const NothingRead := KeyRead("", 0)

  /** One `linestream >> key >> value` on a line: an empty line fails at `key` and changes
      nothing; a line with one token sets `key` and fails at `value`, which keeps its old
      content; otherwise both are read, `value` as `>> int` reads it. */
  function ReadKeyValue(prev: KeyRead, line: string): KeyRead {
    var ts := Tokens(line);
    if |ts| == 0 then prev
    else if |ts| == 1 then KeyRead(ts[0], prev.value)
    else KeyRead(ts[0], LeadingValue(ts[1]))
  }

  /** Reads lines until the key read equals `key` and returns the value then read; at the end of
      the file, the last value read. */
  function ScanUntilKey(lines: seq<string>, prev: KeyRead, key: string): nat
    decreases |lines|
  {
    if |lines| == 0 then prev.value
    else
      var next := ReadKeyValue(prev, lines[0]);
      if next.key == key then next.value else ScanUntilKey(lines[1..], next, key)
  }

  /** The loop as `TotalProcesses()` writes it: it returns as soon as the key read is NOT `key`. */
  function ScanWhileKey(lines: seq<string>, prev: KeyRead, key: string): nat
    decreases |lines|
  {
    if |lines| == 0 then prev.value
    else
      var next := ReadKeyValue(prev, lines[0]);
      if next.key != key then next.value else ScanWhileKey(lines[1..], next, key)
  }

  /** `RunningProcesses()`. */
  function RunningProcesses(stat: seq<string>): nat {
    ScanUntilKey(stat, NothingRead, "procs_running")
  }

  /** `TotalProcesses()` as written: the value on the first line whose key is not "processes". */
  function TotalProcesses(stat: seq<string>): nat {
    ScanWhileKey(stat, NothingRead, "processes")
  }

  /** `TotalProcesses()` as its comment intends: search until the "processes" line. */
  function TotalProcessesIntended(stat: seq<string>): nat {
    ScanUntilKey(stat, NothingRead, "processes")
  }

  /** A "key value" line of /proc/stat. */
  function KeyLine(key: string, n: nat): string {
    key + " " + NatToString(n)
  }

  lemma TokensOfKeyLine(key: string, n: nat)
    requires IsToken(key)
    ensures Tokens(KeyLine(key, n)) == [key, NatToString(n)]
  {
    TokensOfWordThen(key, NatToString(n));
    NumeralIsToken(NatToString(n));
    TokensOfToken(NatToString(n));
  }

  /** A line that cannot leave `key` behind as the key read. */
  predicate KeyAbsent(line: string, key: string) {
    var ts := Tokens(line);
    |ts| == 0 || ts[0] != key
  }

  lemma {:induction false} ScanUntilKeyFinds(pre: seq<string>, key: string, n: nat, post: seq<string>, prev: KeyRead)
    requires IsToken(key) && prev.key != key
    requires forall i :: 0 <= i < |pre| ==> KeyAbsent(pre[i], key)
    ensures ScanUntilKey(pre + [KeyLine(key, n)] + post, prev, key) == n
    decreases |pre|
  {
    var lines := pre + [KeyLine(key, n)] + post;
    if |pre| == 0 {
      TokensOfKeyLine(key, n);
      LeadingValueOfNatToString(n);
      assert lines[0] == KeyLine(key, n);
    } else {
      assert lines[0] == pre[0];
      assert lines[1..] == pre[1..] + [KeyLine(key, n)] + post;
      ScanUntilKeyFinds(pre[1..], key, n, post, ReadKeyValue(prev, pre[0]));
    }
  }

  /** The count on the first "procs_running" line is returned, whatever follows it. */
  lemma RunningProcessesReadsKey(pre: seq<string>, n: nat, post: seq<string>)
    requires forall i :: 0 <= i < |pre| ==> KeyAbsent(pre[i], "procs_running")
    ensures RunningProcesses(pre + [KeyLine("procs_running", n)] + post) == n
  {
    ScanUntilKeyFinds(pre, "procs_running", n, post, NothingRead);
  }

  /** The second token of a line, when it has one: the only thing that changes `value`. */
  function SecondToken(line: string): Option<string> {
    var ts := Tokens(line);
    if |ts| >= 2 then Some(ts[1]) else None
  }

  function SecondTokens(lines: seq<string>): (r: seq<Option<string>>)
    ensures |r| == |lines|
    ensures forall i :: 0 <= i < |lines| ==> r[i] == SecondToken(lines[i])
  {
    seq(|lines|, i requires 0 <= i < |lines| => SecondToken(lines[i]))
  }

  /** When no line has the key, the scan runs to the end and returns the last value read. */
  lemma {:induction false} ScanUntilKeyMissing(lines: seq<string>, prev: KeyRead, key: string)
    requires prev.key != key
    requires forall i :: 0 <= i < |lines| ==> KeyAbsent(lines[i], key)
    ensures ScanUntilKey(lines, prev, key)
         == match Last(SecondTokens(lines)) case Some(v) => LeadingValue(v) case None => prev.value
    decreases |lines|
  {
    if |lines| > 0 {
      assert SecondTokens(lines)[1..] == SecondTokens(lines[1..]);
      ScanUntilKeyMissing(lines[1..], ReadKeyValue(prev, lines[0]), key);
    }
  }

  /** Without a "procs_running" line the result is the leading number on the last line with
      two tokens, or 0 when there is none. */
  lemma RunningProcessesWithoutKey(stat: seq<string>)
    requires forall i :: 0 <= i < |stat| ==> KeyAbsent(stat[i], "procs_running")
    ensures RunningProcesses(stat)
         == match Last(SecondTokens(stat)) case Some(v) => LeadingValue(v) case None => 0
  {
    ScanUntilKeyMissing(stat, NothingRead, "procs_running");
  }

  /** A line holding the key and nothing else stops the scan, but its failed `>> value` leaves
      the value of the last earlier line with two tokens, or the initial value. */
  lemma {:induction false} ScanUntilKeyBareKey(pre: seq<string>, line: string, post: seq<string>, prev: KeyRead, key: string)
    requires prev.key != key && Tokens(line) == [key]
    requires forall i :: 0 <= i < |pre| ==> KeyAbsent(pre[i], key)
    ensures ScanUntilKey(pre + [line] + post, prev, key)
         == match Last(SecondTokens(pre)) case Some(v) => LeadingValue(v) case None => prev.value
    decreases |pre|
  {
    var lines := pre + [line] + post;
    if |pre| == 0 {
      assert lines[0] == line;
    } else {
      assert lines[0] == pre[0];
      assert lines[1..] == pre[1..] + [line] + post;
      assert SecondTokens(pre)[1..] == SecondTokens(pre[1..]);
      ScanUntilKeyBareKey(pre[1..], line, post, ReadKeyValue(prev, pre[0]), key);
    }
  }

  /** A "procs_running" line without a number returns a stale count: the number on the last
      earlier line with two tokens, 0 when there is none. */
  lemma RunningProcessesBareKey(pre: seq<string>, line: string, post: seq<string>)
    requires Tokens(line) == ["procs_running"]
    requires forall i :: 0 <= i < |pre| ==> KeyAbsent(pre[i], "procs_running")
    ensures RunningProcesses(pre + [line] + post)
         == match Last(SecondTokens(pre)) case Some(v) => LeadingValue(v) case None => 0
  {
    ScanUntilKeyBareKey(pre, line, post, NothingRead, "procs_running");
  }

  /** The corrected `TotalProcesses()`: the count on the first "processes" line, whatever comes
      before or after it. */
  lemma TotalProcessesIntendedReadsKey(pre: seq<string>, n: nat, post: seq<string>)
    requires forall i :: 0 <= i < |pre| ==> KeyAbsent(pre[i], "processes")
    ensures TotalProcessesIntended(pre + [KeyLine("processes", n)] + post) == n
  {
    ScanUntilKeyFinds(pre, "processes", n, post, NothingRead);
  }

  /** As written, the first line decides: a first line "key value" with any other key than
      "processes" gives its value, whatever follows. */
  lemma TotalProcessesReadsFirstLine(line: string, rest: seq<string>)
    requires |Tokens(line)| >= 2 && Tokens(line)[0] != "processes"
    ensures TotalProcesses([line] + rest) == LeadingValue(Tokens(line)[1])
  {
  }

  /** As written, in general: leading "processes" lines are skipped, and the first line with any
      other key and a value decides, whatever follows. */
  lemma {:induction false} TotalProcessesFirstOther(pre: seq<string>, line: string, post: seq<string>, prev: KeyRead)
    requires forall i :: 0 <= i < |pre| ==> |Tokens(pre[i])| > 0 && Tokens(pre[i])[0] == "processes"
    requires |Tokens(line)| >= 2 && Tokens(line)[0] != "processes"
    ensures ScanWhileKey(pre + [line] + post, prev, "processes") == LeadingValue(Tokens(line)[1])
    decreases |pre|
  {
    var lines := pre + [line] + post;
    if |pre| == 0 {
      assert lines[0] == line;
    } else {
      assert lines[0] == pre[0];
      assert lines[1..] == pre[1..] + [line] + post;
      TotalProcessesFirstOther(pre[1..], line, post, ReadKeyValue(prev, pre[0]));
    }
  }

  /** On the layout of /proc/stat, whose first line is the "cpu" line, the source's
      `TotalProcesses()` returns the user time of all CPUs, while the intended version returns
      the process count. */
  lemma TotalProcessesMisreadsStat(t: CpuTimes, pre: seq<string>, n: nat, post: seq<string>)
    requires forall i :: 0 <= i < |pre| ==> KeyAbsent(pre[i], "processes")
    ensures TotalProcesses([CpuLine(t)] + pre + [KeyLine("processes", n)] + post) == t.user
    ensures TotalProcessesIntended([CpuLine(t)] + pre + [KeyLine("processes", n)] + post) == n
  {
    var stat := [CpuLine(t)] + pre + [KeyLine("processes", n)] + post;
    TokensOfCpuLine(t);
    var ns := Numerals(CpuValues(t));
    LeadingValueOfNatToString(t.user);
    assert stat[0] == CpuLine(t);
    assert Tokens(CpuLine(t))[1] == ns[0];
    assert stat == ([CpuLine(t)] + pre) + [KeyLine("processes", n)] + post;
    ScanUntilKeyFinds([CpuLine(t)] + pre, "processes", n, post, NothingRead);
  }

  // ---------------------------------------------------------------------------
  // Command line: /proc/<pid>/cmdline

  /** `Command(pid)`: the first line of the file, verbatim. */
  function Command(cmdline: seq<string>): string {
    FirstLine(cmdline)
  }

  /** The command is the file's first line as it stands, whatever follows; a missing or empty
      file gives "". */
  lemma CommandReadsFirstLine(line: string, rest: seq<string>)
    ensures Command([line] + rest) == line
    ensures Command([]) == ""
  {
  }

  // ---------------------------------------------------------------------------
  // "Key: value" lines of /proc/<pid>/status

  /** The value `linestream >> key` then `linestream >> value` reads from a line whose first
      token is `key`; a line with the key and nothing after it reads nothing. */
  function KeyedValue(line: string, key: string): Option<string> {
    var ts := Tokens(line);
    if |ts| >= 2 && ts[0] == key then Some(ts[1]) else None
  }

  function KeyedValues(lines: seq<string>, key: string): (r: seq<Option<string>>)
    ensures |r| == |lines|
    ensures forall i :: 0 <= i < |lines| ==> r[i] == KeyedValue(lines[i], key)
  {
    seq(|lines|, i requires 0 <= i < |lines| => KeyedValue(lines[i], key))
  }

  /** The scans of `Ram(pid)` and `Uid(pid)` overwrite their result on every line with the key
      and a value and never stop early, so the last such line wins. An empty line leaves the
      previous key in place, but its failed stream reads no value, so it changes nothing. */
  function StatusValue(status: seq<string>, key: string): (r: Option<string>)
    ensures r.None? <==> forall i :: 0 <= i < |status| ==> KeyedValue(status[i], key).None?
    ensures r.Some? ==> exists i :: 0 <= i < |status| && KeyedValue(status[i], key) == r
                                   && forall j :: i < j < |status| ==> KeyedValue(status[j], key).None?
  {
    Last(KeyedValues(status, key))
  }

  /** `Uid(pid)`: the first value of the last "Uid:" line; "" without one. */
  function Uid(status: seq<string>): (r: string)
    ensures r == "" || IsToken(r)
  {
    StatusValue(status, "Uid:").GetOr("")
  }

  /** `stol` of an empty string throws, so `Ram(pid)` needs a VmSize value starting with a digit. */
  predicate RamReadable(status: seq<string>) {
    var v := StatusValue(status, "VmSize:");
    v.Some? && StartsWithDigit(v.value)
  }

  /** `Ram(pid)`: the last VmSize value, in kB, divided by 1024 and followed by " MB". */
  function Ram(status: seq<string>): (r: string)
    requires RamReadable(status)
    ensures |r| > 3 && r[|r| - 3..] == " MB"
    ensures IsNumeral(r[..|r| - 3])
    ensures Value(r[..|r| - 3]) == LeadingValue(StatusValue(status, "VmSize:").value) / 1024
    ensures r[0] != '0' || |r| == 4
  {
    var mb := NatToString(Stol(StatusValue(status, "VmSize:").value) / 1024);
    NatToStringWidth(Stol(StatusValue(status, "VmSize:").value) / 1024);
    assert (mb + " MB")[..|mb|] == mb;
    mb + " MB"
  }

  /** The VmSize line as the kernel writes it: the kB count right-aligned in eight columns after
      the tab, so "VmSize:\t    4296 kB"; a count of eight or more digits gets no padding. */
  function VmSizeLine(kb: nat): string {
    var n := NatToString(kb);
    "VmSize:\t" + Blanks(8 - |n|) + n + " kB"
  }

  /** The padding puts the count's last digit in the eighth column after the tab. */
  lemma VmSizeLineLayout()
    ensures VmSizeLine(4296) == "VmSize:\t    4296 kB"
  {
    assert NatToString(42) == "42";
    assert NatToString(429) == "429";
    assert NatToString(4296) == "4296";
    assert Blanks(4) == "    ";
  }

  /** `k` spaces, or none when `k` is not positive. */
  function Blanks(k: int): string {
    seq(if k > 0 then k else 0, _ => ' ')
  }

  /** A "key<sep><pad>v rest" line, whitespace padding of any length included, reads as the
      key and the value `v`. */
  lemma KeyedValueOfLine(key: string, sep: char, pad: string, v: string, rest: string)
    requires IsToken(key) && IsSpace(sep) && IsToken(v)
    requires forall i :: 0 <= i < |pad| ==> IsSpace(pad[i])
    ensures KeyedValue(key + [sep] + (pad + (v + " " + rest)), key) == Some(v)
  {
    TokensSplitAtSpace(key, sep, pad + (v + " " + rest));
    TokensOfToken(key);
    TokensAfterSpaces(pad, v + " " + rest);
    TokensOfWordThen(v, rest);
  }

  lemma KeyedValueOfVmSizeLine(kb: nat)
    ensures KeyedValue(VmSizeLine(kb), "VmSize:") == Some(NatToString(kb))
  {
    var key := "VmSize:";
    var n := NatToString(kb);
    var pad := Blanks(8 - |n|);
    NumeralIsToken(n);
    assert IsToken(key);
    KeyedValueOfLine(key, '\t', pad, n, "kB");
    assert key + ['\t'] + (pad + (n + " " + "kB")) == VmSizeLine(kb);
  }

  /** The last VmSize line wins, and a padded "VmSize:\t   20480 kB" reads as "20 MB". */
  lemma RamOfVmSizeLine(pre: seq<string>, kb: nat, post: seq<string>)
    requires forall i :: 0 <= i < |post| ==> KeyedValue(post[i], "VmSize:").None?
    ensures RamReadable(pre + [VmSizeLine(kb)] + post)
    ensures Ram(pre + [VmSizeLine(kb)] + post) == NatToString(kb / 1024) + " MB"
  {
    var status := pre + [VmSizeLine(kb)] + post;
    KeyedValueOfVmSizeLine(kb);
    LeadingValueOfNatToString(kb);
    var vs := KeyedValues(status, "VmSize:");
    assert vs == KeyedValues(pre, "VmSize:") + [Some(NatToString(kb))] + KeyedValues(post, "VmSize:");
    LastBeforeNone(KeyedValues(pre, "VmSize:"), NatToString(kb), KeyedValues(post, "VmSize:"));
  }

  lemma {:induction false} LastBeforeNone(pre: seq<Option<string>>, v: string, post: seq<Option<string>>)
    requires forall i :: 0 <= i < |post| ==> post[i].None?
    ensures Last(pre + [Some(v)] + post) == Some(v)
    decreases |pre|
  {
    if |pre| > 0 {
      assert (pre + [Some(v)] + post)[1..] == pre[1..] + [Some(v)] + post;
      LastBeforeNone(pre[1..], v, post);
    } else {
      assert (pre + [Some(v)] + post)[1..] == post;
    }
  }

  // ---------------------------------------------------------------------------
  // User name: /etc/passwd

  /** `while (linestream >> name >> x >> id)` on one passwd line whose ':' became spaces: the
      name of the first complete triple of tokens whose third token is `uid`. */
  function TripleMatch(ts: seq<string>, uid: string): Option<string>
    decreases |ts|
  {
    if |ts| < 3 then None
    else if ts[2] == uid then Some(ts[0])
    else TripleMatch(ts[3..], uid)
  }

  function PasswdMatch(line: string, uid: string): Option<string> {
    TripleMatch(Tokens(Replace(line, ':', ' ')), uid)
  }

  /** Empty fields vanish once ':' becomes a space, so triples are read across the shifted
      tokens: an entry "name::uid:gid:rest" with an empty password matches its gid, and the
      name comes back as if `gid` were the owner's uid. */
  lemma PasswdMatchAcrossEmptyField(name: string, uid: string, gid: string, rest: string)
    requires IsToken(name) && IsToken(uid) && IsToken(gid)
    requires ':' !in name && ':' !in uid && ':' !in gid
    ensures PasswdMatch(name + "::" + uid + ":" + gid + ":" + rest, gid) == Some(name)
  {
    var line := name + [':'] + ([] + [':'] + (uid + [':'] + (gid + [':'] + rest)));
    assert line == name + "::" + uid + ":" + gid + ":" + rest;
    var tail := gid + [' '] + Replace(rest, ':', ' ');
    var mid := uid + [' '] + tail;
    var spaced := name + " " + (" " + (uid + " " + (gid + " " + Replace(rest, ':', ' '))));
    assert Replace(line, ':', ' ') == spaced by {
      ReplaceAfter(gid, ':', ' ', rest);
      ReplaceAfter(uid, ':', ' ', gid + [':'] + rest);
      ReplaceAfter([], ':', ' ', uid + [':'] + (gid + [':'] + rest));
      ReplaceAfter(name, ':', ' ', [] + [':'] + (uid + [':'] + (gid + [':'] + rest)));
    }
    var more := Tokens(Replace(rest, ':', ' '));
    TokensOfShiftedEntry(name, uid, gid, Replace(rest, ':', ' '));
    assert PasswdMatch(line, gid) == TripleMatch([name, uid, gid] + more, gid);
  }

  /** "name  uid gid rest" reads as name, uid, gid, then rest's tokens. */
  lemma TokensOfShiftedEntry(name: string, uid: string, gid: string, rest: string)
    requires IsToken(name) && IsToken(uid) && IsToken(gid)
    ensures Tokens(name + " " + (" " + (uid + " " + (gid + " " + rest))))
         == [name, uid, gid] + Tokens(rest)
  {
    var tail := gid + " " + rest;
    var mid := uid + " " + tail;
    var ts := Tokens(rest);
    assert Tokens(tail) == [gid] + ts by { TokensOfWordThen(gid, rest); }
    assert Tokens(mid) == [uid] + ([gid] + ts) by { TokensOfWordThen(uid, tail); }
    assert Tokens(" " + mid) == Tokens(mid) by { TokensAfterSpace(' ', mid); }
    assert Tokens(name + " " + (" " + mid)) == [name] + Tokens(" " + mid) by {
      TokensOfWordThen(name, " " + mid);
    }
    assert [name] + ([uid] + ([gid] + ts)) == [name, uid, gid] + ts;
  }

  function PasswdMatches(passwd: seq<string>, uid: string): (r: seq<Option<string>>)
    ensures |r| == |passwd|
    ensures forall i :: 0 <= i < |passwd| ==> r[i] == PasswdMatch(passwd[i], uid)
  {
    seq(|passwd|, i requires 0 <= i < |passwd| => PasswdMatch(passwd[i], uid))
  }

  /** The name found for `uid`: "u" when no line matches; otherwise the name on the last matching
      line, because `break` only leaves the loop over that line and later lines are still read. */
  function UserOf(uid: string, passwd: seq<string>): (r: string)
    ensures (forall i :: 0 <= i < |passwd| ==> PasswdMatch(passwd[i], uid).None?) ==> r == "u"
    ensures (exists i :: 0 <= i < |passwd| && PasswdMatch(passwd[i], uid).Some?) ==>
      exists i :: 0 <= i < |passwd| && PasswdMatch(passwd[i], uid) == Some(r)
                  && forall j :: i < j < |passwd| ==> PasswdMatch(passwd[j], uid).None?
  {
    Last(PasswdMatches(passwd, uid)).GetOr("u")
  }

  /** `User(pid)`: the owner's name for the process's Uid. */
  function User(status: seq<string>, passwd: seq<string>): string {
    UserOf(Uid(status), passwd)
  }

  /** A passwd entry "name:password:uid:rest". */
  function PasswdLine(name: string, password: string, uid: string, rest: string): string {
    name + ":" + password + ":" + uid + ":" + rest
  }

  predicate IsPasswdField(f: string) {
    IsToken(f) && ':' !in f
  }

  lemma PasswdLineMatches(name: string, password: string, uid: string, rest: string)
    requires IsPasswdField(name) && IsPasswdField(password) && IsPasswdField(uid)
    ensures PasswdMatch(PasswdLine(name, password, uid, rest), uid) == Some(name)
  {
    var r := Replace(rest, ':', ' ');
    ReplaceAppend(name + ":" + password + ":" + uid + ":", rest, ':', ' ');
    ReplaceAppend(name + ":" + password + ":" + uid, ":", ':', ' ');
    ReplaceAppend(name + ":" + password + ":", uid, ':', ' ');
    ReplaceAppend(name + ":" + password, ":", ':', ' ');
    ReplaceAppend(name + ":", password, ':', ' ');
    ReplaceAppend(name, ":", ':', ' ');
    ReplaceAbsent(name, ':', ' ');
    ReplaceAbsent(password, ':', ' ');
    ReplaceAbsent(uid, ':', ' ');
    assert Replace(PasswdLine(name, password, uid, rest), ':', ' ')
        == name + " " + (password + " " + (uid + " " + r));
    TokensOfWordThen(uid, r);
    TokensOfWordThen(password, uid + " " + r);
    TokensOfWordThen(name, password + " " + (uid + " " + r));
  }

  /** The owner of a process is the name of the passwd entry for its Uid ("alice:x:1000:..."
      for uid 1000), as long as no later entry also matches. */
  lemma UserReadsPasswdEntry(status: seq<string>, pre: seq<string>, name: string, password: string,
                             rest: string, post: seq<string>)
    requires IsPasswdField(name) && IsPasswdField(password) && IsPasswdField(Uid(status))
    requires forall i :: 0 <= i < |post| ==> PasswdMatch(post[i], Uid(status)).None?
    ensures User(status, pre + [PasswdLine(name, password, Uid(status), rest)] + post) == name
  {
    var uid := Uid(status);
    PasswdLineMatches(name, password, uid, rest);
    var passwd := pre + [PasswdLine(name, password, uid, rest)] + post;
    assert PasswdMatches(passwd, uid) == PasswdMatches(pre, uid) + [Some(name)] + PasswdMatches(post, uid);
    LastBeforeNone(PasswdMatches(pre, uid), name, PasswdMatches(post, uid));
  }

  lemma {:induction false} TripleMatchEmpty(ts: seq<string>)
    requires AllTokens(ts)
    ensures TripleMatch(ts, "").None?
    decreases |ts|
  {
    if |ts| >= 3 {
      TripleMatchEmpty(ts[3..]);
    }
  }

  /** A status file without a "Uid:" value gives an empty uid, which no token equals: "u". */
  lemma UserWithoutUid(status: seq<string>, passwd: seq<string>)
    requires StatusValue(status, "Uid:").None?
    ensures User(status, passwd) == "u"
  {
    forall i | 0 <= i < |passwd|
      ensures PasswdMatch(passwd[i], "").None?
    {
      TripleMatchEmpty(Tokens(Replace(passwd[i], ':', ' ')));
    }
  }

  // ---------------------------------------------------------------------------
  // Process start time: /proc/<pid>/stat, field 22

  /** Field 22 of a line (0-based position 21); the source counts positions afresh on each line. */
  function StartField(line: string): Option<string> {
    var ts := Tokens(line);
    if |ts| >= 22 then Some(ts[21]) else None
  }

  function StartFields(stat: seq<string>): (r: seq<Option<string>>)
    ensures |r| == |stat|
    ensures forall i :: 0 <= i < |stat| ==> r[i] == StartField(stat[i])
  {
    seq(|stat|, i requires 0 <= i < |stat| => StartField(stat[i]))
  }

  /** Every field 22 the source reaches is given to `stol`, so each must start with a digit. */
  predicate StartTimesReadable(stat: seq<string>) {
    forall i :: 0 <= i < |stat| && StartField(stat[i]).Some? ==> StartsWithDigit(StartField(stat[i]).value)
  }

  /** No line of the file has a field 22. */
  predicate NoStartField(stat: seq<string>) {
    forall i :: 0 <= i < |stat| ==> |Tokens(stat[i])| < 22
  }

  /** `start` is field 22 of the last line that has one, in seconds at `hz` ticks per second. */
  ghost predicate LastStartIs(stat: seq<string>, start: int, hz: int)
    requires hz > 0
  {
    exists i :: 0 <= i < |stat| && |Tokens(stat[i])| >= 22
                && start == LeadingValue(Tokens(stat[i])[21]) / hz
                && forall j :: i < j < |stat| ==> |Tokens(stat[j])| < 22
  }

  /** `UpTime(pid)`: the start time in clock ticks, from the last line with a field 22, divided by
      the ticks per second. The source returns an uninitialised value when no line has 22
      fields; here that is `None`. */
  function PidUpTime(stat: seq<string>, hz: int): (r: Option<int>)
    requires hz > 0 && StartTimesReadable(stat)
    ensures r.None? <==> NoStartField(stat)
    ensures r.Some? ==> LastStartIs(stat, r.value, hz)
  {
    var last := Last(StartFields(stat));
    if last.None? then None else Some(Stol(last.value) / hz)
  }

  /** A stat line whose field 22 holds `ticks` gives a start time of `ticks / hz` seconds. */
  lemma PidUpTimeOfStatLine(fields: seq<string>, ticks: nat, hz: int)
    requires AllTokens(fields) && |fields| >= 22 && fields[21] == NatToString(ticks) && hz > 0
    ensures StartTimesReadable([Unwords(fields)])
    ensures PidUpTime([Unwords(fields)], hz) == Some(ticks / hz)
  {
    TokensOfUnwords(fields);
    LeadingValueOfNatToString(ticks);
  }
}
