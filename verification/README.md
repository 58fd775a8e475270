# CppND System Monitor: parsing and formatting core in Dafny

This project models the data layer of a small Linux process monitor:

- **LinuxParser** (`linux_parser.dfy`): the readers of the kernel's text files. These are `/etc/os-release`, `/proc/version`, the `/proc` listing, `/proc/uptime`, `/proc/stat`, `/proc/<pid>/stat`, `/proc/<pid>/status`, `/proc/<pid>/cmdline` and `/etc/passwd`.
- **Process** (`process.dfy`): the per-process snapshot. It holds a pid and the CPU share last computed for it, plus accessors that read that pid's files, and an inverted `operator<` that sorts the busiest process first.
- **Format** (`format.dfy`): `Format::ElapsedTime`, which writes a count of seconds as `HH:MM:SS`.

Three support modules hold the string and number machinery the source takes from the C++ library:

- **Decimal** (`decimal.dfy`): `std::to_string`, `istream >> long`, `std::stol`, and C++'s truncating `/` and `%`.
- **Text** (`text.dfy`): `istringstream >>` tokenising with C's `isspace`, `std::getline` of the first line, `std::replace`, splitting at a separator, and "last match wins" scans.
- **Wrappers** (`wrappers.dfy`): `Option`.

Each file the source opens is a parameter holding its lines, `seq<string>`. A file that cannot be opened is the empty sequence, because every reader returns the same default for both. The `/proc` listing is a sequence of `(name, isDirectory)` entries. `sysconf(_SC_CLK_TCK)` is the `clockTicks` parameter. Positions on the CPU summary line are named constants (`IdxUser` … `IdxGuestNice`) in the kernel's order.

Tokens are read as C++ reads them:

- `>> long` on a token stores the value of its leading digits, or 0 when it has none (`Decimal.LeadingValue`).
- `std::stol` throws on a token that starts with neither a digit nor a sign, and the source does not check for one. The `...Readable` preconditions assume a leading digit on exactly the tokens the source converts; signed tokens are left out (see "## Left out").
- The stale state of a failed `>>` is kept where the source depends on it: the key and value that outlive a line in `TotalProcesses`/`RunningProcesses`, and the value that only a full "key value" line updates in `Ram`/`Uid`.

Three behaviours of the code are easy to misread:

- `OperatingSystem` without a `PRETTY_NAME` line returns the value of the last pair it read, not an empty string.
- `User` returns the name on the *last* matching passwd line, since `break` only leaves the loop over one line.
- `User` does not match on the uid field as such. Once every ':' becomes a space, empty fields disappear, and the line is read as consecutive triples of tokens, with a match whenever a triple's third token equals the Uid. So `dave::1003:100:...` reads as `dave 1003 100 ...` and matches Uid `100` with the name `dave`. A later triple on a line can also match, and then the result is not that line's name field.
- `TotalProcesses` stops at the first line whose key is *not* "processes" (see Findings).

## Model

| member | source | states |
|---|---|---|
| LinuxParser.OperatingSystem | src/linux_parser.cpp:16-36 | `OperatingSystem()`; what it returns is stated by OperatingSystemReadsPrettyName and OperatingSystemWithoutPrettyName |
| LinuxParser.OsReleaseLineOfAssignment | src/linux_parser.cpp:23-25 | The three replacements turn `KEY="v"` into the key, two spaces, `v` with its spaces as underscores, and a space |
| LinuxParser.TokensOfAssignment | src/linux_parser.cpp:23-27 | Such a line is read by `>> key >> value` as exactly the pair (key, `v` with underscores) |
| LinuxParser.ScanPairsWithoutKey | src/linux_parser.cpp:27-32 | A line whose tokens do not include PRETTY_NAME never ends the scan |
| LinuxParser.OperatingSystemSkips | src/linux_parser.cpp:22-33 | Lines that do not mention PRETTY_NAME only change the fallback value carried to the next line |
| LinuxParser.PrettyNameLine | src/linux_parser.cpp:28-30 | Reaching the PRETTY_NAME line returns its value with underscores turned back into spaces, whatever follows |
| LinuxParser.OperatingSystemReadsPrettyName | src/linux_parser.cpp:16-36 | For a value without underscores, and no earlier line holding the token PRETTY_NAME, the first `PRETTY_NAME="v"` line gives back `v`, spaces included, whatever follows; an underscore in `v` comes back as a space (PrettyNameLine) |
| LinuxParser.OperatingSystemWithoutPrettyName | src/linux_parser.cpp:35 | Without a PRETTY_NAME line the result is not empty but the last assignment's raw value, underscores kept |
| LinuxParser.Kernel | src/linux_parser.cpp:39-49 | The result is "" or a single whitespace-free token |
| LinuxParser.KernelReadsThirdToken | src/linux_parser.cpp:44-48 | The release is the third token of the first line; later tokens and lines are ignored |
| LinuxParser.Pids | src/linux_parser.cpp:52-69 | A number is listed exactly when some directory entry with an all-digit name denotes it; never more pids than entries |
| LinuxParser.PidsAppend | src/linux_parser.cpp:56-66 | Entries are handled one at a time, so the result keeps the listing's order |
| LinuxParser.PidsOfPidDirectories | src/linux_parser.cpp:52-69 | Round trip: a listing of directories named by `std::to_string` of some pids gives those pids back, in order |
| LinuxParser.UpTime | src/linux_parser.cpp:101-113 | `UpTime()`; stated by UpTimeTruncates |
| LinuxParser.UpTimeTruncates | src/linux_parser.cpp:101-113 | A first line "secs.frac idle" reads as the whole seconds `secs`, dropping the fraction |
| LinuxParser.CpuUtilization | src/linux_parser.cpp:171-189 | The sample contains a token exactly when the first line does and the token is not "cpu" |
| LinuxParser.CpuUtilizationInOrder | src/linux_parser.cpp:178-185 | The sample is the first line's non-"cpu" tokens at ascending positions, every such position included: contents and order |
| LinuxParser.CpuUtilizationOfCpuLine | src/linux_parser.cpp:171-189 | Round trip: the kernel's `cpu  u n s i w q sq st g gn` line reads back as its ten numerals in kernel order |
| LinuxParser.Jiffies | src/linux_parser.cpp:116-126 | `Jiffies()`; stated by JiffiesOfFullSample and JiffiesOfCpuLine |
| LinuxParser.IdleJiffies | src/linux_parser.cpp:163-168 | `IdleJiffies()`; stated by JiffiesOfFullSample and JiffiesOfCpuLine |
| LinuxParser.SumWhereDrop | src/linux_parser.cpp:119-121 | Dropping two selected positions from a sum removes exactly their two values |
| LinuxParser.ActiveJiffies | src/linux_parser.cpp:154-160 | Total minus idle is the sum of the counters that are neither guest nor idle time, so it is never negative |
| LinuxParser.JiffiesOfFullSample | src/linux_parser.cpp:116-168 | For ten counters, the total is all counters minus guest and guest_nice, and active plus idle equals the total |
| LinuxParser.SumWhereOfNumerals | src/linux_parser.cpp:121 | Adding up `stol` of the numerals `std::to_string` wrote gives the sum of the numbers |
| LinuxParser.JiffiesOfCpuLine | src/linux_parser.cpp:116-168 | From a kernel CPU line: total = user+nice+system+idle+iowait+irq+softirq+steal, idle = idle+iowait, active = the other six |
| LinuxParser.PidActiveJiffies | src/linux_parser.cpp:130-151 | The source's two loops add up the tokens at 1-based stream positions 14 to 17, counting across line breaks |
| LinuxParser.PidStatLine | src/linux_parser.cpp:140-147 | One line's inner loop moves the counter on by the line's token count and adds exactly the selected tokens |
| LinuxParser.StreamTokensNextLine | src/linux_parser.cpp:139-142 | Reading one more line appends that line's tokens to the stream the counter walks |
| LinuxParser.SumWherePidCpuFields | src/linux_parser.cpp:143-144 | Over 17 or more fields, the selection adds up 0-based fields 13 to 16 and nothing else |
| LinuxParser.PidActiveJiffiesOfStatLine | src/linux_parser.cpp:130-151 | For a one-line stat file the result is utime + stime + cutime + cstime |
| LinuxParser.StreamTokensOfTwoLines | src/linux_parser.cpp:134-146 | The position counter is not reset per line: the same tokens split over two lines are counted at the same positions |
| LinuxParser.ScanUntilKeyBareKey | src/linux_parser.cpp:219-224 | A line holding only the searched key stops the scan, but its failed `>> value` returns the value of the last earlier two-token line, or the initial value |
| LinuxParser.RunningProcessesBareKey | src/linux_parser.cpp:221-223 | A "procs_running" line without a number returns a stale count: the number on the last earlier two-token line, 0 when there is none |
| LinuxParser.RunningProcesses | src/linux_parser.cpp:212-229 | `RunningProcesses()`; stated by RunningProcessesReadsKey, RunningProcessesBareKey and RunningProcessesWithoutKey |
| LinuxParser.TotalProcesses | src/linux_parser.cpp:192-209 | `TotalProcesses()` as written; stated by TotalProcessesFirstOther, TotalProcessesReadsFirstLine and TotalProcessesMisreadsStat |
| LinuxParser.TotalProcessesIntended | src/linux_parser.cpp:199-205 | The search the comment on line 199 describes; stated by TotalProcessesIntendedReadsKey |
| LinuxParser.ScanUntilKeyFinds | src/linux_parser.cpp:219-224 | The scan returns the number on the first line whose key is the one searched for |
| LinuxParser.RunningProcessesReadsKey | src/linux_parser.cpp:212-229 | The count on the first "procs_running" line is returned, whatever follows it |
| LinuxParser.ScanUntilKeyMissing | src/linux_parser.cpp:219-228 | Without the key, the scan runs to the end and returns the last value read, or the initial value |
| LinuxParser.RunningProcessesWithoutKey | src/linux_parser.cpp:228 | Without a "procs_running" line the result is the leading number on the last two-token line, or 0 when there is none |
| LinuxParser.TotalProcessesFirstOther | src/linux_parser.cpp:200-206 | As written, leading "processes" lines are skipped and the first line with another key and a value decides the result, whatever follows |
| LinuxParser.TotalProcessesReadsFirstLine | src/linux_parser.cpp:200-205 | As written, a first line "key value" with any key but "processes" decides the result |
| LinuxParser.TotalProcessesIntendedReadsKey | src/linux_parser.cpp:199-205 | The corrected search returns the count on the first "processes" line, whatever surrounds it |
| LinuxParser.TotalProcessesMisreadsStat | src/linux_parser.cpp:192-209 | On /proc/stat's layout the source returns the CPU user time, while the intended search returns the process count |
| LinuxParser.Command | src/linux_parser.cpp:233-241 | `Command(pid)`; stated by CommandReadsFirstLine |
| LinuxParser.CommandReadsFirstLine | src/linux_parser.cpp:233-241 | The command is the first line of cmdline as it stands, whatever follows; a missing or empty file gives "" |
| LinuxParser.StatusValue | src/linux_parser.cpp:252-258 | None exactly when no line has the key and a value; otherwise the value of the last such line |
| LinuxParser.Uid | src/linux_parser.cpp:266-282 | The uid read is "" or a single token |
| LinuxParser.Ram | src/linux_parser.cpp:245-262 | The text is a numeral then " MB", and the numeral's value is the last VmSize value in kB divided by 1024; it has no leading zero unless it is "0", as `std::to_string` writes it |
| LinuxParser.KeyedValueOfVmSizeLine | src/linux_parser.cpp:253-257 | The kernel's VmSize line, with the kB count right-aligned to eight columns after the tab, yields the numeral of `kb`: `>>` skips the padding |
| LinuxParser.VmSizeLineLayout | src/linux_parser.cpp:253-257 | The modelled line is the kernel's layout: 4296 kB is written "VmSize:\t    4296 kB" |
| LinuxParser.KeyedValueOfLine | src/linux_parser.cpp:253-257 | A "key, whitespace, any whitespace padding, value, more" line reads as that key and value |
| Text.TokensAfterSpaces | src/linux_parser.cpp:253-257 | Leading whitespace of any length yields no tokens |
| LinuxParser.RamOfVmSizeLine | src/linux_parser.cpp:245-262 | The last padded kernel VmSize line wins, and `kb` kilobytes read as `kb / 1024` followed by " MB" |
| LinuxParser.User | src/linux_parser.cpp:286-308 | `User(pid)`: the name for the status file's Uid; stated by UserOf, UserReadsPasswdEntry and UserWithoutUid |
| LinuxParser.UserOf | src/linux_parser.cpp:286-308 | "u" when no passwd line matches the uid; otherwise the first token of the first matching triple on the last matching line |
| LinuxParser.PasswdMatchAcrossEmptyField | src/linux_parser.cpp:296-303 | An entry "name::uid:gid:rest" with an empty password matches `gid` and yields `name`: empty fields vanish and triples are read across the shifted tokens |
| LinuxParser.PasswdLineMatches | src/linux_parser.cpp:296-301 | An entry "name:password:uid:rest" matches its own uid and yields its name |
| LinuxParser.UserReadsPasswdEntry | src/linux_parser.cpp:286-308 | The owner of the process is the name of the entry for its Uid, when no later entry also matches |
| LinuxParser.TripleMatchEmpty | src/linux_parser.cpp:298-299 | An empty uid equals no token, so no triple matches it |
| LinuxParser.UserWithoutUid | src/linux_parser.cpp:286-308 | A status file without a Uid value gives the default user "u" |
| LinuxParser.PidUpTime | src/linux_parser.cpp:312-337 | None exactly when no line has 22 fields; otherwise field 22 of the last such line, in seconds at `hz` ticks per second |
| LinuxParser.PidUpTimeOfStatLine | src/linux_parser.cpp:321-336 | A stat line whose field 22 holds `ticks` gives a start of `ticks / hz` seconds |
| Process.Pid | src/process.cpp:15 | `Pid()`; that it never changes is stated by Process.CpuUtilization, the only operation returning a new snapshot |
| Process.CpuUtilization | src/process.cpp:15-21 | The stored and returned utilisation are the same value, the process's active jiffies over the system's, and the pid is unchanged |
| Process.Ratio | src/process.cpp:19 | The share times the whole is the part, it is non-negative, and at most 1 when the part is at most the whole |
| Process.Command | src/process.cpp:24-26 | `Command()`; stated by AccessorsFollowPid and LinuxParser.CommandReadsFirstLine |
| Process.Ram | src/process.cpp:29-31 | `Ram()`; stated by AccessorsFollowPid and LinuxParser.Ram |
| Process.User | src/process.cpp:34-36 | `User()`; stated by AccessorsFollowPid and LinuxParser.UserOf |
| Process.AccessorsFollowPid | src/process.cpp:24-36 | Command, User and Ram depend only on the pid: two snapshots of one pid agree on all three |
| Process.UpTime | src/process.cpp:39-41 | `UpTime()`; stated by UpTimeIsAge, UpTimeOfParts and UpTimeFollowsPid |
| Process.UpTimeFollowsPid | src/process.cpp:39-41 | The same for the process's age |
| Process.StartTimeOf | src/process.cpp:40 | A pid whose stat line holds start `ticks` has start time `ticks / clockTicks` |
| Process.SystemUpTimeOf | src/process.cpp:40 | An uptime file "secs.frac idle" gives a system uptime of `secs` |
| Process.UpTimeOfParts | src/process.cpp:39-41 | The age is the system uptime minus the process's start |
| Process.UpTimeIsAge | src/process.cpp:39-41 | From concrete files: the age is `secs - ticks / clockTicks` |
| Process.Less | src/process.cpp:45-47 | `operator<`; stated by LessIsStrictWeakOrder, SortedByLessIsBusiestFirst and BusierSortsFirst |
| Process.LessIsStrictWeakOrder | src/process.cpp:45-47 | `operator<` is irreflexive, asymmetric and transitive, with equal utilisation as its equivalence, as `std::sort` requires |
| Process.SortedByLessIsBusiestFirst | src/process.cpp:45-47 | Sorted ascending by `operator<` means utilisation never increases along the list: highest first |
| Process.SortedByLessFromNeighbours | src/process.cpp:45-47 | Sortedness under `operator<` follows from its adjacent pairs |
| Process.BusierSortsFirst | src/process.cpp:45-47 | Utilisations 0.5 and 0.2 are ordered with 0.5 first, and not the other way round |
| Decimal.NatToString | src/format.cpp:16-18 | `std::to_string` of a non-negative number is a non-empty digit string whose value is the number |
| Decimal.NatToStringWidth | src/format.cpp:20-22 | `std::to_string` has one digit exactly below 10, at most two below 100, three or more from 100 on, and no leading zero |
| Decimal.LeadingValueOfNatToString | src/linux_parser.cpp:121 | Reading back what `std::to_string` wrote, as `stol` or `>> long` does, gives the number |
| Decimal.Quot | src/format.cpp:16-17 | C++ division truncates toward zero: Dafny's for non-negative dividends, rounded up toward 0 for negative ones |
| Decimal.Rem | src/format.cpp:17-18 | C++ remainder takes the dividend's sign: `Quot(a, b) * b + Rem(a, b) == a` for every `a`, the Dafny remainder for non-negative dividends and in (-b, 0] for negative ones |
| Text.TokensOfUnwords | src/linux_parser.cpp:45-46 | Round trip: tokens joined by single spaces are read back by `>>` as the same tokens |
| Text.TokensSplitAtSpace | src/linux_parser.cpp:142 | A whitespace character separates tokens: the tokens of `a c b` are those of `a` followed by those of `b` |
| Text.ReplaceUndo | src/linux_parser.cpp:23-29 | Turning spaces into underscores and back restores any text that had no underscores |
| Text.Last | src/linux_parser.cpp:252-258 | The last assignment of an overwriting scan: None exactly when nothing matched, else the value of the last match |
| Text.RemoveAllInOrder | src/linux_parser.cpp:181-185 | Dropping one word keeps every other element, at ascending positions and in the original order |
| Format.ElapsedTime | src/format.cpp:11-25 | `Format::ElapsedTime`; stated by ElapsedTimeFields, ElapsedTimeRoundTrip, ElapsedTimeColons and ElapsedTimeNegative |
| Format.ElapsedTimeOfNat | src/format.cpp:16-24 | For a non-negative count the text is the padded hours, minutes and seconds joined by colons |
| Format.PaddedField | src/format.cpp:20-22 | A padded field is a numeral of the same value, two digits below 10, otherwise as wide as `std::to_string` wrote it |
| Format.ElapsedTimeFields | src/format.cpp:16-22 | The three fields hold `seconds/3600`, `(seconds%3600)/60` and `seconds%60`; minutes and seconds have exactly two digits; hours at least two, never truncated |
| Format.ElapsedTimeSplit | src/format.cpp:24 | The text splits at its colons into exactly the three padded fields |
| Format.ElapsedTimeColons | src/format.cpp:24 | The text contains exactly two colons |
| Format.ElapsedTimeLongHours | src/format.cpp:16-20 | From 100 hours on, the hour field has three or more digits |
| Format.ElapsedTimeRoundTrip | src/format.cpp:8-18 | Round trip: reading HH:MM:SS back as h*3600 + m*60 + s gives the count |
| Format.FieldsRoundTrip | src/format.cpp:16-24 | The three padded fields of a count, joined by colons, read back as the count |
| Format.ParseThree | src/format.cpp:24 | Any three numerals joined by colons read back as hours, minutes and seconds |
| Format.SplitThree | src/format.cpp:24 | Three colon-free fields joined by colons split back into those fields |
| Format.ClockParts | src/format.cpp:16-18 | Hours, minutes and seconds recombine to the count, with minutes and seconds below 60 |
| Format.FieldOfDigit | src/format.cpp:20-22 | A single digit is padded with exactly one leading zero |
| Format.FieldOfTwoDigits | src/format.cpp:20-22 | A two-digit number is written unpadded, tens digit first |
| Format.ElapsedTimeOfHourMinuteSecond | src/format.cpp:11-25 | 3661 seconds is written "01:01:01" |
| Format.ElapsedTimeUnderAMinute | src/format.cpp:11-25 | Under a minute the text is "00:00:" followed by the padded seconds |
| Format.NegativeSecondsParts | src/format.cpp:16-18 | From -59 to -1, C++ truncation gives zero hours and minutes and a negative remainder |
| Format.ElapsedTimeNegative | src/format.cpp:11-25 | From -59 to -1 the text is "00:00:" followed by the signed count, e.g. "00:00:-1" |

## Left out

- File and directory I/O (`std::ifstream`, `opendir`/`readdir`/`closedir`): each file is a parameter holding its lines, and the `/proc` listing is a sequence of entries.
- `MemoryUtilization` (src/linux_parser.cpp:72-98): it is floating-point arithmetic over `float` reads. It is not modelled.
- Process.CpuUtilization: `(float)a / (float)b` is an exact `real` ratio, so `float` rounding is not modelled. A zero system total, where the source divides by zero, is outside its precondition.
- `sysconf(_SC_CLK_TCK)` is not modelled: the clock rate is the `clockTicks`/`hz` parameter, required positive.
- The C++ integer width: `long`/`int` results are unbounded naturals. Signs in numeric tokens, overflow of `stol`/`stoi`/`>>`, and `std::stoi` of a pid name are not modelled.
- The exceptions of `std::stol`/`std::stoi` are not modelled; for instance a kernel thread's status file has no VmSize line, so `Ram(pid)` reaches `stol("")` and throws. Their success is a precondition on exactly the tokens the source converts (`JiffiesReadable`, `IdleReadable`, `PidStatReadable`, `RamReadable`, `StartTimesReadable`).
- `IdleJiffies` indexes the sample without a bounds check. A sample shorter than five counters is outside its precondition.
- LinuxParser.PidUpTime: when no line has 22 fields, the source divides an uninitialised `startTime`. The model returns `None` there instead of an indeterminate number, and Process.UpTime passes the `None` on.
- `Command`: the first line of cmdline is returned verbatim. Its NUL separators are ordinary characters here.
- The `CPUStates` enumeration lives in a header that is not part of this model. Its order (user, nice, system, idle, iowait, irq, softirq, steal, guest, guest_nice) is written out as the `Idx…` constants.
- The display loop, the `System` aggregate and the ncurses rendering are not part of this model.
- LinuxParser.Kernel and LinuxParser.Uid: their own contracts only say the result is empty or one token. What they read is stated by KernelReadsThirdToken, StatusValue and UserWithoutUid.

## Findings

| source | as written | input that shows it | evidently intended | confidence | as-written member | corrected member |
|---|---|---|---|---|---|---|
| src/linux_parser.cpp:200-205 | `if (key != "processes") return total;` returns on the first line whose key is not "processes" | Any /proc/stat: its first line is `cpu  u n s ...`, so the result is the CPU user time `u`, not the "processes" count | Search until the "processes" line and return its value (`key == "processes"`), as the comment on line 199 says; modelled as `TotalProcessesIntended` | not executed | LinuxParser.TotalProcessesMisreadsStat | LinuxParser.TotalProcessesIntendedReadsKey |
