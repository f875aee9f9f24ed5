# Port scanner model

A Dafny model of `ports_scanner.py`, a small TCP port scanner. Its `Scanner` object
is built from three command-line arguments: a host argument, a list of ports, and a
software-detection flag.

- **Host argument.** It is either a single host or a range `A.B.C.s/e`. A range is
  expanded into the hosts `A.B.C.s` up to and including `A.B.C.e`. The number after
  the slash is a last octet, not a CIDR prefix length.
- **Scanning.** `run` submits one task for every (host, port) pair to a thread pool,
  host-major. Each task runs `scan_host`, which tries to connect. On success it
  appends `"{host} {port} OPEN"` to `open_ports_list`.
- **Software detection.** When the flag is set and the port is 80 or 443, the task
  sends a greeting and searches the reply for `Server:(.+\w+)`. It stores the
  stripped capture in `hosts_software` unless the host already has an entry.
- **Report.** Finally `output` prints the open ports and the detected software.

The model has seven modules:

- `Wrappers`: the `Option` and `Result` types. A `Result` error stands for an
  exception the program raises.
- `Text`: the Python string operations the program relies on. These are
  `str.isspace`, `int()`, `str(int)`, `str.split()`, `str.split(sep)`,
  `str.lstrip()` and `str.replace(pat, "")`.
- `HostRange`: `_convert_range_to_hosts`, with its two ways of raising as a `Result`.
- `Banner`: the search for `Server:(.+\w+)` and the `lstrip()` of group 1. It is
  written as a search procedure. A declarative statement of the leftmost, greedy
  match is proved equivalent to it.
- `ScanSpec`: the specification of the state changes.
  - the task list `product(hosts, ports)`;
  - the effect of one completed task (`Step`) and of a sequence of them (`Fold`);
  - the completion orders a pool can produce (`Schedule`, driven by a choice
    sequence `picks`);
  - the properties of all of these.
- `Report`: the lines `output` prints.
- `PortScanner`: the `Scanner` class itself. It has fields `openPorts`,
  `hostsSoftware` and `softwareOrder`; the last is the insertion order a Python dict
  iterates in. Its methods update these fields in place and are proved against
  `ScanSpec` and `Report`.

The network is an input. Each connection attempt has an `Outcome`:

- `Refused`: `connect` raised.
- `Connected(reply)`: `reply` is the decoded answer to the greeting. It is `None`
  when `send`, `recv` or the UTF-8 decoding raised.

The thread pool is modelled by its effect: the submitted tasks complete one after
another, in any order (`EveryOrderIsASchedule`).

Points where the code may surprise a reader:

- A range whose start exceeds its end expands to no hosts rather than raising,
  since `range(first, last + 1)` is simply empty (`ExpandRange`).
- The capture pattern is `Server:(.+\w+)`. The name therefore ends at the last word
  character on the header's line, and a one-character rest does not match
  (`OneCharacterRest`).
- Port numbers are not checked against 1..65535. A repeated port, or a repeated
  host, is scanned and reported once per occurrence, so the report can contain the
  same line twice (`ProductCount`, `ReportedAtMostAsSubmitted`).
- `open_ports_list.append` happens outside the lock. Only the software insertion
  takes it.

## Model

| member | source | states |
|---|---|---|
| `Text.ParseInt` | ports_scanner.py:24 | `int()` of a string: one that holds no digit raises, and a string made only of digits reads as its decimal value |
| `Text.ParseIntSkipsSpace` | ports_scanner.py:24 | `int()` ignores whitespace before and after the number (ASCII whitespace and the non-ASCII `isspace()` characters, not U+001C..U+001F) |
| `Text.ParseIntUnderscore` | ports_scanner.py:24 | a single underscore between digits is accepted: `int("1_0") == 10` |
| `Text.ParseIntDoubleUnderscore` | ports_scanner.py:24 | two underscores in a row make `int()` raise |
| `Text.IntToDecimal` | ports_scanner.py:113 | `str(n)` is a non-empty string without whitespace |
| `Text.NoLeadingZero` | ports_scanner.py:113 | `str(n)` of a non-negative number has no leading zero: only zero itself starts with `0` |
| `Text.ParseIntOfDecimal` | ports_scanner.py:112 | `int(str(n)) == n` for every integer |
| `Text.DecimalInjective` | ports_scanner.py:113 | different integers print differently |
| `Text.Words` | ports_scanner.py:88 | every field of `split()` is non-empty and contains no whitespace |
| `Text.WordsOfWord` | ports_scanner.py:88 | a non-empty string without whitespace splits into itself |
| `Text.WordsAroundSpace` | ports_scanner.py:88 | splitting at a whitespace character splits the two sides independently |
| `Text.LStrip` | ports_scanner.py:72 | `lstrip()` returns a suffix that is empty or starts with a non-whitespace character, and removes only whitespace |
| `Text.LStripLeading` | ports_scanner.py:72 | `lstrip()` removes exactly a leading run of whitespace |
| `Text.IndexOf` | ports_scanner.py:110 | finds the first occurrence of a character, or reports that there is none |
| `Text.Split` | ports_scanner.py:110-111 | `split(sep)` gives at least one part, no part contains `sep`, two or more parts exactly when `sep` occurs |
| `Text.JoinSplit` | ports_scanner.py:110-111 | joining the parts of `split(sep)` with `sep` gives back the string |
| `Text.SplitAround` | ports_scanner.py:111 | a string with one separator splits into the text before it and the split of the rest |
| `Text.RemoveAll` | ports_scanner.py:113 | `replace(pat, "")` never lengthens the string |
| `HostRange.LastSegment` | ports_scanner.py:110 | the last dot-separated segment contains no dot |
| `HostRange.ConvertRangeToHosts` | ports_scanner.py:109-116 | an argument without `/` is the single host; a successful expansion has its `/` in the last segment |
| `HostRange.RangeSegments` | ports_scanner.py:110-113 | for `P.s/e`, the last segment is `s/e`, it splits into `[s, e]`, and deleting it leaves `P` |
| `HostRange.RemoveAllLeavesPrefix` | ports_scanner.py:113 | deleting the last segment from the argument leaves the prefix up to the last dot |
| `HostRange.ExpandRange` | ports_scanner.py:112-114 | `P.s/e` expands to `e - s + 1` hosts, the i-th being `P` then the decimal of `s + i`; none when `s > e` |
| `HostRange.NumberedHostsInclusive` | ports_scanner.py:113 | `range(first, last + 1)` is inclusive: the first host ends in `first` and the last in `last`; none when `first > last`; every host is the prefix followed by a number that `int()` reads back as `first + i` |
| `HostRange.RangeBoundErrors` | ports_scanner.py:112 | the expansion raises exactly when a bound is not an integer, and the start bound is reported first |
| `HostRange.ExpandedHostsDistinct` | ports_scanner.py:113 | the expanded hosts are pairwise distinct |
| `HostRange.SlashIsInclusiveEnd` | ports_scanner.py:109-114 | `192.168.1.0/24` gives the 25 hosts `.0` to `.24`, not a /24 network |
| `HostRange.SlashOutsideLastSegment` | ports_scanner.py:110-112 | when the last segment is an integer, a `/` outside it makes the expansion raise for a missing end bound |
| `Banner.LineEnd` | ports_scanner.py:72 | the end of the current line: no newline before it, a newline or the end of the text at it |
| `Banner.LastWordChar` | ports_scanner.py:72 | the last word character in a window, or none |
| `Banner.GroupAt` | ports_scanner.py:72 | a match at one position: the group is the text right after `Server:`, has at least two characters, ends in a word character and contains no newline |
| `Banner.SearchFrom` | ports_scanner.py:72 | `re.search` reports the leftmost position where the pattern matches |
| `Banner.ExtractSoftware` | ports_scanner.py:72 | a detected name is non-empty, starts with a non-whitespace character, ends in a word character and has no newline |
| `Banner.GroupAtMeaning` | ports_scanner.py:72 | the search finds a group at `i` exactly when the pattern can match there, and the group runs to the last word character of the line |
| `Banner.CaptureUnique` | ports_scanner.py:72 | the leftmost greedy capture is unique |
| `Banner.ExtractSoftwareMeaning` | ports_scanner.py:72 | no name exactly when the pattern matches nowhere; otherwise the name is the stripped group of the one leftmost greedy capture |
| `Banner.ServerHeaderFirst` | ports_scanner.py:69-72 | a reply that starts with `Server:`, blanks and a name, followed by nothing wordy on that line, yields that name |
| `Banner.NginxExample` | ports_scanner.py:72 | `Server: nginx/1.2\r\n` yields `nginx/1.2` |
| `Banner.OneCharacterRest` | ports_scanner.py:72 | `Server:A` yields nothing, since `.+` and `\w+` need one character each |
| `ScanSpec.OpenRecord` | ports_scanner.py:50 | `split()` of the line is the host's fields followed by the port's decimal and `OPEN` |
| `ScanSpec.OpenRecordInjective` | ports_scanner.py:50 | different tasks give different lines |
| `ScanSpec.Detect` | ports_scanner.py:67-72 | a name is found only on ports 80 and 443, only for a reply that was received and decoded, and it does not start with whitespace; on those ports, for a received reply, the result is exactly the banner extraction of that reply |
| `ScanSpec.InsertIfAbsent` | ports_scanner.py:74-75 | the host is present afterwards; an existing entry keeps its value and the state is unchanged; otherwise the host gets the name; no other key is added or changed; the open-port list is untouched |
| `ScanSpec.DefineSoftware` | ports_scanner.py:67-75 | the open-port list is untouched; nothing changes without a detected name or when the host already has an entry; the host has an entry afterwards exactly when it had one or a name was detected |
| `ScanSpec.DefineSoftwareEffect` | ports_scanner.py:73-75 | the detection step never touches the open-port list, keeps every entry, and adds at most the task's own host, exactly when detection found a name |
| `ScanSpec.DefineSoftwareWellFormed` | ports_scanner.py:73-75 | inserting only absent hosts keeps the insertion order listing every key exactly once |
| `ScanSpec.AppendLineWellFormed` | ports_scanner.py:50 | every appended line can be split into at least a host field and a port field |
| `ScanSpec.Step` | ports_scanner.py:46-77 | one `scan_host` call. Refused: nothing changes. Connected: exactly its line is appended. The software map keeps every entry, gains at most the task's own host, and gains it exactly when that host is absent and detection found a name. The well-formedness invariant is kept |
| `ScanSpec.Fold` | ports_scanner.py:32-34 | after any sequence of completed tasks, the open-port lines are the lines of the connected tasks in completion order, with or without detection. Entries are never overwritten. With detection off the map is unchanged. The invariant is kept |
| `ScanSpec.FoldSoftwareKeys` | ports_scanner.py:73-75 | the map's keys are the old keys plus every host for which some task detected a name |
| `ScanSpec.SoftwareKeysIgnoreOrder` | ports_scanner.py:73-75 | the set of hosts with software does not depend on the completion order |
| `ScanSpec.FirstWriterWins` | ports_scanner.py:74-75 | a new host's entry is the name found by its first detecting task |
| `ScanSpec.NewEntrySource` | ports_scanner.py:74-75 | every new entry is the name some task of that host detected |
| `ScanSpec.SoftwareIgnoresOrderWhenRepliesAgree` | ports_scanner.py:73-75 | when every detection for a host finds the same name, the whole map does not depend on the completion order |
| `ScanSpec.RecordCount` | ports_scanner.py:50 | a task's line occurs in the list exactly as often as the task connected |
| `ScanSpec.AcceptedCount` | ports_scanner.py:49-50 | a task connects at most as often as it was probed |
| `ScanSpec.Product` | ports_scanner.py:33 | every submitted task pairs a host of the host list with a port of the port list |
| `ScanSpec.ProductLength` | ports_scanner.py:33 | `product(hosts, ports)` has \|hosts\|·\|ports\| tasks |
| `ScanSpec.ProductAt` | ports_scanner.py:33 | task i·\|ports\| + j of `product(hosts, ports)` pairs host i with port j, so the order is host-major |
| `ScanSpec.ProductCount` | ports_scanner.py:33 | each pair is submitted (occurrences of the host) × (occurrences of the port) times: once when both lists are distinct |
| `ScanSpec.Schedule` | ports_scanner.py:32-34 | a completion order chosen by `picks` is a permutation of the submitted tasks |
| `ScanSpec.EveryOrderIsASchedule` | ports_scanner.py:32-34 | every permutation of the submitted tasks is the completion order of some `picks` |
| `ScanSpec.ReportedAtMostAsSubmitted` | ports_scanner.py:30-35 | whatever the completion order, a task's line is reported as often as it connected, and at most (occurrences of its host) × (occurrences of its port) times |
| `Report.Repeat` | ports_scanner.py:84 | `s * n` has length \|s\|·n and only characters of `s` |
| `Report.PortLine` | ports_scanner.py:88-89 | every port line starts with `[+] Порт ` and ends with ` ОТКРЫТ`, with at least the host, the `:` and the port, one character each, between them |
| `Report.PortLineDropsLaterFields` | ports_scanner.py:88-89 | fields after the second do not show: a record with more words prints as the record cut after its port |
| `Report.SoftwareLine` | ports_scanner.py:96 | a software line starts with `Хост ` and the host, and ends with the name |
| `Report.SoftwareLineInjective` | ports_scanner.py:96 | for hosts without a comma, the line determines both the host and the name |
| `Report.Render` | ports_scanner.py:84-99 | the report has one line per open-port record in list order and one line per software entry in insertion order. The third line says "no open ports" exactly when the list is empty; the last line says "could not determine" exactly when the map is empty. The separator follows the open-port section; a non-empty map's lines sit between the software heading and a closing rule |
| `Report.SectionMarkers` | ports_scanner.py:86-99 | the "none" lines cannot be mistaken for a port line or the separator, and an empty map has an empty insertion order |
| `Report.PortLineOfPlainHost` | ports_scanner.py:88-89 | for a host without whitespace the line shows exactly the scanned host and port, and the port field parses back to the port |
| `Report.PortLineOfBlankHost` | ports_scanner.py:88-89 | for a blank host the line shows the port as the host and `OPEN` as the port |
| `Report.PortLineOfSpacedHost` | ports_scanner.py:88-89 | for a host `a b` the line shows `a` as the host and `b` as the port |
| `PortScanner.ParsePorts` | ports_scanner.py:24 | succeeds exactly when every argument is an integer, keeping order and values; otherwise reports the first bad argument |
| `PortScanner.ParsePortsOfDecimals` | ports_scanner.py:24 | ports written in decimal are read back unchanged |
| `PortScanner.Scanner.constructor` | ports_scanner.py:23-27 | a new scanner has the given hosts, ports and flag, and no results |
| `PortScanner.Scanner.ScanHost` | ports_scanner.py:37-54 | the new results are `Step` of the old ones, and the invariant is kept |
| `PortScanner.Scanner.DefineSoftwareForWebPorts` | ports_scanner.py:56-77 | the new results are those of the detection step: an insertion only if absent, on ports 80 and 443, on a match |
| `PortScanner.Scanner.Submit` | ports_scanner.py:32-34 | the submitted tasks are exactly `product(hosts, ports)`, in order |
| `PortScanner.Scanner.CompleteTasks` | ports_scanner.py:32-34 | the new results are `Fold` of the old ones over the tasks in the scheduled order |
| `PortScanner.Scanner.Run` | ports_scanner.py:30-35 | the results are `Fold` over a schedule of `product(hosts, ports)`, and the returned report is `Render` of them |
| `PortScanner.Scanner.Output` | ports_scanner.py:79-99 | the printed lines are exactly `Render` of the current results |
| `PortScanner.Scanner.OpenPortLines` | ports_scanner.py:86-91 | the open-port part of the report: one line per record in list order, or the "none" line |
| `PortScanner.Scanner.SoftwareReportLines` | ports_scanner.py:93-99 | the software part of the report: heading, one line per host in insertion order and the rule, or the "could not determine" line |
| `PortScanner.NewScanner` | ports_scanner.py:23-24 | the host argument is expanded first and the ports converted second; each error is reported as raised; when both conversions succeed a scanner is created, fresh, with the converted hosts and ports and no results |

## Left out

- Sockets are not modelled: `socket()`, `settimeout(1)`, `connect`, `send(b'Hello')`
  and `recv(1024)`. Their results enter as the `Outcome` of each attempt.
- A port outside 0..65535 makes `connect` raise `OverflowError`, which `scan_host`
  catches like a refusal. The model leaves the outcome to the caller and does not
  force `Refused` for such ports.
- UTF-8 decoding is not modelled. A reply is already text, and a failed decoding is
  the `None` reply.
- The thread pool is modelled as sequential completion. `ThreadPoolExecutor(100)`
  and `threading.Lock` are not modelled as such: tasks complete one at a time, in a
  chosen order, and each `scan_host` call is atomic. Real threads can interleave
  one call's append with another call's insertion. Because the list and the map are
  independent, the real final state could combine the list order of one schedule
  with the map of another. The model ties both to one schedule.
- The diagnostics `print`ed for closed ports (line 54) and failed detection
  (line 77) are left out. So is the immediate printing of `output`, which the
  model returns as a list of lines.
- The command-line parsing with `argparse` (lines 119-131) is left out.
  `NewScanner` receives the parsed arguments.
- `\w` is modelled as ASCII letters, digits and underscore. Python's Unicode word
  characters beyond ASCII are not covered. Only the one pattern the program uses is
  modelled, not a general regular-expression engine.
- `int()` is modelled on ASCII digits with underscores and one sign. Non-ASCII
  decimal digits and the 4300-digit conversion limit are not modelled.
- `Text.RemoveAll`: its own contract states only that the result is no longer than
  the input. What it does to a range argument is stated by
  `HostRange.RemoveAllLeavesPrefix`, for arguments without a `/` before the last
  segment.
