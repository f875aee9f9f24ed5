/**
 * The values a scan works with and the effect of one scanned task on them.
 *
 * `Scanner.run` submits one task per pair of `product(hosts, ports)` to a
 * thread pool; each task (`scan_host`) tries to connect, appends the line
 * `"{host} {port} OPEN"` on success and, when software detection is on and the
 * port is 80 or 443, records the first software name found for the host. The
 * network is an input here: every connection attempt has an `Outcome`, and the
 * order in which the pool completes the tasks is a `Schedule` of the submitted
 * list.
 */
module ScanSpec {
  import opened Wrappers
  import opened Text
  import Banner

  /** `Scanner.PORTS`: the ports on which the server is asked for its software. */
  const WebPorts: seq<int> := [80, 443]

  /** One `(host, port)` pair handed to `scan_host`. */
  datatype Task = Task(host: string, port: int)

  /** What one connection attempt observed. */
  datatype Outcome =
    | Refused                           // `connect` raised (refused, unreachable, timed out)
    | Connected(reply: Option<string>)  // the decoded answer to the greeting; None when send, recv or decode raised

  /** A task together with what its connection attempt observed. */
  datatype Probe = Probe(task: Task, outcome: Outcome)

  /**
   * The scanner's mutable results: `open_ports_list`, and `hosts_software`
   * as a map together with the order in which its keys were inserted (the
   * order a Python dict iterates in).
   */
  datatype Results = Results(openPorts: seq<string>, software: map<string, string>, softwareOrder: seq<string>)

  /** The results of a freshly constructed scanner. */
  const Empty: Results := Results([], map[], [])

  /**
   * The line `scan_host` appends for an open port, `f'{host} {port} OPEN'`.
   * Its `split()` is the host's own fields followed by the port and `OPEN`.
   */
  function OpenRecord(t: Task): (record: string)
    ensures Words(record) == Words(t.host) + [IntToDecimal(t.port), "OPEN"]
  {
    var d := IntToDecimal(t.port);
    RecordWords(t.host, d);
    t.host + [' '] + (d + [' '] + "OPEN")
  }

  /** The fields of `host + " " + d + " OPEN"` for a one-field `d`. */
  lemma RecordWords(host: string, d: string)
    requires d != [] && NoSpace(d)
    ensures Words(host + [' '] + (d + [' '] + "OPEN")) == Words(host) + [d, "OPEN"]
  {
    var open := "OPEN";
    assert open != [] && NoSpace(open) by {
      assert forall k :: 0 <= k < |open| ==> open[k] in "OPEN";
    }
    WordsOfWord(d);
    WordsOfWord(open);
    WordsAroundSpace(d, ' ', open);
    assert Words(d + [' '] + open) == [d, open];
    WordsAroundSpace(host, ' ', d + [' '] + open);
  }

  predicate Distinct<T(==)>(s: seq<T>) {
    forall i, j :: 0 <= i < j < |s| ==> s[i] != s[j]
  }

  /**
   * The invariant of the results: the insertion order lists every key of the
   * map exactly once, and every line of `open_ports_list` has at least two
   * whitespace-separated fields (so `output` can index `item[0]` and `item[1]`).
   */
  ghost predicate WellFormed(r: Results) {
    && Distinct(r.softwareOrder)
    && (forall h :: h in r.software <==> h in r.softwareOrder)
    && (forall k :: 0 <= k < |r.openPorts| ==> |Words(r.openPorts[k])| >= 2)
  }

  /** Different tasks give different lines: the line determines host and port. */
  lemma OpenRecordInjective(t: Task, u: Task)
    requires OpenRecord(t) == OpenRecord(u)
    ensures t == u
  {
    var a, b := IntToDecimal(t.port), IntToDecimal(u.port);
    var s := OpenRecord(t);
    var m := |s| - 5;
    assert s == t.host + [' '] + (a + [' '] + "OPEN");
    assert s == u.host + [' '] + (b + [' '] + "OPEN");
    assert s[..m] == t.host + [' '] + a;
    assert s[..m] == u.host + [' '] + b;
    SplitAtLastSpace(t.host, a, u.host, b);
    DecimalInjective(t.port, u.port);
  }

  /** A space followed by a space-free tail can be told apart from the front. */
  lemma SplitAtLastSpace(x: string, a: string, y: string, b: string)
    requires x + [' '] + a == y + [' '] + b
    requires NoSpace(a) && NoSpace(b)
    ensures x == y && a == b
  {
    var z := x + [' '] + a;
    assert forall k :: |x| < k < |z| ==> z[k] == a[k - |x| - 1];
    assert forall k :: |y| < k < |z| ==> z[k] == b[k - |y| - 1];
    assert z[|x|] == ' ' && z[|y|] == ' ';
    assert |x| == |y|;
    assert a == z[|z| - |a|..] == b;
    assert x == z[..|x|] == y;
  }

  /**
   * The software name `_define_software_for_ports_80_443` finds for a
   * connected task: only on ports 80 and 443, only when the greeting was
   * answered and decoded, and only when the `Server:` pattern matches.
   */
  function Detect(port: int, reply: Option<string>): (name: Option<string>)
    ensures name.Some? ==> (port == 80 || port == 443) && reply.Some?
    ensures name.Some? ==> name.value != [] && !IsSpace(name.value[0])
    ensures (port == 80 || port == 443) && reply.Some? ==> name == Banner.ExtractSoftware(reply.value)
  {
    if port in WebPorts && reply.Some? then Banner.ExtractSoftware(reply.value) else None
  }

  /** The name one probe contributes when detection is switched on or off. */
  function SoftwareOf(detect: bool, p: Probe): Option<string> {
    if detect && p.outcome.Connected? then Detect(p.task.port, p.outcome.reply) else None
  }

  /** `if host not in self.hosts_software: self.hosts_software[host] = software`. */
  function InsertIfAbsent(r: Results, host: string, name: string): (s: Results)
    ensures s.openPorts == r.openPorts
    ensures host in s.software && s.software[host] == if host in r.software then r.software[host] else name
    ensures forall h :: h != host ==> (h in s.software <==> h in r.software)
    ensures forall h :: h in r.software ==> h in s.software && s.software[h] == r.software[h]
    ensures host in r.software ==> s == r
  {
    if host in r.software then r
    else r.(software := r.software[host := name], softwareOrder := r.softwareOrder + [host])
  }

  /** The software part of `scan_host` for a connected task: `_define_software_for_ports_80_443`. */
  function DefineSoftware(r: Results, t: Task, reply: Option<string>): (s: Results)
    ensures s.openPorts == r.openPorts
    ensures Detect(t.port, reply).None? || t.host in r.software ==> s == r
    ensures t.host in s.software <==> t.host in r.software || Detect(t.port, reply).Some?
  {
    match Detect(t.port, reply)
    case None => r
    case Some(name) => InsertIfAbsent(r, t.host, name)
  }

  /** Recording a name keeps the insertion order listing each key once. */
  lemma DefineSoftwareWellFormed(r: Results, t: Task, reply: Option<string>)
    ensures WellFormed(r) ==> WellFormed(DefineSoftware(r, t, reply))
  {
    var s := DefineSoftware(r, t, reply);
    if WellFormed(r) && s != r {
      assert t.host !in r.softwareOrder;
      assert s.softwareOrder == r.softwareOrder + [t.host];
    }
  }

  /** The software step only ever adds the task's own host, with the name detected for it. */
  lemma DefineSoftwareEffect(r: Results, t: Task, reply: Option<string>)
    ensures var s := DefineSoftware(r, t, reply);
      && s.openPorts == r.openPorts
      && (forall h :: h in r.software ==> h in s.software && s.software[h] == r.software[h])
      && (forall h :: h in s.software && h !in r.software ==> h == t.host && Detect(t.port, reply) == Some(s.software[h]))
      && s.software.Keys == r.software.Keys + (if Detect(t.port, reply).Some? then {t.host} else {})
      && (s.softwareOrder == r.softwareOrder || s.softwareOrder == r.softwareOrder + [t.host])
  {
    var s := DefineSoftware(r, t, reply);
    match Detect(t.port, reply)
    case None =>
      assert s == r;
    case Some(name) =>
      if t.host in r.software {
        assert s == r;
      } else {
        assert s.software == r.software[t.host := name];
        assert s.software.Keys == r.software.Keys + {t.host};
      }
  }

  /** Appending an open-port line keeps every line splittable into host and port. */
  lemma AppendLineWellFormed(r: Results, t: Task)
    ensures WellFormed(r) ==> WellFormed(r.(openPorts := r.openPorts + [OpenRecord(t)]))
  {
    var s := r.(openPorts := r.openPorts + [OpenRecord(t)]);
    assert |Words(OpenRecord(t))| >= 2;
    assert forall k :: 0 <= k < |r.openPorts| ==> s.openPorts[k] == r.openPorts[k];
  }

  /**
   * `scan_host` run to completion on one probe. A refused connection changes
   * nothing; a connection appends exactly its line; the software map only ever
   * gains the task's own host, only when detection found a name, and never
   * loses or overwrites an entry.
   */
  function Step(r: Results, detect: bool, p: Probe): (s: Results)
    ensures p.outcome.Refused? ==> s == r
    ensures p.outcome.Connected? ==> s.openPorts == r.openPorts + [OpenRecord(p.task)]
    ensures forall h :: h in r.software ==> h in s.software && s.software[h] == r.software[h]
    ensures forall h :: h in s.software && h !in r.software ==>
      h == p.task.host && SoftwareOf(detect, p) == Some(s.software[h])
    ensures s.software.Keys == r.software.Keys + (if SoftwareOf(detect, p).Some? then {p.task.host} else {})
    ensures s.softwareOrder == r.softwareOrder || s.softwareOrder == r.softwareOrder + [p.task.host]
    ensures WellFormed(r) ==> WellFormed(s)
  {
    match p.outcome
    case Refused => r
    case Connected(reply) =>
      var withLine := r.(openPorts := r.openPorts + [OpenRecord(p.task)]);
      AppendLineWellFormed(r, p.task);
      DefineSoftwareWellFormed(withLine, p.task, reply);
      DefineSoftwareEffect(withLine, p.task, reply);
      if detect then DefineSoftware(withLine, p.task, reply) else withLine
  }

  /** Folding one more probe is one more step. */
  lemma FoldSnoc(r: Results, detect: bool, probes: seq<Probe>, p: Probe)
    ensures Fold(r, detect, probes + [p]) == Step(Fold(r, detect, probes), detect, p)
  {
    assert (probes + [p])[..|probes|] == probes;
  }

  /** The tasks whose connection succeeded, in completion order. */
  function Accepted(probes: seq<Probe>): (ts: seq<Task>)
    ensures |ts| <= |probes|
  {
    if probes == [] then []
    else
      var last := probes[|probes| - 1];
      Accepted(probes[..|probes| - 1]) + (if last.outcome.Connected? then [last.task] else [])
  }

  /** The open-port lines of a list of tasks. */
  function Records(ts: seq<Task>): seq<string> {
    seq(|ts|, k requires 0 <= k < |ts| => OpenRecord(ts[k]))
  }

  /**
   * The results after the probes complete one after another. The open-port
   * lines are those of the connected tasks in completion order, whatever the
   * detection flag; existing software entries are never overwritten; with
   * detection off the software map is untouched.
   */
  function Fold(r: Results, detect: bool, probes: seq<Probe>): (s: Results)
    ensures s.openPorts == r.openPorts + Records(Accepted(probes))
    ensures forall h :: h in r.software ==> h in s.software && s.software[h] == r.software[h]
    ensures !detect ==> s.software == r.software && s.softwareOrder == r.softwareOrder
    ensures WellFormed(r) ==> WellFormed(s)
  {
    if probes == [] then r
    else
      var init := probes[..|probes| - 1];
      var last := probes[|probes| - 1];
      var before := Fold(r, detect, init);
      var s := Step(before, detect, last);
      assert Records(Accepted(probes)) ==
        Records(Accepted(init)) + (if last.outcome.Connected? then [OpenRecord(last.task)] else []);
      s
  }

  /** The hosts for which some probe detected a name. */
  function DetectedHosts(detect: bool, probes: seq<Probe>): set<string> {
    set k | 0 <= k < |probes| && SoftwareOf(detect, probes[k]).Some? :: probes[k].task.host
  }

  /** After a run the map holds exactly the old keys and every host with a detected name. */
  lemma {:induction false} FoldSoftwareKeys(r: Results, detect: bool, probes: seq<Probe>)
    ensures Fold(r, detect, probes).software.Keys == r.software.Keys + DetectedHosts(detect, probes)
  {
    if probes != [] {
      var init := probes[..|probes| - 1];
      var last := probes[|probes| - 1];
      var before := Fold(r, detect, init);
      assert Fold(r, detect, probes) == Step(before, detect, last);
      FoldSoftwareKeys(r, detect, init);
      assert probes == init + [last];
      DetectedHostsSnoc(detect, init, last);
    }
  }

  lemma DetectedHostsSnoc(detect: bool, init: seq<Probe>, last: Probe)
    ensures DetectedHosts(detect, init + [last]) ==
      DetectedHosts(detect, init) + (if SoftwareOf(detect, last).Some? then {last.task.host} else {})
  {
    var probes := init + [last];
    var d, d0 := DetectedHosts(detect, probes), DetectedHosts(detect, init);
    forall h | h in d ensures h in d0 || (SoftwareOf(detect, last).Some? && h == last.task.host) {
      var k :| 0 <= k < |probes| && SoftwareOf(detect, probes[k]).Some? && probes[k].task.host == h;
      if k < |init| { assert probes[k] == init[k]; }
    }
    forall h | h in d0 ensures h in d {
      var k :| 0 <= k < |init| && SoftwareOf(detect, init[k]).Some? && init[k].task.host == h;
      assert probes[k] == init[k];
    }
    if SoftwareOf(detect, last).Some? {
      assert probes[|init|] == last;
    }
  }

  /** The set of keys does not depend on the order in which the tasks complete. */
  lemma SoftwareKeysIgnoreOrder(r: Results, detect: bool, a: seq<Probe>, b: seq<Probe>)
    requires multiset(a) == multiset(b)
    ensures Fold(r, detect, a).software.Keys == Fold(r, detect, b).software.Keys
  {
    FoldSoftwareKeys(r, detect, a);
    FoldSoftwareKeys(r, detect, b);
    DetectedHostsIncluded(detect, a, b);
    DetectedHostsIncluded(detect, b, a);
  }

  lemma DetectedHostsIncluded(detect: bool, a: seq<Probe>, b: seq<Probe>)
    requires multiset(a) <= multiset(b)
    ensures DetectedHosts(detect, a) <= DetectedHosts(detect, b)
  {
    forall h | h in DetectedHosts(detect, a) ensures h in DetectedHosts(detect, b) {
      var k :| 0 <= k < |a| && SoftwareOf(detect, a[k]).Some? && a[k].task.host == h;
      assert a[k] in multiset(b);
      var m :| 0 <= m < |b| && b[m] == a[k];
    }
  }

  /** Probe `k` is the first one that detected a name for host `h`. */
  ghost predicate FirstDetectionAt(detect: bool, probes: seq<Probe>, h: string, k: nat) {
    && k < |probes|
    && probes[k].task.host == h
    && SoftwareOf(detect, probes[k]).Some?
    && forall j :: 0 <= j < k && probes[j].task.host == h ==> SoftwareOf(detect, probes[j]).None?
  }

  /** First writer wins: a new host's entry is the name of its first detection. */
  lemma {:induction false} FirstWriterWins(r: Results, detect: bool, probes: seq<Probe>, h: string, k: nat)
    requires h !in r.software
    requires FirstDetectionAt(detect, probes, h, k)
    ensures h in Fold(r, detect, probes).software
    ensures Fold(r, detect, probes).software[h] == SoftwareOf(detect, probes[k]).value
  {
    var init := probes[..|probes| - 1];
    var last := probes[|probes| - 1];
    if k == |probes| - 1 {
      FoldSoftwareKeys(r, detect, init);
      NoDetectionBefore(detect, probes, h);
    } else {
      FirstDetectionInFront(detect, probes, h, k);
      FirstWriterWins(r, detect, init, h, k);
    }
  }

  /** Before the first detection for `h`, no probe detected a name for `h`. */
  lemma NoDetectionBefore(detect: bool, probes: seq<Probe>, h: string)
    requires probes != [] && FirstDetectionAt(detect, probes, h, |probes| - 1)
    ensures h !in DetectedHosts(detect, probes[..|probes| - 1])
  {
    var init := probes[..|probes| - 1];
    forall j | 0 <= j < |init| && init[j].task.host == h ensures SoftwareOf(detect, init[j]).None? {
      assert init[j] == probes[j];
    }
  }

  /** A first detection before the last probe is a first detection of the probes before it. */
  lemma FirstDetectionInFront(detect: bool, probes: seq<Probe>, h: string, k: nat)
    requires FirstDetectionAt(detect, probes, h, k) && k < |probes| - 1
    ensures FirstDetectionAt(detect, probes[..|probes| - 1], h, k)
  {
    var init := probes[..|probes| - 1];
    assert init[k] == probes[k];
    forall j | 0 <= j < k && init[j].task.host == h ensures SoftwareOf(detect, init[j]).None? {
      assert init[j] == probes[j];
    }
  }

  /** Some probe detected a name for `h`, so a first one did. */
  lemma {:induction false} FirstDetectionExists(detect: bool, probes: seq<Probe>, h: string, k0: nat)
    requires k0 < |probes| && probes[k0].task.host == h && SoftwareOf(detect, probes[k0]).Some?
    ensures exists k :: FirstDetectionAt(detect, probes, h, k)
    decreases k0
  {
    if forall j :: 0 <= j < k0 && probes[j].task.host == h ==> SoftwareOf(detect, probes[j]).None? {
      assert FirstDetectionAt(detect, probes, h, k0);
    } else {
      var j :| 0 <= j < k0 && probes[j].task.host == h && SoftwareOf(detect, probes[j]).Some?;
      FirstDetectionExists(detect, probes, h, j);
    }
  }

  /** Every detection for the same host found the same name. */
  ghost predicate RepliesAgree(detect: bool, probes: seq<Probe>) {
    forall i, j ::
      (0 <= i < |probes| && 0 <= j < |probes| && probes[i].task.host == probes[j].task.host &&
       SoftwareOf(detect, probes[i]).Some? && SoftwareOf(detect, probes[j]).Some?)
      ==> SoftwareOf(detect, probes[i]) == SoftwareOf(detect, probes[j])
  }

  /**
   * When every server announces the same software on every connection, the
   * software map does not depend on the order in which the tasks complete.
   */
  lemma SoftwareIgnoresOrderWhenRepliesAgree(r: Results, detect: bool, a: seq<Probe>, b: seq<Probe>)
    requires multiset(a) == multiset(b)
    requires RepliesAgree(detect, a)
    ensures Fold(r, detect, a).software == Fold(r, detect, b).software
  {
    var sa, sb := Fold(r, detect, a).software, Fold(r, detect, b).software;
    SoftwareKeysIgnoreOrder(r, detect, a, b);
    forall h | h in sa ensures sa[h] == sb[h] {
      if h in r.software {
        assert sa[h] == r.software[h] == sb[h];
      } else {
        SameNewEntry(r, detect, a, b, h);
      }
    }
    MapsAgree(sa, sb);
  }

  /** Two maps with the same keys and the same value at every key are equal. */
  lemma MapsAgree<K, V>(m: map<K, V>, n: map<K, V>)
    requires m.Keys == n.Keys
    requires forall k :: k in m ==> m[k] == n[k]
    ensures m == n
  {
  }

  lemma SameNewEntry(r: Results, detect: bool, a: seq<Probe>, b: seq<Probe>, h: string)
    requires multiset(a) == multiset(b)
    requires RepliesAgree(detect, a)
    requires h in Fold(r, detect, a).software && h !in r.software
    ensures h in Fold(r, detect, b).software
    ensures Fold(r, detect, a).software[h] == Fold(r, detect, b).software[h]
  {
    SoftwareKeysIgnoreOrder(r, detect, a, b);
    var i := NewEntrySource(r, detect, a, h);
    var m := NewEntrySource(r, detect, b, h);
    assert b[m] in multiset(a);
    var n :| 0 <= n < |a| && a[n] == b[m];
  }

  /** A new entry of the map is the name some probe of its host detected. */
  lemma NewEntrySource(r: Results, detect: bool, probes: seq<Probe>, h: string) returns (k: nat)
    requires h in Fold(r, detect, probes).software && h !in r.software
    ensures k < |probes| && probes[k].task.host == h
    ensures SoftwareOf(detect, probes[k]) == Some(Fold(r, detect, probes).software[h])
  {
    FoldSoftwareKeys(r, detect, probes);
    var i :| 0 <= i < |probes| && SoftwareOf(detect, probes[i]).Some? && probes[i].task.host == h;
    FirstDetectionExists(detect, probes, h, i);
    k :| FirstDetectionAt(detect, probes, h, k);
    FirstWriterWins(r, detect, probes, h, k);
  }

  /** How often `x` occurs in `s`. */
  function Count<T(==)>(s: seq<T>, x: T): nat {
    multiset(s)[x]
  }

  /** A task's line occurs in the list exactly as often as the task connected. */
  lemma {:induction false} RecordCount(ts: seq<Task>, t: Task)
    ensures Count(Records(ts), OpenRecord(t)) == Count(ts, t)
  {
    if ts != [] {
      var init := ts[..|ts| - 1];
      var last := ts[|ts| - 1];
      assert ts == init + [last];
      assert Records(ts) == Records(init) + [OpenRecord(last)];
      RecordCount(init, t);
      if OpenRecord(last) == OpenRecord(t) {
        OpenRecordInjective(last, t);
      }
    }
  }

  /** Connected tasks are a sub-multiset of the probed tasks. */
  lemma {:induction false} AcceptedCount(probes: seq<Probe>, t: Task)
    ensures Count(Accepted(probes), t) <= Count(Tasks(probes), t)
  {
    if probes != [] {
      var init := probes[..|probes| - 1];
      var last := probes[|probes| - 1];
      assert Tasks(probes) == Tasks(init) + [last.task];
      AcceptedCount(init, t);
    }
  }

  /** The tasks of a list of probes. */
  function Tasks(probes: seq<Probe>): seq<Task> {
    seq(|probes|, k requires 0 <= k < |probes| => probes[k].task)
  }

  /** Pairs each completed task with the outcome of its connection attempt. */
  function Probes(ts: seq<Task>, outcomes: seq<Outcome>): (ps: seq<Probe>)
    requires |outcomes| == |ts|
    ensures Tasks(ps) == ts
  {
    seq(|ts|, k requires 0 <= k < |ts| => Probe(ts[k], outcomes[k]))
  }

  /** One more completed task is one more step of the fold. */
  lemma FoldProbesSnoc(r: Results, detect: bool, order: seq<Task>, outcomes: seq<Outcome>, k: nat)
    requires k < |order| == |outcomes|
    ensures Fold(r, detect, Probes(order[..k + 1], outcomes[..k + 1]))
         == Step(Fold(r, detect, Probes(order[..k], outcomes[..k])), detect, Probe(order[k], outcomes[k]))
  {
    assert order[..k + 1] == order[..k] + [order[k]];
    ProbesSnoc(order[..k], order[k], outcomes);
    FoldSnoc(r, detect, Probes(order[..k], outcomes[..k]), Probe(order[k], outcomes[k]));
  }

  lemma ProbesSnoc(ts: seq<Task>, t: Task, outcomes: seq<Outcome>)
    requires |ts| < |outcomes|
    ensures Probes(ts + [t], outcomes[..|ts| + 1]) == Probes(ts, outcomes[..|ts|]) + [Probe(t, outcomes[|ts|])]
  {
  }

  /** The tasks `scan_host` is submitted for one host: that host with every port, in order. */
  function Row(host: string, ports: seq<int>): seq<Task> {
    seq(|ports|, j requires 0 <= j < |ports| => Task(host, ports[j]))
  }

  /** `product(hosts, ports)`: the submitted tasks, host-major. */
  function Product(hosts: seq<string>, ports: seq<int>): (tasks: seq<Task>)
    ensures forall k :: 0 <= k < |tasks| ==> tasks[k].host in hosts && tasks[k].port in ports
  {
    if hosts == [] then []
    else Product(hosts[..|hosts| - 1], ports) + Row(hosts[|hosts| - 1], ports)
  }

  /** There are |hosts|·|ports| tasks. */
  lemma {:induction false} ProductLength(hosts: seq<string>, ports: seq<int>)
    ensures |Product(hosts, ports)| == |hosts| * |ports|
  {
    if hosts != [] {
      ProductLength(hosts[..|hosts| - 1], ports);
      MulSucc(|hosts| - 1, |ports|);
    }
  }

  /** Task i·|ports| + j pairs host i with port j. */
  lemma {:induction false} ProductAt(hosts: seq<string>, ports: seq<int>, i: nat, j: nat)
    requires i < |hosts| && j < |ports|
    ensures i * |ports| + j < |hosts| * |ports| == |Product(hosts, ports)|
    ensures Product(hosts, ports)[i * |ports| + j] == Task(hosts[i], ports[j])
  {
    var n, w := |hosts| - 1, |ports|;
    var init := hosts[..n];
    var front := Product(init, ports);
    ProductLength(init, ports);
    ProductLength(hosts, ports);
    MulSucc(n, w);
    assert Product(hosts, ports) == front + Row(hosts[n], ports);
    if i < n {
      ProductAt(init, ports, i, j);
      assert init[i] == hosts[i];
    } else {
      assert i * w == |front|;
    }
  }

  lemma MulSucc(a: nat, b: nat)
    ensures (a + 1) * b == a * b + b
  {
  }

  /** Each pair is submitted as often as its host and its port occur; once each when both lists are distinct. */
  lemma {:induction false} ProductCount(hosts: seq<string>, ports: seq<int>, t: Task)
    ensures Count(Product(hosts, ports), t) == Count(hosts, t.host) * Count(ports, t.port)
  {
    if hosts != [] {
      var init := hosts[..|hosts| - 1];
      var last := hosts[|hosts| - 1];
      assert hosts == init + [last];
      ProductCount(init, ports, t);
      RowCount(last, ports, t);
      if last == t.host {
        assert Count(hosts, t.host) == Count(init, t.host) + 1;
        MulSucc(Count(init, t.host), Count(ports, t.port));
      } else {
        assert Count(hosts, t.host) == Count(init, t.host);
      }
    }
  }

  lemma {:induction false} RowCount(host: string, ports: seq<int>, t: Task)
    ensures Count(Row(host, ports), t) == if host == t.host then Count(ports, t.port) else 0
  {
    if ports != [] {
      var init := ports[..|ports| - 1];
      var last := ports[|ports| - 1];
      assert ports == init + [last];
      assert Row(host, ports) == Row(host, init) + [Task(host, last)];
      RowCount(host, init, t);
    }
  }

  /** `picks` chooses, at step k, one of the n − k tasks still pending. */
  predicate IsSchedule(picks: seq<nat>, n: nat) {
    |picks| == n && forall k :: 0 <= k < n ==> picks[k] < n - k
  }

  lemma PrefixSnoc<T>(s: seq<T>, k: nat)
    requires k < |s|
    ensures s[..k + 1] == s[..k] + [s[k]]
  {
  }

  /** `s` without its element at index i. */
  function Remove<T>(s: seq<T>, i: nat): (r: seq<T>)
    requires i < |s|
    ensures multiset(r) + multiset{s[i]} == multiset(s)
  {
    assert s == s[..i] + [s[i]] + s[i + 1..];
    s[..i] + s[i + 1..]
  }

  /** The order in which a pool picking `picks` completes the `pending` tasks. */
  function Schedule<T>(pending: seq<T>, picks: seq<nat>): (order: seq<T>)
    requires IsSchedule(picks, |pending|)
    ensures multiset(order) == multiset(pending)
    ensures |order| == |pending|
    decreases |pending|
  {
    if pending == [] then []
    else
      var i := picks[0];
      assert IsSchedule(picks[1..], |pending| - 1) by {
        forall k | 0 <= k < |pending| - 1 ensures picks[1..][k] < |pending| - 1 - k {
          assert picks[1..][k] == picks[k + 1];
        }
      }
      [pending[i]] + Schedule(Remove(pending, i), picks[1..])
  }

  /** Conversely, every completion order of the submitted tasks is some schedule. */
  lemma EveryOrderIsASchedule<T>(pending: seq<T>, order: seq<T>)
    requires multiset(order) == multiset(pending)
    ensures exists picks :: IsSchedule(picks, |pending|) && Schedule(pending, picks) == order
  {
    var picks := PicksFor(pending, order);
  }

  /** The choices that complete `pending` in the given order. */
  lemma {:induction false} PicksFor<T>(pending: seq<T>, order: seq<T>) returns (picks: seq<nat>)
    requires multiset(order) == multiset(pending)
    ensures IsSchedule(picks, |pending|) && Schedule(pending, picks) == order
    decreases |pending|
  {
    assert |order| == |multiset(order)| == |pending|;
    if pending == [] {
      picks := [];
    } else {
      HeadAndTail(order);
      assert order[0] in multiset(pending);
      var i :| 0 <= i < |pending| && pending[i] == order[0];
      TailMultiset(pending, order, i);
      var more := PicksFor(Remove(pending, i), order[1..]);
      picks := SchedulePicksFirst(pending, i, more);
    }
  }

  lemma HeadAndTail<T>(s: seq<T>)
    requires s != []
    ensures s == [s[0]] + s[1..]
  {
  }

  lemma TailMultiset<T>(pending: seq<T>, order: seq<T>, i: nat)
    requires multiset(order) == multiset(pending)
    requires i < |pending| && order != [] && pending[i] == order[0]
    ensures multiset(order[1..]) == multiset(Remove(pending, i))
  {
    assert order == [order[0]] + order[1..];
    var rest := Remove(pending, i);
    assert multiset(order) == multiset{order[0]} + multiset(order[1..]);
    forall y ensures multiset(order[1..])[y] == multiset(rest)[y] {
      assert multiset(order)[y] == multiset{order[0]}[y] + multiset(order[1..])[y];
      assert multiset(pending)[y] == multiset{order[0]}[y] + multiset(rest)[y];
    }
  }

  lemma SchedulePicksFirst<T>(pending: seq<T>, i: nat, more: seq<nat>) returns (picks: seq<nat>)
    requires i < |pending| && IsSchedule(more, |pending| - 1)
    ensures picks == [i] + more
    ensures IsSchedule(picks, |pending|)
    ensures Schedule(pending, picks) == [pending[i]] + Schedule(Remove(pending, i), more)
  {
    picks := [i] + more;
    assert picks[1..] == more;
    forall k | 0 <= k < |pending| ensures picks[k] < |pending| - k {
      if k > 0 { assert picks[k] == more[k - 1]; }
    }
  }

  /**
   * Whatever order the pool completes the tasks in, a task's line is reported
   * exactly as often as its connection succeeded, and never more often than the
   * task was submitted: once at most when hosts and ports are distinct.
   */
  lemma ReportedAtMostAsSubmitted(
    hosts: seq<string>, ports: seq<int>, detect: bool, picks: seq<nat>, outcomes: seq<Outcome>, t: Task)
    requires IsSchedule(picks, |Product(hosts, ports)|)
    requires |outcomes| == |Product(hosts, ports)|
    ensures var probes := Probes(Schedule(Product(hosts, ports), picks), outcomes);
      Count(Fold(Empty, detect, probes).openPorts, OpenRecord(t)) == Count(Accepted(probes), t)
    ensures var probes := Probes(Schedule(Product(hosts, ports), picks), outcomes);
      Count(Fold(Empty, detect, probes).openPorts, OpenRecord(t)) <= Count(hosts, t.host) * Count(ports, t.port)
  {
    var probes := Probes(Schedule(Product(hosts, ports), picks), outcomes);
    assert Fold(Empty, detect, probes).openPorts == Records(Accepted(probes));
    RecordCount(Accepted(probes), t);
    AcceptedCount(probes, t);
    ProductCount(hosts, ports, t);
  }
}
