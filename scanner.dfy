/**
 * The `Scanner` object: its constructor, the submission loop of `run`, the
 * per-task `scan_host` with its software detection, and `output`.
 *
 * The pool of worker threads is modelled by its effect: the submitted tasks
 * complete one after another, in an order chosen by `picks`, and each
 * connection attempt observes the given `Outcome`.
 */
module PortScanner {
  import opened Wrappers
  import opened Text
  import HostRange
  import opened ScanSpec
  import Report

  /** Why constructing a `Scanner` raised. */
  datatype InitError =
    | BadHosts(reason: HostRange.RangeError)  // `_convert_range_to_hosts` raised
    | BadPort(text: string)                    // `int(port)` raised on this argument

  /**
   * `[int(port) for port in ports]`: every argument converted in order, or the
   * first argument `int()` rejects.
   */
  function ParsePorts(args: seq<string>): (r: Result<seq<int>, string>)
    ensures r.Ok? <==> forall k :: 0 <= k < |args| ==> ParseInt(args[k]).Some?
    ensures r.Ok? ==> |r.value| == |args| && forall k :: 0 <= k < |args| ==> ParseInt(args[k]) == Some(r.value[k])
    ensures r.Err? ==> exists k :: 0 <= k < |args| && args[k] == r.error && ParseInt(args[k]).None? &&
                                   forall j :: 0 <= j < k ==> ParseInt(args[j]).Some?
  {
    if args == [] then Ok([])
    else match ParseInt(args[0])
      case None => Err(args[0])
      case Some(port) =>
        match ParsePorts(args[1..])
        case Err(text) =>
          FirstBadAfterGood(args, text);
          Err(text)
        case Ok(rest) =>
          AllGoodCons(args, port, rest);
          Ok([port] + rest)
  }

  /** A failure in the tail, after a good first argument, is the first failure of the whole list. */
  lemma FirstBadAfterGood(args: seq<string>, text: string)
    requires args != [] && ParseInt(args[0]).Some?
    requires exists k :: 0 <= k < |args[1..]| && args[1..][k] == text && ParseInt(args[1..][k]).None? &&
                         forall j :: 0 <= j < k ==> ParseInt(args[1..][j]).Some?
    ensures exists k :: 0 <= k < |args| && args[k] == text && ParseInt(args[k]).None? &&
                        forall j :: 0 <= j < k ==> ParseInt(args[j]).Some?
  {
    var k :| 0 <= k < |args[1..]| && args[1..][k] == text && ParseInt(args[1..][k]).None? &&
      forall j :: 0 <= j < k ==> ParseInt(args[1..][j]).Some?;
    assert args[k + 1] == args[1..][k];
    forall j | 0 <= j < k + 1 ensures ParseInt(args[j]).Some? {
      if j > 0 { assert args[j] == args[1..][j - 1]; }
    }
  }

  /** A good first argument followed by a converted tail gives the converted list. */
  lemma AllGoodCons(args: seq<string>, port: int, rest: seq<int>)
    requires args != [] && ParseInt(args[0]) == Some(port)
    requires |rest| == |args| - 1 && forall k :: 0 <= k < |args[1..]| ==> ParseInt(args[1..][k]) == Some(rest[k])
    ensures forall k :: 0 <= k < |args| ==> ParseInt(args[k]) == Some(([port] + rest)[k])
  {
    var ports := [port] + rest;
    forall k | 0 <= k < |args| ensures ParseInt(args[k]) == Some(ports[k]) {
      ConsAt(args, ports, k);
    }
  }

  /** Position `k > 0` of a list is position `k - 1` of its tail. */
  lemma ConsAt<S, T>(xs: seq<S>, ys: seq<T>, k: nat)
    requires k < |xs| == |ys|
    ensures k > 0 ==> xs[k] == xs[1..][k - 1] && ys[k] == ys[1..][k - 1]
  {
  }

  /** Ports written in decimal are read back unchanged. */
  lemma {:induction false} ParsePortsOfDecimals(ports: seq<int>)
    ensures ParsePorts(seq(|ports|, k requires 0 <= k < |ports| => IntToDecimal(ports[k]))) == Ok(ports)
  {
    var args := seq(|ports|, k requires 0 <= k < |ports| => IntToDecimal(ports[k]));
    forall k | 0 <= k < |ports| ensures ParseInt(args[k]) == Some(ports[k]) {
      ParseIntOfDecimal(ports[k]);
    }
    var r := ParsePorts(args);
    assert r.value == ports;
  }

  class Scanner {
    /** The hosts to scan, the ports to scan on each, and whether to detect software. */
    const hosts: seq<string>
    const ports: seq<int>
    const software: bool
    /** `open_ports_list`. */
    var openPorts: seq<string>
    /** `hosts_software`, with the order its keys were inserted in. */
    var hostsSoftware: map<string, string>
    var softwareOrder: seq<string>

    /** The results gathered so far. */
    function Snapshot(): Results
      reads this
    {
      Results(openPorts, hostsSoftware, softwareOrder)
    }

    ghost predicate Valid()
      reads this
    {
      WellFormed(Snapshot())
    }

    /** `__init__` once the arguments have been converted: no results yet. */
    constructor(hosts: seq<string>, ports: seq<int>, software: bool)
      ensures this.hosts == hosts && this.ports == ports && this.software == software
      ensures Snapshot() == Empty
      ensures Valid()
    {
      this.hosts := hosts;
      this.ports := ports;
      this.software := software;
      openPorts := [];
      hostsSoftware := map[];
      softwareOrder := [];
    }

    /**
     * `scan_host(host, port)`: on a successful connection, append the task's
     * line and, with detection on, look for the server's software.
     */
    method ScanHost(host: string, port: int, outcome: Outcome)
      requires Valid()
      modifies this
      ensures Valid()
      ensures Snapshot() == Step(old(Snapshot()), software, Probe(Task(host, port), outcome))
    {
      match outcome
      case Refused =>
      case Connected(reply) =>
        openPorts := openPorts + [OpenRecord(Task(host, port))];
        if software {
          DefineSoftwareForWebPorts(host, port, reply);
        }
    }

    /**
     * `_define_software_for_ports_80_443`: on ports 80 and 443, read the
     * software from the reply and record it unless the host already has an
     * entry.
     */
    method DefineSoftwareForWebPorts(host: string, port: int, reply: Option<string>)
      requires Valid()
      modifies this
      ensures Valid()
      ensures Snapshot() == DefineSoftware(old(Snapshot()), Task(host, port), reply)
    {
      ghost var before := Snapshot();
      DefineSoftwareWellFormed(before, Task(host, port), reply);
      var name := Detect(port, reply);
      if name.Some? && host !in hostsSoftware {
        hostsSoftware := hostsSoftware[host := name.value];
        softwareOrder := softwareOrder + [host];
      }
    }

    /** The submission loop of `run`: one task per host and port, host-major. */
    method Submit() returns (tasks: seq<Task>)
      ensures tasks == Product(hosts, ports)
    {
      tasks := [];
      for i := 0 to |hosts|
        invariant tasks == Product(hosts[..i], ports)
      {
        for j := 0 to |ports|
          invariant tasks == Product(hosts[..i], ports) + Row(hosts[i], ports[..j])
        {
          assert Row(hosts[i], ports[..j + 1]) == Row(hosts[i], ports[..j]) + [Task(hosts[i], ports[j])];
          tasks := tasks + [Task(hosts[i], ports[j])];
        }
        assert ports[..|ports|] == ports;
        assert hosts[..i + 1][..i] == hosts[..i];
      }
      assert hosts[..|hosts|] == hosts;
    }

    /**
     * `run`: submit every task, let the pool complete them in the order
     * `picks` chooses, then produce the report. `outcomes[k]` is what the k-th
     * completed task's connection attempt observed.
     */
    method Run(picks: seq<nat>, outcomes: seq<Outcome>) returns (report: seq<string>)
      requires Valid()
      requires IsSchedule(picks, |Product(hosts, ports)|)
      requires |outcomes| == |Product(hosts, ports)|
      modifies this
      ensures Valid()
      ensures Snapshot() == Fold(old(Snapshot()), software, Probes(Schedule(Product(hosts, ports), picks), outcomes))
      ensures report == Report.Render(Snapshot())
    {
      var submitted := Submit();
      CompleteTasks(submitted, picks, outcomes);
      report := Output();
    }

    /**
     * The thread pool working through the submitted tasks: it runs `scan_host`
     * on each, one after another, in the order `picks` chooses.
     */
    method CompleteTasks(submitted: seq<Task>, picks: seq<nat>, outcomes: seq<Outcome>)
      requires Valid()
      requires IsSchedule(picks, |submitted|)
      requires |outcomes| == |submitted|
      modifies this
      ensures Valid()
      ensures Snapshot() == Fold(old(Snapshot()), software, Probes(Schedule(submitted, picks), outcomes))
    {
      var order := Schedule(submitted, picks);
      ghost var start := old(Snapshot());
      for k := 0 to |order|
        invariant Valid()
        invariant Snapshot() == Fold(start, software, Probes(order[..k], outcomes[..k]))
      {
        FoldProbesSnoc(start, software, order, outcomes, k);
        ScanHost(order[k].host, order[k].port, outcomes[k]);
      }
      assert order[..|order|] == order && outcomes[..|order|] == outcomes;
    }

    /** `output`: the report on the results gathered so far. */
    method Output() returns (lines: seq<string>)
      requires Valid()
      ensures lines == Report.Render(Snapshot())
    {
      var openLines := OpenPortLines();
      var softwareLines := SoftwareReportLines();
      lines := [Report.Rule, Report.OpenHeading] + openLines + [Report.Rule] + softwareLines;
      Report.RenderSections(Snapshot());
    }

    /** The loop of `output` over `open_ports_list`, or the line saying there are none. */
    method OpenPortLines() returns (section: seq<string>)
      requires Valid()
      ensures section == Report.OpenSection(openPorts)
    {
      var records := openPorts;
      if records == [] {
        return [Report.NoOpenPorts];
      }
      ghost var expected := Report.OpenSection(records);
      section := [];
      for k := 0 to |records|
        invariant section == expected[..k]
      {
        PrefixSnoc(expected, k);
        section := section + [Report.PortLine(records[k])];
      }
      assert expected[..|records|] == expected;
    }

    /** The loop of `output` over `hosts_software`, framed by its heading and the rule, or the line saying none was found. */
    method SoftwareReportLines() returns (section: seq<string>)
      requires Valid()
      ensures section == Report.SoftwareSection(Snapshot())
    {
      var order, found := softwareOrder, hostsSoftware;
      if found == map[] {
        return [Report.NoSoftware];
      }
      ghost var expected := Report.SoftwareLines(order, found);
      var entries := [];
      for k := 0 to |order|
        invariant entries == expected[..k]
      {
        PrefixSnoc(expected, k);
        entries := entries + [Report.SoftwareLine(order[k], found[order[k]])];
      }
      assert expected[..|order|] == expected;
      section := [Report.SoftwareHeading] + entries + [Report.Rule];
    }
  }

  /**
   * `Scanner(hosts, ports, software)` from the command-line arguments: the
   * host argument is expanded first, then the ports are converted; either
   * step can raise.
   */
  method NewScanner(hostArg: string, portArgs: seq<string>, software: bool) returns (r: Result<Scanner, InitError>)
    ensures HostRange.ConvertRangeToHosts(hostArg).Err? ==>
      r == Err(BadHosts(HostRange.ConvertRangeToHosts(hostArg).error))
    ensures HostRange.ConvertRangeToHosts(hostArg).Ok? && ParsePorts(portArgs).Err? ==>
      r == Err(BadPort(ParsePorts(portArgs).error))
    ensures HostRange.ConvertRangeToHosts(hostArg).Ok? && ParsePorts(portArgs).Ok? ==> r.Ok?
    ensures r.Ok? ==>
      && HostRange.ConvertRangeToHosts(hostArg) == Ok(r.value.hosts)
      && ParsePorts(portArgs) == Ok(r.value.ports)
      && r.value.software == software
      && fresh(r.value) && r.value.Snapshot() == Empty && r.value.Valid()
  {
    match HostRange.ConvertRangeToHosts(hostArg)
    case Err(e) => r := Err(BadHosts(e));
    case Ok(hosts) =>
      match ParsePorts(portArgs)
      case Err(text) => r := Err(BadPort(text));
      case Ok(ports) =>
        var scanner := new Scanner(hosts, ports, software);
        r := Ok(scanner);
  }
}
