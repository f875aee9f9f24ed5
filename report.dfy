/**
 * The console report `Scanner.output` prints at the end of a run, as the list
 * of lines it prints (`print` adds the line breaks).
 */
module Report {
  import opened Wrappers
  import opened Text
  import opened ScanSpec

  /** `s * n`: `n` copies of `s` one after another. */
  function Repeat(s: string, n: nat): (r: string)
    ensures |r| == |s| * n
    ensures forall k :: 0 <= k < |r| ==> r[k] in s
  {
    if n == 0 then [] else Repeat(s, n - 1) + s
  }

  /** `'====' * 20`: the separator line, 80 equals signs. */
  const Rule: string := Repeat("====", 20)
  const OpenHeading: string := "Открытые порты:"
  const NoOpenPorts: string := "[+] Нет открытых портов"
  const SoftwareHeading: string := "Програмное обеспечение хостов:"
  const NoSoftware: string := "[+] Не удалось определить ПО!"

  const PortMark: string := "[+] Порт "
  const OpenMark: string := " ОТКРЫТ"
  const HostMark: string := "Хост "
  const NameMark: string := ", програмное обеспечение "

  /** The line for one record: its first two `split()` fields, as host and port. */
  function PortLine(record: string): (line: string)
    requires |Words(record)| >= 2
    ensures |line| >= |PortMark| + 3 + |OpenMark|
    ensures line[..|PortMark|] == PortMark && line[|line| - |OpenMark|..] == OpenMark
  {
    var item := Words(record);
    PortMark + item[0] + ":" + item[1] + OpenMark
  }

  /** Fields after the second do not show: the line is that of the record cut after its port. */
  lemma PortLineDropsLaterFields(record: string, c: char, extra: string)
    requires |Words(record)| >= 2 && IsSpace(c)
    ensures |Words(record + [c] + extra)| >= 2
    ensures PortLine(record + [c] + extra) == PortLine(record)
  {
    WordsAroundSpace(record, c, extra);
  }

  /** The line for one entry of `hosts_software`. */
  function SoftwareLine(host: string, name: string): (line: string)
    ensures |line| == |HostMark| + |host| + |NameMark| + |name|
    ensures line[..|HostMark| + |host|] == HostMark + host
    ensures line[|line| - |name|..] == name
  {
    HostMark + host + NameMark + name
  }

  /** For hosts without a comma, a software line tells which host and which name it reports. */
  lemma SoftwareLineInjective(h1: string, n1: string, h2: string, n2: string)
    requires ',' !in h1 && ',' !in h2
    requires SoftwareLine(h1, n1) == SoftwareLine(h2, n2)
    ensures h1 == h2 && n1 == n2
  {
    var line := SoftwareLine(h1, n1);
    var m := |HostMark|;
    assert NameMark[0] == ',';
    assert forall k :: 0 <= k < |h1| ==> line[m + k] == h1[k];
    assert forall k :: 0 <= k < |h2| ==> line[m + k] == h2[k];
    assert line[m + |h1|] == ',' && line[m + |h2|] == ',';
    if |h1| < |h2| {
      assert false;
    } else if |h2| < |h1| {
      assert false;
    }
    assert h1 == line[m..m + |h1|] == h2;
  }

  predicate AllSplittable(records: seq<string>) {
    forall k :: 0 <= k < |records| ==> |Words(records[k])| >= 2
  }

  /** The section listing the open ports, or saying there are none. */
  function OpenSection(records: seq<string>): (section: seq<string>)
    requires AllSplittable(records)
    ensures |section| == if records == [] then 1 else |records|
    ensures forall k :: 0 <= k < |records| ==> section[k] == PortLine(records[k])
  {
    if records == [] then [NoOpenPorts]
    else seq(|records|, k requires 0 <= k < |records| => PortLine(records[k]))
  }

  /** The lines for the software entries, in the order the hosts were inserted. */
  function SoftwareLines(order: seq<string>, software: map<string, string>): seq<string>
    requires forall h :: h in order ==> h in software
  {
    seq(|order|, k requires 0 <= k < |order| => SoftwareLine(order[k], software[order[k]]))
  }

  /** The section listing the detected software, or saying none was found. */
  function SoftwareSection(r: Results): (section: seq<string>)
    requires forall h :: h in r.softwareOrder ==> h in r.software
    ensures |section| == if r.software == map[] then 1 else 2 + |r.softwareOrder|
    ensures r.software != map[] ==> section[0] == SoftwareHeading && section[|section| - 1] == Rule
    ensures r.software != map[] ==> forall k :: 0 <= k < |r.softwareOrder| ==>
      section[1 + k] == SoftwareLine(r.softwareOrder[k], r.software[r.softwareOrder[k]])
  {
    if r.software == map[] then [NoSoftware]
    else [SoftwareHeading] + SoftwareLines(r.softwareOrder, r.software) + [Rule]
  }

  /**
   * Everything `output` prints. The open-port lines follow the list in order,
   * one per record; the software lines follow the dict's insertion order, one
   * per host. The third line says "no open ports" exactly when the list is
   * empty, and the last line says "could not determine" exactly when the map
   * is empty.
   */
  function Render(r: Results): (lines: seq<string>)
    requires WellFormed(r)
    ensures |lines| == 3 + (if r.openPorts == [] then 1 else |r.openPorts|)
                         + (if r.software == map[] then 1 else 2 + |r.softwareOrder|)
    ensures lines[0] == Rule && lines[1] == OpenHeading
    ensures forall k :: 0 <= k < |r.openPorts| ==> lines[2 + k] == PortLine(r.openPorts[k])
    ensures lines[2] == NoOpenPorts <==> r.openPorts == []
    ensures lines[|lines| - 1] == NoSoftware <==> r.software == map[]
    ensures lines[2 + (if r.openPorts == [] then 1 else |r.openPorts|)] == Rule
    ensures r.software != map[] ==>
      lines[|lines| - 2 - |r.softwareOrder|] == SoftwareHeading && lines[|lines| - 1] == Rule
    ensures r.software != map[] ==>
      forall k :: 0 <= k < |r.softwareOrder| ==>
        lines[|lines| - 1 - |r.softwareOrder| + k] == SoftwareLine(r.softwareOrder[k], r.software[r.softwareOrder[k]])
  {
    var open, software := OpenSection(r.openPorts), SoftwareSection(r);
    SectionMarkers(r);
    Layout(Rule, OpenHeading, open, Rule, software);
    [Rule, OpenHeading] + open + [Rule] + software
  }

  /** Where the pieces of the report end up. */
  lemma Layout<T>(a: T, b: T, open: seq<T>, c: T, software: seq<T>)
    ensures var lines := [a, b] + open + [c] + software;
      && |lines| == 3 + |open| + |software|
      && lines[0] == a && lines[1] == b
      && (forall k :: 0 <= k < |open| ==> lines[2 + k] == open[k])
      && (forall k :: 0 <= k < |software| ==> lines[3 + |open| + k] == software[k])
  {
  }

  lemma RenderSections(r: Results)
    requires WellFormed(r)
    ensures Render(r) == [Rule, OpenHeading] + OpenSection(r.openPorts) + [Rule] + SoftwareSection(r)
  {
  }

  /** The "none" lines of the two sections cannot be confused with entries or the separator. */
  lemma SectionMarkers(r: Results)
    requires WellFormed(r)
    ensures OpenSection(r.openPorts)[0] == NoOpenPorts <==> r.openPorts == []
    ensures var sw := SoftwareSection(r); sw[|sw| - 1] == NoSoftware <==> r.software == map[]
    ensures r.software == map[] <==> r.softwareOrder == []
  {
    if r.openPorts != [] {
      assert OpenSection(r.openPorts)[0] == PortLine(r.openPorts[0]);
      assert PortLine(r.openPorts[0])[4] != NoOpenPorts[4];
    }
    if r.software != map[] {
      assert Rule[0] == '=' && NoSoftware[0] == '[';
      var h :| h in r.software;
      assert h in r.softwareOrder;
    } else {
      HeadIsMember(r.softwareOrder);
    }
  }

  lemma HeadIsMember<T>(s: seq<T>)
    ensures s == [] || s[0] in s
  {
  }

  /**
   * For a host that is one `split()` field, the report line names exactly the
   * host and the port that were scanned.
   */
  lemma PortLineOfPlainHost(t: Task)
    requires t.host != [] && NoSpace(t.host)
    ensures PortLine(OpenRecord(t)) == PortMark + t.host + ":" + IntToDecimal(t.port) + OpenMark
    ensures ParseInt(Words(OpenRecord(t))[1]) == Some(t.port)
  {
    WordsOfWord(t.host);
    ParseIntOfDecimal(t.port);
  }

  /**
   * A host made only of whitespace (such as the empty string) contributes no
   * field, so the line shows the port where the host belongs and `OPEN` where
   * the port belongs.
   */
  lemma PortLineOfBlankHost(t: Task)
    requires forall k :: 0 <= k < |t.host| ==> IsSpace(t.host[k])
    ensures PortLine(OpenRecord(t)) == PortMark + IntToDecimal(t.port) + ":OPEN" + OpenMark
  {
    BlankWords(t.host);
  }

  lemma {:induction false} BlankWords(s: string)
    requires forall k :: 0 <= k < |s| ==> IsSpace(s[k])
    ensures Words(s) == []
  {
    if s != [] {
      BlankWords(s[1..]);
    }
  }

  /**
   * A host with inner whitespace, `a b`, is shown as host `a` and port `b`: the
   * scanned port does not appear in its line.
   */
  lemma PortLineOfSpacedHost(t: Task, a: string, b: string)
    requires a != [] && NoSpace(a) && b != [] && NoSpace(b)
    requires t.host == a + " " + b
    ensures PortLine(OpenRecord(t)) == PortMark + a + ":" + b + OpenMark
  {
    assert t.host == a + [' '] + b;
    WordsAroundSpace(a, ' ', b);
    WordsOfWord(a);
    WordsOfWord(b);
  }
}
