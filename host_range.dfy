/**
 * Expansion of the `hosts` command-line argument into the list of hosts to scan
 * (`Scanner._convert_range_to_hosts`). `A.B.C.D` names one host; `A.B.C.s/e`
 * names the hosts `A.B.C.s` up to and including `A.B.C.e`: the number after the
 * slash is an inclusive last octet, not a CIDR prefix length.
 */
module HostRange {
  import opened Wrappers
  import opened Text

  /** Why the expansion raised. */
  datatype RangeError =
    | NotAnInteger(text: string)  // `int()` raised `ValueError` on this bound
    | MissingEnd                  // the last segment has no `/`: `host_range_list[1]` raised `IndexError`

  /** `host_arg.split('.')[-1]`: the text after the last dot. */
  function LastSegment(hostArg: string): (segment: string)
    ensures '.' !in segment
  {
    var parts := Split(hostArg, '.');
    parts[|parts| - 1]
  }

  /**
   * `_convert_range_to_hosts(host_arg)`. Without a slash the argument is the one
   * host. Otherwise the last segment is split at `/`, both bounds go through
   * `int()` (the first bound before the second), and every host is the argument
   * with the last segment deleted (`replace(host_range, "")`) followed by
   * `str(n)` for `n` in `range(first, last + 1)`.
   */
  function ConvertRangeToHosts(hostArg: string): (r: Result<seq<string>, RangeError>)
    ensures '/' !in hostArg ==> r == Ok([hostArg])
    ensures '/' in hostArg && r.Ok? ==> '/' in LastSegment(hostArg)
  {
    if '/' !in hostArg then Ok([hostArg])
    else
      var hostRange := LastSegment(hostArg);
      var bounds := Split(hostRange, '/');
      match ParseInt(bounds[0])
      case None => Err(NotAnInteger(bounds[0]))
      case Some(first) =>
        if |bounds| < 2 then Err(MissingEnd)
        else match ParseInt(bounds[1])
          case None => Err(NotAnInteger(bounds[1]))
          case Some(last) =>
            var prefix := RemoveAll(hostArg, hostRange);
            Ok(NumberedHosts(prefix, first, last))
  }

  /** `[prefix + str(n) for n in range(first, last + 1)]`. */
  function NumberedHosts(prefix: string, first: int, last: int): seq<string> {
    seq(if first <= last then last - first + 1 else 0, i => prefix + IntToDecimal(first + i))
  }

  /**
   * `range(first, last + 1)` is inclusive: both endpoints are numbered, and every
   * host is the prefix followed by a number that `int()` reads back as `first + i`.
   */
  lemma NumberedHostsInclusive(prefix: string, first: int, last: int)
    ensures var hosts := NumberedHosts(prefix, first, last);
      && (first > last ==> hosts == [])
      && (first <= last ==> hosts != [] && hosts[0] == prefix + IntToDecimal(first)
                                        && hosts[|hosts| - 1] == prefix + IntToDecimal(last))
      && (forall i :: 0 <= i < |hosts| ==> && |prefix| <= |hosts[i]|
                                           && hosts[i][..|prefix|] == prefix
                                           && ParseInt(hosts[i][|prefix|..]) == Some(first + i))
  {
    NumberedHostsShape(prefix, first, last);
    InclusiveNumbering(prefix, first, last, NumberedHosts(prefix, first, last));
  }

  lemma InclusiveNumbering(prefix: string, first: int, last: int, hosts: seq<string>)
    requires |hosts| == if first <= last then last - first + 1 else 0
    requires forall i :: 0 <= i < |hosts| ==> hosts[i] == prefix + IntToDecimal(first + i)
    ensures first > last ==> hosts == []
    ensures first <= last ==> hosts != [] && hosts[0] == prefix + IntToDecimal(first)
                                          && hosts[|hosts| - 1] == prefix + IntToDecimal(last)
    ensures forall i :: 0 <= i < |hosts| ==> && |prefix| <= |hosts[i]|
                                             && hosts[i][..|prefix|] == prefix
                                             && ParseInt(hosts[i][|prefix|..]) == Some(first + i)
  {
    if first <= last {
      assert hosts[|hosts| - 1] == prefix + IntToDecimal(first + (last - first));
    }
    forall i | 0 <= i < |hosts|
      ensures |prefix| <= |hosts[i]| && hosts[i][..|prefix|] == prefix
      ensures ParseInt(hosts[i][|prefix|..]) == Some(first + i)
    {
      NumberedHostReads(prefix, first + i, hosts[i]);
    }
  }

  /** The length and the entries of `NumberedHosts`. */
  lemma NumberedHostsShape(prefix: string, first: int, last: int)
    ensures var hosts := NumberedHosts(prefix, first, last);
      && |hosts| == (if first <= last then last - first + 1 else 0)
      && forall i :: 0 <= i < |hosts| ==> hosts[i] == prefix + IntToDecimal(first + i)
  {
  }

  lemma NumberedHostReads(prefix: string, n: int, host: string)
    requires host == prefix + IntToDecimal(n)
    ensures |prefix| <= |host| && host[..|prefix|] == prefix && ParseInt(host[|prefix|..]) == Some(n)
  {
    assert host[|prefix|..] == IntToDecimal(n);
    ParseIntOfDecimal(n);
  }

  /** The shape `P.s/e` of a range argument: `prefix` is everything up to and including the last dot. */
  predicate IsRangeShape(prefix: string, start: string, end: string) {
    && (prefix == [] || prefix[|prefix| - 1] == '.')
    && '/' !in prefix
    && '.' !in start && '/' !in start
    && '.' !in end && '/' !in end
  }

  /** For an argument of that shape, the pieces the expansion works with are the intended ones. */
  lemma RangeSegments(prefix: string, start: string, end: string)
    requires IsRangeShape(prefix, start, end)
    ensures var hostArg := prefix + start + "/" + end;
      && '/' in hostArg
      && LastSegment(hostArg) == start + "/" + end
      && Split(start + "/" + end, '/') == [start, end]
      && RemoveAll(hostArg, start + "/" + end) == prefix
  {
    var segment := start + "/" + end;
    assert prefix + start + "/" + end == prefix + segment;
    SegmentShape(start, end);
    LastSegmentAfterPrefix(prefix, segment);
    assert segment == start + ['/'] + end;
    SplitAround(start, '/', end);
    RemoveAllLeavesPrefix(prefix, segment);
  }

  /** The last segment `s/e` has its slash and no dot. */
  lemma SegmentShape(start: string, end: string)
    requires '.' !in start && '.' !in end
    ensures '/' in start + "/" + end && '.' !in start + "/" + end
  {
    var segment := start + "/" + end;
    assert segment[|start|] == '/';
    forall k | 0 <= k < |segment| ensures segment[k] != '.' {
      if k < |start| { assert segment[k] == start[k]; }
      else if k > |start| { assert segment[k] == end[k - |start| - 1]; }
    }
  }

  /** After a prefix that is empty or ends in a dot, a dot-free segment is the last one. */
  lemma LastSegmentAfterPrefix(prefix: string, segment: string)
    requires prefix == [] || prefix[|prefix| - 1] == '.'
    requires '.' !in segment
    ensures '/' in segment ==> '/' in prefix + segment
    ensures LastSegment(prefix + segment) == segment
  {
    var hostArg := prefix + segment;
    assert hostArg[|prefix|..] == segment;
    if prefix == [] {
      assert hostArg == segment;
    } else {
      var d := |prefix| - 1;
      assert hostArg[d] == '.' && hostArg[d + 1..] == segment;
      LastPartAfterDot(hostArg, d);
    }
  }

  /** When the dot at `d` is the last one in `s`, the last part of `s.split('.')` is what follows it. */
  lemma {:induction false} LastPartAfterDot(s: string, d: nat)
    requires d < |s| && s[d] == '.' && '.' !in s[d + 1..]
    ensures var parts := Split(s, '.'); parts[|parts| - 1] == s[d + 1..]
    decreases |s|
  {
    var i := IndexOf(s, '.').value;
    if i < d {
      var rest := s[i + 1..];
      assert rest[d - i - 1] == '.';
      assert rest[d - i..] == s[d + 1..];
      LastPartAfterDot(rest, d - i - 1);
    } else {
      assert i == d;
    }
  }

  /**
   * Deleting the last segment from `prefix + segment` leaves `prefix` when the
   * segment holds the only slash and no dot, and the prefix is empty or ends in a dot.
   */
  lemma {:induction false} RemoveAllLeavesPrefix(prefix: string, segment: string)
    requires '/' in segment && '.' !in segment && '/' !in prefix
    requires prefix == [] || prefix[|prefix| - 1] == '.'
    ensures RemoveAll(prefix + segment, segment) == prefix
    decreases |prefix|
  {
    var s := prefix + segment;
    if prefix == [] {
      assert s[..|segment|] == segment && s[|segment|..] == [];
    } else {
      assert !(|s| >= |segment| && s[..|segment|] == segment) by {
        var k :| 0 <= k < |segment| && segment[k] == '/';
        if |s| >= |segment| {
          if k < |prefix| {
            assert s[..|segment|][k] == prefix[k] != segment[k];
          } else {
            var d := |prefix| - 1;
            assert s[..|segment|][d] == '.' != segment[d];
          }
        }
      }
      assert s[1..] == prefix[1..] + segment;
      RemoveAllLeavesPrefix(prefix[1..], segment);
    }
  }

  /**
   * `P.s/e` with integer bounds expands to `e - s + 1` hosts (none when `s > e`),
   * host `i` being `P` followed by the decimal of `s + i`; `e` is the inclusive
   * last value, not a prefix length.
   */
  lemma ExpandRange(prefix: string, start: string, end: string, s: int, e: int)
    requires IsRangeShape(prefix, start, end)
    requires ParseInt(start) == Some(s) && ParseInt(end) == Some(e)
    ensures ConvertRangeToHosts(prefix + start + "/" + end) == Ok(NumberedHosts(prefix, s, e))
    ensures var r := ConvertRangeToHosts(prefix + start + "/" + end);
      && r.Ok?
      && |r.value| == (if s <= e then e - s + 1 else 0)
      && (forall i :: 0 <= i < |r.value| ==> r.value[i] == prefix + IntToDecimal(s + i))
      && (s > e ==> r.value == [])
  {
    var hostArg := prefix + start + "/" + end;
    RangeSegments(prefix, start, end);
    assert ConvertRangeToHosts(hostArg) == Ok(NumberedHosts(prefix, s, e));
    NumberedHostsShape(prefix, s, e);
  }

  /** A bound that `int()` rejects makes the expansion raise, the start bound being checked first. */
  lemma RangeBoundErrors(prefix: string, start: string, end: string)
    requires IsRangeShape(prefix, start, end)
    ensures var r := ConvertRangeToHosts(prefix + start + "/" + end);
      && (ParseInt(start).None? ==> r == Err(NotAnInteger(start)))
      && (ParseInt(start).Some? && ParseInt(end).None? ==> r == Err(NotAnInteger(end)))
      && (r.Err? <==> ParseInt(start).None? || ParseInt(end).None?)
  {
    RangeSegments(prefix, start, end);
  }

  /** The expanded hosts are pairwise distinct, and so each is scanned once per port. */
  lemma ExpandedHostsDistinct(prefix: string, start: string, end: string, s: int, e: int)
    requires IsRangeShape(prefix, start, end)
    requires ParseInt(start) == Some(s) && ParseInt(end) == Some(e)
    ensures var r := ConvertRangeToHosts(prefix + start + "/" + end);
      r.Ok? && forall i, j :: 0 <= i < j < |r.value| ==> r.value[i] != r.value[j]
  {
    ExpandRange(prefix, start, end, s, e);
    NumberedHostsDistinct(prefix, s, ConvertRangeToHosts(prefix + start + "/" + end).value);
  }

  lemma NumberedHostsDistinct(prefix: string, s: int, hosts: seq<string>)
    requires forall i :: 0 <= i < |hosts| ==> hosts[i] == prefix + IntToDecimal(s + i)
    ensures forall i, j :: 0 <= i < j < |hosts| ==> hosts[i] != hosts[j]
  {
    forall i, j | 0 <= i < j < |hosts| ensures hosts[i] != hosts[j] {
      assert hosts[i] == prefix + IntToDecimal(s + i) && hosts[j] == prefix + IntToDecimal(s + j);
      PrefixedDecimalsDiffer(prefix, s + i, s + j);
    }
  }

  lemma PrefixedDecimalsDiffer(prefix: string, m: int, n: int)
    requires m != n
    ensures prefix + IntToDecimal(m) != prefix + IntToDecimal(n)
  {
    var a, b := prefix + IntToDecimal(m), prefix + IntToDecimal(n);
    if a == b {
      assert a[|prefix|..] == IntToDecimal(m) && b[|prefix|..] == IntToDecimal(n);
      DecimalInjective(m, n);
    }
  }

  /** The documented example `/24` is read as "up to .24": 25 hosts, not a /24 network of 256. */
  lemma SlashIsInclusiveEnd(hostArg: string)
    requires hostArg == "192.168.1.0/24"
    ensures var r := ConvertRangeToHosts(hostArg);
      r.Ok? && |r.value| == 25 && r.value[0] == "192.168.1.0" && r.value[24] == "192.168.1.24"
  {
    var prefix := "192.168.1.";
    ExampleShape(prefix);
    SmallDecimals();
    ExampleHosts(prefix);
    ExpandRange(prefix, "0", "24", 0, 24);
    var hosts := NumberedHosts(prefix, 0, 24);
    assert hosts[0] == prefix + "0";
    assert hosts[24] == prefix + "24";
  }

  lemma ExampleShape(prefix: string)
    requires prefix == "192.168.1."
    ensures IsRangeShape(prefix, "0", "24")
  {
    assert prefix[|prefix| - 1] == '.';
    assert forall k :: 0 <= k < |prefix| ==> prefix[k] != '/';
  }

  lemma SmallDecimals()
    ensures IntToDecimal(0) == "0" && ParseInt("0") == Some(0)
    ensures IntToDecimal(24) == "24" && ParseInt("24") == Some(24)
  {
    assert IntToDecimal(0) == [DigitChar(0)] == "0";
    assert NatToDecimal(2) == [DigitChar(2)] == "2";
    assert IntToDecimal(24) == NatToDecimal(2) + [DigitChar(4)] == "24";
    ParseIntOfDecimal(0);
    ParseIntOfDecimal(24);
  }

  lemma ExampleHosts(prefix: string)
    requires prefix == "192.168.1."
    ensures prefix + "0" + "/" + "24" == "192.168.1.0/24"
    ensures prefix + "0" == "192.168.1.0" && prefix + "24" == "192.168.1.24"
  {
  }

  /**
   * A slash outside the last segment (as in `10/8.0.0.1`) leaves that segment
   * without an end bound: once its start bound parses, the expansion raises
   * `IndexError` rather than scanning anything.
   */
  lemma SlashOutsideLastSegment(hostArg: string)
    requires '/' in hostArg && '/' !in LastSegment(hostArg)
    requires ParseInt(LastSegment(hostArg)).Some?
    ensures ConvertRangeToHosts(hostArg) == Err(MissingEnd)
  {
  }
}
