/**
 * Extraction of the software name from a service's reply:
 * `re.search(r'Server:(.+\w+)', data)[1].lstrip()`, with a reply that does not
 * match giving no name (indexing `None` raises, and the caller swallows it).
 *
 * Under Python's backtracking, the pattern matches at the leftmost `Server:`
 * whose rest of line (`.` stops at `\n`) holds a word character after its first
 * character; `.+` then gives back characters until `\w+` can take the last word
 * character of that line, so the group runs from just after the tag up to and
 * including that character.
 */
module Banner {
  import opened Wrappers
  import opened Text

  /** `\w` on ASCII text: letters, digits and the underscore. */
  predicate IsWordChar(c: char) {
    'a' <= c <= 'z' || 'A' <= c <= 'Z' || IsDigit(c) || c == '_'
  }

  const Tag: string := "Server:"

  /** The literal part of the pattern occurs at `i`. */
  predicate TagAt(s: string, i: nat) {
    i + |Tag| <= |s| && s[i..i + |Tag|] == Tag
  }

  /** No newline in `s[lo..hi]`: a `.` run can cover it. */
  predicate NoNewline(s: string, lo: nat, hi: nat) {
    forall k :: lo <= k < hi && k < |s| ==> s[k] != '\n'
  }

  /** Position `k` of `s` holds a word character. */
  predicate WordAt(s: string, k: int) {
    0 <= k < |s| && IsWordChar(s[k])
  }

  /** The end of the line that contains position `p`: the next newline, or the end of `s`. */
  function LineEnd(s: string, p: nat): (e: nat)
    requires p <= |s|
    ensures p <= e <= |s| && NoNewline(s, p, e)
    ensures e < |s| ==> s[e] == '\n'
    decreases |s| - p
  {
    if p == |s| || s[p] == '\n' then p else LineEnd(s, p + 1)
  }

  /** The last position in `[lo, hi)` that holds a word character. */
  function LastWordChar(s: string, lo: nat, hi: nat): (r: Option<nat>)
    requires hi <= |s|
    ensures r.Some? ==> lo <= r.value < hi && IsWordChar(s[r.value])
    ensures r.Some? ==> forall k :: r.value < k < hi ==> !IsWordChar(s[k])
    ensures r.None? ==> forall k :: lo <= k < hi ==> !IsWordChar(s[k])
    decreases hi
  {
    if hi <= lo then None
    else if IsWordChar(s[hi - 1]) then Some(hi - 1)
    else LastWordChar(s, lo, hi - 1)
  }

  /**
   * Group 1 of a match that starts at `i`: from just after the tag up to the
   * last word character of the line, which must not be the first character
   * after the tag (`.+` needs one character of its own).
   */
  function GroupAt(s: string, i: nat): (g: Option<string>)
    ensures g.Some? ==> TagAt(s, i) && i + |Tag| + |g.value| <= |s|
    ensures g.Some? ==> g.value == s[i + |Tag|..i + |Tag| + |g.value|]
    ensures g.Some? ==> |g.value| >= 2 && IsWordChar(g.value[|g.value| - 1])
    ensures g.Some? ==> forall k :: 0 <= k < |g.value| ==> g.value[k] != '\n'
  {
    if !TagAt(s, i) then None
    else
      var p := i + |Tag|;
      match LastWordChar(s, p + 1, LineEnd(s, p))
      case None => None
      case Some(q) => Some(s[p..q + 1])
  }

  /** `re.search` from position `i` on: the leftmost position where the pattern matches. */
  function SearchFrom(s: string, i: nat): (r: Option<nat>)
    ensures r.Some? ==> i <= r.value && GroupAt(s, r.value).Some?
    ensures r.Some? ==> forall k :: i <= k < r.value ==> GroupAt(s, k).None?
    ensures r.None? ==> forall k :: i <= k ==> GroupAt(s, k).None?
    decreases |s| - i
  {
    if i + |Tag| > |s| then None
    else if GroupAt(s, i).Some? then Some(i)
    else SearchFrom(s, i + 1)
  }

  /**
   * The software name a reply announces: group 1 of the leftmost match with its
   * leading whitespace stripped, or `None` when nothing matches.
   */
  function ExtractSoftware(response: string): (r: Option<string>)
    ensures r.Some? ==> |r.value| >= 1 && !IsSpace(r.value[0]) && IsWordChar(r.value[|r.value| - 1])
    ensures r.Some? ==> forall k :: 0 <= k < |r.value| ==> r.value[k] != '\n'
  {
    match SearchFrom(response, 0)
    case None => None
    case Some(i) =>
      var g := GroupAt(response, i).value;
      StrippedGroup(g);
      Some(LStrip(g))
  }

  /** Stripping a group keeps its last character and so leaves a non-empty name. */
  lemma StrippedGroup(g: string)
    requires |g| >= 2 && IsWordChar(g[|g| - 1])
    requires forall k :: 0 <= k < |g| ==> g[k] != '\n'
    ensures var name := LStrip(g);
      && |name| >= 1 && !IsSpace(name[0]) && IsWordChar(name[|name| - 1])
      && forall k :: 0 <= k < |name| ==> name[k] != '\n'
  {
    var name := LStrip(g);
    assert !IsSpace(g[|g| - 1]);
    assert name == g[|g| - |name|..];
  }

  // A declarative statement of what the pattern matches, for comparison with the search above.

  /** The pattern can match at `i`: the tag, then a word character later on the same line that is not the first character after the tag. */
  ghost predicate CanMatchAt(s: string, i: nat) {
    && TagAt(s, i)
    && exists q :: i + |Tag| < q && WordAt(s, q) && NoNewline(s, i + |Tag|, q)
  }

  /** No position before `i` can start a match. */
  ghost predicate NoEarlierMatch(s: string, i: nat) {
    forall i' :: 0 <= i' < i ==> !CanMatchAt(s, i')
  }

  /**
   * A group starting at `p` and ending before `j` is as long as it can be: it
   * ends in a word character and no word character follows on the same line.
   */
  ghost predicate GreedyEnd(s: string, p: nat, j: nat) {
    && p + 2 <= j <= |s|
    && WordAt(s, j - 1)
    && NoNewline(s, p, j)
    && (forall k :: j <= k && NoNewline(s, j, k + 1) ==> !WordAt(s, k))
  }

  /**
   * The match `re.search` reports spans `s[i..j]` with group 1 `s[i + |Tag|..j]`:
   * `i` is the leftmost place the pattern can match, and `j - 1` is the last word
   * character on that line.
   */
  ghost predicate IsCapture(s: string, i: nat, j: nat) {
    CanMatchAt(s, i) && NoEarlierMatch(s, i) && GreedyEnd(s, i + |Tag|, j)
  }

  /** `GroupAt` finds a group exactly where the pattern can match, and that group is the capture. */
  lemma GroupAtMeaning(s: string, i: nat)
    ensures GroupAt(s, i).Some? <==> CanMatchAt(s, i)
    ensures GroupAt(s, i).Some? ==>
      var p := i + |Tag|;
      var j := p + |GroupAt(s, i).value|;
      j <= |s| && GroupAt(s, i).value == s[p..j] && GreedyEnd(s, p, j)
  {
    if TagAt(s, i) {
      var p := i + |Tag|;
      var e := LineEnd(s, p);
      if CanMatchAt(s, i) {
        var q :| p < q && WordAt(s, q) && NoNewline(s, p, q);
        assert forall k :: p <= k <= q ==> s[k] != '\n';
        assert q < e;
        assert LastWordChar(s, p + 1, e).Some?;
      }
      match LastWordChar(s, p + 1, e)
      case None =>
      case Some(q) =>
        var j := q + 1;
        assert NoNewline(s, p, j);
        forall k | j <= k && NoNewline(s, j, k + 1) ensures !WordAt(s, k) {
          assert k < |s| ==> k < e;
        }
        assert CanMatchAt(s, i) by { assert WordAt(s, q) && NoNewline(s, p, q); }
    }
  }

  /** A capture is unique: one start and one end. */
  lemma CaptureUnique(s: string, i1: nat, j1: nat, i2: nat, j2: nat)
    requires IsCapture(s, i1, j1) && IsCapture(s, i2, j2)
    ensures i1 == i2 && j1 == j2
  {
    assert i1 == i2;
    var p := i1 + |Tag|;
    assert forall k :: p <= k < j1 ==> s[k] != '\n';
    assert forall k :: p <= k < j2 ==> s[k] != '\n';
    assert j1 < j2 ==> NoNewline(s, j1, j2) && !WordAt(s, j2 - 1);
    assert j2 < j1 ==> NoNewline(s, j2, j1) && !WordAt(s, j1 - 1);
  }

  /**
   * What the extraction returns, stated without the search: nothing exactly when
   * the pattern can match nowhere, and otherwise the stripped group of the one capture.
   */
  lemma ExtractSoftwareMeaning(s: string)
    ensures ExtractSoftware(s).None? <==> forall i: nat :: !CanMatchAt(s, i)
    ensures forall x :: ExtractSoftware(s) == Some(x) <==>
      exists i: nat, j: nat :: IsCapture(s, i, j) && x == LStrip(s[i + |Tag|..j])
  {
    match SearchFrom(s, 0)
    case None =>
      forall i: nat ensures !CanMatchAt(s, i) { GroupAtMeaning(s, i); }
    case Some(i) =>
      var j := SearchedCapture(s, i);
      var name := LStrip(s[i + |Tag|..j]);
      forall x ensures ExtractSoftware(s) == Some(x) <==>
        exists i1: nat, j1: nat :: IsCapture(s, i1, j1) && x == LStrip(s[i1 + |Tag|..j1])
      {
        if exists i1: nat, j1: nat :: IsCapture(s, i1, j1) && x == LStrip(s[i1 + |Tag|..j1]) {
          var i1: nat, j1: nat :| IsCapture(s, i1, j1) && x == LStrip(s[i1 + |Tag|..j1]);
          CaptureUnique(s, i, j, i1, j1);
        }
        if x == name {
          assert IsCapture(s, i, j);
        }
      }
  }

  /** The position the search reports starts the capture, and the name is its stripped group. */
  lemma SearchedCapture(s: string, i: nat) returns (j: nat)
    requires SearchFrom(s, 0) == Some(i)
    ensures IsCapture(s, i, j)
    ensures ExtractSoftware(s) == Some(LStrip(s[i + |Tag|..j]))
  {
    var p := i + |Tag|;
    assert GroupAt(s, i).Some?;
    GroupAtMeaning(s, i);
    var g := GroupAt(s, i).value;
    j := p + |g|;
    assert CanMatchAt(s, i);
    assert GreedyEnd(s, p, j) && g == s[p..j];
    SearchIsLeftmost(s, i);
    ExtractAt(s, i);
  }

  lemma SearchIsLeftmost(s: string, i: nat)
    requires SearchFrom(s, 0) == Some(i)
    ensures NoEarlierMatch(s, i)
  {
    forall i' | 0 <= i' < i ensures !CanMatchAt(s, i') { GroupAtMeaning(s, i'); }
  }

  lemma ExtractAt(s: string, i: nat)
    requires SearchFrom(s, 0) == Some(i)
    ensures ExtractSoftware(s) == Some(LStrip(GroupAt(s, i).value))
  {
  }

  /**
   * A reply that opens with the header `Server:`, optional blanks, a name that
   * ends in a word character, and then nothing wordy before the end of that line
   * (such as `\r\n`) yields that name.
   */
  lemma ServerHeaderFirst(blanks: string, name: string, tail: string)
    requires forall k :: 0 <= k < |blanks| ==> IsSpace(blanks[k]) && blanks[k] != '\n'
    requires |name| >= 1 && !IsSpace(name[0]) && IsWordChar(name[|name| - 1]) && NoNewline(name, 0, |name|)
    requires |blanks| + |name| >= 2
    requires forall k: nat :: NoNewline(tail, 0, k + 1) ==> !WordAt(tail, k)
    ensures ExtractSoftware(Tag + blanks + name + tail) == Some(name)
  {
    var s := Tag + blanks + name + tail;
    var p := |Tag|;
    var q0 := p + |blanks| + |name| - 1;
    assert s[..p] == Tag;
    assert s[q0] == name[|name| - 1];
    assert forall k :: p <= k <= q0 ==> s[k] != '\n' by {
      forall k | p <= k <= q0 ensures s[k] != '\n' {
        if k < p + |blanks| { assert s[k] == blanks[k - p]; }
        else { assert s[k] == name[k - p - |blanks|]; }
      }
    }
    var e := LineEnd(s, p);
    assert q0 < e;
    var q := LastWordChar(s, p + 1, e).value;
    assert q >= q0;
    assert q <= q0 by {
      forall k | q0 < k < e ensures !IsWordChar(s[k]) {
        assert s[k] == tail[k - q0 - 1];
        assert NoNewline(tail, 0, k - q0) by {
          forall m | 0 <= m < k - q0 && m < |tail| ensures tail[m] != '\n' {
            assert tail[m] == s[m + q0 + 1];
          }
        }
        assert !WordAt(tail, k - q0 - 1);
      }
    }
    assert s[p..q0 + 1] == blanks + name;
    assert GroupAt(s, 0) == Some(blanks + name);
    LStripLeading(blanks, name);
  }

  /** The reply `Server: nginx/1.2\r\n` announces `nginx/1.2`. */
  lemma NginxExample(reply: string)
    requires reply == "Server: nginx/1.2\r\n"
    ensures ExtractSoftware(reply) == Some("nginx/1.2")
  {
    var tail := "\r\n";
    forall k: nat | NoNewline(tail, 0, k + 1) ensures !WordAt(tail, k) {
    }
    assert reply == Tag + " " + "nginx/1.2" + tail;
    ServerHeaderFirst(" ", "nginx/1.2", tail);
  }

  /** `Server:A` does not match: `.+` and `\w+` need a character each. */
  lemma OneCharacterRest(reply: string)
    requires reply == "Server:A"
    ensures ExtractSoftware(reply) == None
  {
    assert reply[0..7] == Tag;
    assert LineEnd(reply, 7) == 8;
    assert GroupAt(reply, 0) == None;
    assert SearchFrom(reply, 1) == None;
  }
}
