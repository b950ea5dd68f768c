/**
 * The message handlers of the libp2p variant, src/Node.py.
 *
 * Messages are text of the form `Type:data`. A `Test` message carries
 * `sender,fragment`, a `Report` message `sender,weight` and a `Merge` message
 * `sender,fragment`. Splitting follows Python's `str.split` with a one-character
 * separator followed by unpacking into exactly two names, so a message with
 * more or fewer separators is refused (the handler raises, before any field is
 * assigned). `Report` weights are read with Python's `int`.
 *
 * The pure part (`Split`, `ParseInt`, `Process`) gives the meaning; the `Node`
 * class updates its fields as the source does and is proved against it.
 */
module P2P {
  import opened Wrappers

  /** Python's `min` on two integers. */
  function Min(a: int, b: int): int { if a <= b then a else b }

  // ---------------------------------------------------------------------------
  // Splitting and joining text
  // ---------------------------------------------------------------------------

  /** Python's `s.split(c)`: the pieces between occurrences of `c`. */
  function Split(s: string, c: char): (r: seq<string>)
    ensures |r| >= 1
    decreases |s|
  {
    if s == [] then [""]
    else
      var rest := Split(s[1..], c);
      if s[0] == c then [""] + rest
      else [[s[0]] + rest[0]] + rest[1..]
  }

  /** There is one piece more than there are separators. */
  lemma {:induction false} SplitCount(s: string, c: char)
    ensures |Split(s, c)| == multiset(s)[c] + 1
    decreases |s|
  {
    if s != [] {
      SplitCount(s[1..], c);
      assert s == [s[0]] + s[1..];
    }
  }

  /** Python's `c.join(parts)`. */
  function Join(parts: seq<string>, c: char): string
    requires |parts| >= 1
  {
    if |parts| == 1 then parts[0] else parts[0] + [c] + Join(parts[1..], c)
  }

  /** Joining the pieces of a split gives the text back. */
  lemma {:induction false} JoinSplit(s: string, c: char)
    ensures Join(Split(s, c), c) == s
    decreases |s|
  {
    if s != [] {
      var rest := Split(s[1..], c);
      var parts := Split(s, c);
      JoinSplit(s[1..], c);
      assert s == [s[0]] + s[1..];
      if s[0] == c {
        assert parts == [""] + rest;
        assert parts[1..] == rest;
        assert Join(parts, c) == "" + [c] + Join(rest, c);
      } else if |rest| == 1 {
        assert parts == [[s[0]] + rest[0]];
      } else {
        assert parts[1..] == rest[1..];
        assert Join(rest, c) == rest[0] + [c] + Join(rest[1..], c);
        assert Join(parts, c) == [s[0]] + rest[0] + [c] + Join(rest[1..], c);
      }
    }
  }

  /** Text without `c` splits into itself, and text `p` + `c` + `t` into `p` and the pieces of `t`. */
  lemma {:induction false} SplitAfterPiece(p: string, c: char, t: string, withSep: bool)
    requires c !in p
    ensures !withSep ==> Split(p, c) == [p]
    ensures withSep ==> Split(p + [c] + t, c) == [p] + Split(t, c)
    decreases |p|
  {
    if p != [] {
      SplitAfterPiece(p[1..], c, t, withSep);
      assert [p[0]] + p[1..] == p;
      if withSep {
        assert (p + [c] + t)[0] == p[0];
        assert (p + [c] + t)[1..] == p[1..] + [c] + t;
      }
    } else if withSep {
      assert p + [c] + t == [c] + t;
      assert ([c] + t)[1..] == t;
    }
  }

  /** Splitting the join of pieces free of `c` gives the pieces back. */
  lemma {:induction false} SplitJoin(parts: seq<string>, c: char)
    requires |parts| >= 1
    requires forall k :: 0 <= k < |parts| ==> c !in parts[k]
    ensures Split(Join(parts, c), c) == parts
    decreases |parts|
  {
    if |parts| == 1 {
      SplitAfterPiece(parts[0], c, "", false);
    } else {
      SplitJoin(parts[1..], c);
      SplitAfterPiece(parts[0], c, Join(parts[1..], c), true);
      assert [parts[0]] + parts[1..] == parts;
    }
  }

  /** No piece of a split holds the separator. */
  lemma {:induction false} SplitPiecesFree(s: string, c: char)
    ensures forall k :: 0 <= k < |Split(s, c)| ==> c !in Split(s, c)[k]
    decreases |s|
  {
    if s != [] {
      SplitPiecesFree(s[1..], c);
      var rest := Split(s[1..], c);
      if s[0] != c {
        assert c !in [s[0]] + rest[0];
        assert forall k :: 1 <= k < |rest| ==> rest[1..][k - 1] == rest[k];
      }
    }
  }

  /** `a, b = s.split(c)`: the two pieces, or nothing when `c` does not occur exactly once. */
  function SplitOnce(s: string, c: char): (r: Option<(string, string)>)
    ensures r.Some? <==> multiset(s)[c] == 1
  {
    SplitCount(s, c);
    var parts := Split(s, c);
    if |parts| == 2 then Some((parts[0], parts[1])) else None
  }

  /** Text with exactly one `c` between two pieces free of it splits into those pieces. */
  lemma SplitOnceOfPair(a: string, b: string, c: char)
    requires c !in a && c !in b
    ensures SplitOnce(a + [c] + b, c) == Some((a, b))
  {
    SplitJoin([a, b], c);
    assert Join([a, b], c) == a + [c] + b;
  }

  // ---------------------------------------------------------------------------
  // Integers as text
  // ---------------------------------------------------------------------------

  /** The ASCII characters Python's `int` skips around a numeral. */
  predicate IsSpace(ch: char)
  {
    ch == ' ' || ch == '\t' || ch == '\n' || ch == '\r' || ch == '\U{0B}' || ch == '\U{0C}'
  }

  /** `s` without its leading white space. */
  function TrimStart(s: string): (r: string)
    ensures |r| <= |s| && r == s[|s| - |r|..] && (r != [] ==> !IsSpace(r[0]))
  {
    if s != [] && IsSpace(s[0]) then TrimStart(s[1..]) else s
  }

  /** `s` without its trailing white space. */
  function TrimEnd(s: string): (r: string)
    ensures |r| <= |s| && r == s[..|r|] && (r != [] ==> !IsSpace(r[|r| - 1]))
  {
    if s != [] && IsSpace(s[|s| - 1]) then TrimEnd(s[..|s| - 1]) else s
  }

  /** A non-empty run of decimal digits. */
  predicate IsNumeral(s: string)
  {
    s != [] && forall k :: 0 <= k < |s| ==> '0' <= s[k] <= '9'
  }

  /** The value of a run of decimal digits. */
  function DigitsValue(s: string): nat
    requires forall k :: 0 <= k < |s| ==> '0' <= s[k] <= '9'
  {
    if s == [] then 0 else DigitsValue(s[..|s| - 1]) * 10 + (s[|s| - 1] - '0') as int
  }

  /**
   * The most digits Python's `int` reads from text (`sys.int_max_str_digits`,
   * 4300 by default); a longer numeral raises.
   */
  const MaxStrDigits := 4300

  /** A numeral Python's `int` accepts: digits only, and not too many of them. */
  predicate Readable(d: string)
  {
    IsNumeral(d) && |d| <= MaxStrDigits
  }

  /**
   * Python's `int(text)` on ASCII text: surrounding white space, an optional
   * sign and from one to `MaxStrDigits` digits; anything else raises (`None`).
   * A negative result comes from text holding a minus sign.
   */
  function ParseInt(text: string): (r: Option<int>)
    ensures r.Some? && r.value < 0 ==> '-' in text
  {
    var s := TrimEnd(TrimStart(text));
    assert s != [] ==> s[0] == text[|text| - |TrimStart(text)|];
    ParseSigned(s)
  }

  /** `int` on text already stripped of white space. */
  function ParseSigned(s: string): (r: Option<int>)
    ensures r.Some? && r.value < 0 ==> s != [] && s[0] == '-'
  {
    if s != [] && (s[0] == '-' || s[0] == '+') then
      if Readable(s[1..]) then
        var v: int := DigitsValue(s[1..]);
        Some(if s[0] == '-' then -v else v)
      else None
    else if Readable(s) then Some(DigitsValue(s))
    else None
  }

  /** Python's `str(n)` for a natural number. */
  function FormatNat(n: nat): (r: string)
    ensures IsNumeral(r)
  {
    if n < 10 then ['0' + n as char] else FormatNat(n / 10) + ['0' + (n % 10) as char]
  }

  function Abs(i: int): nat { if i < 0 then -i else i }

  /** Python's `str(i)`. */
  function FormatInt(i: int): string
  {
    if i < 0 then "-" + FormatNat(-i) else FormatNat(i)
  }

  lemma {:induction false} DigitsOfFormat(n: nat)
    ensures DigitsValue(FormatNat(n)) == n
  {
    if n >= 10 {
      DigitsOfFormat(n / 10);
      var r := FormatNat(n);
      assert r[..|r| - 1] == FormatNat(n / 10);
    }
  }

  /** Text that neither starts nor ends with white space is left as it is by trimming. */
  lemma TrimLeavesUnpadded(s: string)
    requires s != [] && !IsSpace(s[0]) && !IsSpace(s[|s| - 1])
    ensures TrimEnd(TrimStart(s)) == s
  {
  }

  /**
   * Reading back a formatted integer gives the integer, unless it has more
   * than `MaxStrDigits` digits, which `int` refuses.
   */
  lemma ParseFormat(i: int)
    ensures ParseInt(FormatInt(i)) == if |FormatNat(Abs(i))| <= MaxStrDigits then Some(i) else None
  {
    DigitsOfFormat(Abs(i));
    ParseNumeral(FormatNat(Abs(i)), i < 0);
  }

  /**
   * A numeral, with or without a minus sign, reads as its value when it has at
   * most `MaxStrDigits` digits, and is refused otherwise.
   */
  lemma ParseNumeral(d: string, negative: bool)
    requires IsNumeral(d)
    ensures ParseInt(if negative then ['-'] + d else d) ==
      if |d| <= MaxStrDigits then Some(if negative then -(DigitsValue(d) as int) else DigitsValue(d)) else None
  {
    var s := if negative then ['-'] + d else d;
    assert s[|s| - 1] == d[|d| - 1];
    TrimLeavesUnpadded(s);
    SignedNumeral(d, negative);
  }

  /** `ParseNumeral` once the white space is gone. */
  lemma SignedNumeral(d: string, negative: bool)
    requires IsNumeral(d)
    ensures ParseSigned(if negative then ['-'] + d else d) ==
      if |d| <= MaxStrDigits then Some(if negative then -(DigitsValue(d) as int) else DigitsValue(d)) else None
  {
    if negative {
      var s := ['-'] + d;
      assert s[0] == '-' && s[1..] == d;
    } else {
      assert '0' <= d[0] <= '9';
    }
  }

  // ---------------------------------------------------------------------------
  // The handlers as transitions
  // ---------------------------------------------------------------------------

  /**
   * A node or fragment id. The source takes whatever its caller passes: text
   * read from messages, or the Python integers the libp2p test passes to the
   * constructor. Python's `==` between the two kinds is always false.
   */
  datatype Id = Text(text: string) | Number(value: int)

  /** The id as an f-string shows it. */
  function Show(id: Id): string
  {
    match id
    case Text(t) => t
    case Number(n) => FormatInt(n)
  }

  /** The fields the handlers write. */
  datatype State = State(fragmentId: Id, minOutgoingEdge: Option<int>)

  /** `handle_test_message`: reads `sender,fragment`; changes nothing. */
  function TestData(s: State, data: string): (r: Option<State>)
    ensures r.Some? <==> multiset(data)[','] == 1
    ensures r.Some? ==> r.value == s
  {
    if SplitOnce(data, ',').Some? then Some(s) else None
  }

  /**
   * `handle_report_message`: keeps the smaller of the known and the reported
   * weight. An accepted report leaves the fragment id, knows a minimum
   * afterwards, and never raises the one it knew.
   */
  function ReportData(s: State, data: string): (r: Option<State>)
    ensures r.Some? ==> multiset(data)[','] == 1
    ensures r.Some? ==> r.value.fragmentId == s.fragmentId && r.value.minOutgoingEdge.Some?
    ensures r.Some? && s.minOutgoingEdge.Some? ==> r.value.minOutgoingEdge.value <= s.minOutgoingEdge.value
  {
    match SplitOnce(data, ',')
    case None => None
    case Some(fields) =>
      match ParseInt(fields.1)
      case None => None
      case Some(w) =>
        if s.minOutgoingEdge.None? || w < s.minOutgoingEdge.value then Some(s.(minOutgoingEdge := Some(w)))
        else Some(s)
  }

  /**
   * `handle_merge_message`: takes the given fragment id, whatever it is. The
   * new id is text without a comma, and the minimum is kept.
   */
  function MergeData(s: State, data: string): (r: Option<State>)
    ensures r.Some? <==> multiset(data)[','] == 1
    ensures r.Some? ==> r.value.minOutgoingEdge == s.minOutgoingEdge
    ensures r.Some? ==> r.value.fragmentId.Text? && ',' !in r.value.fragmentId.text
  {
    SplitPiecesFree(data, ',');
    match SplitOnce(data, ',')
    case None => None
    case Some(fields) => Some(s.(fragmentId := Text(fields.1)))
  }

  /**
   * `process_message`: split off the type and dispatch; `None` when a step
   * raises. A message is accepted only with exactly one `:`; only a `Merge`
   * changes the fragment id and only a `Report` the minimum.
   */
  function Process(s: State, message: string): (r: Option<State>)
    ensures r.Some? ==> multiset(message)[':'] == 1
    ensures r.Some? && r.value.fragmentId != s.fragmentId ==> SplitOnce(message, ':').value.0 == "Merge"
    ensures r.Some? && r.value.minOutgoingEdge != s.minOutgoingEdge ==> SplitOnce(message, ':').value.0 == "Report"
  {
    match SplitOnce(message, ':')
    case None => None
    case Some(parts) =>
      if parts.0 == "Test" then TestData(s, parts.1)
      else if parts.0 == "Report" then ReportData(s, parts.1)
      else if parts.0 == "Merge" then MergeData(s, parts.1)
      else Some(s)
  }

  /** The text of a message `kind:sender,field`, as the nodes build it: a colon after the type, a comma after the sender. */
  function Format(kind: string, sender: string, field: string): (r: string)
    ensures |r| == |kind| + |sender| + |field| + 2
    ensures r[|kind|] == ':' && r[|kind| + 1 + |sender|] == ','
  {
    kind + ":" + sender + "," + field
  }

  /** The two splits of `kind:sender,field` recover its three fields when none holds a separator. */
  lemma MessageFields(kind: string, sender: string, field: string)
    requires ':' !in kind && ':' !in sender && ',' !in sender && ':' !in field && ',' !in field
    ensures SplitOnce(Format(kind, sender, field), ':') == Some((kind, sender + "," + field))
    ensures SplitOnce(sender + "," + field, ',') == Some((sender, field))
  {
    var data := sender + "," + field;
    SplitOnceOfPair(sender, field, ',');
    assert sender + [','] + field == data;
    assert ':' !in data;
    SplitOnceOfPair(kind, data, ':');
    assert kind + [':'] + data == Format(kind, sender, field);
  }

  /** Messages of any other type than `Test`, `Report` and `Merge` change nothing. */
  lemma OtherTypesIgnored(s: State, t: string, data: string)
    requires ':' !in t && ':' !in data
    requires t != "Test" && t != "Report" && t != "Merge"
    ensures Process(s, t + ":" + data) == Some(s)
  {
    SplitOnceOfPair(t, data, ':');
  }

  /** A `Test` message never changes the state. */
  lemma TestReadOnly(s: State, data: string)
    ensures Process(s, "Test:" + data) == if multiset(data)[','] == 1 && ':' !in data then Some(s) else None
  {
    var message := "Test:" + data;
    if ':' !in data {
      SplitOnceOfPair("Test", data, ':');
      assert "Test" + [':'] + data == message;
    } else {
      assert message == "Test" + [':'] + data;
      assert multiset(message)[':'] == multiset(data)[':'] + 1;
    }
  }

  /**
   * A `Report` keeps the running minimum of the reported weights: the new
   * minimum is the reported weight if there was none, the smaller of the two
   * otherwise, so it never increases.
   */
  lemma ReportKeepsMinimum(s: State, sender: string, weight: int)
    requires ':' !in sender && ',' !in sender
    requires |FormatNat(Abs(weight))| <= MaxStrDigits
    ensures var r := Process(s, Format("Report", sender, FormatInt(weight)));
      r.Some? && r.value.fragmentId == s.fragmentId &&
      r.value.minOutgoingEdge ==
        Some(if s.minOutgoingEdge.None? then weight else Min(s.minOutgoingEdge.value, weight)) &&
      (s.minOutgoingEdge.Some? ==> r.value.minOutgoingEdge.value <= s.minOutgoingEdge.value)
  {
    var w := FormatInt(weight);
    FormatHasNoSeparator(weight);
    ParseFormat(weight);
    ReportMessage(s, sender, w);
    ReportLowers(s, sender + "," + w, weight);
  }

  /** A well-formed `Report` message is handled by `ReportData` on its data. */
  lemma ReportMessage(s: State, sender: string, field: string)
    requires ':' !in sender && ',' !in sender && ':' !in field && ',' !in field
    ensures Process(s, Format("Report", sender, field)) == ReportData(s, sender + "," + field)
    ensures SplitOnce(sender + "," + field, ',') == Some((sender, field))
  {
    MessageFields("Report", sender, field);
  }

  /**
   * Report data whose weight reads as `weight` lowers the known minimum to
   * `weight`, or sets it when there was none, and changes nothing else.
   */
  lemma ReportLowers(s: State, data: string, weight: int)
    requires SplitOnce(data, ',').Some? && ParseInt(SplitOnce(data, ',').value.1) == Some(weight)
    ensures ReportData(s, data) ==
      Some(s.(minOutgoingEdge :=
        Some(if s.minOutgoingEdge.None? then weight else Min(s.minOutgoingEdge.value, weight))))
  {
  }

  /** A `Report` whose weight has more digits than `int` reads is refused. */
  lemma ReportRefusesLongWeight(s: State, sender: string, digits: string)
    requires ':' !in sender && ',' !in sender
    requires IsNumeral(digits) && |digits| > MaxStrDigits
    ensures Process(s, Format("Report", sender, digits)).None?
  {
    assert ':' !in digits && ',' !in digits by {
      forall k | 0 <= k < |digits| ensures digits[k] != ':' && digits[k] != ',' {
        assert '0' <= digits[k] <= '9';
      }
    }
    MessageFields("Report", sender, digits);
    ParseNumeral(digits, false);
  }

  lemma FormatHasNoSeparator(i: int)
    ensures ':' !in FormatInt(i) && ',' !in FormatInt(i)
  {
    var n: nat := if i < 0 then -i else i;
    assert IsNumeral(FormatNat(n));
  }

  /** Applying the same `Merge` message twice is the same as applying it once. */
  lemma MergeIdempotent(s: State, message: string)
    requires Process(s, message).Some?
    requires SplitOnce(message, ':').value.0 == "Merge"
    ensures Process(Process(s, message).value, message) == Process(s, message)
  {
  }

  /** A `Merge` message sets the fragment id to the one it carries, and touches nothing else. */
  lemma MergeOverwrites(s: State, sender: string, fragment: string)
    requires ':' !in sender && ',' !in sender && ':' !in fragment && ',' !in fragment
    ensures Process(s, Format("Merge", sender, fragment)) == Some(s.(fragmentId := Text(fragment)))
  {
    MessageFields("Merge", sender, fragment);
  }

  // ---------------------------------------------------------------------------
  // Nodes
  // ---------------------------------------------------------------------------

  /** `message` addressed to each peer of `peers`, in order. */
  function Announce(peers: seq<string>, message: string): (r: seq<(string, string)>)
    ensures |r| == |peers|
    ensures forall k :: 0 <= k < |r| ==> r[k] == (peers[k], message)
  {
    if peers == [] then []
    else Announce(peers[..|peers| - 1], message) + [(peers[|peers| - 1], message)]
  }

  /**
   * A node's announcement, when its ids hold no separator, is accepted by
   * every receiver and changes nothing there.
   */
  lemma AnnouncementAccepted(nodeId: Id, fragmentId: Id, t: State)
    requires ':' !in Show(nodeId) && ',' !in Show(nodeId) && ':' !in Show(fragmentId) && ',' !in Show(fragmentId)
    ensures Process(t, Format("Test", Show(nodeId), Show(fragmentId))) == Some(t)
  {
    MessageFields("Test", Show(nodeId), Show(fragmentId));
  }

  /** A node of src/Node.py, without its libp2p host and peer table. */
  class Node {
    const nodeId: Id
    var fragmentId: Id
    var leader: Id
    var minOutgoingEdge: Option<int>
    var neighbors: seq<string>
    /** Messages sent, with the peer each went to. */
    var outbox: seq<(string, string)>

    /** A new node is its own fragment and leader, with no known outgoing edge and no neighbours. */
    constructor (nodeId: Id)
      ensures this.nodeId == nodeId && fragmentId == nodeId && leader == nodeId
      ensures minOutgoingEdge == None && neighbors == [] && outbox == []
    {
      this.nodeId := nodeId;
      fragmentId := nodeId;
      leader := nodeId;
      minOutgoingEdge := None;
      neighbors := [];
      outbox := [];
    }

    /** The fields the handlers write. */
    function Fields(): State
      reads this`fragmentId, this`minOutgoingEdge
    {
      State(fragmentId, minOutgoingEdge)
    }

    /**
     * `handle_test_message`: refuses data that is not `sender,fragment`;
     * otherwise reports whether the sender is in this node's fragment, which
     * a node whose fragment id is a number never finds.
     */
    method HandleTestMessage(data: string) returns (ok: bool, same: bool)
      ensures ok <==> multiset(data)[','] == 1
      ensures ok ==> (same <==> fragmentId == Text(SplitOnce(data, ',').value.1))
      ensures fragmentId.Number? ==> !same
    {
      var fields := SplitOnce(data, ',');
      if fields.None? {
        return false, false;
      }
      ok, same := true, fragmentId == Text(fields.value.1);
    }

    /** `handle_report_message`. */
    method HandleReportMessage(data: string) returns (ok: bool)
      modifies this`minOutgoingEdge
      ensures var r := ReportData(old(Fields()), data);
        ok == r.Some? && Fields() == if ok then r.value else old(Fields())
    {
      var fields := SplitOnce(data, ',');
      if fields.None? {
        return false;
      }
      var w := ParseInt(fields.value.1);
      if w.None? {
        return false;
      }
      if minOutgoingEdge.None? || w.value < minOutgoingEdge.value {
        minOutgoingEdge := w;
      }
      ok := true;
    }

    /** `handle_merge_message`. */
    method HandleMergeMessage(data: string) returns (ok: bool)
      modifies this`fragmentId
      ensures var r := MergeData(old(Fields()), data);
        ok == r.Some? && Fields() == if ok then r.value else old(Fields())
    {
      var fields := SplitOnce(data, ',');
      if fields.None? {
        return false;
      }
      fragmentId := Text(fields.value.1);
      ok := true;
    }

    /** `process_message`: performs the transition `Process` on this node. */
    method ProcessMessage(message: string) returns (ok: bool)
      modifies this`fragmentId, this`minOutgoingEdge
      ensures var r := Process(old(Fields()), message);
        ok == r.Some? && Fields() == if ok then r.value else old(Fields())
    {
      var parts := SplitOnce(message, ':');
      if parts.None? {
        return false;
      }
      var (kind, data) := parts.value;
      if kind == "Test" {
        var same;
        ok, same := HandleTestMessage(data);
      } else if kind == "Report" {
        ok := HandleReportMessage(data);
      } else if kind == "Merge" {
        ok := HandleMergeMessage(data);
      } else {
        ok := true;
      }
    }

    /** `run_ghs_protocol`: one `Test` announcement per neighbour, in list order. */
    method RunGhsProtocol()
      modifies this`outbox
      ensures outbox == old(outbox) + Announce(neighbors, Format("Test", Show(nodeId), Show(fragmentId)))
    {
      var message := Format("Test", Show(nodeId), Show(fragmentId));
      for i := 0 to |neighbors|
        invariant outbox == old(outbox) + Announce(neighbors[..i], message)
      {
        assert neighbors[..i + 1][..i] == neighbors[..i];
        outbox := outbox + [(neighbors[i], message)];
      }
      assert neighbors[..|neighbors|] == neighbors;
    }
  }
}
