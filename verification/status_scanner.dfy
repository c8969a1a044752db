/** The line scanner of `DisplayParser.parse` (display-controller.py:142-191),
    written as a fold over an explicit scanner state.

    The grammar engine that turns one "connected" line into a tree is a
    parameter: `parser(line)` is the tree Lark returns, or None when Lark
    raises. Either failure, or a tree `parse_display` cannot read, aborts
    the whole scan. */
module StatusScanner {
  import opened Wrappers
  import opened Strings
  import opened Displays
  import opened StatusTree

  datatype ParseError =
    | UnexpectedInput(line: string)   // the grammar rejects a "connected" line
    | MalformedTree(line: string)     // parse_display cannot read the tree

  /** The loop variables of `parse`: the records so far, the EDID pieces
      collected, whether an EDID block is being collected and at which
      reference indentation, and whether the last display line was connected. */
  datatype ScanState = ScanState(
    displays: seq<Display>,
    edidBuffer: seq<string>,
    collecting: bool,
    attributeIndentation: nat,
    lastConnected: bool)

  const Initial := ScanState([], [], false, 0, false)

  /** Collecting, or having seen a connected line, implies a record exists;
      so `parsed_displays[len(parsed_displays) - 1]` is always defined. */
  predicate Valid(s: ScanState) {
    (s.collecting || s.lastConnected) ==> |s.displays| > 0
  }

  predicate IsDisconnectedLine(line: string) {
    Contains(line, "disconnected")
  }

  predicate IsConnectedLine(line: string) {
    !Contains(line, "disconnected") && Contains(line, "connected")
  }

  /** The record for one connected line: grammar, then `parse_display`. */
  function Record(line: string, parser: string -> Option<Node>): (r: Result<Display, ParseError>)
    ensures r.Success? ==> r.value.edid == "" && GeometryConsistent(r.value)
    ensures r.Failure? ==> r.error.line == line
  {
    match parser(line)
    case None => Failure(UnexpectedInput(line))
    case Some(t) =>
      match ParseDisplay(t)
      case None => Failure(MalformedTree(line))
      case Some(d) => Success(d)
  }

  /** The indentation of a line inside an EDID block: a line starting with a
      space counts as the reference indentation, any other line counts its
      leading tabs. */
  function Indentation(line: string, attributeIndentation: nat): nat {
    if StartsWith(line, " ") then attributeIndentation else LeadingTabs(line)
  }

  /** The line that closes an EDID block. */
  predicate EndsEdidBlock(line: string, attributeIndentation: nat) {
    Indentation(line, attributeIndentation) == attributeIndentation
  }

  lemma EndsEdidBlockIff(line: string, attributeIndentation: nat)
    ensures EndsEdidBlock(line, attributeIndentation)
            <==> (|line| > 0 && line[0] == ' ') || LeadingTabs(line) == attributeIndentation
  {
    assert StartsWith(line, " ") <==> |line| > 0 && line[0] == ' ' by {
      if |line| > 0 { assert line[..1] == [line[0]]; }
    }
  }

  /** The column of "EDID" on a line that contains it (`line.index("EDID")`). */
  function EdidColumn(line: string): (c: nat)
    requires Contains(line, "EDID")
    ensures OccursAt(line, "EDID", c)
    ensures forall j: nat :: j < c ==> !OccursAt(line, "EDID", j)
  {
    IndexOf(line, "EDID").value
  }

  /** One iteration of the loop body. */
  function Step(s: ScanState, line: string, parser: string -> Option<Node>): (r: Result<ScanState, ParseError>)
    requires Valid(s)
    ensures r.Success? ==> Valid(r.value)
    // a disconnected line only clears the connected flag
    ensures IsDisconnectedLine(line) ==> r == Success(s.(lastConnected := false))
    // a connected line appends exactly one record, or aborts with the grammar's error
    ensures IsConnectedLine(line) && Record(line, parser).Failure? ==> r == Failure(Record(line, parser).error)
    ensures IsConnectedLine(line) && Record(line, parser).Success? ==>
              r.Success? && r.value.displays == s.displays + [Record(line, parser).value] && r.value.lastConnected
    ensures !IsConnectedLine(line) ==> r.Success? && |r.value.displays| == |s.displays|
    ensures r.Success? ==>
              BlankAll(r.value.displays) == BlankAll(s.displays) + (if IsConnectedLine(line) then [Record(line, parser).value] else [])
    // collection starts only after a connected display, on a line mentioning EDID
    ensures r.Success? && r.value.collecting && !s.collecting ==> s.lastConnected && Contains(line, "EDID")
    // the EDIDs of all but the last record never change
    ensures r.Success? ==> forall i :: 0 <= i < |s.displays| - 1 ==> r.value.displays[i] == s.displays[i]
  {
    if Contains(line, "disconnected") then
      Success(s.(lastConnected := false))
    else if Contains(line, "connected") then
      match Record(line, parser)
      case Failure(e) => Failure(e)
      case Success(d) => Success(s.(displays := s.displays + [d], lastConnected := true))
    else if s.lastConnected && Contains(line, "EDID") then
      Success(s.(edidBuffer := [], attributeIndentation := EdidColumn(line), collecting := true))
    else if s.collecting then
      if Indentation(line, s.attributeIndentation) == s.attributeIndentation then
        var last := |s.displays| - 1;
        var displays := s.displays[last := s.displays[last].(edid := Concat(s.edidBuffer))];
        assert BlankAll(displays) == BlankAll(s.displays);
        Success(s.(collecting := false, displays := displays))
      else
        Success(s.(edidBuffer := s.edidBuffer + [Strip(line)]))
    else
      Success(s)
  }

  /** The loop over the remaining lines from state `s`. */
  function ScanFrom(s: ScanState, lines: seq<string>, parser: string -> Option<Node>): (r: Result<ScanState, ParseError>)
    requires Valid(s)
    ensures r.Success? ==> Valid(r.value) && |s.displays| <= |r.value.displays| <= |s.displays| + |lines|
    // an abort names one of the remaining lines, a connected one
    ensures r.Failure? ==> exists i :: 0 <= i < |lines| && IsConnectedLine(lines[i]) && r.error.line == lines[i]
    decreases |lines|
  {
    if |lines| == 0 then
      Success(s)
    else
      match Step(s, lines[0], parser)
      case Failure(e) => Failure(e)
      case Success(next) =>
        var r := ScanFrom(next, lines[1..], parser);
        assert r.Failure? ==> exists i :: 0 <= i < |lines| && IsConnectedLine(lines[i]) && r.error.line == lines[i] by {
          if r.Failure? {
            var i :| 0 <= i < |lines[1..]| && IsConnectedLine(lines[1..][i]) && r.error.line == lines[1..][i];
            assert lines[1..][i] == lines[i + 1];
          }
        }
        r
  }

  /** `parse` on the lines of the status output: at most one record per line,
      and an abort names a connected line of the input. */
  function Scan(lines: seq<string>, parser: string -> Option<Node>): (r: Result<seq<Display>, ParseError>)
    ensures r.Success? ==> |r.value| <= |lines|
    ensures r.Failure? ==> exists i :: 0 <= i < |lines| && IsConnectedLine(lines[i]) && r.error.line == lines[i]
  {
    match ScanFrom(Initial, lines, parser)
    case Failure(e) => Failure(e)
    case Success(s) => Success(s.displays)
  }

  /** `parse` on the whole status output, split at newlines: an abort names a
      single connected line of the output. */
  function ParseStatus(output: string, parser: string -> Option<Node>): (r: Result<seq<Display>, ParseError>)
    ensures r.Failure? ==> IsConnectedLine(r.error.line) && '\n' !in r.error.line
    ensures r.Success? ==> |r.value| <= |Split(output, '\n')|
  {
    Scan(Split(output, '\n'), parser)
  }

  // ---- Reference definition of the records ---------------------------------

  /** The records of the connected lines, in input order, ignoring EDIDs; the
      first connected line that does not parse is the error. */
  function Records(lines: seq<string>, parser: string -> Option<Node>): (r: Result<seq<Display>, ParseError>)
    ensures r.Success? ==> forall i :: 0 <= i < |r.value| ==> r.value[i].edid == ""
  {
    if |lines| == 0 then
      Success([])
    else if IsConnectedLine(lines[0]) then
      match Record(lines[0], parser)
      case Failure(e) => Failure(e)
      case Success(d) =>
        match Records(lines[1..], parser)
        case Failure(e) => Failure(e)
        case Success(ds) => Success([d] + ds)
    else
      Records(lines[1..], parser)
  }

  /** Number of lines that produce a record. */
  function CountConnected(lines: seq<string>): (n: nat)
    ensures n <= |lines|
  {
    if |lines| == 0 then 0
    else (if IsConnectedLine(lines[0]) then 1 else 0) + CountConnected(lines[1..])
  }

  lemma {:induction false} RecordsCount(lines: seq<string>, parser: string -> Option<Node>)
    requires Records(lines, parser).Success?
    ensures |Records(lines, parser).value| == CountConnected(lines)
  {
    if |lines| > 0 {
      RecordsCount(lines[1..], parser);
    }
  }

  lemma {:induction false} ScanFromRecords(s: ScanState, lines: seq<string>, parser: string -> Option<Node>)
    requires Valid(s)
    ensures ScanFrom(s, lines, parser).Success? <==> Records(lines, parser).Success?
    ensures ScanFrom(s, lines, parser).Failure? ==> ScanFrom(s, lines, parser).error == Records(lines, parser).error
    ensures ScanFrom(s, lines, parser).Success? ==>
              BlankAll(ScanFrom(s, lines, parser).value.displays) == BlankAll(s.displays) + Records(lines, parser).value
    decreases |lines|
  {
    if |lines| > 0 {
      var line := lines[0];
      var step := Step(s, line, parser);
      StepAgreesWithRecord(s, line, parser);
      assert ScanFrom(s, lines, parser) == if step.Failure? then Failure(step.error) else ScanFrom(step.value, lines[1..], parser);
      if step.Success? {
        ScanFromRecords(step.value, lines[1..], parser);
      }
    }
  }

  /** One step fails exactly when the line is connected and its record fails. */
  lemma StepAgreesWithRecord(s: ScanState, line: string, parser: string -> Option<Node>)
    requires Valid(s)
    ensures Step(s, line, parser).Success? <==> !IsConnectedLine(line) || Record(line, parser).Success?
    ensures Step(s, line, parser).Failure? ==> Step(s, line, parser).error == Record(line, parser).error
  {
  }

  lemma BlankAllFresh(ds: seq<Display>)
    requires forall i :: 0 <= i < |ds| ==> ds[i].edid == ""
    ensures BlankAll(ds) == ds
  {
  }

  /** The scan yields exactly one record per connected line, in input order,
      equal up to EDID to what `parse_display` builds for that line, and it
      fails exactly when some connected line does not parse, with the error
      of the first such line. */
  lemma ScanMatchesRecords(lines: seq<string>, parser: string -> Option<Node>)
    ensures Scan(lines, parser).Success? <==> Records(lines, parser).Success?
    ensures Scan(lines, parser).Failure? ==> Scan(lines, parser).error == Records(lines, parser).error
    ensures Scan(lines, parser).Success? ==>
              BlankAll(Scan(lines, parser).value) == Records(lines, parser).value
              && |Scan(lines, parser).value| == CountConnected(lines)
  {
    ScanFromRecords(Initial, lines, parser);
    if Records(lines, parser).Success? {
      RecordsCount(lines, parser);
      BlankAllFresh(Records(lines, parser).value);
    }
  }

  // ---- EDID reassembly -----------------------------------------------------

  lemma {:induction false} ScanFromAppend(s: ScanState, a: seq<string>, b: seq<string>, parser: string -> Option<Node>)
    requires Valid(s)
    ensures ScanFrom(s, a, parser).Failure? ==> ScanFrom(s, a + b, parser) == ScanFrom(s, a, parser)
    ensures ScanFrom(s, a, parser).Success? ==> ScanFrom(s, a + b, parser) == ScanFrom(ScanFrom(s, a, parser).value, b, parser)
    decreases |a|
  {
    if |a| == 0 {
      assert a + b == b;
    } else {
      assert (a + b)[0] == a[0];
      assert (a + b)[1..] == a[1..] + b;
      var step := Step(s, a[0], parser);
      if step.Success? {
        ScanFromAppend(step.value, a[1..], b, parser);
      }
    }
  }

  /** A line of an EDID block body: not a display line, not a new EDID header,
      and not back at the reference indentation. */
  predicate IsEdidContinuation(line: string, attributeIndentation: nat) {
    !Contains(line, "connected") && !Contains(line, "EDID") && !EndsEdidBlock(line, attributeIndentation)
  }

  function StripAll(lines: seq<string>): (r: seq<string>)
    ensures |r| == |lines|
    ensures forall i :: 0 <= i < |lines| ==> r[i] == Strip(lines[i])
  {
    seq(|lines|, i requires 0 <= i < |lines| => Strip(lines[i]))
  }

  lemma StepContinuation(s: ScanState, line: string, parser: string -> Option<Node>)
    requires Valid(s) && s.collecting
    requires IsEdidContinuation(line, s.attributeIndentation)
    ensures Step(s, line, parser) == Success(s.(edidBuffer := s.edidBuffer + [Strip(line)]))
  {
    if Contains(line, "disconnected") {
      DisconnectedContainsConnected(line);
    }
  }

  /** Every line of `block` continues the EDID block. */
  predicate AllContinuations(block: seq<string>, attributeIndentation: nat)
    decreases |block|
  {
    |block| == 0 || (IsEdidContinuation(block[0], attributeIndentation) && AllContinuations(block[1..], attributeIndentation))
  }

  lemma {:induction false} AllContinuationsIff(block: seq<string>, attributeIndentation: nat)
    ensures AllContinuations(block, attributeIndentation)
            <==> forall i :: 0 <= i < |block| ==> IsEdidContinuation(block[i], attributeIndentation)
    decreases |block|
  {
    if |block| > 0 {
      AllContinuationsIff(block[1..], attributeIndentation);
      assert forall i :: 1 <= i < |block| ==> block[1..][i - 1] == block[i];
    }
  }

  /** The stripped buffer after one more continuation line. */
  lemma StripAllCons(buffer: seq<string>, block: seq<string>)
    requires |block| > 0
    ensures (buffer + [Strip(block[0])]) + StripAll(block[1..]) == buffer + StripAll(block)
  {
    assert StripAll(block) == [Strip(block[0])] + StripAll(block[1..]);
    ConcatAssoc(buffer, [Strip(block[0])], StripAll(block[1..]));
  }

  /** While collecting, each continuation line adds its stripped text to the buffer. */
  lemma {:induction false} CollectContinuations(s: ScanState, block: seq<string>, parser: string -> Option<Node>)
    requires Valid(s) && s.collecting
    requires AllContinuations(block, s.attributeIndentation)
    ensures ScanFrom(s, block, parser) == Success(s.(edidBuffer := s.edidBuffer + StripAll(block)))
    decreases |block|
  {
    if |block| == 0 {
      assert s.edidBuffer + StripAll(block) == s.edidBuffer;
    } else {
      var next := s.(edidBuffer := s.edidBuffer + [Strip(block[0])]);
      StepContinuation(s, block[0], parser);
      CollectContinuations(next, block[1..], parser);
      StripAllCons(s.edidBuffer, block);
    }
  }

  /** An "EDID" header after a connected display, k continuation lines, then a
      line back at the header's indentation: the last record's EDID becomes the
      concatenation of the k stripped lines, the closing line is not part of
      it, and no other record changes. */
  lemma EdidReassembly(s: ScanState, header: string, block: seq<string>, closing: string,
                       parser: string -> Option<Node>)
    requires Valid(s) && s.lastConnected
    requires !Contains(header, "connected") && Contains(header, "EDID")
    requires forall i :: 0 <= i < |block| ==> IsEdidContinuation(block[i], EdidColumn(header))
    requires !Contains(closing, "connected") && !Contains(closing, "EDID")
    requires EndsEdidBlock(closing, EdidColumn(header))
    ensures ScanFrom(s, [header] + block + [closing], parser).Success?
    ensures var r := ScanFrom(s, [header] + block + [closing], parser).value;
            && |r.displays| == |s.displays|
            && r.displays[|s.displays| - 1] == s.displays[|s.displays| - 1].(edid := Concat(StripAll(block)))
            && (forall i :: 0 <= i < |s.displays| - 1 ==> r.displays[i] == s.displays[i])
            && !r.collecting
  {
    if Contains(header, "disconnected") {
      DisconnectedContainsConnected(header);
    }
    if Contains(closing, "disconnected") {
      DisconnectedContainsConnected(closing);
    }
    var started := s.(edidBuffer := [], attributeIndentation := EdidColumn(header), collecting := true);
    assert Step(s, header, parser) == Success(started);
    assert ScanFrom(s, [header], parser) == Success(started);
    AllContinuationsIff(block, EdidColumn(header));
    CollectContinuations(started, block, parser);
    var collected := started.(edidBuffer := StripAll(block));
    assert [] + StripAll(block) == StripAll(block);
    ScanFromAppend(s, [header], block, parser);
    ScanFromAppend(s, [header] + block, [closing], parser);
    assert ScanFrom(collected, [closing], parser) == Step(collected, closing, parser);
  }

  /** When the output ends inside an EDID block, the collected pieces are
      never attached: every record keeps the EDID it had. */
  lemma EdidUnterminated(s: ScanState, header: string, block: seq<string>, parser: string -> Option<Node>)
    requires Valid(s) && s.lastConnected
    requires !Contains(header, "connected") && Contains(header, "EDID")
    requires forall i :: 0 <= i < |block| ==> IsEdidContinuation(block[i], EdidColumn(header))
    ensures ScanFrom(s, [header] + block, parser).Success?
    ensures ScanFrom(s, [header] + block, parser).value.displays == s.displays
    ensures ScanFrom(s, [header] + block, parser).value.collecting
  {
    if Contains(header, "disconnected") {
      DisconnectedContainsConnected(header);
    }
    var started := s.(edidBuffer := [], attributeIndentation := EdidColumn(header), collecting := true);
    assert Step(s, header, parser) == Success(started);
    assert ScanFrom(s, [header], parser) == Success(started);
    AllContinuationsIff(block, EdidColumn(header));
    CollectContinuations(started, block, parser);
    ScanFromAppend(s, [header], block, parser);
  }
}
