/** The human-readable report of `btor/mod.rs` (`analyze_and_report`,
    `print_flow`), produced as the list of lines it prints. */
module Report {
  import opened Text
  import opened Wrappers
  import opened Assignments
  import opened Props
  import opened Grammar
  import opened Witnesses
  import opened Flow

  const Indent: string := "    "

  /** The step marker of a flow: `#` for states, `@` for inputs. */
  function Prefix(flowType: FlowType): (r: string)
    ensures |r| == 1
  {
    match flowType
    case State => "#"
    case Input => "@"
  }

  /** `largest_val`: the largest value of a series, and at least 1. */
  function LargestValue(flow: seq<Point>): (r: nat)
    ensures r >= 1
    ensures forall i | 0 <= i < |flow| :: Value(flow[i]) <= r
    ensures r == 1 || exists i | 0 <= i < |flow| :: Value(flow[i]) == r
    decreases |flow|
  {
    if |flow| == 0 then 1
    else
      var n := |flow| - 1;
      var earlier := LargestValue(flow[..n]);
      assert forall i | 0 <= i < n :: flow[..n][i] == flow[i];
      if Value(flow[n]) > earlier then Value(flow[n]) else earlier
  }

  /** Every assignment is at most 64 bits wide, so that the rendering's
      shifts stay below the width of `u64`. */
  predicate Narrow(flow: seq<Point>)
  {
    forall i | 0 <= i < |flow| :: flow[i].assignment.kind.bits <= 64
  }

  /** One change of a signal: the arrow (blank for the first), the step
      right-aligned to `width`, the value right-aligned to `valWidth`, and
      the binary rendering in parentheses. */
  function PointLine(prefix: string, width: nat, valWidth: nat, idx: nat, p: Point): (r: string)
    requires p.assignment.kind.bits <= 64
    ensures 11 < |r| && r[..11] == Indent + Indent + Arrow(idx) && r[|r| - 1] == ')'
  {
    var head := Indent + Indent + Arrow(idx) + prefix;
    var line := head + PadLeft(NatToString(p.step), width) + ": "
      + PadLeft(NatToString(Value(p)), valWidth)
      + " (" + ToBinaryString(p.assignment.kind) + ")";
    LineEnds(head, PadLeft(NatToString(p.step), width), PadLeft(NatToString(Value(p)), valWidth),
             ToBinaryString(p.assignment.kind));
    assert head[..11] == Indent + Indent + Arrow(idx);
    line
  }

  /** The line that closes a signal: the arrow to the largest step, then `end`. */
  function ClosingLine(prefix: string, width: nat, maxStep: nat): (r: string)
    ensures 16 < |r| && r[..11] == Indent + Indent + "-> " && r[|r| - 5..] == ": end"
  {
    var head := Indent + Indent + "-> " + prefix;
    var step := PadLeft(NatToString(maxStep), width);
    HeadAndTail(head, step, ": end");
    assert head[..11] == Indent + Indent + "-> ";
    head + step + ": end"
  }

  /** The change lines of a series, one per point, in order. */
  function ChangeLines(prefix: string, width: nat, valWidth: nat, flow: seq<Point>): (r: seq<string>)
    requires Narrow(flow)
    ensures |r| == |flow|
  {
    seq(|flow|, i requires 0 <= i < |flow| => PointLine(prefix, width, valWidth, i, flow[i]))
  }

  /** The lines printed for one signal: its name, one line per change, the
      closing line and the blank line after it. */
  function SignalLines(name: string, flow: seq<Point>, flowType: FlowType, maxStep: nat): (r: seq<string>)
    requires Narrow(flow)
    ensures |r| == |flow| + 3
    ensures r[0] == Indent + name + ": " && r[|flow| + 2] == ""
  {
    var prefix := Prefix(flowType);
    var width := DigitCount(maxStep);
    var valWidth := DigitCount(LargestValue(flow));
    [Indent + name + ": "]
      + ChangeLines(prefix, width, valWidth, flow)
      + [ClosingLine(prefix, width, maxStep), ""]
  }

  /** The block of lines of each signal of `c`, in ascending name order. */
  function Blocks(c: Collected, flowType: FlowType): (r: seq<seq<string>>)
    requires forall k | k in c.names :: k in c.series && Narrow(c.series[k])
    ensures |r| == |c.names|
    ensures forall m | 0 <= m < |r| :: |r[m]| == |c.series[c.names[m]]| + 3
  {
    seq(|c.names|, m requires 0 <= m < |c.names| =>
      SignalLines(c.names[m], c.series[c.names[m]], flowType, c.maxStep))
  }

  /** `print_flow`: every signal's block, in ascending name order; nothing
      at all for a flow without signals, and otherwise first the name line
      of the first signal. */
  function PrintFlow(c: Collected, flowType: FlowType): (r: seq<string>)
    requires forall k | k in c.names :: k in c.series && Narrow(c.series[k])
    ensures r == [] <==> c.names == []
    ensures c.names != [] ==> r[0] == Indent + c.names[0] + ": "
  {
    var blocks := Blocks(c, flowType);
    if c.names == [] then
      assert blocks == [];
      Flatten(blocks)
    else
      FlattenBlockStart(blocks, 0);
      Flatten(blocks)
  }

  // ---------------------------------------------------------------------------
  // Column alignment

  /** A change line begins with its head and ends with `)`. */
  lemma LineEnds(head: string, step: string, value: string, bin: string)
    ensures var line := head + step + ": " + value + " (" + bin + ")";
            && |head| < |line| && line[..|head|] == head && line[|line| - 1] == ')'
  {
    var line := head + step + ": " + value + " (" + bin + ")";
    assert line == head + (step + ": " + value + " (" + bin + ")");
  }

  /** `head + middle + tail` begins with `head` and ends with `tail`. */
  lemma HeadAndTail(head: string, middle: string, tail: string)
    ensures var line := head + middle + tail;
            && line[..|head|] == head && line[|line| - |tail|..] == tail
  {
  }

  /** Where the separators of a change line fall, whatever its fields. */
  lemma SeparatorsAt(head: string, step: string, value: string, bin: string)
    ensures var line := head + step + ": " + value + " (" + bin + ")";
            var at := |head| + |step|;
            && |line| == at + |value| + |bin| + 5
            && line[at..at + 2] == ": "
            && line[at + 2 + |value|..at + 4 + |value|] == " ("
            && line[|line| - 1] == ')'
  {
    var line := head + step + ": " + value + " (" + bin + ")";
    var at := |head| + |step|;
    assert line == (head + step) + (": " + (value + (" (" + (bin + ")"))));
  }

  /** A change line whose step field is `width` wide and whose value field
      is `valWidth` wide: the arrow column, then `: ` and ` (` at fixed
      columns, and the closing parenthesis last. */
  predicate Columns(line: string, width: nat, valWidth: nat, arrow: string)
  {
    && |line| > 16 + width + valWidth
    && line[8..11] == arrow
    && line[12 + width..14 + width] == ": "
    && line[14 + width + valWidth..16 + width + valWidth] == " ("
    && line[|line| - 1] == ')'
  }

  /** The arrow of change `idx`: blank for the first change of a signal. */
  function Arrow(idx: nat): string
  {
    if idx > 0 then "-> " else "   "
  }

  /** The `: ` after the step sits at the same column on every change line
      whose step fits the width, and the ` (` after the value likewise. */
  lemma PointLineColumns(prefix: string, width: nat, valWidth: nat, idx: nat, p: Point)
    requires p.assignment.kind.bits <= 64 && |prefix| == 1
    requires DigitCount(p.step) <= width && DigitCount(Value(p)) <= valWidth
    ensures Columns(PointLine(prefix, width, valWidth, idx, p), width, valWidth, Arrow(idx))
  {
    var head := Indent + Indent + Arrow(idx) + prefix;
    assert |head| == 12 && head[8..11] == Arrow(idx);
    PaddedColumns(head, NatToString(p.step), width, NatToString(Value(p)), valWidth,
                  ToBinaryString(p.assignment.kind));
  }

  /** The columns of any line laid out as a change line. */
  lemma PaddedColumns(head: string, stepText: string, width: nat, valueText: string, valWidth: nat, bin: string)
    requires |head| == 12 && |stepText| <= width && |valueText| <= valWidth
    ensures var line := head + PadLeft(stepText, width) + ": " + PadLeft(valueText, valWidth) + " (" + bin + ")";
            Columns(line, width, valWidth, head[8..11])
  {
    var step := PadLeft(stepText, width);
    var value := PadLeft(valueText, valWidth);
    var line := head + step + ": " + value + " (" + bin + ")";
    SeparatorsAt(head, step, value, bin);
    assert line[8..11] == head[8..11];
  }

  /** Where the fields of a change line fall, whatever they hold. */
  lemma FieldsAt(head: string, step: string, value: string, bin: string)
    ensures var line := head + step + ": " + value + " (" + bin + ")";
            var at := |head| + |step|;
            && line[|head|..at] == step
            && line[at + 2..at + 2 + |value|] == value
            && line[at + 4 + |value|..|line| - 1] == bin
  {
    var line := head + step + ": " + value + " (" + bin + ")";
    assert line == head + (step + (": " + (value + (" (" + (bin + ")")))));
  }

  /** A change line shows the step and the value in decimal, right-aligned
      so that they end at their columns, and the binary rendering between
      the parentheses. */
  lemma PointLineShows(prefix: string, width: nat, valWidth: nat, idx: nat, p: Point)
    requires p.assignment.kind.bits <= 64 && |prefix| == 1
    requires DigitCount(p.step) <= width && DigitCount(Value(p)) <= valWidth
    ensures var line := PointLine(prefix, width, valWidth, idx, p);
            && |line| > 16 + width + valWidth
            && line[12 + width - DigitCount(p.step)..12 + width] == NatToString(p.step)
            && line[14 + width + valWidth - DigitCount(Value(p))..14 + width + valWidth] == NatToString(Value(p))
            && line[16 + width + valWidth..|line| - 1] == ToBinaryString(p.assignment.kind)
  {
    PaddedFieldsAt(Indent + Indent + Arrow(idx) + prefix, NatToString(p.step), width,
                   NatToString(Value(p)), valWidth, ToBinaryString(p.assignment.kind));
  }

  /** The same for any texts: a line of a 12-character head, a step text
      padded to `width`, `: `, a value text padded to `valWidth`, ` (`, the
      binary text and `)`. */
  lemma PaddedFieldsAt(head: string, stepText: string, width: nat, valueText: string, valWidth: nat, bin: string)
    requires |head| == 12 && |stepText| <= width && |valueText| <= valWidth
    ensures var line := head + PadLeft(stepText, width) + ": " + PadLeft(valueText, valWidth) + " (" + bin + ")";
            && |line| > 16 + width + valWidth
            && line[12 + width - |stepText|..12 + width] == stepText
            && line[14 + width + valWidth - |valueText|..14 + width + valWidth] == valueText
            && line[16 + width + valWidth..|line| - 1] == bin
  {
    var step := PadLeft(stepText, width);
    var value := PadLeft(valueText, valWidth);
    SeparatorsAt(head, step, value, bin);
    FieldsAt(head, step, value, bin);
    StepEndsAt(head, stepText, width, value, bin);
    ValueEndsAt(head, step, valueText, valWidth, bin);
  }

  /** The padded step text ends at column `12 + width`. */
  lemma StepEndsAt(head: string, stepText: string, width: nat, value: string, bin: string)
    requires |head| == 12 && |stepText| <= width
    ensures var line := head + PadLeft(stepText, width) + ": " + value + " (" + bin + ")";
            && 12 + width <= |line|
            && line[12 + width - |stepText|..12 + width] == stepText
  {
    var step := PadLeft(stepText, width);
    var line := head + step + ": " + value + " (" + bin + ")";
    SeparatorsAt(head, step, value, bin);
    FieldsAt(head, step, value, bin);
    PadLeftShape(stepText, width);
    EndOfField(line, 12, step, stepText);
  }

  /** The padded value text ends at column `14 + width + valWidth`. */
  lemma ValueEndsAt(head: string, step: string, valueText: string, valWidth: nat, bin: string)
    requires |head| == 12 && |valueText| <= valWidth
    ensures var line := head + step + ": " + PadLeft(valueText, valWidth) + " (" + bin + ")";
            var at := 14 + |step| + valWidth;
            && at <= |line|
            && line[at - |valueText|..at] == valueText
  {
    var value := PadLeft(valueText, valWidth);
    var line := head + step + ": " + value + " (" + bin + ")";
    SeparatorsAt(head, step, value, bin);
    FieldsAt(head, step, value, bin);
    PadLeftShape(valueText, valWidth);
    EndOfField(line, 14 + |step|, value, valueText);
  }

  /** Text that ends a field ends where the field ends in the line. */
  lemma EndOfField(line: string, start: nat, field: string, text: string)
    requires start + |field| <= |line| && line[start..start + |field|] == field
    requires |text| <= |field| && field[|field| - |text|..] == text
    ensures line[start + |field| - |text|..start + |field|] == text
  {
    assert line[start + |field| - |text|..start + |field|] == line[start..start + |field|][|field| - |text|..];
  }

  /** The closing line puts its `: ` at the same column. */
  lemma ClosingLineColumns(prefix: string, maxStep: nat)
    requires |prefix| == 1
    ensures var width := DigitCount(maxStep);
            var line := ClosingLine(prefix, width, maxStep);
            && |line| == 17 + width
            && line[8..11] == "-> "
            && line[12 + width..14 + width] == ": "
            && line[14 + width..] == "end"
  {
    var width := DigitCount(maxStep);
    var head := Indent + Indent + "-> " + prefix;
    var step := PadLeft(NatToString(maxStep), width);
    var line := head + step + ": end";
    assert |head| == 12 && |step| == width;
    assert line == ClosingLine(prefix, width, maxStep);
    assert line[8..11] == head[8..11];
    assert line[12 + width..14 + width] == ": ";
  }

  /** Every change line of a series whose steps and values fit the widths
      has its columns in place, the arrow marking all but the first. */
  lemma ChangeLinesColumns(prefix: string, width: nat, valWidth: nat, flow: seq<Point>)
    requires Narrow(flow) && |prefix| == 1
    requires forall i | 0 <= i < |flow| :: DigitCount(flow[i].step) <= width && DigitCount(Value(flow[i])) <= valWidth
    ensures forall i | 0 <= i < |flow| :: Columns(ChangeLines(prefix, width, valWidth, flow)[i], width, valWidth, Arrow(i))
  {
    forall i | 0 <= i < |flow|
      ensures Columns(ChangeLines(prefix, width, valWidth, flow)[i], width, valWidth, Arrow(i))
    {
      PointLineColumns(prefix, width, valWidth, i, flow[i]);
    }
  }

  /** Within a signal whose steps do not exceed the largest step, every
      change line has its columns at the same places, and the closing line
      has its `: ` in the step column too. */
  lemma SignalAligned(name: string, flow: seq<Point>, flowType: FlowType, maxStep: nat)
    requires Narrow(flow)
    requires forall j | 0 <= j < |flow| :: flow[j].step <= maxStep
    ensures var r := SignalLines(name, flow, flowType, maxStep);
            var width := DigitCount(maxStep);
            var valWidth := DigitCount(LargestValue(flow));
            && (forall i | 0 <= i < |flow| :: Columns(r[i + 1], width, valWidth, Arrow(i)))
            && |r[|flow| + 1]| == 17 + width
            && r[|flow| + 1][12 + width..14 + width] == ": "
  {
    var prefix := Prefix(flowType);
    var width := DigitCount(maxStep);
    var valWidth := DigitCount(LargestValue(flow));
    forall j | 0 <= j < |flow|
      ensures DigitCount(flow[j].step) <= width && DigitCount(Value(flow[j])) <= valWidth
    {
      DigitCountMonotone(flow[j].step, maxStep);
      DigitCountMonotone(Value(flow[j]), LargestValue(flow));
    }
    ChangeLinesColumns(prefix, width, valWidth, flow);
    ClosingLineColumns(prefix, maxStep);
    SignalLinesParts(name, flow, flowType, maxStep);
  }

  /** A signal's lines after the name line are its change lines, then its
      closing line. */
  lemma SignalLinesParts(name: string, flow: seq<Point>, flowType: FlowType, maxStep: nat)
    requires Narrow(flow)
    ensures var r := SignalLines(name, flow, flowType, maxStep);
            var body := ChangeLines(Prefix(flowType), DigitCount(maxStep), DigitCount(LargestValue(flow)), flow);
            && (forall i | 0 <= i < |flow| :: r[i + 1] == body[i])
            && r[|flow| + 1] == ClosingLine(Prefix(flowType), DigitCount(maxStep), maxStep)
  {
    var head := [Indent + name + ": "];
    var body := ChangeLines(Prefix(flowType), DigitCount(maxStep), DigitCount(LargestValue(flow)), flow);
    var tail := [ClosingLine(Prefix(flowType), DigitCount(maxStep), maxStep), ""];
    var r := SignalLines(name, flow, flowType, maxStep);
    assert r == head + body + tail;
    assert forall i | 0 <= i < |flow| :: r[i + 1] == body[i];
    assert r[|flow| + 1] == tail[0];
  }

  /** The block printed for signal `names[m]` begins at its offset, with
      the signal's name line; so the names head their blocks in ascending
      order. */
  lemma PrintFlowBlock(c: Collected, flowType: FlowType, m: nat)
    requires forall k | k in c.names :: k in c.series && Narrow(c.series[k])
    requires m < |c.names|
    ensures var blocks := Blocks(c, flowType);
            var start := Offset(blocks, m);
            var flow := c.series[c.names[m]];
            && start + |flow| + 3 <= |PrintFlow(c, flowType)|
            && PrintFlow(c, flowType)[start] == Indent + c.names[m] + ": "
  {
    var blocks := Blocks(c, flowType);
    FlattenBlockStart(blocks, m);
  }

  // ---------------------------------------------------------------------------
  // The whole report

  /** Every assignment of the given part of every frame is at most 64 bits wide. */
  predicate NarrowParts(frames: seq<Frame>, flowType: FlowType)
  {
    forall j | 0 <= j < |frames| :: forall a | a in Part(frames[j], flowType) :: a.kind.bits <= 64
  }

  /** A part whose assignments are all narrow gives only narrow series. */
  lemma FlowNarrow(frames: seq<Frame>, flowType: FlowType)
    requires NarrowParts(frames, flowType)
    ensures forall k | k in Collect(Points(frames, flowType)).names ::
              k in Collect(Points(frames, flowType)).series && Narrow(Collect(Points(frames, flowType)).series[k])
  {
    var points := Points(frames, flowType);
    var c := Collect(points);
    CollectValid(points);
    forall k | k in c.names
      ensures Narrow(c.series[k])
    {
      var flow := c.series[k];
      forall i | 0 <= i < |flow|
        ensures flow[i].assignment.kind.bits <= 64
      {
        SeriesFromPoints(points, k, flow[i]);
        var m :| 0 <= m < |points| && points[m] == flow[i];
        PointsFrom(frames, flowType, m);
      }
    }
  }

  /** The collected flow of a part of the frames; narrow parts give a flow
      that can be printed. */
  function FlowOf(w: Witness, flowType: FlowType): (r: Collected)
    ensures NarrowParts(w.inner.frames, flowType) ==>
              forall k | k in r.names :: k in r.series && Narrow(r.series[k])
  {
    if NarrowParts(w.inner.frames, flowType) then
      FlowNarrow(w.inner.frames, flowType);
      Collect(Points(w.inner.frames, flowType))
    else Collect(Points(w.inner.frames, flowType))
  }

  /** The first report line, naming the number of steps. */
  function SummaryLine(steps: nat): (r: string)
    ensures |r| > 31 && r[..24] == "Satisifed properties in " && r[|r| - 7..] == " steps:"
  {
    HeadAndTail("Satisifed properties in ", NatToString(steps), " steps:");
    "Satisifed properties in " + NatToString(steps) + " steps:"
  }

  /** The step count reads back from the summary line: the text between the
      fixed words is its decimal rendering. */
  lemma SummaryLineReads(steps: nat)
    ensures var line := SummaryLine(steps);
            && |line| > 31
            && line[..24] == "Satisifed properties in "
            && line[|line| - 7..] == " steps:"
            && line[24..|line| - 7] == NatToString(steps)
            && ValueIn(10, line[24..|line| - 7]) == steps
  {
    var digits := NatToString(steps);
    var line := "Satisifed properties in " + digits + " steps:";
    assert line == SummaryLine(steps);
    assert line[24..|line| - 7] == digits;
    assert line[..24] == "Satisifed properties in ";
    assert line[|line| - 7..] == " steps:";
  }

  /** Different step counts give different summary lines. */
  lemma SummaryLineInjective(a: nat, b: nat)
    requires SummaryLine(a) == SummaryLine(b)
    ensures a == b
  {
    SummaryLineReads(a);
    SummaryLineReads(b);
  }

  /** The second report line: the props described with the report's nid
      label, joined by `, `, after the indent. */
  function PropsLine(props: seq<Prop>): (r: string)
    ensures |props| > 0 ==>
              var first := Indent + Describe(props[0], ReportNidLabel);
              |first| <= |r| && r[..|first|] == first
  {
    var parts := DescribeAll(props, ReportNidLabel);
    JoinStartsWithFirst(parts, Separator);
    Indent + Join(parts, Separator)
  }

  /** Entry `i` of the report's list is prop `i`'s description under the
      report's nid label, after the indent and, past the first, after `, `;
      the last entry ends the line. */
  lemma PropsLineEntry(props: seq<Prop>, i: nat)
    requires i < |props|
    ensures var r := PropsLine(props);
            var entry := DescribeAll(props, ReportNidLabel)[i];
            var at := |Indent| + JoinOffset(DescribeAll(props, ReportNidLabel), Separator, i);
            && at + |entry| <= |r|
            && r[at..at + |entry|] == entry
            && (i > 0 ==> |Indent| + |Separator| <= at && r[at - |Separator|..at] == Separator)
            && (i == |props| - 1 ==> |r| == at + |entry|)
  {
    PropsLineIsIndentedList(props);
    EntryAt(Indent, props, ReportNidLabel, i);
  }

  lemma PropsLineIsIndentedList(props: seq<Prop>)
    ensures PropsLine(props) == Indent + Join(DescribeAll(props, ReportNidLabel), Separator)
  {
  }

  /** The report's list differs from `formatted_string` only in the nid
      label, so without attached names the two agree. */
  lemma PropsLineUnnamed(props: seq<Prop>)
    requires forall i | 0 <= i < |props| :: !Named(props[i])
    ensures PropsLine(props) == Indent + FormattedString(props)
  {
    assert DescribeAll(props, ReportNidLabel) == DescribeAll(props, ListNidLabel);
  }

  /** `head`, then `a`, then `mid`, then `b`, each where the layout puts it. */
  function Stack<T>(head: seq<T>, a: seq<T>, mid: T, b: seq<T>): (x: seq<T>)
    ensures |x| == |head| + |a| + 1 + |b|
    ensures x[..|head|] == head
    ensures x[|head|..|head| + |a|] == a
    ensures x[|head| + |a|] == mid
    ensures x[|head| + |a| + 1..] == b
  {
    var x := head + a + [mid] + b;
    assert x == head + (a + ([mid] + b));
    x
  }

  /** The report's layout: the four head lines, the input flow, the
      `States flow:` line and the state flow. */
  function Layout(summary: string, propsLine: string, inputs: seq<string>, states: seq<string>): (r: seq<string>)
    ensures |r| == 5 + |inputs| + |states|
    ensures r[..4] == [summary, propsLine, "", "Inputs flow:"]
    ensures r[4..4 + |inputs|] == inputs
    ensures r[4 + |inputs|] == "States flow:"
    ensures r[5 + |inputs|..] == states
  {
    Stack([summary, propsLine, "", "Inputs flow:"], inputs, "States flow:", states)
  }

  /** `analyze_and_report`: the summary of the props and the frame count, a
      blank line, then the input flow and the state flow. */
  function AnalyzeAndReport(w: Witness): (r: seq<string>)
    requires NarrowParts(w.inner.frames, Input) && NarrowParts(w.inner.frames, State)
    ensures |r| >= 5
    ensures r[..4] == [SummaryLine(|w.inner.frames|), PropsLine(w.inner.header.props), "", "Inputs flow:"]
  {
    var summary := PropsInSteps(w);
    Layout(SummaryLine(summary.1), PropsLine(summary.0),
           PrintFlow(FlowOf(w, Input), Input), PrintFlow(FlowOf(w, State), State))
  }

  /** After the four head lines come the input flow, the `States flow:`
      line, and the state flow, and nothing else. */
  lemma ReportFlows(w: Witness)
    requires NarrowParts(w.inner.frames, Input) && NarrowParts(w.inner.frames, State)
    ensures var r := AnalyzeAndReport(w);
            var inputs := PrintFlow(FlowOf(w, Input), Input);
            var states := PrintFlow(FlowOf(w, State), State);
            && |r| == 5 + |inputs| + |states|
            && r[4..4 + |inputs|] == inputs
            && r[4 + |inputs|] == "States flow:"
            && r[5 + |inputs|..] == states
  {
    var inputs := PrintFlow(FlowOf(w, Input), Input);
    var states := PrintFlow(FlowOf(w, State), State);
    assert AnalyzeAndReport(w) ==
           Layout(SummaryLine(|w.inner.frames|), PropsLine(w.inner.header.props), inputs, states);
  }
}
