/** Worked examples: the rendering cases `btor/assignment.rs` checks, the
    decimal reading of an array index, the property lines `btor/btor2.rs`
    documents, and a one-step witness read and reported end to end. */
module Scenarios {
  import opened Text
  import opened Wrappers
  import opened Helpers
  import opened Assignments
  import opened Props
  import opened Grammar
  import opened Witnesses
  import opened Btor2
  import opened Flow
  import opened Report

  /** 1 in two bits is `01`. */
  lemma OneInTwoBits()
    ensures Bits(1, 2) == "01"
  {
    assert Bits(0, 1) == "0";
  }

  /** 6 in three bits is `110`. */
  lemma SixInThreeBits()
    ensures Bits(6, 3) == "110"
  {
    assert Bits(1, 1) == "1";
    assert Bits(3, 2) == "11";
  }

  /** 2 and 3 in three bits are `010` and `011`. */
  lemma TwoAndThreeInThreeBits()
    ensures Bits(2, 3) == "010" && Bits(3, 3) == "011"
  {
    assert Bits(0, 1) == "0";
    OneInTwoBits();
  }

  /** The bitvector 6 of width 3 renders as `110`; the array entry at index 2
      holding 3, width 3, as `[010] -> 011`. */
  lemma BinaryStringExamples()
    ensures ToBinaryString(BitVec(6, 3)) == "110"
    ensures ToBinaryString(Array(2, 3, 3)) == "[" + "010" + "]" + " -> " + "011"
  {
    SixInThreeBits();
    TwoAndThreeInThreeBits();
  }

  /** The index between the brackets is read in decimal: `[010]` is entry 10,
      while the value after it is read in binary. */
  lemma ArrayIndexIsDecimal()
    ensures ArrayAssign("[010] 011") == Parsed(Array(10, 3, 3), "")
  {
    assert ValueIn(10, "010") == 10 by {
      assert ValueIn(10, "0") == 0;
      assert ValueIn(10, "01") == 1;
    }
    assert ValueIn(2, "011") == 3 by {
      assert ValueIn(2, "0") == 0;
      assert ValueIn(2, "01") == 1;
    }
    assert "[" + ("010" + ("]" + (" " + ("011" + "")))) == "[010] 011";
    ArrayAssignReads("010", " ", "011", "");
  }

  /** A model line, given by its space-separated tokens. */
  function Line(tokens: seq<string>): string
  {
    Join(tokens, " ")
  }

  /** The lines of a small model: an input `4 input 1`, a named `bad` property
      `5 bad 4 overflow-check` and an unnamed one `7 bad 6`. */
  function ModelLines(): seq<string>
  {
    [Line(["4", "input", "1"]), Line(["5", "bad", "4", "overflow-check"]), Line(["7", "bad", "6"])]
  }

  /** The input line is not a candidate. */
  lemma InputLineSkipped()
    ensures !IsCandidate(Line(["4", "input", "1"]))
  {
    SplitJoin(["4", "input", "1"], ' ');
  }

  /** The named `bad` line reads with its node and name. */
  lemma NamedBadLineReads()
    ensures IsCandidate(Line(["5", "bad", "4", "overflow-check"]))
    ensures ReadProperty(Line(["5", "bad", "4", "overflow-check"])) ==
              Some(Property(5, Bad, Some("overflow-check")))
  {
    var tokens := ["5", "bad", "4", "overflow-check"];
    assert forall i | 0 <= i < |tokens| :: ' ' !in tokens[i] by {
      assert ' ' !in tokens[3];
    }
    assert NatToString(5) == "5";
    ReadPropertyOfTokens(tokens, 5, Bad);
  }

  /** The unnamed `bad` line reads with its node and no name. */
  lemma UnnamedBadLineReads()
    ensures IsCandidate(Line(["7", "bad", "6"]))
    ensures ReadProperty(Line(["7", "bad", "6"])) == Some(Property(7, Bad, None))
  {
    assert NatToString(7) == "7";
    ReadPropertyOfTokens(["7", "bad", "6"], 7, Bad);
  }

  /** Three lines of which the first is not a candidate and the other two
      read as properties are numbered 0 and 1. */
  lemma ThreeLines(l0: string, l1: string, l2: string, p1: Property, p2: Property)
    requires !IsCandidate(l0) && IsCandidate(l1) && IsCandidate(l2)
    requires ReadProperty(l1) == Some(p1) && ReadProperty(l2) == Some(p2)
    ensures GetPropertyNames([l0, l1, l2]) == map[0 := p1, 1 := p2]
  {
    assert GetPropertyNames([l0]) == map[] && |Candidates([l0])| == 0 by {
      GetPropertyNamesExtends([], l0);
      assert [] + [l0] == [l0];
    }
    assert GetPropertyNames([l0, l1]) == map[0 := p1] && |Candidates([l0, l1])| == 1 by {
      GetPropertyNamesExtends([l0], l1);
      assert [l0] + [l1] == [l0, l1];
    }
    GetPropertyNamesExtends([l0, l1], l2);
    assert [l0, l1] + [l2] == [l0, l1, l2];
  }

  /** Only the two `bad` lines are candidates; they take ordinals 0 and 1, the
      first with its name and the second without one. */
  lemma ModelPropertyNames()
    ensures GetPropertyNames(ModelLines()) ==
              map[0 := Property(5, Bad, Some("overflow-check")), 1 := Property(7, Bad, None)]
  {
    InputLineSkipped();
    NamedBadLineReads();
    UnnamedBadLineReads();
    ThreeLines(Line(["4", "input", "1"]), Line(["5", "bad", "4", "overflow-check"]), Line(["7", "bad", "6"]),
               Property(5, Bad, Some("overflow-check")), Property(7, Bad, None));
  }

  /** The two property lines of the extractor's documentation, a named
      `bad` and a named `justice` property both called
      `core-0-illegal-instruction`, take keys 0 and 1 in file order: the
      `bad` line with node 43011, the `justice` line with node 43012, each
      with its name. */
  lemma DocExamplePropertyNames(bad: seq<string>, justice: seq<string>)
    requires bad == ["43011", "bad", "43010", "core-0-illegal-instruction"]
    requires justice == ["43012", "justice", "43009", "core-0-illegal-instruction"]
    ensures GetPropertyNames([Line(bad), Line(justice)]) ==
              map[0 := Property(43011, Bad, Some("core-0-illegal-instruction")),
                  1 := Property(43012, Justice, Some("core-0-illegal-instruction"))]
  {
    DocBadLine(bad);
    DocJusticeLine(justice);
    TwoLines(Line(bad), Line(justice), Property(43011, Bad, Some("core-0-illegal-instruction")),
             Property(43012, Justice, Some("core-0-illegal-instruction")));
  }

  lemma DocBadLine(bad: seq<string>)
    requires bad == ["43011", "bad", "43010", "core-0-illegal-instruction"]
    ensures IsCandidate(Line(bad))
    ensures ReadProperty(Line(bad)) == Some(Property(43011, Bad, Some("core-0-illegal-instruction")))
  {
    DocNodes();
    DocLineReads(bad, 43011, Bad);
  }

  lemma DocJusticeLine(justice: seq<string>)
    requires justice == ["43012", "justice", "43009", "core-0-illegal-instruction"]
    ensures IsCandidate(Line(justice))
    ensures ReadProperty(Line(justice)) == Some(Property(43012, Justice, Some("core-0-illegal-instruction")))
  {
    DocNodes();
    DocLineReads(justice, 43012, Justice);
  }

  /** The decimal renderings of the documented nodes. */
  lemma DocNodes()
    ensures NatToString(43011) == "43011" && NatToString(43012) == "43012"
  {
    assert NatToString(4) == "4";
    assert NatToString(43) == "43";
    assert NatToString(430) == "430";
    assert NatToString(4301) == "4301";
  }

  /** A documented line: its node, keyword, a second node and the name. */
  lemma DocLineReads(tokens: seq<string>, node: nat, kind: PropKind)
    requires |tokens| == 4 && tokens[0] == NatToString(node) && node < U64_LIMIT
    requires tokens[1] == Keyword(kind)
    requires tokens[2] == "43010" || tokens[2] == "43009"
    requires tokens[3] == "core-0-illegal-instruction"
    ensures IsCandidate(Line(tokens))
    ensures ReadProperty(Line(tokens)) == Some(Property(node, kind, Some("core-0-illegal-instruction")))
  {
    assert ' ' !in tokens[0] && ' ' !in tokens[2] && ' ' !in tokens[3];
    assert forall i | 0 <= i < |tokens| :: ' ' !in tokens[i] by {
      assert ' ' !in Keyword(kind);
    }
    ReadPropertyOfTokens(tokens, node, kind);
  }

  /** Two lines that both read as properties are numbered 0 and 1. */
  lemma TwoLines(l0: string, l1: string, p0: Property, p1: Property)
    requires IsCandidate(l0) && IsCandidate(l1)
    requires ReadProperty(l0) == Some(p0) && ReadProperty(l1) == Some(p1)
    ensures GetPropertyNames([l0, l1]) == map[0 := p0, 1 := p1]
  {
    assert GetPropertyNames([l0]) == map[0 := p0] && |Candidates([l0])| == 1 by {
      GetPropertyNamesExtends([], l0);
      assert [] + [l0] == [l0];
    }
    GetPropertyNamesExtends([l0], l1);
    assert [l0] + [l1] == [l0, l1];
  }

  /** Props follow each other with nothing between them: a header listing
      `b0 j1` with a space is refused, as the newline parser meets the space
      after `b0`. */
  lemma HeaderSpaceBetweenPropsRefused(s: string)
    requires s == "sat\n" + "b0 j1\n"
    ensures ParseHeader(s).Failed?
  {
    HeaderSpaceAfterPropFails(Prop(Bad, 0, None), "j1\n");
    FirstPropText();
  }

  lemma FirstPropText()
    ensures "sat\n" + PropThen(Prop(Bad, 0, None), " " + "j1\n") == "sat\n" + "b0 j1\n"
  {
    assert NatToString(0) == "0";
  }

  /** A witness for `b0` picks up the details of ordinal 0 from that model. */
  lemma EnrichFirstBad(frames: seq<Frame>)
    ensures var w := Witness(WitnessFormat(Header([Prop(Bad, 0, None)]), frames));
            AddPropNames(w, GetPropertyNames(ModelLines())).inner.header.props ==
              [Prop(Bad, 0, Some(Property(5, Bad, Some("overflow-check"))))]
  {
    ModelPropertyNames();
    var props := [Prop(Bad, 0, None)];
    var details := GetPropertyNames(ModelLines());
    AttachNamesAt(props, details, 0);
  }

  // ---------------------------------------------------------------------------
  // A one-step witness, end to end

  /** The input `x`, two bits wide, holding 1. */
  function OneStepAssignment(): Assignment
  {
    Assignment(BitVec(1, 2), Some("x"))
  }

  /** `sat`, `b0`, one input step `@0` assigning `x`, and the terminator. */
  function OneStepWitness(): WitnessFormat
  {
    WitnessFormat(Header([Prop(Bad, 0, None)]),
                  [Frame(None, Transition(0, Model([OneStepAssignment()])))])
  }

  /** The assignment line reads `0 01 x`. */
  lemma OneStepAssignmentText(tail: string)
    ensures AssignmentLineThen(0, OneStepAssignment(), tail) == "0 01 x\n" + tail
  {
    OneInTwoBits();
    assert NatToString(0) == "0";
  }

  /** The frame reads `@0` and then the assignment line. */
  lemma OneStepFramesText(tail: string)
    ensures FramesThen(0, OneStepWitness().frames, tail) == "@0\n0 01 x\n" + tail
  {
    var w := OneStepWitness();
    assert AssignmentsThen(0, [OneStepAssignment()], tail) == "0 01 x\n" + tail by {
      OneStepAssignmentText(tail);
    }
    assert NatToString(0) == "0";
    assert FramesThen(0, w.frames[1..], tail) == tail;
  }

  /** The whole text: `sat`, `b0`, `@0`, `0 01 x`, `.` on separate lines. */
  lemma OneStepWitnessText()
    ensures WitnessThen(0, OneStepWitness(), "") == "sat\n" + "b0\n" + "@0\n" + "0 01 x\n" + ".\n"
  {
    var w := OneStepWitness();
    var body := FramesThen(0, w.frames, "." + ("\n" + ""));
    assert body == "@0\n0 01 x\n.\n" by {
      OneStepFramesText("." + ("\n" + ""));
    }
    assert NatToString(0) == "0";
    assert PropsThen(w.header.props, "\n" + body) == "b0\n" + body;
  }

  /** That text reads back as the witness. */
  lemma OneStepWitnessReads()
    ensures FromStr(WitnessThen(0, OneStepWitness(), "")) == Ok(Witness(OneStepWitness()))
  {
    var w := OneStepWitness();
    assert WitnessEncodable(0, w) by {
      assert Pow(2, 2) == 4;
      assert SymbolText("x");
      assert Encodable(OneStepAssignment());
    }
    FromStrReads(0, w);
  }

  /** Its input flow: the one signal `x`, changed once at step 0; the largest
      step stays at its starting value 1. */
  lemma OneStepInputFlow()
    ensures FlowOf(Witness(OneStepWitness()), Input) ==
              Collected(map["x" := [Point(0, OneStepAssignment())]], ["x"], 1)
  {
    var w := OneStepWitness();
    var p := Point(0, OneStepAssignment());
    assert Points(w.frames, Input) == [p] by {
      assert w.frames[..0] == [];
    }
    assert Collect([p]) == Record(Collected(map[], [], 1), 0, p) by {
      assert [p][..0] == [];
    }
  }

  /** It has no state part, so its state flow is empty. */
  lemma OneStepStateFlow()
    ensures FlowOf(Witness(OneStepWitness()), State) == Collected(map[], [], 1)
  {
    var w := OneStepWitness();
    assert Points(w.frames, State) == [] by {
      assert w.frames[..0] == [];
    }
  }

  /** The change line of `x`: no arrow on the first line, step 0, value 1,
      bits `01`. */
  lemma OneStepChangeLine()
    ensures PointLine("@", 1, 1, 0, Point(0, OneStepAssignment())) ==
              "    " + "    " + "   " + "@" + "0" + ": " + "1" + " (" + "01" + ")"
  {
    assert NatToString(0) == "0" && NatToString(1) == "1";
    OneInTwoBits();
  }

  /** The closing line points at step 1. */
  lemma OneStepClosingLine()
    ensures ClosingLine("@", 1, 1) == "    " + "    " + "-> " + "@" + "1" + ": end"
  {
    assert NatToString(1) == "1";
  }

  /** The block of `x`: its name, the change line, the closing line, a blank. */
  lemma OneStepSignalLines()
    ensures SignalLines("x", [Point(0, OneStepAssignment())], Input, 1) ==
              [ "    " + "x: ",
                PointLine("@", 1, 1, 0, Point(0, OneStepAssignment())),
                ClosingLine("@", 1, 1),
                "" ]
  {
    var p := Point(0, OneStepAssignment());
    assert LargestValue([p]) == 1 by {
      assert [p][..0] == [];
    }
    assert DigitCount(1) == 1;
    assert ChangeLines("@", 1, 1, [p]) == [PointLine("@", 1, 1, 0, p)];
    assert Indent + "x" + ": " == "    " + "x: ";
  }

  /** A flow with a single signal prints just that signal's block. */
  lemma SingleSignalPrint(c: Collected, flowType: FlowType)
    requires c.names == ["x"] && "x" in c.series && Narrow(c.series["x"])
    ensures PrintFlow(c, flowType) == SignalLines("x", c.series["x"], flowType, c.maxStep)
  {
    var blocks := Blocks(c, flowType);
    var block := SignalLines("x", c.series["x"], flowType, c.maxStep);
    assert blocks == [block];
    assert Flatten(blocks[1..]) == [] by {
      assert blocks[1..] == [];
    }
    assert Flatten(blocks) == block + [];
    assert block + [] == block;
  }

  /** The input flow prints the block of `x`: its name, one change line at
      step 0 with value 1 and bits `01`, and the closing line at step 1
      rather than at the last step 0. */
  lemma OneStepInputLines()
    ensures PrintFlow(FlowOf(Witness(OneStepWitness()), Input), Input) ==
              SignalLines("x", [Point(0, OneStepAssignment())], Input, 1)
  {
    OneStepInputFlow();
    var p := Point(0, OneStepAssignment());
    SingleSignalPrint(Collected(map["x" := [p]], ["x"], 1), Input);
  }

  /** The whole report: one step, `Bad at 0`, the input flow of `x`, and an
      empty state flow after its heading. */
  lemma OneStepReport()
    ensures NarrowParts(OneStepWitness().frames, Input) && NarrowParts(OneStepWitness().frames, State)
    ensures AnalyzeAndReport(Witness(OneStepWitness())) ==
              [SummaryLine(1), "    " + "Bad at 0", "", "Inputs flow:"]
              + PrintFlow(FlowOf(Witness(OneStepWitness()), Input), Input)
              + ["States flow:"]
  {
    var w := Witness(OneStepWitness());
    assert NarrowParts(w.inner.frames, Input) && NarrowParts(w.inner.frames, State);
    OneStepStateFlow();
    assert PrintFlow(FlowOf(w, State), State) == [];
    assert Report.PropsLine(w.inner.header.props) == "    " + "Bad at 0" by {
      assert NatToString(0) == "0";
      assert DescribeAll(w.inner.header.props, ReportNidLabel) == [Display(Prop(Bad, 0, None))];
    }
  }
}
