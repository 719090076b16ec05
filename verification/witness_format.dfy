/** The witness grammar of `btor/witness_format.rs`: a `sat` header listing the
    violated properties, one or more frames of an optional state transition
    (`#`) and an input transition (`@`), and a closing `.`. Each parser is
    followed by the printer producing its input and the lemma reading the
    printed text back. */
module Grammar {
  import opened Text
  import opened Wrappers
  import opened Helpers
  import opened Assignments
  import opened Props

  datatype Header = Header(props: seq<Prop>)

  datatype Model = Model(assignments: seq<Assignment>)

  datatype Transition = Transition(step: nat, model: Model)

  datatype Frame = Frame(statePart: Option<Transition>, inputPart: Transition)

  datatype WitnessFormat = WitnessFormat(header: Header, frames: seq<Frame>)

  // ---------------------------------------------------------------------------
  // Header

  /** The header letter of a kind. */
  function KindLetter(kind: PropKind): char
  {
    match kind
    case Bad => 'b'
    case Justice => 'j'
  }

  /** `alt((tag("b"), tag("j")))` mapped to the kind. */
  function KindTag(s: string): (r: ParseResult<PropKind>)
    ensures r.Parsed? <==> |s| > 0 && (s[0] == 'b' || s[0] == 'j')
    ensures r.Parsed? ==> KindLetter(r.value) == s[0] && r.rest == s[1..]
  {
    match Tag(s, "b")
    case Parsed(_, rest) => Parsed(Bad, rest)
    case Failed =>
      match Tag(s, "j")
      case Parsed(_, rest) => Parsed(Justice, rest)
      case Failed => Failed
  }

  /** `Prop::parse`: a kind letter and a `uint` ordinal; no detail attached. */
  function ParseProp(s: string): (r: ParseResult<Prop>)
    ensures r.Parsed? ==> IsProperSuffix(r.rest, s) && r.value.property.None?
  {
    match KindTag(s)
    case Failed => Failed
    case Parsed(kind, afterKind) =>
      match Uint(afterKind)
      case Failed => Failed
      case Parsed(idx, rest) =>
        assert s == [s[0]] + afterKind;
        ConsumedPrefix([s[0]], afterKind);
        SuffixTransitive(rest, afterKind, s);
        Parsed(Prop(kind, idx, None), rest)
  }

  /** A prop is a `b` or `j` followed by a `uint`, read as that kind and ordinal. */
  lemma ParsePropReadsLetterAndUint(s: string)
    ensures ParseProp(s).Parsed? <==> |s| > 0 && (s[0] == 'b' || s[0] == 'j') && Uint(s[1..]).Parsed?
    ensures ParseProp(s).Parsed? ==>
              && KindLetter(ParseProp(s).value.kind) == s[0]
              && ParseProp(s).value.idx == Uint(s[1..]).value
              && ParseProp(s).rest == Uint(s[1..]).rest
  {
  }

  /** `many0(Prop::parse)`: props as long as one parses; never fails. */
  function PropsFrom(s: string): (r: ParseResult<seq<Prop>>)
    ensures r.Parsed? && IsSuffix(r.rest, s) && ParseProp(r.rest).Failed?
    decreases |s|
  {
    match ParseProp(s)
    case Failed => Parsed([], s)
    case Parsed(p, afterProp) =>
      var more := PropsFrom(afterProp);
      SuffixTransitive(more.rest, afterProp, s);
      Parsed([p] + more.value, more.rest)
  }

  /** `many1(Prop::parse)`: as `PropsFrom`, but the first prop is required. */
  function ParseProps(s: string): (r: ParseResult<seq<Prop>>)
    ensures r.Parsed? <==> ParseProp(s).Parsed?
    ensures r.Parsed? ==> |r.value| >= 1 && IsProperSuffix(r.rest, s) && ParseProp(r.rest).Failed?
  {
    match ParseProp(s)
    case Failed => Failed
    case Parsed(p, afterProp) =>
      var more := PropsFrom(afterProp);
      SuffixTransitive(more.rest, afterProp, s);
      Parsed([p] + more.value, more.rest)
  }

  /** The header after `sat\n`: the props and the newline closing them. */
  function PropsLine(s: string): (r: ParseResult<seq<Prop>>)
    ensures r.Parsed? ==> |r.value| >= 1 && EndsLine(r.rest, s)
  {
    match ParseProps(s)
    case Failed => Failed
    case Parsed(props, afterProps) =>
      match Newline(afterProps)
      case Failed => Failed
      case Parsed(_, rest) =>
        NewlineEndsLine(afterProps);
        EndsLineExtends(rest, afterProps, s);
        Parsed(props, rest)
  }

  /** `WitnessHeader::parse`: `sat\n`, one or more props with nothing between
      them, and a newline. */
  function ParseHeader(s: string): (r: ParseResult<Header>)
    ensures r.Parsed? ==> 4 <= |s| && s[..4] == "sat\n"
    ensures r.Parsed? ==> |r.value.props| >= 1 && EndsLine(r.rest, s)
  {
    match Tag(s, "sat\n")
    case Failed => Failed
    case Parsed(_, afterSat) =>
      match PropsLine(afterSat)
      case Failed => Failed
      case Parsed(props, rest) =>
        ConsumedPrefix("sat\n", afterSat);
        EndsLineExtends(rest, afterSat, s);
        Parsed(Header(props), rest)
  }

  // ---------------------------------------------------------------------------
  // Models, transitions and frames

  /** `terminated(comment, newline)`: like `comment`, it never matches. */
  function CommentLine(s: string): (r: ParseResult<()>)
    ensures r.Failed?
  {
    match Comment(s)
    case Failed => Failed
    case Parsed(_, afterComment) =>
      assert false;
      match Newline(afterComment)
      case Failed => Failed
      case Parsed(_, rest) => Parsed((), rest)
  }

  /** One item of `Model::parse`: an optional comment line, then an
      assignment, which `map_opt` makes mandatory. The comment never
      matching, an item is exactly an assignment line. */
  function ModelItem(s: string): (r: ParseResult<Assignment>)
    ensures r == ParseAssignment(s)
  {
    var afterComment := (
      match CommentLine(s)
      case Failed => s
      case Parsed(_, rest) => assert false; rest);
    match ParseAssignment(afterComment)
    case Failed => Failed
    case Parsed(a, rest) => Parsed(a, rest)
  }

  /** `many0` of model items; never fails. */
  function ModelItems(s: string): (r: ParseResult<seq<Assignment>>)
    ensures r.Parsed? && IsSuffix(r.rest, s) && ParseAssignment(r.rest).Failed?
    decreases |s|
  {
    match ModelItem(s)
    case Failed => Parsed([], s)
    case Parsed(a, afterItem) =>
      var more := ModelItems(afterItem);
      SuffixTransitive(more.rest, afterItem, s);
      Parsed([a] + more.value, more.rest)
  }

  /** `Model::parse`: one or more assignment lines, in textual order. */
  function ParseModel(s: string): (r: ParseResult<Model>)
    ensures r.Parsed? <==> ParseAssignment(s).Parsed?
    ensures r.Parsed? ==>
              && |r.value.assignments| >= 1
              && r.value.assignments[0] == ParseAssignment(s).value
              && IsProperSuffix(r.rest, s)
              && ParseAssignment(r.rest).Failed?
  {
    match ModelItem(s)
    case Failed => Failed
    case Parsed(a, afterItem) =>
      var more := ModelItems(afterItem);
      SuffixTransitive(more.rest, afterItem, s);
      Parsed(Model([a] + more.value), more.rest)
  }

  /** After a step's newline: `opt(Model::parse)`, absent meaning empty. */
  function OptModel(s: string): (r: ParseResult<Model>)
    ensures r.Parsed? && IsSuffix(r.rest, s) && ParseAssignment(r.rest).Failed?
    ensures r.value.assignments == [] <==> ParseAssignment(s).Failed?
  {
    match ParseModel(s)
    case Parsed(m, rest) => Parsed(m, rest)
    case Failed => Parsed(Model([]), s)
  }

  /** A step's closing newline and its model. */
  function StepBody(s: string): (r: ParseResult<Model>)
    ensures r.Parsed? <==> |s| > 0 && s[0] == '\n'
    ensures r.Parsed? ==> r == OptModel(s[1..])
  {
    match Newline(s)
    case Failed => Failed
    case Parsed(_, rest) => OptModel(rest)
  }

  /** `Transition::parse`: a step `uint`, a newline, and an optional model. */
  function ParseTransition(s: string): (r: ParseResult<Transition>)
    ensures r.Parsed? <==> Uint(s).Parsed? && StepBody(Uint(s).rest).Parsed?
    ensures r.Parsed? ==>
              && r.value.step == Uint(s).value
              && r.value.step < U64_LIMIT
              && IsProperSuffix(r.rest, s)
              && ParseAssignment(r.rest).Failed?
  {
    match Uint(s)
    case Failed => Failed
    case Parsed(step, afterStep) =>
      match StepBody(afterStep)
      case Failed => Failed
      case Parsed(model, rest) =>
        ConsumedPrefix("\n", afterStep[1..]);
        assert afterStep == "\n" + afterStep[1..];
        SuffixTransitive(rest, afterStep[1..], afterStep);
        SuffixTransitive(rest, afterStep, s);
        Parsed(Transition(step, model), rest)
  }

  /** `preceded(tag(prefix), Transition::parse)`. */
  function ParsePart(s: string, prefix: char): (r: ParseResult<Transition>)
    ensures r.Parsed? ==> |s| > 0 && s[0] == prefix && r == ParseTransition(s[1..])
    ensures r.Parsed? ==> IsProperSuffix(r.rest, s)
  {
    match Tag(s, [prefix])
    case Failed => Failed
    case Parsed(_, afterPrefix) =>
      match ParseTransition(afterPrefix)
      case Failed => Failed
      case Parsed(t, rest) =>
        ConsumedPrefix([prefix], afterPrefix);
        SuffixTransitive(rest, afterPrefix, s);
        Parsed(t, rest)
  }

  /** `opt(preceded(tag("#"), Transition::parse))`: the state part, if one
      parses here; never fails. */
  function OptStatePart(s: string): (r: ParseResult<Option<Transition>>)
    ensures r.Parsed? && IsSuffix(r.rest, s)
    ensures r.value.Some? ==> |s| > 0 && s[0] == '#'
    ensures r.value.None? ==> r.rest == s
  {
    match ParsePart(s, '#')
    case Parsed(t, rest) => Parsed(Some(t), rest)
    case Failed => Parsed(None, s)
  }

  /** `WitnessFrame::parse`: an optional `#` state transition, then the
      mandatory `@` input transition. */
  function ParseFrame(s: string): (r: ParseResult<Frame>)
    ensures r.Parsed? ==> |s| > 0 && (r.value.statePart.Some? <==> s[0] == '#')
    ensures r.Parsed? ==> IsProperSuffix(r.rest, s)
  {
    var state := OptStatePart(s);
    match ParsePart(state.rest, '@')
    case Failed => Failed
    case Parsed(input, rest) =>
      SuffixTransitive(rest, state.rest, s);
      Parsed(Frame(state.value, input), rest)
  }

  /** A frame needs its `@` input part: text without `@` is no frame. */
  lemma FrameNeedsInputPart(s: string)
    requires '@' !in s
    ensures ParseFrame(s).Failed?
  {
  }

  /** `many0(WitnessFrame::parse)`; never fails. */
  function FramesFrom(s: string): (r: ParseResult<seq<Frame>>)
    ensures r.Parsed? && IsSuffix(r.rest, s) && ParseFrame(r.rest).Failed?
    decreases |s|
  {
    match ParseFrame(s)
    case Failed => Parsed([], s)
    case Parsed(f, afterFrame) =>
      var more := FramesFrom(afterFrame);
      SuffixTransitive(more.rest, afterFrame, s);
      Parsed([f] + more.value, more.rest)
  }

  /** `WitnessFrame::parse_multi`: one or more frames, in textual order. */
  function ParseFrames(s: string): (r: ParseResult<seq<Frame>>)
    ensures r.Parsed? <==> ParseFrame(s).Parsed?
    ensures r.Parsed? ==>
              && |r.value| >= 1
              && r.value[0] == ParseFrame(s).value
              && IsProperSuffix(r.rest, s)
              && ParseFrame(r.rest).Failed?
  {
    match ParseFrame(s)
    case Failed => Failed
    case Parsed(f, afterFrame) =>
      var more := FramesFrom(afterFrame);
      SuffixTransitive(more.rest, afterFrame, s);
      Parsed([f] + more.value, more.rest)
  }

  /** `tag(".")` and `opt(newline)`: the dot and at most one newline. */
  function Terminator(s: string): (r: ParseResult<()>)
    ensures r.Parsed? ==> IsProperSuffix(r.rest, s)
  {
    match Tag(s, ".")
    case Failed => Failed
    case Parsed(_, afterDot) =>
      ConsumedPrefix(".", afterDot);
      match Newline(afterDot)
      case Parsed(_, rest) =>
        ConsumedPrefix("\n", rest);
        SuffixTransitive(rest, afterDot, s);
        Parsed((), rest)
      case Failed => Parsed((), afterDot)
  }

  /** The terminator is a `.` and swallows exactly one following newline, if any. */
  lemma TerminatorConsumes(s: string)
    ensures Terminator(s).Parsed? <==> |s| > 0 && s[0] == '.'
    ensures Terminator(s).Parsed? ==>
              Terminator(s).rest == if |s| > 1 && s[1] == '\n' then s[2..] else s[1..]
  {
  }

  /** The frames and the terminator after them. */
  function FramesAndEnd(s: string): (r: ParseResult<seq<Frame>>)
    ensures r.Parsed? ==> |r.value| >= 1 && IsProperSuffix(r.rest, s)
  {
    var frames := ParseFrames(s);
    if frames.Failed? then Failed
    else
      var end := Terminator(frames.rest);
      if end.Failed? then Failed
      else
        SuffixTransitive(end.rest, frames.rest, s);
        Parsed(frames.value, end.rest)
  }

  /** `WitnessFormat::parse`: the header, one or more frames, `.` and an
      optional newline. */
  function ParseWitnessFormat(s: string): (r: ParseResult<WitnessFormat>)
    ensures r.Parsed? ==> 4 <= |s| && s[..4] == "sat\n"
    ensures r.Parsed? ==>
              && |r.value.header.props| >= 1
              && |r.value.frames| >= 1
              && IsProperSuffix(r.rest, s)
  {
    var header := ParseHeader(s);
    if header.Failed? then Failed
    else
      var frames := FramesAndEnd(header.rest);
      if frames.Failed? then Failed
      else
        SuffixTransitive(frames.rest, header.rest, s);
        Parsed(WitnessFormat(header.value, frames.value), frames.rest)
  }

  // ---------------------------------------------------------------------------
  // Printing witnesses, and reading them back

  /** A header prop the syntax expresses: a `u64` ordinal and, as the parser
      produces, no attached detail. */
  predicate PropEncodable(p: Prop)
  {
    p.idx < U64_LIMIT && p.property.None?
  }

  predicate TransitionEncodable(t: Transition)
  {
    && t.step < U64_LIMIT
    && forall i | 0 <= i < |t.model.assignments| :: Encodable(t.model.assignments[i])
  }

  predicate FrameEncodable(f: Frame)
  {
    && (f.statePart.Some? ==> TransitionEncodable(f.statePart.value))
    && TransitionEncodable(f.inputPart)
  }

  /** A witness the syntax expresses: at least one prop and one frame, every
      part printable, and a `u64` declaration id for its assignment lines. */
  predicate WitnessEncodable(id: nat, w: WitnessFormat)
  {
    && id < U64_LIMIT
    && |w.header.props| >= 1
    && (forall i | 0 <= i < |w.header.props| :: PropEncodable(w.header.props[i]))
    && |w.frames| >= 1
    && forall i | 0 <= i < |w.frames| :: FrameEncodable(w.frames[i])
  }

  /** `b<idx>` or `j<idx>`, then `tail`. */
  function PropThen(p: Prop, tail: string): string
  {
    [KindLetter(p.kind)] + (NatToString(p.idx) + tail)
  }

  /** The props juxtaposed, then `tail`. */
  function PropsThen(props: seq<Prop>, tail: string): string
  {
    if |props| == 0 then tail else PropThen(props[0], PropsThen(props[1..], tail))
  }

  function HeaderThen(h: Header, tail: string): string
  {
    "sat\n" + PropsThen(h.props, "\n" + tail)
  }

  /** The assignment lines, all under declaration id `id`, then `tail`. */
  function AssignmentsThen(id: nat, assignments: seq<Assignment>, tail: string): string
  {
    if |assignments| == 0 then tail
    else AssignmentLineThen(id, assignments[0], AssignmentsThen(id, assignments[1..], tail))
  }

  /** The step line and the model's lines, then `tail`. */
  function TransitionThen(id: nat, t: Transition, tail: string): string
  {
    NatToString(t.step) + ("\n" + AssignmentsThen(id, t.model.assignments, tail))
  }

  function FrameThen(id: nat, f: Frame, tail: string): string
  {
    match f.statePart
    case None => "@" + TransitionThen(id, f.inputPart, tail)
    case Some(state) => "#" + TransitionThen(id, state, "@" + TransitionThen(id, f.inputPart, tail))
  }

  function FramesThen(id: nat, frames: seq<Frame>, tail: string): string
  {
    if |frames| == 0 then tail else FrameThen(id, frames[0], FramesThen(id, frames[1..], tail))
  }

  /** The witness text followed by `rest`: header, frames, `.` and a newline. */
  function WitnessThen(id: nat, w: WitnessFormat, rest: string): string
  {
    HeaderThen(w.header, FramesThen(id, w.frames, "." + ("\n" + rest)))
  }

  /** A prop is its kind letter followed by its ordinal. */
  lemma PropOf(s: string, kind: PropKind, afterKind: string, idx: nat, rest: string)
    requires KindTag(s) == Parsed(kind, afterKind) && Uint(afterKind) == Parsed(idx, rest)
    ensures ParseProp(s) == Parsed(Prop(kind, idx, None), rest)
  {
  }

  lemma PropReads(p: Prop, tail: string)
    requires PropEncodable(p) && NotLedBy(tail, IsDigit)
    ensures ParseProp(PropThen(p, tail)) == Parsed(p, tail)
  {
    var s := PropThen(p, tail);
    var digits := NatToString(p.idx) + tail;
    assert KindTag(s) == Parsed(p.kind, digits) by {
      assert s[0] == KindLetter(p.kind) && s[1..] == digits;
    }
    assert Uint(digits) == Parsed(p.idx, tail) by {
      UintRoundTrip(p.idx, tail);
    }
    PropOf(s, p.kind, digits, p.idx, tail);
  }


  /** Text after the props that starts with a newline ends the list. */
  lemma PropsEndAtNewline(tail: string)
    requires |tail| > 0 && tail[0] == '\n'
    ensures PropsFrom(tail) == Parsed([], tail)
  {
    ParsePropReadsLetterAndUint(tail);
  }

  /** Printed props start with a kind letter, or are the tail itself. */
  lemma PropsThenLead(props: seq<Prop>, tail: string)
    requires |tail| > 0 && tail[0] == '\n'
    ensures NotLedBy(PropsThen(props, tail), IsDigit)
  {
    if |props| > 0 {
      assert PropsThen(props, tail)[0] == KindLetter(props[0].kind);
    }
  }

  lemma {:induction false} PropsFromReads(props: seq<Prop>, tail: string)
    requires forall i | 0 <= i < |props| :: PropEncodable(props[i])
    requires |tail| > 0 && tail[0] == '\n'
    ensures PropsFrom(PropsThen(props, tail)) == Parsed(props, tail)
    decreases |props|
  {
    if |props| == 0 {
      PropsEndAtNewline(tail);
    } else {
      var more := PropsThen(props[1..], tail);
      assert PropsFrom(more) == Parsed(props[1..], tail) by {
        PropsFromReads(props[1..], tail);
      }
      assert ParseProp(PropThen(props[0], more)) == Parsed(props[0], more) by {
        PropsThenLead(props[1..], tail);
        PropReads(props[0], more);
      }
      HeadTail(props);
      var s := PropThen(props[0], more);
      assert PropsFrom(s) == Parsed([props[0]] + props[1..], tail);
    }
  }

  lemma ParsePropsReads(props: seq<Prop>, tail: string)
    requires |props| >= 1 && forall i | 0 <= i < |props| :: PropEncodable(props[i])
    requires |tail| > 0 && tail[0] == '\n'
    ensures ParseProps(PropsThen(props, tail)) == Parsed(props, tail)
  {
    var more := PropsThen(props[1..], tail);
    assert PropsFrom(more) == Parsed(props[1..], tail) by {
      PropsFromReads(props[1..], tail);
    }
    assert ParseProp(PropsThen(props, tail)) == Parsed(props[0], more) by {
      PropsThenLead(props[1..], tail);
      PropReads(props[0], more);
    }
    HeadTail(props);
  }

  lemma HeaderReads(h: Header, rest: string)
    requires |h.props| >= 1 && forall i | 0 <= i < |h.props| :: PropEncodable(h.props[i])
    ensures ParseHeader(HeaderThen(h, rest)) == Parsed(h, rest)
  {
    var props := PropsThen(h.props, "\n" + rest);
    assert PropsLine(props) == Parsed(h.props, rest) by {
      ParsePropsReads(h.props, "\n" + rest);
    }
    TagReads("sat\n", props);
  }

  lemma {:induction false} ModelItemsReads(id: nat, assignments: seq<Assignment>, tail: string)
    requires id < U64_LIMIT
    requires forall i | 0 <= i < |assignments| :: Encodable(assignments[i])
    requires NotLedBy(tail, IsDigit)
    ensures ModelItems(AssignmentsThen(id, assignments, tail)) == Parsed(assignments, tail)
    decreases |assignments|
  {
    if |assignments| == 0 {
      assert ModelItem(tail).Failed?;
    } else {
      var more := AssignmentsThen(id, assignments[1..], tail);
      assert ModelItems(more) == Parsed(assignments[1..], tail) by {
        ModelItemsReads(id, assignments[1..], tail);
      }
      assert ModelItem(AssignmentsThen(id, assignments, tail)) == Parsed(assignments[0], more) by {
        ParseAssignmentReads(id, assignments[0], more);
      }
      HeadTail(assignments);
    }
  }

  lemma OptModelReads(id: nat, m: Model, tail: string)
    requires id < U64_LIMIT
    requires forall i | 0 <= i < |m.assignments| :: Encodable(m.assignments[i])
    requires NotLedBy(tail, IsDigit)
    ensures OptModel(AssignmentsThen(id, m.assignments, tail)) == Parsed(m, tail)
  {
    var assignments := m.assignments;
    if |assignments| == 0 {
      assert ParseModel(tail).Failed?;
    } else {
      var more := AssignmentsThen(id, assignments[1..], tail);
      assert ModelItems(more) == Parsed(assignments[1..], tail) by {
        ModelItemsReads(id, assignments[1..], tail);
      }
      assert ModelItem(AssignmentsThen(id, assignments, tail)) == Parsed(assignments[0], more) by {
        ParseAssignmentReads(id, assignments[0], more);
      }
      HeadTail(assignments);
    }
  }

  lemma TransitionReads(id: nat, t: Transition, tail: string)
    requires id < U64_LIMIT && TransitionEncodable(t)
    requires NotLedBy(tail, IsDigit)
    ensures ParseTransition(TransitionThen(id, t, tail)) == Parsed(t, tail)
  {
    var lines := AssignmentsThen(id, t.model.assignments, tail);
    assert Uint(TransitionThen(id, t, tail)) == Parsed(t.step, "\n" + lines) by {
      UintRoundTrip(t.step, "\n" + lines);
    }
    assert StepBody("\n" + lines) == Parsed(t.model, tail) by {
      assert ("\n" + lines)[1..] == lines;
      OptModelReads(id, t.model, tail);
    }
  }

  lemma PartReads(id: nat, prefix: char, t: Transition, tail: string)
    requires id < U64_LIMIT && TransitionEncodable(t)
    requires NotLedBy(tail, IsDigit)
    ensures ParsePart([prefix] + TransitionThen(id, t, tail), prefix) == Parsed(t, tail)
  {
    TagReads([prefix], TransitionThen(id, t, tail));
    TransitionReads(id, t, tail);
  }

  /** A frame starts with the `#` of its state part or the `@` of its input part. */
  lemma FrameLead(s: string)
    requires ParseFrame(s).Parsed?
    ensures s[0] == '#' || s[0] == '@'
  {
  }

  lemma FrameReads(id: nat, f: Frame, tail: string)
    requires id < U64_LIMIT && FrameEncodable(f)
    requires NotLedBy(tail, IsDigit)
    ensures ParseFrame(FrameThen(id, f, tail)) == Parsed(f, tail)
  {
    var input := "@" + TransitionThen(id, f.inputPart, tail);
    assert ParsePart(input, '@') == Parsed(f.inputPart, tail) by {
      PartReads(id, '@', f.inputPart, tail);
    }
    match f.statePart
    case None =>
      assert OptStatePart(input) == Parsed(None, input);
    case Some(state) =>
      assert OptStatePart(FrameThen(id, f, tail)) == Parsed(Some(state), input) by {
        PartReads(id, '#', state, input);
      }
  }

  /** Printed frames start with `#` or `@`, or are the tail itself. */
  lemma FramesThenLead(id: nat, frames: seq<Frame>, tail: string)
    requires |tail| > 0 && tail[0] == '.'
    ensures |FramesThen(id, frames, tail)| > 0
    ensures FramesThen(id, frames, tail)[0] in {'#', '@', '.'}
  {
    if |frames| > 0 {
      match frames[0].statePart
      case None =>
        assert FramesThen(id, frames, tail)[0] == '@';
      case Some(_) =>
        assert FramesThen(id, frames, tail)[0] == '#';
    }
  }

  lemma {:induction false} FramesFromReads(id: nat, frames: seq<Frame>, tail: string)
    requires id < U64_LIMIT
    requires forall i | 0 <= i < |frames| :: FrameEncodable(frames[i])
    requires |tail| > 0 && tail[0] == '.'
    ensures FramesFrom(FramesThen(id, frames, tail)) == Parsed(frames, tail)
    decreases |frames|
  {
    if |frames| == 0 {
      assert ParseFrame(tail).Failed? by {
        if ParseFrame(tail).Parsed? {
          FrameLead(tail);
        }
      }
    } else {
      var more := FramesThen(id, frames[1..], tail);
      assert FramesFrom(more) == Parsed(frames[1..], tail) by {
        FramesFromReads(id, frames[1..], tail);
      }
      assert ParseFrame(FramesThen(id, frames, tail)) == Parsed(frames[0], more) by {
        FramesThenLead(id, frames[1..], tail);
        FrameReads(id, frames[0], more);
      }
      HeadTail(frames);
    }
  }

  lemma ParseFramesReads(id: nat, frames: seq<Frame>, tail: string)
    requires id < U64_LIMIT && |frames| >= 1
    requires forall i | 0 <= i < |frames| :: FrameEncodable(frames[i])
    requires |tail| > 0 && tail[0] == '.'
    ensures ParseFrames(FramesThen(id, frames, tail)) == Parsed(frames, tail)
  {
    var more := FramesThen(id, frames[1..], tail);
    assert FramesFrom(more) == Parsed(frames[1..], tail) by {
      FramesFromReads(id, frames[1..], tail);
    }
    assert ParseFrame(FramesThen(id, frames, tail)) == Parsed(frames[0], more) by {
      FramesThenLead(id, frames[1..], tail);
      FrameReads(id, frames[0], more);
    }
    HeadTail(frames);
  }

  lemma TerminatorReads(rest: string)
    ensures Terminator("." + ("\n" + rest)) == Parsed((), rest)
  {
    var tail := "." + ("\n" + rest);
    TerminatorConsumes(tail);
    assert tail[2..] == rest;
  }

  lemma FramesAndEndReads(id: nat, frames: seq<Frame>, rest: string)
    requires id < U64_LIMIT && |frames| >= 1
    requires forall i | 0 <= i < |frames| :: FrameEncodable(frames[i])
    ensures FramesAndEnd(FramesThen(id, frames, "." + ("\n" + rest))) == Parsed(frames, rest)
  {
    ParseFramesReads(id, frames, "." + ("\n" + rest));
    TerminatorReads(rest);
  }

  /** The witness parser is the header parser followed by the frames one. */
  lemma WitnessOfParts(s: string, h: Header, body: string, frames: seq<Frame>, rest: string)
    requires ParseHeader(s) == Parsed(h, body) && FramesAndEnd(body) == Parsed(frames, rest)
    ensures ParseWitnessFormat(s) == Parsed(WitnessFormat(h, frames), rest)
  {
  }

  /** Reading a printed witness gives it back and leaves exactly the text
      that followed it. */
  lemma WitnessReads(id: nat, w: WitnessFormat, rest: string)
    requires WitnessEncodable(id, w)
    ensures ParseWitnessFormat(WitnessThen(id, w, rest)) == Parsed(w, rest)
  {
    var body := FramesThen(id, w.frames, "." + ("\n" + rest));
    HeaderReads(w.header, body);
    FramesAndEndReads(id, w.frames, rest);
    WitnessOfParts(WitnessThen(id, w, rest), w.header, body, w.frames, rest);
  }

  /** Nothing may separate the props: a prop followed by a space leaves
      the newline parser facing that space, so the header fails. */
  lemma HeaderSpaceAfterPropFails(p: Prop, tail: string)
    requires PropEncodable(p)
    ensures ParseHeader("sat\n" + PropThen(p, " " + tail)).Failed?
  {
    var after := " " + tail;
    var afterSat := PropThen(p, after);
    assert PropsLine(afterSat).Failed? by {
      SpaceStopsProps(tail);
      PropReads(p, after);
      assert ParseProps(afterSat).Parsed? && ParseProps(afterSat).rest == after;
    }
    TagReads("sat\n", afterSat);
  }

  /** Text led by a space holds no prop and no newline. */
  lemma SpaceStopsProps(tail: string)
    ensures ParseProp(" " + tail).Failed?
    ensures PropsFrom(" " + tail) == Parsed([], " " + tail)
    ensures Newline(" " + tail).Failed?
  {
    assert (" " + tail)[0] == ' ';
  }

  /** A blank line after the header leaves no frame to read. */
  lemma HeaderBlankLineFails(h: Header, body: string)
    requires |h.props| >= 1 && forall i | 0 <= i < |h.props| :: PropEncodable(h.props[i])
    ensures ParseWitnessFormat(HeaderThen(h, "\n" + body)).Failed?
  {
    var after := "\n" + body;
    assert FramesAndEnd(after).Failed? by {
      if ParseFrame(after).Parsed? {
        FrameLead(after);
      }
    }
    HeaderReads(h, after);
  }
}
