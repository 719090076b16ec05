/** The top-level entry of `btor/mod.rs`: reading a whole witness text, the
    header summary, and attaching the property details a BTOR2 model names. */
module Witnesses {
  import opened Text
  import opened Wrappers
  import opened Helpers
  import opened Props
  import opened Grammar

  /** `Witness`: a parsed witness. */
  datatype Witness = Witness(inner: WitnessFormat)

  /** Why `Witness::from_str` refuses its input: nothing to read, a grammar
      failure (nom's error payload is not modelled), or text left after a
      complete witness. */
  datatype WitnessError = EmptyInput | Malformed | Incomplete(remaining: string)

  /** The message `from_str` returns for each error; an incomplete read
      quotes the unread text verbatim at the end. */
  function Message(e: WitnessError): (r: string)
    ensures |r| > 0
    ensures e.Incomplete? ==> |e.remaining| < |r| && r[|r| - |e.remaining|..] == e.remaining
  {
    match e
    case EmptyInput => "No satisfiable property found."
    case Malformed => "Parsing Error: "
    case Incomplete(remaining) => "Could not parse full input. Remaining: " + remaining
  }

  /** Different errors have different messages; in particular the empty input
      is told apart from every grammar failure. */
  lemma MessageInjective(e1: WitnessError, e2: WitnessError)
    requires Message(e1) == Message(e2)
    ensures e1 == e2
  {
    assert Message(e1)[0] == Message(e2)[0];
    if e1.Incomplete? && e2.Incomplete? {
      var n := |"Could not parse full input. Remaining: "|;
      assert e1.remaining == Message(e1)[n..];
      assert e2.remaining == Message(e2)[n..];
    }
  }

  /** `opt(many1(comment))` in front of the witness: as `comment` never
      matches, nothing is skipped. */
  function SkipComments(s: string): (r: string)
    ensures r == s
  {
    match Comment(s)
    case Failed => s
    case Parsed(_, rest) => assert false; rest
  }

  /** `Witness::from_str`: empty input is refused first; otherwise the whole
      text must be one witness, with nothing after its terminator. */
  function FromStr(s: string): (r: Result<Witness, WitnessError>)
    ensures r == Err(EmptyInput) <==> s == ""
    ensures r.Ok? <==> s != "" && ParseWitnessFormat(s).Parsed? && ParseWitnessFormat(s).rest == ""
    ensures r.Ok? ==> r.value.inner == ParseWitnessFormat(s).value
    ensures r.Ok? ==> |r.value.inner.header.props| >= 1 && |r.value.inner.frames| >= 1
    ensures r.Err? && r.error.Incomplete? ==>
              ParseWitnessFormat(s).Parsed? && r.error.remaining == ParseWitnessFormat(s).rest != ""
    ensures s != "" && ParseWitnessFormat(s).Failed? ==> r == Err(Malformed)
    ensures s != "" && ParseWitnessFormat(s).Parsed? && ParseWitnessFormat(s).rest != "" ==>
              r == Err(Incomplete(ParseWitnessFormat(s).rest))
  {
    if s == "" then Err(EmptyInput)
    else
      match ParseWitnessFormat(SkipComments(s))
      case Failed => Err(Malformed)
      case Parsed(w, rest) =>
        if rest != "" then Err(Incomplete(rest)) else Ok(Witness(w))
  }

  /** A printed witness reads back as itself. */
  lemma FromStrReads(id: nat, w: WitnessFormat)
    requires WitnessEncodable(id, w)
    ensures FromStr(WitnessThen(id, w, "")) == Ok(Witness(w))
  {
    WitnessReads(id, w, "");
  }

  /** Text after a complete witness is refused, and reported verbatim. */
  lemma FromStrTrailing(id: nat, w: WitnessFormat, junk: string)
    requires WitnessEncodable(id, w) && junk != ""
    ensures FromStr(WitnessThen(id, w, junk)) == Err(Incomplete(junk))
  {
    WitnessReads(id, w, junk);
  }

  /** A frame must follow the header's line directly: a blank line between
      them makes the whole text a grammar failure. */
  lemma BlankLineAfterHeaderRefused(h: Header, body: string)
    requires |h.props| >= 1 && forall i | 0 <= i < |h.props| :: PropEncodable(h.props[i])
    ensures FromStr(HeaderThen(h, "\n" + body)) == Err(Malformed)
  {
    HeaderBlankLineFails(h, body);
  }

  /** `props_in_steps`: the header props and the number of frames. */
  function PropsInSteps(w: Witness): (r: (seq<Prop>, nat))
    ensures r.0 == w.inner.header.props && r.1 == |w.inner.frames|
  {
    (w.inner.header.props, |w.inner.frames|)
  }

  /** Whatever `from_str` accepts names at least one prop and lasts at least
      one step. */
  lemma PropsInStepsOfRead(s: string)
    requires FromStr(s).Ok?
    ensures |PropsInSteps(FromStr(s).value).0| >= 1 && PropsInSteps(FromStr(s).value).1 >= 1
  {
  }

  /** For a printed witness these are its own props, in order, and its own
      frame count. */
  lemma PropsInStepsOfPrinted(id: nat, w: WitnessFormat)
    requires WitnessEncodable(id, w)
    ensures FromStr(WitnessThen(id, w, "")).Ok?
    ensures PropsInSteps(FromStr(WitnessThen(id, w, "")).value) == (w.header.props, |w.frames|)
  {
    FromStrReads(id, w);
  }

  // ---------------------------------------------------------------------------
  // Attaching property details

  /** No earlier prop in `props` has the ordinal of prop `i`. */
  predicate FirstWithIdx(props: seq<Prop>, i: nat)
    requires i < |props|
  {
    forall j | 0 <= j < i :: props[j].idx != props[i].idx
  }

  /** The loop of `add_prop_names`: each prop whose ordinal is still a key
      takes that detail and removes the key. */
  function AttachNames(props: seq<Prop>, details: map<nat, Property>): (r: seq<Prop>)
    ensures |r| == |props|
    decreases |props|
  {
    if |props| == 0 then []
    else
      var p := props[0];
      if p.idx in details then
        [p.(property := Some(details[p.idx]))] + AttachNames(props[1..], details - {p.idx})
      else [p] + AttachNames(props[1..], details)
  }

  /** What the loop leaves at each position: the same kind and ordinal, and
      the detail for that ordinal exactly when it is the first prop with it;
      a later prop with a repeated ordinal keeps what it had. */
  lemma {:induction false} AttachNamesAt(props: seq<Prop>, details: map<nat, Property>, i: nat)
    requires i < |props|
    ensures AttachNames(props, details)[i].kind == props[i].kind
    ensures AttachNames(props, details)[i].idx == props[i].idx
    ensures AttachNames(props, details)[i].property ==
              if props[i].idx in details && FirstWithIdx(props, i) then Some(details[props[i].idx])
              else props[i].property
    decreases |props|
  {
    if i > 0 {
      var p := props[0];
      var rest := if p.idx in details then details - {p.idx} else details;
      AttachNamesAt(props[1..], rest, i - 1);
      assert AttachNames(props, details)[i] == AttachNames(props[1..], rest)[i - 1];
      if props[i].idx != p.idx {
        assert FirstWithIdx(props, i) == FirstWithIdx(props[1..], i - 1) by {
          forall j | 0 <= j < i - 1
            ensures props[1..][j].idx == props[j + 1].idx
          {
          }
        }
      } else {
        assert !FirstWithIdx(props, i) by {
          assert props[0].idx == props[i].idx;
        }
      }
    }
  }

  /** `add_prop_names`: the header props with the details attached; nothing
      else of the witness changes. Each prop keeps its kind and ordinal, and
      takes the detail for its ordinal exactly when it is the first prop
      with that ordinal. */
  function AddPropNames(w: Witness, details: map<nat, Property>): (r: Witness)
    ensures r.inner.frames == w.inner.frames
    ensures |r.inner.header.props| == |w.inner.header.props|
    ensures forall i | 0 <= i < |w.inner.header.props| ::
              var p := w.inner.header.props[i];
              && r.inner.header.props[i].kind == p.kind
              && r.inner.header.props[i].idx == p.idx
              && r.inner.header.props[i].property ==
                   if p.idx in details && FirstWithIdx(w.inner.header.props, i) then Some(details[p.idx])
                   else p.property
  {
    var props := w.inner.header.props;
    var named := AttachNames(props, details);
    assert forall i | 0 <= i < |props| ::
             && named[i].kind == props[i].kind
             && named[i].idx == props[i].idx
             && named[i].property ==
                  if props[i].idx in details && FirstWithIdx(props, i) then Some(details[props[i].idx])
                  else props[i].property
    by {
      forall i | 0 <= i < |props|
        ensures named[i].kind == props[i].kind && named[i].idx == props[i].idx
        ensures named[i].property ==
                  if props[i].idx in details && FirstWithIdx(props, i) then Some(details[props[i].idx])
                  else props[i].property
      {
        AttachNamesAt(props, details, i);
      }
    }
    Witness(WitnessFormat(Header(named), w.inner.frames))
  }
}
