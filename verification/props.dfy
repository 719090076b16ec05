/** Witness properties (`btor/witness_format.rs`, `btor/btor2.rs`): their kinds,
    the detail a BTOR2 model can attach to them, and their textual rendering. */
module Props {
  import opened Text
  import opened Wrappers

  /** `bad` holds a violation when satisfied, `justice` when not. */
  datatype PropKind = Bad | Justice

  /** The BTOR2 keyword of a kind. */
  function Keyword(kind: PropKind): string
  {
    match kind
    case Bad => "bad"
    case Justice => "justice"
  }

  /** `PropKind::from_str`: exactly the two keywords are kinds; anything else
      is refused with a message quoting the input. */
  function PropKindFromStr(s: string): (r: Result<PropKind, string>)
    ensures r.Ok? <==> s == "bad" || s == "justice"
    ensures r.Ok? ==> Keyword(r.value) == s
    ensures r.Err? ==> r.error == "Unknown prop kind: '" + s + "'"
  {
    if s == "bad" then Ok(Bad)
    else if s == "justice" then Ok(Justice)
    else Err("Unknown prop kind: '" + s + "'")
  }

  /** Every kind's keyword reads back as that kind. */
  lemma PropKindFromStrKeyword(kind: PropKind)
    ensures PropKindFromStr(Keyword(kind)) == Ok(kind)
  {
  }

  /** `Property` of `btor2.rs`: the defining node id, the kind, and the
      optional name the model gives the property. */
  datatype Property = Property(node: nat, kind: PropKind, name: Option<string>)

  /** `Prop`: a violated property as the witness header lists it, `idx` being
      its ordinal among the model's properties. */
  datatype Prop = Prop(kind: PropKind, idx: nat, property: Option<Property>)

  /** The capitalised kind as `Display` writes it. */
  function Label(kind: PropKind): (r: string)
    ensures |r| > 0 && ' ' !in r && (r[0] == 'B' <==> kind == Bad)
  {
    match kind
    case Bad => "Bad"
    case Justice => "Justice"
  }

  /** `Display for Prop`: `Bad at {idx}` or `Justice at {idx}`. */
  function Display(p: Prop): (r: string)
    ensures |r| > |Label(p.kind)| + 4
    ensures r[..|Label(p.kind)| + 4] == Label(p.kind) + " at "
    ensures r[|Label(p.kind)| + 4..] == NatToString(p.idx)
  {
    Label(p.kind) + " at " + NatToString(p.idx)
  }

  /** The rendering determines the kind and the ordinal. */
  lemma DisplayInjective(p: Prop, q: Prop)
    requires Display(p) == Display(q)
    ensures p.kind == q.kind && p.idx == q.idx
  {
    assert Display(p)[0] == Label(p.kind)[0];
    assert Display(q)[0] == Label(q.kind)[0];
    NatToStringInjective(p.idx, q.idx);
  }

  /** The separator `PropVec::formatted_string` writes before the node id. */
  const ListNidLabel: string := " with nid "

  /** The separator the report summary writes before the node id. */
  const ReportNidLabel: string := " with nid: "

  /** What both property lists write between entries. */
  const Separator: string := ", "

  /** A prop is described with its name exactly when a model property with a
      name is attached to it. */
  predicate Named(p: Prop)
  {
    p.property.Some? && p.property.value.name.Some?
  }

  /** One entry of a property list: the display text, followed for a named
      property by `named '<name>'`, the nid label and the node id. */
  function Describe(p: Prop, nidLabel: string): (r: string)
    ensures |Display(p)| <= |r| && r[..|Display(p)|] == Display(p)
    ensures r == Display(p) <==> !Named(p)
    ensures Named(p) ==>
              r[|Display(p)|..] == " named '" + p.property.value.name.value + "'" + nidLabel
                                   + NatToString(p.property.value.node)
  {
    if Named(p) then
      var property := p.property.value;
      var detail := " named '" + property.name.value + "'" + nidLabel + NatToString(property.node);
      assert (Display(p) + detail)[..|Display(p)|] == Display(p);
      assert (Display(p) + detail)[|Display(p)|..] == detail;
      Display(p) + detail
    else Display(p)
  }

  function DescribeAll(props: seq<Prop>, nidLabel: string): (r: seq<string>)
    ensures |r| == |props|
    ensures forall i | 0 <= i < |props| :: r[i] == Describe(props[i], nidLabel)
  {
    seq(|props|, i requires 0 <= i < |props| => Describe(props[i], nidLabel))
  }

  /** `PropVec::formatted_string`: the entries joined by `, `. */
  function FormattedString(props: seq<Prop>): (r: string)
    ensures |props| == 0 <==> r == ""
    ensures |props| > 0 ==>
              |Describe(props[0], ListNidLabel)| <= |r|
              && r[..|Describe(props[0], ListNidLabel)|] == Describe(props[0], ListNidLabel)
  {
    var parts := DescribeAll(props, ListNidLabel);
    JoinStartsWithFirst(parts, Separator);
    Join(parts, Separator)
  }

  /** Without attached names the list is just the displays joined. */
  lemma FormattedStringUnnamed(props: seq<Prop>)
    requires forall i | 0 <= i < |props| :: !Named(props[i])
    ensures FormattedString(props) == Join(seq(|props|, i requires 0 <= i < |props| => Display(props[i])), Separator)
  {
    assert DescribeAll(props, ListNidLabel) == seq(|props|, i requires 0 <= i < |props| => Display(props[i]));
  }

  /** Entry `i` of the list is prop `i`'s description, at its offset after
      `, `, and the last entry ends the list. */
  lemma FormattedStringEntry(props: seq<Prop>, i: nat)
    requires i < |props|
    ensures var r := FormattedString(props);
            var entry := DescribeAll(props, ListNidLabel)[i];
            var at := JoinOffset(DescribeAll(props, ListNidLabel), Separator, i);
            && at + |entry| <= |r|
            && r[at..at + |entry|] == entry
            && (i > 0 ==> |Separator| <= at && r[at - |Separator|..at] == Separator)
            && (i == |props| - 1 ==> |r| == at + |entry|)
  {
    FormattedStringIsList(props);
    JoinPartAt(DescribeAll(props, ListNidLabel), Separator, i);
  }

  lemma FormattedStringIsList(props: seq<Prop>)
    ensures FormattedString(props) == Join(DescribeAll(props, ListNidLabel), Separator)
  {
  }

  /** Entry `i` of a list after any head, under any nid label. */
  lemma EntryAt(head: string, props: seq<Prop>, nidLabel: string, i: nat)
    requires i < |props|
    ensures var r := head + Join(DescribeAll(props, nidLabel), Separator);
            var entry := DescribeAll(props, nidLabel)[i];
            var at := |head| + JoinOffset(DescribeAll(props, nidLabel), Separator, i);
            && at + |entry| <= |r|
            && r[at..at + |entry|] == entry
            && (i > 0 ==> |head| + |Separator| <= at && r[at - |Separator|..at] == Separator)
            && (i == |props| - 1 ==> |r| == at + |entry|)
  {
    PrefixedJoinPartAt(head, DescribeAll(props, nidLabel), Separator, i);
  }

  /** A named prop's entry under one nid label becomes its entry under
      another by swapping just the label; the name and node stay. */
  lemma DescribeSwapsLabel(p: Prop, a: string, b: string)
    requires Named(p)
    ensures var k := |Display(p)| + |" named '"| + |p.property.value.name.value| + 1;
            var tail := NatToString(p.property.value.node);
            && Describe(p, a)[..k] == Describe(p, b)[..k]
            && Describe(p, a) == Describe(p, a)[..k] + a + tail
            && Describe(p, b) == Describe(p, b)[..k] + b + tail
  {
    var property := p.property.value;
    var pre := Display(p) + " named '" + property.name.value + "'";
    var tail := NatToString(property.node);
    DescribeNamed(p, a);
    DescribeNamed(p, b);
    SwapMiddle(pre, a, b, tail);
  }

  /** A named prop's entry: the display, the name in quotes, the label and
      the node. */
  lemma DescribeNamed(p: Prop, nidLabel: string)
    requires Named(p)
    ensures Describe(p, nidLabel) ==
              Display(p) + " named '" + p.property.value.name.value + "'" + nidLabel
              + NatToString(p.property.value.node)
  {
  }

  /** Two strings that differ only in their middle share their head. */
  lemma SwapMiddle(pre: string, a: string, b: string, tail: string)
    ensures (pre + a + tail)[..|pre|] == pre && (pre + b + tail)[..|pre|] == pre
  {
  }

}
