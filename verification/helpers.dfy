/** The token recognisers of `btor/helpers.rs` plus the nom primitives they are
    built from (`tag`, `take_until`, `space0`). A parser maps its input to the
    value it recognised and the unconsumed suffix, or fails. */
module Helpers {
  import opened Text
  import opened Wrappers

  /** Outcome of a parser: the recognised value and the text after it, or a
      (recoverable) failure. nom's error payloads are not modelled. */
  datatype ParseResult<+T> = Parsed(value: T, rest: string) | Failed

  /** `tag(lit)`: succeeds iff `s` starts with `lit`, consuming exactly it. */
  function Tag(s: string, lit: string): (r: ParseResult<string>)
    ensures r.Parsed? <==> |lit| <= |s| && s[..|lit|] == lit
    ensures r.Parsed? ==> r.value == lit && s == lit + r.rest
  {
    if |lit| <= |s| && s[..|lit|] == lit then
      assert s == lit + s[|lit|..];
      Parsed(lit, s[|lit|..])
    else Failed
  }

  /** `tag(lit)` consumes `lit` from any text it begins. */
  lemma TagReads(lit: string, rest: string)
    ensures Tag(lit + rest, lit) == Parsed(lit, rest)
  {
    assert (lit + rest)[..|lit|] == lit;
    assert (lit + rest)[|lit|..] == rest;
  }

  /** `pat` occurs in `s` starting at position `j`. */
  predicate OccursAt(s: string, pat: string, j: nat)
  {
    j + |pat| <= |s| && s[j..j + |pat|] == pat
  }

  /** First position at or after `from` where `pat` occurs in `s`, if any. */
  function FindFrom(s: string, pat: string, from: nat): (r: Option<nat>)
    requires from <= |s|
    ensures r.Some? ==> from <= r.value && OccursAt(s, pat, r.value)
    ensures r.Some? ==> forall j | from <= j < r.value :: !OccursAt(s, pat, j)
    ensures r.None? ==> forall j | from <= j <= |s| :: !OccursAt(s, pat, j)
    decreases |s| - from
  {
    if OccursAt(s, pat, from) then Some(from)
    else if from == |s| then None
    else FindFrom(s, pat, from + 1)
  }

  /** `take_until(pat)` on complete input: the text before the first `pat`,
      leaving `pat` itself unconsumed; fails when `pat` does not occur. */
  function TakeUntil(s: string, pat: string): (r: ParseResult<string>)
    ensures r.Parsed? ==> s == r.value + r.rest && |pat| <= |r.rest| && r.rest[..|pat|] == pat
  {
    match FindFrom(s, pat, 0)
    case None => Failed
    case Some(i) =>
      assert s == s[..i] + s[i..];
      Parsed(s[..i], s[i..])
  }

  /** `space0`: the (possibly empty) run of spaces and tabs; never fails. */
  function Space0(s: string): (r: ParseResult<string>)
    ensures r.Parsed? && s == r.value + r.rest
    ensures forall i | 0 <= i < |r.value| :: IsSpaceOrTab(r.value[i])
    ensures NotLedBy(r.rest, IsSpaceOrTab)
  {
    var n := RunLength(s, IsSpaceOrTab);
    assert s == s[..n] + s[n..];
    Parsed(s[..n], s[n..])
  }

  /** `uint`: the maximal run of ASCII digits read in decimal, which must
      fit in a `u64` (`digit1` mapped through `str::parse`). */
  function Uint(s: string): (r: ParseResult<nat>)
    ensures NotLedBy(s, IsDigit) ==> r.Failed?
    ensures r.Parsed? ==>
              && IsProperSuffix(r.rest, s)
              && AllDigits(s[..|s| - |r.rest|])
              && r.value == ValueIn(10, s[..|s| - |r.rest|])
              && r.value < U64_LIMIT
              && NotLedBy(r.rest, IsDigit)
    ensures !NotLedBy(s, IsDigit) && r.Failed? ==>
              ValueIn(10, s[..RunLength(s, IsDigit)]) >= U64_LIMIT
  {
    var n := RunLength(s, IsDigit);
    if n == 0 then Failed
    else
      var v := ValueIn(10, s[..n]);
      if v < U64_LIMIT then Parsed(v, s[n..]) else Failed
  }

  /** `uint` reads back the decimal rendering of any `u64`, stopping at the
      first non-digit; leading zeros are the one thing rendering never emits. */
  lemma UintRoundTrip(n: nat, rest: string)
    requires n < U64_LIMIT
    requires NotLedBy(rest, IsDigit)
    ensures Uint(NatToString(n) + rest) == Parsed(n, rest)
  {
    var s := NatToString(n) + rest;
    RunLengthOfConcat(NatToString(n), rest, IsDigit);
    assert s[..|NatToString(n)|] == NatToString(n);
    assert s[|NatToString(n)|..] == rest;
  }

  /** `newline`: exactly one `'\n'`. */
  function Newline(s: string): (r: ParseResult<string>)
    ensures r.Parsed? <==> |s| > 0 && s[0] == '\n'
    ensures r.Parsed? ==> r.rest == s[1..]
  {
    Tag(s, "\n")
  }

  /** `comment`: a `;`, then everything up to the two-character marker
      backslash-`n`, then a newline. The marker is left unconsumed, so the
      newline parser always meets a backslash: no input is a comment. */
  function Comment(s: string): (r: ParseResult<()>)
    ensures r.Failed?
  {
    match Tag(s, ";")
    case Failed => Failed
    case Parsed(_, afterSemicolon) =>
      match TakeUntil(afterSemicolon, "\\n")
      case Failed => Failed
      case Parsed(_, atMarker) =>
        match Newline(atMarker)
        case Failed => Failed
        case Parsed(_, rest) => Parsed((), rest)
  }
}
