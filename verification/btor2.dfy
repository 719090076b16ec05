/** The property-name extractor of `btor/btor2.rs`: the lines of a BTOR2 model
    whose second space-separated token is `bad` or `justice` are numbered in
    order, and each such line that reads as a property contributes its node id
    and optional name under its number. */
module Btor2 {
  import opened Text
  import opened Wrappers
  import opened Props

  /** The digits `usize::from_str` reads: the text after an optional leading `+`. */
  function UnsignedDigits(s: string): string
  {
    if |s| > 0 && s[0] == '+' then s[1..] else s
  }

  /** `usize::from_str` on a 64-bit target: an optional `+`, then one or more
      decimal digits and nothing else, with a value below 2^64. */
  function ParseUnsigned(s: string): (r: Option<nat>)
    ensures r.Some? <==>
              && 1 <= |UnsignedDigits(s)|
              && AllDigits(UnsignedDigits(s))
              && ValueIn(10, UnsignedDigits(s)) < U64_LIMIT
    ensures r.Some? ==> r.value == ValueIn(10, UnsignedDigits(s)) && r.value < U64_LIMIT
  {
    var digits := UnsignedDigits(s);
    if 1 <= |digits| && AllDigits(digits) && ValueIn(10, digits) < U64_LIMIT then
      Some(ValueIn(10, digits))
    else None
  }

  /** Every number below 2^64 reads back from its decimal rendering, with or
      without a leading `+`. */
  lemma ParseUnsignedReads(n: nat)
    requires n < U64_LIMIT
    ensures ParseUnsigned(NatToString(n)) == Some(n)
    ensures ParseUnsigned("+" + NatToString(n)) == Some(n)
  {
    assert NatToString(n)[0] != '+';
    assert ("+" + NatToString(n))[1..] == NatToString(n);
  }

  /** The space-separated tokens of a line (`line.split(' ')`): at least
      one, none holding a space, and joined by single spaces they give back
      the line. */
  function Tokens(line: string): (r: seq<string>)
    ensures 1 <= |r|
    ensures forall i | 0 <= i < |r| :: ' ' !in r[i]
    ensures Join(r, " ") == line
  {
    Split(line, ' ')
  }

  /** The `filter` of `get_property_names`: the second token is exactly `bad`
      or `justice`, which is to say it names a property kind. */
  function IsCandidate(line: string): (r: bool)
    ensures r <==> |Tokens(line)| >= 2 && PropKindFromStr(Tokens(line)[1]).Ok?
  {
    var tokens := Tokens(line);
    |tokens| >= 2 && (tokens[1] == "bad" || tokens[1] == "justice")
  }

  /** The candidate lines, in order. */
  function Candidates(lines: seq<string>): (r: seq<string>)
    ensures |r| <= |lines|
    ensures forall k | 0 <= k < |r| :: IsCandidate(r[k])
    decreases |lines|
  {
    if |lines| == 0 then []
    else
      var earlier := Candidates(lines[..|lines| - 1]);
      var last := lines[|lines| - 1];
      if IsCandidate(last) then earlier + [last] else earlier
  }

  /** The closure of the `filter_map`: node id from token 0, kind from token 1,
      token 2 skipped, the name from token 3 if there is one. A node that is
      not a `usize` drops the line. */
  function ReadProperty(line: string): (r: Option<Property>)
    ensures r.Some? <==> IsCandidate(line) && ParseUnsigned(Tokens(line)[0]).Some?
    ensures r.Some? ==>
              && r.value.node == ParseUnsigned(Tokens(line)[0]).value
              && Keyword(r.value.kind) == Tokens(line)[1]
              && (r.value.name.Some? <==> |Tokens(line)| >= 4)
              && (r.value.name.Some? ==> r.value.name.value == Tokens(line)[3])
  {
    var tokens := Tokens(line);
    if |tokens| < 2 then None
    else
      match ParseUnsigned(tokens[0])
      case None => None
      case Some(node) =>
        match PropKindFromStr(tokens[1])
        case Err(_) => None
        case Ok(kind) =>
          var name := if |tokens| >= 4 then Some(tokens[3]) else None;
          Some(Property(node, kind, name))
  }

  /** A declaration line whose tokens are the node's decimal digits, the kind
      keyword, an argument and optionally a name reads as the property with
      that node, kind and name. */
  lemma ReadPropertyOfTokens(tokens: seq<string>, node: nat, kind: PropKind)
    requires 3 <= |tokens| <= 4
    requires forall i | 0 <= i < |tokens| :: ' ' !in tokens[i]
    requires node < U64_LIMIT && tokens[0] == NatToString(node) && tokens[1] == Keyword(kind)
    ensures IsCandidate(Join(tokens, " "))
    ensures ReadProperty(Join(tokens, " ")) ==
              Some(Property(node, kind, if |tokens| == 4 then Some(tokens[3]) else None))
  {
    assert Tokens(Join(tokens, " ")) == tokens by {
      SplitJoin(tokens, ' ');
    }
    ParseUnsignedReads(node);
    PropKindFromStrKeyword(kind);
  }

  /** The details keyed by ordinal, built over the candidates in order: the
      ordinal of a candidate is its position among the candidates, whether or
      not an earlier one was dropped. */
  function NumberProperties(candidates: seq<string>): (r: map<nat, Property>)
    ensures forall k | k in r :: k < |candidates|
    decreases |candidates|
  {
    if |candidates| == 0 then map[]
    else
      var n := |candidates| - 1;
      var earlier := NumberProperties(candidates[..n]);
      match ReadProperty(candidates[n])
      case None => earlier
      case Some(property) => earlier[n := property]
  }

  /** `get_property_names`, over the lines of the model text. */
  function GetPropertyNames(lines: seq<string>): (r: map<nat, Property>)
    ensures forall k | k in r :: k < |Candidates(lines)|
  {
    NumberProperties(Candidates(lines))
  }

  /** Key `k` is present exactly when the `k`-th candidate reads as a
      property, and maps to what it reads as. */
  lemma {:induction false} NumberPropertiesAt(candidates: seq<string>, k: nat)
    ensures k in NumberProperties(candidates) <==>
              k < |candidates| && ReadProperty(candidates[k]).Some?
    ensures k in NumberProperties(candidates) ==>
              NumberProperties(candidates)[k] == ReadProperty(candidates[k]).value
    decreases |candidates|
  {
    if |candidates| > 0 {
      var n := |candidates| - 1;
      var init := candidates[..n];
      assert candidates == init + [candidates[n]];
      NumberPropertiesSnoc(init, candidates[n]);
      NumberPropertiesAt(init, k);
      if k < n {
        assert init[k] == candidates[k];
      }
    }
  }

  /** Appending a line never renumbers earlier candidates: the ordinals so far
      keep their details, and only the appended line, if a readable
      candidate, adds one key. */
  lemma GetPropertyNamesExtends(lines: seq<string>, line: string)
    ensures Candidates(lines + [line]) ==
              Candidates(lines) + (if IsCandidate(line) then [line] else [])
    ensures GetPropertyNames(lines + [line]) ==
              if IsCandidate(line) && ReadProperty(line).Some? then
                GetPropertyNames(lines)[|Candidates(lines)| := ReadProperty(line).value]
              else GetPropertyNames(lines)
  {
    assert Candidates(lines + [line]) ==
             Candidates(lines) + (if IsCandidate(line) then [line] else []) by {
      assert (lines + [line])[..|lines|] == lines;
    }
    var cands := Candidates(lines);
    if IsCandidate(line) {
      NumberPropertiesSnoc(cands, line);
    }
  }

  /** Numbering one more candidate keeps the earlier keys. */
  lemma NumberPropertiesSnoc(candidates: seq<string>, line: string)
    ensures NumberProperties(candidates + [line]) ==
              match ReadProperty(line)
              case None => NumberProperties(candidates)
              case Some(property) => NumberProperties(candidates)[|candidates| := property]
  {
    var all := candidates + [line];
    assert all[..|all| - 1] == candidates && all[|all| - 1] == line;
  }

  /** The ordinal of candidate line `j` is the number of candidates before it. */
  lemma CandidateOrdinal(lines: seq<string>, j: nat)
    requires j < |lines| && IsCandidate(lines[j])
    ensures var k := |Candidates(lines[..j])|;
            k < |Candidates(lines)| && Candidates(lines)[k] == lines[j]
  {
    CandidatesUpTo(lines, j);
    CandidatesPrefix(lines, j + 1);
    BlockAt(Candidates(lines), Candidates(lines[..j + 1]), Candidates(lines[..j]), [lines[j]], 0);
  }

  /** The candidates up to candidate line `j` end with that line. */
  lemma CandidatesUpTo(lines: seq<string>, j: nat)
    requires j < |lines| && IsCandidate(lines[j])
    ensures Candidates(lines[..j + 1]) == Candidates(lines[..j]) + [lines[j]]
  {
    var upTo := lines[..j + 1];
    assert upTo[..j] == lines[..j] && upTo[j] == lines[j];
  }

  /** The candidates among the first `m` lines begin the candidates of all. */
  lemma {:induction false} CandidatesPrefix(lines: seq<string>, m: nat)
    requires m <= |lines|
    ensures Candidates(lines[..m]) <= Candidates(lines)
    decreases |lines|
  {
    if m < |lines| {
      var init := lines[..|lines| - 1];
      assert init[..m] == lines[..m];
      CandidatesPrefix(init, m);
      assert Candidates(init) <= Candidates(lines);
    } else {
      assert lines[..m] == lines;
    }
  }

  /** Each candidate line `j` is keyed by the number of candidate lines before
      it, present exactly when the line reads as a property; so a dropped
      candidate still uses up its number. */
  lemma PropertyOfLine(lines: seq<string>, j: nat)
    requires j < |lines| && IsCandidate(lines[j])
    ensures var k := |Candidates(lines[..j])|;
            && (k in GetPropertyNames(lines) <==> ReadProperty(lines[j]).Some?)
            && (k in GetPropertyNames(lines) ==> GetPropertyNames(lines)[k] == ReadProperty(lines[j]).value)
  {
    CandidateOrdinal(lines, j);
    NumberPropertiesAt(Candidates(lines), |Candidates(lines[..j])|);
  }
}
