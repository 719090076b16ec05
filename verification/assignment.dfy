/** One assignment line of a witness frame (`btor/assignment.rs`): a bitvector
    or array value with an optional symbol, its parser, and the fixed-width
    binary rendering used by the report. */
module Assignments {
  import opened Text
  import opened Wrappers
  import opened Helpers

  /** The two assignment shapes. `bits` is the width of the value literal; an
      array's index literal width is not kept. */
  datatype AssignmentKind =
    | BitVec(value: nat, bits: nat)
    | Array(index: nat, value: nat, bits: nat)

  datatype Assignment = Assignment(kind: AssignmentKind, symbol: Option<string>)

  /** `get_value`: the assigned value, whichever the shape; an array's index
      plays no part. */
  function GetValue(a: Assignment): (v: nat)
    ensures v == a.kind.value
  {
    match a.kind
    case BitVec(value, _) => value
    case Array(_, value, _) => value
  }

  /** `to_binary_string`: a bitvector as `bits` binary digits, most significant
      first; an array as `[index] -> value`, both rendered at the value's
      width. `bits <= 64` keeps every shift of the source below 64. */
  function ToBinaryString(k: AssignmentKind): (r: string)
    requires k.bits <= 64
    ensures k.BitVec? ==> |r| == k.bits && AllBits(r) && AllDigits(r)
    ensures k.Array? ==>
              && |r| == 2 * k.bits + 6
              && r[0] == '[' && r[k.bits + 1..k.bits + 6] == "] -> "
              && AllBits(r[1..k.bits + 1]) && AllDigits(r[1..k.bits + 1])
              && AllBits(r[k.bits + 6..]) && AllDigits(r[k.bits + 6..])
  {
    var len := match k
      case BitVec(_, bits) => bits
      case Array(_, _, bits) => bits * 2;
    match k
    case BitVec(value, _) => Bits(value, len)
    case Array(index, value, _) =>
      var r := "[" + Bits(index, len / 2) + "]" + " -> " + Bits(value, len / 2);
      assert r[1..k.bits + 1] == Bits(index, k.bits);
      assert r[k.bits + 6..] == Bits(value, k.bits);
      r
  }

  /** Decoding the rendered digits in base 2 gives back the value (and the
      array index) modulo `2^bits`: only the low `bits` bits are written, so
      the bits above the width are dropped. */
  lemma ToBinaryStringDecodes(k: AssignmentKind)
    requires k.bits <= 64
    ensures k.BitVec? ==> ValueIn(2, ToBinaryString(k)) == k.value % Pow(2, k.bits)
    ensures k.Array? ==> ValueIn(2, ToBinaryString(k)[k.bits + 6..]) == k.value % Pow(2, k.bits)
    ensures k.Array? ==> ValueIn(2, ToBinaryString(k)[1..k.bits + 1]) == k.index % Pow(2, k.bits)
  {
    var r := ToBinaryString(k);
    match k
    case BitVec(value, bits) =>
      BitsValueMod(value, bits);
    case Array(index, value, bits) =>
      assert r[bits + 6..] == Bits(value, bits);
      assert r[1..bits + 1] == Bits(index, bits);
      BitsValueMod(value, bits);
      BitsValueMod(index, bits);
  }

  /** In particular a value (and an index) that fits the width comes back
      whole. */
  lemma ToBinaryStringDecodesFitting(k: AssignmentKind)
    requires k.bits <= 64
    ensures k.BitVec? && k.value < Pow(2, k.bits) ==> ValueIn(2, ToBinaryString(k)) == k.value
    ensures k.Array? && k.value < Pow(2, k.bits) ==> ValueIn(2, ToBinaryString(k)[k.bits + 6..]) == k.value
    ensures k.Array? && k.index < Pow(2, k.bits) ==>
              ValueIn(2, ToBinaryString(k)[1..k.bits + 1]) == k.index
  {
    ToBinaryStringDecodes(k);
    if k.value < Pow(2, k.bits) {
      ModBelow(k.value, Pow(2, k.bits));
    }
    if k.Array? && k.index < Pow(2, k.bits) {
      ModBelow(k.index, Pow(2, k.bits));
    }
  }

  /** Character `j` of each run of digits is bit `bits - 1 - j` of the
      rendered number: `(value >> i) & 1` (and `(index >> i) & 1`) written
      for `i` from `bits - 1` down to 0. */
  lemma ToBinaryStringBitAt(k: AssignmentKind, j: nat)
    requires k.bits <= 64 && j < k.bits
    ensures k.BitVec? ==> ToBinaryString(k)[j] == BitChar(Bit(k.value, k.bits - 1 - j))
    ensures k.Array? ==> ToBinaryString(k)[1 + j] == BitChar(Bit(k.index, k.bits - 1 - j))
    ensures k.Array? ==> ToBinaryString(k)[k.bits + 6 + j] == BitChar(Bit(k.value, k.bits - 1 - j))
  {
    var r := ToBinaryString(k);
    match k
    case BitVec(value, bits) =>
      BitsCharAt(value, bits, j);
    case Array(index, value, bits) =>
      assert r[1..bits + 1] == Bits(index, bits);
      assert r[bits + 6..] == Bits(value, bits);
      assert r[1 + j] == r[1..bits + 1][j];
      assert r[bits + 6 + j] == r[bits + 6..][j];
      BitsCharAt(index, bits, j);
      BitsCharAt(value, bits, j);
  }

  /** `binary_string`: the maximal non-empty run of `0`/`1`. */
  function BinaryString(s: string): (r: ParseResult<string>)
    ensures r.Parsed? <==> !NotLedBy(s, IsBit)
    ensures r.Parsed? ==>
              && 1 <= |r.value| && AllBits(r.value) && AllDigits(r.value)
              && s == r.value + r.rest && NotLedBy(r.rest, IsBit)
  {
    var n := RunLength(s, IsBit);
    if n == 0 then Failed
    else
      assert s == s[..n] + s[n..];
      Parsed(s[..n], s[n..])
  }

  /** `bitvec_assign`: the maximal binary run read in base 2, its length the width. */
  function BitvecAssign(s: string): (r: ParseResult<AssignmentKind>)
    ensures r.Parsed? <==> !NotLedBy(s, IsBit)
    ensures r.Parsed? ==> IsProperSuffix(r.rest, s)
    ensures r.Parsed? ==>
              var run := s[..|s| - |r.rest|];
              && AllBits(run) && AllDigits(run)
              && r.value == BitVec(ValueIn(2, run), |run|)
              && NotLedBy(r.rest, IsBit)
  {
    match BinaryString(s)
    case Failed => Failed
    case Parsed(run, rest) =>
      ConsumedPrefix(run, rest);
      assert s[..|s| - |rest|] == run;
      Parsed(BitVec(ValueIn(2, run), |run|), rest)
  }

  /** `terminated(binary_string, tag("]"))`: a binary run closed by `]`. */
  function RunThenClose(s: string): (r: ParseResult<string>)
    ensures r.Parsed? ==>
              && 1 <= |r.value| && AllBits(r.value) && AllDigits(r.value)
              && IsProperSuffix(r.rest, s)
  {
    match BinaryString(s)
    case Failed => Failed
    case Parsed(run, afterRun) =>
      ConsumedPrefix(run, afterRun);
      match Tag(afterRun, "]")
      case Failed => Failed
      case Parsed(_, rest) =>
        ConsumedPrefix("]", rest);
        SuffixTransitive(rest, afterRun, s);
        Parsed(run, rest)
  }

  /** `preceded(tag("["), …)`: the bracketed binary run. */
  function Bracketed(s: string): (r: ParseResult<string>)
    ensures r.Parsed? ==>
              && 1 <= |r.value| && AllBits(r.value) && AllDigits(r.value)
              && IsProperSuffix(r.rest, s) && s[0] == '['
  {
    match Tag(s, "[")
    case Failed => Failed
    case Parsed(_, afterOpen) =>
      ConsumedPrefix("[", afterOpen);
      match RunThenClose(afterOpen)
      case Failed => Failed
      case Parsed(run, rest) =>
        SuffixTransitive(rest, afterOpen, s);
        Parsed(run, rest)
  }

  /** The `array_index` combinator of `array_assign`: the bracketed run,
      then optional spaces; yields the run. */
  function ArrayIndex(s: string): (r: ParseResult<string>)
    ensures r.Parsed? ==>
              && 1 <= |r.value| && AllBits(r.value) && AllDigits(r.value)
              && IsProperSuffix(r.rest, s) && s[0] == '['
  {
    match Bracketed(s)
    case Failed => Failed
    case Parsed(run, afterClose) =>
      var gap := Space0(afterClose);
      ConsumedPrefix(gap.value, gap.rest);
      SuffixTransitive(gap.rest, afterClose, s);
      Parsed(run, gap.rest)
  }

  /** `array_assign`: the array index, then a binary run. The bracketed run
      goes through `str::parse`, so it is read in DECIMAL; the value run is
      read in base 2 and alone sets the width. */
  function ArrayAssign(s: string): (r: ParseResult<AssignmentKind>)
    ensures r.Parsed? ==>
              && IsProperSuffix(r.rest, s)
              && s[0] == '['
              && r.value.Array? && r.value.bits >= 1
              && NotLedBy(r.rest, IsBit)
  {
    match ArrayIndex(s)
    case Failed => Failed
    case Parsed(indexRun, afterIndex) =>
      match BinaryString(afterIndex)
      case Failed => Failed
      case Parsed(valueRun, rest) =>
        ConsumedPrefix(valueRun, rest);
        SuffixTransitive(rest, afterIndex, s);
        Parsed(Array(ValueIn(10, indexRun), ValueIn(2, valueRun), |valueRun|), rest)
  }

  /** A binary run reads as itself when no bit follows it. */
  lemma BinaryStringReads(run: string, rest: string)
    requires 1 <= |run| && AllBits(run) && NotLedBy(rest, IsBit)
    ensures BinaryString(run + rest) == Parsed(run, rest)
  {
    var s := run + rest;
    RunLengthOfConcat(run, rest, IsBit);
    assert s[..|run|] == run && s[|run|..] == rest;
  }

  /** Blanks are skipped up to the first other character. */
  lemma Space0Reads(spaces: string, rest: string)
    requires forall i | 0 <= i < |spaces| :: IsSpaceOrTab(spaces[i])
    requires NotLedBy(rest, IsSpaceOrTab)
    ensures Space0(spaces + rest).rest == rest
  {
    var s := spaces + rest;
    RunLengthOfConcat(spaces, rest, IsSpaceOrTab);
    assert s[|spaces|..] == rest;
  }

  /** The bracketed run of a printed index. */
  lemma BracketedReads(indexRun: string, rest: string)
    requires 1 <= |indexRun| && AllBits(indexRun)
    ensures Bracketed("[" + (indexRun + ("]" + rest))) == Parsed(indexRun, rest)
  {
    var y := "]" + rest;
    BinaryStringReads(indexRun, y);
    assert RunThenClose(indexRun + y) == Parsed(indexRun, rest) by {
      TagReads("]", rest);
    }
    TagReads("[", indexRun + y);
  }

  /** The array index and the value run, composed as `array_assign` does. */
  lemma ArrayAssignOf(s: string, indexRun: string, afterIndex: string, valueRun: string, rest: string)
    requires ArrayIndex(s) == Parsed(indexRun, afterIndex)
    requires BinaryString(afterIndex) == Parsed(valueRun, rest)
    ensures ArrayAssign(s) == Parsed(Array(ValueIn(10, indexRun), ValueIn(2, valueRun), |valueRun|), rest)
  {
  }

  /** What `array_assign` reads from a well-formed array literal. */
  lemma ArrayAssignReads(indexRun: string, spaces: string, valueRun: string, rest: string)
    requires 1 <= |indexRun| && AllBits(indexRun) && AllDigits(indexRun)
    requires forall i | 0 <= i < |spaces| :: IsSpaceOrTab(spaces[i])
    requires 1 <= |valueRun| && AllBits(valueRun) && AllDigits(valueRun)
    requires NotLedBy(rest, IsBit)
    ensures ArrayAssign("[" + (indexRun + ("]" + (spaces + (valueRun + rest)))))
            == Parsed(Array(ValueIn(10, indexRun), ValueIn(2, valueRun), |valueRun|), rest)
  {
    var w := valueRun + rest;
    var s := "[" + (indexRun + ("]" + (spaces + w)));
    assert IsBit(w[0]);
    ArrayIndexReads(indexRun, spaces, w);
    BinaryStringReads(valueRun, rest);
    ArrayAssignOf(s, indexRun, w, valueRun, rest);
  }

  /** The array index of a printed literal: the run, and the blanks after
      `]` skipped. */
  lemma ArrayIndexReads(indexRun: string, spaces: string, rest: string)
    requires 1 <= |indexRun| && AllBits(indexRun)
    requires forall i | 0 <= i < |spaces| :: IsSpaceOrTab(spaces[i])
    requires NotLedBy(rest, IsSpaceOrTab)
    ensures ArrayIndex("[" + (indexRun + ("]" + (spaces + rest)))) == Parsed(indexRun, rest)
  {
    var s := "[" + (indexRun + ("]" + (spaces + rest)));
    BracketedReads(indexRun, spaces + rest);
    Space0Reads(spaces, rest);
    ArrayIndexOf(s, indexRun, spaces + rest);
  }

  /** `terminated(…, space0)` after the bracketed run. */
  lemma ArrayIndexOf(s: string, run: string, afterClose: string)
    requires Bracketed(s) == Parsed(run, afterClose)
    ensures ArrayIndex(s) == Parsed(run, Space0(afterClose).rest)
  {
  }

  /** `symbol`: the maximal non-empty run of ASCII non-newline characters,
      cut before its first `@`; the cut-off part is consumed all the same. */
  function Symbol(s: string): (r: ParseResult<string>)
    ensures r.Parsed? <==> !NotLedBy(s, IsSymbolChar)
    ensures r.Parsed? ==> IsProperSuffix(r.rest, s)
    ensures r.Parsed? ==>
              var run := s[..|s| - |r.rest|];
              && (forall i | 0 <= i < |run| :: IsSymbolChar(run[i]))
              && NotLedBy(r.rest, IsSymbolChar)
              && '@' !in r.value
              && |r.value| <= |run| && run[..|r.value|] == r.value
              && (|r.value| < |run| ==> run[|r.value|] == '@')
  {
    var n := RunLength(s, IsSymbolChar);
    if n == 0 then Failed
    else
      var run := s[..n];
      var cut := RunLength(run, c => c != '@');
      assert forall i | 0 <= i < cut :: run[..cut][i] != '@';
      assert s == run + s[n..];
      ConsumedPrefix(run, s[n..]);
      Parsed(run[..cut], s[n..])
  }

  /** `alt((bitvec_assign, array_assign))`: a bitvector literal, or failing
      that an array literal. */
  function KindLiteral(s: string): (r: ParseResult<AssignmentKind>)
    ensures r.Parsed? ==> IsProperSuffix(r.rest, s) && r.value.bits >= 1
    ensures !NotLedBy(s, IsBit) ==> r.Parsed? && r.value.BitVec?
  {
    match BitvecAssign(s)
    case Parsed(k, rest) => Parsed(k, rest)
    case Failed => ArrayAssign(s)
  }

  /** What a parsed symbol never contains: the `@` it was cut at, or a newline. */
  predicate CleanSymbol(name: string)
  {
    '@' !in name && '\n' !in name
  }

  /** `opt(symbol)`: a symbol if one starts here; never fails. */
  function OptSymbol(s: string): (r: ParseResult<Option<string>>)
    ensures r.Parsed? && IsSuffix(r.rest, s)
    ensures r.value.None? <==> NotLedBy(s, IsSymbolChar)
    ensures r.value.None? ==> r.rest == s
    ensures r.value.Some? ==> CleanSymbol(r.value.value)
  {
    match Symbol(s)
    case Parsed(name, rest) =>
      assert forall i | 0 <= i < |name| :: name[i] == s[..|s| - |rest|][i];
      Parsed(Some(name), rest)
    case Failed => Parsed(None, s)
  }

  /** The consumed part of `s` (everything before `rest`) ends in a newline. */
  predicate EndsLine(rest: string, s: string)
  {
    IsProperSuffix(rest, s) && s[|s| - |rest| - 1] == '\n'
  }

  lemma EndsLineExtends(rest: string, t: string, s: string)
    requires EndsLine(rest, t) && IsSuffix(t, s)
    ensures EndsLine(rest, s)
  {
    SuffixTransitive(rest, t, s);
    assert s[|s| - |t|..][|t| - |rest| - 1] == s[|s| - |rest| - 1];
  }

  /** A newline that `newline` accepts ends the line it closes. */
  lemma NewlineEndsLine(t: string)
    requires Newline(t).Parsed?
    ensures EndsLine(Newline(t).rest, t)
  {
  }

  /** An optional symbol and the newline after it. */
  function SymbolLine(s: string): (r: ParseResult<Option<string>>)
    ensures r.Parsed? ==> EndsLine(r.rest, s)
    ensures r.Parsed? && r.value.Some? ==> CleanSymbol(r.value.value)
  {
    var symbol := OptSymbol(s);
    match Newline(symbol.rest)
    case Failed => Failed
    case Parsed(_, rest) =>
      NewlineEndsLine(symbol.rest);
      EndsLineExtends(rest, symbol.rest, s);
      Parsed(symbol.value, rest)
  }

  /** The end of an assignment line: optional spaces, an optional symbol and
      the closing newline. */
  function LineEnd(s: string): (r: ParseResult<Option<string>>)
    ensures r.Parsed? ==> EndsLine(r.rest, s)
    ensures r.Parsed? && r.value.Some? ==> CleanSymbol(r.value.value)
  {
    var gap := Space0(s);
    ConsumedPrefix(gap.value, gap.rest);
    match SymbolLine(gap.rest)
    case Failed => Failed
    case Parsed(symbol, rest) =>
      EndsLineExtends(rest, gap.rest, s);
      Parsed(symbol, rest)
  }

  /** A value literal and the end of its line. */
  function LiteralLine(s: string): (r: ParseResult<Assignment>)
    ensures r.Parsed? ==> EndsLine(r.rest, s)
    ensures r.Parsed? ==> r.value.kind.bits >= 1
    ensures r.Parsed? && r.value.symbol.Some? ==> CleanSymbol(r.value.symbol.value)
  {
    match KindLiteral(s)
    case Failed => Failed
    case Parsed(kind, afterKind) =>
      match LineEnd(afterKind)
      case Failed => Failed
      case Parsed(symbol, rest) =>
        EndsLineExtends(rest, afterKind, s);
        Parsed(Assignment(kind, symbol), rest)
  }

  /** Everything of an assignment line after the declaration id. */
  function AssignmentBody(s: string): (r: ParseResult<Assignment>)
    ensures r.Parsed? ==> EndsLine(r.rest, s)
    ensures r.Parsed? ==> r.value.kind.bits >= 1
    ensures r.Parsed? && r.value.symbol.Some? ==> CleanSymbol(r.value.symbol.value)
  {
    var lead := Space0(s);
    ConsumedPrefix(lead.value, lead.rest);
    match LiteralLine(lead.rest)
    case Failed => Failed
    case Parsed(a, rest) =>
      EndsLineExtends(rest, lead.rest, s);
      Parsed(a, rest)
  }

  /** `Assignment::parse`: a declaration id (read and dropped), optional
      spaces, a bitvector or else an array literal, optional spaces, an
      optional symbol, and the newline that must close the line. */
  function ParseAssignment(s: string): (r: ParseResult<Assignment>)
    ensures NotLedBy(s, IsDigit) ==> r.Failed?
    ensures r.Parsed? ==> EndsLine(r.rest, s)
    ensures r.Parsed? ==> r.value.kind.bits >= 1
    ensures r.Parsed? && r.value.symbol.Some? ==> CleanSymbol(r.value.symbol.value)
    ensures '\n' !in s ==> r.Failed?
  {
    match Uint(s)
    case Failed => Failed
    case Parsed(_, afterId) =>
      match AssignmentBody(afterId)
      case Failed => Failed
      case Parsed(a, rest) =>
        EndsLineExtends(rest, afterId, s);
        Parsed(a, rest)
  }

  // ---------------------------------------------------------------------------
  // Rendering assignment lines, and reading them back

  /** A symbol the parser gives back unchanged after a separating space:
      non-empty, ASCII without newline or `@`, and not led by a space or tab
      (which the separator's `space0` would swallow). */
  predicate SymbolText(name: string)
  {
    && 1 <= |name|
    && (forall i | 0 <= i < |name| :: IsSymbolChar(name[i]) && name[i] != '@')
    && !IsSpaceOrTab(name[0])
  }

  /** An assignment the witness syntax can express exactly: a non-empty value
      literal wide enough for the value, an array index whose decimal digits
      are all binary (the parser reads the bracketed run in decimal), and a
      well-formed symbol. */
  predicate Encodable(a: Assignment)
  {
    && a.kind.bits >= 1
    && a.kind.value < Pow(2, a.kind.bits)
    && (a.kind.Array? ==> AllBits(NatToString(a.kind.index)))
    && (a.symbol.Some? ==> SymbolText(a.symbol.value))
  }

  /** The value literal of `k` followed by `tail`: `bits` binary digits, or
      `[index] ` and the digits. */
  function LiteralThen(k: AssignmentKind, tail: string): string
  {
    match k
    case BitVec(value, bits) => Bits(value, bits) + tail
    case Array(index, value, bits) =>
      "[" + (NatToString(index) + ("]" + (" " + (Bits(value, bits) + tail))))
  }

  /** The symbol part of a line: nothing, or a space and the name. */
  function SymbolSuffix(symbol: Option<string>): string
  {
    match symbol
    case None => ""
    case Some(name) => " " + name
  }

  /** The line declaring `a` under declaration id `id`, followed by `rest`. */
  function AssignmentLineThen(id: nat, a: Assignment, rest: string): string
  {
    NatToString(id) + (" " + LiteralThen(a.kind, SymbolSuffix(a.symbol) + ("\n" + rest)))
  }

  lemma SymbolLineReads(symbol: Option<string>, rest: string)
    requires symbol.Some? ==> SymbolText(symbol.value)
    ensures symbol.None? ==> SymbolLine("\n" + rest) == Parsed(None, rest)
    ensures symbol.Some? ==> SymbolLine(symbol.value + ("\n" + rest)) == Parsed(symbol, rest)
  {
    if symbol.Some? {
      var name := symbol.value;
      var t := "\n" + rest;
      var s := name + t;
      RunLengthOfConcat(name, t, IsSymbolChar);
      assert s[..|name|] == name && s[|name|..] == t;
      RunLengthOfConcat(name, [], c => c != '@');
      assert name + [] == name;
      assert Symbol(s) == Parsed(name, t);
    }
  }

  /** The end of a line is the blank run followed by the optional symbol. */
  lemma LineEndOf(s: string, after: string, symbol: Option<string>, rest: string)
    requires Space0(s).rest == after && SymbolLine(after) == Parsed(symbol, rest)
    ensures LineEnd(s) == Parsed(symbol, rest)
  {
  }

  /** Nothing after the literal: no blanks to skip, no symbol. */
  lemma LineEndReadsBare(rest: string)
    ensures LineEnd("\n" + rest) == Parsed(None, rest)
  {
    var t := "\n" + rest;
    assert Space0(t).rest == t by {
      assert RunLength(t, IsSpaceOrTab) == 0;
      assert t[0..] == t;
    }
    assert SymbolLine(t) == Parsed(None, rest) by {
      SymbolLineReads(None, rest);
    }
    LineEndOf(t, t, None, rest);
  }

  /** One blank, then the symbol. */
  lemma LineEndReadsNamed(name: string, rest: string)
    requires SymbolText(name)
    ensures LineEnd(" " + (name + ("\n" + rest))) == Parsed(Some(name), rest)
  {
    var u := name + ("\n" + rest);
    assert Space0(" " + u).rest == u by {
      RunLengthOfConcat(" ", u, IsSpaceOrTab);
      assert (" " + u)[1..] == u;
    }
    SymbolLineReads(Some(name), rest);
    LineEndOf(" " + u, u, Some(name), rest);
  }

  lemma LineEndReads(symbol: Option<string>, rest: string)
    requires symbol.Some? ==> SymbolText(symbol.value)
    ensures LineEnd(SymbolSuffix(symbol) + ("\n" + rest)) == Parsed(symbol, rest)
  {
    match symbol
    case None =>
      assert SymbolSuffix(symbol) + ("\n" + rest) == "\n" + rest;
      LineEndReadsBare(rest);
    case Some(name) =>
      assert SymbolSuffix(symbol) + ("\n" + rest) == " " + (name + ("\n" + rest));
      LineEndReadsNamed(name, rest);
  }

  lemma KindLiteralReads(k: AssignmentKind, tail: string)
    requires k.bits >= 1 && k.value < Pow(2, k.bits)
    requires k.Array? ==> AllBits(NatToString(k.index))
    requires NotLedBy(tail, IsBit)
    ensures KindLiteral(LiteralThen(k, tail)) == Parsed(k, tail)
  {
    match k
    case BitVec(value, bits) =>
      var run := Bits(value, bits);
      var s := run + tail;
      RunLengthOfConcat(run, tail, IsBit);
      assert s[..bits] == run && s[bits..] == tail;
      BitsValue(value, bits);
      assert BinaryString(s) == Parsed(run, tail);
    case Array(index, value, bits) =>
      BitsValue(value, bits);
      ArrayAssignReads(NatToString(index), " ", Bits(value, bits), tail);
  }

  /** The text after a value literal: the symbol part and the newline. */
  lemma SymbolSuffixLead(symbol: Option<string>, rest: string)
    ensures var t := SymbolSuffix(symbol) + ("\n" + rest);
            |t| > 0 && (t[0] == ' ' || t[0] == '\n')
  {
  }

  lemma LiteralLineReads(a: Assignment, rest: string)
    requires Encodable(a)
    ensures LiteralLine(LiteralThen(a.kind, SymbolSuffix(a.symbol) + ("\n" + rest))) == Parsed(a, rest)
  {
    var tail := SymbolSuffix(a.symbol) + ("\n" + rest);
    SymbolSuffixLead(a.symbol, rest);
    KindLiteralReads(a.kind, tail);
    LineEndReads(a.symbol, rest);
  }

  /** A value literal starts with a binary digit or `[`, never with a blank. */
  lemma LiteralLead(k: AssignmentKind, tail: string)
    requires k.bits >= 1
    ensures |LiteralThen(k, tail)| > 0
    ensures LiteralThen(k, tail)[0] == '[' || IsBit(LiteralThen(k, tail)[0])
  {
    if k.BitVec? {
      assert LiteralThen(k, tail)[0] == Bits(k.value, k.bits)[0];
    }
  }

  lemma AssignmentBodyReads(a: Assignment, rest: string)
    requires Encodable(a)
    ensures AssignmentBody(" " + LiteralThen(a.kind, SymbolSuffix(a.symbol) + ("\n" + rest)))
            == Parsed(a, rest)
  {
    var lit := LiteralThen(a.kind, SymbolSuffix(a.symbol) + ("\n" + rest));
    LiteralLead(a.kind, SymbolSuffix(a.symbol) + ("\n" + rest));
    RunLengthOfConcat(" ", lit, IsSpaceOrTab);
    assert (" " + lit)[1..] == lit;
    assert Space0(" " + lit).rest == lit;
    LiteralLineReads(a, rest);
  }

  /** Reading back a rendered assignment line gives the assignment and stops
      right after the line's newline. */
  lemma ParseAssignmentReads(id: nat, a: Assignment, rest: string)
    requires id < U64_LIMIT && Encodable(a)
    ensures ParseAssignment(AssignmentLineThen(id, a, rest)) == Parsed(a, rest)
  {
    var body := " " + LiteralThen(a.kind, SymbolSuffix(a.symbol) + ("\n" + rest));
    UintRoundTrip(id, body);
    AssignmentBodyReads(a, rest);
  }
}
