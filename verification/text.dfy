/** Character classes, positional numerals, padding, joining and splitting:
    the string vocabulary shared by the witness parser, the BTOR2 name
    extractor and the report. */
module Text {

  /** One past the largest `u64` (and `usize` on a 64-bit target). */
  const U64_LIMIT: nat := 0x1_0000_0000_0000_0000

  predicate IsDigit(c: char) { '0' <= c <= '9' }

  predicate IsBit(c: char) { c == '0' || c == '1' }

  /** The characters nom's `space0` skips. */
  predicate IsSpaceOrTab(c: char) { c == ' ' || c == '\t' }

  /** The characters a witness symbol may contain: ASCII other than newline. */
  predicate IsSymbolChar(c: char) { c as int < 128 && c != '\n' }

  predicate AllDigits(s: string) { forall i | 0 <= i < |s| :: IsDigit(s[i]) }

  predicate AllBits(s: string) { forall i | 0 <= i < |s| :: IsBit(s[i]) }

  /** `s` is empty or does not begin with a character satisfying `p`. */
  predicate NotLedBy(s: string, p: char -> bool) { |s| == 0 || !p(s[0]) }

  /** `r` is what remains of `s` after a parser consumed a prefix. */
  predicate IsSuffix(r: string, s: string) { |r| <= |s| && s[|s| - |r|..] == r }

  /** As `IsSuffix`, with at least one character consumed. */
  predicate IsProperSuffix(r: string, s: string) { |r| < |s| && s[|s| - |r|..] == r }

  /** A non-empty sequence is its head followed by its tail. */
  lemma HeadTail<T>(xs: seq<T>)
    requires |xs| > 0
    ensures [xs[0]] + xs[1..] == xs
  {
  }

  /** Whatever follows a consumed prefix is a suffix, a proper one when the
      prefix is non-empty. */
  lemma ConsumedPrefix(p: string, r: string)
    ensures IsSuffix(r, p + r)
    ensures |p| > 0 ==> IsProperSuffix(r, p + r)
  {
    assert (p + r)[|p|..] == r;
  }

  lemma SuffixTransitive(a: string, b: string, c: string)
    requires IsSuffix(a, b) && IsSuffix(b, c)
    ensures IsSuffix(a, c)
    ensures |a| < |b| ==> IsProperSuffix(a, c)
    ensures |b| < |c| ==> IsProperSuffix(a, c)
  {
    assert c[|c| - |b|..][|b| - |a|..] == c[|c| - |a|..];
  }

  /** Length of the longest prefix of `s` whose characters all satisfy `p`. */
  function RunLength(s: string, p: char -> bool): (n: nat)
    ensures n <= |s|
    ensures forall i | 0 <= i < n :: p(s[i])
    ensures NotLedBy(s[n..], p)
  {
    if |s| == 0 || !p(s[0]) then 0 else 1 + RunLength(s[1..], p)
  }

  /** A run of `p`-characters followed by text not led by one is measured exactly. */
  lemma {:induction false} RunLengthOfConcat(u: string, x: string, p: char -> bool)
    requires forall i | 0 <= i < |u| :: p(u[i])
    requires NotLedBy(x, p)
    ensures RunLength(u + x, p) == |u|
    decreases |u|
  {
    if |u| > 0 {
      assert (u + x)[1..] == u[1..] + x;
      RunLengthOfConcat(u[1..], x, p);
    } else {
      assert u + x == x;
    }
  }

  // ---------------------------------------------------------------------------
  // Positional numerals

  function DigitValue(c: char): nat
    requires IsDigit(c)
  {
    c as int - '0' as int
  }

  function DigitChar(d: nat): (c: char)
    requires d < 10
    ensures IsDigit(c) && DigitValue(c) == d
  {
    ('0' as int + d) as char
  }

  /** Value of the digit string `s` read most significant digit first in
      `base`; decimal is `ValueIn(10, s)`, binary `ValueIn(2, s)`. */
  function ValueIn(base: nat, s: string): nat
    requires AllDigits(s)
  {
    if |s| == 0 then 0 else base * ValueIn(base, s[..|s| - 1]) + DigitValue(s[|s| - 1])
  }

  /** Decimal rendering without leading zeros (Rust's `to_string` / `{}` on
      an unsigned integer); reading it back in base 10 gives `n`. */
  function NatToString(n: nat): (r: string)
    ensures 1 <= |r| && AllDigits(r)
    ensures ValueIn(10, r) == n
    ensures r[0] == '0' ==> n == 0
    decreases n
  {
    if n < 10 then [DigitChar(n)]
    else
      var r := NatToString(n / 10) + [DigitChar(n % 10)];
      assert r[..|r| - 1] == NatToString(n / 10);
      r
  }

  /** Decimal rendering is injective: distinct numbers have distinct texts. */
  lemma NatToStringInjective(m: nat, n: nat)
    requires NatToString(m) == NatToString(n)
    ensures m == n
  {
    assert ValueIn(10, NatToString(m)) == ValueIn(10, NatToString(n));
  }

  function Pow(base: nat, k: nat): (r: nat)
    ensures base > 0 ==> r > 0
  {
    if k == 0 then 1 else base * Pow(base, k - 1)
  }

  /** Number of decimal digits of `n`, which is what `ilog10(n) + 1` computes
      for `n >= 1` (the lemma below). */
  function DigitCount(n: nat): nat
  {
    |NatToString(n)|
  }

  /** `DigitCount(n) - 1` is the integer base-10 logarithm of a positive `n`. */
  lemma {:induction false} DigitCountIsLog10(n: nat)
    requires n >= 1
    ensures DigitCount(n) >= 1
    ensures Pow(10, DigitCount(n) - 1) <= n < Pow(10, DigitCount(n))
    decreases n
  {
    if n >= 10 {
      DigitCountIsLog10(n / 10);
      assert DigitCount(n) == DigitCount(n / 10) + 1;
    }
  }

  /** A larger number never has fewer digits. */
  lemma {:induction false} DigitCountMonotone(m: nat, n: nat)
    requires m <= n
    ensures DigitCount(m) <= DigitCount(n)
    decreases n
  {
    if m >= 10 {
      DigitCountMonotone(m / 10, n / 10);
      assert DigitCount(m) == DigitCount(m / 10) + 1;
      assert DigitCount(n) == DigitCount(n / 10) + 1;
    }
  }

  // ---------------------------------------------------------------------------
  // Fixed-width binary rendering

  function BitChar(b: nat): char
    requires b < 2
  {
    if b == 0 then '0' else '1'
  }

  /** Bit `i` of `v`: `(v >> i) & 1`. */
  function Bit(v: nat, i: nat): (b: nat)
    ensures b < 2
  {
    v / Pow(2, i) % 2
  }

  /** `width` binary digits of `v`, most significant first. */
  function Bits(v: nat, width: nat): (r: string)
    ensures |r| == width && AllBits(r) && AllDigits(r)
    decreases width
  {
    if width == 0 then [] else Bits(v / 2, width - 1) + [BitChar(v % 2)]
  }

  /** Reading `width` rendered bits in base 2 gives back any `v < 2^width`. */
  lemma {:induction false} BitsValue(v: nat, width: nat)
    requires v < Pow(2, width)
    ensures ValueIn(2, Bits(v, width)) == v
    decreases width
  {
    if width > 0 {
      var r := Bits(v, width);
      assert r[..width - 1] == Bits(v / 2, width - 1);
      BitsValue(v / 2, width - 1);
    }
  }

  /** Reading `width` rendered bits gives `v` modulo `2^width`: the bits
      above the width are dropped. */
  lemma {:induction false} BitsValueMod(v: nat, width: nat)
    ensures ValueIn(2, Bits(v, width)) == v % Pow(2, width)
    decreases width
  {
    if width > 0 {
      var r := Bits(v, width);
      assert r[..width - 1] == Bits(v / 2, width - 1);
      BitsValueMod(v / 2, width - 1);
      ModHalf(v, Pow(2, width - 1));
    }
  }

  /** A number below the modulus is its own remainder. */
  lemma ModBelow(v: nat, d: nat)
    requires v < d
    ensures v % d == v
  {
    DivUnique(v, d, 0, v);
    assert v == d * (v / d) + v % d;
  }

  /** `v mod 2d` from the remainder of `v / 2`. */
  lemma ModHalf(v: nat, d: nat)
    requires d > 0
    ensures v % (2 * d) == 2 * (v / 2 % d) + v % 2
  {
    var q := v / 2 / d;
    var b := 2 * (v / 2 % d) + v % 2;
    assert v == 2 * d * q + b;
    DivUnique(v, 2 * d, q, b);
  }

  lemma DivDiv(v: nat, d: nat)
    requires d > 0
    ensures v / 2 / d == v / (2 * d)
  {
    var q := v / 2;
    var a := q / d;
    var b := q % d;
    assert v == 2 * d * a + (2 * b + v % 2);
    assert 0 <= 2 * b + v % 2 < 2 * d;
    DivUnique(v, 2 * d, a, 2 * b + v % 2);
  }

  lemma MulAtLeast(d: int, k: int)
    requires d > 0 && k >= 1
    ensures d * k >= d
    decreases k
  {
    if k > 1 {
      MulAtLeast(d, k - 1);
      assert d * k == d * (k - 1) + d;
    }
  }

  lemma DivUnique(v: int, d: int, a: int, b: int)
    requires d > 0 && 0 <= b < d && v == d * a + b
    ensures v / d == a
  {
    var q := v / d;
    var r := v % d;
    assert v == d * q + r;
    if q > a {
      assert d * (q - a) == b - r;
      MulAtLeast(d, q - a);
      assert false;
    } else if q < a {
      assert d * (a - q) == r - b;
      MulAtLeast(d, a - q);
      assert false;
    }
  }

  /** Character `k` of the rendering is bit `width - 1 - k` of `v`, as the
      renderer's loop over `(0..width).rev()` writes it. */
  lemma {:induction false} BitsCharAt(v: nat, width: nat, k: nat)
    requires k < width
    ensures Bits(v, width)[k] == BitChar(Bit(v, width - 1 - k))
    decreases width
  {
    if k == width - 1 {
      assert Bit(v, 0) == v % 2;
    } else {
      BitsCharAt(v / 2, width - 1, k);
      DivDiv(v, Pow(2, width - 2 - k));
      assert Pow(2, width - 1 - k) == 2 * Pow(2, width - 2 - k);
    }
  }

  // ---------------------------------------------------------------------------
  // Layout

  function Spaces(n: nat): (r: string)
    ensures |r| == n && forall i | 0 <= i < n :: r[i] == ' '
  {
    if n == 0 then [] else [' '] + Spaces(n - 1)
  }

  /** Right alignment in a field of `width` (`{:>width$}`): never truncates. */
  function PadLeft(s: string, width: nat): (r: string)
    ensures |r| == if |s| <= width then width else |s|
  {
    if |s| >= width then s else Spaces(width - |s|) + s
  }

  /** The padded text ends with `s` and is blank before it. */
  lemma PadLeftShape(s: string, width: nat)
    ensures var r := PadLeft(s, width);
            && r[|r| - |s|..] == s
            && forall i | 0 <= i < |r| - |s| :: r[i] == ' '
  {
    var r := PadLeft(s, width);
    if |s| < width {
      assert r == Spaces(width - |s|) + s;
      assert r[|r| - |s|..] == s;
    }
  }

  /** `parts` joined with `sep` between neighbours (`Vec::join`). */
  function Join(parts: seq<string>, sep: string): string
  {
    if |parts| == 0 then []
    else if |parts| == 1 then parts[0]
    else parts[0] + sep + Join(parts[1..], sep)
  }

  /** A join begins with its first part. */
  lemma {:induction false} JoinStartsWithFirst(parts: seq<string>, sep: string)
    ensures |parts| > 0 ==>
              |parts[0]| <= |Join(parts, sep)| && Join(parts, sep)[..|parts[0]|] == parts[0]
  {
    if |parts| > 1 {
      assert Join(parts, sep) == parts[0] + (sep + Join(parts[1..], sep));
    }
  }

  /** Where part `i` of a join starts: every earlier part and its separator. */
  function JoinOffset(parts: seq<string>, sep: string, i: nat): nat
    requires i <= |parts|
    decreases i
  {
    if i == 0 then 0 else |parts[0]| + |sep| + JoinOffset(parts[1..], sep, i - 1)
  }

  /** A join cut before part `i`: the join of the parts before it, the
      separator, and the join of the rest. */
  lemma {:induction false} JoinSplit(parts: seq<string>, sep: string, i: nat)
    requires 0 < i < |parts|
    ensures Join(parts, sep) == Join(parts[..i], sep) + sep + Join(parts[i..], sep)
    decreases i
  {
    if i > 1 {
      var tail := parts[1..];
      JoinSplit(tail, sep, i - 1);
      assert tail[..i - 1] == parts[1..i] && tail[i - 1..] == parts[i..];
      assert parts[..i][1..] == parts[1..i];
      assert Join(parts[..i], sep) == parts[0] + sep + Join(parts[1..i], sep);
    } else {
      assert parts[..1] == [parts[0]] && parts[1..] == parts[i..];
    }
  }

  /** The offset of part `i` is the length of the join before it and one
      separator. */
  lemma {:induction false} JoinOffsetLength(parts: seq<string>, sep: string, i: nat)
    requires 0 < i <= |parts|
    ensures JoinOffset(parts, sep, i) == |Join(parts[..i], sep)| + |sep|
    decreases i
  {
    if i > 1 {
      var tail := parts[1..];
      JoinOffsetLength(tail, sep, i - 1);
      assert tail[..i - 1] == parts[..i][1..];
      assert Join(parts[..i], sep) == parts[0] + sep + Join(parts[..i][1..], sep);
    } else {
      assert parts[..1] == [parts[0]];
    }
  }

  /** A join holds part `i` at its offset, preceded by the separator unless it
      is the first, and ends right after the last part. */
  lemma JoinPartAt(parts: seq<string>, sep: string, i: nat)
    requires i < |parts|
    ensures var r := Join(parts, sep);
            var at := JoinOffset(parts, sep, i);
            && at + |parts[i]| <= |r|
            && r[at..at + |parts[i]|] == parts[i]
            && (i > 0 ==> |sep| <= at && r[at - |sep|..at] == sep)
            && (i == |parts| - 1 ==> |r| == at + |parts[i]|)
  {
    var rest := parts[i..];
    JoinStartsWithFirst(rest, sep);
    assert rest[0] == parts[i];
    if i == |parts| - 1 {
      assert rest == [parts[i]];
    }
    if i > 0 {
      JoinSplit(parts, sep, i);
      JoinOffsetLength(parts, sep, i);
      PartAfter(Join(parts[..i], sep), sep, Join(rest, sep), parts[i]);
    } else {
      assert parts == rest;
    }
  }

  /** A slice of `s` sits `|pre|` further along in `pre + s`. */
  lemma ShiftSlice<T>(pre: seq<T>, s: seq<T>, lo: nat, hi: nat)
    requires lo <= hi <= |s|
    ensures (pre + s)[|pre| + lo..|pre| + hi] == s[lo..hi]
  {
  }

  /** The same placement after a fixed head `pre`. */
  lemma PrefixedJoinPartAt(pre: string, parts: seq<string>, sep: string, i: nat)
    requires i < |parts|
    ensures var r := pre + Join(parts, sep);
            var at := |pre| + JoinOffset(parts, sep, i);
            && at + |parts[i]| <= |r|
            && r[at..at + |parts[i]|] == parts[i]
            && (i > 0 ==> |pre| + |sep| <= at && r[at - |sep|..at] == sep)
            && (i == |parts| - 1 ==> |r| == at + |parts[i]|)
  {
    var joined := Join(parts, sep);
    var at := JoinOffset(parts, sep, i);
    JoinPartAt(parts, sep, i);
    ShiftSlice(pre, joined, at, at + |parts[i]|);
    if i > 0 {
      ShiftSlice(pre, joined, at - |sep|, at);
    }
  }

  /** Where the pieces of `before + sep + after` sit, `after` starting with `part`. */
  lemma PartAfter(before: string, sep: string, after: string, part: string)
    requires |part| <= |after| && after[..|part|] == part
    ensures var r := before + sep + after;
            var at := |before| + |sep|;
            && r[at - |sep|..at] == sep
            && r[at..at + |part|] == part
            && |r| == at + |after|
  {
    var r := before + sep + after;
    assert r == (before + sep) + after;
  }

  /** The blocks one after the other. */
  function Flatten<T>(blocks: seq<seq<T>>): seq<T>
    decreases |blocks|
  {
    if |blocks| == 0 then [] else blocks[0] + Flatten(blocks[1..])
  }

  /** An element of a block inside a prefix is at its place in the whole. */
  lemma BlockAt<T>(all: seq<T>, pre: seq<T>, before: seq<T>, block: seq<T>, i: nat)
    requires pre <= all && pre == before + block && i < |block|
    ensures |before| + i < |all| && all[|before| + i] == block[i]
  {
    assert pre[|before| + i] == block[i];
  }

  /** Where block `m` begins in the flattened sequence. */
  function Offset<T>(blocks: seq<seq<T>>, m: nat): nat
    requires m <= |blocks|
    decreases m
  {
    if m == 0 then 0 else |blocks[0]| + Offset(blocks[1..], m - 1)
  }

  /** Block `m` sits in the flattened sequence at its offset. */
  lemma {:induction false} FlattenBlock<T>(blocks: seq<seq<T>>, m: nat)
    requires m < |blocks|
    ensures Offset(blocks, m) + |blocks[m]| <= |Flatten(blocks)|
    ensures Flatten(blocks)[Offset(blocks, m)..Offset(blocks, m) + |blocks[m]|] == blocks[m]
    decreases m
  {
    var first := blocks[0];
    var rest := Flatten(blocks[1..]);
    assert Flatten(blocks) == first + rest;
    if m > 0 {
      FlattenBlock(blocks[1..], m - 1);
      var start := Offset(blocks[1..], m - 1);
      assert blocks[1..][m - 1] == blocks[m];
      assert (first + rest)[|first| + start..|first| + start + |blocks[m]|] == rest[start..start + |blocks[m]|];
    } else {
      assert (first + rest)[..|first|] == first;
    }
  }
  /** A non-empty block's first element is at its offset. */
  lemma FlattenBlockStart<T>(blocks: seq<seq<T>>, m: nat)
    requires m < |blocks| && |blocks[m]| > 0
    ensures Offset(blocks, m) + |blocks[m]| <= |Flatten(blocks)|
    ensures Flatten(blocks)[Offset(blocks, m)] == blocks[m][0]
  {
    FlattenBlock(blocks, m);
    var start := Offset(blocks, m);
    assert Flatten(blocks)[start..start + |blocks[m]|][0] == blocks[m][0];
  }


  /** The characters other than `sep`. */
  function NotSep(sep: char): char -> bool
  {
    c => c != sep
  }

  /** `str::split(sep)`: the pieces between occurrences of `sep`, empty
      pieces included; joining them again with `sep` gives back `s`. */
  function Split(s: string, sep: char): (r: seq<string>)
    ensures 1 <= |r|
    ensures forall i | 0 <= i < |r| :: sep !in r[i]
    ensures Join(r, [sep]) == s
    decreases |s|
  {
    var n := RunLength(s, NotSep(sep));
    if n == |s| then
      assert forall i | 0 <= i < |s| :: s[i] != sep;
      [s]
    else
      var rest := Split(s[n + 1..], sep);
      assert sep !in s[..n] by {
        assert forall i | 0 <= i < n :: s[..n][i] == s[i];
      }
      assert s == s[..n] + [sep] + s[n + 1..];
      JoinCons(s[..n], rest, [sep]);
      [s[..n]] + rest
  }

  /** Joining a piece in front of at least one more. */
  lemma JoinCons(head: string, rest: seq<string>, sep: string)
    requires |rest| >= 1
    ensures Join([head] + rest, sep) == head + sep + Join(rest, sep)
  {
    assert ([head] + rest)[1..] == rest;
  }

  /** Splitting undoes joining: pieces free of `sep`, joined with it, split
      back into the same pieces. */
  lemma {:induction false} SplitJoin(parts: seq<string>, sep: char)
    requires |parts| >= 1
    requires forall i | 0 <= i < |parts| :: sep !in parts[i]
    ensures Split(Join(parts, [sep]), sep) == parts
    decreases |parts|
  {
    if |parts| == 1 {
      SplitPiece(parts[0], sep);
    } else {
      var rest := Join(parts[1..], [sep]);
      assert Join(parts, [sep]) == parts[0] + [sep] + rest;
      SplitCons(parts[0], rest, sep);
      SplitJoin(parts[1..], sep);
      assert parts == [parts[0]] + parts[1..];
    }
  }

  /** Text free of `sep` is a single piece. */
  lemma SplitPiece(piece: string, sep: char)
    requires sep !in piece
    ensures Split(piece, sep) == [piece]
  {
    assert forall i | 0 <= i < |piece| :: NotSep(sep)(piece[i]);
    assert piece + [] == piece;
    RunLengthOfConcat(piece, [], NotSep(sep));
  }

  /** A piece free of `sep`, then `sep`: the piece comes first, and the rest
      is split on its own. */
  lemma SplitCons(piece: string, rest: string, sep: char)
    requires sep !in piece
    ensures Split(piece + [sep] + rest, sep) == [piece] + Split(rest, sep)
  {
    var s := piece + [sep] + rest;
    assert forall i | 0 <= i < |piece| :: NotSep(sep)(piece[i]);
    assert s == piece + ([sep] + rest);
    RunLengthOfConcat(piece, [sep] + rest, NotSep(sep));
    assert s[..|piece|] == piece && s[|piece| + 1..] == rest;
  }

  // ---------------------------------------------------------------------------
  // Lexicographic order (Rust's `Ord` on `String`)

  /** `a` sorts strictly before `b`: at the first difference `a` has the
      smaller character, or `a` is a proper prefix of `b`. */
  predicate Less(a: string, b: string)
    decreases |a|
  {
    if |a| == 0 then |b| > 0
    else if |b| == 0 then false
    else if a[0] != b[0] then a[0] < b[0]
    else Less(a[1..], b[1..])
  }

  lemma {:induction false} LessIrreflexive(a: string)
    ensures !Less(a, a)
    decreases |a|
  {
    if |a| > 0 {
      LessIrreflexive(a[1..]);
    }
  }

  lemma {:induction false} LessTransitive(a: string, b: string, c: string)
    requires Less(a, b) && Less(b, c)
    ensures Less(a, c)
    decreases |a|
  {
    if |a| > 0 && a[0] == b[0] && b[0] == c[0] {
      LessTransitive(a[1..], b[1..], c[1..]);
    }
  }

  lemma {:induction false} LessTotal(a: string, b: string)
    requires a != b
    ensures Less(a, b) || Less(b, a)
    decreases |a|
  {
    if |a| > 0 && |b| > 0 && a[0] == b[0] {
      assert a == [a[0]] + a[1..] && b == [b[0]] + b[1..];
      LessTotal(a[1..], b[1..]);
    }
  }
}
