/** JavaScript strings as the request-signing code sees them: sequences of
    UTF-16 code units, compared with `<` code unit by code unit, joined with
    `Array.prototype.join` and split with `String.prototype.split`; and the
    SDK's `toHex`, lower-case with two digits per byte. */
module JsText {
  import opened Bytes

  type CodeUnit = x: int | 0 <= x < 0x1_0000
  type JsString = seq<CodeUnit>

  const NewLine: CodeUnit := 10
  const Ampersand: CodeUnit := 38
  const EqualsSign: CodeUnit := 61
  const QuestionMark: CodeUnit := 63

  // ---------------------------------------------------------------------
  // Ordering: JavaScript's `<` on strings

  /** `a < b`: the first differing code unit decides; a proper prefix is smaller. */
  predicate Less(a: JsString, b: JsString)
  {
    if b == [] then false
    else if a == [] then true
    else if a[0] != b[0] then a[0] < b[0]
    else Less(a[1..], b[1..])
  }

  lemma {:induction false} LessIrreflexive(a: JsString)
    ensures !Less(a, a)
  {
    if a != [] {
      LessIrreflexive(a[1..]);
    }
  }

  lemma {:induction false} LessTransitive(a: JsString, b: JsString, c: JsString)
    requires Less(a, b) && Less(b, c)
    ensures Less(a, c)
  {
    if a != [] && a[0] == b[0] && b[0] == c[0] {
      LessTransitive(a[1..], b[1..], c[1..]);
    }
  }

  lemma LessAsymmetric(a: JsString, b: JsString)
    requires Less(a, b)
    ensures !Less(b, a)
  {
    if Less(b, a) {
      LessTransitive(a, b, a);
      LessIrreflexive(a);
    }
  }

  /** Two different strings are ordered one way or the other. */
  lemma {:induction false} LessTotal(a: JsString, b: JsString)
    ensures a == b || Less(a, b) || Less(b, a)
  {
    if a != [] && b != [] && a[0] == b[0] {
      LessTotal(a[1..], b[1..]);
      if a[1..] == b[1..] {
        assert a == [a[0]] + a[1..] && b == [b[0]] + b[1..];
      }
    }
  }

  /** "Not greater" is transitive: the comparator is a total preorder. */
  lemma NotLessTransitive(a: JsString, b: JsString, c: JsString)
    requires !Less(b, a) && !Less(c, b)
    ensures !Less(c, a)
  {
    if Less(c, a) {
      LessTotal(a, b);
      if Less(a, b) {
        LessTransitive(c, a, b);
      }
    }
  }

  // ---------------------------------------------------------------------
  // Join and split

  /** `parts.join(sep)` for a one-unit separator. */
  function Join(parts: seq<JsString>, sep: CodeUnit): JsString
  {
    if |parts| == 0 then []
    else if |parts| == 1 then parts[0]
    else parts[0] + [sep] + Join(parts[1..], sep)
  }

  /** `s.split(sep)` for a one-unit separator: the pieces between separators,
      always at least one. */
  function Split(s: JsString, sep: CodeUnit): (r: seq<JsString>)
    ensures |r| >= 1
  {
    if s == [] then [[]]
    else
      var rest := Split(s[1..], sep);
      if s[0] == sep then [[]] + rest
      else [[s[0]] + rest[0]] + rest[1..]
  }

  /** A separator-free string is one piece. */
  lemma {:induction false} SplitNoSeparator(s: JsString, sep: CodeUnit)
    requires sep !in s
    ensures Split(s, sep) == [s]
  {
    if s != [] {
      SplitNoSeparator(s[1..], sep);
      assert s == [s[0]] + s[1..];
    }
  }

  /** A separator-free prefix followed by a separator is the first piece. */
  lemma {:induction false} SplitAfter(a: JsString, sep: CodeUnit, b: JsString)
    requires sep !in a
    ensures Split(a + [sep] + b, sep) == [a] + Split(b, sep)
  {
    if a == [] {
      assert [sep] + b == a + [sep] + b;
      assert ([sep] + b)[1..] == b;
    } else {
      assert (a + [sep] + b)[1..] == a[1..] + [sep] + b;
      SplitAfter(a[1..], sep, b);
      assert a == [a[0]] + a[1..];
    }
  }

  /** Splitting undoes joining when no part holds the separator. */
  lemma {:induction false} SplitJoin(parts: seq<JsString>, sep: CodeUnit)
    requires |parts| >= 1
    requires forall i :: 0 <= i < |parts| ==> sep !in parts[i]
    ensures Split(Join(parts, sep), sep) == parts
  {
    if |parts| == 1 {
      SplitNoSeparator(parts[0], sep);
    } else {
      SplitJoin(parts[1..], sep);
      SplitAfter(parts[0], sep, Join(parts[1..], sep));
      assert parts == [parts[0]] + parts[1..];
    }
  }

  /** A joined string holds a code unit other than the separator only if some part does. */
  lemma {:induction false} JoinUnits(parts: seq<JsString>, sep: CodeUnit, c: CodeUnit)
    requires c != sep && forall i :: 0 <= i < |parts| ==> c !in parts[i]
    ensures c !in Join(parts, sep)
  {
    if |parts| > 1 {
      JoinUnits(parts[1..], sep, c);
    }
  }

  // ---------------------------------------------------------------------
  // Hex

  /** The lower-case hex digit for 0..15. */
  function HexDigit(d: nat): (c: CodeUnit)
    requires d < 16
  {
    if d < 10 then 48 + d else 87 + d
  }

  predicate IsHexDigit(c: CodeUnit)
  {
    48 <= c <= 57 || 97 <= c <= 102
  }

  function HexValue(c: CodeUnit): (d: nat)
    requires IsHexDigit(c)
  {
    if c <= 57 then c - 48 else c - 87
  }

  /** The SDK's `toHex`: two lower-case digits per byte, high nibble first. */
  function ToHex(b: seq<byte>): (r: JsString)
  {
    if b == [] then [] else [HexDigit(b[0] / 16), HexDigit(b[0] % 16)] + ToHex(b[1..])
  }

  /** Reading two hex digits per byte. */
  function FromHex(s: JsString): seq<byte>
    requires |s| % 2 == 0 && forall i :: 0 <= i < |s| ==> IsHexDigit(s[i])
  {
    if s == [] then [] else [HexValue(s[0]) * 16 + HexValue(s[1])] + FromHex(s[2..])
  }

  /** `toHex` output is twice as long as its input, made of lower-case hex
      digits only, and reading it back gives the bytes. */
  lemma {:induction false} HexRoundTrip(b: seq<byte>)
    ensures |ToHex(b)| == 2 * |b|
    ensures forall i :: 0 <= i < |ToHex(b)| ==> IsHexDigit(ToHex(b)[i])
    ensures FromHex(ToHex(b)) == b
  {
    if b != [] {
      HexRoundTrip(b[1..]);
      var h := ToHex(b);
      assert h[2..] == ToHex(b[1..]);
      assert b == [b[0]] + b[1..];
    }
  }
}
