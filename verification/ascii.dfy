/**
  Bytes on the wire and the two Python built-ins that the session uses on them:
  the `%d` conversion that formats integers into a command line, and `int()`,
  which converts the fields of a response line. `str.split(" ")` is here too.
 */
module Ascii {
  import opened Wrappers

  newtype byte = b: int | 0 <= b < 0x100
  type Bytes = seq<byte>

  const TAB: byte := 0x09
  const NEWLINE: byte := 0x0A
  const SPACE: byte := 0x20
  const PLUS: byte := 0x2B
  const MINUS: byte := 0x2D
  const ZERO: byte := 0x30
  const SEMICOLON: byte := 0x3B
  const UNDERSCORE: byte := 0x5F

  /** The bytes of an ASCII string literal. */
  function AsciiOf(s: string): (r: Bytes)
    requires forall k | 0 <= k < |s| :: s[k] as int < 0x80
    ensures |r| == |s|
    ensures forall k | 0 <= k < |s| :: r[k] as int == s[k] as int
  {
    seq(|s|, k requires 0 <= k < |s| => s[k] as int as byte)
  }

  predicate IsDigit(b: byte) {
    ZERO <= b <= ZERO + 9
  }

  function DigitValue(b: byte): (d: nat)
    requires IsDigit(b)
    ensures d < 10
  {
    (b - ZERO) as nat
  }

  function DigitOf(d: nat): (b: byte)
    requires d < 10
    ensures IsDigit(b) && DigitValue(b) == d
  {
    ZERO + d as byte
  }

  /**
    The ASCII whitespace `int()` ignores before and after the number: tab,
    line feed, vertical tab, form feed, carriage return and space. The file,
    group, record and unit separators (0x1C to 0x1F) are not among them, so
    `int()` rejects a field that holds one.
   */
  predicate IsSpace(b: byte): (r: bool)
    ensures r ==> !IsDigit(b) && b != PLUS && b != MINUS && b != UNDERSCORE
  {
    TAB <= b <= 0x0D || b == SPACE
  }

  // ---------------------------------------------------------------------------
  // `%d`: decimal rendering of an integer
  // ---------------------------------------------------------------------------

  /** The decimal digits of `n`, most significant first. */
  function NatDigits(n: nat): (s: Bytes)
    ensures |s| > 0
    ensures forall k | 0 <= k < |s| :: IsDigit(s[k])
    ensures s[0] == ZERO ==> n == 0 && |s| == 1
    decreases n
  {
    if n < 10 then [DigitOf(n)] else NatDigits(n / 10) + [DigitOf(n % 10)]
  }

  /** What `b'%d' % i` produces: a `-` for a negative number, then the digits of its magnitude. */
  function Decimal(i: int): (s: Bytes)
    ensures |s| > 0 && IsDigit(s[|s| - 1])
    ensures (s[0] == MINUS) == (i < 0)
    ensures IsDigit(s[0]) == (0 <= i)
    ensures forall k | 0 < k < |s| :: IsDigit(s[k])
  {
    if i < 0 then [MINUS] + NatDigits(-i) else NatDigits(i)
  }

  /** A rendered integer never holds a field or line separator. */
  lemma DecimalHasNoSeparator(i: int)
    ensures SEMICOLON !in Decimal(i) && NEWLINE !in Decimal(i) && SPACE !in Decimal(i)
  {
    var s := Decimal(i);
    forall k | 0 <= k < |s|
      ensures s[k] != SEMICOLON && s[k] != NEWLINE && s[k] != SPACE
    {
      if k == 0 && i < 0 {
        assert s[k] == MINUS;
      } else {
        assert IsDigit(s[k]);
      }
    }
  }

  // ---------------------------------------------------------------------------
  // `int()`: conversion of a field to an integer
  // ---------------------------------------------------------------------------

  /**
    The body of a Python decimal integer: digits, where a single underscore may
    stand between two digits (`1_000`).
   */
  predicate IsDigitRun(s: Bytes) {
    && |s| > 0
    && IsDigit(s[0])
    && forall k | 0 <= k < |s| ::
         IsDigit(s[k]) || (s[k] == UNDERSCORE && k + 1 < |s| && IsDigit(s[k + 1]))
  }

  /** The number the digits of `s` spell, underscores skipped. */
  function RunValue(s: Bytes): nat
  {
    if s == [] then 0
    else if IsDigit(s[|s| - 1]) then 10 * RunValue(s[..|s| - 1]) + DigitValue(s[|s| - 1])
    else RunValue(s[..|s| - 1])
  }

  /** `s` without its leading whitespace. */
  function TrimStart(s: Bytes): (t: Bytes)
    ensures |t| <= |s| && t == s[|s| - |t|..]
    ensures forall k | 0 <= k < |s| - |t| :: IsSpace(s[k])
    ensures t == [] || !IsSpace(t[0])
  {
    if s != [] && IsSpace(s[0]) then TrimStart(s[1..]) else s
  }

  /** `s` without its trailing whitespace. */
  function TrimEnd(s: Bytes): (t: Bytes)
    ensures |t| <= |s| && t == s[..|t|]
    ensures forall k | |t| <= k < |s| :: IsSpace(s[k])
    ensures t == [] || !IsSpace(t[|t| - 1])
  {
    if s != [] && IsSpace(s[|s| - 1]) then TrimEnd(s[..|s| - 1]) else s
  }

  function Strip(s: Bytes): Bytes {
    TrimEnd(TrimStart(s))
  }

  /**
    Python's `int(field)` in base 10 over ASCII: surrounding whitespace is
    ignored, then an optional sign and a digit run must make up the rest.
    `None` stands for the `ValueError` it raises otherwise.
   */
  function ParseInt(s: Bytes): (r: Option<int>)
    ensures r.Some? ==> exists k | 0 <= k < |s| :: IsDigit(s[k])
  {
    var t := Strip(s);
    if t != [] && (t[0] == MINUS || t[0] == PLUS) then
      if IsDigitRun(t[1..]) then
        var v: int := RunValue(t[1..]);
        assert t[1..][0] == t[1];
        Some(if t[0] == MINUS then -v else v)
      else None
    else if IsDigitRun(t) then Some(RunValue(t))
    else None
  }

  /** The inverse of `Decimal` that accepts only what `Decimal` produces. */
  function ParseDecimal(s: Bytes): (r: Option<int>)
    ensures r.Some? ==> s == Decimal(r.value)
  {
    var v := ParseInt(s);
    if v.Some? && Decimal(v.value) == s then v else None
  }

  lemma {:induction false} NatDigitsValue(n: nat)
    ensures IsDigitRun(NatDigits(n)) && RunValue(NatDigits(n)) == n
    decreases n
  {
    var s := NatDigits(n);
    if n >= 10 {
      NatDigitsValue(n / 10);
      assert s[..|s| - 1] == NatDigits(n / 10);
    }
  }

  /** Whatever whitespace pads `s` on the right, `TrimEnd` removes it. */
  lemma {:induction false} TrimEndPadded(s: Bytes, pad: Bytes)
    requires s != [] && !IsSpace(s[|s| - 1])
    requires forall k | 0 <= k < |pad| :: IsSpace(pad[k])
    ensures TrimEnd(s + pad) == s
    decreases |pad|
  {
    if pad == [] {
      assert s + pad == s;
    } else {
      var shorter := pad[..|pad| - 1];
      var padded := s + pad;
      assert padded[|padded| - 1] == pad[|pad| - 1];
      assert padded[..|padded| - 1] == s + shorter;
      TrimEndPadded(s, shorter);
    }
  }

  /** Whatever whitespace pads `s` on the right, `Strip` removes it. */
  lemma StripPaddedRight(s: Bytes, pad: Bytes)
    requires s != [] && !IsSpace(s[0]) && !IsSpace(s[|s| - 1])
    requires forall k | 0 <= k < |pad| :: IsSpace(pad[k])
    ensures Strip(s + pad) == s
  {
    assert (s + pad)[0] == s[0];
    assert TrimStart(s + pad) == s + pad;
    TrimEndPadded(s, pad);
  }

  /** After its sign, the `%d` form of `i` is a digit run worth the magnitude of `i`. */
  lemma DecimalValue(i: int)
    ensures var s := Decimal(i);
      if i < 0 then |s| > 1 && s[0] == MINUS && IsDigitRun(s[1..]) && RunValue(s[1..]) == -i
      else IsDigitRun(s) && RunValue(s) == i
  {
    if i < 0 {
      NatDigitsValue(-i);
      assert Decimal(i)[1..] == NatDigits(-i);
    } else {
      NatDigitsValue(i);
    }
  }

  /** `int('%d' % i)` gives `i` back, also with whitespace such as the line's newline after it. */
  lemma ParseIntDecimal(i: int, pad: Bytes)
    requires forall k | 0 <= k < |pad| :: IsSpace(pad[k])
    ensures ParseInt(Decimal(i) + pad) == Some(i)
  {
    var s := Decimal(i);
    assert Strip(s + pad) == s by {
      StripPaddedRight(s, pad);
    }
    DecimalValue(i);
  }

  /** `ParseDecimal` is exactly the inverse of `Decimal`. */
  lemma ParseDecimalIff(s: Bytes, i: int)
    ensures ParseDecimal(s) == Some(i) <==> s == Decimal(i)
  {
    if s == Decimal(i) {
      ParseIntDecimal(i, []);
      assert s + [] == s;
    }
  }

  /**
    A field with no digit at all, such as `abc` or the empty field, is a
    `ValueError`. This is the contrapositive of `ParseInt`'s own postcondition,
    stated on its own to name the failing case.
   */
  lemma ParseIntNeedsDigit(s: Bytes)
    requires forall k | 0 <= k < |s| :: !IsDigit(s[k])
    ensures ParseInt(s) == None
  {
  }

  // ---------------------------------------------------------------------------
  // `split(sep)`
  // ---------------------------------------------------------------------------

  /**
    Python's `s.split(sep)` with an explicit separator: the pieces between
    consecutive separators, empty pieces included; never an empty list.
   */
  function Split(s: Bytes, sep: byte): (fields: seq<Bytes>)
    ensures |fields| >= 1
    ensures |fields| == 1 <==> sep !in s
    decreases |s|
  {
    if s == [] then [[]]
    else
      var rest := Split(s[1..], sep);
      if s[0] == sep then [[]] + rest
      else [[s[0]] + rest[0]] + rest[1..]
  }

  /** No piece holds the separator. */
  lemma {:induction false} SplitSeparates(s: Bytes, sep: byte)
    ensures forall k | 0 <= k < |Split(s, sep)| :: sep !in Split(s, sep)[k]
    decreases |s|
  {
    if s != [] {
      SplitSeparates(s[1..], sep);
    }
  }

  /** `sep.join(fields)`. */
  function Join(fields: seq<Bytes>, sep: byte): Bytes
    requires |fields| >= 1
    decreases |fields|
  {
    if |fields| == 1 then fields[0] else fields[0] + [sep] + Join(fields[1..], sep)
  }

  /** Joining the pieces with the separator gives back the split text. */
  lemma {:induction false} JoinSplit(s: Bytes, sep: byte)
    ensures Join(Split(s, sep), sep) == s
    decreases |s|
  {
    if s != [] {
      JoinSplit(s[1..], sep);
      if s[0] == sep {
        JoinSeparator(Split(s[1..], sep), sep);
      } else {
        JoinPrepend(s[0], Split(s[1..], sep), sep);
      }
      assert s == [s[0]] + s[1..];
    }
  }

  lemma JoinSeparator(fields: seq<Bytes>, sep: byte)
    requires |fields| >= 1
    ensures Join([[]] + fields, sep) == [sep] + Join(fields, sep)
  {
    assert ([[]] + fields)[1..] == fields;
  }

  lemma JoinPrepend(b: byte, fields: seq<Bytes>, sep: byte)
    requires |fields| >= 1
    ensures Join([[b] + fields[0]] + fields[1..], sep) == [b] + Join(fields, sep)
  {
    var joined := [[b] + fields[0]] + fields[1..];
    assert joined[1..] == fields[1..];
  }

  /** A piece without the separator splits off from the front. */
  lemma {:induction false} SplitAfter(a: Bytes, sep: byte, b: Bytes)
    requires sep !in a
    ensures Split(a + [sep] + b, sep) == [a] + Split(b, sep)
    decreases |a|
  {
    var s := a + [sep] + b;
    if a == [] {
      assert s[0] == sep && s[1..] == b;
    } else {
      var rest := Split(s[1..], sep);
      assert s[0] == a[0] && s[0] != sep;
      assert s[1..] == a[1..] + [sep] + b;
      SplitAfter(a[1..], sep, b);
      assert rest == [a[1..]] + Split(b, sep);
      assert Split(s, sep) == [[a[0]] + rest[0]] + rest[1..];
      assert [a[0]] + a[1..] == a;
    }
  }

  /** A text without the separator is a single piece. */
  lemma {:induction false} SplitWhole(a: Bytes, sep: byte)
    requires sep !in a
    ensures Split(a, sep) == [a]
    decreases |a|
  {
    if a != [] {
      SplitWhole(a[1..], sep);
      assert [a[0]] + a[1..] == a;
    }
  }

  /** The first piece is where the text starts. */
  lemma {:induction false} SplitFirst(s: Bytes, sep: byte)
    ensures var first := Split(s, sep)[0]; |first| <= |s| && first == s[..|first|]
    decreases |s|
  {
    if s != [] {
      SplitFirst(s[1..], sep);
    }
  }
}
