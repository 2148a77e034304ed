/**
  The pieces of Rust's standard library that the weather pipeline leans on,
  stated over strings of Unicode scalar values (`seq<char>`):
  `char::is_whitespace` and `str::trim`, `str::parse` for the primitive
  integer types, `Display` for integers, `str::repeat`, and the `{:<w}` /
  `{:>w}` width specifiers of `format!` (which count chars, never truncate).
*/
module RustText {
  import opened Wrappers

  // ---------------------------------------------------------------------
  // Characters
  // ---------------------------------------------------------------------

  /** `char::is_whitespace`: the Unicode White_Space property. */
  predicate IsWhitespace(c: char) {
    || ('\t' <= c <= '\r')
    || c == ' '
    || c == '\U{85}'
    || c == '\U{A0}'
    || c == '\U{1680}'
    || ('\U{2000}' <= c <= '\U{200A}')
    || c == '\U{2028}'
    || c == '\U{2029}'
    || c == '\U{202F}'
    || c == '\U{205F}'
    || c == '\U{3000}'
  }

  /** An ASCII decimal digit, the only digits `str::parse` accepts. */
  predicate IsDigit(c: char) {
    '0' <= c <= '9'
  }

  predicate AllDigits(s: seq<char>) {
    forall i :: 0 <= i < |s| ==> IsDigit(s[i])
  }

  predicate AllWhitespace(s: seq<char>) {
    forall i :: 0 <= i < |s| ==> IsWhitespace(s[i])
  }

  function DigitValue(c: char): (d: nat)
    requires IsDigit(c)
    ensures d < 10
  {
    (c as int) - ('0' as int)
  }

  function DigitChar(d: nat): (c: char)
    requires d < 10
    ensures IsDigit(c) && DigitValue(c) == d
  {
    (('0' as int) + d) as char
  }

  // ---------------------------------------------------------------------
  // str::trim
  // ---------------------------------------------------------------------

  /** Neither end of `t` is whitespace: what `trim` leaves behind. */
  predicate IsTrimmed(t: seq<char>) {
    t == [] || (!IsWhitespace(t[0]) && !IsWhitespace(t[|t| - 1]))
  }

  /** How many whitespace chars `s` starts with. */
  function LeadingWhitespace(s: seq<char>): (n: nat)
    ensures n <= |s|
    ensures forall k :: 0 <= k < n ==> IsWhitespace(s[k])
    ensures n < |s| ==> !IsWhitespace(s[n])
  {
    if |s| > 0 && IsWhitespace(s[0]) then
      var n := 1 + LeadingWhitespace(s[1..]);
      assert forall k :: 1 <= k < n ==> s[k] == s[1..][k - 1];
      n
    else 0
  }

  /** The length of `s` without its trailing whitespace. */
  function TextEnd(s: seq<char>): (n: nat)
    ensures n <= |s|
    ensures forall k :: n <= k < |s| ==> IsWhitespace(s[k])
    ensures n > 0 ==> !IsWhitespace(s[n - 1])
  {
    if |s| > 0 && IsWhitespace(s[|s| - 1]) then
      var n := TextEnd(s[..|s| - 1]);
      assert forall k :: n <= k < |s| - 1 ==> s[k] == s[..|s| - 1][k];
      n
    else |s|
  }

  /**
    `str::trim`: the text between the leading whitespace and the trailing
    whitespace.
  */
  function Trim(s: seq<char>): (r: seq<char>)
    ensures |r| <= |s|
    ensures IsTrimmed(r)
  {
    var o := LeadingWhitespace(s);
    var r := s[o..o + TextEnd(s[o..])];
    assert r == s[o..][..TextEnd(s[o..])];
    r
  }

  /**
    What `trim` cut away is whitespace, and what it kept is the slice of
    `s` that starts after the leading whitespace.
  */
  lemma TrimSlice(s: seq<char>)
    ensures LeadingWhitespace(s) + |Trim(s)| <= |s|
    ensures Trim(s) == s[LeadingWhitespace(s)..LeadingWhitespace(s) + |Trim(s)|]
    ensures AllWhitespace(s[..LeadingWhitespace(s)])
    ensures AllWhitespace(s[LeadingWhitespace(s) + |Trim(s)|..])
  {
    LeadingIsWhitespace(s);
    TrailingIsWhitespace(s, LeadingWhitespace(s));
  }

  lemma LeadingIsWhitespace(s: seq<char>)
    ensures AllWhitespace(s[..LeadingWhitespace(s)])
  {
    var head := s[..LeadingWhitespace(s)];
    forall k | 0 <= k < |head|
      ensures IsWhitespace(head[k])
    {
      assert head[k] == s[k];
    }
  }

  lemma TrailingIsWhitespace(s: seq<char>, o: nat)
    requires o <= |s|
    ensures o + TextEnd(s[o..]) <= |s|
    ensures AllWhitespace(s[o + TextEnd(s[o..])..])
  {
    var t := s[o..];
    var e := TextEnd(t);
    var tail := s[o + e..];
    forall k | 0 <= k < |tail|
      ensures IsWhitespace(tail[k])
    {
      assert tail[k] == t[e + k];
    }
  }

  /**
    `trim` is determined by what it promises: whenever `s[i..j]` has no
    whitespace at either end and `s` holds only whitespace outside it,
    `Trim(s)` is exactly that slice.
  */
  lemma TrimUnique(s: seq<char>, i: nat, j: nat)
    requires i <= j <= |s|
    requires AllWhitespace(s[..i]) && AllWhitespace(s[j..])
    requires IsTrimmed(s[i..j])
    ensures Trim(s) == s[i..j]
  {
    var o := LeadingWhitespace(s);
    forall k | 0 <= k < i ensures IsWhitespace(s[k]) {
      assert s[k] == s[..i][k];
    }
    forall k | j <= k < |s| ensures IsWhitespace(s[k]) {
      assert s[k] == s[j..][k - j];
    }
    if i == j {
      assert o == |s|;
    } else {
      assert s[i] == s[i..j][0] && s[j - 1] == s[i..j][j - i - 1];
      assert o == i;
      var t := s[i..];
      var e := TextEnd(t);
      assert t[j - i - 1] == s[j - 1];
      forall k | j - i <= k < |t| ensures IsWhitespace(t[k]) {
        assert t[k] == s[k + i];
      }
      assert e == j - i;
    }
  }

  /** Trimming twice is trimming once. */
  lemma TrimIdempotent(s: seq<char>)
    ensures Trim(Trim(s)) == Trim(s)
  {
    var t := Trim(s);
    assert t[..0] == [] && t[|t|..] == [] && t[0..|t|] == t;
    TrimUnique(t, 0, |t|);
  }

  /** Text with no whitespace at either end is left as it is. */
  lemma TrimKeepsTrimmed(s: seq<char>)
    requires IsTrimmed(s)
    ensures Trim(s) == s
  {
    assert s[..0] == [] && s[|s|..] == [] && s[0..|s|] == s;
    TrimUnique(s, 0, |s|);
  }

  // ---------------------------------------------------------------------
  // Decimal text of integers (Display for i8 / u8 / u16)
  // ---------------------------------------------------------------------

  /** The value of a string of ASCII digits, most significant first. */
  function DigitsValue(ds: seq<char>): nat
    requires AllDigits(ds)
  {
    if ds == [] then 0 else 10 * DigitsValue(ds[..|ds| - 1]) + DigitValue(ds[|ds| - 1])
  }

  /**
    The shortest decimal text of `n`: at least one digit, and no leading
    zero unless `n` is zero itself.
  */
  function NatToDecimal(n: nat): (r: seq<char>)
    ensures |r| > 0 && AllDigits(r)
    ensures r[0] == '0' ==> n == 0
    ensures DigitsValue(r) == n
  {
    if n < 10 then [DigitChar(n)]
    else
      var prefix := NatToDecimal(n / 10);
      var r := prefix + [DigitChar(n % 10)];
      assert r[..|r| - 1] == prefix;
      r
  }

  /** The decimal text of `10 * n + d` is that of `n` followed by the digit `d`. */
  lemma NatToDecimalAppend(n: nat, d: nat)
    requires 1 <= n && d < 10
    ensures NatToDecimal(10 * n + d) == NatToDecimal(n) + [DigitChar(d)]
  {
    assert (10 * n + d) / 10 == n && (10 * n + d) % 10 == d;
  }

  /** `Display` of a Rust integer: a '-' for negative values, then the digits. */
  function IntToDecimal(n: int): (r: seq<char>)
    ensures |r| > 0
    ensures r[0] == '-' <==> n < 0
    ensures n >= 0 ==> AllDigits(r) && DigitsValue(r) == n && (r[0] == '0' ==> r == "0")
    ensures n < 0 ==> |r| > 1 && AllDigits(r[1..]) && DigitsValue(r[1..]) == -n && r[1] != '0'
  {
    if n < 0 then ['-'] + NatToDecimal(-n) else NatToDecimal(n)
  }

  /** Powers of ten, for bounding the length of decimal text. */
  function Pow10(k: nat): (p: nat)
    ensures p >= 1
  {
    if k == 0 then 1 else 10 * Pow10(k - 1)
  }

  /** A natural below 10^k has at most k digits. */
  lemma {:induction false} NatToDecimalLength(n: nat, k: nat)
    requires k > 0 && n < Pow10(k)
    ensures |NatToDecimal(n)| <= k
  {
    if n >= 10 {
      assert k > 1;
      NatToDecimalLength(n / 10, k - 1);
    }
  }

  /** The text of every `i8` value fits in four chars ("-128"). */
  lemma I8DecimalFits(n: int)
    requires -128 <= n <= 127
    ensures |IntToDecimal(n)| <= 4
  {
    assert Pow10(3) == 1000;
    if n < 0 { NatToDecimalLength(-n, 3); } else { NatToDecimalLength(n, 3); }
  }

  /** The text of every `u8` value fits in three chars ("255"). */
  lemma U8DecimalFits(n: int)
    requires 0 <= n <= 255
    ensures |IntToDecimal(n)| <= 3
  {
    assert Pow10(3) == 1000;
    NatToDecimalLength(n, 3);
  }

  // ---------------------------------------------------------------------
  // str::parse::<integer>
  // ---------------------------------------------------------------------

  /**
    `str::parse` into a primitive integer type whose values are `lo..=hi`
    (signed exactly when `lo < 0`): an optional '+' sign, or '-' when the
    type is signed, then one or more ASCII digits (leading zeros allowed)
    whose value lies in range. Anything else, including the empty string,
    a lone sign and any whitespace, is an error.
  */
  function ParseInt(s: seq<char>, lo: int, hi: int): (r: Option<int>)
    ensures r.Some? ==> lo <= r.value <= hi
    ensures r.Some? ==> |s| > 0 && AllDigits(s[1..]) && (IsDigit(s[0]) || |s| > 1)
    ensures r.Some? ==> IsDigit(s[0]) || s[0] == '+' || (s[0] == '-' && lo < 0)
    ensures r.Some? && IsDigit(s[0]) ==> r.value == DigitsValue(s)
    ensures r.Some? && s[0] == '+' ==> r.value == DigitsValue(s[1..])
    ensures r.Some? && s[0] == '-' ==> r.value == -(DigitsValue(s[1..]) as int)
    ensures |s| > 0 && AllDigits(s) && lo <= DigitsValue(s) <= hi ==> r == Some(DigitsValue(s))
    ensures |s| > 1 && s[0] == '+' && AllDigits(s[1..]) && lo <= DigitsValue(s[1..]) <= hi
            ==> r == Some(DigitsValue(s[1..]))
    ensures |s| > 1 && s[0] == '-' && lo < 0 && AllDigits(s[1..]) && lo <= -(DigitsValue(s[1..]) as int) <= hi
            ==> r == Some(-(DigitsValue(s[1..]) as int))
  {
    var negative := |s| > 0 && s[0] == '-' && lo < 0;
    var digits := if |s| > 0 && (s[0] == '+' || negative) then s[1..] else s;
    if |digits| == 0 || !AllDigits(digits) then None
    else
      var v: int := if negative then 0 - DigitsValue(digits) else DigitsValue(digits) as int;
      if lo <= v <= hi then Some(v) else None
  }

  /** `parse().unwrap_or(0)`: the lenient parse, zero on every failure. */
  function ParseOrZero(s: seq<char>, lo: int, hi: int): (v: int)
    requires lo <= 0 <= hi
    ensures lo <= v <= hi
    ensures ParseInt(s, lo, hi).None? ==> v == 0
    ensures ParseInt(s, lo, hi).Some? ==> v == ParseInt(s, lo, hi).value
  {
    match ParseInt(s, lo, hi)
    case Some(v) => v
    case None => 0
  }

  /**
    `v` is what `parse().unwrap_or(0)` makes of `text` for the integer type
    `lo..=hi`: the parsed value, which prints back as the text itself when
    the text is canonical, and 0 when the text does not parse.
  */
  predicate LenientReading(text: seq<char>, v: int, lo: int, hi: int) {
    && lo <= v <= hi
    && (ParseInt(text, lo, hi).Some? ==> v == ParseInt(text, lo, hi).value)
    && (IsCanonical(text, lo, hi) ==> IntToDecimal(v) == text)
    && (ParseInt(text, lo, hi).None? ==> v == 0)
  }

  /** Printing an in-range integer and parsing it back gives the integer. */
  lemma ParseDecimal(n: int, lo: int, hi: int)
    requires lo <= n <= hi
    ensures ParseInt(IntToDecimal(n), lo, hi) == Some(n)
  {
    var s := IntToDecimal(n);
    if n < 0 {
      assert s[1..] == NatToDecimal(-n);
    }
  }

  /** The text of an out-of-range integer does not parse. */
  lemma ParseDecimalOutOfRange(n: int, lo: int, hi: int)
    requires lo <= hi
    requires n < lo || hi < n
    ensures ParseInt(IntToDecimal(n), lo, hi) == None
  {
    var s := IntToDecimal(n);
    if n < 0 {
      assert s[1..] == NatToDecimal(-n);
      if lo >= 0 {
        assert !IsDigit(s[0]);
      }
    }
  }

  /** A sign with no digit after it does not parse, whatever the type. */
  lemma ParseRejectsLoneSign(lo: int, hi: int)
    ensures ParseInt("+", lo, hi).None? && ParseInt("-", lo, hi).None?
  {
  }

  /** Text holding any whitespace (for instance "10 " or " 7") does not parse. */
  lemma ParseRejectsWhitespace(s: seq<char>, lo: int, hi: int, k: nat)
    requires k < |s| && IsWhitespace(s[k])
    ensures ParseInt(s, lo, hi) == None
  {
    if k > 0 {
      assert s[1..][k - 1] == s[k];
    }
  }

  /**
    Text that `str::parse` reads and `Display` writes back unchanged: no
    '+', no leading zero, no "-0".
  */
  predicate IsCanonical(s: seq<char>, lo: int, hi: int) {
    ParseInt(s, lo, hi).Some? && IntToDecimal(ParseInt(s, lo, hi).value) == s
  }

  lemma CanonicalOfDecimal(n: int, lo: int, hi: int)
    requires lo <= n <= hi
    ensures IsCanonical(IntToDecimal(n), lo, hi)
  {
    ParseDecimal(n, lo, hi);
  }

  /**
    What the lenient parse gives prints back as the text when the text is
    canonical, and as "0" when the text does not parse.
  */
  lemma ParseOrZeroDisplay(s: seq<char>, lo: int, hi: int)
    requires lo <= 0 <= hi
    ensures IsCanonical(s, lo, hi) ==> IntToDecimal(ParseOrZero(s, lo, hi)) == s
    ensures ParseInt(s, lo, hi).None? ==> IntToDecimal(ParseOrZero(s, lo, hi)) == "0"
  {
  }

  // ---------------------------------------------------------------------
  // format! padding and str::repeat
  // ---------------------------------------------------------------------

  function Max(a: int, b: int): int {
    if a < b then b else a
  }

  /** `c.to_string().repeat(n)`: `n` copies of `c`. */
  function Repeat(c: char, n: nat): (r: seq<char>)
    ensures |r| == n && forall i :: 0 <= i < n ==> r[i] == c
  {
    seq(n, _ => c)
  }

  /** `{:<width}`: `s` followed by spaces up to `width` chars, never truncated. */
  function PadRight(s: seq<char>, width: nat): seq<char> {
    if |s| < width then s + Repeat(' ', width - |s|) else s
  }

  /** `{:>width}`: spaces up to `width` chars followed by `s`, never truncated. */
  function PadLeft(s: seq<char>, width: nat): seq<char> {
    if |s| < width then Repeat(' ', width - |s|) + s else s
  }

  /** Left alignment: the text first, then spaces; at least `width` chars, and no more than needed. */
  lemma PadRightShape(s: seq<char>, width: nat)
    ensures var r := PadRight(s, width);
      && |r| == Max(|s|, width)
      && r[..|s|] == s
      && forall i :: |s| <= i < |r| ==> r[i] == ' '
  {
  }

  /** Right alignment: spaces first, then the text; at least `width` chars, and no more than needed. */
  lemma PadLeftShape(s: seq<char>, width: nat)
    ensures var r := PadLeft(s, width);
      && |r| == Max(|s|, width)
      && r[|r| - |s|..] == s
      && forall i :: 0 <= i < |r| - |s| ==> r[i] == ' '
  {
  }

  // ---------------------------------------------------------------------
  // Substrings (str::contains)
  // ---------------------------------------------------------------------

  predicate OccursAt(s: seq<char>, sub: seq<char>, i: int) {
    0 <= i && i + |sub| <= |s| && s[i..i + |sub|] == sub
  }

  /** `str::contains`. */
  predicate Contains(s: seq<char>, sub: seq<char>) {
    exists i :: 0 <= i <= |s| && OccursAt(s, sub, i)
  }

  lemma OccursInConcat(a: seq<char>, b: seq<char>, c: seq<char>)
    ensures OccursAt(a + b + c, b, |a|)
    ensures Contains(a + b + c, b)
  {
    assert (a + b + c)[|a|..|a| + |b|] == b;
    assert OccursAt(a + b + c, b, |a|);
  }

  lemma OccursExtend(a: seq<char>, sub: seq<char>, i: int, pre: seq<char>, post: seq<char>)
    requires OccursAt(a, sub, i)
    ensures OccursAt(pre + a + post, sub, |pre| + i)
    ensures Contains(pre + a + post, sub)
  {
    assert (pre + a + post)[|pre| + i..|pre| + i + |sub|] == a[i..i + |sub|];
    assert OccursAt(pre + a + post, sub, |pre| + i);
  }

  lemma OccursAtStart(sub: seq<char>, rest: seq<char>)
    ensures OccursAt(sub + rest, sub, 0)
  {
    assert (sub + rest)[..|sub|] == sub;
  }

  lemma OccursAtEnd(front: seq<char>, sub: seq<char>)
    ensures OccursAt(front + sub, sub, |front|)
  {
    assert (front + sub)[|front|..] == sub;
  }

  lemma OccursExtendRight(x: seq<char>, y: seq<char>, sub: seq<char>, i: int)
    requires OccursAt(x, sub, i)
    ensures OccursAt(x + y, sub, i)
  {
    assert (x + y)[i..i + |sub|] == x[i..i + |sub|];
  }

  /** An occurrence in a prefix is an occurrence in the whole. */
  lemma OccursInPrefix(s: seq<char>, p: seq<char>, sub: seq<char>, i: int)
    requires OccursAt(s, p, 0) && OccursAt(p, sub, i)
    ensures OccursAt(s, sub, i)
  {
    assert s[i..i + |sub|] == s[..|p|][i..i + |sub|];
  }

  /** An occurrence inside an occurrence. */
  lemma OccursWithin(s: seq<char>, x: seq<char>, i: int, sub: seq<char>, j: int)
    requires OccursAt(s, x, i) && OccursAt(x, sub, j)
    ensures OccursAt(s, sub, i + j)
  {
    forall k | 0 <= k < |sub| ensures s[i + j + k] == sub[k] {
      assert s[i..i + |x|][j + k] == x[j + k];
      assert x[j..j + |sub|][k] == sub[k];
    }
    assert s[i + j..i + j + |sub|] == sub;
  }

  /** The same, with the position in the whole given as `k`. */
  lemma OccursWithinAt(s: seq<char>, x: seq<char>, i: int, sub: seq<char>, j: int, k: int)
    requires OccursAt(s, x, i) && OccursAt(x, sub, j) && k == i + j
    ensures OccursAt(s, sub, k)
  {
    OccursWithin(s, x, i, sub, j);
  }

  /** The start of a part is an occurrence at the part's own position. */
  lemma OccursAtPartStart(s: seq<char>, x: seq<char>, i: int, sub: seq<char>)
    requires OccursAt(s, x, i) && OccursAt(x, sub, 0)
    ensures OccursAt(s, sub, i)
  {
    OccursWithin(s, x, i, sub, 0);
  }

  /** What a part contains, the whole contains. */
  lemma ContainsWithin(s: seq<char>, x: seq<char>, i: int, sub: seq<char>)
    requires OccursAt(s, x, i) && Contains(x, sub)
    ensures Contains(s, sub)
  {
    var j :| 0 <= j <= |x| && OccursAt(x, sub, j);
    OccursWithin(s, x, i, sub, j);
  }

  /** The number of occurrences of `c` in `s`. */
  function CountChar(s: seq<char>, c: char): (n: nat)
    ensures n <= |s|
  {
    if s == [] then 0 else CountChar(s[..|s| - 1], c) + (if s[|s| - 1] == c then 1 else 0)
  }

  lemma {:induction false} CountCharConcat(a: seq<char>, b: seq<char>, c: char)
    ensures CountChar(a + b, c) == CountChar(a, c) + CountChar(b, c)
  {
    if b != [] {
      var b' := b[..|b| - 1];
      assert (a + b)[..|a + b| - 1] == a + b';
      CountCharConcat(a, b', c);
    } else {
      assert a + b == a;
    }
  }

  /** A string none of whose chars is `c` has no occurrence of it. */
  lemma {:induction false} CountCharAbsent(s: seq<char>, c: char)
    requires forall i :: 0 <= i < |s| ==> s[i] != c
    ensures CountChar(s, c) == 0
  {
    if s != [] {
      CountCharAbsent(s[..|s| - 1], c);
    }
  }

  /** Padding adds only spaces. */
  lemma CountCharPadRight(s: seq<char>, width: nat, c: char)
    requires c != ' '
    ensures CountChar(PadRight(s, width), c) == CountChar(s, c)
  {
    if |s| < width {
      CountCharConcat(s, Repeat(' ', width - |s|), c);
      CountCharAbsent(Repeat(' ', width - |s|), c);
    }
  }

  lemma CountCharPadLeft(s: seq<char>, width: nat, c: char)
    requires c != ' '
    ensures CountChar(PadLeft(s, width), c) == CountChar(s, c)
  {
    if |s| < width {
      CountCharConcat(Repeat(' ', width - |s|), s, c);
      CountCharAbsent(Repeat(' ', width - |s|), c);
    }
  }

  /** Decimal text holds digits and at most a '-': no line break. */
  lemma DecimalHasNoLineBreak(n: int)
    ensures CountChar(IntToDecimal(n), '\n') == 0
  {
    CountCharAbsent(IntToDecimal(n), '\n');
  }
}
