/**
 * The C library text conventions the mixer relies on: what `%d` writes,
 * and what the `sscanf`/`fscanf` directives `%d`, `%[...]` and white space
 * consume from the front of the input (glibc behaviour).
 */
module CText {
  import opened Options

  /** `isspace` in the C locale. */
  predicate IsSpace(c: char) {
    c == ' ' || c == '\t' || c == '\n' || c == '\U{B}' || c == '\U{C}' || c == '\r'
  }

  predicate IsDigit(c: char) {
    '0' <= c <= '9'
  }

  predicate AllDigits(s: string) {
    forall i :: 0 <= i < |s| ==> IsDigit(s[i])
  }

  function DigitChar(d: nat): (c: char)
    requires d < 10
    ensures IsDigit(c) && c as int - '0' as int == d
  {
    ('0' as int + d) as char
  }

  /** The text `%d` writes for a non-negative value: its decimal digits, without leading zeros. */
  function FormatNat(n: nat): (s: string)
    ensures 0 < |s| && AllDigits(s)
    ensures s[0] == '0' <==> n == 0
  {
    if n < 10 then [DigitChar(n)] else FormatNat(n / 10) + [DigitChar(n % 10)]
  }

  /** The text `%d` writes for any value: a minus sign for negative values, then the digits. */
  function FormatInt(n: int): (s: string)
    ensures 0 < |s| && (s[0] == '-' <==> n < 0)
    ensures n >= 0 ==> AllDigits(s)
    ensures n < 0 ==> AllDigits(s[1..])
  {
    if n < 0 then "-" + FormatNat(-n) else FormatNat(n)
  }

  /** The value of a string of decimal digits, most significant first. */
  function DigitsValue(s: string): nat
    requires AllDigits(s)
  {
    if s == [] then 0 else DigitsValue(s[..|s| - 1]) * 10 + (s[|s| - 1] as int - '0' as int)
  }

  /** Reading back the digits `%d` wrote gives the value that was written. */
  lemma {:induction false} DigitsValueOfFormatNat(n: nat)
    ensures DigitsValue(FormatNat(n)) == n
  {
    if n >= 10 {
      var s := FormatNat(n);
      assert s[..|s| - 1] == FormatNat(n / 10);
      DigitsValueOfFormatNat(n / 10);
    }
  }

  /** Distinct values are written as distinct texts. */
  lemma FormatNatInjective(a: nat, b: nat)
    requires FormatNat(a) == FormatNat(b)
    ensures a == b
  {
    DigitsValueOfFormatNat(a);
    DigitsValueOfFormatNat(b);
  }

  /**
   * The length of the longest prefix of `s` whose characters all satisfy
   * `accept`: what a scan set `%[...]` or a white-space directive consumes.
   */
  function Span(s: string, accept: char -> bool): (k: nat)
    ensures k <= |s|
    ensures forall i :: 0 <= i < k ==> accept(s[i])
    ensures k < |s| ==> !accept(s[k])
  {
    if s == [] || !accept(s[0]) then 0 else 1 + Span(s[1..], accept)
  }

  /** A run of accepted characters followed by a rejected one (or the end) is spanned exactly. */
  lemma {:induction false} SpanOfConcat(a: string, b: string, accept: char -> bool)
    requires forall i :: 0 <= i < |a| ==> accept(a[i])
    requires b == [] || !accept(b[0])
    ensures Span(a + b, accept) == |a|
  {
    if a != [] {
      assert (a + b)[0] == a[0];
      assert (a + b)[1..] == a[1..] + b;
      SpanOfConcat(a[1..], b, accept);
    } else {
      assert a + b == b;
    }
  }

  /** A character the scan set rejects inside `a` ends the span there, whatever follows `a`. */
  lemma {:induction false} SpanStops(a: string, b: string, accept: char -> bool, k: nat)
    requires k < |a| && !accept(a[k])
    ensures Span(a + b, accept) == Span(a, accept)
  {
    assert (a + b)[0] == a[0];
    if accept(a[0]) {
      assert (a + b)[1..] == a[1..] + b;
      SpanStops(a[1..], b, accept, k - 1);
    }
  }

  /** White space, as a blank in a scanf format skips it. */
  predicate AllSpace(w: string) {
    forall i :: 0 <= i < |w| ==> IsSpace(w[i])
  }

  /** The white space a blank skips, and what is left after it, make up `s` again. */
  lemma SpaceSplit(s: string)
    ensures AllSpace(s[..Span(s, IsSpace)])
    ensures s == s[..Span(s, IsSpace)] + s[Span(s, IsSpace)..]
  {
    var k := Span(s, IsSpace);
    SplitAt(s, k);
    forall i | 0 <= i < k ensures IsSpace(s[..k][i]) {
      assert s[..k][i] == s[i];
    }
  }

  /**
   * What `%d` consumes from the front of `s`: white space, an optional sign,
   * then every digit that follows (at least one). Gives the value read and
   * the number of characters consumed; None when no digit follows.
   */
  function ScanInt(s: string): (r: Option<(int, nat)>)
    ensures r.Some? ==> 0 < r.value.1 <= |s|
  {
    var w := Span(s, IsSpace);
    Skipped(ScanSigned(s[w..]), w)
  }

  /** A scan result after `w` more leading characters were skipped. */
  function Skipped(r: Option<(int, nat)>, w: nat): (q: Option<(int, nat)>)
    ensures q.Some? <==> r.Some?
    ensures q.Some? ==> q.value == (r.value.0, w + r.value.1)
  {
    if r.None? then None else Some((r.value.0, w + r.value.1))
  }

  /** The part of `%d` after the white space: an optional sign, then at least one digit. */
  function ScanSigned(t: string): (r: Option<(int, nat)>)
    ensures r.Some? ==> 0 < r.value.1 <= |t|
  {
    if |t| > 0 && (t[0] == '-' || t[0] == '+') then Signed(t[0] == '-', 1, ScanDigits(t[1..]))
    else Signed(false, 0, ScanDigits(t))
  }

  /** Every digit at the front of `u` (at least one), with their value and count. */
  function ScanDigits(u: string): (r: Option<(nat, nat)>)
    ensures r.Some? ==> 0 < r.value.1 <= |u|
  {
    var d := Span(u, IsDigit);
    if d == 0 then None else Some((DigitsValue(u[..d]), d))
  }

  /** The digits read, negated after a minus sign, and the sign counted as consumed. */
  function Signed(negative: bool, skip: nat, r: Option<(nat, nat)>): (q: Option<(int, nat)>)
    ensures q.Some? <==> r.Some?
    ensures q.Some? ==> q.value.1 == skip + r.value.1
  {
    if r.None? then None else Some((if negative then -(r.value.0 as int) else r.value.0, skip + r.value.1))
  }

  /** The digits `%d` wrote for `m`, followed by no further digit, are spanned exactly and read back as `m`. */
  lemma ScanDigitsOfFormat(m: nat, rest: string)
    requires rest == [] || !IsDigit(rest[0])
    ensures Span(FormatNat(m) + rest, IsDigit) == |FormatNat(m)|
    ensures (FormatNat(m) + rest)[..|FormatNat(m)|] == FormatNat(m)
    ensures DigitsValue(FormatNat(m)) == m
  {
    SpanOfConcat(FormatNat(m), rest, IsDigit);
    DigitsValueOfFormatNat(m);
  }

  /** `%d` reads back the digits written for a non-negative value. */
  lemma ScanFormatNonNegative(n: int, rest: string)
    requires n >= 0
    requires rest == [] || !IsDigit(rest[0])
    ensures ScanInt(FormatInt(n) + rest) == Some((n, |FormatInt(n)|))
  {
    var s := FormatInt(n) + rest;
    assert FormatInt(n) == FormatNat(n);
    assert s[0] == FormatNat(n)[0];
    assert Span(s, IsSpace) == 0;
    assert s[0..] == s;
    ScanDigitsOfFormat(n, rest);
  }

  /** `%d` on a text that starts with a minus sign reads the digits after it and negates them. */
  lemma ScanNegative(s: string)
    requires |s| > 0 && s[0] == '-'
    ensures ScanInt(s) == if Span(s[1..], IsDigit) == 0 then None
      else Some((-(DigitsValue(s[1..][..Span(s[1..], IsDigit)]) as int), 1 + Span(s[1..], IsDigit)))
  {
    assert Span(s, IsSpace) == 0;
    assert s[0..] == s;
  }

  /** `%d` reads back the minus sign and digits written for a negative value. */
  lemma ScanFormatNegative(m: nat, rest: string)
    requires m > 0
    requires rest == [] || !IsDigit(rest[0])
    ensures ScanInt("-" + FormatNat(m) + rest) == Some((-(m as int), 1 + |FormatNat(m)|))
  {
    var s := "-" + FormatNat(m) + rest;
    var x := FormatNat(m) + rest;
    assert s[1..] == x;
    ScanNegative(s);
    ScanDigitsOfFormat(m, rest);
  }

  /** `%d` reads back what `%d` wrote, when no further digit follows it. */
  lemma ScanFormatInt(n: int, rest: string)
    requires rest == [] || !IsDigit(rest[0])
    ensures ScanInt(FormatInt(n) + rest) == Some((n, |FormatInt(n)|))
  {
    if n < 0 {
      var m: nat := -n;
      assert FormatInt(n) + rest == "-" + FormatNat(m) + rest;
      ScanFormatNegative(m, rest);
    } else {
      ScanFormatNonNegative(n, rest);
    }
  }

  /** A sign and digits end at a '/' at the latest, so what follows the '/' does not matter. */
  lemma ScanSignedBeforeSlash(q: string, w: string, t: string, k: nat)
    requires k < |q| && q[k] == '/' && t == q + w
    ensures ScanSigned(t) == ScanSigned(q)
  {
    ConcatParts(q, w, t, 1);
    if q[0] == '-' || q[0] == '+' {
      ScanDigitsBeforeSlash(q[1..], w, t[1..], k - 1);
    } else {
      ScanDigitsBeforeSlash(q, w, t, k);
    }
  }

  /** Digits end at a '/' at the latest. */
  lemma ScanDigitsBeforeSlash(q: string, w: string, t: string, k: nat)
    requires k < |q| && q[k] == '/' && t == q + w
    ensures ScanDigits(t) == ScanDigits(q)
  {
    SpanStops(q, w, IsDigit, k);
    ConcatParts(q, w, t, Span(q, IsDigit));
  }

  /** `%d` stops at a '/' at the latest, so what follows the '/' does not matter. */
  lemma ScanIntStops(a: string, w: string, s: string, k: nat)
    requires k < |a| && a[k] == '/' && s == a + w
    ensures ScanInt(s) == ScanInt(a)
  {
    SpanStops(a, w, IsSpace, k);
    var ws := Span(a, IsSpace);
    ConcatParts(a, w, s, ws);
    ScanSignedBeforeSlash(a[ws..], w, s[ws..], k - ws);
  }

  /** Cutting a text anywhere and joining the two pieces gives it back. */
  lemma SplitAt(s: string, i: nat)
    requires i <= |s|
    ensures s == s[..i] + s[i..]
  {
  }

  /** Cutting `a + b` inside `a`. */
  lemma ConcatParts(a: string, b: string, t: string, i: nat)
    requires t == a + b && i <= |a|
    ensures t[..i] == a[..i] && t[i..] == a[i..] + b
  {
  }

  /** The form the OSC handler meets: the number is always followed by a '/'. */
  lemma ScanIntBeforeSlash(p: string, w: string)
    ensures ScanInt(p + "/" + w) == ScanInt(p + "/")
  {
    ScanIntStops(p + "/", w, p + "/" + w, |p|);
  }
}
