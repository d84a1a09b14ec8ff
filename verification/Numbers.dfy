/**
 Decimal numbers: the canonical text of a number, the hand-written port and prefix-length parsers,
 and the proof that those parsers accept exactly the canonical texts of their range.
 */
module Numbers {
  import opened Text

  predicate IsDigit(c: char) { '0' <= c <= '9' }

  function DigitVal(c: char): nat
    requires IsDigit(c)
  {
    c as int - '0' as int
  }

  function DigitChar(d: nat): (c: char)
    requires d < 10
    ensures IsDigit(c) && DigitVal(c) == d
  {
    ('0' as int + d) as char
  }

  /** The decimal text of a number: no sign, no leading zero. */
  function Decimal(n: nat): (s: string)
    ensures s != ""
  {
    if n < 10 then [DigitChar(n)] else Decimal(n / 10) + [DigitChar(n % 10)]
  }

  predicate AllDigits(s: string) { forall i | 0 <= i < |s| :: IsDigit(s[i]) }

  function DecVal(s: string): nat
    requires AllDigits(s)
  {
    if s == "" then 0 else DecVal(s[..|s| - 1]) * 10 + DigitVal(s[|s| - 1])
  }

  /** Non-empty, all digits, no leading zero. */
  predicate Canonical(s: string) {
    s != "" && AllDigits(s) && (|s| > 1 ==> s[0] != '0')
  }

  lemma {:induction false} DecimalIsCanonical(n: nat)
    ensures Canonical(Decimal(n)) && DecVal(Decimal(n)) == n
    ensures n > 0 ==> Decimal(n)[0] != '0'
  {
    if n < 10 {
      assert Decimal(n)[..0] == "";
      assert DigitVal(Decimal(n)[0]) == n;
    } else {
      DecimalIsCanonical(n / 10);
      assert Decimal(n)[..|Decimal(n)| - 1] == Decimal(n / 10);
    }
  }

  lemma {:induction false} CanonicalIsDecimal(s: string)
    requires Canonical(s)
    ensures Decimal(DecVal(s)) == s
    ensures |s| > 1 ==> DecVal(s) > 0
  {
    if |s| == 1 {
      LeadingDigit(s);
      assert s == [DigitChar(DigitVal(s[0]))];
    } else {
      var t, d := s[..|s| - 1], DigitVal(s[|s| - 1]);
      CanonicalIsDecimal(t);
      if |t| == 1 { LeadingDigit(t); }
      DecimalAppend(DecVal(t), d);
      assert s == t + [DigitChar(d)];
    }
  }

  lemma DecimalAppend(n: nat, d: nat)
    requires n > 0 && d < 10
    ensures Decimal(n * 10 + d) == Decimal(n) + [DigitChar(d)]
  {
  }

  lemma LeadingDigit(s: string)
    requires |s| == 1 && IsDigit(s[0])
    ensures DecVal(s) == DigitVal(s[0])
  {
    assert DecVal(s[..0]) == 0;
  }

  /** The text of a number determines it. */
  lemma DecimalInjective(m: nat, n: nat)
    ensures Decimal(m) == Decimal(n) ==> m == n
  {
    DecimalIsCanonical(m);
    DecimalIsCanonical(n);
  }

  function Pow10(n: nat): nat { if n == 0 then 1 else 10 * Pow10(n - 1) }

  /** Without a leading zero, n digits are at least 10^(n-1). */
  lemma {:induction false} AtLeastPow10(s: string)
    requires Canonical(s) && |s| > 1
    ensures DecVal(s) >= Pow10(|s| - 1)
  {
    var t := s[..|s| - 1];
    if |s| == 2 { LeadingDigit(t); assert s[0] == t[0]; } else { AtLeastPow10(t); }
  }

  lemma LongIsLarge(s: string)
    requires Canonical(s)
    ensures |s| >= 4 ==> DecVal(s) >= 1000
    ensures |s| >= 6 ==> DecVal(s) >= 100000
  {
    if |s| > 1 { AtLeastPow10(s); }
    assert Pow10(3) == 1000 && Pow10(5) == 100000;
    if |s| >= 4 { Pow10Mono(3, |s| - 1); }
    if |s| >= 6 { Pow10Mono(5, |s| - 1); }
  }

  lemma Pow10Mono(m: nat, n: nat)
    requires m <= n
    ensures Pow10(m) <= Pow10(n)
  {
  }

  /** The number a port text stands for, if it stands for one. */
  function PortOf(s: string): (r: Option<nat>)
  {
    if Canonical(s) && 1 <= DecVal(s) <= 65535 then Some(DecVal(s)) else None
  }

  function NumberUpTo(s: string, max: nat): (r: Option<nat>)
  {
    if Canonical(s) && DecVal(s) <= max then Some(DecVal(s)) else None
  }

  /** The accepted port texts are exactly the decimal texts of 1..65535. */
  lemma PortExact(s: string, v: nat)
    ensures PortOf(s) == Some(v) <==> 1 <= v <= 65535 && s == Decimal(v)
  {
    DecimalIsCanonical(v);
    if Canonical(s) { CanonicalIsDecimal(s); }
  }

  /** The accepted prefix lengths are exactly the decimal texts of 0..max. */
  lemma NumberExact(s: string, max: nat, v: nat)
    ensures NumberUpTo(s, max) == Some(v) <==> v <= max && s == Decimal(v)
  {
    DecimalIsCanonical(v);
    if Canonical(s) { CanonicalIsDecimal(s); }
  }

  /** Digits have no case. */
  lemma LowerDigits(s: string)
    ensures AllDigits(Lower(s)) <==> AllDigits(s)
    ensures AllDigits(s) ==> Lower(s) == s
    ensures Canonical(Lower(s)) <==> Canonical(s)
  {
    if AllDigits(Lower(s)) {
      forall i | 0 <= i < |s| ensures IsDigit(s[i]) { assert IsDigit(Lower(s)[i]); }
    }
  }

  /** `strnlen`. */
  method StrNLen(buf: array<char>, p: nat, max: nat, ghost t: string) returns (n: nat)
    requires IsCStr(buf[..], p, t)
    ensures n == if |t| < max then |t| else max
  {
    n := 0;
    CStrAt(buf[..], p, t, 0);
    while n < max && buf[p + n] != NUL
      invariant n <= max && n <= |t|
      invariant p + n < buf.Length && buf[p + n] == if n < |t| then t[n] else NUL
    {
      n := n + 1;
      CStrAt(buf[..], p, t, n);
    }
  }

  /** The shared digit loop: the value of the first `n` characters, or nothing if one is no digit. */
  method ReadDigits(buf: array<char>, p: nat, n: nat, ghost t: string) returns (ok: bool, val: nat)
    requires IsCStr(buf[..], p, t) && n <= |t|
    ensures ok <==> AllDigits(t[..n])
    ensures ok ==> val == DecVal(t[..n])
  {
    val := 0;
    var i := 0;
    while i < n
      invariant i <= n && AllDigits(t[..i]) && val == DecVal(t[..i])
    {
      CStrAt(buf[..], p, t, i);
      if !IsDigit(buf[p + i]) {
        assert t[..n][i] == t[i];
        return false, 0;
      }
      assert t[..i + 1][..i] == t[..i];
      val := val * 10 + DigitVal(buf[p + i]);
      i := i + 1;
    }
    ok := true;
  }

  /** `tsf_parse_port_number`: looks at up to six characters of the token. */
  method ParsePortNumber(buf: array<char>, p: nat, ghost t: string) returns (port: Option<nat>)
    requires IsCStr(buf[..], p, t)
    ensures port == PortOf(t)
  {
    CStrAt(buf[..], p, t, 0);
    if buf[p] == NUL { return None; }
    var len := StrNLen(buf, p, 6, t);
    if len > 1 && buf[p] == '0' { return None; }
    if len > 5 {
      if Canonical(t) { LongIsLarge(t); }
      return None;
    }
    assert t[..len] == t;
    var ok, val := ReadDigits(buf, p, len, t);
    if !ok { return None; }
    if val == 0 { return None; }
    if val > 65535 { return None; }
    port := Some(val);
  }

  /** `tsf_parse_prefix_length`: looks at no more than four characters, which is enough. */
  method ParsePrefixLength(buf: array<char>, p: nat, max: nat, ghost t: string) returns (prefix: Option<nat>)
    requires IsCStr(buf[..], p, t) && max < 1000
    ensures prefix == NumberUpTo(t, max)
  {
    CStrAt(buf[..], p, t, 0);
    if buf[p] == NUL { return None; }
    var len := StrNLen(buf, p, 4, t);
    if len > 1 && buf[p] == '0' { return None; }
    var ok, val := ReadDigits(buf, p, len, t);
    if !ok { return None; }
    if |t| < 4 { assert t[..len] == t; } else {
      LongIsLarge(t[..4]);
      if Canonical(t) { LongIsLarge(t); }
    }
    if val > max { return None; }
    prefix := Some(val);
  }
}
