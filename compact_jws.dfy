/**
 * A stand-in for the compact serialisation of a signed token (section 7.1 of RFC 7515):
 * the subject, the issued-at and the expiry time in milliseconds, and the signature, joined
 * by dots. The library's base64url/JSON layout is not modelled; what the model needs from
 * it is that a serialised token splits back into exactly the parts it was built from.
 * The subject is escaped so that it contains no dot ('%' becomes "%%", '.' becomes "%d").
 */
module CompactJws {
  import opened Wrappers

  const Dot: char := '.'

  predicate IsDigit(c: char) { '0' <= c <= '9' }

  predicate AllDigits(s: string) {
    forall i | 0 <= i < |s| :: IsDigit(s[i])
  }

  function DigitChar(d: nat): (c: char)
    requires d < 10
    ensures IsDigit(c) && c as int - '0' as int == d
  {
    ('0' as int + d) as char
  }

  /** The decimal text of a natural number. */
  function Decimal(n: nat): (s: string)
    ensures |s| > 0 && AllDigits(s)
    decreases n
  {
    if n < 10 then [DigitChar(n)] else Decimal(n / 10) + [DigitChar(n % 10)]
  }

  function ParseDecimal(s: string): nat
    requires AllDigits(s)
    decreases |s|
  {
    if s == [] then 0 else ParseDecimal(s[..|s| - 1]) * 10 + (s[|s| - 1] as int - '0' as int)
  }

  lemma {:induction false} ParseDecimalRoundTrip(n: nat)
    ensures ParseDecimal(Decimal(n)) == n
    decreases n
  {
    if n >= 10 {
      ParseDecimalRoundTrip(n / 10);
      var s := Decimal(n);
      assert s[..|s| - 1] == Decimal(n / 10);
    }
  }

  /** The text of a signed 64-bit time value. */
  function LongText(i: int): (s: string)
    ensures Dot !in s
  {
    if i < 0 then "-" + Decimal(-i) else Decimal(i)
  }

  function ParseLong(s: string): Option<int> {
    if |s| > 1 && s[0] == '-' && AllDigits(s[1..]) then Some(-(ParseDecimal(s[1..]) as int))
    else if |s| > 0 && AllDigits(s) then Some(ParseDecimal(s) as int)
    else None
  }

  lemma ParseLongRoundTrip(i: int)
    ensures ParseLong(LongText(i)) == Some(i)
  {
    var s := LongText(i);
    if i < 0 {
      assert s[1..] == Decimal(-i);
      ParseDecimalRoundTrip(-i);
    } else {
      ParseDecimalRoundTrip(i);
    }
  }

  function EscapeChar(c: char): (e: string)
    ensures Dot !in e
  {
    if c == '%' then "%%" else if c == Dot then "%d" else [c]
  }

  function Escape(s: string): (e: string)
    ensures Dot !in e
    decreases |s|
  {
    if s == [] then [] else EscapeChar(s[0]) + Escape(s[1..])
  }

  function Prepend(c: char, r: Option<string>): Option<string> {
    match r
    case Some(s) => Some([c] + s)
    case None => None
  }

  /** Undoes Escape; text that Escape cannot produce is refused. */
  function Unescape(e: string): Option<string>
    decreases |e|
  {
    if e == [] then Some([])
    else if e[0] == Dot then None
    else if e[0] != '%' then Prepend(e[0], Unescape(e[1..]))
    else if |e| >= 2 && e[1] == '%' then Prepend('%', Unescape(e[2..]))
    else if |e| >= 2 && e[1] == 'd' then Prepend(Dot, Unescape(e[2..]))
    else None
  }

  lemma {:induction false} UnescapeEscape(s: string)
    ensures Unescape(Escape(s)) == Some(s)
    decreases |s|
  {
    if s != [] {
      UnescapeEscape(s[1..]);
      var rest := Escape(s[1..]);
      var e := Escape(s);
      assert e == EscapeChar(s[0]) + rest;
      if s[0] == '%' || s[0] == Dot {
        assert e[2..] == rest;
      } else {
        assert e[1..] == rest;
      }
      assert [s[0]] + s[1..] == s;
    }
  }

  /** Splits at the first dot. */
  function SplitAtDot(s: string): (r: Option<(string, string)>)
    ensures r.Some? ==> Dot !in r.value.0 && s == r.value.0 + [Dot] + r.value.1
    ensures r.None? ==> Dot !in s
    decreases |s|
  {
    if s == [] then None
    else if s[0] == Dot then Some(([], s[1..]))
    else
      match SplitAtDot(s[1..])
      case None => None
      case Some(p) => Some(([s[0]] + p.0, p.1))
  }

  lemma {:induction false} SplitAtDotOf(a: string, b: string)
    requires Dot !in a
    ensures SplitAtDot(a + [Dot] + b) == Some((a, b))
    decreases |a|
  {
    var s := a + [Dot] + b;
    if a == [] {
      assert s[1..] == b;
    } else {
      assert s[0] == a[0];
      assert s[1..] == a[1..] + [Dot] + b;
      SplitAtDotOf(a[1..], b);
      assert [a[0]] + a[1..] == a;
    }
  }

  /** The part of a token that its signature authenticates. */
  function SigningInput(subject: string, issuedAtMs: int, expirationMs: int): string {
    Escape(subject) + [Dot] + LongText(issuedAtMs) + [Dot] + LongText(expirationMs)
  }

  function Compact(subject: string, issuedAtMs: int, expirationMs: int, signature: string): string {
    SigningInput(subject, issuedAtMs, expirationMs) + [Dot] + signature
  }

  datatype Parts = Parts(subject: string, issuedAtMs: int, expirationMs: int, signingInput: string, signature: string)

  /** Splits a token into its parts; None when the text is not a token. */
  function Split(token: string): Option<Parts> {
    match SplitAtDot(token)
    case None => None
    case Some((subj, rest1)) =>
      match SplitAtDot(rest1)
      case None => None
      case Some((iat, rest2)) =>
        match SplitAtDot(rest2)
        case None => None
        case Some((exp, signature)) =>
          match (Unescape(subj), ParseLong(iat), ParseLong(exp))
          case (Some(s), Some(i), Some(x)) => Some(Parts(s, i, x, subj + [Dot] + iat + [Dot] + exp, signature))
          case _ => None
  }

  /** A serialised token splits back into the parts it was built from. */
  lemma SplitCompact(subject: string, issuedAtMs: int, expirationMs: int, signature: string)
    ensures Split(Compact(subject, issuedAtMs, expirationMs, signature))
         == Some(Parts(subject, issuedAtMs, expirationMs, SigningInput(subject, issuedAtMs, expirationMs), signature))
  {
    var e, i, x := Escape(subject), LongText(issuedAtMs), LongText(expirationMs);
    assert Compact(subject, issuedAtMs, expirationMs, signature) == e + [Dot] + (i + [Dot] + x + [Dot] + signature);
    SplitAtDotOf(e, i + [Dot] + x + [Dot] + signature);
    assert i + [Dot] + x + [Dot] + signature == i + [Dot] + (x + [Dot] + signature);
    SplitAtDotOf(i, x + [Dot] + signature);
    SplitAtDotOf(x, signature);
    UnescapeEscape(subject);
    ParseLongRoundTrip(issuedAtMs);
    ParseLongRoundTrip(expirationMs);
  }
}
