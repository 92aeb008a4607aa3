/**
  Octet strings as they travel on the control connection, and the decimal
  rendering fmt's `%d` gives a length. A Go `string` and a `[]byte` are both
  octet sequences here: the wire does not tell them apart.
 */
module Octets {
  import opened Wrappers

  /** One octet. */
  newtype byte = b: int | 0 <= b < 256

  type Bytes = seq<byte>

  /** The octets of a literal written in ASCII (every literal of the model is). */
  function Ascii(s: string): Bytes
  {
    seq(|s|, i requires 0 <= i < |s| => (s[i] as int % 256) as byte)
  }

  /** strings.HasPrefix on octet strings. */
  predicate HasPrefix(s: Bytes, p: Bytes)
  {
    p <= s
  }

  predicate HasSuffix(s: Bytes, p: Bytes)
  {
    |p| <= |s| && s[|s| - |p|..] == p
  }

  // ----- decimal numerals -----

  /** '0' ..= '9'. */
  predicate IsDigit(b: byte)
  {
    48 <= b <= 57
  }

  predicate AllDigits(s: Bytes)
  {
    forall i :: 0 <= i < |s| ==> IsDigit(s[i])
  }

  /** A numeral as `%d` prints one: at least one digit, no leading zero. */
  predicate Canonical(s: Bytes)
  {
    |s| >= 1 && AllDigits(s) && (|s| == 1 || s[0] != 48)
  }

  /** fmt's `%d` of a non-negative int. */
  function Decimal(n: nat): (r: Bytes)
    ensures Canonical(r)
    ensures r[0] == 48 ==> n == 0
    decreases n
  {
    if n < 10 then [(48 + n) as byte]
    else Decimal(n / 10) + [(48 + n % 10) as byte]
  }

  /** The value a reader assigns to a run of digits. */
  function DecimalValue(s: Bytes): nat
    requires AllDigits(s)
    decreases |s|
  {
    if s == [] then 0
    else DecimalValue(s[..|s| - 1]) * 10 + (s[|s| - 1] as int - 48)
  }

  /** Reading back a printed length gives the length. */
  lemma {:induction false} DecimalRoundTrip(n: nat)
    ensures DecimalValue(Decimal(n)) == n
    decreases n
  {
    if n >= 10 {
      DecimalRoundTrip(n / 10);
      var r := Decimal(n);
      assert r[..|r| - 1] == Decimal(n / 10);
    }
  }

  /** A numeral with a first digit other than '0' denotes a positive number. */
  lemma {:induction false} LeadingDigitPositive(s: Bytes)
    requires |s| >= 1 && AllDigits(s) && s[0] != 48
    ensures DecimalValue(s) >= 1
    decreases |s|
  {
    if |s| > 1 {
      var init := s[..|s| - 1];
      assert init[0] == s[0];
      LeadingDigitPositive(init);
    }
  }

  /** Printing the value of a canonical numeral gives the numeral back. */
  lemma {:induction false} DecimalOfValue(s: Bytes)
    requires Canonical(s)
    ensures Decimal(DecimalValue(s)) == s
    decreases |s|
  {
    if |s| > 1 {
      var init := s[..|s| - 1];
      var d := s[|s| - 1] as int - 48;
      assert init[0] == s[0];
      LeadingDigitPositive(init);
      DecimalOfValue(init);
      var v := DecimalValue(init);
      assert DecimalValue(s) == v * 10 + d;
      assert (v * 10 + d) / 10 == v && (v * 10 + d) % 10 == d;
      assert s == init + [s[|s| - 1]];
    }
  }

  /** The length of the longest run of digits that starts `s`. */
  function DigitRun(s: Bytes): (k: nat)
    ensures k <= |s|
    ensures AllDigits(s[..k])
    ensures k == |s| || !IsDigit(s[k])
    decreases |s|
  {
    if s == [] || !IsDigit(s[0]) then 0 else 1 + DigitRun(s[1..])
  }

  /** A digit run followed by a non-digit is read exactly. */
  lemma DigitRunStops(ds: Bytes, s: Bytes)
    requires AllDigits(ds)
    requires s != [] && !IsDigit(s[0])
    ensures DigitRun(ds + s) == |ds|
  {
    assert (ds + s)[|ds|] == s[0];
    assert forall i :: 0 <= i < |ds| ==> (ds + s)[i] == ds[i];
  }

  /** A numeral as a reader takes it from the front of `s`: its value and what follows, when it is canonical. */
  function ParseNumeral(s: Bytes): Option<(nat, Bytes)>
  {
    var d := DigitRun(s);
    if d == 0 || (d > 1 && s[0] == 48) then None
    else Some((DecimalValue(s[..d]), s[d..]))
  }

  /** A printed number followed by a non-digit reads back as itself. */
  lemma NumeralRoundTrip(n: nat, rest: Bytes)
    requires rest != [] && !IsDigit(rest[0])
    ensures ParseNumeral(Decimal(n) + rest) == Some((n, rest))
  {
    var s := Decimal(n) + rest;
    DigitRunStops(Decimal(n), rest);
    assert s[..|Decimal(n)|] == Decimal(n);
    assert s[|Decimal(n)|..] == rest;
    assert s[0] == Decimal(n)[0];
    DecimalRoundTrip(n);
  }

  /** Every numeral read is a printed number followed by the rest. */
  lemma NumeralSound(s: Bytes)
    requires ParseNumeral(s).Some?
    ensures s == Decimal(ParseNumeral(s).value.0) + ParseNumeral(s).value.1
  {
    var d := DigitRun(s);
    var digits := s[..d];
    assert digits[0] == s[0];
    DecimalOfValue(digits);
    assert s == digits + s[d..];
  }

  /** `s` without the literal `p` in front, when it starts with it. */
  function StripPrefix(s: Bytes, p: Bytes): Option<Bytes>
  {
    if HasPrefix(s, p) then Some(s[|p|..]) else None
  }

  lemma StripConcat(p: Bytes, s: Bytes)
    ensures StripPrefix(p + s, p) == Some(s)
  {
    assert (p + s)[..|p|] == p;
    assert (p + s)[|p|..] == s;
  }

  lemma StripSound(s: Bytes, p: Bytes)
    requires StripPrefix(s, p).Some?
    ensures s == p + StripPrefix(s, p).value
  {
    assert s == s[..|p|] + s[|p|..];
  }
}
