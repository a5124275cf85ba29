/** Base-58 text for byte strings: what the two conversions mean, and that each undoes the other. */
module Base58 {
  import opened Prelude
  import opened Arith

  // ---------------------------------------------------------------- digits

  function Pow(b: nat, n: nat): nat { if n == 0 then 1 else b * Pow(b, n - 1) }

  /** The number that digits of base `b` spell, most significant first. */
  function Num(b: nat, ds: seq<nat>): nat { if ds == [] then 0 else Num(b, ds[..|ds| - 1]) * b + ds[|ds| - 1] }

  /** The digits of a number, without leading zeros. */
  function Digits(b: nat, n: nat): (ds: seq<nat>)
    requires b >= 2
    ensures Below(b, ds)
    decreases n
  {
    if n == 0 then [] else
      DivShrinks(n, b);
      Digits(b, n / b) + [n % b]
  }

  predicate Below(b: nat, ds: seq<nat>) { forall i :: 0 <= i < |ds| ==> ds[i] < b }

  lemma DivShrinks(n: nat, b: nat)
    requires n >= 1 && b >= 2
    ensures n / b < n
  {
    var q := n / b;
    assert n == q * b + n % b;
    if q >= n { MulOrder(2, b, q); }
  }

  function LeadingZeros(ds: seq<nat>): (n: nat)
    ensures n <= |ds|
  {
    if ds == [] || ds[0] != 0 then 0 else 1 + LeadingZeros(ds[1..])
  }

  function Strip(ds: seq<nat>): seq<nat> { ds[LeadingZeros(ds)..] }

  function Zeros(n: nat): seq<nat> { seq(n, _ => 0) }

  lemma {:induction false} ZerosThenStrip(ds: seq<nat>)
    ensures ds == Zeros(LeadingZeros(ds)) + Strip(ds)
    ensures Strip(ds) != [] ==> Strip(ds)[0] != 0
  {
    if ds != [] && ds[0] == 0 { ZerosThenStrip(ds[1..]); }
  }

  lemma {:induction false} LeadingZerosOf(n: nat, ds: seq<nat>)
    requires ds == [] || ds[0] != 0
    ensures LeadingZeros(Zeros(n) + ds) == n && Strip(Zeros(n) + ds) == ds
  {
    if n == 0 {
      assert Zeros(0) + ds == ds;
    } else {
      LeadingZerosOf(n - 1, ds);
      assert (Zeros(n) + ds)[1..] == Zeros(n - 1) + ds;
    }
  }

  lemma {:induction false} NumStrip(b: nat, ds: seq<nat>)
    ensures Num(b, Strip(ds)) == Num(b, ds)
    decreases |ds|
  {
    if ds != [] {
      var n := |ds| - 1;
      NumStrip(b, ds[..n]);
      StripInit(ds);
    }
  }

  lemma {:induction false} StripInit(ds: seq<nat>)
    requires ds != []
    ensures var n := |ds| - 1;
            Strip(ds) == if LeadingZeros(ds[..n]) == n && ds[n] == 0 then [] else Strip(ds[..n]) + [ds[n]]
    decreases |ds|
  {
    var n := |ds| - 1;
    if n > 0 && ds[0] == 0 {
      StripInit(ds[1..]);
      assert ds[1..][..n - 1] == ds[..n][1..];
    }
  }

  /** Digits without leading zeros are the digits of the number they spell. */
  lemma {:induction false} DigitsOfNum(b: nat, ds: seq<nat>)
    requires b >= 2 && Below(b, ds) && (ds != [] ==> ds[0] != 0)
    ensures Digits(b, Num(b, ds)) == ds
    ensures ds != [] ==> Num(b, ds) > 0
    decreases |ds|
  {
    if ds != [] {
      var n := |ds| - 1;
      DigitsOfNum(b, ds[..n]);
      DivModUnique(Num(b, ds), b, Num(b, ds[..n]), ds[n]);
      if n > 0 { MulOrder(1, b, Num(b, ds[..n])); }
    }
  }

  lemma {:induction false} NumOfDigits(b: nat, n: nat)
    requires b >= 2
    ensures Num(b, Digits(b, n)) == n
    ensures n > 0 ==> Digits(b, n) != [] && Digits(b, n)[0] != 0
    decreases n
  {
    hide Num, Digits;
    DigitsStep(b, n);
    if n > 0 {
      var q, r := n / b, n % b;
      DivShrinks(n, b);
      NumOfDigits(b, q);
      DigitsStep(b, q);
      NumAppend(b, Digits(b, q), r);
      assert n == q * b + r;
    }
  }

  lemma DigitsStep(b: nat, n: nat)
    requires b >= 2
    ensures Num(b, []) == 0 && Digits(b, n) == if n == 0 then [] else Digits(b, n / b) + [n % b]
  {}

  lemma NumAppend(b: nat, ds: seq<nat>, d: nat)
    ensures Num(b, ds + [d]) == Num(b, ds) * b + d
  {
    assert (ds + [d])[..|ds|] == ds;
  }

  // ---------------------------------------------------------------- the alphabet

  /** Digits and letters in order, without 0, I, O and l. */
  function CharOf(d: nat): char
    requires d < 58
  {
    if d < 9 then '1' + d as char
    else if d < 17 then 'A' + (d - 9) as char
    else if d < 22 then 'J' + (d - 17) as char
    else if d < 33 then 'P' + (d - 22) as char
    else if d < 44 then 'a' + (d - 33) as char
    else 'm' + (d - 44) as char
  }

  function DigitOf(c: char): Option<nat> {
    if '1' <= c <= '9' then Some((c - '1') as nat)
    else if 'A' <= c <= 'H' then Some((c - 'A') as nat + 9)
    else if 'J' <= c <= 'N' then Some((c - 'J') as nat + 17)
    else if 'P' <= c <= 'Z' then Some((c - 'P') as nat + 22)
    else if 'a' <= c <= 'k' then Some((c - 'a') as nat + 33)
    else if 'm' <= c <= 'z' then Some((c - 'm') as nat + 44)
    else None
  }

  lemma AlphabetIsBijective(c: char, d: nat)
    ensures DigitOf(c) == Some(d) <==> d < 58 && CharOf(d) == c
    ensures DigitOf(c).Some? ==> !IsSpace(c)
  {}

  predicate IsSpace(c: char) { c == ' ' || '\U{0009}' <= c <= '\U{000d}' }

  function Text(ds: seq<nat>): string
    requires Below(58, ds)
  {
    seq(|ds|, i requires 0 <= i < |ds| => CharOf(ds[i]))
  }

  // ---------------------------------------------------------------- what the conversions mean

  function Encode(v: seq<nat>): string { Text(Zeros(LeadingZeros(v)) + Digits(58, Num(256, v))) }

  function SkipSpaces(s: string): string { if s != [] && IsSpace(s[0]) then SkipSpaces(s[1..]) else s }

  /** The characters up to the first space, as digits; `None` at the first that is no digit. */
  function Parse(s: string): (r: Option<seq<nat>>)
    ensures r.Some? ==> |r.value| <= |s|
  {
    if s == [] || IsSpace(s[0]) then Some([])
    else if DigitOf(s[0]).None? then None
    else match Parse(s[1..])
         case None => None
         case Some(ds) => Some([DigitOf(s[0]).value] + ds)
  }

  function Decode(s: string): Option<seq<nat>> {
    var body := SkipSpaces(s);
    match Parse(body)
    case None => None
    case Some(ds) =>
      if SkipSpaces(body[|ds|..]) == [] then Some(Zeros(LeadingZeros(ds)) + Digits(256, Num(58, ds)))
      else None
  }

  lemma {:induction false} ParseText(ds: seq<nat>)
    requires Below(58, ds)
    ensures Parse(Text(ds)) == Some(ds) && SkipSpaces(Text(ds)) == Text(ds)
  {
    if ds != [] {
      var c := CharOf(ds[0]);
      AlphabetIsBijective(c, ds[0]);
      assert Text(ds) == [c] + Text(ds[1..]) && Text(ds)[1..] == Text(ds[1..]);
      assert ds == [ds[0]] + ds[1..];
      ParseText(ds[1..]);
    }
  }

  lemma {:induction false} ParseInverse(s: string)
    requires Parse(s).Some? && forall i :: 0 <= i < |s| ==> !IsSpace(s[i])
    ensures Below(58, Parse(s).value) && Text(Parse(s).value) == s
  {
    if s != [] {
      AlphabetIsBijective(s[0], DigitOf(s[0]).value);
      ParseInverse(s[1..]);
      assert s == [s[0]] + s[1..];
    }
  }

  /** Changing the base of a string and changing it back, with leading zeros kept apart. */
  lemma RebaseTwice(from: nat, to: nat, v: seq<nat>)
    requires from >= 2 && to >= 2 && Below(from, v)
    ensures var ds := Zeros(LeadingZeros(v)) + Digits(to, Num(from, v));
            Zeros(LeadingZeros(ds)) + Digits(from, Num(to, ds)) == v
  {
    var n, z := Num(from, v), LeadingZeros(v);
    var ds := Zeros(z) + Digits(to, n);
    NumOfDigits(to, n);
    LeadingZerosOf(z, Digits(to, n));
    NumStrip(to, ds);
    NumStrip(from, v);
    ZerosThenStrip(v);
    DigitsOfNum(from, Strip(v));
  }

  /** Every byte string comes back. */
  lemma DecodeEncode(v: seq<nat>)
    requires Below(256, v)
    ensures Decode(Encode(v)) == Some(v)
  {
    var ds := Zeros(LeadingZeros(v)) + Digits(58, Num(256, v));
    ParseText(ds);
    RebaseTwice(256, 58, v);
    assert Text(ds)[|ds|..] == [];
  }

  /** Every valid text without spaces comes back. */
  lemma EncodeDecode(s: string)
    requires Decode(s).Some? && forall i :: 0 <= i < |s| ==> !IsSpace(s[i])
    ensures Below(256, Decode(s).value) && Encode(Decode(s).value) == s
  {
    ParseInverse(s);
    RebaseTwice(58, 256, Parse(s).value);
  }

  // ---------------------------------------------------------------- with a checksum

  /** The first four bytes of the double hash, as a function of the payload. */
  type Checksum = seq<nat> -> (nat, nat, nat, nat)

  function Sum(check: Checksum, v: seq<nat>): (c: seq<nat>)
    ensures |c| == 4
  {
    var (a, b, c, d) := check(v);
    [a, b, c, d]
  }

  function EncodeCheck(check: Checksum, v: seq<nat>): string { Encode(v + Sum(check, v)) }

  function DecodeCheck(check: Checksum, s: string): Option<seq<nat>> {
    match Decode(s)
    case None => None
    case Some(b) =>
      if |b| < 4 || Sum(check, b[..|b| - 4]) != b[|b| - 4..] then None else Some(b[..|b| - 4])
  }

  /** A text is accepted for a payload exactly when it decodes to the payload and its checksum. */
  lemma CheckIff(check: Checksum, s: string, v: seq<nat>)
    ensures DecodeCheck(check, s) == Some(v) <==> Decode(s) == Some(v + Sum(check, v))
  {
    var w := v + Sum(check, v);
    assert w[..|w| - 4] == v && w[|w| - 4..] == Sum(check, v);
    if Decode(s).Some? {
      var b := Decode(s).value;
      if |b| >= 4 { assert b == b[..|b| - 4] + b[|b| - 4..]; }
    }
  }

  lemma CheckRoundTrip(check: Checksum, v: seq<nat>)
    requires Below(256, v + Sum(check, v))
    ensures DecodeCheck(check, EncodeCheck(check, v)) == Some(v)
  {
    DecodeEncode(v + Sum(check, v));
    CheckIff(check, EncodeCheck(check, v), v);
  }
}
