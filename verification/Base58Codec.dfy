/** The in-place base conversions behind the base-58 text, and why their buffers are always large enough. */
module Base58Codec {
  import opened Prelude
  import opened Arith
  import opened Base58

  // ---------------------------------------------------------------- powers

  lemma PowStep(b: nat, n: nat)
    ensures Pow(b, 0) == 1 && Pow(b, n + 1) == b * Pow(b, n)
  {}

  lemma Regroup(x: nat, y: nat, z: nat)
    ensures x * (y * z) == x * y * z
  {}

  lemma {:induction false} PowAdd(b: nat, m: nat, n: nat)
    ensures Pow(b, m + n) == Pow(b, m) * Pow(b, n)
  {
    hide Pow;
    PowStep(b, 0);
    if m > 0 {
      PowAdd(b, m - 1, n);
      PowStep(b, m - 1);
      PowStep(b, m - 1 + n);
      Regroup(b, Pow(b, m - 1), Pow(b, n));
    }
  }

  lemma {:induction false} PowPow(b: nat, m: nat, n: nat)
    ensures Pow(Pow(b, m), n) == Pow(b, m * n)
  {
    hide Pow;
    PowStep(b, 0);
    PowStep(Pow(b, m), 0);
    if n > 0 {
      PowPow(b, m, n - 1);
      PowStep(Pow(b, m), n - 1);
      assert m * n == m + m * (n - 1);
      PowAdd(b, m, m * (n - 1));
    }
  }

  lemma PowSwap(b: nat, m: nat, n: nat)
    ensures Pow(Pow(b, m), n) == Pow(Pow(b, n), m)
  {
    hide Pow;
    PowPow(b, m, n);
    PowPow(b, n, m);
    assert m * n == n * m;
  }

  lemma {:induction false} PowPositive(b: nat, n: nat)
    requires b >= 1
    ensures Pow(b, n) >= 1
  {
    if n > 0 {
      PowPositive(b, n - 1);
      MulOrder(1, b, Pow(b, n - 1));
    }
  }

  lemma PowMonotone(b: nat, m: nat, n: nat)
    requires b >= 1 && m <= n
    ensures Pow(b, m) <= Pow(b, n)
  {
    hide Pow;
    PowAdd(b, m, n - m);
    PowPositive(b, n - m);
    MulOrder(1, Pow(b, n - m), Pow(b, m));
  }

  lemma {:induction false} PowOfLarger(x: nat, y: nat, k: nat)
    requires x <= y
    ensures Pow(x, k) <= Pow(y, k)
  {
    if k > 0 {
      PowOfLarger(x, y, k - 1);
      MulOrder(Pow(x, k - 1), Pow(y, k - 1), x);
      MulOrder(x, y, Pow(y, k - 1));
    }
  }

  lemma {:induction false} PowStrict(x: nat, y: nat, k: nat)
    requires x < y && k >= 1
    ensures Pow(x, k) < Pow(y, k)
  {
    if k == 1 {
      assert Pow(x, 0) == 1 && Pow(y, 0) == 1;
    } else {
      PowStrict(x, y, k - 1);
      MulOrder(Pow(x, k - 1), Pow(y, k - 1), x);
      PowPositive(y, k - 1);
      MulOrder(x + 1, y, Pow(y, k - 1));
    }
  }

  /** Roots keep the order. */
  lemma RootOrder(x: nat, y: nat, k: nat)
    requires k >= 1 && Pow(x, k) <= Pow(y, k)
    ensures x <= y
  {
    if x > y { PowStrict(y, x, k); }
  }

  /** If `p` digits of base `a` fit in `q` digits of base `b`, any `n` fit in `m` once `n * q <= m * p`. */
  lemma FitsByRatio(a: nat, b: nat, p: nat, q: nat, n: nat, m: nat, nq: nat, mp: nat)
    requires a >= 1 && b >= 1 && p >= 1 && Pow(a, p) <= Pow(b, q) && nq == n * q && mp == m * p && nq <= mp
    ensures Pow(a, n) <= Pow(b, m)
  {
    hide Pow;
    PowPow(b, n, q);
    PowPow(b, m, p);
    PowMonotone(b, nq, mp);
    FitsByRoots(a, b, p, q, n, m);
  }

  lemma FitsByRoots(a: nat, b: nat, p: nat, q: nat, n: nat, m: nat)
    requires p >= 1 && Pow(a, p) <= Pow(b, q) && Pow(Pow(b, n), q) <= Pow(Pow(b, m), p)
    ensures Pow(a, n) <= Pow(b, m)
  {
    hide Pow;
    PowSwap(a, n, p);
    PowOfLarger(Pow(a, p), Pow(b, q), n);
    PowSwap(b, q, n);
    RootOrder(Pow(a, n), Pow(b, m), p);
  }

  lemma PowersOf58()
    ensures Pow(58, 1) == 58 && Pow(58, 8) == 128063081718016 && Pow(58, 11) == 24986644000165537792
    ensures Pow(58, 4) == 11316496 && Pow(58, 2) == 3364
  {
    assert Pow(58, 0) == 1 && Pow(58, 1) == 58 && Pow(58, 2) == 3364;
    PowAdd(58, 2, 2);
    PowAdd(58, 4, 4);
    PowAdd(58, 8, 2);
    PowAdd(58, 10, 1);
  }

  lemma PowersOf256()
    ensures Pow(256, 4) == 4294967296 && Pow(256, 8) == 18446744073709551616
  {
    assert Pow(256, 0) == 1 && Pow(256, 1) == 256 && Pow(256, 2) == 65536;
    PowAdd(256, 2, 2);
    PowAdd(256, 4, 4);
  }

  lemma Pow58To71()
    ensures Pow(58, 71) == 159730386663078066345306447337161584696769904898410078913243029577507397293846405390982563136983769384625594118558891106107392
  {
    hide Pow;
    PowersOf58();
    PowAdd(58, 8, 8);
    PowAdd(58, 16, 16);
    PowAdd(58, 32, 32);
    PowAdd(58, 64, 2);
    PowAdd(58, 66, 4);
    PowAdd(58, 70, 1);
  }

  lemma Pow256To52()
    ensures Pow(256, 52) == 169230328010303641331690318856389386196071598838855992136870091590247882556495704531248437872567112920983350278405979725889536
  {
    hide Pow;
    PowersOf256();
    PowAdd(256, 8, 8);
    PowAdd(256, 16, 16);
    PowAdd(256, 32, 16);
    PowAdd(256, 48, 4);
  }

  /** The buffer for the text always suffices: 58^11 >= 256^8. */
  lemma TextFits(n: nat)
    ensures Pow(256, n) <= Pow(58, n * 138 / 100 + 1)
  {
    hide Pow;
    PowersOf58();
    PowersOf256();
    FitsByRatio(256, 58, 8, 11, n, n * 138 / 100 + 1, n * 11, (n * 138 / 100 + 1) * 8);
  }

  /** The buffer for the bytes always suffices: 256^52 >= 58^71. */
  lemma BytesFit(n: nat)
    ensures Pow(58, n) <= Pow(256, n * 733 / 1000 + 1)
  {
    hide Pow;
    Pow58To71();
    Pow256To52();
    FitsByRatio(58, 256, 71, 52, n, n * 733 / 1000 + 1, n * 52, (n * 733 / 1000 + 1) * 71);
  }

  // ---------------------------------------------------------------- multiply and add, in place

  lemma {:induction false} NumSplit(b: nat, x: seq<nat>, y: seq<nat>)
    ensures Num(b, x + y) == Num(b, x) * Pow(b, |y|) + Num(b, y)
    decreases |y|
  {
    hide Num;
    NoNum(b);
    if y == [] {
      assert x + y == x;
      assert Pow(b, 0) == 1;
    } else {
      var n := |y| - 1;
      NumSplit(b, x, y[..n]);
      NumAppend(b, x + y[..n], y[n]);
      NumAppend(b, y[..n], y[n]);
      assert x + y == x + y[..n] + [y[n]] && y == y[..n] + [y[n]];
      var u, p, v := Num(b, x), Pow(b, n), Num(b, y[..n]);
      assert (u * p + v) * b == u * (b * p) + v * b;
    }
  }

  lemma NoNum(b: nat)
    ensures Num(b, []) == 0 && Pow(b, 0) == 1
  {}

  lemma {:induction false} NumBelow(b: nat, ds: seq<nat>)
    requires b >= 1 && Below(b, ds)
    ensures Num(b, ds) < Pow(b, |ds|)
    decreases |ds|
  {
    if ds != [] {
      var n := |ds| - 1;
      NumBelow(b, ds[..n]);
      MulOrder(Num(b, ds[..n]), Pow(b, n) - 1, b);
      assert (Pow(b, n) - 1) * b == b * Pow(b, n) - b;
    }
  }

  lemma {:induction false} NumOfZeros(b: nat, ds: seq<nat>)
    requires forall i :: 0 <= i < |ds| ==> ds[i] == 0
    ensures Num(b, ds) == 0
  {
    if ds != [] { NumOfZeros(b, ds[..|ds| - 1]); }
  }

  /** The digits done so far and the carry are what the old digits come to. */
  predicate Carries(b: nat, low: seq<nat>, oldLow: seq<nat>, carry: nat, factor: nat, add: nat) {
    |low| == |oldLow| && Num(b, low) + carry * Pow(b, |low|) == Num(b, oldLow) * factor + add
  }

  lemma CarryDigit(b: nat, low: seq<nat>, oldLow: seq<nat>, d: nat, carry: nat, factor: nat, add: nat)
    requires b >= 1 && Carries(b, low, oldLow, carry, factor, add)
    ensures var c := Accumulate(carry, factor, d);
            Carries(b, [Remainder(c, b)] + low, [d] + oldLow, Quotient(c, b), factor, add)
  {
    hide Num, Pow;
    var c, p := Accumulate(carry, factor, d), Pow(b, |low|);
    var r, q := Remainder(c, b), Quotient(c, b);
    NumSplit(b, [r], low);
    NumSplit(b, [d], oldLow);
    OneDigit(b, r);
    OneDigit(b, d);
    PowStep(b, |low|);
    CarryAlgebra(b, p, c, r, q, carry, d, factor, Num(b, oldLow));
  }

  function Accumulate(carry: nat, factor: nat, d: nat): nat { carry + factor * d }

  function Remainder(c: nat, b: nat): (r: nat)
    requires b >= 1
    ensures r < b
  {
    c % b
  }

  lemma NothingCarried(b: nat, factor: nat, add: nat)
    ensures Carries(b, [], [], add, factor, add)
  {}

  lemma OneDigit(b: nat, d: nat)
    ensures Num(b, [d]) == d
  {
    assert [d][..0] == [];
  }

  lemma CarryAlgebra(b: nat, p: nat, c: nat, r: nat, q: nat, carry: nat, d: nat, factor: nat, v: nat)
    requires c == q * b + r && c == carry + factor * d
    ensures r * p + q * (b * p) == carry * p + d * p * factor
    ensures (d * p + v) * factor == d * p * factor + v * factor
  {
    assert c * p == (q * b + r) * p;
    assert q * b * p == q * (b * p);
    assert factor * d * p == d * p * factor;
  }

  /** All digits before the last `length` are zero. */
  predicate ZeroBefore(ds: seq<nat>, length: nat) { length <= |ds| && forall i :: 0 <= i < |ds| - length ==> ds[i] == 0 }

  /** The buffer becomes `buffer * factor + add`; with room for the result the last carry is zero. */
  method MulAdd(buf: array<nat>, base: nat, factor: nat, add: nat, length: nat) returns (used: nat)
    requires base >= 2 && Below(base, buf[..]) && ZeroBefore(buf[..], length)
    requires Num(base, buf[..]) * factor + add < Pow(base, buf.Length)
    modifies buf
    ensures Below(base, buf[..]) && ZeroBefore(buf[..], used)
    ensures Num(base, buf[..]) == old(Num(base, buf[..])) * factor + add
  {
    hide Num, Pow, Carries, Accumulate, Remainder, Quotient;
    ghost var was, m := buf[..], buf.Length;
    var carry: nat := add;
    var i := 0;
    NothingCarried(base, factor, add);
    assert buf[..][m..] == [] && was[m..] == [];
    while (carry != 0 || i < length) && i < buf.Length
      invariant 0 <= i <= buf.Length && Below(base, buf[..])
      invariant buf[..][..m - i] == was[..m - i]
      invariant Carries(base, buf[..][m - i..], was[m - i..], carry, factor, add)
      decreases buf.Length - i
    {
      var j := buf.Length - 1 - i;
      ghost var now := buf[..];
      SliceStep(was, now, j, Remainder(Accumulate(carry, factor, now[j]), base));
      CarryDigit(base, now[j + 1..], was[j + 1..], now[j], carry, factor, add);
      carry := Accumulate(carry, factor, buf[j]);
      buf[j] := Remainder(carry, base);
      carry := Quotient(carry, base);
      i := i + 1;
      assert buf[..] == now[j := buf[j]];
    }
    used := i;
    Finish(base, was, buf[..], i, carry, factor, add, length);
    assert carry == 0;
  }

  lemma SliceStep(was: seq<nat>, now: seq<nat>, j: nat, x: nat)
    requires |was| == |now| && j < |now| && now[..j + 1] == was[..j + 1]
    ensures var next := now[j := x];
            && now[j] == was[j] && next[..j] == was[..j]
            && next[j..] == [x] + now[j + 1..] && was[j..] == [was[j]] + was[j + 1..]
  {
    assert now[j] == now[..j + 1][j] == was[..j + 1][j] == was[j];
    assert now[..j] == now[..j + 1][..j] && was[..j] == was[..j + 1][..j];
  }

  lemma NumZeroPrefix(b: nat, ds: seq<nat>, m: nat)
    requires m <= |ds| && forall i :: 0 <= i < m ==> ds[i] == 0
    ensures Num(b, ds) == Num(b, ds[m..])
  {
    hide Num, Pow;
    assert ds == ds[..m] + ds[m..];
    NumSplit(b, ds[..m], ds[m..]);
    NumOfZeros(b, ds[..m]);
  }

  lemma NoCarry(carry: nat, p: nat, v: nat, total: nat)
    requires v + carry * p == total < p
    ensures carry == 0
  {
    if carry >= 1 { MulOrder(1, carry, p); }
  }

  lemma Finish(base: nat, was: seq<nat>, now: seq<nat>, i: nat, carry: nat, factor: nat, add: nat, length: nat)
    requires |was| == |now| && i <= |now| && now[..|now| - i] == was[..|now| - i] && ZeroBefore(was, length)
    requires Carries(base, now[|now| - i..], was[|now| - i..], carry, factor, add)
    requires i == |now| || (carry == 0 && i >= length)
    requires Num(base, was) * factor + add < Pow(base, |now|)
    ensures carry == 0 && ZeroBefore(now, i) && Num(base, now) == Num(base, was) * factor + add
  {
    hide Num, Pow;
    var m := |now| - i;
    if i == |now| {
      assert now[m..] == now && was[m..] == was;
      NoCarry(carry, Pow(base, i), Num(base, now), Num(base, was) * factor + add);
    } else {
      assert forall j :: 0 <= j < m ==> now[j] == now[..m][j] == was[..m][j] == was[j];
      NumZeroPrefix(base, now, m);
      NumZeroPrefix(base, was, m);
    }
  }

  // ---------------------------------------------------------------- the two conversions

  /** The digits of a buffer from its first nonzero one. */
  method TrimZeros(buf: array<nat>, length: nat) returns (ds: seq<nat>)
    requires ZeroBefore(buf[..], length)
    ensures ds == Strip(buf[..])
  {
    var it := buf.Length - length;
    while it < buf.Length && buf[it] == 0
      invariant it <= buf.Length && forall i :: 0 <= i < it ==> buf[i] == 0
    {
      it := it + 1;
    }
    ds := buf[it..];
    assert buf[..] == Zeros(it) + ds;
    LeadingZerosOf(it, ds);
  }

  /** There is room for one more digit of what is being read. */
  lemma RoomForNext(from: nat, to: nat, ds: seq<nat>, d: nat, total: nat, size: nat)
    requires from >= 2 && to >= 2 && Below(from, ds) && d < from && |ds| < total && Pow(from, total) <= Pow(to, size)
    ensures Num(from, ds) * from + d == Num(from, ds + [d]) && Num(from, ds) * from + d < Pow(to, size)
  {
    hide Num, Pow;
    NumAppend(from, ds, d);
    NumBelow(from, ds + [d]);
    PowMonotone(from, |ds| + 1, total);
  }

  /** A buffer that spells `n` gives the digits of `n`. */
  lemma TrimmedIs(b: nat, ds: seq<nat>)
    requires b >= 2 && Below(b, ds)
    ensures Strip(ds) == Digits(b, Num(b, ds))
  {
    hide Num, Digits;
    NumStrip(b, ds);
    ZerosThenStrip(ds);
    DigitsOfNum(b, Strip(ds));
  }

  method EncodeBase58(v: seq<nat>) returns (s: string)
    requires Below(256, v)
    ensures s == Encode(v)
  {
    hide Num, Pow, Digits, LeadingZeros;
    var zeroes := CountZeros(v);
    var rest := v[zeroes..];
    var size := |rest| * 138 / 100 + 1;
    TextFits(|rest|);
    var b58 := new nat[size](_ => 0);
    var length := 0;
    NumOfZeros(58, b58[..]);
    NoNum(256);
    for k := 0 to |rest|
      invariant Below(58, b58[..]) && ZeroBefore(b58[..], length) && fresh(b58)
      invariant Num(58, b58[..]) == Num(256, rest[..k])
    {
      RoomForNext(256, 58, rest[..k], rest[k], |rest|, size);
      assert rest[..k + 1] == rest[..k] + [rest[k]];
      length := MulAdd(b58, 58, 256, rest[k], length);
    }
    assert rest[..|rest|] == rest;
    var ds := TrimZeros(b58, length);
    TrimmedIs(58, b58[..]);
    NumStrip(256, v);
    s := seq(zeroes, _ => '1') + Text(ds);
    assert s == Text(Zeros(zeroes) + ds);
  }

  method CountZeros(v: seq<nat>) returns (n: nat)
    ensures n == LeadingZeros(v) && v[n..] == Strip(v)
  {
    n := 0;
    while n < |v| && v[n] == 0
      invariant n <= |v| && forall i :: 0 <= i < n ==> v[i] == 0
    {
      n := n + 1;
    }
    assert v == Zeros(n) + v[n..];
    LeadingZerosOf(n, v[n..]);
  }

  /** The rest of the text parses after the digits already read. */
  predicate Reads(s: string, ds: seq<nat>, left: string) {
    |ds| + |left| == |s| && s[|ds|..] == left
    && Parse(s) == match Parse(left) { case None => None case Some(more) => Some(ds + more) }
  }

  lemma ReadsNext(s: string, ds: seq<nat>, left: string)
    requires Reads(s, ds, left) && left != [] && !IsSpace(left[0])
    ensures DigitOf(left[0]).None? ==> Parse(s).None?
    ensures DigitOf(left[0]).Some? ==> Reads(s, ds + [DigitOf(left[0]).value], left[1..])
  {
    if DigitOf(left[0]).Some? && Parse(left[1..]).Some? {
      var d, more := DigitOf(left[0]).value, Parse(left[1..]).value;
      assert ds + ([d] + more) == ds + [d] + more;
    }
  }

  method SkipSpacesFrom(s: string, start: nat) returns (p: nat)
    requires start <= |s|
    ensures start <= p <= |s| && s[p..] == SkipSpaces(s[start..])
  {
    p := start;
    while p < |s| && IsSpace(s[p])
      invariant start <= p <= |s| && SkipSpaces(s[p..]) == SkipSpaces(s[start..])
    {
      assert s[p..][1..] == s[p + 1..];
      p := p + 1;
    }
  }

  /** Leading '1's stand for zeros. */
  method ReadZeros(s: string, start: nat) returns (p: nat, zeroes: nat)
    requires start <= |s|
    ensures start <= p <= |s| && Reads(s[start..], Zeros(zeroes), s[p..]) && (p < |s| ==> s[p] != '1')
  {
    hide Reads, Parse, DigitOf, IsSpace;
    p, zeroes := start, 0;
    ReadsStart(s[start..]);
    while p < |s| && s[p] == '1'
      invariant start <= p <= |s| && Reads(s[start..], Zeros(zeroes), s[p..])
    {
      AlphabetIsBijective('1', 0);
      ReadsNext(s[start..], Zeros(zeroes), s[p..]);
      assert s[p..][1..] == s[p + 1..] && Zeros(zeroes) + [0] == Zeros(zeroes + 1);
      zeroes := zeroes + 1;
      p := p + 1;
    }
  }

  /** Digits up to a space or the end go into the buffer; fails on a character that is none. */
  method ReadDigits(s: string, first: nat, buf: array<nat>, ghost body: string, ghost lead: seq<nat>)
      returns (ok: bool, p: nat, length: nat, ghost ds: seq<nat>)
    requires first <= |s| && Reads(body, lead, s[first..]) && (first < |s| ==> s[first] != '1')
    requires ZeroBefore(buf[..], 0) && Pow(58, |s| - first) <= Pow(256, buf.Length)
    modifies buf
    ensures !ok ==> Parse(body).None?
    ensures ok ==> first <= p <= |s| && Reads(body, lead + ds, s[p..]) && (p == |s| || IsSpace(s[p]))
    ensures ok ==> Below(58, ds) && (ds == [] || ds[0] != 0)
    ensures ok ==> Below(256, buf[..]) && ZeroBefore(buf[..], length) && Num(256, buf[..]) == Num(58, ds)
  {
    hide Num, Pow, Reads, Parse, DigitOf, IsSpace;
    p, length, ds := first, 0, [];
    NumOfZeros(256, buf[..]);
    NoNum(58);
    assert lead + [] == lead;
    while p < |s| && !IsSpace(s[p])
      invariant first <= p <= |s| && |ds| == p - first && Reads(body, lead + ds, s[p..])
      invariant Below(58, ds) && (if ds == [] then p < |s| ==> s[p] != '1' else ds[0] != 0)
      invariant Below(256, buf[..]) && ZeroBefore(buf[..], length) && Num(256, buf[..]) == Num(58, ds)
    {
      ReadsNext(body, lead + ds, s[p..]);
      var ch := DigitOf(s[p]);
      if ch.None? { return false, p, length, ds; }
      AlphabetIsBijective(s[p], ch.value);
      RoomForNext(58, 256, ds, ch.value, |s| - first, buf.Length);
      length := MulAdd(buf, 256, 58, ch.value, length);
      assert s[p..][1..] == s[p + 1..] && lead + ds + [ch.value] == lead + (ds + [ch.value]);
      ds := ds + [ch.value];
      p := p + 1;
    }
    ok := true;
  }

  method DecodeBase58(s: string) returns (r: Option<seq<nat>>)
    ensures r == Decode(s)
  {
    hide Num, Pow, Digits, LeadingZeros, Reads, Parse, SkipSpaces, DigitOf, IsSpace;
    var p := SkipSpacesFrom(s, 0);
    assert s[0..] == s;
    ghost var body := s[p..];
    var zeroes;
    p, zeroes := ReadZeros(s, p);
    BytesFit(|s| - p);
    var b256 := new nat[(|s| - p) * 733 / 1000 + 1](_ => 0);
    var ok, length;
    ghost var ds;
    ok, p, length, ds := ReadDigits(s, p, b256, body, Zeros(zeroes));
    if !ok { return None; }
    ReadsDone(body, Zeros(zeroes) + ds, s[p..]);
    p := SkipSpacesFrom(s, p);
    if p < |s| { return None; }
    var bytes := TrimZeros(b256, length);
    TrimmedIs(256, b256[..]);
    LeadingZerosOf(zeroes, ds);
    NumStrip(58, Zeros(zeroes) + ds);
    r := Some(Zeros(zeroes) + bytes);
  }

  lemma ReadsStart(s: string)
    ensures Reads(s, Zeros(0), s)
  {
    assert s[0..] == s;
    if Parse(s).Some? { assert Zeros(0) + Parse(s).value == Parse(s).value; }
  }

  lemma ReadsDone(s: string, ds: seq<nat>, left: string)
    requires Reads(s, ds, left) && (left == [] || IsSpace(left[0]))
    ensures Parse(s) == Some(ds) && s[|ds|..] == left
  {
    assert ds + [] == ds;
  }
}
