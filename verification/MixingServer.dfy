/** The mixing server as an object: every method is tied to the session functions of `Mixing`. */
module MixingServer {
  import opened Prelude
  import opened Mixing

  // ---------------------------------------------------------------- reading a message

  lemma UsesOneMore(outs: seq<TxOut>, n: nat, d: nat)
    requires n < |outs| && d < |DENOMINATIONS|
    ensures Uses(outs[..n + 1], d) <==> Uses(outs[..n], d) || outs[n].value == DENOMINATIONS[d]
  {
    var a, b := outs[..n], outs[..n + 1];
    assert b == a + [outs[n]];
    if Uses(a, d) {
      var i :| 0 <= i < |a| && a[i].value == DENOMINATIONS[d];
      assert b[i] == a[i];
    }
    if outs[n].value == DENOMINATIONS[d] { assert b[n].value == DENOMINATIONS[d]; }
  }

  /** Which denominations one more amount marks as used. */
  method Mark(used: seq<bool>, value: int) returns (now: seq<bool>, found: bool)
    requires |used| == |DENOMINATIONS|
    ensures found <==> Standard(value)
    ensures |now| == |used| && forall d :: 0 <= d < |used| ==> now[d] == (used[d] || value == DENOMINATIONS[d])
  {
    now, found := used, false;
    for d := 0 to |DENOMINATIONS|
      invariant |now| == |used|
      invariant found <==> exists c :: 0 <= c < d && DENOMINATIONS[c] == value
      invariant forall c :: 0 <= c < |used| ==> now[c] == (used[c] || (c < d && value == DENOMINATIONS[c]))
    {
      if value == DENOMINATIONS[d] { now, found := now[d := true], true; }
    }
  }

  /** `GetDenominations`: every denomination used, or just one of them that the draws favour. */
  method GetDenominations(outs: seq<TxOut>, single: bool, draws: nat -> nat) returns (mask: nat)
    ensures !single ==> mask == Mask(outs)
    ensures single ==> SingleOf(outs, draws, mask)
  {
    var used := seq(|DENOMINATIONS|, _ => false);
    for n := 0 to |outs|
      invariant |used| == |DENOMINATIONS|
      invariant forall d :: 0 <= d < |used| ==> used[d] == Uses(outs[..n], d)
      invariant forall i :: 0 <= i < n ==> Standard(outs[i].value)
    {
      var found;
      ghost var was := used;
      used, found := Mark(used, outs[n].value);
      if !found { return 0; }
      forall d | 0 <= d < |used| ensures used[d] == Uses(outs[..n + 1], d) { UsesOneMore(outs, n, d); }
    }
    assert outs[..|outs|] == outs;
    if single {
      mask := PickOne(used, draws);
      PickedIsSingle(outs, used, draws, mask);
    } else {
      mask := AddUp(used);
    }
  }

  const BITS: seq<nat> := [1, 2, 4, 8, 16]

  /** The denomination is used and the draw favours it. */
  predicate Favoured(outs: seq<TxOut>, draws: nat -> nat, c: nat)
    requires c < |DENOMINATIONS|
  {
    Uses(outs, c) && draws(c) % 2 == 1
  }

  /** `mask` is the first favoured denomination alone, and 0 if there is none or an output is not standard. */
  ghost predicate SingleOf(outs: seq<TxOut>, draws: nat -> nat, mask: nat) {
    if exists i :: 0 <= i < |outs| && !Standard(outs[i].value) then mask == 0
    else if forall c :: 0 <= c < 5 ==> !Favoured(outs, draws, c) then mask == 0
    else exists c :: 0 <= c < 5 && mask == BITS[c] && Favoured(outs, draws, c) && forall b :: 0 <= b < c ==> !Favoured(outs, draws, b)
  }

  lemma PickedIsSingle(outs: seq<TxOut>, used: seq<bool>, draws: nat -> nat, mask: nat)
    requires |used| == 5 && (forall d :: 0 <= d < 5 ==> used[d] == Uses(outs, d)) && forall i :: 0 <= i < |outs| ==> Standard(outs[i].value)
    requires (mask == 0 && forall b :: 0 <= b < 5 ==> !(used[b] && draws(b) % 2 == 1))
             || exists c :: 0 <= c < 5 && mask == BITS[c] && used[c] && draws(c) % 2 == 1
                  && forall b :: 0 <= b < c ==> !(used[b] && draws(b) % 2 == 1)
    ensures SingleOf(outs, draws, mask)
  {
    forall c | 0 <= c < 5 ensures Favoured(outs, draws, c) <==> used[c] && draws(c) % 2 == 1 {}
  }

  method AddUp(used: seq<bool>) returns (mask: nat)
    requires |used| == 5
    ensures mask == (if used[0] then 1 else 0) + (if used[1] then 2 else 0) + (if used[2] then 4 else 0)
                    + (if used[3] then 8 else 0) + (if used[4] then 16 else 0)
  {
    mask := 0;
    var bit := 1;
    for c := 0 to |used|
      invariant bit == [1, 2, 4, 8, 16, 32][c]
      invariant mask == Bits(used, c)
    {
      if used[c] { mask := mask + bit; }
      bit := bit * 2;
    }
    BitsAre(used);
  }

  /** The bit of the first used denomination that the draws favour. */
  method PickOne(used: seq<bool>, draws: nat -> nat) returns (mask: nat)
    requires |used| == 5
    ensures (mask == 0 && forall b :: 0 <= b < 5 ==> !(used[b] && draws(b) % 2 == 1))
            || exists c :: 0 <= c < 5 && mask == BITS[c] && used[c] && draws(c) % 2 == 1
                 && forall b :: 0 <= b < c ==> !(used[b] && draws(b) % 2 == 1)
  {
    mask := 0;
    var bit := 1;
    for c := 0 to |used|
      invariant bit == [1, 2, 4, 8, 16, 32][c] && mask == 0
      invariant forall b :: 0 <= b < c ==> !(used[b] && draws(b) % 2 == 1)
    {
      if draws(c) % 2 == 1 && used[c] {
        assert bit == BITS[c];
        return bit;
      }
      bit := bit * 2;
    }
  }

  function Bits(used: seq<bool>, c: nat): nat
    requires c <= |used| == 5
  {
    if c == 0 then 0 else Bits(used, c - 1) + (if used[c - 1] then [1, 2, 4, 8, 16][c - 1] else 0)
  }

  lemma BitsAre(used: seq<bool>)
    requires |used| == 5
    ensures Bits(used, 5) == (if used[0] then 1 else 0) + (if used[1] then 2 else 0) + (if used[2] then 4 else 0)
                             + (if used[3] then 8 else 0) + (if used[4] then 16 else 0)
  {
    assert Bits(used, 1) == if used[0] then 1 else 0;
    assert Bits(used, 2) == Bits(used, 1) + if used[1] then 2 else 0;
    assert Bits(used, 3) == Bits(used, 2) + if used[2] then 4 else 0;
    assert Bits(used, 4) == Bits(used, 3) + if used[3] then 8 else 0;
  }

  /** `GetDenominationsBits`: the positions of the set bits, and whether there are any. */
  method GetDenominationsBits(denom: int) returns (ok: bool, bits: seq<nat>)
    ensures ok <==> DenomAccepted(denom)
    ensures ok ==> forall c :: 0 <= c < 5 ==> (c in bits <==> denom / [1, 2, 4, 8, 16][c] % 2 == 1)
  {
    bits := [];
    if denom >= 32 { return false, []; }
    var rest, weight := denom, 1;
    for c := 0 to 5
      invariant weight == [1, 2, 4, 8, 16, 32][c] && rest == denom / weight
      invariant forall b :: b in bits ==> b < c
      invariant forall b :: 0 <= b < c ==> (b in bits <==> denom / [1, 2, 4, 8, 16][b] % 2 == 1)
      invariant bits == [] <==> denom % weight == 0
    {
      if rest % 2 == 1 { bits := bits + [c]; }
      rest, weight := rest / 2, weight * 2;
    }
    ok := bits != [];
  }

  class Server {
    const cfg: Config
    var state: PoolState
    var id: int
    var denom: int
    var entries: seq<Entry>
    var final: Tx
    var collaterals: seq<int>
    var maxParticipants: int

    function Value(): Session
      reads this
    {
      Session(state, id, denom, entries, final, collaterals, maxParticipants)
    }

    constructor (cfg: Config)
      ensures this.cfg == cfg && Value() == NULL_SESSION
    {
      this.cfg := cfg;
      state, id, denom, entries, final, collaterals, maxParticipants := Idle, 0, 0, [], Tx([], []), [], 0;
    }

    method SetNull()
      modifies this
      ensures Value() == NULL_SESSION
    {
      state, id, denom, entries, final, collaterals, maxParticipants := Idle, 0, 0, [], Tx([], []), [], 0;
    }

    predicate IsSessionReady()
      reads this
    {
      maxParticipants != 0 && |collaterals| >= maxParticipants
    }

    // -------------------------------------------------------------- joining

    method IsAcceptable(j: Join) returns (r: Reply)
      ensures r == if !DenomAccepted(j.denom) then BadDenom else if !j.collateralOk then BadCollateral else Welcome
    {
      var ok, bits := GetDenominationsBits(j.denom);
      r := if !ok then BadDenom else if !j.collateralOk then BadCollateral else Welcome;
    }

    method CreateNewSession(j: Join) returns (r: Reply)
      requires cfg.Ok() && id == 0 && !IsSessionReady() && !j.refused
      modifies this
      ensures (Value(), r) == Accept(cfg, old(Value()), j)
    {
      if state != Idle { return BadMode; }
      r := IsAcceptable(j);
      if r != Welcome { return; }
      id, denom := j.rndId % 999999 + 1, j.denom;
      maxParticipants := cfg.minPool + j.rndMax % (cfg.maxPool - cfg.minPool + 1);
      state := Queue;
      collaterals := collaterals + [j.collateral];
    }

    method AddUser(j: Join) returns (r: Reply)
      requires cfg.Ok() && id != 0 && !IsSessionReady() && !j.refused
      modifies this
      ensures (Value(), r) == Accept(cfg, old(Value()), j)
    {
      r := IsAcceptable(j);
      if r != Welcome { return; }
      if state != Queue { return BadMode; }
      if j.denom != denom { return BadDenom; }
      collaterals := collaterals + [j.collateral];
    }

    /** DSACCEPT. */
    method ProcessAccept(j: Join) returns (r: Reply)
      requires cfg.Ok()
      modifies this
      ensures (Value(), r) == Accept(cfg, old(Value()), j)
    {
      if IsSessionReady() { return QueueFull; }
      if j.refused { return Refused; }
      if id == 0 { r := CreateNewSession(j); } else { r := AddUser(j); }
    }

    // -------------------------------------------------------------- the final transaction

    method IsCompatible(outs: seq<TxOut>) returns (ok: bool)
      ensures ok <==> Compatible(Value(), outs)
    {
      var mask := GetDenominations(outs, false, _ => 0);
      if mask == 0 { return false; }
      for k := 0 to |entries|
        invariant forall i :: 0 <= i < k ==> Mask(entries[i].outs) == mask
      {
        var other := GetDenominations(entries[k].outs, false, _ => 0);
        if other != mask { return false; }
      }
      return true;
    }

    method CreateFinalTransaction()
      modifies this
      ensures Value() == old(Value()).(final := FinalTx(old(entries)), state := Signing)
    {
      var vin: seq<TxIn>, vout: seq<TxOut> := [], [];
      for k := 0 to |entries|
        invariant vin == AllIns(entries[..k]) && vout == AllOuts(entries[..k])
        invariant unchanged(this)
      {
        assert entries[..k + 1][..k] == entries[..k];
        vout := vout + entries[k].outs;
        vin := vin + Ins(entries[k]);
      }
      assert entries[..|entries|] == entries;
      final := Tx(Sorted(vin, InLess), Sorted(vout, OutLess));
      state := Signing;
    }

    method IsSignaturesComplete() returns (ok: bool)
      ensures ok <==> AllSigned(entries)
    {
      for k := 0 to |entries|
        invariant forall l, i :: 0 <= l < k && 0 <= i < |entries[l].ins| ==> entries[l].ins[i].signed
      {
        for i := 0 to |entries[k].ins|
          invariant forall h :: 0 <= h < i ==> entries[k].ins[h].signed
        {
          if !entries[k].ins[i].signed { return false; }
        }
      }
      return true;
    }

    method CheckPool() returns (tx: Option<Tx>)
      modifies this
      ensures (Value(), tx) == Mixing.CheckPool(old(Value()))
    {
      tx := None;
      if state == Accepting && |entries| >= maxParticipants {
        CreateFinalTransaction();
      } else if state == Signing {
        var complete := IsSignaturesComplete();
        if complete {
          tx := Some(final);
          SetNull();
        }
      }
    }

    // -------------------------------------------------------------- submitting

    /** The script and the value of every output, the first refusal winning. */
    method CheckOutputs(outs: seq<TxOut>) returns (r: Option<Reply>, total: int)
      ensures r == ScriptReply(outs)
      ensures r.None? ==> total == SumOut(outs)
    {
      total := 0;
      for n := 0 to |outs|
        invariant ScriptReply(outs) == ScriptReply(outs[n..])
        invariant total + SumOut(outs[n..]) == SumOut(outs)
      {
        assert outs[n..][0] == outs[n] && outs[n..][1..] == outs[n + 1..];
        total := total + outs[n].value;
        if |outs[n].script| != 25 { return Some(NonStandardKey), total; }
        if !IsP2PKH(outs[n].script) { return Some(BadScript), total; }
      }
      r := None;
    }

    method CheckInputs(m: Submission) returns (ok: bool, total: int)
      ensures ok <==> forall i :: 0 <= i < |m.ins| ==> m.available(m.ins[i].prevout)
      ensures ok ==> total == SumIn(cfg, Bares(m.ins))
    {
      total := 0;
      var bs := Bares(m.ins);
      for n := 0 to |m.ins|
        invariant total + SumIn(cfg, bs[n..]) == SumIn(cfg, bs)
        invariant forall i :: 0 <= i < n ==> m.available(m.ins[i].prevout)
      {
        var x := m.ins[n];
        assert bs[n] == BareOf(x);
        assert bs[n..][0] == bs[n] && bs[n..][1..] == bs[n + 1..];
        if !m.available(x.prevout) { return false, total; }
        total := total + cfg.value(x.prevout);
      }
      ok := true;
    }

    method SharesInput(e: Entry) returns (found: bool)
      ensures found <==> exists k :: 0 <= k < |entries| && Shares(e, entries[k])
    {
      for i := 0 to |e.ins|
        invariant forall h, k, l :: 0 <= h < i && 0 <= k < |entries| && 0 <= l < |entries[k].ins| ==> entries[k].ins[l].txin.prevout != e.ins[h].txin.prevout
      {
        for k := 0 to |entries|
          invariant forall g, l :: 0 <= g < k && 0 <= l < |entries[g].ins| ==> entries[g].ins[l].txin.prevout != e.ins[i].txin.prevout
        {
          for l := 0 to |entries[k].ins|
            invariant forall h :: 0 <= h < l ==> entries[k].ins[h].txin.prevout != e.ins[i].txin.prevout
          {
            if entries[k].ins[l].txin.prevout == e.ins[i].txin.prevout {
              assert Shares(e, entries[k]);
              return true;
            }
          }
        }
      }
      return false;
    }

    /** The checks of `AddEntry`; on success the entry joins the pool. */
    method AddEntry(m: Submission) returns (r: Reply)
      modifies this
      ensures r == if exists i :: 0 <= i < |m.ins| && m.ins[i].prevout == NULL_OUTPOINT then BadInput
                   else if !m.collateralOk then BadCollateral
                   else if |old(entries)| >= maxParticipants then PoolFull
                   else if exists k :: 0 <= k < |old(entries)| && Shares(EntryOf(m), old(entries)[k]) then AlreadyHave
                   else Added
      ensures Value() == if r == Added then old(Value()).(entries := old(entries) + [EntryOf(m)]) else old(Value())
    {
      for i := 0 to |m.ins|
        invariant forall h :: 0 <= h < i ==> m.ins[h].prevout != NULL_OUTPOINT
        invariant unchanged(this)
      {
        if m.ins[i].prevout == NULL_OUTPOINT { return BadInput; }
      }
      if !m.collateralOk { return BadCollateral; }
      if |entries| >= maxParticipants { return PoolFull; }
      var found := SharesInput(EntryOf(m));
      if found { return AlreadyHave; }
      entries := entries + [EntryOf(m)];
      r := Added;
    }

    /** DSVIN. */
    method ProcessVin(m: Submission) returns (r: Reply, tx: Option<Tx>)
      modifies this
      ensures r == SubmitReply(cfg, old(Value()), m)
      ensures (Value(), tx) == Submit(cfg, old(Value()), m)
    {
      hide Mixing.CheckPool, EntryOf, Compatible, ScriptReply, SumIn, SumOut, Bares, Shares;
      tx := None;
      if !IsSessionReady() { return NotReady, None; }
      if |m.ins| > ENTRY_MAX_SIZE || |m.outs| > ENTRY_MAX_SIZE { return TooBig, None; }
      var ok := IsCompatible(m.outs);
      if !ok { return Incompatible, None; }
      var bad, valueOut := CheckOutputs(m.outs);
      if bad.Some? {
        ScriptReplies(m.outs);
        return bad.value, None;
      }
      var found, valueIn := CheckInputs(m);
      if !found { return MissingInput, None; }
      if valueIn != valueOut { return HasFee, None; }
      r := AddEntry(m);
      if r == Added { tx := CheckPool(); }
    }

    // -------------------------------------------------------------- signing

    method SignatureKnown(sig: seq<nat>) returns (found: bool)
      ensures found <==> SigKnown(entries, sig)
    {
      for k := 0 to |entries|
        invariant forall l, i :: 0 <= l < k && 0 <= i < |entries[l].ins| ==> entries[l].ins[i].txin.sig != sig
      {
        for i := 0 to |entries[k].ins|
          invariant forall h :: 0 <= h < i ==> entries[k].ins[h].txin.sig != sig
        {
          if entries[k].ins[i].txin.sig == sig { return true; }
        }
      }
      return false;
    }

    method InputInPool(prevout: OutPoint) returns (found: bool)
      ensures found <==> InputKnown(entries, prevout)
    {
      found := false;
      for k := 0 to |entries|
        invariant found <==> InputKnown(entries[..k], prevout)
      {
        ghost var was := found;
        for i := 0 to |entries[k].ins|
          invariant found <==> was || exists h :: 0 <= h < i && entries[k].ins[h].txin.prevout == prevout
        {
          if entries[k].ins[i].txin.prevout == prevout { found := true; }
        }
        InputKnownNext(entries, k, prevout);
      }
      assert entries[..|entries|] == entries;
    }

    /** The first matching input of entry `k` takes the signature, unless it has one. */
    method SignEntryAt(k: nat, x: TxIn) returns (ok: bool)
      requires k < |entries|
      modifies this
      ensures var e := SignEntry(old(entries)[k], x, 0);
              ok == e.Some? && Value() == if ok then old(Value()).(entries := old(entries)[k := e.value]) else old(Value())
    {
      var e := entries[k];
      for i := 0 to |e.ins|
        invariant SignEntry(e, x, 0) == SignEntry(e, x, i)
        invariant unchanged(this)
      {
        if Matches(e.ins[i].txin, x) {
          if e.ins[i].signed { return false; }
          entries := entries[k := e.(ins := e.ins[i := DsIn(e.ins[i].txin.(sig := x.sig), true)])];
          return true;
        }
      }
      return false;
    }

    method WriteFinal(x: TxIn)
      modifies this
      ensures Value() == old(Value()).(final := old(final).(vin := SignFinal(old(final).vin, x)))
    {
      var n := |final.vin|;
      ghost var vin := final.vin;
      for i := 0 to n
        invariant |final.vin| == n && Value() == old(Value()).(final := final) && final.vout == old(final).vout
        invariant final.vin[..i] == SignFinal(vin, x)[..i] && final.vin[i..] == vin[i..]
      {
        assert final.vin[i] == final.vin[i..][0] == vin[i..][0] == vin[i];
        ghost var was := final.vin;
        if Matches(final.vin[i], x) {
          final := final.(vin := final.vin[i := final.vin[i].(sig := x.sig)]);
        }
        assert final.vin[i] == SignFinal(vin, x)[i];
        assert final.vin[..i] == was[..i];
        assert final.vin[..i + 1] == final.vin[..i] + [final.vin[i]];
        assert SignFinal(vin, x)[..i + 1] == SignFinal(vin, x)[..i] + [SignFinal(vin, x)[i]];
        assert final.vin[i + 1..] == was[i..][1..] && vin[i + 1..] == vin[i..][1..];
      }
      assert final.vin == final.vin[..n] && SignFinal(vin, x) == SignFinal(vin, x)[..n];
    }

    method AddScriptSig(x: TxIn, valid: bool) returns (ok: bool)
      modifies this
      ensures (Value(), ok) == AddSig(old(Value()), x, valid)
    {
      var known := SignatureKnown(x.sig);
      if known { return false; }
      var inPool := InputInPool(x.prevout);
      if !inPool || !valid { return false; }
      WriteFinal(x);
      ghost var t := Value();
      for k := 0 to |entries|
        invariant Value() == t && SignEntries(entries, x, 0) == SignEntries(entries, x, k)
      {
        ok := SignEntryAt(k, x);
        if ok { return; }
      }
      return false;
    }

    /** DSSIGNFINALTX. */
    method ProcessSignatures(xs: seq<(TxIn, bool)>) returns (tx: Option<Tx>)
      modifies this
      ensures (Value(), tx) == Sign(old(Value()), xs)
    {
      ghost var s := Value();
      for n := 0 to |xs|
        invariant AddSigs(s, xs) == AddSigs(Value(), xs[n..])
      {
        assert xs[n..][0] == xs[n] && xs[n..][1..] == xs[n + 1..];
        var ok := AddScriptSig(xs[n].0, xs[n].1);
        if !ok { return None; }
      }
      tx := CheckPool();
    }

    // -------------------------------------------------------------- maintenance

    method CheckTimeout(timedOut: bool) returns (tx: Option<Tx>)
      modifies this
      ensures (Value(), tx) == Mixing.CheckTimeout(cfg, old(Value()), timedOut)
    {
      tx := None;
      if state == Idle || !timedOut { return; }
      if state == Queue && |collaterals| >= cfg.minPool {
        maxParticipants := |collaterals|;
        return;
      }
      if state == Accepting && |entries| >= cfg.minPool {
        maxParticipants := |entries|;
        tx := CheckPool();
        return;
      }
      SetNull();
    }

    method CheckForCompleteQueue()
      modifies this
      ensures Value() == CheckComplete(old(Value()))
    {
      if state == Queue && IsSessionReady() { state := Accepting; }
    }

    method EveryoneGone()
      modifies this
      ensures Value() == AllGone(old(Value()))
    {
      if entries != [] { SetNull(); }
    }

    method FindSilent() returns (found: seq<int>)
      ensures found == Silent(collaterals, entries)
    {
      found := [];
      for n := 0 to |collaterals|
        invariant found + Silent(collaterals[n..], entries) == Silent(collaterals, entries)
      {
        SilentNext(collaterals, n, entries, found);
        var submitted := false;
        for k := 0 to |entries|
          invariant submitted <==> HasEntry(entries, k, collaterals[n])
        {
          if entries[k].collateral == collaterals[n] { submitted := true; }
        }
        if !submitted { found := found + [collaterals[n]]; }
      }
    }

    method FindUnsigned() returns (found: seq<int>)
      ensures found == Unsigned(entries)
    {
      found := [];
      for k := 0 to |entries|
        invariant found + Unsigned(entries[k..]) == Unsigned(entries)
      {
        assert entries[k..][0] == entries[k] && entries[k..][1..] == entries[k + 1..];
        var more := FindUnsignedIn(entries[k]);
        assert found + more + Unsigned(entries[k + 1..]) == found + Unsigned(entries[k..]);
        found := found + more;
      }
    }

    method FindUnsignedIn(e: Entry) returns (found: seq<int>)
      ensures found == UnsignedOf(e.ins, e.collateral)
    {
      found := [];
      for i := 0 to |e.ins|
        invariant found + UnsignedOf(e.ins[i..], e.collateral) == UnsignedOf(e.ins, e.collateral)
      {
        UnsignedNext(e.ins, i, e.collateral, found);
        if !e.ins[i].signed { found := found + [e.collateral]; }
      }
    }

    /** `ChargeFees`: whose collateral is charged, if anyone's. */
    method ChargeFees(dice: (nat, nat), shuffled: seq<int>) returns (charged: Option<int>)
      requires multiset(shuffled) == multiset(Offenders(Value()))
      ensures charged == Charged(Value(), dice, shuffled)
    {
      if dice.0 > 33 { return None; }
      var offenders: seq<int> := [];
      if state == Accepting { offenders := FindSilent(); }
      if state == Signing { offenders := FindUnsigned(); }
      if offenders == [] { return None; }
      if |offenders| >= maxParticipants - 1 && dice.1 > 33 { return None; }
      if |offenders| >= maxParticipants { return None; }
      assert |multiset(shuffled)| == |offenders|;
      charged := Some(shuffled[0]);
    }
  }

  lemma UnsignedNext(ins: seq<DsIn>, i: nat, collateral: int, found: seq<int>)
    requires i < |ins|
    ensures found + UnsignedOf(ins[i..], collateral)
            == (if ins[i].signed then found else found + [collateral]) + UnsignedOf(ins[i + 1..], collateral)
  {
    var rest := UnsignedOf(ins[i + 1..], collateral);
    assert ins[i..][0] == ins[i] && ins[i..][1..] == ins[i + 1..];
    Regroup(found, [collateral], rest);
    Regroup(found, [], rest);
  }

  predicate HasEntry(es: seq<Entry>, n: nat, collateral: int)
    requires n <= |es|
  {
    exists k :: 0 <= k < n && es[k].collateral == collateral
  }

  lemma SilentHead(collaterals: seq<int>, es: seq<Entry>)
    requires collaterals != []
    ensures Silent(collaterals, es)
            == (if HasEntry(es, |es|, collaterals[0]) then [] else [collaterals[0]]) + Silent(collaterals[1..], es)
  {}

  lemma SilentNext(collaterals: seq<int>, n: nat, es: seq<Entry>, found: seq<int>)
    requires n < |collaterals|
    ensures found + Silent(collaterals[n..], es)
            == (if HasEntry(es, |es|, collaterals[n]) then found else found + [collaterals[n]]) + Silent(collaterals[n + 1..], es)
  {
    hide Silent, HasEntry;
    var left, rest := collaterals[n..], Silent(collaterals[n + 1..], es);
    assert left[0] == collaterals[n] && left[1..] == collaterals[n + 1..];
    SilentHead(left, es);
    Regroup(found, [left[0]], rest);
    Regroup(found, [], rest);
  }

  lemma Regroup(a: seq<int>, b: seq<int>, c: seq<int>)
    ensures a + (b + c) == a + b + c
    ensures b == [] ==> a + (b + c) == a + c
  {}

  lemma {:induction false} ScriptReplies(outs: seq<TxOut>)
    ensures ScriptReply(outs).Some? ==> ScriptReply(outs).value in {NonStandardKey, BadScript}
  {
    if outs != [] { ScriptReplies(outs[1..]); }
  }

  lemma InputKnownNext(es: seq<Entry>, k: nat, prevout: OutPoint)
    requires k < |es|
    ensures InputKnown(es[..k + 1], prevout)
            <==> InputKnown(es[..k], prevout) || exists h :: 0 <= h < |es[k].ins| && es[k].ins[h].txin.prevout == prevout
  {
    var a, b := es[..k], es[..k + 1];
    if InputKnown(a, prevout) {
      var l, i :| 0 <= l < |a| && 0 <= i < |a[l].ins| && a[l].ins[i].txin.prevout == prevout;
      assert b[l].ins[i].txin.prevout == prevout;
    }
    if h :| 0 <= h < |es[k].ins| && es[k].ins[h].txin.prevout == prevout {
      assert b[k].ins[h].txin.prevout == prevout;
    }
    if InputKnown(b, prevout) {
      var l, i :| 0 <= l < |b| && 0 <= i < |b[l].ins| && b[l].ins[i].txin.prevout == prevout;
      assert l < k ==> a[l].ins[i].txin.prevout == prevout;
    }
  }
}
