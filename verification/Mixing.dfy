/** The mixing-session server as a state machine: one session from queue to committed transaction.
  * `MixingServer.dfy` holds the object.
  */
module Mixing {
  import opened Prelude
  import Coins
  import Lex

  type OutPoint = Coins.OutPoint

  const COIN := 100_000_000
  const ENTRY_MAX_SIZE := 9

  /** The amounts that may be mixed, largest first. */
  const DENOMINATIONS: seq<int> := [
    10 * COIN + 10000, COIN + 1000, COIN / 10 + 100, COIN / 100 + 10, COIN / 1000 + 1]

  datatype TxIn = TxIn(prevout: OutPoint, sequence: nat, sig: seq<nat>)
  datatype TxOut = TxOut(value: int, script: seq<nat>)
  datatype Tx = Tx(vin: seq<TxIn>, vout: seq<TxOut>)

  /** An input of a participant; `signed` is memory only and false on arrival. */
  datatype DsIn = DsIn(txin: TxIn, signed: bool)
  datatype Entry = Entry(ins: seq<DsIn>, outs: seq<TxOut>, collateral: int)

  datatype PoolState = Idle | Queue | Accepting | Signing

  datatype Session = Session(
    state: PoolState, id: int, denom: int, entries: seq<Entry>, final: Tx, collaterals: seq<int>, maxParticipants: int)

  /** Pool limits, and the value of the coin each outpoint names. */
  datatype Config = Config(minPool: int, maxPool: int, value: OutPoint -> int) {
    predicate Ok() { 1 <= minPool <= maxPool }
  }

  const NULL_SESSION := Session(Idle, 0, 0, [], Tx([], []), [], 0)
  const NULL_OUTPOINT := Coins.OutPoint(Coins.NULL_HASH, 0xffff_ffff)

  datatype Reply =
    | QueueFull | Refused | BadDenom | BadCollateral | BadMode | Welcome
    | NotReady | TooBig | Incompatible | NonStandardKey | BadScript | MissingInput | HasFee
    | BadInput | PoolFull | AlreadyHave | Added

  // ---------------------------------------------------------------- denominations

  predicate Uses(outs: seq<TxOut>, d: nat)
    requires d < |DENOMINATIONS|
  {
    exists i :: 0 <= i < |outs| && outs[i].value == DENOMINATIONS[d]
  }

  predicate Standard(value: int) { value in DENOMINATIONS }

  /** `GetDenominations`: one bit per denomination used, or 0 if some output is not standard. */
  function Mask(outs: seq<TxOut>): nat {
    if forall i :: 0 <= i < |outs| ==> Standard(outs[i].value) then
      (if Uses(outs, 0) then 1 else 0) + (if Uses(outs, 1) then 2 else 0) + (if Uses(outs, 2) then 4 else 0)
      + (if Uses(outs, 3) then 8 else 0) + (if Uses(outs, 4) then 16 else 0)
    else 0
  }

  /** A nonzero mask means standard outputs only; equal masks mean the same denominations. */
  lemma MaskMeaning(a: seq<TxOut>, b: seq<TxOut>)
    ensures Mask(a) != 0 <==> a != [] && forall i :: 0 <= i < |a| ==> Standard(a[i].value)
    ensures Mask(a) == Mask(b) != 0 ==> forall d :: 0 <= d < |DENOMINATIONS| ==> (Uses(a, d) <==> Uses(b, d))
  {
    if a != [] && Standard(a[0].value) {
      var d :| 0 <= d < |DENOMINATIONS| && DENOMINATIONS[d] == a[0].value;
      assert Uses(a, d);
    }
  }

  /** `GetDenominationsBits`: some low bit is set; the comparison is signed, so negative numbers pass. */
  predicate DenomAccepted(denom: int) { denom < 32 && denom % 32 != 0 }

  // ---------------------------------------------------------------- joining

  predicate Ready(s: Session) { s.maxParticipants != 0 && |s.collaterals| >= s.maxParticipants }

  /** A DSACCEPT message: `refused` stands for the masternode-list and rate checks. */
  datatype Join = Join(denom: int, collateral: int, collateralOk: bool, refused: bool, rndId: nat, rndMax: nat)

  function Accept(cfg: Config, s: Session, j: Join): (Session, Reply)
    requires cfg.Ok()
  {
    if Ready(s) then (s, QueueFull)
    else if j.refused then (s, Refused)
    else if s.id == 0 then
      if s.state != Idle then (s, BadMode)
      else if !DenomAccepted(j.denom) then (s, BadDenom)
      else if !j.collateralOk then (s, BadCollateral)
      else (s.(id := j.rndId % 999999 + 1, denom := j.denom, state := Queue,
               maxParticipants := cfg.minPool + j.rndMax % (cfg.maxPool - cfg.minPool + 1),
               collaterals := s.collaterals + [j.collateral]), Welcome)
    else if !DenomAccepted(j.denom) then (s, BadDenom)
    else if !j.collateralOk then (s, BadCollateral)
    else if s.state != Queue then (s, BadMode)
    else if j.denom != s.denom then (s, BadDenom)
    else (s.(collaterals := s.collaterals + [j.collateral]), Welcome)
  }

  // ---------------------------------------------------------------- submitting

  predicate IsP2PKH(script: seq<nat>) {
    |script| == 25 && script[0] == 0x76 && script[1] == 0xa9 && script[2] == 0x14 && script[23] == 0x88 && script[24] == 0xac
  }

  /** The first output whose script is refused decides the reply. */
  function ScriptReply(outs: seq<TxOut>): Option<Reply> {
    if outs == [] then None
    else if |outs[0].script| != 25 then Some(NonStandardKey)
    else if !IsP2PKH(outs[0].script) then Some(BadScript)
    else ScriptReply(outs[1..])
  }

  function SumOut(outs: seq<TxOut>): int { if outs == [] then 0 else outs[0].value + SumOut(outs[1..]) }

  /** An input without its signature. */
  datatype Bare = Bare(prevout: OutPoint, sequence: nat)

  function BareOf(x: TxIn): Bare { Bare(x.prevout, x.sequence) }

  /** The image of a sequence under `f`. */
  function Map<X, K>(f: X -> K, xs: seq<X>): (ks: seq<K>)
    ensures |ks| == |xs|
  {
    seq(|xs|, i requires 0 <= i < |xs| => f(xs[i]))
  }

  function Bares(xs: seq<TxIn>): (bs: seq<Bare>)
    ensures |bs| == |xs|
  {
    Map(BareOf, xs)
  }

  function Ins(e: Entry): (xs: seq<TxIn>)
    ensures |xs| == |e.ins|
  {
    seq(|e.ins|, i requires 0 <= i < |e.ins| => e.ins[i].txin)
  }

  function SumIn(cfg: Config, bs: seq<Bare>): int { if bs == [] then 0 else cfg.value(bs[0].prevout) + SumIn(cfg, bs[1..]) }

  predicate Compatible(s: Session, outs: seq<TxOut>) {
    Mask(outs) != 0 && forall i :: 0 <= i < |s.entries| ==> Mask(s.entries[i].outs) == Mask(outs)
  }

  predicate Shares(a: Entry, b: Entry) {
    exists i, j :: 0 <= i < |a.ins| && 0 <= j < |b.ins| && a.ins[i].txin.prevout == b.ins[j].txin.prevout
  }

  /** A DSVIN message; `available` tells which coins are unspent (and locked, in the pool). */
  datatype Submission = Submission(ins: seq<TxIn>, outs: seq<TxOut>, collateral: int, collateralOk: bool, available: OutPoint -> bool)

  function EntryOf(m: Submission): Entry {
    Entry(seq(|m.ins|, i requires 0 <= i < |m.ins| => DsIn(m.ins[i], false)), m.outs, m.collateral)
  }

  /** The checks of DSVIN and of `AddEntry`, in order. */
  function SubmitReply(cfg: Config, s: Session, m: Submission): Reply {
    if !Ready(s) then NotReady
    else if |m.ins| > ENTRY_MAX_SIZE || |m.outs| > ENTRY_MAX_SIZE then TooBig
    else if !Compatible(s, m.outs) then Incompatible
    else if ScriptReply(m.outs).Some? then ScriptReply(m.outs).value
    else if exists i :: 0 <= i < |m.ins| && !m.available(m.ins[i].prevout) then MissingInput
    else if SumIn(cfg, Bares(m.ins)) != SumOut(m.outs) then HasFee
    else if exists i :: 0 <= i < |m.ins| && m.ins[i].prevout == NULL_OUTPOINT then BadInput
    else if !m.collateralOk then BadCollateral
    else if |s.entries| >= s.maxParticipants then PoolFull
    else if exists k :: 0 <= k < |s.entries| && Shares(EntryOf(m), s.entries[k]) then AlreadyHave
    else Added
  }

  // ---------------------------------------------------------------- the final transaction

  function AllIns(es: seq<Entry>): seq<TxIn> { if es == [] then [] else AllIns(es[..|es| - 1]) + Ins(es[|es| - 1]) }
  function AllOuts(es: seq<Entry>): seq<TxOut> { if es == [] then [] else AllOuts(es[..|es| - 1]) + es[|es| - 1].outs }

  /** The orderings of BIP 69. */
  predicate InLess(a: TxIn, b: TxIn) {
    if a.prevout.hash == b.prevout.hash then a.prevout.n < b.prevout.n else a.prevout.hash < b.prevout.hash
  }
  predicate OutLess(a: TxOut, b: TxOut) { a.value < b.value || (a.value == b.value && Lex.Less(a.script, b.script)) }

  function InsertSorted<T>(x: T, xs: seq<T>, less: (T, T) -> bool): seq<T> {
    if xs == [] then [x] else if less(xs[0], x) then [xs[0]] + InsertSorted(x, xs[1..], less) else [x] + xs
  }

  function Sorted<T>(xs: seq<T>, less: (T, T) -> bool): seq<T> {
    if xs == [] then [] else InsertSorted(xs[0], Sorted(xs[1..], less), less)
  }

  function FinalTx(es: seq<Entry>): Tx {
    Tx(Sorted(AllIns(es), InLess), Sorted(AllOuts(es), OutLess))
  }

  predicate AllSigned(es: seq<Entry>) {
    forall k, i :: 0 <= k < |es| && 0 <= i < |es[k].ins| ==> es[k].ins[i].signed
  }

  /** `CheckPool`: the session afterwards, and the transaction handed over for broadcast, if any. */
  function CheckPool(s: Session): (Session, Option<Tx>) {
    if s.state == Accepting && |s.entries| >= s.maxParticipants then (s.(final := FinalTx(s.entries), state := Signing), None)
    else if s.state == Signing && AllSigned(s.entries) then (NULL_SESSION, Some(s.final))
    else (s, None)
  }

  function Submit(cfg: Config, s: Session, m: Submission): (Session, Option<Tx>) {
    if SubmitReply(cfg, s, m) == Added then CheckPool(s.(entries := s.entries + [EntryOf(m)])) else (s, None)
  }

  // ---------------------------------------------------------------- signing

  predicate Matches(x: TxIn, y: TxIn) { x.prevout == y.prevout && x.sequence == y.sequence }

  /** The first matching input of an entry takes the signature, unless it has one. */
  function SignEntry(e: Entry, x: TxIn, from: nat): Option<Entry>
    requires from <= |e.ins|
    decreases |e.ins| - from
  {
    if from == |e.ins| then None
    else if Matches(e.ins[from].txin, x) then
      if e.ins[from].signed then None
      else Some(e.(ins := e.ins[from := DsIn(e.ins[from].txin.(sig := x.sig), true)]))
    else SignEntry(e, x, from + 1)
  }

  function SignEntries(es: seq<Entry>, x: TxIn, from: nat): Option<seq<Entry>>
    requires from <= |es|
    decreases |es| - from
  {
    if from == |es| then None
    else match SignEntry(es[from], x, 0)
         case Some(e) => Some(es[from := e])
         case None => SignEntries(es, x, from + 1)
  }

  function SignFinal(vin: seq<TxIn>, x: TxIn): (ys: seq<TxIn>)
    ensures |ys| == |vin|
  {
    seq(|vin|, i requires 0 <= i < |vin| => if Matches(vin[i], x) then vin[i].(sig := x.sig) else vin[i])
  }

  predicate SigKnown(es: seq<Entry>, sig: seq<nat>) {
    exists k, i :: 0 <= k < |es| && 0 <= i < |es[k].ins| && es[k].ins[i].txin.sig == sig
  }

  predicate InputKnown(es: seq<Entry>, prevout: OutPoint) {
    exists k, i :: 0 <= k < |es| && 0 <= i < |es[k].ins| && es[k].ins[i].txin.prevout == prevout
  }

  /** `AddScriptSig`; the final transaction is written before an entry may refuse. `valid` is the script check. */
  function AddSig(s: Session, x: TxIn, valid: bool): (Session, bool) {
    if SigKnown(s.entries, x.sig) || !InputKnown(s.entries, x.prevout) || !valid then (s, false)
    else
      var t := s.(final := s.final.(vin := SignFinal(s.final.vin, x)));
      match SignEntries(s.entries, x, 0)
      case None => (t, false)
      case Some(es) => (t.(entries := es), true)
  }

  /** A DSSIGNFINALTX message: signatures in turn, stopping at the first refused. */
  function AddSigs(s: Session, xs: seq<(TxIn, bool)>): (Session, bool)
    decreases |xs|
  {
    if xs == [] then (s, true)
    else
      var (t, ok) := AddSig(s, xs[0].0, xs[0].1);
      if ok then AddSigs(t, xs[1..]) else (t, false)
  }

  function Sign(s: Session, xs: seq<(TxIn, bool)>): (Session, Option<Tx>) {
    var (t, ok) := AddSigs(s, xs);
    if ok then CheckPool(t) else (t, None)
  }

  // ---------------------------------------------------------------- maintenance

  function CheckTimeout(cfg: Config, s: Session, timedOut: bool): (Session, Option<Tx>) {
    if s.state == Idle || !timedOut then (s, None)
    else if s.state == Queue && |s.collaterals| >= cfg.minPool then (s.(maxParticipants := |s.collaterals|), None)
    else if s.state == Accepting && |s.entries| >= cfg.minPool then CheckPool(s.(maxParticipants := |s.entries|))
    else (NULL_SESSION, None)
  }

  function CheckComplete(s: Session): Session {
    if s.state == Queue && Ready(s) then s.(state := Accepting) else s
  }

  /** Every participant has gone: the session is dropped. */
  function AllGone(s: Session): Session { if s.entries != [] then NULL_SESSION else s }

  // ---------------------------------------------------------------- charging

  /** Collaterals that may be charged when the session times out: those who did not submit, or did not sign. */
  function Offenders(s: Session): seq<int> {
    if s.state == Accepting then Silent(s.collaterals, s.entries)
    else if s.state == Signing then Unsigned(s.entries)
    else []
  }

  function Silent(collaterals: seq<int>, es: seq<Entry>): seq<int> {
    if collaterals == [] then []
    else (if exists k :: 0 <= k < |es| && es[k].collateral == collaterals[0] then [] else [collaterals[0]])
         + Silent(collaterals[1..], es)
  }

  function Unsigned(es: seq<Entry>): seq<int> {
    if es == [] then [] else UnsignedOf(es[0].ins, es[0].collateral) + Unsigned(es[1..])
  }

  function UnsignedOf(ins: seq<DsIn>, collateral: int): seq<int> {
    if ins == [] then [] else (if ins[0].signed then [] else [collateral]) + UnsignedOf(ins[1..], collateral)
  }

  /** `ChargeFees`: the collateral charged, if any. `dice` and `shuffled` stand for the random choices. */
  function Charged(s: Session, dice: (nat, nat), shuffled: seq<int>): Option<int>
    requires multiset(shuffled) == multiset(Offenders(s))
  {
    var n := |Offenders(s)|;
    if dice.0 > 33 || n == 0 then None
    else if n >= s.maxParticipants - 1 && dice.1 > 33 then None
    else if n >= s.maxParticipants then None
    else assert |multiset(shuffled)| == n; Some(shuffled[0])
  }
}
