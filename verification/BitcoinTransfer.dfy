/** Building an unsigned Bitcoin transfer from selected coins, and signing it input by input. */
module BitcoinTransfers {
  import opened Domain
  import opened CoinSelection

  datatype Outpoint = Outpoint(hash: Bytes, index: nat)

  datatype TxIn = TxIn(prev: Outpoint, script: Script, sequence: nat)

  datatype TxOut = TxOut(value: Int64, script: Script)

  datatype MsgTx = MsgTx(version: int, ins: seq<TxIn>, outs: seq<TxOut>, lockTime: nat)

  /** What travels in the envelope: the unsigned transaction and, per input, the script of the coin it spends. */
  datatype Payload = Payload(tx: MsgTx, scripts: seq<Script>)

  const TX_VERSION := 1
  const MAX_SEQUENCE := 0xFFFF_FFFF

  // ----- Building ----------------------------------------------------------------------------

  /** The library's parsers: a txid to its hash, an address text to its payload, that to the script paying it. */
  datatype Codec = Codec(
    hashOf: string -> Option<Bytes>,
    decode: Address -> Option<Bytes>,
    payToAddr: Bytes -> Option<Script>)

  datatype BuildError = InsufficientFunds | BadToAddress | BadFromAddress | BadToScript | BadChangeScript | BadTxid

  /** The script pays the address that the text stands for. */
  predicate Pays(codec: Codec, script: Script, a: Address) {
    codec.decode(a).Some? && codec.payToAddr(codec.decode(a).value) == Some(script)
  }

  datatype BuildResult = Built(payload: Payload) | NotBuilt(error: BuildError)

  predicate TxidParses(codec: Codec, u: Utxo) {
    codec.hashOf(u.txid).Some?
  }

  /** The input names the coin: the parsed hash of its transaction, and the number of the output that it is. */
  predicate SpendsCoin(codec: Codec, input: TxIn, u: Utxo) {
    Some(input.prev.hash) == codec.hashOf(u.txid) && input.prev.index == u.vout
  }

  /**
   * Input i spends the i-th selected coin, final and still unsigned, and the payload carries that coin's script for it;
   * version and lock time are the usual ones.
   */
  ghost predicate SpendsInOrder(codec: Codec, p: Payload, selected: seq<Utxo>) {
    && p.tx.version == 1 && p.tx.lockTime == 0
    && |p.tx.ins| == |p.scripts| == |selected|
    && forall i | 0 <= i < |selected| ::
         && SpendsCoin(codec, p.tx.ins[i], selected[i])
         && p.tx.ins[i].script == [] && p.tx.ins[i].sequence == 0xFFFF_FFFF
         && p.scripts[i] == selected[i].script
  }

  /** The recipient is paid first and in full; whatever is left after the fee goes back to the sender. */
  ghost predicate PaysAndReturns(codec: Codec, outs: seq<TxOut>, from: Address, to: Address, send: Int64) {
    && 1 <= |outs| <= 2
    && Pays(codec, outs[0].script, to) && outs[0].value == send
    && (|outs| == 2 ==> Pays(codec, outs[1].script, from) && outs[1].value > 0)
  }

  /** What goes in is the payment, the change if there is any, and the fee. */
  predicate Conserves(total: int, outs: seq<TxOut>, fee: int) {
    1 <= |outs| <= 2 && total == outs[0].value + (if |outs| == 2 then outs[1].value else 0) + fee
  }

  /** The coins' total and the need are 64-bit numbers, so that no arithmetic of the transfer wraps. */
  ghost predicate Exact(coins: seq<Utxo>, send: Int64, fee: Int64) {
    Fits(coins) && -TWO_TO_THE_63 <= send + fee < TWO_TO_THE_63
  }

  /** Some of the coins are spent, or nothing was built because they do not suffice. */
  ghost predicate SpendsSome(codec: Codec, r: BuildResult, coins: seq<Utxo>, selected: seq<Utxo>, from: Address,
                             to: Address, send: Int64, fee: Int64)
  {
    if r == NotBuilt(InsufficientFunds) then Refused(coins, ToInt64(send + fee))
    else
      && TakesFirst(coins, selected, ToInt64(send + fee))
      && selected != [] && multiset(selected) <= multiset(coins)
      && Assembled(codec, r, selected, ToInt64(Sum(selected)), from, to, send, fee)
  }

  /**
   * Coins come out exactly when they can pay, the selection is a good one, and for an amount and fee that are not
   * negative together nothing is created or lost.
   */
  ghost predicate SpendsWell(r: BuildResult, coins: seq<Utxo>, selected: seq<Utxo>, send: Int64, fee: Int64) {
    && (r == NotBuilt(InsufficientFunds) <==> !Payable(coins, send + fee))
    && (r != NotBuilt(InsufficientFunds) ==> GoodSelection(coins, selected, send + fee))
    && (r.Built? && 0 <= send + fee ==> Conserves(Sum(selected), r.payload.tx.outs, fee))
  }

  /** A transfer from the mature ones of the fetched coins; where nothing wraps, it is done well. */
  method BuildTransfer(codec: Codec, coins: array<Utxo>, tip: int, from: Address, to: Address, send: Int64, fee: Int64)
    returns (r: BuildResult, ghost selected: seq<Utxo>)
    modifies coins
    ensures SpendsSome(codec, r, Mature(old(coins[..]), tip), selected, from, to, send, fee)
    ensures Exact(Mature(old(coins[..]), tip), send, fee) ==>
              SpendsWell(r, Mature(old(coins[..]), tip), selected, send, fee)
  {
    var ok, chosen, total := FindCoins(coins, tip, ToInt64(send + fee));
    selected := chosen;
    if !ok {
      NotFunded(Mature(old(coins[..]), tip), selected, send, fee);
      return NotBuilt(InsufficientFunds), selected;
    }
    r := Assemble(codec, chosen, total, from, to, send, fee);
    Funded(codec, r, Mature(old(coins[..]), tip), chosen, total, from, to, send, fee);
  }

  /** The mature coins, and a selection among them. */
  method FindCoins(coins: array<Utxo>, tip: int, need: Int64) returns (ok: bool, selected: seq<Utxo>, total: Int64)
    modifies coins
    ensures ok ==> Found(Mature(old(coins[..]), tip), selected, total, need)
    ensures !ok ==> Refused(Mature(old(coins[..]), tip), need)
    ensures !ok ==> Fits(Mature(old(coins[..]), tip)) ==> !Payable(Mature(old(coins[..]), tip), need)
  {
    var n := KeepSpendable(coins, tip);
    assert coins[..n] == Mature(old(coins[..]), tip);
    ok, selected, total := SelectUtxos(coins, n, need);
  }

  lemma NotFunded(coins: seq<Utxo>, selected: seq<Utxo>, send: Int64, fee: Int64)
    requires Fits(coins) ==> !Payable(coins, ToInt64(send + fee))
    ensures Exact(coins, send, fee) ==> SpendsWell(NotBuilt(InsufficientFunds), coins, selected, send, fee)
  {
    InRangeStays(send + fee);
  }

  /** What the selection found, in terms of the transfer. */
  ghost predicate Found(coins: seq<Utxo>, selected: seq<Utxo>, total: Int64, need: int) {
    && TakesFirst(coins, selected, need)
    && selected != [] && multiset(selected) <= multiset(coins) && total == ToInt64(Sum(selected))
    && (Fits(coins) ==> Payable(coins, need) && GoodSelection(coins, selected, need) && total == Sum(selected))
  }

  lemma Funded(codec: Codec, r: BuildResult, coins: seq<Utxo>, selected: seq<Utxo>, total: Int64,
               from: Address, to: Address, send: Int64, fee: Int64)
    requires Found(coins, selected, total, ToInt64(send + fee))
    requires Assembled(codec, r, selected, total, from, to, send, fee)
    ensures SpendsSome(codec, r, coins, selected, from, to, send, fee)
    ensures Exact(coins, send, fee) ==> SpendsWell(r, coins, selected, send, fee)
  {
    if Exact(coins, send, fee) {
      InRangeStays(send + fee);
      ExactConserves(codec, r, coins, selected, total, from, to, send, fee);
    }
  }

  lemma InRangeStays(v: int)
    ensures ToInt64(v) == v <==> -TWO_TO_THE_63 <= v < TWO_TO_THE_63
  {
  }

  lemma ExactConserves(codec: Codec, r: BuildResult, coins: seq<Utxo>, selected: seq<Utxo>, total: Int64, from: Address,
                       to: Address, send: Int64, fee: Int64)
    requires Fits(coins) && multiset(selected) <= multiset(coins)
    requires total == Sum(selected) >= send + fee && Assembled(codec, r, selected, total, from, to, send, fee)
    ensures r != NotBuilt(InsufficientFunds)
    ensures r.Built? && 0 <= send + fee ==> Conserves(Sum(selected), r.payload.tx.outs, fee)
  {
  }

  /**
   * The transfer spends the selected coins, and what goes in is what comes out plus the fee exactly when the change is
   * not negative and does not wrap; or one of the texts involved did not parse, the first of them in the order of the
   * cases below.
   */
  ghost predicate Assembled(codec: Codec, r: BuildResult, selected: seq<Utxo>, total: Int64, from: Address, to: Address,
                            send: Int64, fee: Int64)
  {
    match r
    case Built(p) =>
      && SpendsInOrder(codec, p, selected)
      && PaysAndReturns(codec, p.tx.outs, from, to, send)
      && (|p.tx.outs| == 2 <==> ToInt64(total - send - fee) > 0)
      && (|p.tx.outs| == 2 ==> p.tx.outs[1].value == ToInt64(total - send - fee))
      && (Conserves(total, p.tx.outs, fee) <==> 0 <= total - send - fee < TWO_TO_THE_63)
    case NotBuilt(error) =>
      var toAddr, fromAddr := codec.decode(to), codec.decode(from);
      match error
      case InsufficientFunds => false
      case BadToAddress => toAddr.None?
      case BadFromAddress => toAddr.Some? && fromAddr.None?
      case BadToScript => toAddr.Some? && fromAddr.Some? && codec.payToAddr(toAddr.value).None?
      case BadChangeScript =>
        && toAddr.Some? && fromAddr.Some? && codec.payToAddr(toAddr.value).Some?
        && codec.payToAddr(fromAddr.value).None?
      case BadTxid =>
        && toAddr.Some? && fromAddr.Some? && codec.payToAddr(toAddr.value).Some?
        && codec.payToAddr(fromAddr.value).Some?
        && exists u :: u in selected && !TxidParses(codec, u)
  }

  /** Everything after the coins are selected. */
  method Assemble(codec: Codec, selected: seq<Utxo>, total: Int64, from: Address, to: Address, send: Int64, fee: Int64)
    returns (r: BuildResult)
    ensures Assembled(codec, r, selected, total, from, to, send, fee)
  {
    var toAddr := codec.decode(to);
    if toAddr.None? {
      return NotBuilt(BadToAddress);
    }
    var fromAddr := codec.decode(from);
    if fromAddr.None? {
      return NotBuilt(BadFromAddress);
    }
    var toScript := codec.payToAddr(toAddr.value);
    if toScript.None? {
      return NotBuilt(BadToScript);
    }
    var changeScript := codec.payToAddr(fromAddr.value);
    if changeScript.None? {
      return NotBuilt(BadChangeScript);
    }
    var parsed, ins, scripts := Inputs(codec, selected);
    if !parsed {
      return NotBuilt(BadTxid);
    }
    var outs := Outputs(total, send, fee, toScript.value, changeScript.value);
    return Built(Payload(MsgTx(TX_VERSION, ins, outs, 0), scripts));
  }

  /** The payment and, when anything is left, the change; they balance exactly when the change does not wrap. */
  method Outputs(total: Int64, send: Int64, fee: Int64, toScript: Script, changeScript: Script)
    returns (outs: seq<TxOut>)
    ensures 1 <= |outs| <= 2 && outs[0] == TxOut(send, toScript)
    ensures |outs| == 2 ==> outs[1].script == changeScript && outs[1].value > 0
    ensures |outs| == 2 <==> ToInt64(total - send - fee) > 0
    ensures |outs| == 2 ==> outs[1].value == ToInt64(total - send - fee)
    ensures Conserves(total, outs, fee) <==> 0 <= total - send - fee < TWO_TO_THE_63
  {
    outs := [TxOut(send, toScript)];
    var change := ToInt64(ToInt64(total - send) - fee);
    WrappedSum(total - send, 0 - fee);
    if change > 0 {
      outs := outs + [TxOut(change, changeScript)];
    }
  }

  /** The loop over the selected coins; it fails on the first txid that does not parse. */
  method Inputs(codec: Codec, chosen: seq<Utxo>) returns (ok: bool, ins: seq<TxIn>, scripts: seq<Script>)
    ensures ok <==> forall u | u in chosen :: TxidParses(codec, u)
    ensures ok ==> |ins| == |scripts| == |chosen|
    ensures ok ==> forall i | 0 <= i < |chosen| ::
              && SpendsCoin(codec, ins[i], chosen[i])
              && ins[i].script == [] && ins[i].sequence == 0xFFFF_FFFF
              && scripts[i] == chosen[i].script
  {
    ins, scripts := [], [];
    for i := 0 to |chosen|
      invariant |ins| == |scripts| == i
      invariant forall j | 0 <= j < i ::
                  && TxidParses(codec, chosen[j])
                  && SpendsCoin(codec, ins[j], chosen[j])
                  && ins[j].script == [] && ins[j].sequence == 0xFFFF_FFFF
                  && scripts[j] == chosen[j].script
    {
      var u := chosen[i];
      var hash := codec.hashOf(u.txid);
      if hash.None? {
        assert u in chosen && !TxidParses(codec, u);
        return false, ins, scripts;
      }
      ins := ins + [TxIn(Outpoint(hash.value, u.vout), [], MAX_SEQUENCE)];
      scripts := scripts + [u.script];
    }
    ok := true;
  }

  /** Whatever is selected was fetched and may be spent in the next block. */
  lemma SelectedIsFetched(coins: seq<Utxo>, tip: int, selected: seq<Utxo>, need: int)
    requires Covers(Mature(coins, tip), selected, need)
    ensures forall u | u in selected :: u in coins && Spendable(u, tip)
  {
    forall u | u in selected
      ensures u in coins && Spendable(u, tip)
    {
      assert u in multiset(selected) && u in multiset(Mature(coins, tip));
      MatureIsPart(coins, tip, u);
    }
  }

  lemma {:induction false} MatureIsPart(coins: seq<Utxo>, tip: int, u: Utxo)
    requires u in Mature(coins, tip)
    ensures u in coins && Spendable(u, tip)
  {
    if coins != [] {
      var init := coins[..|coins| - 1];
      if u in Mature(init, tip) {
        MatureIsPart(init, tip, u);
      }
    }
  }

  /** Coins are found exactly when the mature total reaches send plus fee. */
  lemma PayableExactlyWhenTotalSuffices(coins: seq<Utxo>, need: int)
    requires Fits(coins) && need > 0
    ensures Payable(coins, need) <==> Sum(coins) >= need
  {
    CoverableExactlyWhenTotalSuffices(coins, need);
  }

  /** No coin is listed twice: a transaction's hash and the number of its output occur together once. */
  ghost predicate DistinctCoins(codec: Codec, coins: seq<Utxo>) {
    forall i, j | 0 <= i < j < |coins| && TxidParses(codec, coins[i]) ::
      codec.hashOf(coins[i].txid) != codec.hashOf(coins[j].txid) || coins[i].vout != coins[j].vout
  }

  /** If the node listed no coin twice, no two inputs spend the same one. */
  lemma NoCoinIsSpentTwice(codec: Codec, fetched: seq<Utxo>, tip: int, need: int, p: Payload, selected: seq<Utxo>,
                           i: nat, j: nat)
    requires DistinctCoins(codec, fetched)
    requires Covers(Mature(fetched, tip), selected, need) && SpendsInOrder(codec, p, selected)
    requires i < j < |p.tx.ins|
    ensures p.tx.ins[i].prev != p.tx.ins[j].prev
  {
    var u, v := selected[i], selected[j];
    MatureIsSubMultiset(fetched, tip);
    assert u in multiset(fetched) && v in multiset(fetched);
    if u == v {
      TwiceMeansTwoPlaces(selected, u, i, j);
      var k, l := TwoPlaces(fetched, u);
    } else {
      var k :| 0 <= k < |fetched| && fetched[k] == u;
      var l :| 0 <= l < |fetched| && fetched[l] == v;
      assert k != l && TxidParses(codec, fetched[k]) && TxidParses(codec, fetched[l]);
      assert k < l || l < k;
    }
  }

  lemma {:induction false} MatureIsSubMultiset(coins: seq<Utxo>, tip: int)
    ensures multiset(Mature(coins, tip)) <= multiset(coins)
  {
    if coins != [] {
      var n := |coins| - 1;
      MatureIsSubMultiset(coins[..n], tip);
      assert coins == coins[..n] + [coins[n]];
    }
  }

  lemma TwiceMeansTwoPlaces(coins: seq<Utxo>, u: Utxo, i: nat, j: nat)
    requires i < j < |coins| && coins[i] == u == coins[j]
    ensures multiset(coins)[u] >= 2
  {
    assert coins == coins[..j] + coins[j..];
    assert coins[..j][i] == u && coins[j..][0] == u;
    assert u in multiset(coins[..j]) && u in multiset(coins[j..]);
  }

  lemma TwoPlaces(coins: seq<Utxo>, u: Utxo) returns (k: nat, l: nat)
    requires multiset(coins)[u] >= 2
    ensures k < l < |coins| && coins[k] == u == coins[l]
  {
    assert u in multiset(coins);
    k :| k < |coins| && coins[k] == u;
    assert u in multiset(Without(coins, k)) by {
      SplitAt(coins, k);
    }
    l :| l < |Without(coins, k)| && Without(coins, k)[l] == u;
    if l < k {
      k, l := l, k;
    } else {
      l := l + 1;
    }
  }

  // ----- Signing -----------------------------------------------------------------------------

  const SIGHASH_ALL: Byte := 1

  /** What the legacy SIGHASH_ALL digest is taken of. */
  datatype Preimage = Preimage(tx: MsgTx, hashType: Byte)

  /**
   * The cryptography, uninterpreted: `clean` removes code separators and fails on an unparsable script, `hash` is
   * the double SHA-256 of the serialised preimage, `scriptSig` pushes a signature and a public key.
   */
  datatype Crypto = Crypto(
    clean: Script -> Option<Script>,
    hash: Preimage -> Bytes,
    sign: Bytes -> Option<Bytes>,
    pubKey: Option<Bytes>,
    scriptSig: (Bytes, Bytes) -> Option<Script>)

  /** The transaction with every input script emptied except input i's, which becomes `script`. */
  function OnlyScript(tx: MsgTx, i: nat, script: Script): MsgTx {
    tx.(ins := seq(|tx.ins|, j requires 0 <= j < |tx.ins| => tx.ins[j].(script := if j == i then script else [])))
  }

  function CalcSignatureHash(c: Crypto, script: Script, tx: MsgTx, i: nat): Option<Bytes> {
    if i >= |tx.ins| || c.clean(script).None? then None
    else Some(c.hash(Preimage(OnlyScript(tx, i, c.clean(script).value), SIGHASH_ALL)))
  }

  /** Two transactions that differ at most in their input scripts. */
  ghost predicate SameButScripts(a: MsgTx, b: MsgTx) {
    && a.version == b.version && a.outs == b.outs && a.lockTime == b.lockTime
    && |a.ins| == |b.ins|
    && forall i | 0 <= i < |a.ins| :: a.ins[i].prev == b.ins[i].prev && a.ins[i].sequence == b.ins[i].sequence
  }

  /** What other iterations write into the inputs does not reach the digest of this one. */
  lemma DigestIgnoresInputScripts(c: Crypto, script: Script, a: MsgTx, b: MsgTx, i: nat)
    requires SameButScripts(a, b)
    ensures CalcSignatureHash(c, script, a, i) == CalcSignatureHash(c, script, b, i)
  {
    if i < |a.ins| && c.clean(script).Some? {
      var s := c.clean(script).value;
      assert OnlyScript(a, i, s).ins == OnlyScript(b, i, s).ins;
      assert OnlyScript(a, i, s) == OnlyScript(b, i, s);
    }
  }

  /** What a legacy signature of input i with hash type ALL is made over: all of `tx`, with no script but input i's. */
  ghost predicate IsPreimage(pre: MsgTx, tx: MsgTx, i: nat, script: Script) {
    && pre.version == tx.version && pre.outs == tx.outs && pre.lockTime == tx.lockTime
    && |pre.ins| == |tx.ins|
    && forall j | 0 <= j < |tx.ins| ::
         && pre.ins[j].prev == tx.ins[j].prev && pre.ins[j].sequence == tx.ins[j].sequence
         && pre.ins[j].script == if j == i then script else []
  }

  /** `sig` signs input i of `tx`, which spends a coin with this script, and `pub` is the key to check it with. */
  ghost predicate Signs(c: Crypto, script: Script, tx: MsgTx, i: nat, pre: MsgTx, sig: Bytes, pub: Bytes) {
    && c.clean(script).Some? && IsPreimage(pre, tx, i, c.clean(script).value)
    && Some(sig) == c.sign(c.hash(Preimage(pre, 1)))
    && Some(pub) == c.pubKey
  }

  /** Input i of `tx` carries, in this order, the signature over `tx` with the hash type behind it, and the key. */
  ghost predicate SignedInput(c: Crypto, script: Script, tx: MsgTx, i: nat) {
    && i < |tx.ins|
    && exists pre, sig, pub ::
         Signs(c, script, tx, i, pre, sig, pub) && Some(tx.ins[i].script) == c.scriptSig(sig + [1], pub)
  }

  /** Input i of `tx` can be given such a script. */
  ghost predicate Signable(c: Crypto, script: Script, tx: MsgTx, i: nat) {
    exists pre, sig, pub :: Signs(c, script, tx, i, pre, sig, pub) && c.scriptSig(sig + [1], pub).Some?
  }

  lemma PreimageIsUnique(a: MsgTx, b: MsgTx, tx: MsgTx, i: nat, script: Script)
    requires IsPreimage(a, tx, i, script) && IsPreimage(b, tx, i, script)
    ensures a == b
  {
    assert a.ins == b.ins;
  }

  /** The preimage does not depend on what is in the input scripts, so nor does a signature. */
  lemma SignsAlike(c: Crypto, script: Script, a: MsgTx, b: MsgTx, i: nat)
    requires SameButScripts(a, b)
    ensures forall pre, sig, pub :: Signs(c, script, a, i, pre, sig, pub) <==> Signs(c, script, b, i, pre, sig, pub)
    ensures Signable(c, script, a, i) <==> Signable(c, script, b, i)
  {
    forall pre, sig, pub
      ensures Signs(c, script, a, i, pre, sig, pub) <==> Signs(c, script, b, i, pre, sig, pub)
    {
    }
  }

  lemma SignatureStays(c: Crypto, script: Script, a: MsgTx, b: MsgTx, i: nat)
    requires SameButScripts(a, b) && SignedInput(c, script, a, i) && a.ins[i].script == b.ins[i].script
    ensures SignedInput(c, script, b, i)
  {
    SignsAlike(c, script, a, b, i);
  }

  /** What one iteration of the signing loop computes, and that it fails exactly when the input cannot be signed. */
  lemma OneSignature(c: Crypto, script: Script, tx: MsgTx, i: nat)
    requires i < |tx.ins|
    ensures var digest := CalcSignatureHash(c, script, tx, i);
            && (digest.Some? && c.sign(digest.value).Some? && c.pubKey.Some? ==>
                  Signs(c, script, tx, i, OnlyScript(tx, i, c.clean(script).value), c.sign(digest.value).value,
                        c.pubKey.value))
            && (Signable(c, script, tx, i)
                <==> digest.Some? && c.sign(digest.value).Some? && c.pubKey.Some?
                     && c.scriptSig(c.sign(digest.value).value + [1], c.pubKey.value).Some?)
  {
    forall pre | c.clean(script).Some? && IsPreimage(pre, tx, i, c.clean(script).value)
      ensures pre == OnlyScript(tx, i, c.clean(script).value)
    {
      PreimageIsUnique(pre, OnlyScript(tx, i, c.clean(script).value), tx, i, c.clean(script).value);
    }
  }

  /** The next input is signed, the others' scripts stand. */
  lemma SignedOneMore(c: Crypto, p: Payload, before: MsgTx, after: MsgTx, i: nat)
    requires |p.scripts| >= |p.tx.ins| && i < |p.tx.ins|
    requires SameButScripts(before, p.tx) && SameButScripts(after, before)
    requires forall j | 0 <= j < i :: after.ins[j].script == before.ins[j].script
    requires forall j: nat | j < i :: SignedInput(c, p.scripts[j], before, j)
    requires var digest := CalcSignatureHash(c, p.scripts[i], before, i);
             && digest.Some? && c.sign(digest.value).Some? && c.pubKey.Some?
             && Some(after.ins[i].script) == c.scriptSig(c.sign(digest.value).value + [1], c.pubKey.value)
    ensures SameButScripts(after, p.tx) && Signable(c, p.scripts[i], p.tx, i)
    ensures forall j: nat | j <= i :: SignedInput(c, p.scripts[j], after, j)
  {
    OneSignature(c, p.scripts[i], before, i);
    SignsAlike(c, p.scripts[i], before, p.tx, i);
    SignsAlike(c, p.scripts[i], before, after, i);
    forall j: nat | j < i
      ensures SignedInput(c, p.scripts[j], after, j)
    {
      SignatureStays(c, p.scripts[j], before, after, j);
    }
  }

  function Snapshot(tx: MsgTx, ins: array<TxIn>): MsgTx
    reads ins
  {
    tx.(ins := ins[..])
  }

  /**
   * Signs in place, input after input. On success every input carries a signature that is right for the finished
   * transaction, although each was made while later inputs were still empty; nothing but input scripts changes.
   */
  method Sign(c: Crypto, p: Payload) returns (signed: Option<MsgTx>)
    requires |p.scripts| >= |p.tx.ins|
    ensures signed.Some? <==> c.pubKey.Some? && forall i: nat | i < |p.tx.ins| :: Signable(c, p.scripts[i], p.tx, i)
    ensures signed.Some? ==>
              && SameButScripts(signed.value, p.tx)
              && forall i: nat | i < |p.tx.ins| :: SignedInput(c, p.scripts[i], signed.value, i)
  {
    if c.pubKey.None? {
      return None;
    }
    var ins := new TxIn[|p.tx.ins|](i requires 0 <= i < |p.tx.ins| => p.tx.ins[i]);
    for i := 0 to ins.Length
      invariant SameButScripts(Snapshot(p.tx, ins), p.tx)
      invariant forall j: nat | j < i :: Signable(c, p.scripts[j], p.tx, j)
      invariant forall j: nat | j < i :: SignedInput(c, p.scripts[j], Snapshot(p.tx, ins), j)
    {
      ghost var before := Snapshot(p.tx, ins);
      OneSignature(c, p.scripts[i], before, i);
      SignsAlike(c, p.scripts[i], before, p.tx, i);
      var digest := CalcSignatureHash(c, p.scripts[i], Snapshot(p.tx, ins), i);
      if digest.None? {
        return None;
      }
      var sig := c.sign(digest.value);
      if sig.None? {
        return None;
      }
      var script := c.scriptSig(sig.value + [SIGHASH_ALL], c.pubKey.value);
      if script.None? {
        return None;
      }
      ins[i] := ins[i].(script := script.value);
      ghost var after := Snapshot(p.tx, ins);
      SignedOneMore(c, p, before, after, i);
    }
    return Some(Snapshot(p.tx, ins));
  }

  /** End to end: each signed input spends a selected coin and is signed over exactly that coin's script. */
  lemma SignedOverTheCoinsOwnScript(codec: Codec, c: Crypto, p: Payload, selected: seq<Utxo>, signed: MsgTx, i: nat)
    requires SpendsInOrder(codec, p, selected) && SameButScripts(signed, p.tx) && i < |selected|
    requires SignedInput(c, p.scripts[i], signed, i)
    ensures Some(signed.ins[i].prev.hash) == codec.hashOf(selected[i].txid)
    ensures signed.ins[i].prev.index == selected[i].vout
    ensures SignedInput(c, selected[i].script, signed, i)
    ensures signed.outs == p.tx.outs
  {
    assert SpendsCoin(codec, p.tx.ins[i], selected[i]) && signed.ins[i].prev == p.tx.ins[i].prev;
  }

  // ----- What a node checks ------------------------------------------------------------------

  /** A node's side: `split` takes an input script apart, `verify` checks a signature with a key and a digest. */
  datatype Checks = Checks(split: Script -> Option<(Bytes, Bytes)>, verify: (Bytes, Bytes, Bytes) -> bool)

  /** What the signer pushes is what the node finds, and what it signs the node can check with its key. */
  ghost predicate Agrees(c: Crypto, k: Checks) {
    && (forall a, b | c.scriptSig(a, b).Some? :: k.split(c.scriptSig(a, b).value) == Some((a, b)))
    && (forall d | c.sign(d).Some? && c.pubKey.Some? :: k.verify(c.pubKey.value, d, c.sign(d).value))
  }

  /** The input's script is a signature over the transaction, ending in the hash type ALL, and then a key. */
  ghost predicate Accepted(c: Crypto, k: Checks, script: Script, tx: MsgTx, i: nat) {
    && i < |tx.ins|
    && c.clean(script).Some?
    && k.split(tx.ins[i].script).Some?
    && var (sig, pub) := k.split(tx.ins[i].script).value;
       && sig != [] && sig[|sig| - 1] == 1
       && exists pre :: IsPreimage(pre, tx, i, c.clean(script).value)
                        && k.verify(pub, c.hash(Preimage(pre, 1)), sig[..|sig| - 1])
  }

  /** Every input of a signed transaction is one that a node accepts. */
  lemma SignedInputsAreAccepted(c: Crypto, k: Checks, script: Script, tx: MsgTx, i: nat)
    requires Agrees(c, k) && SignedInput(c, script, tx, i)
    ensures Accepted(c, k, script, tx, i)
  {
    var pre, sig, pub :|
      Signs(c, script, tx, i, pre, sig, pub) && Some(tx.ins[i].script) == c.scriptSig(sig + [1], pub);
    assert (sig + [1])[..|sig + [1]| - 1] == sig;
  }
}
