/** Transaction.Verify: the stateless, fail-fast validity rules.

    Ownership of inputs, their existence and coin conservation need the
    unspent-output set and are not checked here.
 */
module Verifier {
  import opened Base
  import opened Coin

  /** The stored header hash is the inner hash of the body. */
  predicate HeaderOk(p: Primitives, tx: Transaction) {
    HashInner(p, tx) == tx.head.hash
  }

  /** Inputs and outputs present, one signature per input, fewer than 65535 of them. */
  predicate ShapeOk(tx: Transaction) {
    && |tx.inputs| > 0
    && |tx.outputs| > 0
    && |tx.head.sigs| == |tx.inputs|
    && |tx.head.sigs| < MAX_UINT16
  }

  /** The identities of the unspent outputs this transaction would create:
      each is the hash of the transaction's own identity hash and the output. */
  function OutputIds(p: Primitives, tx: Transaction): (ids: seq<SHA256>)
    ensures |ids| == |tx.outputs|
  {
    var src := Hash(p, tx);
    seq<SHA256>(|tx.outputs|, i requires 0 <= i < |tx.outputs| =>
      p.uxBodyHash(src, tx.outputs[i].address, tx.outputs[i].coins, tx.outputs[i].hours))
  }

  /** Every signature verifies against the stored header hash. */
  predicate SigsOk(p: Primitives, tx: Transaction) {
    forall i :: 0 <= i < |tx.head.sigs| ==> p.verifySignedHash(tx.head.sigs[i], tx.head.hash)
  }

  /** The anti-spam rule: a nonzero whole multiple of 1e6 base units. Hours are unrestricted. */
  predicate CoinsOk(o: Output) {
    o.coins != 0 && o.coins % COIN_QUANTUM == 0
  }

  /** The error reported for an output that breaks the coin rule. */
  function CoinsError(o: Output): Error {
    if o.coins == 0 then ZeroCoinOutput else CoinsNotMultipleOf1e6
  }

  /** Position i is the first output that breaks the coin rule. */
  predicate FirstBadCoins(outs: seq<Output>, i: int) {
    0 <= i < |outs| && !CoinsOk(outs[i]) && forall j :: 0 <= j < i ==> CoinsOk(outs[j])
  }

  /** The last loop of Verify: outputs in order, zero first, then the multiple of 1e6. */
  function CheckCoins(outs: seq<Output>): (r: Outcome)
    ensures r.Pass? <==> forall i :: 0 <= i < |outs| ==> CoinsOk(outs[i])
    ensures r.Fail? ==> exists i :: FirstBadCoins(outs, i) && r.error == CoinsError(outs[i])
  {
    if |outs| == 0 then Pass
    else if outs[0].coins == 0 then
      assert FirstBadCoins(outs, 0);
      Fail(ZeroCoinOutput)
    else if outs[0].coins % COIN_QUANTUM != 0 then
      assert FirstBadCoins(outs, 0);
      Fail(CoinsNotMultipleOf1e6)
    else
      var r := CheckCoins(outs[1..]);
      assert forall i :: 0 < i < |outs| ==> outs[i] == outs[1..][i - 1];
      assert r.Fail? ==> exists i :: FirstBadCoins(outs, i) && r.error == CoinsError(outs[i]) by {
        if r.Fail? {
          var k :| FirstBadCoins(outs[1..], k) && r.error == CoinsError(outs[1..][k]);
          assert FirstBadCoins(outs, k + 1);
        }
      }
      r
  }

  /** The errors Verify can report; the builder-misuse errors are never among them. */
  const VerifyErrors: set<Error> :=
    {InvalidHeaderHash, NoInputs, NoOutputs, InvalidNumberOfSignatures, TooManySignatures,
     DuplicateSpend, DuplicateOutput, InvalidSignature, ZeroCoinOutput, CoinsNotMultipleOf1e6}

  /** Everything Verify demands, stated as one conjunction. */
  predicate WellFormed(p: Primitives, tx: Transaction) {
    && HeaderOk(p, tx)
    && ShapeOk(tx)
    && Distinct(tx.inputs)
    && Distinct(OutputIds(p, tx))
    && SigsOk(p, tx)
    && forall i :: 0 <= i < |tx.outputs| ==> CoinsOk(tx.outputs[i])
  }

  /** Transaction.Verify. The checks run in a fixed order and the first one
      that fails decides the error. Duplicates are found, as in the source, by
      comparing how many distinct values there are with how many there should be. */
  function Verify(p: Primitives, tx: Transaction): (r: Outcome)
    ensures r.Pass? <==> WellFormed(p, tx)
    ensures r == Fail(InvalidHeaderHash) <==> !HeaderOk(p, tx)
    ensures r == Fail(NoInputs) <==> HeaderOk(p, tx) && |tx.inputs| == 0
    ensures r == Fail(NoOutputs) <==> HeaderOk(p, tx) && |tx.inputs| > 0 && |tx.outputs| == 0
    ensures r == Fail(InvalidNumberOfSignatures) <==>
      HeaderOk(p, tx) && |tx.inputs| > 0 && |tx.outputs| > 0 && |tx.head.sigs| != |tx.inputs|
    ensures r == Fail(TooManySignatures) <==>
      HeaderOk(p, tx) && |tx.inputs| > 0 && |tx.outputs| > 0 && |tx.head.sigs| == |tx.inputs| >= MAX_UINT16
    ensures r == Fail(DuplicateSpend) <==> HeaderOk(p, tx) && ShapeOk(tx) && !Distinct(tx.inputs)
    ensures r == Fail(DuplicateOutput) <==>
      HeaderOk(p, tx) && ShapeOk(tx) && Distinct(tx.inputs) && !Distinct(OutputIds(p, tx))
    ensures r == Fail(InvalidSignature) <==>
      HeaderOk(p, tx) && ShapeOk(tx) && Distinct(tx.inputs) && Distinct(OutputIds(p, tx)) && !SigsOk(p, tx)
    ensures r.Fail? && r.error in {ZeroCoinOutput, CoinsNotMultipleOf1e6} <==>
      && HeaderOk(p, tx) && ShapeOk(tx) && Distinct(tx.inputs) && Distinct(OutputIds(p, tx)) && SigsOk(p, tx)
      && !(forall i :: 0 <= i < |tx.outputs| ==> CoinsOk(tx.outputs[i]))
    ensures r.Fail? && r.error in {ZeroCoinOutput, CoinsNotMultipleOf1e6} ==>
      exists i :: FirstBadCoins(tx.outputs, i) && r.error == CoinsError(tx.outputs[i])
    ensures r.Fail? ==> r.error in VerifyErrors
  {
    DistinctIffFullCard(tx.inputs);
    DistinctIffFullCard(OutputIds(p, tx));
    if HashInner(p, tx) != tx.head.hash then Fail(InvalidHeaderHash)
    else if |tx.inputs| == 0 then Fail(NoInputs)
    else if |tx.outputs| == 0 then Fail(NoOutputs)
    else if |tx.head.sigs| != |tx.inputs| then Fail(InvalidNumberOfSignatures)
    else if |tx.head.sigs| >= MAX_UINT16 then Fail(TooManySignatures)
    else if |Elements(tx.inputs)| != |tx.inputs| then Fail(DuplicateSpend)
    else if |Elements(OutputIds(p, tx))| != |tx.outputs| then Fail(DuplicateOutput)
    else if exists i :: 0 <= i < |tx.head.sigs| && !p.verifySignedHash(tx.head.sigs[i], tx.head.hash) then
      Fail(InvalidSignature)
    else CheckCoins(tx.outputs)
  }

  /** Two identical outputs always collide, whatever the hash function: their
      identities hash the same source transaction and the same fields. */
  lemma RepeatedOutputIsDuplicate(p: Primitives, tx: Transaction, i: int, j: int)
    requires HeaderOk(p, tx) && ShapeOk(tx) && Distinct(tx.inputs)
    requires 0 <= i < j < |tx.outputs| && tx.outputs[i] == tx.outputs[j]
    ensures Verify(p, tx) == Fail(DuplicateOutput)
  {
    var ids := OutputIds(p, tx);
    assert ids[i] == ids[j];
  }

  /** The output-identity hash does not collide on the outputs `outs`: under
      any source hash, two of them get the same identity only when they are
      equal. A 32-byte hash cannot be injective on all outputs, so collision
      freedom is assumed for the outputs at hand only. */
  ghost predicate OutputIdsSeparate(p: Primitives, outs: seq<Output>) {
    forall src: SHA256, i, j ::
      && 0 <= i < j < |outs|
      && p.uxBodyHash(src, outs[i].address, outs[i].coins, outs[i].hours)
         == p.uxBodyHash(src, outs[j].address, outs[j].coins, outs[j].hours)
      ==> outs[i] == outs[j]
  }

  /** When the output-identity hash does not collide on its outputs,
      "Duplicate output" means exactly that two outputs are equal in address,
      coins and hours. */
  lemma DuplicateOutputIffRepeatedOutput(p: Primitives, tx: Transaction)
    requires OutputIdsSeparate(p, tx.outputs)
    requires HeaderOk(p, tx) && ShapeOk(tx) && Distinct(tx.inputs)
    ensures Verify(p, tx) == Fail(DuplicateOutput) <==> !Distinct(tx.outputs)
  {
    var ids := OutputIds(p, tx);
    if !Distinct(ids) {
      var i, j :| 0 <= i < j < |ids| && ids[i] == ids[j];
      assert tx.outputs[i] == tx.outputs[j];
    }
    if !Distinct(tx.outputs) {
      var i, j :| 0 <= i < j < |tx.outputs| && tx.outputs[i] == tx.outputs[j];
      RepeatedOutputIsDuplicate(p, tx, i, j);
    }
  }

  /** Once the earlier checks pass, "Duplicate spend" means exactly that two inputs are equal. */
  lemma DuplicateSpendIffRepeatedInput(p: Primitives, tx: Transaction)
    requires HeaderOk(p, tx) && ShapeOk(tx)
    ensures Verify(p, tx) == Fail(DuplicateSpend) <==>
      exists i, j :: 0 <= i < j < |tx.inputs| && tx.inputs[i] == tx.inputs[j]
  {
  }

  /** The quantisation rule in isolation: a transaction that passes every
      other check is accepted with 2e6 coins on every output whatever the
      hours, and rejected once its first output carries 1.5e6 or 0 coins. */
  lemma CoinQuantisation(p: Primitives, tx: Transaction)
    requires HeaderOk(p, tx) && ShapeOk(tx) && Distinct(tx.inputs) && Distinct(OutputIds(p, tx)) && SigsOk(p, tx)
    ensures (forall i :: 0 <= i < |tx.outputs| ==> tx.outputs[i].coins == 2000000) ==> Verify(p, tx) == Pass
    ensures tx.outputs[0].coins == 1500000 ==> Verify(p, tx) == Fail(CoinsNotMultipleOf1e6)
    ensures tx.outputs[0].coins == 0 ==> Verify(p, tx) == Fail(ZeroCoinOutput)
  {
    if tx.outputs[0].coins == 1500000 || tx.outputs[0].coins == 0 {
      var r := Verify(p, tx);
      assert r.Fail?;
      var i :| FirstBadCoins(tx.outputs, i) && r.error == CoinsError(tx.outputs[i]);
      assert i == 0;
    }
  }

  /** The inner hash tells the bodies of `a` and `b` apart: they share an
      inner hash only when they share inputs and outputs. A 32-byte hash cannot
      do this for all bodies, so it is assumed of the two bodies at hand only. */
  ghost predicate InnerHashSeparates(p: Primitives, a: Transaction, b: Transaction) {
    HashInner(p, a) == HashInner(p, b) ==> a.inputs == b.inputs && a.outputs == b.outputs
  }

  /** Tampering with the inputs or outputs of a transaction whose header was
      correct is reported as a header-hash mismatch, before any signature is
      looked at, unless the forged body collides with the original under the inner hash. */
  lemma TamperingBreaksHeader(p: Primitives, tx: Transaction, forged: Transaction)
    requires InnerHashSeparates(p, forged, tx)
    requires HeaderOk(p, tx)
    requires forged.head == tx.head
    requires forged.inputs != tx.inputs || forged.outputs != tx.outputs
    ensures Verify(p, forged) == Fail(InvalidHeaderHash)
  {
  }

  /** A signature made over a hash verifies against that hash. */
  ghost predicate SigningSound(p: Primitives) {
    forall h, k :: p.verifySignedHash(p.signHash(h, k), h)
  }

  /** The intended life cycle: build, UpdateHeader, SignInputs with one key
      per input. The result passes the header check and the count checks. */
  lemma UpdateThenSignPassesHeaderAndShape(p: Primitives, tx: Transaction, keys: seq<SecKey>)
    requires |tx.head.sigs| == 0 && |tx.outputs| > 0
    requires |keys| == |tx.inputs| && 0 < |keys| < MAX_UINT16
    ensures var s := SignInputs(p, UpdateHeader(p, tx), keys);
      s.Ok? && HeaderOk(p, s.value) && ShapeOk(s.value)
  {
  }

  /** With a sound signature scheme and output identities that do not collide
      on its outputs, a transaction built, headed and signed this way is accepted exactly when its
      inputs are distinct, its outputs are distinct and every output's coins
      are a nonzero multiple of 1e6. */
  lemma SignedTransactionVerifies(p: Primitives, tx: Transaction, keys: seq<SecKey>)
    requires SigningSound(p) && OutputIdsSeparate(p, tx.outputs)
    requires |tx.head.sigs| == 0 && |tx.outputs| > 0
    requires |keys| == |tx.inputs| && 0 < |keys| < MAX_UINT16
    ensures var s := SignInputs(p, UpdateHeader(p, tx), keys);
      s.Ok? &&
      (Verify(p, s.value) == Pass <==>
        Distinct(tx.inputs) && Distinct(tx.outputs) &&
        forall i :: 0 <= i < |tx.outputs| ==> CoinsOk(tx.outputs[i]))
  {
    var t := UpdateHeader(p, tx);
    var s := SignInputs(p, t, keys).value;
    assert HashInner(p, t) == HashInner(p, tx) == s.head.hash;
    assert SigsOk(p, s);
    var ids := OutputIds(p, s);
    if !Distinct(ids) {
      var i, j :| 0 <= i < j < |ids| && ids[i] == ids[j];
      assert s.outputs[i] == s.outputs[j];
    }
    if !Distinct(s.outputs) {
      var i, j :| 0 <= i < j < |s.outputs| && s.outputs[i] == s.outputs[j];
      assert ids[i] == ids[j];
    }
  }

  /** The input ceilings disagree by one: PushInput accepts a 65535th input
      and SignInputs signs 65535 keys, but Verify rejects a transaction with
      65535 signatures. The largest transaction the builders produce is never valid. */
  lemma InputCeilingMismatch(p: Primitives, tx: Transaction, uxOut: SHA256, keys: seq<SecKey>)
    requires |tx.inputs| == MAX_UINT16 - 1 && |tx.head.sigs| == 0 && |tx.outputs| > 0
    requires |keys| == MAX_UINT16
    ensures var pushed := PushInput(tx, uxOut);
      && pushed.Ok?
      && |pushed.value.0.inputs| == MAX_UINT16
      && PushInput(pushed.value.0, uxOut) == Err(MaxInputsReached)
      && var signed := SignInputs(p, UpdateHeader(p, pushed.value.0), keys);
      && signed.Ok?
      && Verify(p, signed.value) == Fail(TooManySignatures)
  {
  }
}
