/** The Transaction value of the coin package, its hashes and its builders.

    The cryptographic primitives and the binary encoder are collaborators the
    core only consumes, so they are passed in as a `Primitives` record of
    total functions: nothing below depends on how they are computed.
 */
module Coin {
  import opened Base

  /** One output: send `coins` and `hours` to `address`. */
  datatype Output = Output(address: Address, coins: Uint64, hours: Uint64)

  /** The header is not covered by the inner hash: the inner hash itself and
      one signature per input. */
  datatype Header = Header(hash: SHA256, sigs: seq<Sig>)

  /** Inputs name the unspent outputs they spend by hash. */
  datatype Transaction = Transaction(head: Header, inputs: seq<SHA256>, outputs: seq<Output>)

  /** A canonical encoding of a whole transaction: never empty (it holds at
      least the header hash) and, being a Go slice, shorter than 2^63 bytes. */
  type Encoding = b: seq<Byte> | 0 < |b| < 0x8000_0000_0000_0000 witness [0]

  /** The external collaborators: the encoder and the cipher package. */
  datatype Primitives = Primitives(
    sumSha256: seq<Byte> -> SHA256,
    sumDoubleSha256: seq<Byte> -> SHA256,
    encodeInputs: seq<SHA256> -> seq<Byte>,
    encodeOutputs: seq<Output> -> seq<Byte>,
    encodeTransaction: Transaction -> Encoding,
    uxBodyHash: (SHA256, Address, Uint64, Uint64) -> SHA256,
    signHash: (SHA256, SecKey) -> Sig,
    verifySignedHash: (Sig, SHA256) -> bool)

  /** Single SHA-256 over the encoded inputs followed by the encoded outputs. */
  function InnerHash(p: Primitives, ins: seq<SHA256>, outs: seq<Output>): SHA256 {
    p.sumSha256(p.encodeInputs(ins) + p.encodeOutputs(outs))
  }

  /** Transaction.hashInner: signatures and the stored header hash play no part. */
  function HashInner(p: Primitives, tx: Transaction): SHA256 {
    InnerHash(p, tx.inputs, tx.outputs)
  }

  /** The inner hash depends on the body alone: replacing the header, its
      stored hash or its signatures, leaves it unchanged, so a transaction can
      be signed after its header hash is set. */
  lemma HashInnerIgnoresHeader(p: Primitives, tx: Transaction, head: Header)
    ensures HashInner(p, tx.(head := head)) == HashInner(p, tx)
    ensures HashInner(p, tx) == InnerHash(p, tx.inputs, tx.outputs)
  {
  }

  /** Transaction.Hash: the identity hash, over the whole encoding including signatures. */
  function Hash(p: Primitives, tx: Transaction): SHA256 {
    p.sumDoubleSha256(p.encodeTransaction(tx))
  }

  /** Transaction.Size: the length of the encoding; always positive. */
  function Size(p: Primitives, tx: Transaction): (n: int)
    ensures 0 < n < 0x8000_0000_0000_0000
  {
    |p.encodeTransaction(tx)|
  }

  /** Transaction.SizeHash: both values from a single encoding. */
  function SizeHash(p: Primitives, tx: Transaction): (r: (int, SHA256))
    ensures r.0 == Size(p, tx) && r.1 == Hash(p, tx)
  {
    var b := p.encodeTransaction(tx);
    (|b|, p.sumDoubleSha256(b))
  }

  /** Transaction.PushInput: append the hash of an unspent output and return
      its position, the index of the signature that will cover it. The source
      aborts once 65535 inputs are present. */
  function PushInput(tx: Transaction, uxOut: SHA256): (r: Result<(Transaction, Uint16)>)
    ensures r.Ok? <==> |tx.inputs| < MAX_UINT16
    ensures r.Err? ==> r.error == MaxInputsReached
    ensures r.Ok? ==>
      var (t, index) := r.value;
      && |t.inputs| == |tx.inputs| + 1
      && t.inputs[..|tx.inputs|] == tx.inputs
      && index == |tx.inputs|
      && t.inputs[index] == uxOut
      && t.head == tx.head && t.outputs == tx.outputs
  {
    if |tx.inputs| >= MAX_UINT16 then Err(MaxInputsReached)
    else
      var t := tx.(inputs := tx.inputs + [uxOut]);
      Ok((t, |t.inputs| - 1))
  }

  /** Transaction.PushOutput: append an output without any validation. */
  function PushOutput(tx: Transaction, dst: Address, coins: Uint64, hours: Uint64): (t: Transaction)
    ensures |t.outputs| == |tx.outputs| + 1
    ensures t.outputs[..|tx.outputs|] == tx.outputs
    ensures t.outputs[|tx.outputs|] == Output(dst, coins, hours)
    ensures t.head == tx.head && t.inputs == tx.inputs
  {
    tx.(outputs := tx.outputs + [Output(dst, coins, hours)])
  }

  /** Transaction.UpdateHeader: store the inner hash of the current body. */
  function UpdateHeader(p: Primitives, tx: Transaction): (t: Transaction)
    ensures t.head.hash == HashInner(p, t)
    ensures t.inputs == tx.inputs && t.outputs == tx.outputs && t.head.sigs == tx.head.sigs
  {
    tx.(head := tx.head.(hash := HashInner(p, tx)))
  }

  /** The misuse checks of Transaction.SignInputs, in the order the source makes them. */
  function SigningMisuse(tx: Transaction, keys: seq<SecKey>): Option<Error> {
    if |tx.head.sigs| != 0 then Some(AlreadySigned)
    else if |keys| != |tx.inputs| then Some(InvalidNumberOfKeys)
    else if |keys| > MAX_UINT16 then Some(TooManyKeys)
    else if |keys| == 0 then Some(NoKeys)
    else None
  }

  /** Transaction.SignInputs: key i signs input i. Every signature covers the
      inner hash recomputed from the body, not the stored header hash. */
  function SignInputs(p: Primitives, tx: Transaction, keys: seq<SecKey>): (r: Result<Transaction>)
    ensures r.Ok? <==> |tx.head.sigs| == 0 && |keys| == |tx.inputs| && 0 < |keys| <= MAX_UINT16
    ensures r.Err? ==> Some(r.error) == SigningMisuse(tx, keys)
    ensures r.Ok? ==>
      && r.value.inputs == tx.inputs && r.value.outputs == tx.outputs
      && r.value.head.hash == tx.head.hash
      && |r.value.head.sigs| == |tx.inputs|
      && forall i :: 0 <= i < |keys| ==> r.value.head.sigs[i] == p.signHash(HashInner(p, tx), keys[i])
  {
    match SigningMisuse(tx, keys)
    case Some(e) => Err(e)
    case None =>
      var h := HashInner(p, tx);
      var sigs := seq(|keys|, i requires 0 <= i < |keys| => p.signHash(h, keys[i]));
      Ok(tx.(head := tx.head.(sigs := sigs)))
  }

  /** The exact, unbounded total of the output hours. */
  function SumHours(outs: seq<Output>): nat {
    if |outs| == 0 then 0 else SumHours(outs[..|outs| - 1]) + outs[|outs| - 1].hours
  }

  /** Euclidean division has a unique quotient and remainder. */
  lemma ModUnique(a: int, k: int, r: int, m: int)
    requires m > 0 && 0 <= r < m && a == k * m + r
    ensures a % m == r
  {
    var d := k - a / m;
    assert d * m == a % m - r;
  }

  lemma ModAddLeft(a: int, b: int, m: int)
    requires m > 0
    ensures (a % m + b) % m == (a + b) % m
  {
    var s := a % m + b;
    ModUnique(a + b, a / m + s / m, s % m, m);
  }

  /** Transaction.OutputHours as written: a uint64 accumulator, so the total
      silently wraps modulo 2^64. */
  function OutputHours(outs: seq<Output>): (r: Uint64)
    ensures r == SumHours(outs) % TWO_64
  {
    if |outs| == 0 then 0
    else
      var prefix := outs[..|outs| - 1];
      var acc := OutputHours(prefix);
      ModAddLeft(SumHours(prefix), outs[|outs| - 1].hours, TWO_64);
      (acc + outs[|outs| - 1].hours) % TWO_64
  }

  /** Two outputs of 2^63 hours each, sent to different addresses (so they
      are not duplicates), report zero hours in total. */
  lemma OutputHoursWrapsExample(a: Address, b: Address)
    requires a != b
    ensures var outs := [Output(a, 1000000, 0x8000_0000_0000_0000), Output(b, 1000000, 0x8000_0000_0000_0000)];
      outs[0] != outs[1] && SumHours(outs) == TWO_64 && OutputHours(outs) == 0
  {
    var o := Output(a, 1000000, 0x8000_0000_0000_0000);
    var outs := [o, Output(b, 1000000, 0x8000_0000_0000_0000)];
    assert outs[..1] == [o];
    assert [o][..0] == [];
    assert SumHours([o]) == 0x8000_0000_0000_0000;
    assert OutputHours([o]) == 0x8000_0000_0000_0000;
  }

  /** The overflow-checked total the output-hours sum is meant to be. */
  function CheckedOutputHours(outs: seq<Output>): (r: Result<Uint64>)
    ensures r.Ok? <==> SumHours(outs) < TWO_64
    ensures r.Ok? ==> r.value == SumHours(outs) && r.value == OutputHours(outs)
    ensures r.Err? ==> r.error == HoursOverflow
  {
    if |outs| == 0 then Ok(0)
    else
      match CheckedOutputHours(outs[..|outs| - 1])
      case Err(e) => Err(e)
      case Ok(acc) =>
        var total := acc + outs[|outs| - 1].hours;
        if total >= TWO_64 then Err(HoursOverflow) else Ok(total)
  }
}
