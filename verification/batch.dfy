/** The Transactions helpers: total fees, identity hashes, total size and
    packing into a byte budget.
 */
module Batch {
  import opened Base
  import opened Coin

  /** FeeCalculator: the fee of a transaction, or an error when the ledger
      cannot resolve it. It is supplied by the caller. */
  type FeeCalculator = Transaction -> Result<Uint64>

  /** Every fee of `txns` can be computed. */
  predicate AllFeesKnown(feeCalc: FeeCalculator, txns: seq<Transaction>) {
    forall i :: 0 <= i < |txns| ==> feeCalc(txns[i]).Ok?
  }

  /** The exact, unbounded sum of the fees. */
  function FeeSum(feeCalc: FeeCalculator, txns: seq<Transaction>): nat
    requires AllFeesKnown(feeCalc, txns)
  {
    if |txns| == 0 then 0
    else FeeSum(feeCalc, txns[..|txns| - 1]) + feeCalc(txns[|txns| - 1]).value
  }

  /** Transactions.Fees: stops at the first transaction whose fee fails and
      reports that error, with no partial total; otherwise the uint64 sum,
      which wraps modulo 2^64. */
  method Fees(txns: seq<Transaction>, feeCalc: FeeCalculator) returns (r: Result<Uint64>)
    ensures r.Ok? <==> AllFeesKnown(feeCalc, txns)
    ensures r.Ok? ==> r.value == FeeSum(feeCalc, txns) % TWO_64
    ensures r.Err? ==> exists i :: 0 <= i < |txns| && feeCalc(txns[i]) == Err(r.error) && AllFeesKnown(feeCalc, txns[..i])
  {
    var total: Uint64 := 0;
    for i := 0 to |txns|
      invariant AllFeesKnown(feeCalc, txns[..i])
      invariant total == FeeSum(feeCalc, txns[..i]) % TWO_64
    {
      match feeCalc(txns[i])
      case Err(e) =>
        return Err(e);
      case Ok(fee) =>
        assert txns[..i + 1][..i] == txns[..i];
        ModAddLeft(FeeSum(feeCalc, txns[..i]), fee, TWO_64);
        total := (total + fee) % TWO_64;
    }
    assert txns[..|txns|] == txns;
    return Ok(total);
  }

  /** Transactions.Hashes: the identity hash of each transaction, in order. */
  method Hashes(p: Primitives, txns: seq<Transaction>) returns (hashes: seq<SHA256>)
    ensures |hashes| == |txns|
    ensures forall i :: 0 <= i < |txns| ==> hashes[i] == Hash(p, txns[i])
  {
    hashes := [];
    for i := 0 to |txns|
      invariant |hashes| == i
      invariant forall k :: 0 <= k < i ==> hashes[k] == Hash(p, txns[k])
    {
      hashes := hashes + [Hash(p, txns[i])];
    }
  }

  /** The sum of the individual encoded sizes. */
  function SumSizes(p: Primitives, txns: seq<Transaction>): nat {
    if |txns| == 0 then 0 else SumSizes(p, txns[..|txns| - 1]) + Size(p, txns[|txns| - 1])
  }

  /** Transactions.Size: the sum of each transaction's own encoded size. It is
      not the size of the encoded list, which carries a length prefix. */
  method TotalSize(p: Primitives, txns: seq<Transaction>) returns (size: int)
    ensures size == SumSizes(p, txns)
    ensures |txns| > 0 ==> size >= |txns|
  {
    size := 0;
    for i := 0 to |txns|
      invariant size == SumSizes(p, txns[..i])
      invariant size >= i
    {
      assert txns[..i + 1][..i] == txns[..i];
      size := size + Size(p, txns[i]);
    }
    assert txns[..|txns|] == txns;
  }

  lemma {:induction false} SumSizesPrefixGrows(p: Primitives, txns: seq<Transaction>, i: int, j: int)
    requires 0 <= i <= j <= |txns|
    ensures SumSizes(p, txns[..i]) + (j - i) <= SumSizes(p, txns[..j])
  {
    if i < j {
      SumSizesPrefixGrows(p, txns, i, j - 1);
      assert txns[..j][..j - 1] == txns[..j - 1];
    }
  }

  /** The loop of TruncateBytesTo from position i on, with `total` the size
      of the first i transactions. */
  function TruncateFrom(p: Primitives, txns: seq<Transaction>, size: int, i: nat, total: int): (r: seq<Transaction>)
    requires i <= |txns| && total == SumSizes(p, txns[..i])
    requires i == 0 || total <= size
    decreases |txns| - i
    ensures i <= |r| <= |txns| && r == txns[..|r|]
    ensures |r| > 0 || size >= 0 ==> SumSizes(p, r) <= size
    ensures |r| < |txns| ==> SumSizes(p, txns[..|r| + 1]) > size
  {
    if i == |txns| then
      assert txns[..|txns|] == txns;
      txns
    else
      var pending := Size(p, txns[i]);
      assert txns[..i + 1][..i] == txns[..i];
      if total + pending > size then txns[..i]
      else TruncateFrom(p, txns, size, i + 1, total + pending)
  }

  /** Transactions.TruncateBytesTo: the longest prefix whose sizes add up to
      at most `size`. Packing stops at the first transaction that does not
      fit, even when a later, smaller one would. A negative budget yields the
      empty prefix. */
  function TruncateBytesTo(p: Primitives, txns: seq<Transaction>, size: int): (r: seq<Transaction>)
    ensures |r| <= |txns| && r == txns[..|r|]
    ensures size >= 0 ==> SumSizes(p, r) <= size
    ensures size < 0 ==> r == []
    ensures forall k :: |r| < k <= |txns| ==> SumSizes(p, txns[..k]) > size
  {
    assert txns[..0] == [];
    var r := TruncateFrom(p, txns, size, 0, 0);
    FirstOverflowBoundsLongerPrefixes(p, txns, size, |r|);
    r
  }

  /** Sizes are positive, so once a prefix overflows every longer one does. */
  lemma FirstOverflowBoundsLongerPrefixes(p: Primitives, txns: seq<Transaction>, size: int, n: int)
    requires 0 <= n <= |txns|
    requires n < |txns| ==> SumSizes(p, txns[..n + 1]) > size
    ensures forall k :: n < k <= |txns| ==> SumSizes(p, txns[..k]) > size
  {
    forall k | n < k <= |txns|
      ensures SumSizes(p, txns[..k]) > size
    {
      SumSizesPrefixGrows(p, txns, n + 1, k);
    }
  }

  /** Sizes 100, 150 and 80 with a budget of 200: only the first transaction
      is kept, although the third alone would still fit. */
  lemma PackingStopsAtFirstOverflow(p: Primitives, a: Transaction, b: Transaction, c: Transaction)
    requires Size(p, a) == 100 && Size(p, b) == 150 && Size(p, c) == 80
    ensures TruncateBytesTo(p, [a, b, c], 200) == [a]
  {
    var txns := [a, b, c];
    var r := TruncateBytesTo(p, txns, 200);
    assert txns[..1] == [a];
    assert txns[..1][..0] == [];
    assert txns[..2][..1] == [a];
    assert SumSizes(p, txns[..1]) == 100;
    assert SumSizes(p, txns[..2]) == 250;
    assert txns[..3][..2] == txns[..2];
    assert SumSizes(p, txns[..3]) == 330;
    assert |r| == 1;
  }
}
