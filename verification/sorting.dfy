/** SortableTransactions and SortTransactions: the deterministic order by fee
    density (descending) and identity hash (ascending).

    The source keeps three parallel slices and lets the sort package permute
    them through Swap. Here a row (`Entry`) is one position of the three
    slices; the sort is an insertion sort over rows, and `SortedOrderIsUnique`
    shows that every sorting algorithm yields the same order when identity
    hashes are distinct, so the choice of algorithm does not matter.
 */
module Sorting {
  import opened Base
  import opened Coin
  import opened Batch

  datatype SortableTransactions = SortableTransactions(txns: seq<Transaction>, fees: seq<Uint64>, hashes: seq<SHA256>)

  /** The three slices have the same length. */
  predicate Aligned(s: SortableTransactions) {
    |s.fees| == |s.txns| && |s.hashes| == |s.txns|
  }

  /** One position of the three slices. */
  datatype Entry = Entry(txn: Transaction, fee: Uint64, hash: SHA256)

  function Rows(s: SortableTransactions): (rs: seq<Entry>)
    requires Aligned(s)
    ensures |rs| == |s.txns|
    ensures forall i :: 0 <= i < |rs| ==> rs[i] == Entry(s.txns[i], s.fees[i], s.hashes[i])
  {
    seq(|s.txns|, i requires 0 <= i < |s.txns| => Entry(s.txns[i], s.fees[i], s.hashes[i]))
  }

  function TxnsOf(rs: seq<Entry>): (txns: seq<Transaction>)
    ensures |txns| == |rs| && forall i :: 0 <= i < |rs| ==> txns[i] == rs[i].txn
  {
    seq(|rs|, i requires 0 <= i < |rs| => rs[i].txn)
  }

  function FromRows(rs: seq<Entry>): (s: SortableTransactions)
    ensures Aligned(s) && Rows(s) == rs
  {
    SortableTransactions(
      TxnsOf(rs),
      seq(|rs|, i requires 0 <= i < |rs| => rs[i].fee),
      seq<SHA256>(|rs|, i requires 0 <= i < |rs| => rs[i].hash))
  }

  lemma RowsRoundTrip(s: SortableTransactions)
    requires Aligned(s)
    ensures FromRows(Rows(s)) == s && TxnsOf(Rows(s)) == s.txns
  {
  }

  /** The fee priority: (fee * 1024) / size in uint64 arithmetic, so the
      product wraps modulo 2^64 before the division. */
  function FeeDensity(fee: Uint64, size: int): Uint64
    requires 0 < size < 0x8000_0000_0000_0000
  {
    ((fee * 1024) % TWO_64) / size
  }

  /** A row describes its transaction: its fee computes, and the row holds
      that fee's density and the transaction's identity hash. */
  predicate Ranked(p: Primitives, feeCalc: FeeCalculator, e: Entry) {
    && feeCalc(e.txn).Ok?
    && e.fee == FeeDensity(feeCalc(e.txn).value, Size(p, e.txn))
    && e.hash == Hash(p, e.txn)
  }

  predicate AllRanked(p: Primitives, feeCalc: FeeCalculator, s: SortableTransactions) {
    Aligned(s) && forall i :: 0 <= i < |s.txns| ==> Ranked(p, feeCalc, Rows(s)[i])
  }

  /** The transactions whose fee computes, in their original order. */
  function Affordable(feeCalc: FeeCalculator, txns: seq<Transaction>): (r: seq<Transaction>)
    ensures |r| <= |txns|
    ensures forall i :: 0 <= i < |r| ==> feeCalc(r[i]).Ok?
  {
    if |txns| == 0 then []
    else
      var last := txns[|txns| - 1];
      var rest := Affordable(feeCalc, txns[..|txns| - 1]);
      if feeCalc(last).Ok? then rest + [last] else rest
  }

  /** Affordable keeps every transaction whose fee computes, as many times as
      it occurs, and nothing else. */
  lemma {:induction false} AffordableIsAFilter(feeCalc: FeeCalculator, txns: seq<Transaction>)
    ensures forall t :: multiset(Affordable(feeCalc, txns))[t] == if feeCalc(t).Ok? then multiset(txns)[t] else 0
  {
    if |txns| > 0 {
      var last := txns[|txns| - 1];
      AffordableIsAFilter(feeCalc, txns[..|txns| - 1]);
      assert txns == txns[..|txns| - 1] + [last];
    }
  }

  /** newSortableTransactions: drop the transactions whose fee fails, and
      record density and identity hash beside each remaining one. */
  method NewSortableTransactions(p: Primitives, txns: seq<Transaction>, feeCalc: FeeCalculator)
    returns (s: SortableTransactions)
    ensures AllRanked(p, feeCalc, s)
    ensures s.txns == Affordable(feeCalc, txns)
  {
    var newTxns: seq<Transaction> := [];
    var fees: seq<Uint64> := [];
    var hashes: seq<SHA256> := [];
    for i := 0 to |txns|
      invariant |fees| == |newTxns| && |hashes| == |newTxns|
      invariant newTxns == Affordable(feeCalc, txns[..i])
      invariant forall k :: 0 <= k < |newTxns| ==> Ranked(p, feeCalc, Entry(newTxns[k], fees[k], hashes[k]))
    {
      ghost var seen := txns[..i + 1];
      assert seen[..i] == txns[..i] && seen[i] == txns[i];
      match feeCalc(txns[i])
      case Ok(fee) =>
        var (size, h) := SizeHash(p, txns[i]);
        assert Affordable(feeCalc, seen) == newTxns + [txns[i]];
        newTxns := newTxns + [txns[i]];
        fees := fees + [FeeDensity(fee, size)];
        hashes := hashes + [h];
      case Err(_) =>
        assert Affordable(feeCalc, seen) == newTxns;
    }
    assert txns[..|txns|] == txns;
    s := SortableTransactions(newTxns, fees, hashes);
  }

  /** Fee density descending; equal densities by identity hash ascending. */
  predicate KeyLess(fee1: Uint64, hash1: SHA256, fee2: Uint64, hash2: SHA256) {
    if fee1 == fee2 then LexLess(hash1, hash2) else fee1 > fee2
  }

  predicate EntryLess(a: Entry, b: Entry) {
    KeyLess(a.fee, a.hash, b.fee, b.hash)
  }

  /** SortableTransactions.Len */
  function Len(s: SortableTransactions): (n: int)
    requires Aligned(s)
    ensures n == |Rows(s)|
  {
    |s.txns|
  }

  /** SortableTransactions.Less */
  predicate Less(s: SortableTransactions, i: int, j: int)
    requires Aligned(s) && 0 <= i < |s.txns| && 0 <= j < |s.txns|
  {
    KeyLess(s.fees[i], s.hashes[i], s.fees[j], s.hashes[j])
  }

  /** The comparison is a strict order, total on rows with different keys:
      it never holds both ways, and two rows it does not separate carry the
      same density and the same hash. */
  lemma {:induction false} EntryOrder(a: Entry, b: Entry, c: Entry)
    ensures !EntryLess(a, a)
    ensures EntryLess(a, b) ==> !EntryLess(b, a)
    ensures EntryLess(a, b) && EntryLess(b, c) ==> EntryLess(a, c)
    ensures !EntryLess(a, b) && !EntryLess(b, a) ==> a.fee == b.fee && a.hash == b.hash
  {
    LexLessIrreflexive(a.hash);
    LexLessAsymmetric(a.hash, b.hash);
    LexLessTransitive(a.hash, b.hash, c.hash);
    LexLessTotal(a.hash, b.hash);
  }

  /** Less, read on positions of a SortableTransactions, is such an order. */
  lemma LessIsStrictOrder(s: SortableTransactions, i: int, j: int, k: int)
    requires Aligned(s) && 0 <= i < |s.txns| && 0 <= j < |s.txns| && 0 <= k < |s.txns|
    ensures !Less(s, i, i)
    ensures Less(s, i, j) ==> !Less(s, j, i)
    ensures Less(s, i, j) && Less(s, j, k) ==> Less(s, i, k)
    ensures !Less(s, i, j) && !Less(s, j, i) ==> s.fees[i] == s.fees[j] && s.hashes[i] == s.hashes[j]
  {
    var rs := Rows(s);
    EntryOrder(rs[i], rs[j], rs[k]);
  }

  /** "Not after" is transitive too. */
  lemma NotLessTransitive(a: Entry, b: Entry, c: Entry)
    ensures !EntryLess(b, a) && !EntryLess(c, b) ==> !EntryLess(c, a)
  {
    EntryOrder(c, a, b);
    EntryOrder(a, b, c);
  }

  /** SortableTransactions.Swap: the three slices move together. */
  function Swap(s: SortableTransactions, i: int, j: int): (r: SortableTransactions)
    requires Aligned(s) && 0 <= i < |s.txns| && 0 <= j < |s.txns|
    ensures Aligned(r)
    ensures Rows(r) == Rows(s)[i := Rows(s)[j]][j := Rows(s)[i]]
    ensures multiset(Rows(r)) == multiset(Rows(s))
    ensures multiset(r.txns) == multiset(s.txns)
  {
    var r := SortableTransactions(
      s.txns[i := s.txns[j]][j := s.txns[i]],
      s.fees[i := s.fees[j]][j := s.fees[i]],
      s.hashes[i := s.hashes[j]][j := s.hashes[i]]);
    assert Rows(r) == Rows(s)[i := Rows(s)[j]][j := Rows(s)[i]];
    r
  }

  /** Swapping keeps every row describing its own transaction. */
  lemma SwapKeepsRanked(p: Primitives, feeCalc: FeeCalculator, s: SortableTransactions, i: int, j: int)
    requires AllRanked(p, feeCalc, s) && 0 <= i < |s.txns| && 0 <= j < |s.txns|
    ensures AllRanked(p, feeCalc, Swap(s, i, j))
  {
    var r := Swap(s, i, j);
    forall k | 0 <= k < |r.txns|
      ensures Ranked(p, feeCalc, Rows(r)[k])
    {
      if k == j {
        assert Rows(r)[k] == Rows(s)[i];
      } else if k == i {
        assert Rows(r)[k] == Rows(s)[j];
      } else {
        assert Rows(r)[k] == Rows(s)[k];
      }
    }
  }

  /** Adjacent rows are in order. */
  predicate RowsSorted(rs: seq<Entry>) {
    forall i :: 0 < i < |rs| ==> !EntryLess(rs[i], rs[i - 1])
  }

  /** SortableTransactions.IsSorted: no position is Less than the one before it. */
  predicate IsSorted(s: SortableTransactions)
    requires Aligned(s)
  {
    forall i, j :: 0 < i < |s.txns| && j == i - 1 ==> !Less(s, i, j)
  }

  lemma IsSortedIffRowsSorted(s: SortableTransactions)
    requires Aligned(s)
    ensures IsSorted(s) <==> RowsSorted(Rows(s))
  {
    var rs := Rows(s);
    if RowsSorted(rs) {
      forall i, j | 0 < i < |s.txns| && j == i - 1
        ensures !Less(s, i, j)
      {
        assert !EntryLess(rs[i], rs[i - 1]);
      }
    }
    if IsSorted(s) {
      forall i | 0 < i < |rs|
        ensures !EntryLess(rs[i], rs[i - 1])
      {
        assert !Less(s, i, i - 1);
      }
    }
  }

  /** In a sorted sequence of rows no row comes after a later one. */
  lemma {:induction false} SortedPairwise(rs: seq<Entry>, i: int, j: int)
    requires RowsSorted(rs) && 0 <= i < j < |rs|
    ensures !EntryLess(rs[j], rs[i])
    decreases j - i
  {
    if j > i + 1 {
      SortedPairwise(rs, i, j - 1);
      NotLessTransitive(rs[i], rs[j - 1], rs[j]);
    }
  }

  lemma TxnsOfCons(e: Entry, rs: seq<Entry>)
    ensures TxnsOf([e] + rs) == [e.txn] + TxnsOf(rs)
  {
  }

  /** Put `e` into sorted `rs` after every row that precedes it. */
  function Insert(e: Entry, rs: seq<Entry>): (r: seq<Entry>)
    requires RowsSorted(rs)
    ensures RowsSorted(r)
    ensures multiset(r) == multiset(rs) + multiset{e}
    ensures r[0] == e || (|rs| > 0 && r[0] == rs[0])
  {
    if |rs| == 0 then [e]
    else if EntryLess(rs[0], e) then
      SortedTail(rs);
      var rest := Insert(e, rs[1..]);
      EntryOrder(rs[0], e, e);
      ConsSorted(rs[0], rest);
      assert rs == [rs[0]] + rs[1..];
      [rs[0]] + rest
    else
      ConsSorted(e, rs);
      [e] + rs
  }

  /** A row that comes after none of the first row of a sorted sequence can lead it. */
  lemma ConsSorted(x: Entry, rs: seq<Entry>)
    requires RowsSorted(rs) && (|rs| > 0 ==> !EntryLess(rs[0], x))
    ensures RowsSorted([x] + rs)
  {
    var r := [x] + rs;
    forall i | 0 < i < |r|
      ensures !EntryLess(r[i], r[i - 1])
    {
      if i > 1 {
        assert r[i] == rs[i - 1] && r[i - 1] == rs[i - 2];
      }
    }
  }

  lemma {:induction false} TxnsOfInsert(e: Entry, rs: seq<Entry>)
    requires RowsSorted(rs)
    ensures multiset(TxnsOf(Insert(e, rs))) == multiset(TxnsOf(rs)) + multiset{e.txn}
  {
    if |rs| == 0 {
    } else if EntryLess(rs[0], e) {
      TxnsOfInsert(e, rs[1..]);
      assert rs == [rs[0]] + rs[1..];
      TxnsOfCons(rs[0], Insert(e, rs[1..]));
      TxnsOfCons(rs[0], rs[1..]);
    } else {
      TxnsOfCons(e, rs);
    }
  }

  function InsertionSort(rs: seq<Entry>): (r: seq<Entry>)
    ensures RowsSorted(r)
    ensures multiset(r) == multiset(rs)
    ensures multiset(TxnsOf(r)) == multiset(TxnsOf(rs))
  {
    if |rs| == 0 then []
    else
      var sortedTail := InsertionSort(rs[1..]);
      assert rs == [rs[0]] + rs[1..];
      TxnsOfCons(rs[0], rs[1..]);
      TxnsOfInsert(rs[0], sortedTail);
      Insert(rs[0], sortedTail)
  }

  /** SortableTransactions.Sort: the same rows, reordered so that IsSorted holds. */
  function Sort(s: SortableTransactions): (r: SortableTransactions)
    requires Aligned(s)
    ensures Aligned(r) && IsSorted(r)
    ensures multiset(Rows(r)) == multiset(Rows(s))
    ensures multiset(r.txns) == multiset(s.txns)
  {
    RowsRoundTrip(s);
    FromRows(InsertionSort(Rows(s)))
  }

  /** Sorting keeps every row describing its own transaction. */
  lemma SortKeepsRanked(p: Primitives, feeCalc: FeeCalculator, s: SortableTransactions)
    requires AllRanked(p, feeCalc, s)
    ensures AllRanked(p, feeCalc, Sort(s))
  {
    var r := Sort(s);
    forall k | 0 <= k < |r.txns|
      ensures Ranked(p, feeCalc, Rows(r)[k])
    {
      assert Rows(r)[k] in multiset(Rows(s));
    }
  }

  /** Sorting rows that are already sorted changes nothing. */
  lemma {:induction false} InsertionSortOfSorted(rs: seq<Entry>)
    requires RowsSorted(rs)
    ensures InsertionSort(rs) == rs
  {
    if |rs| > 0 {
      InsertionSortOfSorted(rs[1..]);
      assert rs == [rs[0]] + rs[1..];
    }
  }

  /** Sorting is idempotent; a sorted SortableTransactions is left as it is. */
  lemma SortIdempotent(s: SortableTransactions)
    requires Aligned(s)
    ensures IsSorted(s) ==> Sort(s) == s
    ensures Sort(Sort(s)) == Sort(s)
  {
    RowsRoundTrip(s);
    IsSortedIffRowsSorted(s);
    if IsSorted(s) {
      InsertionSortOfSorted(Rows(s));
    }
    RowsRoundTrip(Sort(s));
    InsertionSortOfSorted(Rows(Sort(s)));
  }

  /** Rows with the same identity hash are the same row. */
  ghost predicate HashesIdentify(m: multiset<Entry>) {
    forall x, y :: x in m && y in m && x.hash == y.hash ==> x == y
  }

  /** The first row of a sorted sequence comes after none of its rows. */
  lemma SortedHeadIsLeast(rs: seq<Entry>, x: Entry)
    requires RowsSorted(rs) && x in rs
    ensures !EntryLess(x, rs[0])
  {
    var k :| 0 <= k < |rs| && rs[k] == x;
    if k > 0 {
      SortedPairwise(rs, 0, k);
    } else {
      EntryOrder(x, x, x);
    }
  }

  lemma SameHeadSameTail<T>(a: seq<T>, b: seq<T>)
    requires multiset(a) == multiset(b) && |a| > 0 && |b| > 0 && a[0] == b[0]
    ensures multiset(a[1..]) <= multiset(a) && multiset(a[1..]) == multiset(b[1..])
  {
    assert a == [a[0]] + a[1..] && b == [b[0]] + b[1..];
  }

  lemma SortedTail(rs: seq<Entry>)
    requires RowsSorted(rs) && |rs| > 0
    ensures RowsSorted(rs[1..])
  {
  }

  lemma HashesIdentifyShrinks(small: multiset<Entry>, big: multiset<Entry>)
    requires small <= big && HashesIdentify(big)
    ensures HashesIdentify(small)
  {
  }

  /** Both sorted arrangements start with the same row. */
  lemma SortedHeadsAgree(a: seq<Entry>, b: seq<Entry>)
    requires multiset(a) == multiset(b) && HashesIdentify(multiset(a))
    requires RowsSorted(a) && RowsSorted(b) && |a| > 0 && |b| > 0
    ensures a[0] == b[0]
  {
    assert a[0] in multiset(b) && b[0] in multiset(a);
    SortedHeadIsLeast(b, a[0]);
    SortedHeadIsLeast(a, b[0]);
    EntryOrder(a[0], b[0], b[0]);
    assert a[0] in multiset(a);
  }

  /** Two sorted arrangements of the same rows are equal when no two rows
      share an identity hash: the comparator, not the algorithm, fixes the order. */
  lemma {:induction false} SortedOrderIsUnique(a: seq<Entry>, b: seq<Entry>)
    requires multiset(a) == multiset(b) && HashesIdentify(multiset(a))
    requires RowsSorted(a) && RowsSorted(b)
    ensures a == b
  {
    assert |a| == |multiset(a)| == |multiset(b)| == |b|;
    if |a| > 0 {
      SortedHeadsAgree(a, b);
      var ta, tb := a[1..], b[1..];
      SameHeadSameTail(a, b);
      HashesIdentifyShrinks(multiset(ta), multiset(a));
      SortedTail(a);
      SortedTail(b);
      SortedOrderIsUnique(ta, tb);
      assert a == [a[0]] + ta && b == [b[0]] + tb;
    }
  }

  /** Any sorted rearrangement of the rows is exactly what Sort returns. */
  lemma AnySortAgrees(s: SortableTransactions, rs: seq<Entry>)
    requires Aligned(s) && HashesIdentify(multiset(Rows(s)))
    requires multiset(rs) == multiset(Rows(s)) && RowsSorted(rs)
    ensures rs == Rows(Sort(s))
  {
    IsSortedIffRowsSorted(Sort(s));
    SortedOrderIsUnique(rs, Rows(Sort(s)));
  }

  /** The order SortTransactions promises between two transactions whose fee computes. */
  predicate TxLess(p: Primitives, feeCalc: FeeCalculator, a: Transaction, b: Transaction)
    requires feeCalc(a).Ok? && feeCalc(b).Ok?
  {
    KeyLess(FeeDensity(feeCalc(a).value, Size(p, a)), Hash(p, a),
            FeeDensity(feeCalc(b).value, Size(p, b)), Hash(p, b))
  }

  /** SortTransactions: exactly the transactions whose fee computes, by fee
      density descending and identity hash ascending. */
  method SortTransactions(p: Primitives, txns: seq<Transaction>, feeCalc: FeeCalculator)
    returns (r: seq<Transaction>)
    ensures multiset(r) == multiset(Affordable(feeCalc, txns))
    ensures forall t :: t in r <==> t in txns && feeCalc(t).Ok?
    ensures forall i :: 0 <= i < |r| ==> feeCalc(r[i]).Ok?
    ensures forall i :: 0 < i < |r| ==> !TxLess(p, feeCalc, r[i], r[i - 1])
  {
    var sortable := NewSortableTransactions(p, txns, feeCalc);
    var sorted := Sort(sortable);
    SortKeepsRanked(p, feeCalc, sortable);
    AffordableIsAFilter(feeCalc, txns);
    r := sorted.txns;
    forall t
      ensures t in r <==> t in txns && feeCalc(t).Ok?
    {
      assert t in r <==> multiset(r)[t] > 0;
      assert t in txns <==> multiset(txns)[t] > 0;
    }
    forall i | 0 < i < |r|
      ensures !TxLess(p, feeCalc, r[i], r[i - 1])
    {
      assert Ranked(p, feeCalc, Rows(sorted)[i]) && Ranked(p, feeCalc, Rows(sorted)[i - 1]);
      assert !Less(sorted, i, i - 1);
    }
  }

  /** Densities 10, 30, 30 at equal size: the two density-30 rows come first,
      the one with the lower hash leading, and the density-10 row comes last. */
  lemma DensityThenHashExample(x: Entry, y: Entry, z: Entry)
    requires x.fee == 10 && y.fee == 30 && z.fee == 30 && LexLess(z.hash, y.hash)
    requires x.hash != y.hash && x.hash != z.hash
    ensures Rows(Sort(FromRows([x, y, z]))) == [z, y, x]
  {
    var s := FromRows([x, y, z]);
    LexLessAsymmetric(z.hash, y.hash);
    assert RowsSorted([z, y, x]);
    assert multiset([z, y, x]) == multiset([x, y, z]);
    assert HashesIdentify(multiset([x, y, z]));
    AnySortAgrees(s, [z, y, x]);
  }
}
