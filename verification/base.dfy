/** Shared vocabulary of the ledger core: fixed-width integers, byte strings,
    the opaque identifiers supplied by the cryptography package, the error
    values the core can report, and small facts about sequences.
 */
module Base {

  /** math.MaxUint16, the ceiling the transaction code compares input counts against. */
  const MAX_UINT16: int := 65535
  /** 2^64: uint64 arithmetic in the source wraps modulo this value. */
  const TWO_64: int := 0x1_0000_0000_0000_0000
  /** The coin quantum: outputs must move whole multiples of 1e6 base units. */
  const COIN_QUANTUM: int := 1000000

  type Byte = x: int | 0 <= x < 256
  type Uint16 = x: int | 0 <= x < 0x1_0000
  type Uint64 = x: int | 0 <= x < TWO_64

  /** A 32-byte digest (cipher.SHA256). */
  type SHA256 = h: seq<Byte> | |h| == 32 witness seq(32, i => 0)

  /** Identifiers owned by the cryptography package; only their equality matters here. */
  datatype Address = Address(bytes: seq<Byte>)
  datatype Sig = Sig(bytes: seq<Byte>)
  datatype SecKey = SecKey(bytes: seq<Byte>)

  /** Every failure the core reports. The first group is returned by
      Transaction.Verify, the second group are the misuse conditions on which
      the builders abort, the rest come from collaborators or the wallet. */
  datatype Error =
    | InvalidHeaderHash
    | NoInputs
    | NoOutputs
    | InvalidNumberOfSignatures
    | TooManySignatures
    | DuplicateSpend
    | DuplicateOutput
    | InvalidSignature
    | ZeroCoinOutput
    | CoinsNotMultipleOf1e6
    | MaxInputsReached
    | AlreadySigned
    | InvalidNumberOfKeys
    | TooManyKeys
    | NoKeys
    | HoursOverflow
    | FeeUnavailable(reason: string)
    | InvalidEntry(reason: string)
    | EntryExists(address: Address)

  datatype Option<+T> = None | Some(value: T)

  datatype Result<+T> = Ok(value: T) | Err(error: Error)

  /** The result of an operation that only reports success or an error (Go's `error`). */
  datatype Outcome = Pass | Fail(error: Error)

  /** The set of values occurring in `s`: what a Go map keyed by the elements holds. */
  function Elements<T>(s: seq<T>): set<T> {
    set x | x in s
  }

  /** No value occurs twice in `s`. */
  predicate Distinct<T(==)>(s: seq<T>) {
    forall i, j :: 0 <= i < j < |s| ==> s[i] != s[j]
  }

  lemma {:induction false} ElementsCardBound<T>(s: seq<T>)
    ensures |Elements(s)| <= |s|
  {
    if |s| > 0 {
      ElementsCardBound(s[1..]);
      assert Elements(s) == {s[0]} + Elements(s[1..]);
    }
  }

  /** Counting the distinct values of a sequence (the source's map-length test)
      detects exactly the sequences with a repeated value. */
  lemma {:induction false} DistinctIffFullCard<T>(s: seq<T>)
    ensures |Elements(s)| == |s| <==> Distinct(s)
  {
    if |s| > 0 {
      var t := s[1..];
      DistinctIffFullCard(t);
      assert Elements(s) == {s[0]} + Elements(t);
      if s[0] in t {
        ElementsCardBound(t);
        var k :| 0 <= k < |t| && t[k] == s[0];
        assert s[0] == s[k + 1];
        assert Elements(s) == Elements(t);
      } else {
        assert s[0] !in Elements(t);
        assert Distinct(s) <==> Distinct(t) by {
          if Distinct(t) {
            forall i, j | 0 <= i < j < |s| ensures s[i] != s[j] {
              if i > 0 {
                assert s[i] == t[i - 1] && s[j] == t[j - 1];
              } else {
                assert s[j] == t[j - 1];
              }
            }
          }
          if Distinct(s) {
            forall i, j | 0 <= i < j < |t| ensures t[i] != t[j] {
              assert t[i] == s[i + 1] && t[j] == s[j + 1];
            }
          }
        }
      }
    }
  }

  /** bytes.Compare(a, b) < 0: strict byte-wise lexicographic order, where a
      proper prefix sorts first. */
  predicate LexLess(a: seq<Byte>, b: seq<Byte>) {
    if |a| == 0 then |b| > 0
    else if |b| == 0 then false
    else if a[0] != b[0] then a[0] < b[0]
    else LexLess(a[1..], b[1..])
  }

  /** The textbook definition: `a` and `b` agree up to position k, and there
      either `a` has ended while `b` goes on, or `a` holds the smaller byte. */
  ghost predicate FirstDifferenceBelow(a: seq<Byte>, b: seq<Byte>) {
    exists k :: 0 <= k <= |a| && k <= |b| && a[..k] == b[..k] &&
      ((k == |a| && k < |b|) || (k < |a| && k < |b| && a[k] < b[k]))
  }

  lemma {:induction false} LexLessIffFirstDifference(a: seq<Byte>, b: seq<Byte>)
    ensures LexLess(a, b) <==> FirstDifferenceBelow(a, b)
  {
    if |a| == 0 || |b| == 0 {
      if |a| == 0 && |b| > 0 {
        assert a[..0] == b[..0];
      }
    } else if a[0] != b[0] {
      if a[0] < b[0] {
        assert a[..0] == b[..0];
      }
    } else {
      LexLessIffFirstDifference(a[1..], b[1..]);
      if LexLess(a, b) {
        var k :| 0 <= k <= |a| - 1 && k <= |b| - 1 && a[1..][..k] == b[1..][..k] &&
          ((k == |a| - 1 && k < |b| - 1) || (k < |a| - 1 && k < |b| - 1 && a[1..][k] < b[1..][k]));
        assert a[..k + 1] == [a[0]] + a[1..][..k];
        assert b[..k + 1] == [b[0]] + b[1..][..k];
      }
      if FirstDifferenceBelow(a, b) {
        var k :| 0 <= k <= |a| && k <= |b| && a[..k] == b[..k] &&
          ((k == |a| && k < |b|) || (k < |a| && k < |b| && a[k] < b[k]));
        assert k > 0;
        assert a[1..][..k - 1] == a[..k][1..] == b[..k][1..] == b[1..][..k - 1];
        assert FirstDifferenceBelow(a[1..], b[1..]);
      }
    }
  }

  lemma {:induction false} LexLessIrreflexive(a: seq<Byte>)
    ensures !LexLess(a, a)
  {
    if |a| > 0 {
      LexLessIrreflexive(a[1..]);
    }
  }

  lemma {:induction false} LexLessAsymmetric(a: seq<Byte>, b: seq<Byte>)
    ensures LexLess(a, b) ==> !LexLess(b, a)
  {
    if |a| > 0 && |b| > 0 && a[0] == b[0] {
      LexLessAsymmetric(a[1..], b[1..]);
    }
  }

  lemma {:induction false} LexLessTransitive(a: seq<Byte>, b: seq<Byte>, c: seq<Byte>)
    ensures LexLess(a, b) && LexLess(b, c) ==> LexLess(a, c)
  {
    if |a| > 0 && |b| > 0 && |c| > 0 && a[0] == b[0] && b[0] == c[0] {
      LexLessTransitive(a[1..], b[1..], c[1..]);
    }
  }

  /** Any two different byte strings are ordered one way or the other. */
  lemma {:induction false} LexLessTotal(a: seq<Byte>, b: seq<Byte>)
    ensures a != b ==> LexLess(a, b) || LexLess(b, a)
  {
    if |a| > 0 && |b| > 0 && a[0] == b[0] {
      LexLessTotal(a[1..], b[1..]);
      if a[1..] == b[1..] {
        assert a == [a[0]] + a[1..] && b == [b[0]] + b[1..];
      }
    }
  }
}
