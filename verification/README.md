# Skycoin transaction integrity core, in Dafny

This project models the transaction core of the Skycoin node (`src/coin/transactions.go`)
and the simple wallet's entry map (`src/wallet/simple.go`), and proves properties of the model.

- `base.dfy` (`Base`): fixed-width integers, 32-byte digests, the error values, `Result`/`Outcome`,
  and two sequence facts. The first is that counting the distinct values of a sequence finds exactly
  the repeated values; this is how the source detects duplicates. The second is that `bytes.Compare`
  ordering is a strict total order.
- `transaction.dfy` (`Coin`): `Transaction`, `TransactionHeader`, `TransactionOutput`. It has the inner
  hash, the identity hash, `Size`/`SizeHash`, and the builders `PushInput`, `PushOutput`, `UpdateHeader`,
  `SignInputs` and `OutputHours`. The encoder and the cipher package are not modelled. They are
  fields of a `Primitives` record of total functions, for example SHA-256, double SHA-256, the
  encodings, the unspent-output body hash, signing and signature verification. Every result holds
  whatever those functions are. A 32-byte hash cannot be injective on all inputs, so no lemma assumes
  that. Where a lemma needs hashes not to collide, its `requires` assumes this only for the values
  it is about.
- `verify.dfy` (`Verifier`): `Transaction.Verify`. Its checks run in a fixed order and the first one
  that fails decides the error. `Verify` passes exactly when the conjunction `WellFormed` holds. The
  module also proves:
  - how duplicate spends and duplicate outputs are detected;
  - the 1e6 coin quantum;
  - tamper detection, assuming the forged body does not collide with the original under the inner hash;
  - the build → `UpdateHeader` → `SignInputs` life cycle;
  - the ceiling mismatch described below.
- `batch.dfy` (`Batch`): `Transactions.Fees`, `Hashes`, `Size` and `TruncateBytesTo`, with the fee
  calculator passed in as a function.
- `sorting.dfy` (`Sorting`): `SortableTransactions`, `newSortableTransactions`, `Less`, `Swap`,
  `IsSorted`, `Sort` and `SortTransactions`. The ordering is fee density descending. Density is
  `(fee*1024)/size` in uint64, so the product wraps. Ties are broken by identity hash ascending.
- `wallet.dfy` (`SimpleWallet`): the entry map with `AddEntry`, `GetEntry`, `NumEntries`,
  `GetAddressSet`, `GetAddresses`, `SetName` and `SetFilename`.

uint64 arithmetic wraps modulo 2^64 as in the source. This covers `OutputHours`, the `Fees` total
and `fee * 1024`.

Three behaviours of the code that a reader may not expect; the model keeps them:

- `SignInputs` signs a freshly recomputed inner hash, not the stored header hash.
- `OutputHours` wraps instead of checking for overflow. See Findings.
- The input ceilings disagree by one:
  - `PushInput` accepts inputs until there are 65535.
  - `SignInputs` accepts up to 65535 keys.
  - `Verify` rejects 65535 signatures.

  So the largest transaction the builders produce never verifies (`Verifier.InputCeilingMismatch`).

The source aborts with `log.Panic` when the builders are misused. The model returns those cases as
`Err` values: `MaxInputsReached`, `AlreadySigned`, `InvalidNumberOfKeys`, `TooManyKeys` and `NoKeys`.

## Model

| member | source | states |
|---|---|---|
| Base.DistinctIffFullCard | src/coin/transactions.go:58-65 | the map-length test (distinct values counted against the length) fails exactly when two positions hold the same value |
| Base.LexLessIffFirstDifference | src/coin/transactions.go:305-308 | the `bytes.Compare(a, b) < 0` model holds exactly when `a` is a proper prefix of `b` or has the smaller byte at the first difference |
| Base.LexLessTotal | src/coin/transactions.go:305-308 | two different hashes are always ordered one way or the other, so the hash tie-break decides every tie |
| Coin.Size | src/coin/transactions.go:146-149 | the encoded size of a transaction is positive and fits in a Go int, so the density division is defined |
| Coin.HashInnerIgnoresHeader | src/coin/transactions.go:168-174 | the inner hash is a single SHA-256 of the encoded inputs followed by the encoded outputs, so replacing the header (stored hash or signatures) leaves it unchanged |
| Coin.SizeHash | src/coin/transactions.go:157-161 | size and identity hash taken from one encoding agree with `Size` and `Hash` |
| Coin.PushInput | src/coin/transactions.go:104-112 | refuses once 65535 inputs are present; otherwise appends exactly the given input, returns the old length as its index, and leaves header and outputs unchanged |
| Coin.PushOutput | src/coin/transactions.go:114-122 | appends exactly one output with the given address, coins and hours, without validation, and changes nothing else |
| Coin.UpdateHeader | src/coin/transactions.go:163-166 | afterwards the header hash is the inner hash of the transaction's own body; body and signatures unchanged |
| Coin.SignInputs | src/coin/transactions.go:124-144 | succeeds exactly when unsigned, one key per input and 1..65535 keys, else reports the first misuse in source order; on success signature i is key i's signature of the inner hash and nothing else changes |
| Coin.OutputHours | src/coin/transactions.go:180-187 | the reported hours are the true sum of output hours modulo 2^64 |
| Coin.OutputHoursWrapsExample | src/coin/transactions.go:180-187 | two different outputs (distinct addresses) of 2^63 hours each report a total of 0 hours |
| Coin.CheckedOutputHours | src/coin/transactions.go:180-187 | fails with an overflow error exactly when the true sum reaches 2^64, and otherwise returns the true sum, which then equals `OutputHours` |
| Verifier.CheckCoins | src/coin/transactions.go:89-99 | passes exactly when every output has nonzero coins that are a multiple of 1e6; otherwise reports the error of the first bad output (zero before non-multiple) |
| Verifier.Verify | src/coin/transactions.go:37-102 | passes exactly when the transaction is well formed; each failure is reported exactly when every earlier check passed and its own check fails, in the order header hash, no inputs, no outputs, signature count, too many signatures, duplicate spend, duplicate output, signatures, coins (a coin error exactly when only the coin rule fails, naming the first bad output); no other error is ever reported |
| Verifier.RepeatedOutputIsDuplicate | src/coin/transactions.go:67-80 | two equal outputs always make Verify fail with "Duplicate output" once the earlier checks pass, whatever the hash function |
| Verifier.DuplicateOutputIffRepeatedOutput | src/coin/transactions.go:67-80 | when the unspent-output hash does not collide on this transaction's outputs, "Duplicate output" is reported exactly when two outputs agree in address, coins and hours |
| Verifier.DuplicateSpendIffRepeatedInput | src/coin/transactions.go:58-65 | once header and counts pass, "Duplicate spend" is reported exactly when two inputs are equal |
| Verifier.CoinQuantisation | src/coin/transactions.go:89-101 | with every other check passing, 2e6 coins on every output is accepted whatever the hours, and a first output of 1.5e6 or 0 coins is rejected with the matching error |
| Verifier.TamperingBreaksHeader | src/coin/transactions.go:38-41 | changing inputs or outputs under a correct header makes Verify fail on the header hash, before signatures are looked at, unless the forged body collides with the original under the inner hash |
| Verifier.UpdateThenSignPassesHeaderAndShape | src/coin/transactions.go:124-174 | UpdateHeader then SignInputs with one key per input (fewer than 65535) succeeds and passes the header and count checks |
| Verifier.SignedTransactionVerifies | src/coin/transactions.go:37-144 | with sound signatures and an output hash that does not collide on its outputs, a transaction built, headed and signed that way verifies exactly when its inputs are distinct, its outputs are distinct and its coins are quantised |
| Verifier.InputCeilingMismatch | src/coin/transactions.go:54-136 | a 65535th input can be pushed (a 65536th cannot) and 65535 keys sign it, yet Verify rejects the result with "Too many signatures" |
| Batch.Fees | src/coin/transactions.go:199-210 | an error exactly when some fee fails, and then the error of the first failing transaction with no partial total; otherwise the true fee sum modulo 2^64 |
| Batch.Hashes | src/coin/transactions.go:212-218 | one identity hash per transaction, in the same order |
| Batch.TotalSize | src/coin/transactions.go:220-228 | the sum of the individual encoded sizes |
| Batch.TruncateBytesTo | src/coin/transactions.go:230-242 | a prefix of the input whose sizes total at most the budget (empty for a negative budget), and every longer prefix exceeds the budget |
| Batch.PackingStopsAtFirstOverflow | src/coin/transactions.go:230-242 | sizes 100, 150, 80 with budget 200 keep only the first transaction, although the third would fit |
| Sorting.Affordable | src/coin/transactions.go:264-289 | keeps only transactions whose fee computes |
| Sorting.AffordableIsAFilter | src/coin/transactions.go:264-289 | keeps every transaction whose fee computes, as often as it occurs, and drops the others |
| Sorting.NewSortableTransactions | src/coin/transactions.go:264-289 | the kept transactions are exactly the fee-computable ones in input order, and each row holds that transaction's wrapped density `(fee*1024)/size` and identity hash |
| Sorting.Len | src/coin/transactions.go:300-302 | the length is the number of rows, so transactions, densities and hashes have one entry each |
| Sorting.LessIsStrictOrder | src/coin/transactions.go:304-312 | Less is irreflexive, asymmetric and transitive, and leaves two positions unordered only when density and hash are both equal |
| Sorting.Swap | src/coin/transactions.go:314-318 | exchanges whole rows, so transactions, densities and hashes stay aligned; the rows are a permutation of the input |
| Sorting.SwapKeepsRanked | src/coin/transactions.go:314-318 | after a swap every row still describes its own transaction |
| Sorting.IsSortedIffRowsSorted | src/coin/transactions.go:296-298 | IsSorted holds exactly when no row comes before its predecessor |
| Sorting.Sort | src/coin/transactions.go:291-294 | the result is a permutation of the rows (so of the transactions) and IsSorted holds |
| Sorting.SortKeepsRanked | src/coin/transactions.go:291-294 | after sorting every row still describes its own transaction |
| Sorting.SortIdempotent | src/coin/transactions.go:291-298 | sorting an already sorted value changes nothing, and sorting twice equals sorting once |
| Sorting.SortedOrderIsUnique | src/coin/transactions.go:291-294 | two sorted arrangements of the same rows are equal when identity hashes are distinct, so any sort algorithm gives the same order |
| Sorting.AnySortAgrees | src/coin/transactions.go:291-294 | every sorted permutation of the rows equals what Sort returns |
| Sorting.SortTransactions | src/coin/transactions.go:255-262 | returns a permutation of exactly the transactions whose fee computes, ordered by density descending then identity hash ascending |
| Sorting.DensityThenHashExample | src/coin/transactions.go:304-312 | densities 10, 30, 30 sort as the two 30s first (lower hash leading), then the 10 |
| SimpleWallet.SetFilename | src/wallet/simple.go:63-65 | sets the filename and leaves id, name and entries unchanged |
| SimpleWallet.SetName | src/wallet/simple.go:75-77 | sets the name and leaves id, filename and entries unchanged |
| SimpleWallet.GetEntry | src/wallet/simple.go:115-119 | finds an entry exactly when the address is a key, and then it is the stored entry |
| SimpleWallet.AddEntry | src/wallet/simple.go:121-135 | an invalid entry is refused with its own error and an existing address with "already exists", both leaving the wallet unchanged; otherwise the entry is found under its address, all other lookups are unchanged and the count grows by one |
| SimpleWallet.AddEntryTwiceFails | src/wallet/simple.go:121-135 | adding the same entry a second time fails with "already exists" and changes nothing |
| SimpleWallet.GetAddressSet | src/wallet/simple.go:87-93 | the set holds exactly the addresses that are keys of the entry map |
| SimpleWallet.GetAddresses | src/wallet/simple.go:104-113 | as many addresses as entries, each key exactly once, in unspecified order |

## Left out

- `cmd/skycoin/skycoin.go` is not part of this model. It holds flags, configuration, logging, profiling, signal handling and daemon start-up.
- The SHA-256 and double SHA-256 functions, secp256k1 signing and verification, and the encoder byte layout are not modelled. They are parameters in `Primitives`.
- `Transaction.Serialize` is not modelled; it is the `encodeTransaction` parameter.
- `TransactionDeserialize` is not modelled. It wraps the decoder, which is not shown, and aborts when decoding fails.
- Verifier.Verify: the signature check reports one `InvalidSignature` error. The source passes on whichever error the cipher package returns, and that package is not shown.
- Sorting.Sort: the algorithm inside Go's `sort.Sort` is not modelled. The model uses an insertion sort. `SortedOrderIsUnique` shows the order does not depend on the algorithm when identity hashes are distinct.
- Sorting.SortTransactions: when two different transactions have colliding identity hashes and equal density, Go's unstable sort may order them differently from the insertion sort. The result is still a sorted permutation.
- Batch.TotalSize: does not model overflow of Go's `int`, because sizes of transactions held in memory cannot add up to 2^63.
- Batch.TruncateBytesTo: does not model overflow of `total+pending` in Go's `int`, for the same reason.
- Batch.Fees: the `0` that the source returns beside an error is not kept. The model returns only the error.
- SimpleWallet.GetEntry: for a missing address the model returns `None`. The source returns a zero `WalletEntry` with `false`, and `WalletEntry` is not shown.
- `WalletEntry.Verify` is not modelled; it is a parameter of `AddEntry`. `WalletEntry`'s real fields are not shown, so an entry is modelled as an address plus keys.
- Coin.Hash: no contract of its own. It is the double SHA-256 of the full encoding, which is an unmodelled parameter, so nothing can be promised beyond that definition. `Coin.SizeHash` ties it to `Size`, and the output identities in `Verify` use it.
- `NumEntries` is a plain function. Its behaviour is stated by `AddEntry` and `GetAddresses`.
- The getters `GetType`, `GetFilename`, `GetID`, `GetName`, `GetEntries` and `GetExtraSerializerData` are left out. Each only reads a field or returns a constant.
- `Save`, `Load` and `LoadSimpleWallet` are left out because they use the filesystem.
- `NewEmptySimpleWallet`, `NewSimpleWallet` and `CreateEntry` are left out because they need randomness and key generation.
- `NewSimpleWalletFromReadable` is left out because it depends on the `ReadableWallet` conversion, which is not shown.
- The duplicate-output check hashes the transaction's identity hash, and that hash covers the signatures. So the check only means something on a signed transaction. The model keeps this dependency and does not add a guard.

## Findings

| source | as written | input that shows it | evidently intended | confidence | as-written member | corrected member |
|---|---|---|---|---|---|---|
| src/coin/transactions.go:180-187 | `hours += Out[i].Hours` accumulates in a uint64 and wraps silently | two outputs of 2^63 hours each: `OutputHours` reports 0 | the total of the output hours, or an error when it does not fit in a uint64 | medium, not executed | Coin.OutputHoursWrapsExample | Coin.CheckedOutputHours |
