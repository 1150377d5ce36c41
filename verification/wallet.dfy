/** SimpleWallet: a wallet holding one entry per address.

    WalletEntry and its Verify method live outside the modelled files; an
    entry is given its address and keys, and its validity check is a
    parameter supplied by the caller.
 */
module SimpleWallet {
  import opened Base

  datatype WalletEntry = WalletEntry(address: Address, publicKey: seq<Byte>, secretKey: SecKey)

  /** WalletEntry.Verify: Pass, or the error that makes the entry invalid. */
  type EntryCheck = WalletEntry -> Outcome

  datatype Wallet = Wallet(id: string, name: string, filename: string, entries: map<Address, WalletEntry>)

  /** SimpleWallet.SetFilename */
  function SetFilename(w: Wallet, fn: string): (r: Wallet)
    ensures r.filename == fn
    ensures r.id == w.id && r.name == w.name && r.entries == w.entries
  {
    w.(filename := fn)
  }

  /** SimpleWallet.SetName */
  function SetName(w: Wallet, name: string): (r: Wallet)
    ensures r.name == name
    ensures r.id == w.id && r.filename == w.filename && r.entries == w.entries
  {
    w.(name := name)
  }

  /** SimpleWallet.NumEntries */
  function NumEntries(w: Wallet): nat {
    |w.entries|
  }

  /** SimpleWallet.GetEntry: the entry stored for `a`, if there is one. */
  function GetEntry(w: Wallet, a: Address): (r: Option<WalletEntry>)
    ensures r.Some? <==> a in w.entries
    ensures r.Some? ==> r.value == w.entries[a]
  {
    if a in w.entries then Some(w.entries[a]) else None
  }

  /** SimpleWallet.AddEntry: an invalid entry is refused with its own error, an
      address already present is refused, and otherwise the entry is stored
      under its address. A refused entry leaves the wallet as it was. */
  function AddEntry(w: Wallet, e: WalletEntry, verify: EntryCheck): (r: (Wallet, Outcome))
    ensures verify(e).Fail? ==> r == (w, verify(e))
    ensures verify(e).Pass? && e.address in w.entries ==> r == (w, Fail(EntryExists(e.address)))
    ensures r.1.Pass? <==> verify(e).Pass? && e.address !in w.entries
    ensures r.1.Pass? ==>
      var w' := r.0;
      && GetEntry(w', e.address) == Some(e)
      && (forall a :: a != e.address ==> GetEntry(w', a) == GetEntry(w, a))
      && NumEntries(w') == NumEntries(w) + 1
      && w'.id == w.id && w'.name == w.name && w'.filename == w.filename
  {
    match verify(e)
    case Fail(err) => (w, Fail(err))
    case Pass =>
      if e.address in w.entries then (w, Fail(EntryExists(e.address)))
      else (w.(entries := w.entries[e.address := e]), Pass)
  }

  /** An entry that was added once cannot be added again. */
  lemma AddEntryTwiceFails(w: Wallet, e: WalletEntry, verify: EntryCheck)
    requires AddEntry(w, e, verify).1.Pass?
    ensures var w' := AddEntry(w, e, verify).0;
      AddEntry(w', e, verify) == (w', Fail(EntryExists(e.address)))
  {
  }

  /** SimpleWallet.GetAddressSet: the addresses of the entries, visited in
      whatever order the map yields them. */
  method GetAddressSet(w: Wallet) returns (addrs: set<Address>)
    ensures addrs == w.entries.Keys
  {
    addrs := {};
    var rest := w.entries.Keys;
    while rest != {}
      invariant addrs + rest == w.entries.Keys
      decreases rest
    {
      var a :| a in rest;
      addrs := addrs + {a};
      rest := rest - {a};
    }
  }

  /** SimpleWallet.GetAddresses: every address once, in unspecified order. */
  method GetAddresses(w: Wallet) returns (addrs: seq<Address>)
    ensures |addrs| == NumEntries(w)
    ensures Distinct(addrs)
    ensures forall a :: a in addrs <==> a in w.entries
  {
    addrs := [];
    var rest := w.entries.Keys;
    while rest != {}
      invariant rest <= w.entries.Keys
      invariant forall a :: a in addrs <==> a in w.entries && a !in rest
      invariant Distinct(addrs)
      invariant |addrs| + |rest| == |w.entries.Keys|
      decreases rest
    {
      var a :| a in rest;
      addrs := addrs + [a];
      rest := rest - {a};
    }
  }
}
