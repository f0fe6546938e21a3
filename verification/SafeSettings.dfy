// The reader of a Safe's settings of internal/safesettings/safesettings.go, whose
// lists are linked lists in storage that nothing vouches for.
module SafeSettings {
  import opened Wrappers
  import opened EthTypes

  // The most entries read of a list.
  const MAX_LIST_LENGTH := 1024

  // A Safe's storage, as a node serves it: it may refuse a slot.
  type Storage = Word -> Option<Word>

  type Hash = Bytes -> Word

  function Slot(i: Byte): Word {
    Zeros(31) + [i]
  }

  // The slot of the entry for key in the mapping at slot.
  function MappingSlot(keccak: Hash, key: Address, slot: Word): Word {
    keccak((Zeros(12) + key) + slot)
  }

  // That is the slot that Solidity's storage layout gives a mapping's entry: the hash of
  // the key and the mapping's slot, encoded as words.
  lemma {:induction false} MappingSlotIsStandard(keccak: Hash, key: Address, slot: Word)
    ensures MappingSlot(keccak, key, slot) == keccak(FromNat(ToNat(key), 32) + slot)
  {
    ToNatLeadingZeros(Zeros(12), key);
    FromNatToNat(Zeros(12) + key);
  }

  // The low 20 bytes of a slot.
  function AddressAt(storage: Storage, slot: Word): Option<Address> {
    match storage(slot)
    case None => None
    case Some(w) => Some(w[12..])
  }

  // An address is read as the number in its slot, without the bits above 160.
  lemma AddressIsLow(storage: Storage, slot: Word)
    ensures storage(slot).None? <==> AddressAt(storage, slot).None?
    ensures storage(slot).Some? ==>
      var high, low := ToNat(storage(slot).value[..12]), ToNat(AddressAt(storage, slot).value);
      ToNat(storage(slot).value) == high * Pow256(20) + low && low < Pow256(20)
  {
    if storage(slot).Some? {
      var w := storage(slot).value;
      assert w == w[..12] + w[12..];
      LowBytes(w[..12], w[12..]);
    }
  }

  lemma {:induction false} LowBytes(high: Bytes, low: Bytes)
    ensures ToNat(high + low) == ToNat(high) * Pow256(|low|) + ToNat(low) && ToNat(low) < Pow256(|low|)
  {
    if low == [] {
      assert high + low == high;
    } else {
      var most, last := low[..|low| - 1], low[|low| - 1];
      LowBytes(high, most);
      assert (high + low)[..|high + low| - 1] == high + most;
      Shifted(ToNat(high), Pow256(|most|), ToNat(most), last);
    }
  }

  lemma Shifted(high: nat, p: nat, most: nat, last: nat)
    ensures 256 * (high * p + most) + last == high * (256 * p) + (256 * most + last)
  {
  }

  // The links of the list in the mapping at a slot: what each address maps to.
  type Links = Address -> Option<Address>

  function LinksAt(storage: Storage, keccak: Hash, slot: Word): Links {
    a => AddressAt(storage, MappingSlot(keccak, a, slot))
  }

  // Following the links from next on, after the entries.
  function FollowFrom(links: Links, next: Address, entries: seq<Address>): Result<seq<Address>>
    requires |entries| <= MAX_LIST_LENGTH
    decreases MAX_LIST_LENGTH - |entries|
  {
    if next == SENTINEL then Ok(entries)
    else if next == ZERO_ADDRESS || |entries| == MAX_LIST_LENGTH || links(next).None? then Err
    else FollowFrom(links, links(next).value, entries + [next])
  }

  function ListOf(links: Links): Result<seq<Address>> {
    match links(SENTINEL)
    case None => Err
    case Some(first) => if first == ZERO_ADDRESS then Ok([]) else FollowFrom(links, first, [])
  }

  // The fields of a Safe that are read.
  datatype Settings = Settings(
    singleton: Address, owners: seq<Address>, ownerCount: nat, threshold: nat, nonce: nat, modules: seq<Address>,
    fallbackHandler: Address, guard: Address, moduleGuard: Address)

  // The slots of the fields that aren't at a small index.
  datatype NamedSlots = NamedSlots(fallbackHandler: Word, guard: Word, moduleGuard: Word)

  class Reader {
    const storage: Storage
    const keccak: Hash
    var failed: bool

    constructor (storage: Storage, keccak: Hash)
      ensures this.storage == storage && this.keccak == keccak && !failed
    {
      this.storage, this.keccak, failed := storage, keccak, false;
    }

    method Word(slot: Word) returns (value: Word)
      modifies this
      ensures failed == (old(failed) || storage(slot).None?)
      ensures value == if failed then ZERO_WORD else storage(slot).value
    {
      if failed { return ZERO_WORD; }
      match storage(slot)
      case None =>
        failed := true;
        value := ZERO_WORD;
      case Some(w) => value := w;
    }

    method Address(slot: Word) returns (value: Address)
      modifies this
      ensures failed == (old(failed) || AddressAt(storage, slot).None?)
      ensures value == if failed then ZERO_ADDRESS else AddressAt(storage, slot).value
    {
      var w := Word(slot);
      value := w[12..];
    }

    method Uint(slot: Word) returns (value: nat)
      modifies this
      ensures failed == (old(failed) || storage(slot).None?)
      ensures !failed ==> value == ToNat(storage(slot).value)
    {
      var w := Word(slot);
      value := ToNat(w);
    }

    // The entries of a list. It fails like the function that follows the links does.
    method List(slot: Word) returns (entries: seq<Address>)
      modifies this
      ensures failed == (old(failed) || ListOf(LinksAt(storage, keccak, slot)).Err?)
      ensures !failed ==> ListOf(LinksAt(storage, keccak, slot)) == Ok(entries)
      ensures |entries| <= MAX_LIST_LENGTH
    {
      ghost var links := LinksAt(storage, keccak, slot);
      entries := [];
      var next := Address(MappingSlot(keccak, SENTINEL, slot));
      if next == ZERO_ADDRESS {
        return;
      }
      while next != SENTINEL && !failed
        invariant |entries| <= MAX_LIST_LENGTH
        invariant failed ==> old(failed) || ListOf(links).Err?
        invariant !failed ==> !old(failed) && FollowFrom(links, next, entries) == ListOf(links)
        decreases MAX_LIST_LENGTH - |entries|, if failed then 0 else 1
      {
        if next == ZERO_ADDRESS || |entries| == MAX_LIST_LENGTH {
          failed := true;
          break;
        }
        entries := entries + [next];
        next := Address(MappingSlot(keccak, next, slot));
      }
    }

    // All of the settings, or an error if any read failed.
    method Read(named: NamedSlots) returns (settings: Result<Settings>)
      requires !failed
      modifies this
      ensures settings.Ok? <==>
        && Answers(named)
        && ListOf(LinksAt(storage, keccak, Slot(2))).Ok? && ListOf(LinksAt(storage, keccak, Slot(1))).Ok?
      ensures settings.Ok? ==> Shows(settings.value, named)
    {
      var singleton := Address(Slot(0));
      var ownerCount := Uint(Slot(3));
      var threshold := Uint(Slot(4));
      var nonce := Uint(Slot(5));
      var fallbackHandler := Address(named.fallbackHandler);
      var guard := Address(named.guard);
      var moduleGuard := Address(named.moduleGuard);
      assert failed <==> !Answers(named);
      var owners := List(Slot(2));
      var modules := List(Slot(1));
      if failed { return Err; }
      return Ok(Settings(
                  singleton, owners, ownerCount, threshold, nonce, modules, fallbackHandler, guard, moduleGuard));
    }

    // The node answers for each slot that isn't in a list.
    predicate Answers(named: NamedSlots) {
      && storage(Slot(0)).Some? && storage(Slot(3)).Some? && storage(Slot(4)).Some? && storage(Slot(5)).Some?
      && storage(named.fallbackHandler).Some? && storage(named.guard).Some? && storage(named.moduleGuard).Some?
    }

    predicate Shows(s: Settings, named: NamedSlots) {
      && AddressAt(storage, Slot(0)) == Some(s.singleton)
      && IsNumber(Slot(3), s.ownerCount) && IsNumber(Slot(4), s.threshold) && IsNumber(Slot(5), s.nonce)
      && AddressAt(storage, named.fallbackHandler) == Some(s.fallbackHandler)
      && AddressAt(storage, named.guard) == Some(s.guard)
      && AddressAt(storage, named.moduleGuard) == Some(s.moduleGuard)
      && ListOf(LinksAt(storage, keccak, Slot(2))) == Ok(s.owners)
      && ListOf(LinksAt(storage, keccak, Slot(1))) == Ok(s.modules)
    }

    predicate IsNumber(slot: Word, x: nat) {
      storage(slot).Some? && ToNat(storage(slot).value) == x
    }
  }

  // ---- What a list is -----------------------------------------------------------------

  // Where the links lead after i entries: the next entry, or back to the start.
  function At(entries: seq<Address>, i: nat): Address
    requires i <= |entries|
  {
    if i == |entries| then SENTINEL else entries[i]
  }

  ghost predicate LeadsOn(links: Links, entries: seq<Address>, k: nat)
    requires k < |entries|
  {
    entries[k] != SENTINEL && entries[k] != ZERO_ADDRESS && links(entries[k]) == Some(At(entries, k + 1))
  }

  // The links lead through the entries from entry i on, and back to the start.
  ghost predicate Closes(links: Links, entries: seq<Address>, i: nat) {
    forall k :: i <= k < |entries| ==> LeadsOn(links, entries, k)
  }

  // A set up list: the links lead from the sentinel through the entries and back.
  ghost predicate IsChain(links: Links, entries: seq<Address>) {
    links(SENTINEL) == Some(At(entries, 0)) && Closes(links, entries, 0)
  }

  lemma {:induction false} FollowFinds(links: Links, next: Address, before: seq<Address>, entries: seq<Address>)
    requires |before| <= MAX_LIST_LENGTH && FollowFrom(links, next, before) == Ok(entries)
    ensures |before| <= |entries| <= MAX_LIST_LENGTH && entries[..|before|] == before
    ensures next == At(entries, |before|) && Closes(links, entries, |before|)
    decreases MAX_LIST_LENGTH - |before|
  {
    if next != SENTINEL {
      FollowFinds(links, links(next).value, before + [next], entries);
      var n := |before|;
      assert LeadsOn(links, entries, n);
      assert entries[n] == entries[..n + 1][n] == next;
      assert entries[..n] == entries[..n + 1][..n];
    }
  }

  lemma {:induction false} ChainIsFollowed(links: Links, entries: seq<Address>, n: nat)
    requires n <= |entries| <= MAX_LIST_LENGTH && Closes(links, entries, n)
    ensures FollowFrom(links, At(entries, n), entries[..n]) == Ok(entries)
    decreases |entries| - n
  {
    if n < |entries| {
      assert LeadsOn(links, entries, n);
      assert entries[..n] + [entries[n]] == entries[..n + 1];
      ChainIsFollowed(links, entries, n + 1);
    } else {
      assert entries[..n] == entries;
    }
  }

  // On any links, a list is read exactly when it was never set up, or the links lead
  // from the sentinel back to it through at most 1024 entries; and those are read.
  lemma ListIsChain(links: Links, entries: seq<Address>)
    ensures ListOf(links) == Ok(entries) <==>
      || (links(SENTINEL) == Some(ZERO_ADDRESS) && entries == [])
      || (|entries| <= MAX_LIST_LENGTH && IsChain(links, entries))
  {
    if ListOf(links) == Ok(entries) && links(SENTINEL) != Some(ZERO_ADDRESS) {
      FollowFinds(links, links(SENTINEL).value, [], entries);
    }
    if |entries| <= MAX_LIST_LENGTH && IsChain(links, entries) {
      ChainIsFollowed(links, entries, 0);
      assert entries[..0] == [];
      assert SENTINEL[19] == 1 && ZERO_ADDRESS[19] == 0;
    }
  }

  // If two entries of a chain are the same, what follows them is too.
  lemma {:induction false} SameEntriesSameRest(links: Links, entries: seq<Address>, i: nat, j: nat, k: nat)
    requires Closes(links, entries, 0) && i < j < |entries| && entries[i] == entries[j] && j + k <= |entries|
    ensures At(entries, i + k) == At(entries, j + k)
    decreases k
  {
    if k > 0 {
      SameEntriesSameRest(links, entries, i, j, k - 1);
      assert LeadsOn(links, entries, i + k - 1) && LeadsOn(links, entries, j + k - 1);
    }
  }

  // A list that is read has no entry twice, although repeats aren't looked for, and
  // none is the zero address or the sentinel.
  lemma ListHasNoRepeats(links: Links)
    requires ListOf(links).Ok?
    ensures var entries := ListOf(links).value;
            && (forall i, j :: 0 <= i < j < |entries| ==> entries[i] != entries[j])
            && ZERO_ADDRESS !in entries && SENTINEL !in entries
  {
    var entries := ListOf(links).value;
    ListIsChain(links, entries);
    forall i | 0 <= i < |entries| ensures entries[i] != ZERO_ADDRESS && entries[i] != SENTINEL {
      assert LeadsOn(links, entries, i);
    }
    forall i, j | 0 <= i < j < |entries| ensures entries[i] != entries[j] {
      if entries[i] == entries[j] {
        SameEntriesSameRest(links, entries, i, j, |entries| - j);
      }
    }
  }

  // ---- What the other fields are ---------------------------------------------------------

  // A Safe's storage holds a number, or an address as the number it is, in a slot.
  predicate Holds(storage: Storage, slot: Word, number: nat) {
    number < UINT256 && storage(slot) == Some(FromNat(number, 32))
  }

  predicate HoldsAddress(storage: Storage, slot: Word, a: Address) {
    storage(slot) == Some(FromNat(ToNat(a), 32))
  }

  // Where the Safe's contract keeps the fields that aren't lists: after the singleton
  // in slot 0, the modules and the owners come the owner count, the threshold and the
  // nonce.
  predicate HoldsFields(storage: Storage, named: NamedSlots, s: Settings) {
    && HoldsAddress(storage, FromNat(0, 32), s.singleton)
    && Holds(storage, FromNat(3, 32), s.ownerCount)
    && Holds(storage, FromNat(4, 32), s.threshold)
    && Holds(storage, FromNat(5, 32), s.nonce)
    && HoldsAddress(storage, named.fallbackHandler, s.fallbackHandler)
    && HoldsAddress(storage, named.guard, s.guard)
    && HoldsAddress(storage, named.moduleGuard, s.moduleGuard)
  }

  // What is read of a Safe is what it holds.
  lemma SettingsShowFields(r: Reader, named: NamedSlots, held: Settings, read: Settings)
    requires HoldsFields(r.storage, named, held)
    ensures r.Answers(named)
    ensures r.Shows(read, named) ==>
      && read.singleton == held.singleton && read.fallbackHandler == held.fallbackHandler
      && read.guard == held.guard && read.moduleGuard == held.moduleGuard
      && read.ownerCount == held.ownerCount && read.threshold == held.threshold && read.nonce == held.nonce
  {
    IndexIsSlot(0);
    IndexIsSlot(3);
    IndexIsSlot(4);
    IndexIsSlot(5);
    NumberWord(held.ownerCount);
    NumberWord(held.threshold);
    NumberWord(held.nonce);
    AddressReads(r.storage, FromNat(0, 32), held.singleton);
    AddressReads(r.storage, named.fallbackHandler, held.fallbackHandler);
    AddressReads(r.storage, named.guard, held.guard);
    AddressReads(r.storage, named.moduleGuard, held.moduleGuard);
  }

  lemma {:induction false} IndexIsSlot(i: Byte)
    ensures FromNat(i as nat, 32) == Slot(i)
  {
    ToNatLeadingZeros(Zeros(31), [i]);
    assert ToNat([]) == 0 && [i][..0] == [];
    FromNatToNat(Slot(i));
  }

  lemma AddressReads(storage: Storage, slot: Word, a: Address)
    requires HoldsAddress(storage, slot, a)
    ensures AddressAt(storage, slot) == Some(a)
  {
    ToNatLeadingZeros(Zeros(12), a);
    FromNatToNat(Zeros(12) + a);
    assert (Zeros(12) + a)[12..] == a;
  }
}
