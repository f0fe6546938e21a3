// The lists of owners and modules that a Safe keeps, as a step machine over the links in
// its storage, by the rules that internal/safesettings states of them, and what the
// reader makes of that storage. The contract itself is not part of this model.
module SafeLists {
  import opened Wrappers
  import opened EthTypes
  import opened SafeSettings
  import opened Rules

  // What the mapping of a list has: nothing is the zero address. A Safe counts its owners
  // apart from their list.
  datatype List = List(links: map<Address, Address>, count: nat)

  const NEW_LIST := List(map[], 0)

  // Setting up a list, adding an entry to its start, and removing or replacing an entry,
  // given the one before it, or the sentinel.
  datatype Change =
    | SetUp(entries: seq<Address>)
    | Add(entry: Address)
    | Remove(previous: Address, entry: Address)
    | Swap(previous: Address, entry: Address, replacement: Address)

  function Link(l: List, a: Address): Address {
    if a in l.links then l.links[a] else ZERO_ADDRESS
  }

  predicate IsEntry(a: Address) {
    a != ZERO_ADDRESS && a != SENTINEL
  }

  predicate Enabled(l: List, change: Change) {
    match change
    case SetUp(entries) => l == NEW_LIST && NoRepeats(entries) && forall e :: e in entries ==> IsEntry(e)
    case Add(entry) => Link(l, SENTINEL) != ZERO_ADDRESS && IsEntry(entry) && Link(l, entry) == ZERO_ADDRESS
    case Remove(previous, entry) => IsEntry(entry) && Link(l, previous) == entry && l.count > 0
    case Swap(previous, entry, replacement) =>
      && IsEntry(replacement) && Link(l, replacement) == ZERO_ADDRESS
      && IsEntry(entry) && Link(l, previous) == entry
  }

  // What follows a in entries, and the sentinel before them.
  function After(entries: seq<Address>, a: Address): Address
    requires a == SENTINEL || a in entries
  {
    if a == SENTINEL then At(entries, 0) else At(entries, FirstIndex(entries, a) + 1)
  }

  function Next(l: List, change: Change): List
    requires Enabled(l, change)
  {
    match change
    case SetUp(entries) => List(map a | a in [SENTINEL] + entries :: After(entries, a), |entries|)
    case Add(entry) => List(l.links[entry := Link(l, SENTINEL)][SENTINEL := entry], l.count + 1)
    case Remove(previous, entry) => List(l.links[previous := Link(l, entry)][entry := ZERO_ADDRESS], l.count - 1)
    case Swap(previous, entry, replacement) =>
      List(l.links[replacement := Link(l, entry)][previous := replacement][entry := ZERO_ADDRESS], l.count)
  }

  // The list after changes, or None if one can't be made.
  function Run(changes: seq<Change>): Option<List> {
    if changes == [] then Some(NEW_LIST)
    else
      match Run(changes[..|changes| - 1])
      case None => None
      case Some(l) => if Enabled(l, changes[|changes| - 1]) then Some(Next(l, changes[|changes| - 1])) else None
  }

  // ---- The entries of a list -----------------------------------------------------------

  function Without(entries: seq<Address>, entry: Address): seq<Address> {
    if entry in entries then
      var i := FirstIndex(entries, entry);
      entries[..i] + entries[i + 1..]
    else entries
  }

  function Replaced(entries: seq<Address>, entry: Address, replacement: Address): seq<Address> {
    if entry in entries then entries[FirstIndex(entries, entry) := replacement] else entries
  }

  // The entries that changes leave: the last one added is first.
  function Entries(changes: seq<Change>): seq<Address> {
    if changes == [] then []
    else
      var before := Entries(changes[..|changes| - 1]);
      match changes[|changes| - 1]
      case SetUp(entries) => entries
      case Add(entry) => [entry] + before
      case Remove(_, entry) => Without(before, entry)
      case Swap(_, entry, replacement) => Replaced(before, entry, replacement)
  }

  // The links lead through the entries, from the sentinel and back to it.
  predicate Leads(l: List, entries: seq<Address>) {
    && NoRepeats(entries)
    && Link(l, SENTINEL) == At(entries, 0)
    && forall k :: 0 <= k < |entries| ==> LinksOn(l, entries, k)
  }

  predicate LinksOn(l: List, entries: seq<Address>, k: nat)
    requires k < |entries|
  {
    IsEntry(entries[k]) && Link(l, entries[k]) == At(entries, k + 1)
  }

  // Nothing else has a link.
  ghost predicate OnlyThese(l: List, entries: seq<Address>) {
    forall a: Address :: a != SENTINEL && a !in entries ==> Link(l, a) == ZERO_ADDRESS
  }

  ghost predicate Holds(l: List, entries: seq<Address>) {
    && l.count == |entries|
    && (l == NEW_LIST ==> entries == [])
    && (l != NEW_LIST ==> Leads(l, entries) && OnlyThese(l, entries))
  }

  lemma {:induction false} FirstIndexIs(entries: seq<Address>, i: nat)
    requires NoRepeats(entries) && i < |entries|
    ensures FirstIndex(entries, entries[i]) == i
  {
  }

  lemma SentinelIsNotZero()
    ensures SENTINEL != ZERO_ADDRESS
  {
    assert SENTINEL[19] == 1 && ZERO_ADDRESS[19] == 0;
  }

  lemma SetUpHolds(l: List, entries: seq<Address>)
    requires Enabled(l, SetUp(entries))
    ensures Holds(Next(l, SetUp(entries)), entries)
  {
    var next := Next(l, SetUp(entries));
    assert SENTINEL in [SENTINEL] + entries;
    assert SENTINEL in next.links;
    forall k | 0 <= k < |entries| ensures LinksOn(next, entries, k) {
      assert entries[k] in [SENTINEL] + entries;
      FirstIndexIs(entries, k);
    }
  }

  lemma AddHolds(l: List, entries: seq<Address>, entry: Address)
    requires Holds(l, entries) && Enabled(l, Add(entry))
    ensures Holds(Next(l, Add(entry)), [entry] + entries)
  {
    var next, now := Next(l, Add(entry)), [entry] + entries;
    assert l != NEW_LIST;
    SentinelIsNotZero();
    forall k | 0 <= k < |entries| ensures entries[k] != entry && entries[k] != SENTINEL {
      assert LinksOn(l, entries, k);
      assert At(entries, k + 1) != ZERO_ADDRESS by {
        assert k + 1 < |entries| ==> LinksOn(l, entries, k + 1);
      }
    }
    forall k | 0 <= k < |now| ensures LinksOn(next, now, k) {
      if k > 0 {
        assert LinksOn(l, entries, k - 1) && now[k] == entries[k - 1];
        assert At(now, k + 1) == At(entries, k);
      }
    }
  }

  // The entry that previous links to is the one after it.
  lemma PreviousIs(l: List, entries: seq<Address>, previous: Address, entry: Address) returns (i: nat)
    requires Holds(l, entries) && IsEntry(entry) && Link(l, previous) == entry
    ensures i < |entries| && entries[i] == entry && FirstIndex(entries, entry) == i
    ensures l != NEW_LIST && previous == if i == 0 then SENTINEL else entries[i - 1]
  {
    if previous == SENTINEL {
      i := 0;
    } else {
      var j := FirstIndex(entries, previous);
      assert LinksOn(l, entries, j);
      i := j + 1;
    }
    FirstIndexIs(entries, i);
  }

  lemma WithoutHas(entries: seq<Address>, i: nat, a: Address)
    requires i < |entries| && a in entries && a != entries[i]
    ensures a in entries[..i] + entries[i + 1..]
  {
    var j := FirstIndex(entries, a);
    var rest := entries[..i] + entries[i + 1..];
    assert rest[if j < i then j else j - 1] == a;
  }

  // Entry k of the list without entry i was entry k or the one after it.
  lemma RemovedLinksOn(l: List, entries: seq<Address>, i: nat, previous: Address, k: nat)
    requires Holds(l, entries) && l != NEW_LIST && i < |entries| && k + 1 < |entries|
    requires previous == if i == 0 then SENTINEL else entries[i - 1]
    requires Enabled(l, Remove(previous, entries[i]))
    ensures LinksOn(Next(l, Remove(previous, entries[i])), entries[..i] + entries[i + 1..], k)
  {
    var now := entries[..i] + entries[i + 1..];
    var j := if k < i then k else k + 1;
    assert LinksOn(l, entries, j) && LinksOn(l, entries, i);
    assert now[k] == entries[j];
    if k + 1 == i {
      assert At(now, k + 1) == At(entries, i + 1);
    } else {
      assert At(now, k + 1) == At(entries, j + 1);
    }
  }

  lemma RemovedHasNoLink(l: List, entries: seq<Address>, i: nat, previous: Address, a: Address)
    requires i < |entries| && OnlyThese(l, entries) && a != SENTINEL
    requires previous == if i == 0 then SENTINEL else entries[i - 1]
    requires a !in entries[..i] + entries[i + 1..]
    ensures a != previous && (a == entries[i] || Link(l, a) == ZERO_ADDRESS)
  {
    if i > 0 {
      assert (entries[..i] + entries[i + 1..])[i - 1] == previous;
    }
    if a in entries && a != entries[i] {
      WithoutHas(entries, i, a);
    }
  }

  lemma RemoveHolds(l: List, entries: seq<Address>, previous: Address, entry: Address)
    requires Holds(l, entries) && Enabled(l, Remove(previous, entry))
    ensures Holds(Next(l, Remove(previous, entry)), Without(entries, entry))
  {
    var i := PreviousIs(l, entries, previous, entry);
    var next, now := Next(l, Remove(previous, entry)), Without(entries, entry);
    assert now == entries[..i] + entries[i + 1..];
    forall k | 0 <= k < |now| ensures LinksOn(next, now, k) {
      RemovedLinksOn(l, entries, i, previous, k);
    }
    assert Link(next, SENTINEL) == At(now, 0) by {
      assert LinksOn(l, entries, i);
    }
    forall a: Address | a != SENTINEL && a !in now ensures Link(next, a) == ZERO_ADDRESS {
      RemovedHasNoLink(l, entries, i, previous, a);
    }
    assert next != NEW_LIST by {
      assert entry in next.links;
    }
  }

  lemma SwapHolds(l: List, entries: seq<Address>, previous: Address, entry: Address, replacement: Address)
    requires Holds(l, entries) && Enabled(l, Swap(previous, entry, replacement))
    ensures Holds(Next(l, Swap(previous, entry, replacement)), Replaced(entries, entry, replacement))
  {
    var i := PreviousIs(l, entries, previous, entry);
    var next, now := Next(l, Swap(previous, entry, replacement)), Replaced(entries, entry, replacement);
    SentinelIsNotZero();
    forall k | 0 <= k < |entries| ensures entries[k] != replacement {
      assert LinksOn(l, entries, k);
      assert At(entries, k + 1) != ZERO_ADDRESS by {
        assert k + 1 < |entries| ==> LinksOn(l, entries, k + 1);
      }
    }
    assert LinksOn(l, entries, i) && now == entries[i := replacement];
    forall k | 0 <= k < |now| ensures LinksOn(next, now, k) {
      assert LinksOn(l, entries, k);
      assert k + 1 != i ==> At(now, k + 1) == At(entries, k + 1);
    }
    forall a: Address | a != SENTINEL && a !in now ensures Link(next, a) == ZERO_ADDRESS {
      SwappedHasNoLink(l, entries, i, previous, replacement, a);
    }
    assert next != NEW_LIST by {
      assert entry in next.links;
    }
  }

  lemma SwappedHasNoLink(
    l: List, entries: seq<Address>, i: nat, previous: Address, replacement: Address, a: Address)
    requires i < |entries| && OnlyThese(l, entries) && a != SENTINEL
    requires previous == if i == 0 then SENTINEL else entries[i - 1]
    requires a !in entries[i := replacement]
    ensures a != previous && a != replacement && (a == entries[i] || Link(l, a) == ZERO_ADDRESS)
  {
    var now := entries[i := replacement];
    assert now[i] == replacement && (i > 0 ==> now[i - 1] == entries[i - 1]);
    if a in entries {
      var j := FirstIndex(entries, a);
      assert j != i ==> now[j] == a;
    }
  }

  // After every run of changes, the links lead through its entries, and the count is
  // their number.
  lemma {:induction false} RunHolds(changes: seq<Change>)
    requires Run(changes).Some?
    ensures Holds(Run(changes).value, Entries(changes))
  {
    if changes != [] {
      var before, last := changes[..|changes| - 1], changes[|changes| - 1];
      RunHolds(before);
      var l := Run(before).value;
      match last
      case SetUp(entries) => SetUpHolds(l, entries);
      case Add(entry) => AddHolds(l, Entries(before), entry);
      case Remove(previous, entry) => RemoveHolds(l, Entries(before), previous, entry);
      case Swap(previous, entry, replacement) => SwapHolds(l, Entries(before), previous, entry, replacement);
    }
  }

  // ---- What the reader reads -------------------------------------------------------------

  // Storage that has a list in the mapping at a slot.
  ghost predicate Stores(storage: Storage, keccak: Hash, slot: Word, l: List) {
    forall a: Address :: AddressAt(storage, MappingSlot(keccak, a, slot)) == Some(Link(l, a))
  }

  lemma {:induction false} ChainIsRead(storage: Storage, keccak: Hash, slot: Word, l: List, entries: seq<Address>)
    requires Stores(storage, keccak, slot, l) && Leads(l, entries)
    ensures IsChain(LinksAt(storage, keccak, slot), entries)
  {
    var links := LinksAt(storage, keccak, slot);
    forall k | 0 <= k < |entries| ensures LeadsOn(links, entries, k) {
      assert LinksOn(l, entries, k);
    }
  }

  // On every run of changes to a Safe's list, the reader reads back its entries, in the
  // order of the list, exactly if there are at most 1024, and as many as are counted.
  lemma {:induction false} ListReadsBack(storage: Storage, keccak: Hash, slot: Word, changes: seq<Change>)
    requires Run(changes).Some? && Stores(storage, keccak, slot, Run(changes).value)
    ensures var entries, found := Entries(changes), ListOf(LinksAt(storage, keccak, slot));
            && (|entries| <= MAX_LIST_LENGTH ==> found == Ok(entries))
            && (|entries| > MAX_LIST_LENGTH ==> found.Err?)
            && Run(changes).value.count == |entries|
  {
    var l, entries, links := Run(changes).value, Entries(changes), LinksAt(storage, keccak, slot);
    RunHolds(changes);
    if l == NEW_LIST {
      assert links(SENTINEL) == Some(ZERO_ADDRESS);
    } else {
      ChainIsRead(storage, keccak, slot, l, entries);
      ListIsChain(links, entries);
      if ListOf(links).Ok? {
        ListIsChain(links, ListOf(links).value);
        SameChain(links, entries, ListOf(links).value);
      }
    }
  }

  // Links lead through one chain only.
  lemma SameChain(links: Links, entries: seq<Address>, found: seq<Address>)
    requires IsChain(links, entries) && ListOf(links) == Ok(found)
    ensures found == entries
  {
    SentinelIsNotZero();
    assert At(entries, 0) != ZERO_ADDRESS by {
      assert entries != [] ==> LeadsOn(links, entries, 0);
    }
    ListIsChain(links, found);
    assert IsChain(links, found);
    var n := if |entries| < |found| then |entries| else |found|;
    SameUpTo(links, entries, found, n);
    assert n < |found| ==> LeadsOn(links, found, n);
    assert n < |entries| ==> LeadsOn(links, entries, n);
    assert entries[..n] == entries && found[..n] == found;
  }

  lemma {:induction false} SameUpTo(links: Links, a: seq<Address>, b: seq<Address>, n: nat)
    requires IsChain(links, a) && IsChain(links, b) && n <= |a| && n <= |b|
    ensures a[..n] == b[..n] && At(a, n) == At(b, n)
  {
    if n > 0 {
      SameUpTo(links, a, b, n - 1);
      assert LeadsOn(links, a, n - 1) && LeadsOn(links, b, n - 1);
      assert a[..n] == a[..n - 1] + [a[n - 1]] && b[..n] == b[..n - 1] + [b[n - 1]];
    }
  }

  // A list that is read, of a slot with the storage of a list.
  ghost predicate ShowsList(storage: Storage, keccak: Hash, slot: Word, changes: seq<Change>, found: seq<Address>) {
    && Run(changes).Some? && Stores(storage, keccak, slot, Run(changes).value)
    && ListOf(LinksAt(storage, keccak, slot)) == Ok(found)
  }

  lemma {:induction false} ShownIsEntries(
    storage: Storage, keccak: Hash, slot: Word, changes: seq<Change>, found: seq<Address>)
    requires ShowsList(storage, keccak, slot, changes, found)
    ensures found == Entries(changes) && Run(changes).value.count == |found|
  {
    ListReadsBack(storage, keccak, slot, changes);
  }

  // The settings that are read of a Safe show the owners that its changes leave, in the
  // order of their list, and as many as are counted.
  lemma {:induction false} SettingsShowOwners(r: Reader, settings: Settings, named: NamedSlots, owners: seq<Change>)
    requires r.Shows(settings, named)
    requires Run(owners).Some? && Stores(r.storage, r.keccak, Slot(2), Run(owners).value)
    requires r.IsNumber(Slot(3), Run(owners).value.count)
    ensures settings.owners == Entries(owners) && settings.ownerCount == |settings.owners|
  {
    ShownIsEntries(r.storage, r.keccak, Slot(2), owners, settings.owners);
  }

  // And the modules.
  lemma {:induction false} SettingsShowModules(r: Reader, settings: Settings, named: NamedSlots, modules: seq<Change>)
    requires r.Shows(settings, named)
    requires Run(modules).Some? && Stores(r.storage, r.keccak, Slot(1), Run(modules).value)
    ensures settings.modules == Entries(modules)
  {
    ShownIsEntries(r.storage, r.keccak, Slot(1), modules, settings.modules);
  }
}
