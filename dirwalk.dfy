/** Where dirAddEntry puts an entry along a directory's chain (fs_operations.c:56-164), stated
    against references that do not follow the loop: the next_inode chain as a list of inodes
    and the first-fit place along it; and that the entry then lies where dirFindEntry reads,
    in a listing that stays readable. */
module DirWalk {
  import opened FsTypes
  import opened DirEntry
  import opened Store
  import opened Directory
  import opened DirUpdate
  import DirListing

  // ---------------------------------------------------------------- the chain of a directory

  /** The inodes of the next_inode chain from cur: cur, then each successor, until next_inode
      is 0 or outside the table, or fuel links have been followed. */
  function ChainOf(s: FsState, cur: nat, fuel: nat): (cs: seq<nat>)
    requires Shaped(s) && cur < MaxInodes
    ensures 0 < |cs| <= fuel + 1 && cs[0] == cur
    ensures forall m :: 0 <= m < |cs| ==> cs[m] < MaxInodes
    decreases fuel
  {
    var next := s.inodes[cur].nextInode;
    if next == 0 || next >= MaxInodes || fuel == 0 then [cur]
    else [cur] + ChainOf(s, next as nat, fuel - 1)
  }

  /** Every inode of the chain after cur is the next_inode of the one before it. */
  lemma {:induction false} ChainOfLinks(s: FsState, cur: nat, fuel: nat, m: nat)
    requires Shaped(s) && cur < MaxInodes && 0 < m < |ChainOf(s, cur, fuel)|
    ensures ChainOf(s, cur, fuel)[m] == s.inodes[ChainOf(s, cur, fuel)[m - 1]].nextInode as nat
    decreases fuel
  {
    var next := s.inodes[cur].nextInode as nat;
    assert ChainOf(s, cur, fuel) == [cur] + ChainOf(s, next, fuel - 1);
    if m > 1 {
      ChainOfLinks(s, next, fuel - 1, m - 1);
    }
  }

  /** The chain stops only at a next_inode that is 0 or outside the table, or when the fuel
      is used up. */
  lemma {:induction false} ChainOfEnd(s: FsState, cur: nat, fuel: nat)
    requires Shaped(s) && cur < MaxInodes
    ensures var cs := ChainOf(s, cur, fuel); var last := s.inodes[cs[|cs| - 1]].nextInode;
      last == 0 || last >= MaxInodes || |cs| == fuel + 1
    decreases fuel
  {
    var next := s.inodes[cur].nextInode;
    if next != 0 && next < MaxInodes && fuel > 0 {
      ChainOfEnd(s, next as nat, fuel - 1);
    }
  }

  /** The chain depends on the next_inode fields alone. */
  lemma {:induction false} ChainOfSameLinks(s: FsState, t: FsState, cur: nat, fuel: nat)
    requires Shaped(s) && Shaped(t) && cur < MaxInodes
    requires forall i :: 0 <= i < MaxInodes ==> t.inodes[i].nextInode == s.inodes[i].nextInode
    ensures ChainOf(t, cur, fuel) == ChainOf(s, cur, fuel)
    decreases fuel
  {
    var next := s.inodes[cur].nextInode;
    if next != 0 && next < MaxInodes && fuel > 0 {
      ChainOfSameLinks(s, t, next as nat, fuel - 1);
    }
  }

  /** An inode of the chain other than its head is on the chain from the head's successor. */
  lemma ChainOfMember(s: FsState, cur: nat, next: nat, fuel: nat, c: nat)
    requires Shaped(s) && cur < MaxInodes && c in ChainOf(s, cur, fuel) && c != cur
    requires s.inodes[cur].nextInode as nat == next
    ensures 0 < next < MaxInodes && fuel > 0 && c in ChainOf(s, next, fuel - 1)
  {
  }

  /** The position in cs of the first inode with a slot among 2..11 that is not full. */
  function FirstOpen(s: FsState, cs: seq<nat>): (r: Option<nat>)
    requires Shaped(s) && forall m :: 0 <= m < |cs| ==> cs[m] < MaxInodes
    ensures r.Some? ==> r.value < |cs| && FirstOpenSlot(s, cs[r.value], FirstAddSlot).Some?
    ensures r.Some? ==> forall m :: 0 <= m < r.value ==> FirstOpenSlot(s, cs[m], FirstAddSlot).None?
    ensures r.None? ==> forall m :: 0 <= m < |cs| ==> FirstOpenSlot(s, cs[m], FirstAddSlot).None?
    decreases |cs|
  {
    if |cs| == 0 then None
    else if FirstOpenSlot(s, cs[0], FirstAddSlot).Some? then Some(0)
    else match FirstOpen(s, cs[1..])
      case None => None
      case Some(k) => assert cs[1..][k] == cs[k + 1]; Some(k + 1)
  }

  // ---------------------------------------------------------------- where dirAddEntry puts the entry

  /** t is s after dirAddEntry found every slot 2..11 of the chain ending at last full: a new
      inode is linked from last, and the entry is placed in its slot 2. */
  predicate Extended(s: FsState, t: FsState, last: nat, name: seq<byte>, index: uint32, now: int)
    requires Shaped(s) && Shaped(t) && last < MaxInodes
  {
    && s.inodes[last].nextInode == 0
    && ExtendChain(s, last).1 == Success
    && var u := ExtendChain(s, last).0;
       var n := u.inodes[last].nextInode;
       n < MaxInodes && PlacedAt(u, t, n, FirstAddSlot, name, index, now)
  }

  /** Where a first-fit insertion along a chain goes: slot k of inode c, or a new inode linked
      after the last inode of a chain that is full, or nowhere, because the walk meets an inode
      that is not a directory, or the fuel runs out, before it finds room. */
  datatype Fit = InSlot(c: nat, k: nat) | AfterLast(last: nat) | Blocked

  /** The first n inodes of cs are directories. */
  predicate AllDirectories(s: FsState, cs: seq<nat>, n: nat)
    requires Shaped(s) && n <= |cs| && forall m :: 0 <= m < |cs| ==> cs[m] < MaxInodes
  {
    forall i :: 0 <= i < n ==> s.inodes[cs[i]].kind == Directory
  }

  /** Where the insertion goes along the inodes cs: the first inode with a slot among 2..11
      that is not full, and the first such slot, when every inode up to it is a directory;
      otherwise the last inode, when all of cs are full directories and the walk could still
      follow one more link (|cs| <= fuel). */
  function FitIn(s: FsState, cs: seq<nat>, fuel: nat): Fit
    requires Shaped(s) && 0 < |cs| && forall m :: 0 <= m < |cs| ==> cs[m] < MaxInodes
  {
    var m := FirstOpen(s, cs);
    if m.Some? then
      if AllDirectories(s, cs, m.value + 1)
      then InSlot(cs[m.value], FirstOpenSlot(s, cs[m.value], FirstAddSlot).value)
      else Blocked
    else if |cs| <= fuel && AllDirectories(s, cs, |cs|) then AfterLast(cs[|cs| - 1])
    else Blocked
  }

  /** A full directory in front of cs changes nothing about where the entry goes. */
  lemma FitInCons(s: FsState, c: nat, rest: seq<nat>, fuel: nat)
    requires Shaped(s) && c < MaxInodes && 0 < |rest| && forall m :: 0 <= m < |rest| ==> rest[m] < MaxInodes
    requires s.inodes[c].kind == Directory && FirstOpenSlot(s, c, FirstAddSlot).None?
    ensures FitIn(s, [c] + rest, fuel + 1) == FitIn(s, rest, fuel)
  {
    var cs := [c] + rest;
    FirstOpenCons(s, c, rest);
    var m := FirstOpen(s, rest);
    if m.Some? {
      AllDirectoriesCons(s, c, rest, m.value + 1);
      assert cs[m.value + 1] == rest[m.value];
    } else {
      AllDirectoriesCons(s, c, rest, |rest|);
      assert cs[|cs| - 1] == rest[|rest| - 1];
    }
  }

  /** A full inode in front of cs shifts the first open one by one place. */
  lemma FirstOpenCons(s: FsState, c: nat, rest: seq<nat>)
    requires Shaped(s) && c < MaxInodes && forall m :: 0 <= m < |rest| ==> rest[m] < MaxInodes
    requires FirstOpenSlot(s, c, FirstAddSlot).None?
    ensures var m := FirstOpen(s, rest);
      FirstOpen(s, [c] + rest) == if m.Some? then Some(m.value + 1) else None
  {
    assert ([c] + rest)[1..] == rest;
  }

  /** A directory in front of cs adds nothing to whether the first n of cs are directories. */
  lemma AllDirectoriesCons(s: FsState, c: nat, rest: seq<nat>, n: nat)
    requires Shaped(s) && c < MaxInodes && n <= |rest| && forall m :: 0 <= m < |rest| ==> rest[m] < MaxInodes
    requires s.inodes[c].kind == Directory
    ensures AllDirectories(s, [c] + rest, n + 1) == AllDirectories(s, rest, n)
  {
    var cs := [c] + rest;
    if AllDirectories(s, rest, n) {
      forall i | 0 <= i < n + 1
        ensures s.inodes[cs[i]].kind == Directory
      {
        if i > 0 {
          assert cs[i] == rest[i - 1];
        }
      }
    }
    if AllDirectories(s, cs, n + 1) {
      forall i | 0 <= i < n
        ensures s.inodes[rest[i]].kind == Directory
      {
        assert cs[i + 1] == rest[i];
      }
    }
  }

  /** Where the insertion goes along the chain from cur. */
  function FitOf(s: FsState, cur: nat, fuel: nat): Fit
    requires Shaped(s) && cur < MaxInodes
  {
    FitIn(s, ChainOf(s, cur, fuel), fuel)
  }

  /** t is s after the insertion went where fit says. */
  predicate FitsAt(s: FsState, t: FsState, fit: Fit, name: seq<byte>, index: uint32, now: int)
    requires Shaped(s) && Shaped(t)
  {
    match fit
    case InSlot(c, k) => c < MaxInodes && k < BlocksPerInode && PlacedAt(s, t, c, k, name, index, now)
    case AfterLast(last) => last < MaxInodes && Extended(s, t, last, name, index, now)
    case Blocked => false
  }

  /** t is s after a first-fit insertion along the chain from cur. */
  predicate AddedFirstFit(s: FsState, cur: nat, fuel: nat, t: FsState, name: seq<byte>, index: uint32, now: int)
    requires Shaped(s) && Shaped(t) && cur < MaxInodes
  {
    FitsAt(s, t, FitOf(s, cur, fuel), name, index, now)
  }

  /** A directory with an open slot takes the entry itself. */
  lemma FitHere(s: FsState, cur: nat, fuel: nat)
    requires Shaped(s) && cur < MaxInodes && s.inodes[cur].kind == Directory
    requires FirstOpenSlot(s, cur, FirstAddSlot).Some?
    ensures FitOf(s, cur, fuel) == InSlot(cur, FirstOpenSlot(s, cur, FirstAddSlot).value)
  {
    assert FirstOpen(s, ChainOf(s, cur, fuel)) == Some(0);
  }

  /** A full directory passes the insertion on to its next_inode. */
  lemma FitFurther(s: FsState, cur: nat, next: nat, fuel: nat)
    requires Shaped(s) && cur < MaxInodes && s.inodes[cur].kind == Directory
    requires FirstOpenSlot(s, cur, FirstAddSlot).None?
    requires s.inodes[cur].nextInode as nat == next && 0 < next < MaxInodes && fuel > 0
    ensures FitOf(s, cur, fuel) == FitOf(s, next, fuel - 1)
  {
    assert ChainOf(s, cur, fuel) == [cur] + ChainOf(s, next, fuel - 1);
    FitInCons(s, cur, ChainOf(s, next, fuel - 1), fuel - 1);
  }

  /** A full directory that ends its chain has the chain extended after it. */
  lemma FitAtEnd(s: FsState, cur: nat, fuel: nat)
    requires Shaped(s) && cur < MaxInodes && s.inodes[cur].kind == Directory
    requires FirstOpenSlot(s, cur, FirstAddSlot).None?
    requires s.inodes[cur].nextInode == 0 && fuel > 0
    ensures FitOf(s, cur, fuel) == AfterLast(cur)
  {
    assert ChainOf(s, cur, fuel) == [cur];
  }

  /** The inode extending the chain takes the entry in its empty slot 2. */
  lemma FitInExtension(s: FsState, cur: nat, fuel: nat)
    requires Shaped(s) && cur < MaxInodes && ExtendChain(s, cur).1 == Success
    ensures var v := ExtendChain(s, cur).0; var n := v.inodes[cur].nextInode;
      n < MaxInodes && FitOf(v, n as nat, fuel) == InSlot(n as nat, FirstAddSlot)
  {
    ExtendChainEffect(s, cur);
    var v := ExtendChain(s, cur).0;
    var n := v.inodes[cur].nextInode as nat;
    assert v.inodes[n].blocks[FirstAddSlot] == 0;
    assert FirstOpenSlot(v, n, FirstAddSlot) == Some(FirstAddSlot);
    FitHere(v, n, fuel);
  }

  /** A full directory at the end of its chain: an insertion first-fit in the inode that
      extends the chain (state v, successor n) is first-fit along the chain. */
  lemma FirstFitAtEnd(s: FsState, cur: nat, fuel: nat, v: FsState, n: nat, f: nat, u: FsState,
                      name: seq<byte>, index: uint32, now: int)
    requires Shaped(s) && Shaped(v) && Shaped(u) && cur < MaxInodes && n < MaxInodes && s.inodes[cur].kind == Directory
    requires FirstOpenSlot(s, cur, FirstAddSlot).None? && s.inodes[cur].nextInode == 0 && fuel > 0 && f == fuel - 1
    requires ExtendChain(s, cur) == (v, Success) && v.inodes[cur].nextInode as nat == n
    requires AddedFirstFit(v, n, f, u, name, index, now)
    ensures AddedFirstFit(s, cur, fuel, u, name, index, now)
  {
    FitAtEnd(s, cur, fuel);
    FitInExtension(s, cur, f);
  }

  /** A full directory with a successor: an insertion first-fit along the successor's chain is
      first-fit along cur's. */
  lemma FirstFitFurther(s: FsState, cur: nat, next: nat, fuel: nat, f: nat, u: FsState, name: seq<byte>, index: uint32, now: int)
    requires Shaped(s) && Shaped(u) && cur < MaxInodes && s.inodes[cur].kind == Directory
    requires FirstOpenSlot(s, cur, FirstAddSlot).None?
    requires s.inodes[cur].nextInode as nat == next && 0 < next < MaxInodes && fuel > 0 && f == fuel - 1
    requires AddedFirstFit(s, next, f, u, name, index, now)
    ensures AddedFirstFit(s, cur, fuel, u, name, index, now)
  {
    FitFurther(s, cur, next, f + 1);
    assert FitOf(s, cur, fuel) == FitOf(s, next, f);
  }

  /** The round of the chain loop that moves on to inode next in state t: when the rest of the
      loop is first-fit from there, the whole loop is first-fit from cur. */
  lemma FirstFitMovesOn(s: FsState, cur: nat, name: seq<byte>, index: uint32, now: int, fuel: nat,
                        t: FsState, next: nat, f: nat, u: FsState)
    requires Shaped(s) && Shaped(t) && Shaped(u) && cur < MaxInodes && next < MaxInodes
    requires AddStep(s, cur, name, index, now) == Continue(t, next) && fuel > 0 && f == fuel - 1
    requires AddedFirstFit(t, next, f, u, name, index, now)
    ensures AddedFirstFit(s, cur, fuel, u, name, index, now)
  {
    AddStepMovesOn(s, cur, name, index, now);
    AddInSlotsPlaces(s, cur, name, index, now, FirstAddSlot);
    if s.inodes[cur].nextInode == 0 {
      FirstFitAtEnd(s, cur, fuel, t, next, f, u, name, index, now);
    } else {
      FirstFitFurther(s, cur, next, fuel, f, u, name, index, now);
    }
  }

  /** dirAddEntry's chain loop is first-fit along the chain: when it succeeds, the new state is
      s with the entry placed in the first open slot of the first inode of cur's chain that
      has one, or, when there is none, with the chain extended and the entry in the new inode. */
  lemma {:induction false} AddInChainFirstFit(s: FsState, cur: nat, name: seq<byte>, index: uint32, now: int, fuel: nat)
    requires Shaped(s) && cur < MaxInodes
    requires AddInChain(s, cur, name, index, now, fuel).1 == Success
    ensures AddedFirstFit(s, cur, fuel, AddInChain(s, cur, name, index, now, fuel).0, name, index, now)
    decreases fuel
  {
    if AddStep(s, cur, name, index, now).Finished? {
      AddInChainFinished(s, cur, name, index, now, fuel);
      AddStepPlaced(s, cur, name, index, now);
      AddInSlotsPlaces(s, cur, name, index, now, FirstAddSlot);
      FitHere(s, cur, fuel);
    } else {
      var t, next, f := AddInChainNext(s, cur, name, index, now, fuel);
      AddInChainFirstFit(t, next, name, index, now, f);
      FirstFitMovesOn(s, cur, name, index, now, fuel, t, next, f, AddInChain(t, next, name, index, now, f).0);
    }
  }

  /** A successful dirAddEntry passed its guards and inserted first-fit along dir's chain. */
  lemma AddEntryFirstFit(s: FsState, dir: int, name: seq<byte>, t: InodeType, index: uint32, now: int)
    requires Shaped(s) && AddEntry(s, dir, name, t, index, now).1 == Success
    ensures 0 <= dir < MaxInodes && !FindEntry(s, dir, name, t).Ok?
    ensures AddedFirstFit(s, dir, ChainFuel, AddEntry(s, dir, name, t, index, now).0, name, index, now)
  {
    AddInChainFirstFit(s, dir, name, index, now, ChainFuel);
  }

  // ---------------------------------------------------------------- the entry is in dir's chain

  /** Relinking the last inode of a chain to n, and changing n's own link, puts n on the chain. */
  lemma {:induction false} RelinkedReaches(s: FsState, u: FsState, d: nat, fuel: nat, last: nat, n: nat)
    requires Shaped(s) && Shaped(u) && d < MaxInodes && last < MaxInodes && 0 < n < MaxInodes
    requires var cs := ChainOf(s, d, fuel); cs[|cs| - 1] == last && |cs| <= fuel
    requires s.inodes[last].nextInode == 0 && u.inodes[last].nextInode as nat == n
    requires forall i :: 0 <= i < MaxInodes && i != last && i != n ==> u.inodes[i].nextInode == s.inodes[i].nextInode
    ensures n in ChainOf(u, d, fuel)
    decreases fuel
  {
    if d == n {
      assert ChainOf(u, d, fuel)[0] == n;
    } else if d == last {
      assert ChainOf(u, d, fuel)[1] == n;
    } else {
      var next := s.inodes[d].nextInode as nat;
      assert |ChainOf(s, d, fuel)| > 1;
      assert ChainOf(s, d, fuel) == [d] + ChainOf(s, next, fuel - 1);
      RelinkedReaches(s, u, next, fuel - 1, last, n);
      assert ChainOf(u, d, fuel) == [d] + ChainOf(u, next, fuel - 1);
    }
  }

  /** Some slot 2..11 of some inode of dir's chain names a nonzero block whose entry j holds
      (name, index): a slot dirFindEntry reads. */
  ghost predicate InChain(t: FsState, dir: nat, name: seq<byte>, index: uint32)
    requires Shaped(t) && dir < MaxInodes
  {
    exists c: nat, k: nat, j: nat :: c in ChainOf(t, dir, ChainFuel) && Stored(t, c, k, j, name, index) && t.inodes[c].blocks[k] != 0
  }

  /** A placement on a state whose block 0 is in use stores the entry in a block a slot can
      name. */
  lemma PlacedInNonzero(s: FsState, t: FsState, cur: nat, i: nat, name: seq<byte>, index: uint32, now: int)
    requires Shaped(s) && Shaped(t) && cur < MaxInodes && i < BlocksPerInode
    requires PlacedAt(s, t, cur, i, name, index, now) && ZeroReserved(s)
    ensures t.inodes[cur].blocks[i] != 0
  {
  }

  /** Where the insertion goes lies on the chain: its inode is one of the chain's, and the
      inode it extends is the last of a chain the walk did not cut short. */
  lemma FitOnChain(s: FsState, cur: nat, fuel: nat)
    requires Shaped(s) && cur < MaxInodes
    ensures var cs := ChainOf(s, cur, fuel); var fit := FitOf(s, cur, fuel);
      && (fit.InSlot? ==> fit.c in cs)
      && (fit.AfterLast? ==> fit.last == cs[|cs| - 1] && |cs| <= fuel)
  {
  }

  /** A placement in an inode of dir's chain, on a state whose block 0 is in use, puts the
      entry where dirFindEntry reads. */
  lemma PlacedInChain(s: FsState, u: FsState, dir: nat, c: nat, k: nat, name: seq<byte>, index: uint32, now: int)
    requires Shaped(s) && Shaped(u) && dir < MaxInodes && c < MaxInodes && FirstAddSlot <= k < BlocksPerInode
    requires NoNul(name) && ZeroReserved(s) && PlacedAt(s, u, c, k, name, index, now)
    requires c in ChainOf(s, dir, ChainFuel)
    ensures InChain(u, dir, Truncate(name), index)
  {
    var j := PlacedStores(s, u, c, k, name, index, now);
    PlacedInNonzero(s, u, c, k, name, index, now);
    ChainOfSameLinks(s, u, dir, ChainFuel);
    assert c in ChainOf(u, dir, ChainFuel);
  }

  /** Extending dir's chain after its last inode, on a state whose root inode and block 0 are
      in use, links in a new inode that the chain from dir now reaches, and keeps block 0 in
      use. */
  lemma ExtensionOnChain(s: FsState, dir: nat, last: nat)
    requires Shaped(s) && dir < MaxInodes && last < MaxInodes
    requires ZeroReserved(s) && InodeUsed(s, RootInode)
    requires s.inodes[last].nextInode == 0 && ExtendChain(s, last).1 == Success
    requires var cs := ChainOf(s, dir, ChainFuel); last == cs[|cs| - 1] && |cs| <= ChainFuel
    ensures var v := ExtendChain(s, last).0; var n := v.inodes[last].nextInode;
      n < MaxInodes && ZeroReserved(v) && n as nat in ChainOf(v, dir, ChainFuel)
  {
    var v := ExtendChain(s, last).0;
    ExtendChainEffect(s, last);
    var n := v.inodes[last].nextInode as nat;
    assert n != RootInode;
    RelinkedReaches(s, v, dir, ChainFuel, last, n);
  }

  /** So an insertion that extends dir's chain puts the entry in the new inode, on the chain. */
  lemma ExtendedInChain(s: FsState, u: FsState, dir: nat, last: nat, name: seq<byte>, index: uint32, now: int)
    requires Shaped(s) && Shaped(u) && dir < MaxInodes && last < MaxInodes && NoNul(name)
    requires ZeroReserved(s) && InodeUsed(s, RootInode) && Extended(s, u, last, name, index, now)
    requires var cs := ChainOf(s, dir, ChainFuel); last == cs[|cs| - 1] && |cs| <= ChainFuel
    ensures InChain(u, dir, Truncate(name), index)
  {
    ExtensionOnChain(s, dir, last);
    var v := ExtendChain(s, last).0;
    PlacedInChain(v, u, dir, v.inodes[last].nextInode as nat, FirstAddSlot, name, index, now);
  }

  /** After dirAddEntry succeeds on a state whose root inode and block 0 are in use (as init_fs
      leaves them), the entry, its name cut to 31 bytes, lies in a slot of an inode of dir's
      chain in the new state. */
  lemma AddEntryInChain(s: FsState, dir: int, name: seq<byte>, t: InodeType, index: uint32, now: int)
    requires Shaped(s) && NoNul(name) && AddEntry(s, dir, name, t, index, now).1 == Success
    requires ZeroReserved(s) && InodeUsed(s, RootInode)
    ensures 0 <= dir < MaxInodes && InChain(AddEntry(s, dir, name, t, index, now).0, dir, Truncate(name), index)
  {
    AddEntryFirstFit(s, dir, name, t, index, now);
    var u := AddEntry(s, dir, name, t, index, now).0;
    FitOnChain(s, dir, ChainFuel);
    match FitOf(s, dir, ChainFuel)
    case InSlot(c, k) => PlacedInChain(s, u, dir, c, k, name, index, now);
    case AfterLast(last) => ExtendedInChain(s, u, dir, last, name, index, now);
  }

  // ---------------------------------------------------------------- what dirFindEntry lists

  /** The slot listing of a list that starts with a readable nonzero slot is that block's
      entries followed by the rest's listing; a 0 slot adds nothing. */
  lemma SlotListingCons(t: FsState, slots: seq<uint32>) returns (own: seq<DirListing.Entry>, rest: seq<DirListing.Entry>)
    requires Shaped(t) && 0 < |slots| && DirListing.SlotListing(t, slots).Some?
    ensures DirListing.SlotListing(t, slots[1..]) == Some(rest)
    ensures slots[0] == 0 ==> DirListing.SlotListing(t, slots).value == rest
    ensures slots[0] != 0 ==> slots[0] < t.dataBlocks && own == DirListing.BlockListing(t.disk[slots[0]], 0)
    ensures slots[0] != 0 ==> DirListing.SlotListing(t, slots).value == own + rest
  {
    rest := DirListing.SlotListing(t, slots[1..]).value;
    if slots[0] != 0 {
      own := DirListing.BlockListing(t.disk[slots[0]], 0);
    } else {
      own := [];
    }
  }

  /** The number of entries the nonzero slots before slot k hold. */
  function EntriesBefore(slots: seq<uint32>, k: nat): nat
    requires k <= |slots|
    decreases k
  {
    if k == 0 then 0 else (if slots[0] != 0 then EntriesPerBlock else 0) + EntriesBefore(slots[1..], k - 1)
  }

  /** Entry j of the block in nonzero slot k sits in the slots' listing after the entries of
      the nonzero slots before k. */
  lemma {:induction false} SlotEntryAt(t: FsState, slots: seq<uint32>, k: nat, j: nat)
    requires Shaped(t) && k < |slots| && j < EntriesPerBlock && DirListing.SlotListing(t, slots).Some?
    requires slots[k] != 0 && slots[k] < t.dataBlocks
    ensures var es := DirListing.SlotListing(t, slots).value; var p := EntriesBefore(slots, k) + j;
      p < |es| && es[p] == DirListing.BlockListing(t.disk[slots[k]], 0)[j]
    decreases |slots|
  {
    var own, rest := SlotListingCons(t, slots);
    if k > 0 {
      var tail := slots[1..];
      assert tail[k - 1] == slots[k];
      SlotEntryAt(t, tail, k - 1, j);
    }
  }

  /** A chain that lists and has a successor next lists as cur's own entries followed by the
      successor's chain. */
  lemma ChainListingSplit(t: FsState, cur: nat, next: nat, fuel: nat) returns (own: seq<DirListing.Entry>, rest: seq<DirListing.Entry>)
    requires Shaped(t) && cur < MaxInodes && DirListing.ChainListing(t, cur, fuel).Ok?
    requires t.inodes[cur].nextInode as nat == next && next != 0
    ensures next < MaxInodes && fuel > 0 && DirListing.SlotListing(t, t.inodes[cur].blocks) == Some(own)
    ensures DirListing.ChainListing(t, next, fuel - 1) == Ok(rest)
    ensures DirListing.ChainListing(t, cur, fuel).value == own + rest
  {
    DirListing.ChainListingNext(t, cur, fuel);
    DirListing.ChainListingJoin(t, cur, fuel);
    own, rest := DirListing.SlotListing(t, t.inodes[cur].blocks).value, DirListing.ChainListing(t, next, fuel - 1).value;
  }

  /** c is reached from cur by following at most fuel links. */
  predicate Reaches(s: FsState, cur: nat, fuel: nat, c: nat)
    requires Shaped(s) && cur < MaxInodes
    decreases fuel
  {
    var next := s.inodes[cur].nextInode;
    c == cur || (0 < next < MaxInodes && fuel > 0 && Reaches(s, next as nat, fuel - 1, c))
  }

  /** Every inode of the chain is reached from its head. */
  lemma {:induction false} ChainOfReaches(s: FsState, cur: nat, fuel: nat, c: nat)
    requires Shaped(s) && cur < MaxInodes && c in ChainOf(s, cur, fuel)
    ensures Reaches(s, cur, fuel, c)
    decreases fuel
  {
    var next := s.inodes[cur].nextInode as nat;
    if c != cur {
      ChainOfMember(s, cur, next, fuel, c);
      ChainOfReaches(s, next, fuel - 1, c);
    }
  }

  /** An entry among the own entries oc of an inode c reached on a chain that lists is in the
      chain's listing. */
  lemma {:induction false} ReachedEntryListed(t: FsState, cur: nat, fuel: nat, c: nat, oc: seq<DirListing.Entry>, e: DirListing.Entry)
    requires Shaped(t) && cur < MaxInodes && c < MaxInodes && Reaches(t, cur, fuel, c)
    requires DirListing.ChainListing(t, cur, fuel).Ok?
    requires DirListing.SlotListing(t, t.inodes[c].blocks) == Some(oc) && e in oc
    ensures e in DirListing.ChainListing(t, cur, fuel).value
    decreases fuel
  {
    var next := t.inodes[cur].nextInode as nat;
    if next == 0 {
      ReachedEntryAtEnd(t, cur, fuel, c, oc, e);
    } else {
      var own, rest := ChainListingSplit(t, cur, next, fuel);
      if c == cur {
        InFront(own, rest, e);
      } else {
        ReachedEntryListed(t, next, fuel - 1, c, oc, e);
        InBack(own, rest, e);
      }
    }
  }

  /** At the end of a chain that lists, the chain's listing is its head's own. */
  lemma ReachedEntryAtEnd(t: FsState, cur: nat, fuel: nat, c: nat, oc: seq<DirListing.Entry>, e: DirListing.Entry)
    requires Shaped(t) && cur < MaxInodes && c < MaxInodes && Reaches(t, cur, fuel, c)
    requires DirListing.ChainListing(t, cur, fuel).Ok? && t.inodes[cur].nextInode == 0
    requires DirListing.SlotListing(t, t.inodes[c].blocks) == Some(oc) && e in oc
    ensures e in DirListing.ChainListing(t, cur, fuel).value
  {
  }

  lemma InFront<T>(a: seq<T>, b: seq<T>, x: T)
    requires x in a
    ensures x in a + b
  {
  }

  lemma InBack<T>(a: seq<T>, b: seq<T>, x: T)
    requires x in b
    ensures x in a + b
  {
  }

  /** The own slots of an inode on a readable chain can be read. */
  lemma {:induction false} ChainSlotsReadable(t: FsState, cur: nat, fuel: nat, c: nat)
    requires Shaped(t) && cur < MaxInodes && c < MaxInodes && c in ChainOf(t, cur, fuel)
    requires ChainReadable(t, cur, fuel)
    ensures SlotsReadable(t, t.inodes[c].blocks)
    decreases fuel
  {
    var next := t.inodes[cur].nextInode as nat;
    if c != cur {
      ChainOfMember(t, cur, next, fuel, c);
      ChainSlotsReadable(t, next, fuel - 1, c);
    }
  }

  /** An entry in a slot of an inode of dir's chain is in the listing dirFindEntry searches,
      whenever that listing can be read in full. */
  lemma InChainListed(t: FsState, dir: nat, name: seq<byte>, index: uint32)
    requires Shaped(t) && dir < MaxInodes && InChain(t, dir, name, index)
    requires DirListing.ChainListing(t, dir, ChainFuel).Ok?
    ensures DirListing.Entry(name, index) in DirListing.ChainListing(t, dir, ChainFuel).value
  {
    var c: nat, k: nat, j: nat :| c in ChainOf(t, dir, ChainFuel) && Stored(t, c, k, j, name, index) && t.inodes[c].blocks[k] != 0;
    ChainListingReadable(t, dir, ChainFuel);
    ChainSlotsReadable(t, dir, ChainFuel, c);
    SlotListingReadable(t, t.inodes[c].blocks);
    var b := t.disk[t.inodes[c].blocks[k]];
    SlotEntryAt(t, t.inodes[c].blocks, k, j);
    var oc := DirListing.SlotListing(t, t.inodes[c].blocks).value;
    assert oc[EntriesBefore(t.inodes[c].blocks, k) + j] == DirListing.Entry(name, index);
    ChainOfReaches(t, dir, ChainFuel, c);
    ReachedEntryListed(t, dir, ChainFuel, c, oc, DirListing.Entry(name, index));
  }

  // ---------------------------------------------------------------- dir's listing stays readable

  /** Every nonzero slot names a block of the data region. */
  predicate SlotsReadable(s: FsState, slots: seq<uint32>)
    requires Shaped(s)
  {
    forall i :: 0 <= i < |slots| && slots[i] != 0 ==> slots[i] < s.dataBlocks
  }

  /** The slots list exactly when every nonzero one is inside the data region. */
  lemma {:induction false} SlotListingReadable(s: FsState, slots: seq<uint32>)
    requires Shaped(s)
    ensures DirListing.SlotListing(s, slots).Some? <==> SlotsReadable(s, slots)
    decreases |slots|
  {
    if |slots| > 0 {
      SlotListingReadable(s, slots[1..]);
      assert forall i :: 0 < i < |slots| ==> slots[1..][i - 1] == slots[i];
    }
  }

  /** The chain from cur can be listed to its end: directories with readable slots, linked
      inside the table, ending at next_inode 0 within fuel links. */
  predicate ChainReadable(s: FsState, cur: nat, fuel: nat)
    requires Shaped(s) && cur < MaxInodes
    decreases fuel
  {
    var next := s.inodes[cur].nextInode;
    && s.inodes[cur].kind == Directory && SlotsReadable(s, s.inodes[cur].blocks)
    && (next == 0 || (next < MaxInodes && fuel > 0 && ChainReadable(s, next as nat, fuel - 1)))
  }

  /** dirFindEntry's listing of a chain succeeds exactly on a readable chain. */
  lemma {:induction false} ChainListingReadable(s: FsState, cur: nat, fuel: nat)
    requires Shaped(s) && cur < MaxInodes
    ensures DirListing.ChainListing(s, cur, fuel).Ok? <==> ChainReadable(s, cur, fuel)
    decreases fuel
  {
    SlotListingReadable(s, s.inodes[cur].blocks);
    var next := s.inodes[cur].nextInode as nat;
    if 0 < next < MaxInodes && fuel > 0 {
      ChainListingReadable(s, next, fuel - 1);
    }
  }

  /** The inodes of the chain from cur keep their kind, their link and readable slots. */
  ghost predicate ChainKept(s: FsState, t: FsState, cur: nat, fuel: nat)
    requires Shaped(s) && Shaped(t) && cur < MaxInodes
  {
    forall i :: i in ChainOf(s, cur, fuel) ==>
      && t.inodes[i].kind == s.inodes[i].kind && t.inodes[i].nextInode == s.inodes[i].nextInode
      && SlotsReadable(t, t.inodes[i].blocks)
  }

  /** The head of a kept chain is kept, and so is the rest of the chain. */
  lemma ChainKeptHead(s: FsState, t: FsState, cur: nat, next: nat, fuel: nat)
    requires Shaped(s) && Shaped(t) && cur < MaxInodes && ChainKept(s, t, cur, fuel)
    requires s.inodes[cur].nextInode as nat == next
    ensures t.inodes[cur].kind == s.inodes[cur].kind && t.inodes[cur].nextInode as nat == next
    ensures SlotsReadable(t, t.inodes[cur].blocks)
    ensures 0 < next < MaxInodes && fuel > 0 ==> ChainKept(s, t, next, fuel - 1)
  {
    assert cur in ChainOf(s, cur, fuel);
    if 0 < next < MaxInodes && fuel > 0 {
      assert ChainOf(s, cur, fuel) == [cur] + ChainOf(s, next, fuel - 1);
    }
  }

  /** A readable chain whose inodes are kept stays readable. */
  lemma {:induction false} ReadableKept(s: FsState, t: FsState, cur: nat, fuel: nat)
    requires Shaped(s) && Shaped(t) && cur < MaxInodes && ChainReadable(s, cur, fuel)
    requires ChainKept(s, t, cur, fuel)
    ensures ChainReadable(t, cur, fuel)
    decreases fuel
  {
    var next := s.inodes[cur].nextInode as nat;
    ChainKeptHead(s, t, cur, next, fuel);
    if next != 0 {
      ReadableKept(s, t, next, fuel - 1);
    }
  }

  /** The inodes of the chain from cur other than last keep their kind and link, all of them
      keep readable slots, and last is now linked to n, a directory with readable slots that
      ends the chain. */
  ghost predicate ChainRelinked(s: FsState, t: FsState, cur: nat, fuel: nat, last: nat, n: nat)
    requires Shaped(s) && Shaped(t) && cur < MaxInodes && last < MaxInodes && n < MaxInodes
  {
    && (forall i :: i in ChainOf(s, cur, fuel) ==>
         && t.inodes[i].kind == s.inodes[i].kind && SlotsReadable(t, t.inodes[i].blocks)
         && (i != last ==> t.inodes[i].nextInode == s.inodes[i].nextInode))
    && t.inodes[last].nextInode as nat == n
    && t.inodes[n].kind == Directory && t.inodes[n].nextInode == 0 && SlotsReadable(t, t.inodes[n].blocks)
  }

  /** The head of a relinked chain that is not its last inode is kept, and the rest of the
      chain is relinked. */
  lemma ChainRelinkedHead(s: FsState, t: FsState, cur: nat, next: nat, fuel: nat, last: nat, n: nat)
    requires Shaped(s) && Shaped(t) && cur < MaxInodes && last < MaxInodes && n < MaxInodes
    requires ChainRelinked(s, t, cur, fuel, last, n) && s.inodes[cur].nextInode as nat == next
    requires var cs := ChainOf(s, cur, fuel); cs[|cs| - 1] == last
    ensures t.inodes[cur].kind == s.inodes[cur].kind && SlotsReadable(t, t.inodes[cur].blocks)
    ensures cur != last ==> t.inodes[cur].nextInode as nat == next && 0 < next < MaxInodes && fuel > 0
    ensures cur != last ==> ChainRelinked(s, t, next, fuel - 1, last, n)
    ensures cur != last ==> var cs := ChainOf(s, next, fuel - 1); cs[|cs| - 1] == last
  {
    assert cur in ChainOf(s, cur, fuel);
    if cur != last {
      assert |ChainOf(s, cur, fuel)| > 1;
      assert ChainOf(s, cur, fuel) == [cur] + ChainOf(s, next, fuel - 1);
    }
  }

  /** A readable chain relinked at its last inode to a fresh directory n that ends there stays
      readable, when the walk has a link to spare. */
  lemma {:induction false} ReadableRelinked(s: FsState, t: FsState, cur: nat, fuel: nat, last: nat, n: nat)
    requires Shaped(s) && Shaped(t) && cur < MaxInodes && last < MaxInodes && 0 < n < MaxInodes
    requires ChainReadable(s, cur, fuel) && ChainRelinked(s, t, cur, fuel, last, n)
    requires var cs := ChainOf(s, cur, fuel); cs[|cs| - 1] == last && |cs| <= fuel
    ensures ChainReadable(t, cur, fuel)
    decreases fuel
  {
    var next := s.inodes[cur].nextInode as nat;
    ChainRelinkedHead(s, t, cur, next, fuel, last, n);
    if cur == last {
      assert ChainReadable(t, n, fuel - 1);
    } else {
      ReadableRelinked(s, t, next, fuel - 1, last, n);
    }
  }

  // ---------------------------------------------------------------- dirAddEntry keeps dir listed

  /** Every inode of dir's chain is marked used, as dirAddEntry and init_fs leave them. */
  ghost predicate ChainUsed(s: FsState, dir: nat)
    requires Shaped(s) && dir < MaxInodes
  {
    var cs := ChainOf(s, dir, ChainFuel);
    forall m :: 0 <= m < |cs| ==> InodeUsed(s, cs[m])
  }

  /** A placement in an inode of a readable chain keeps the chain readable. */
  lemma PlacedReadable(s: FsState, u: FsState, dir: nat, c: nat, k: nat, name: seq<byte>, index: uint32, now: int)
    requires Shaped(s) && Shaped(u) && dir < MaxInodes && c < MaxInodes && k < BlocksPerInode
    requires PlacedAt(s, u, c, k, name, index, now) && ChainReadable(s, dir, ChainFuel)
    ensures ChainReadable(u, dir, ChainFuel)
  {
    var cs := ChainOf(s, dir, ChainFuel);
    forall i | i in cs
      ensures u.inodes[i].kind == s.inodes[i].kind && u.inodes[i].nextInode == s.inodes[i].nextInode
      ensures SlotsReadable(u, u.inodes[i].blocks)
    {
      var m :| 0 <= m < |cs| && cs[m] == i;
      ChainSlotsReadable(s, dir, ChainFuel, i);
    }
    assert ChainKept(s, u, dir, ChainFuel);
    ReadableKept(s, u, dir, ChainFuel);
  }

  /** The inode an extension links in is fresh, so not on a chain of used inodes, and comes
      out a directory with readable slots that ends the chain; last only gains the link. */
  lemma ExtendedShape(s: FsState, u: FsState, dir: nat, last: nat, name: seq<byte>, index: uint32, now: int) returns (n: nat)
    requires Shaped(s) && Shaped(u) && dir < MaxInodes && last < MaxInodes
    requires Extended(s, u, last, name, index, now) && InodeUsed(s, RootInode) && ChainUsed(s, dir)
    requires last in ChainOf(s, dir, ChainFuel)
    ensures 0 < n < MaxInodes && n !in ChainOf(s, dir, ChainFuel) && u.dataBlocks == s.dataBlocks
    ensures u.inodes[last] == s.inodes[last].(nextInode := n as uint32)
    ensures u.inodes[n].kind == Directory && u.inodes[n].nextInode == 0 && SlotsReadable(u, u.inodes[n].blocks)
    ensures forall i :: 0 <= i < MaxInodes && i != n && i != last ==> u.inodes[i] == s.inodes[i]
  {
    var v := ExtendChain(s, last).0;
    ExtendChainEffect(s, last);
    n := v.inodes[last].nextInode as nat;
    var cs := ChainOf(s, dir, ChainFuel);
    forall m | 0 <= m < |cs|
      ensures cs[m] != n
    {
      assert InodeUsed(s, cs[m]);
    }
    PlacedInFresh(v, u, n, name, index, now);
  }

  /** A placement in slot 2 of a fresh chained inode, whose blocks[0] is a data block,
      changes only that inode, which keeps ending the chain and has readable slots. */
  lemma PlacedInFresh(v: FsState, u: FsState, n: nat, name: seq<byte>, index: uint32, now: int)
    requires Shaped(v) && Shaped(u) && n < MaxInodes && PlacedAt(v, u, n, FirstAddSlot, name, index, now)
    requires v.inodes[n] == ChainInode(v.inodes[n].blocks[0], 0) && v.inodes[n].blocks[0] < v.dataBlocks
    ensures u.dataBlocks == v.dataBlocks
    ensures u.inodes[n].kind == Directory && u.inodes[n].nextInode == 0 && SlotsReadable(u, u.inodes[n].blocks)
    ensures forall i :: 0 <= i < MaxInodes && i != n ==> u.inodes[i] == v.inodes[i]
  {
    var nb := v.inodes[n].blocks[0];
    var bn := u.inodes[n].blocks[FirstAddSlot];
    assert u.inodes[n].blocks == NoBlocks[0 := nb][FirstAddSlot := bn];
  }

  /** An extension of the last inode of a readable chain of used inodes keeps it readable. */
  lemma ExtendedReadable(s: FsState, u: FsState, dir: nat, last: nat, name: seq<byte>, index: uint32, now: int)
    requires Shaped(s) && Shaped(u) && dir < MaxInodes && last < MaxInodes
    requires Extended(s, u, last, name, index, now) && InodeUsed(s, RootInode) && ChainUsed(s, dir)
    requires ChainReadable(s, dir, ChainFuel)
    requires var cs := ChainOf(s, dir, ChainFuel); last == cs[|cs| - 1] && |cs| <= ChainFuel
    ensures ChainReadable(u, dir, ChainFuel)
  {
    var cs := ChainOf(s, dir, ChainFuel);
    assert last in cs;
    var n := ExtendedShape(s, u, dir, last, name, index, now);
    ExtendedRelinks(s, u, dir, last, n);
    ReadableRelinked(s, u, dir, ChainFuel, last, n);
  }

  /** So the chain from dir is relinked at last to n. */
  lemma ExtendedRelinks(s: FsState, u: FsState, dir: nat, last: nat, n: nat)
    requires Shaped(s) && Shaped(u) && dir < MaxInodes && last < MaxInodes && 0 < n < MaxInodes
    requires ChainReadable(s, dir, ChainFuel) && n !in ChainOf(s, dir, ChainFuel) && u.dataBlocks == s.dataBlocks
    requires u.inodes[last] == s.inodes[last].(nextInode := n as uint32)
    requires u.inodes[n].kind == Directory && u.inodes[n].nextInode == 0 && SlotsReadable(u, u.inodes[n].blocks)
    requires forall i :: 0 <= i < MaxInodes && i != n && i != last ==> u.inodes[i] == s.inodes[i]
    ensures ChainRelinked(s, u, dir, ChainFuel, last, n)
  {
    var cs := ChainOf(s, dir, ChainFuel);
    forall i | i in cs
      ensures u.inodes[i].kind == s.inodes[i].kind && SlotsReadable(u, u.inodes[i].blocks)
      ensures i != last ==> u.inodes[i].nextInode == s.inodes[i].nextInode
    {
      var m :| 0 <= m < |cs| && cs[m] == i;
      ChainSlotsReadable(s, dir, ChainFuel, i);
    }
  }

  /** On a state whose root inode and block 0 are in use, adding to a directory that
      dirFindEntry can list in full, along a chain of used inodes, leaves a directory it can
      still list in full, and the listing now holds the entry under its name cut to 31 bytes. */
  lemma AddEntryListed(s: FsState, dir: nat, name: seq<byte>, t: InodeType, index: uint32, now: int)
    requires Shaped(s) && dir < MaxInodes && NoNul(name) && AddEntry(s, dir, name, t, index, now).1 == Success
    requires ZeroReserved(s) && InodeUsed(s, RootInode) && ChainUsed(s, dir)
    requires DirListing.ChainListing(s, dir, ChainFuel).Ok?
    ensures DirListing.ChainListing(AddEntry(s, dir, name, t, index, now).0, dir, ChainFuel).Ok?
    ensures DirListing.Entry(Truncate(name), index) in DirListing.ChainListing(AddEntry(s, dir, name, t, index, now).0, dir, ChainFuel).value
  {
    var u := AddEntry(s, dir, name, t, index, now).0;
    ChainListingReadable(s, dir, ChainFuel);
    AddEntryReadable(s, dir, name, t, index, now);
    ChainListingReadable(u, dir, ChainFuel);
    AddEntryInChain(s, dir, name, t, index, now);
    InChainListed(u, dir, Truncate(name), index);
  }

  /** The first step of that: the chain from dir stays readable. */
  lemma AddEntryReadable(s: FsState, dir: nat, name: seq<byte>, t: InodeType, index: uint32, now: int)
    requires Shaped(s) && dir < MaxInodes && AddEntry(s, dir, name, t, index, now).1 == Success
    requires InodeUsed(s, RootInode) && ChainUsed(s, dir) && ChainReadable(s, dir, ChainFuel)
    ensures ChainReadable(AddEntry(s, dir, name, t, index, now).0, dir, ChainFuel)
  {
    AddEntryFirstFit(s, dir, name, t, index, now);
    var u := AddEntry(s, dir, name, t, index, now).0;
    FitOnChain(s, dir, ChainFuel);
    match FitOf(s, dir, ChainFuel)
    case InSlot(c, k) => PlacedReadable(s, u, dir, c, k, name, index, now);
    case AfterLast(last) => ExtendedReadable(s, u, dir, last, name, index, now);
  }
}
