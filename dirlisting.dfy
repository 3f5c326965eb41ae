/** The entries of a directory as one flat list in the order dirFindEntry visits them (chain,
    then block slot, then position in the block), and dirFindEntry proved to return the first
    entry of that list that matches. */
module DirListing {
  import opened FsTypes
  import opened DirEntry
  import opened Store
  import opened Directory

  datatype Entry = Entry(name: seq<byte>, index: uint32)

  /** Entries j..13 of a block, free ones included. */
  function BlockListing(b: Block, j: nat): (es: seq<Entry>)
    requires j <= EntriesPerBlock
    ensures |es| == EntriesPerBlock - j
  {
    seq(EntriesPerBlock - j, k requires 0 <= k < EntriesPerBlock - j => Entry(EntryName(b, j + k), EntryIndex(b, j + k)))
  }

  /** The entries of the blocks listed in slots, skipping 0 slots; None when a listed block
      lies outside the data region. */
  function SlotListing(s: FsState, slots: seq<uint32>): (r: Option<seq<Entry>>)
    requires Shaped(s)
    decreases |slots|
  {
    if |slots| == 0 then Some([])
    else if slots[0] == 0 then SlotListing(s, slots[1..])
    else match ReadBlock(s, slots[0])
      case Err(_) => None
      case Ok(b) =>
        match SlotListing(s, slots[1..])
        case None => None
        case Some(rest) => Some(BlockListing(b, 0) + rest)
  }

  /** The entries of the whole chain from cur up to next_inode 0; an error for a chain that
      cannot be walked to its end. */
  function ChainListing(s: FsState, cur: nat, fuel: nat): (r: Result<seq<Entry>>)
    requires Shaped(s) && cur < MaxInodes
    decreases fuel
  {
    if s.inodes[cur].kind != Directory then Err(NotDirectory)
    else match SlotListing(s, s.inodes[cur].blocks)
      case None => Err(IoError)
      case Some(es) =>
        var next := s.inodes[cur].nextInode;
        if next == 0 then Ok(es)
        else if next >= MaxInodes then Err(BadIndex)
        else if fuel == 0 then Err(Diverges)
        else match ChainListing(s, next, fuel - 1)
          case Err(e) => Err(e)
          case Ok(rest) => Ok(es + rest)
  }

  predicate EntryMatches(s: FsState, e: Entry, name: seq<byte>, t: InodeType)
    requires Shaped(s)
  {
    e.name == name && TypeMatches(s, e.index, t)
  }

  /** The position of the first entry of es matching (name, t). */
  function FirstMatch(s: FsState, es: seq<Entry>, name: seq<byte>, t: InodeType): (r: Option<nat>)
    requires Shaped(s)
    ensures r.Some? ==> r.value < |es| && EntryMatches(s, es[r.value], name, t)
    ensures r.Some? ==> forall k :: 0 <= k < r.value ==> !EntryMatches(s, es[k], name, t)
    ensures r.None? ==> forall k :: 0 <= k < |es| ==> !EntryMatches(s, es[k], name, t)
  {
    if |es| == 0 then None
    else if EntryMatches(s, es[0], name, t) then Some(0)
    else match FirstMatch(s, es[1..], name, t)
      case None => None
      case Some(k) => Some(k + 1)
  }

  /** The index carried by the first matching entry. */
  function Lookup(s: FsState, es: seq<Entry>, name: seq<byte>, t: InodeType): Option<nat>
    requires Shaped(s)
  {
    if |es| == 0 then None
    else if EntryMatches(s, es[0], name, t) then Some(es[0].index as nat)
    else Lookup(s, es[1..], name, t)
  }

  /** The lookup gives the index of the entry at the first matching position. */
  lemma {:induction false} LookupIsFirstMatch(s: FsState, es: seq<Entry>, name: seq<byte>, t: InodeType)
    requires Shaped(s)
    ensures Lookup(s, es, name, t) == match FirstMatch(s, es, name, t)
      case None => None
      case Some(k) => Some(es[k].index as nat)
    decreases |es|
  {
    if |es| > 0 && !EntryMatches(s, es[0], name, t) {
      LookupIsFirstMatch(s, es[1..], name, t);
    }
  }

  /** A lookup result as dirFindEntry reports it. */
  function Found(o: Option<nat>): Result<nat> {
    match o
    case Some(x) => Ok(x)
    case None => Err(NotFound)
  }

  /** A match in the first part of a list hides any later one. */
  lemma {:induction false} LookupAppend(s: FsState, a: seq<Entry>, b: seq<Entry>, name: seq<byte>, t: InodeType)
    requires Shaped(s)
    ensures Lookup(s, a + b, name, t) == if Lookup(s, a, name, t).Some? then Lookup(s, a, name, t) else Lookup(s, b, name, t)
    decreases |a|
  {
    if |a| > 0 {
      assert (a + b)[0] == a[0];
      assert (a + b)[1..] == a[1..] + b;
      LookupAppend(s, a[1..], b, name, t);
    } else {
      assert a + b == b;
    }
  }

  lemma {:induction false} FindInBlockIsLookup(s: FsState, b: Block, name: seq<byte>, t: InodeType, j: nat)
    requires Shaped(s) && j <= EntriesPerBlock
    ensures (match FindInBlock(s, b, name, t, j) case None => None case Some(k) => Some(EntryIndex(b, k) as nat))
      == Lookup(s, BlockListing(b, j), name, t)
    decreases EntriesPerBlock - j
  {
    if j < EntriesPerBlock {
      BlockListingTail(b, j);
      FindInBlockIsLookup(s, b, name, t, j + 1);
    }
  }

  /** The entries j..13 of a block are entry j followed by entries j+1..13. */
  lemma BlockListingTail(b: Block, j: nat)
    requires j < EntriesPerBlock
    ensures BlockListing(b, j)[0] == Entry(EntryName(b, j), EntryIndex(b, j))
    ensures BlockListing(b, j)[1..] == BlockListing(b, j + 1)
  {
    var es := BlockListing(b, j);
    var rest := BlockListing(b, j + 1);
    forall k | 0 <= k < |rest|
      ensures es[1..][k] == rest[k]
    {
      assert es[1..][k] == es[k + 1];
    }
  }

  lemma {:induction false} FindInSlotsIsLookup(s: FsState, slots: seq<uint32>, name: seq<byte>, t: InodeType)
    requires Shaped(s) && SlotListing(s, slots).Some?
    ensures FindInSlots(s, slots, name, t) == Ok(Lookup(s, SlotListing(s, slots).value, name, t))
    decreases |slots|
  {
    if |slots| > 0 {
      FindInSlotsIsLookup(s, slots[1..], name, t);
      if slots[0] != 0 {
        var b := ReadBlock(s, slots[0]).value;
        FindInBlockIsLookup(s, b, name, t, 0);
        LookupAppend(s, BlockListing(b, 0), SlotListing(s, slots[1..]).value, name, t);
      }
    }
  }

  lemma {:induction false} FindInChainIsLookup(s: FsState, cur: nat, name: seq<byte>, t: InodeType, fuel: nat)
    requires Shaped(s) && cur < MaxInodes && ChainListing(s, cur, fuel).Ok?
    ensures FindInChain(s, cur, name, t, fuel) == Found(Lookup(s, ChainListing(s, cur, fuel).value, name, t))
    decreases fuel
  {
    var next := s.inodes[cur].nextInode;
    if next == 0 {
      FindAtChainEnd(s, cur, name, t, fuel);
    } else {
      FindInChainStep(s, cur, name, t, fuel);
      var own := Lookup(s, SlotListing(s, s.inodes[cur].blocks).value, name, t);
      if own.None? {
        FindInChainIsLookup(s, next, name, t, fuel - 1);
      }
    }
  }

  lemma FindAtChainEnd(s: FsState, cur: nat, name: seq<byte>, t: InodeType, fuel: nat)
    requires Shaped(s) && cur < MaxInodes && ChainListing(s, cur, fuel).Ok? && s.inodes[cur].nextInode == 0
    ensures FindInChain(s, cur, name, t, fuel) == Found(Lookup(s, ChainListing(s, cur, fuel).value, name, t))
  {
    var ino := s.inodes[cur];
    var es := SlotListing(s, ino.blocks).value;
    FindInSlotsIsLookup(s, ino.blocks, name, t);
    assert ChainListing(s, cur, fuel) == Ok(es);
  }

  /** A chain that lists and has a successor after cur: cur is a directory whose own slots
      list, and the successor's chain lists with one link less. */
  lemma ChainListingNext(s: FsState, cur: nat, fuel: nat)
    requires Shaped(s) && cur < MaxInodes && ChainListing(s, cur, fuel).Ok? && s.inodes[cur].nextInode != 0
    ensures s.inodes[cur].kind == Directory && SlotListing(s, s.inodes[cur].blocks).Some?
    ensures s.inodes[cur].nextInode < MaxInodes && fuel > 0
    ensures ChainListing(s, s.inodes[cur].nextInode, fuel - 1).Ok?
  {
  }

  /** The listing of such a chain is cur's own entries followed by the successor's. */
  lemma ChainListingJoin(s: FsState, cur: nat, fuel: nat)
    requires Shaped(s) && cur < MaxInodes && ChainListing(s, cur, fuel).Ok?
    requires 0 < s.inodes[cur].nextInode < MaxInodes && fuel > 0
    ensures SlotListing(s, s.inodes[cur].blocks).Some? && ChainListing(s, s.inodes[cur].nextInode, fuel - 1).Ok?
    ensures ChainListing(s, cur, fuel).value
      == SlotListing(s, s.inodes[cur].blocks).value + ChainListing(s, s.inodes[cur].nextInode, fuel - 1).value
  {
  }

  /** One step along the chain: a directory's search and lookup are its own when its own
      entries hold a match, and its successor's otherwise. */
  lemma FindInChainStep(s: FsState, cur: nat, name: seq<byte>, t: InodeType, fuel: nat)
    requires Shaped(s) && cur < MaxInodes && ChainListing(s, cur, fuel).Ok? && s.inodes[cur].nextInode != 0
    ensures s.inodes[cur].nextInode < MaxInodes && fuel > 0
    ensures SlotListing(s, s.inodes[cur].blocks).Some? && ChainListing(s, s.inodes[cur].nextInode, fuel - 1).Ok?
    ensures var own := Lookup(s, SlotListing(s, s.inodes[cur].blocks).value, name, t);
      && Lookup(s, ChainListing(s, cur, fuel).value, name, t)
        == (if own.Some? then own else Lookup(s, ChainListing(s, s.inodes[cur].nextInode, fuel - 1).value, name, t))
      && FindInChain(s, cur, name, t, fuel)
        == (if own.Some? then Found(own) else FindInChain(s, s.inodes[cur].nextInode, name, t, fuel - 1))
  {
    ChainListingNext(s, cur, fuel);
    ChainListingJoin(s, cur, fuel);
    FindInSlotsIsLookup(s, s.inodes[cur].blocks, name, t);
    FindInChainNext(s, cur, name, t, fuel);
    var es := SlotListing(s, s.inodes[cur].blocks).value;
    var rest := ChainListing(s, s.inodes[cur].nextInode, fuel - 1).value;
    LookupAppend(s, es, rest, name, t);
  }

  /** dirFindEntry returns the first entry, in chain, block-slot and position order, whose name
      is `name` and whose target has a type accepted by t, and reports NotFound when none of
      the directory's entries matches. */
  lemma FindEntryIsFirstMatch(s: FsState, dir: nat, name: seq<byte>, t: InodeType)
    requires Shaped(s) && dir < MaxInodes && |name| < MaxNameSize
    requires ChainListing(s, dir, ChainFuel).Ok?
    ensures var es := ChainListing(s, dir, ChainFuel).value;
      FindEntry(s, dir, name, t) ==
        match FirstMatch(s, es, name, t)
        case Some(k) => Ok(es[k].index as nat)
        case None => Err(NotFound)
  {
    FindInChainIsLookup(s, dir, name, t, ChainFuel);
    LookupIsFirstMatch(s, ChainListing(s, dir, ChainFuel).value, name, t);
  }
}
