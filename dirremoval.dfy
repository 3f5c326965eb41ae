/** Which entry dirRemoveEntry removes (fs_operations.c:167-231), stated against the list of
    blocks its walk reads: the head's blocks in slot order, then those of each next_inode in
    turn, a next_inode of 0 leading on to the root directory. */
module DirRemoval {
  import opened FsTypes
  import opened DirEntry
  import opened Store
  import opened Directory

  /** Block bn can be read and holds a used entry called name. */
  predicate Holds(s: FsState, bn: uint32, name: seq<byte>)
    requires Shaped(s)
  {
    bn < s.dataBlocks && FirstNamed(s.disk[bn], name, 0).Some?
  }

  /** The blocks the slot loop reads from slots, in order, passing over 0 slots; whole is false
      when the loop stops at a block outside the data region. */
  function SlotWalk(s: FsState, slots: seq<uint32>): (r: (seq<uint32>, bool))
    requires Shaped(s)
    decreases |slots|
  {
    if |slots| == 0 then ([], true)
    else if slots[0] == 0 then SlotWalk(s, slots[1..])
    else if slots[0] >= s.dataBlocks then ([], false)
    else
      var rest := SlotWalk(s, slots[1..]);
      ([slots[0]] + rest.0, rest.1)
  }

  /** The blocks the removal loop reads from inode cur on with fuel links to follow, and the
      error it ends with when none of them holds the name. */
  function RemovalWalk(s: FsState, cur: nat, fuel: nat): (r: (seq<uint32>, Error))
    requires Shaped(s) && cur < MaxInodes
    decreases fuel
  {
    if s.inodes[cur].kind != Directory then ([], NotDirectory)
    else
      var own := SlotWalk(s, s.inodes[cur].blocks);
      var next := s.inodes[cur].nextInode;
      if !own.1 then (own.0, IoError)
      else if next >= MaxInodes then (own.0, BadIndex)
      else if fuel == 0 then (own.0, Diverges)
      else
        var rest := RemovalWalk(s, next as nat, fuel - 1);
        (own.0 + rest.0, rest.1)
  }

  /** The first block of bs that holds a used entry called name. */
  function FirstHolding(s: FsState, bs: seq<uint32>, name: seq<byte>): (r: Option<uint32>)
    requires Shaped(s)
    ensures r.Some? ==> r.value in bs && Holds(s, r.value, name)
    ensures r.None? ==> forall m :: 0 <= m < |bs| ==> !Holds(s, bs[m], name)
    decreases |bs|
  {
    if |bs| == 0 then None
    else if Holds(s, bs[0], name) then Some(bs[0])
    else FirstHolding(s, bs[1..], name)
  }

  /** Removing the first used entry called name from block bn. */
  function RemoveFrom(s: FsState, head: nat, bn: uint32, name: seq<byte>, now: int): (FsState, Outcome)
    requires Shaped(s) && head < MaxInodes && Holds(s, bn, name)
  {
    RemoveAt(s, head, bn, s.disk[bn], FirstNamed(s.disk[bn], name, 0).value, now)
  }

  /** What the walk over bs does: the removal at the first block holding the name, or the
      error e with nothing changed when no block holds it. */
  function RemovalOver(s: FsState, head: nat, bs: seq<uint32>, name: seq<byte>, now: int, e: Error): (FsState, Outcome)
    requires Shaped(s) && head < MaxInodes
  {
    match FirstHolding(s, bs, name)
    case Some(bn) => RemoveFrom(s, head, bn, name, now)
    case None => (s, Failure(e))
  }

  /** The block FirstHolding picks precedes every other block of bs holding the name. */
  lemma {:induction false} FirstHoldingAt(s: FsState, bs: seq<uint32>, name: seq<byte>) returns (p: nat)
    requires Shaped(s) && FirstHolding(s, bs, name).Some?
    ensures p < |bs| && bs[p] == FirstHolding(s, bs, name).value
    ensures forall m :: 0 <= m < p ==> !Holds(s, bs[m], name)
    decreases |bs|
  {
    if Holds(s, bs[0], name) {
      p := 0;
    } else {
      var q := FirstHoldingAt(s, bs[1..], name);
      p := q + 1;
      forall m | 0 <= m < p
        ensures !Holds(s, bs[m], name)
      {
        if m > 0 {
          assert bs[m] == bs[1..][m - 1];
        }
      }
    }
  }

  /** A block holding the name in front hides any later one. */
  lemma {:induction false} FirstHoldingAppend(s: FsState, a: seq<uint32>, b: seq<uint32>, name: seq<byte>)
    requires Shaped(s)
    ensures FirstHolding(s, a + b, name) == if FirstHolding(s, a, name).Some? then FirstHolding(s, a, name) else FirstHolding(s, b, name)
    decreases |a|
  {
    if |a| > 0 {
      assert (a + b)[0] == a[0];
      assert (a + b)[1..] == a[1..] + b;
      FirstHoldingAppend(s, a[1..], b, name);
    } else {
      assert a + b == b;
    }
  }

  /** Every block the walk reads is nonzero and inside the data region. */
  lemma {:induction false} SlotWalkReadable(s: FsState, slots: seq<uint32>, m: nat)
    requires Shaped(s) && m < |SlotWalk(s, slots).0|
    ensures 0 < SlotWalk(s, slots).0[m] < s.dataBlocks
    decreases |slots|
  {
    if slots[0] == 0 {
      SlotWalkReadable(s, slots[1..], m);
    } else if m > 0 {
      SlotWalkReadable(s, slots[1..], m - 1);
    }
  }

  /** The slot loop removes at the first block of its walk that holds the name; it reports
      nothing, with nothing changed, when the walk is whole and no block holds it, and fails
      with IoError, with nothing changed, at an unreadable block before any that holds it. */
  lemma {:induction false} RemoveInSlotsWalk(s: FsState, head: nat, slots: seq<uint32>, name: seq<byte>, now: int)
    requires Shaped(s) && head < MaxInodes
    ensures var w := SlotWalk(s, slots);
      var r := RemoveInSlots(s, head, slots, name, now);
      match FirstHolding(s, w.0, name)
      case Some(bn) => r == (RemoveFrom(s, head, bn, name, now).0, Some(RemoveFrom(s, head, bn, name, now).1))
      case None => r == if w.1 then (s, None) else (s, Some(Failure(IoError)))
    decreases |slots|
  {
    if |slots| > 0 && slots[0] != 0 && slots[0] < s.dataBlocks {
      var rest := SlotWalk(s, slots[1..]);
      assert SlotWalk(s, slots).0 == [slots[0]] + rest.0;
      FirstHoldingAppend(s, [slots[0]], rest.0, name);
      if !Holds(s, slots[0], name) {
        RemoveInSlotsWalk(s, head, slots[1..], name, now);
      }
    } else if |slots| > 0 && slots[0] == 0 {
      RemoveInSlotsWalk(s, head, slots[1..], name, now);
    }
  }

  /** One round of the removal loop at a directory whose own blocks hold the name, or whose
      walk stops there, finishes with what the walk over its own blocks gives. */
  lemma RemoveStepOwn(s: FsState, head: nat, cur: nat, name: seq<byte>, now: int)
    requires Shaped(s) && head < MaxInodes && cur < MaxInodes && s.inodes[cur].kind == Directory
    ensures var own := SlotWalk(s, s.inodes[cur].blocks);
      FirstHolding(s, own.0, name).Some? || !own.1 || s.inodes[cur].nextInode >= MaxInodes ==>
        RemoveStep(s, head, cur, name, now).Finished?
        && (RemoveStep(s, head, cur, name, now).state, RemoveStep(s, head, cur, name, now).outcome)
           == RemovalOver(s, head, own.0, name, now, if !own.1 then IoError else BadIndex)
    ensures var own := SlotWalk(s, s.inodes[cur].blocks);
      FirstHolding(s, own.0, name).None? && own.1 && s.inodes[cur].nextInode < MaxInodes ==>
        RemoveStep(s, head, cur, name, now) == Continue(s, s.inodes[cur].nextInode as nat)
  {
    RemoveInSlotsWalk(s, head, s.inodes[cur].blocks, name, now);
  }

  /** A walk that goes on past cur reads cur's blocks, then those of the walk from next. */
  lemma RemovalWalkNext(s: FsState, cur: nat, next: nat, fuel: nat, f: nat)
    requires Shaped(s) && cur < MaxInodes && s.inodes[cur].kind == Directory
    requires SlotWalk(s, s.inodes[cur].blocks).1 && s.inodes[cur].nextInode as nat == next && next < MaxInodes
    requires fuel > 0 && f == fuel - 1
    ensures RemovalWalk(s, cur, fuel).0 == SlotWalk(s, s.inodes[cur].blocks).0 + RemovalWalk(s, next, f).0
    ensures RemovalWalk(s, cur, fuel).1 == RemovalWalk(s, next, f).1
  {
  }

  /** The removal loop from cur removes at the first block of its walk that holds the name,
      and when none does it changes nothing and fails with the error the walk ends with. */
  lemma {:induction false} RemoveInChainFirst(s: FsState, head: nat, cur: nat, name: seq<byte>, now: int, fuel: nat)
    requires Shaped(s) && head < MaxInodes && cur < MaxInodes
    ensures var w := RemovalWalk(s, cur, fuel);
      RemoveInChain(s, head, cur, name, now, fuel) == RemovalOver(s, head, w.0, name, now, w.1)
    decreases fuel
  {
    if s.inodes[cur].kind != Directory {
      RemoveInChainFinished(s, head, cur, name, now, fuel);
    } else {
      var own := SlotWalk(s, s.inodes[cur].blocks);
      RemoveStepOwn(s, head, cur, name, now);
      if FirstHolding(s, own.0, name).Some? || !own.1 || s.inodes[cur].nextInode >= MaxInodes {
        RemoveInChainFinished(s, head, cur, name, now, fuel);
        if FirstHolding(s, own.0, name).Some? && own.1 && s.inodes[cur].nextInode < MaxInodes && fuel > 0 {
          var next := s.inodes[cur].nextInode as nat;
          RemovalWalkNext(s, cur, next, fuel, fuel - 1);
          FirstHoldingAppend(s, own.0, RemovalWalk(s, next, fuel - 1).0, name);
        }
      } else {
        var t, next, f := RemoveInChainNext(s, head, cur, name, now, fuel);
        if fuel > 0 {
          RemoveInChainFirst(s, head, next, name, now, f);
          RemovalWalkNext(s, cur, next, fuel, f);
          FirstHoldingAppend(s, own.0, RemovalWalk(s, next, f).0, name);
        }
      }
    }
  }

  /** r is what dirRemoveEntry on dir yields when it removes: the first used entry called name
      of the first block of the walk from dir that holds one. */
  ghost predicate RemovedFirst(s: FsState, dir: nat, name: seq<byte>, now: int, r: (FsState, Outcome))
    requires Shaped(s) && dir < MaxInodes
  {
    var bs := RemovalWalk(s, dir, RemoveFuel).0;
    FirstHolding(s, bs, name).Some? && r == RemoveFrom(s, dir, FirstHolding(s, bs, name).value, name, now)
  }

  /** dirRemoveEntry removes the first used entry called name, in chain, slot and entry order,
      whatever the type of its target; when the walk finds none it changes nothing and reports
      the error the walk ended with. */
  lemma RemoveEntryFirst(s: FsState, dir: nat, name: seq<byte>, now: int)
    requires Shaped(s) && dir < MaxInodes
    ensures var w := RemovalWalk(s, dir, RemoveFuel);
      RemoveEntry(s, dir, name, now) == RemovalOver(s, dir, w.0, name, now, w.1)
    ensures RemoveEntry(s, dir, name, now).1 == Success ==> RemovedFirst(s, dir, name, now, RemoveEntry(s, dir, name, now))
  {
    RemoveInChainFirst(s, dir, dir, name, now, RemoveFuel);
  }
}
