/** Who owns which store along a chain of execution frames. */
module FrameOwnership {
  import opened Options
  import opened FramePolicy

  type StoreId = nat
  type FrameId = nat

  /** A frame's record. saved is the parent's positional parameters while a dot
      script replaces them. */
  datatype Frame = Frame(
    kind: Kind, parent: Option<FrameId>, res: map<Slot, StoreId>, saved: Option<StoreId>,
    loopDepth: nat, exitStatus: int, bgPid: int, inTrap: bool)

  /** The frame has to free what this slot points to. */
  predicate Owns(f: Frame, s: Slot) {
    s in f.res && (ScopeOf(f.kind, s) != Share || (s == Positional && f.saved.Some?))
  }

  /** A store belongs to a slot of the frame at an index, or (index -1) to a
      slot of the executor that no frame has taken over yet. */
  datatype Owner = Owner(index: int, slot: Slot)

  type Owners = map<StoreId, Owner>

  predicate OwnedBy(id: StoreId, o: Owner, fs: seq<Frame>, pre: map<Slot, StoreId>) {
    if o.index == -1 then o.slot in pre && pre[o.slot] == id
    else 0 <= o.index < |fs| && Owns(fs[o.index], o.slot) && fs[o.index].res[o.slot] == id
  }

  ghost predicate Recorded(owner: Owners, fs: seq<Frame>, i: nat, s: Slot)
    requires i < |fs|
  {
    Owns(fs[i], s) ==> fs[i].res[s] in owner && owner[fs[i].res[s]] == Owner(i, s)
  }

  /** Every owning slot is the recorded owner of its store, and every record is
      true: no store has two owners. */
  ghost predicate OwnersOk(owner: Owners, fs: seq<Frame>, pre: map<Slot, StoreId>) {
    && (forall i, s :: 0 <= i < |fs| ==> Recorded(owner, fs, i, s))
    && (forall s :: s in pre ==> pre[s] in owner && owner[pre[s]] == Owner(-1, s))
    && (forall id :: id in owner ==> OwnedBy(id, owner[id], fs, pre))
  }

  /** A slot that is not owned is the parent's. */
  ghost predicate LinkedAt(fs: seq<Frame>, i: nat, s: Slot)
    requires i < |fs|
  {
    && (s in fs[i].res <==> HasSlot(fs[i].kind, s))
    && (s in fs[i].res && !Owns(fs[i], s) ==> i > 0 && s in fs[i-1].res && fs[i].res[s] == fs[i-1].res[s])
  }

  ghost predicate FrameAt(fs: seq<Frame>, i: nat)
    requires i < |fs|
  {
    && (i == 0 ==> fs[i].kind == TopLevel)
    && (fs[i].saved.Some? ==>
          && PolicyOf(fs[i].kind).canOverride
          && i > 0 && Positional in fs[i-1].res && fs[i].saved.value == fs[i-1].res[Positional])
    && fs[i].loopDepth == (if i > 0 then fs[i-1].loopDepth else 0) + (if PolicyOf(fs[i].kind).isLoop then 1 else 0)
  }

  ghost predicate Chain(fs: seq<Frame>) {
    && (forall i :: 0 <= i < |fs| ==> FrameAt(fs, i))
    && (forall i, s :: 0 <= i < |fs| ==> LinkedAt(fs, i, s))
  }

  // ------------------------------------------------------ what it means

  /** The nearest frame at or above i that owns slot s. */
  ghost function OwnerIndex(fs: seq<Frame>, i: nat, s: Slot): (o: nat)
    requires i < |fs|
    ensures o <= i
  {
    if Owns(fs[i], s) || i == 0 then i else OwnerIndex(fs, i - 1, s)
  }

  lemma {:induction false} SlotIsOwners(fs: seq<Frame>, i: nat, s: Slot)
    requires Chain(fs) && i < |fs| && s in fs[i].res
    ensures var o := OwnerIndex(fs, i, s);
            Owns(fs[o], s) && fs[o].res[s] == fs[i].res[s]
    ensures forall j :: OwnerIndex(fs, i, s) < j <= i ==> !Owns(fs[j], s)
    decreases i
  {
    assert LinkedAt(fs, i, s);
    if Owns(fs[i], s) {
    } else {
      SlotIsOwners(fs, i - 1, s);
    }
  }

  /** Every slot of every frame is live, and two slots are the same store
      exactly when they are the same resource with the same owner. */
  lemma AliasedExactlyWhenShared(owner: Owners, fs: seq<Frame>, pre: map<Slot, StoreId>, i: nat, s: Slot, j: nat,
                                 t: Slot)
    requires OwnersOk(owner, fs, pre) && Chain(fs)
    requires i < |fs| && s in fs[i].res && j < |fs| && t in fs[j].res
    ensures fs[i].res[s] in owner
    ensures fs[i].res[s] == fs[j].res[t] <==> s == t && OwnerIndex(fs, i, s) == OwnerIndex(fs, j, t)
  {
    SlotIsOwners(fs, i, s);
    SlotIsOwners(fs, j, t);
    assert Recorded(owner, fs, OwnerIndex(fs, i, s), s);
    assert Recorded(owner, fs, OwnerIndex(fs, j, t), t);
  }

  function LoopsIn(fs: seq<Frame>): nat {
    if fs == [] then 0
    else LoopsIn(fs[..|fs|-1]) + (if PolicyOf(fs[|fs|-1].kind).isLoop then 1 else 0)
  }

  /** loop_depth is the number of loop frames on the chain. */
  lemma {:induction false} LoopDepthCounts(fs: seq<Frame>, i: nat)
    requires Chain(fs) && i < |fs|
    ensures fs[i].loopDepth == LoopsIn(fs[..i+1])
    decreases i
  {
    assert FrameAt(fs, i);
    assert fs[..i+1][..i] == fs[..i];
    if i == 0 {
    } else {
      LoopDepthCounts(fs, i - 1);
    }
  }

  // --------------------------------------------- one slot filled or emptied

  /** The last frame gets a store of its own for slot s. */
  lemma FillOwned(owner: Owners, fs: seq<Frame>, pre: map<Slot, StoreId>, g: Frame, s: Slot, id: StoreId, g': Frame)
    requires OwnersOk(owner, fs + [g], pre) && s !in g.res && id !in owner
    requires g'.kind == g.kind && g'.res == g.res[s := id] && Owns(g', s)
    requires forall t :: t in g.res ==> (Owns(g', t) <==> Owns(g, t))
    ensures OwnersOk(owner[id := Owner(|fs|, s)], fs + [g'], pre)
  {
    var n, was, now, owner' := |fs|, fs + [g], fs + [g'], owner[id := Owner(|fs|, s)];
    forall i, t | 0 <= i < |now| ensures Recorded(owner', now, i, t) {
      assert Recorded(owner, was, i, t);
      assert i < n ==> now[i] == was[i];
    }
    forall k | k in owner' ensures OwnedBy(k, owner'[k], now, pre) {
      if k != id {
        assert OwnedBy(k, owner[k], was, pre);
      }
    }
  }

  /** The last frame gets its parent's store for slot s. */
  lemma FillShared(owner: Owners, fs: seq<Frame>, pre: map<Slot, StoreId>, g: Frame, s: Slot, id: StoreId)
    requires OwnersOk(owner, fs + [g], pre) && s !in g.res
    requires ScopeOf(g.kind, s) == Share && (s != Positional || g.saved.None?)
    ensures OwnersOk(owner, fs + [g.(res := g.res[s := id])], pre)
  {
    var n, was, now := |fs|, fs + [g], fs + [g.(res := g.res[s := id])];
    forall i, t | 0 <= i < |now| ensures Recorded(owner, now, i, t) {
      assert Recorded(owner, was, i, t);
      assert i < n ==> now[i] == was[i];
    }
    forall k | k in owner ensures OwnedBy(k, owner[k], now, pre) {
      assert OwnedBy(k, owner[k], was, pre);
    }
  }

  /** The last frame gives up the store of slot s. */
  lemma Empty(owner: Owners, fs: seq<Frame>, pre: map<Slot, StoreId>, g: Frame, s: Slot)
    requires OwnersOk(owner, fs + [g], pre) && Owns(g, s)
    ensures g.res[s] in owner && owner[g.res[s]] == Owner(|fs|, s)
    ensures OwnersOk(owner - {g.res[s]}, fs + [g.(res := g.res - {s})], pre)
  {
    var n, was, now := |fs|, fs + [g], fs + [g.(res := g.res - {s})];
    var id, owner' := g.res[s], owner - {g.res[s]};
    assert Recorded(owner, was, n, s);
    forall i, t | 0 <= i < |now| ensures Recorded(owner', now, i, t) {
      assert Recorded(owner, was, i, t);
      assert i < n ==> now[i] == was[i];
    }
    forall k | k in owner' ensures OwnedBy(k, owner'[k], now, pre) {
      assert OwnedBy(k, owner[k], was, pre);
    }
  }

  /** Forgetting a slot that is not owned frees nothing. */
  lemma Forget(owner: Owners, fs: seq<Frame>, pre: map<Slot, StoreId>, g: Frame, s: Slot)
    requires OwnersOk(owner, fs + [g], pre) && !Owns(g, s)
    ensures OwnersOk(owner, fs + [g.(res := g.res - {s})], pre)
  {
    var n, was, now := |fs|, fs + [g], fs + [g.(res := g.res - {s})];
    forall i, t | 0 <= i < |now| ensures Recorded(owner, now, i, t) {
      assert Recorded(owner, was, i, t);
      assert i < n ==> now[i] == was[i];
    }
    forall k | k in owner ensures OwnedBy(k, owner[k], now, pre) {
      assert OwnedBy(k, owner[k], was, pre);
    }
  }

  /** A frame that points to nothing can come and go. */
  lemma BareFrame(owner: Owners, fs: seq<Frame>, pre: map<Slot, StoreId>, g: Frame)
    requires g.res == map[]
    ensures OwnersOk(owner, fs, pre) <==> OwnersOk(owner, fs + [g], pre)
  {
    var more := fs + [g];
    if OwnersOk(owner, fs, pre) {
      forall i, t | 0 <= i < |more| ensures Recorded(owner, more, i, t) {
        assert i < |fs| ==> more[i] == fs[i] && Recorded(owner, fs, i, t);
      }
      forall k | k in owner ensures OwnedBy(k, owner[k], more, pre) {
        assert OwnedBy(k, owner[k], fs, pre);
      }
    }
    if OwnersOk(owner, more, pre) {
      forall i, t | 0 <= i < |fs| ensures Recorded(owner, fs, i, t) {
        assert more[i] == fs[i] && Recorded(owner, more, i, t);
      }
      forall k | k in owner ensures OwnedBy(k, owner[k], fs, pre) {
        assert OwnedBy(k, owner[k], more, pre);
      }
    }
  }

  /** The last frame takes over the executor's store for slot s. */
  lemma TakeOver(owner: Owners, fs: seq<Frame>, pre: map<Slot, StoreId>, g: Frame, s: Slot)
    requires OwnersOk(owner, fs + [g], pre) && s in pre && s !in g.res && ScopeOf(g.kind, s) != Share
    ensures pre[s] in owner
    ensures OwnersOk(owner[pre[s] := Owner(|fs|, s)], fs + [g.(res := g.res[s := pre[s]])], pre - {s})
  {
    var n, was, now := |fs|, fs + [g], fs + [g.(res := g.res[s := pre[s]])];
    var owner', pre' := owner[pre[s] := Owner(n, s)], pre - {s};
    forall i, t | 0 <= i < |now| ensures Recorded(owner', now, i, t) {
      assert Recorded(owner, was, i, t);
      assert i < n ==> now[i] == was[i];
    }
    forall k | k in owner' ensures OwnedBy(k, owner'[k], now, pre') {
      if k != pre[s] {
        assert OwnedBy(k, owner[k], was, pre);
      }
    }
  }
}
