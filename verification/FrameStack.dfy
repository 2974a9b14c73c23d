/** Pushing and popping execution frames (src/exec_frame.c). */
module FrameStack {
  import opened Options
  import opened FramePolicy
  import opened FrameOwnership
  import opened FrameStores

  class Executor {
    var stores: map<StoreId, Content>
    var nextStore: StoreId
    var frames: map<FrameId, Frame>
    var nextFrame: FrameId
    var currentFrame: Option<FrameId>
    var topFrame: Option<FrameId>
    var topFrameInitialized: bool
    /** Stores set up before the first frame exists. */
    var pre: map<Slot, StoreId>
    const make: Making

    ghost var stack: seq<FrameId>
    ghost var fs: seq<Frame>
    ghost var owner: Owners

    ghost predicate Valid()
      reads this
    {
      && FramesOk(frames, stack, fs) && Below(frames, nextFrame)
      && Chain(fs) && StoresOk(fs)
      && currentFrame == Last(stack) && topFrame == First(stack) && topFrameInitialized == (stack != [])
    }

    /** The live stores are exactly the owned ones of the given frames. */
    ghost predicate StoresOk(all: seq<Frame>)
      reads `owner, `pre, `stores, `nextStore
    {
      OwnersOk(owner, all, pre) && stores.Keys == owner.Keys && Below(stores, nextStore)
    }

    constructor (make: Making)
      ensures Valid() && stack == [] && pre == map[] && stores == map[] && this.make == make
    {
      this.make := make;
      stores, nextStore, frames, nextFrame := map[], 0, map[], 0;
      currentFrame, topFrame, topFrameInitialized := None, None, false;
      pre, stack, fs, owner := map[], [], [], map[];
    }

    // ------------------------------------------------------------------ push

    /** A new store for slot s of the frame being built. */
    method Allocate(g: Frame, s: Slot, saved: Option<StoreId>, content: Content) returns (g': Frame)
      requires StoresOk(fs + [g]) && s !in g.res
      requires ScopeOf(g.kind, s) != Share || (s == Positional && saved.Some?)
      requires saved == g.saved || s == Positional
      modifies `stores, `nextStore, `owner
      ensures StoresOk(fs + [g']) && Extends(old(stores), stores)
      ensures nextStore == old(nextStore) + 1
      ensures g' == g.(res := g.res[s := old(nextStore)], saved := saved)
      ensures old(nextStore) !in old(stores) && stores == old(stores)[old(nextStore) := content]
    {
      var id := nextStore;
      g' := g.(res := g.res[s := id], saved := saved);
      FillOwned(owner, fs, pre, g, s, id, g');
      stores := stores[id := content];
      nextStore := nextStore + 1;
      owner := owner[id := Owner(|fs|, s)];
    }

    /** One init function: obtain slot s as the policy says. */
    method InitSlot(g: Frame, s: Slot, p: Option<Frame>, params: Params, ghost before: map<StoreId, Content>)
      returns (g': Frame)
      requires StoresOk(fs + [g]) && s !in g.res && (g.saved.Some? ==> Positional in g.res)
      requires p.Some? ==> Whole(p.value, before)
      requires p.Some? || g.kind == TopLevel
      requires Extends(before, stores)
      modifies `stores, `nextStore, `owner
      ensures StoresOk(fs + [g']) && Extends(before, stores)
      ensures forall k :: k in old(stores) ==> k in stores && stores[k] == old(stores)[k]
      ensures HasSlot(g.kind, s) ==> Obtained(make, before, stores, p, g', s, params)
      ensures g' == g.(res := g'.res, saved := g'.saved)
      ensures g'.saved == if Overrides(g.kind, s, params) && p.Some? then Some(p.value.res[Positional]) else g.saved
      ensures g'.res.Keys == g.res.Keys + (if HasSlot(g.kind, s) then {s} else {})
      ensures forall t :: t in g.res ==> g'.res[t] == g.res[t]
    {
      hide *;
      g' := g;
      NoSlotNoOverride(g.kind, s, params);
      if !HasSlot(g.kind, s) {
        return;
      }
      if p.Some? {
        SharableSlot(p.value, before, g.kind, s, params);
      }
      TopLevelOwns(s, params);
      if GetsOwn(g.kind, s, params) {
        SameStart(make, before, stores, p, g.kind, s, params);
        var saved := if Overrides(g.kind, s, params) && p.Some? then Some(p.value.res[Positional]) else g.saved;
        g' := Allocate(g, s, saved, StartContent(make, stores, p, g.kind, s, params));
        ObtainedOwn(make, before, old(stores), stores, p, g', s, params);
      } else {
        var id := p.value.res[s];
        NotOwn(g.kind, s, params);
        g' := g.(res := g.res[s := id]);
        ShareStores(g, s, id);
        ObtainedShare(make, before, stores, p, g', s, params);
      }
    }

    // The invariant's parts, and putting them back together.

    lemma Parts()
      requires Valid()
      ensures FramesOk(frames, stack, fs) && Below(frames, nextFrame) && Chain(fs) && StoresOk(fs)
      ensures currentFrame == Last(stack) && topFrame == First(stack) && topFrameInitialized == (stack != [])
      ensures |stack| == |fs|
    {
    }

    lemma Together()
      requires FramesOk(frames, stack, fs) && Below(frames, nextFrame) && Chain(fs) && StoresOk(fs)
      requires currentFrame == Last(stack) && topFrame == First(stack) && topFrameInitialized == (stack != [])
      ensures Valid()
    {
    }

    lemma BareStores(all: seq<Frame>, g: Frame)
      requires g.res == map[]
      ensures StoresOk(all) <==> StoresOk(all + [g])
    {
      BareFrame(owner, all, pre, g);
    }

    /** The frame a parent pointer leads to. */
    lemma ParentRecord(parent: Option<FrameId>)
      requires FramesOk(frames, stack, fs) && Chain(fs) && StoresOk(fs) && parent == Last(stack)
      ensures parent.Some? ==> parent.value in frames
      ensures LastFrame(fs) == if parent.Some? then Some(frames[parent.value]) else None
      ensures LastFrame(fs).Some? ==> Whole(LastFrame(fs).value, stores) && Positional in LastFrame(fs).value.res
      ensures fs == [] <==> parent.None?
      ensures fs != [] ==> LastFrame(fs) == Some(fs[|fs|-1])
    {
      hide Chain, StoresOk, Whole;
      if fs != [] {
        var n := |fs| - 1;
        assert Chained(frames, stack, fs, n);
        WholeAt(n);
      }
    }

    lemma WholeAt(i: nat)
      requires Chain(fs) && StoresOk(fs) && i < |fs|
      ensures Whole(fs[i], stores) && Positional in fs[i].res
    {
      assert HasSlot(fs[i].kind, Positional);
      forall s ensures s in fs[i].res <==> HasSlot(fs[i].kind, s) {
        assert LinkedAt(fs, i, s);
      }
      forall s | s in fs[i].res ensures fs[i].res[s] in stores {
        SlotIsLive(owner, fs, pre, i, s);
      }
    }

    /** Run the init functions in order for a frame below p. */
    method BuildFrame(p: Option<Frame>, parent: Option<FrameId>, kind: Kind, params: Params)
      returns (g: Frame, ghost filled: map<StoreId, Content>)
      requires StoresOk(fs) && (p.Some? || kind == TopLevel)
      requires p.Some? ==> Whole(p.value, stores) && Positional in p.value.res
      modifies `stores, `nextStore, `owner
      ensures StoresOk(fs + [g]) && Extends(old(stores), filled) && stores == WithArg0(make, filled, g, params)
      ensures Filled(make, old(stores), filled, p, g, params, |SLOT_ORDER|)
      ensures g == NewFrame(p, parent, kind).(res := g.res, saved := g.saved)
    {
      hide *;
      g := NewFrame(p, parent, kind);
      ghost var before := stores;
      BareStores(fs, g);
      FilledStart(make, before, p, g, params);
      for k := 0 to |SLOT_ORDER|
        invariant StoresOk(fs + [g]) && Filled(make, before, stores, p, g, params, k)
        invariant g == NewFrame(p, parent, kind).(res := g.res, saved := g.saved)
        modifies `stores, `nextStore, `owner
      {
        ghost var was, g0 := stores, g;
        FilledFacts(make, before, stores, p, g, params, k);
        g := InitSlot(g, SLOT_ORDER[k], p, params, before);
        FilledStep(make, before, was, stores, p, g0, g, params, k);
      }
      filled := stores;
      FilledDone(make, before, stores, p, g, params);
      SetArg0(g, params);
    }

    /** Enter a frame of the given kind below the current one. filled is what
        the stores hold before a dot script's path becomes $0. */
    method Push(parent: Option<FrameId>, kind: Kind, params: Params)
      returns (id: FrameId, ghost filled: map<StoreId, Content>)
      requires Valid() && parent == currentFrame && (parent.Some? || kind == TopLevel)
      modifies this
      ensures Valid() && pre == old(pre)
      ensures id !in old(frames) && currentFrame == Some(id) && stack == old(stack) + [id]
      ensures |fs| == |old(fs)| + 1 && fs[..|old(fs)|] == old(fs)
      ensures Entered(fs[|old(fs)|], LastFrame(old(fs)), parent, kind)
      ensures var g, above := fs[|old(fs)|], LastFrame(old(fs));
              && g.exitStatus == (if above.Some? then above.value.exitStatus else 0)
              && g.bgPid == (if above.Some? then above.value.bgPid else 0)
              && g.loopDepth == (if above.Some? then above.value.loopDepth else 0) + (if kind == Loop then 1 else 0)
              && g.inTrap == (kind == Trap)
      ensures fs[|old(fs)|].saved.Some? ==> Overrides(kind, Positional, params)
      ensures forall s :: HasSlot(kind, s) ==>
        Obtained(make, old(stores), filled, LastFrame(old(fs)), fs[|old(fs)|], s, params)
      ensures Extends(old(stores), filled) && stores == WithArg0(make, filled, fs[|old(fs)|], params)
      ensures Seen(LastFrame(fs), stores) == Entering(make, Seen(LastFrame(old(fs)), old(stores)), kind, params)
      ensures Inherits(make, Seen(LastFrame(old(fs)), old(stores)), Seen(LastFrame(fs), stores), kind, params)
    {
      hide *;
      Parts();
      ParentRecord(parent);
      var p := if parent.Some? then Some(frames[parent.value]) else None;
      ghost var before, all := stores, fs;
      var g;
      g, filled := BuildFrame(p, parent, kind, params);
      StillEntered(NewFrame(p, parent, kind), g, p, parent, kind);
      EntersWith(p, parent, kind);
      FilledDone(make, before, filled, p, g, params);
      ChainPush(make, before, filled, all, g, params);
      id := nextFrame;
      LinkFrame(g);
      PushSees(before, filled, all, g, params);
    }

    /** What the frame just linked sees. */
    lemma PushSees(before: map<StoreId, Content>, filled: map<StoreId, Content>, all: seq<Frame>, g: Frame,
                   params: Params)
      requires Valid() && fs == all + [g] && Extends(before, filled)
      requires LastFrame(all).Some? ==> Whole(LastFrame(all).value, before)
      requires forall s :: HasSlot(g.kind, s) ==> Obtained(make, before, filled, LastFrame(all), g, s, params)
      requires stores == WithArg0(make, filled, g, params)
      ensures Seen(LastFrame(fs), stores) == Entering(make, Seen(LastFrame(all), before), g.kind, params)
      ensures Inherits(make, Seen(LastFrame(all), before), Seen(LastFrame(fs), stores), g.kind, params)
    {
      hide *;
      Facts();
      LastFacts();
      LastOfAll(all, g);
      SlotsOf(|all|);
      IsEnteredBelow(make, before, filled, LastFrame(all), g, params);
      EnterSees(make, before, filled, LastFrame(all), g, params);
      EnteringInherits(make, Seen(LastFrame(all), before), g.kind, params);
    }

    /** Make the finished frame the current one. */
    method LinkFrame(g: Frame)
      requires FramesOk(frames, stack, fs) && Below(frames, nextFrame) && Chain(fs + [g]) && StoresOk(fs + [g])
      requires g.parent == currentFrame == Last(stack) && topFrame == First(stack)
               && topFrameInitialized == (stack != [])
      modifies `frames, `nextFrame, `stack, `fs, `currentFrame, `topFrame, `topFrameInitialized
      ensures Valid()
      ensures old(nextFrame) !in old(frames) && currentFrame == Some(old(nextFrame))
              && stack == old(stack) + [old(nextFrame)]
      ensures fs == old(fs) + [g] && frames == old(frames)[old(nextFrame) := g]
    {
      hide Chain, OwnersOk, FramesOk, StoresOk;
      var id := nextFrame;
      FramesPush(frames, stack, fs, id, g);
      frames := frames[id := g];
      nextFrame := nextFrame + 1;
      stack := stack + [id];
      fs := fs + [g];
      currentFrame := Some(id);
      if g.parent.None? {
        topFrame := Some(id);
        topFrameInitialized := true;
      }
    }

    // ------------------------------------------------------------------- pop

    /** Frees a store the last frame owns; freeing a dead store would not verify. */
    method Free(ghost all: seq<Frame>, g: Frame, s: Slot) returns (g': Frame)
      requires StoresOk(all + [g]) && Owns(g, s)
      modifies `stores, `owner
      ensures StoresOk(all + [g']) && g' == g.(res := g.res - {s})
      ensures g.res[s] in old(stores) && stores == old(stores) - {g.res[s]}
      ensures owner == old(owner) - {g.res[s]}
      ensures g.res[s] in old(owner) && old(owner)[g.res[s]].index == |all|
    {
      Empty(owner, all, pre, g, s);
      g' := g.(res := g.res - {s});
      stores := stores - {g.res[s]};
      owner := owner - {g.res[s]};
    }

    /** cleanup_frame_resources: free what the frame owns, forget the rest. */
    method Cleanup(ghost all: seq<Frame>, frame: Frame)
      requires StoresOk(all + [frame]) && forall s :: s in frame.res ==> HasSlot(frame.kind, s)
      modifies `stores, `owner
      ensures StoresOk(all)
      ensures stores == old(stores) - FreedWith(old(owner), |all|)
    {
      hide OwnersOk, Owns, StoresOk;
      var g := frame;
      ghost var owner0, before, freed: set<StoreId> := owner, stores, {};
      for k := 0 to |SLOT_ORDER|
        invariant StoresOk(all + [g]) && stores == before - freed && owner == owner0 - freed
        invariant forall s :: s in g.res ==> Place(s) >= k
        invariant forall id :: id in freed ==> id in owner0 && owner0[id].index == |all|
      {
        var s := SLOT_ORDER[k];
        PlaceIsUnique(k);
        if s in g.res {
          if Owns(g, s) {
            freed := freed + {g.res[s]};
            g := Free(all, g, s);
          } else {
            ForgetStores(all, g, s);
            g := g.(res := g.res - {s});
          }
        }
      }
      assert g.res == map[];
      BareStores(all, g);
      NoneLeft(all, owner0, freed);
    }

    /** Leave the current frame, passed by a pointer of the caller's own. */
    method Pop(id: FrameId) returns (parent: Option<FrameId>)
      requires Valid() && currentFrame == Some(id)
      modifies this
      ensures Valid() && pre == old(pre)
      ensures stack == old(stack)[..|old(stack)|-1] && id !in frames
      ensures parent == currentFrame == Last(stack)
      ensures fs == Popped(old(fs))
      ensures stores == old(stores) - FreedWith(old(owner), |old(fs)| - 1)
    {
      hide *;
      Parts();
      CurrentIs(id);
      var frame := frames[id];
      parent := frame.parent;
      ghost var all := fs;
      if parent.Some? {
        PassStatus(frame, id, parent.value);
      } else {
        LastPopped(fs);
      }
      ghost var n := |fs| - 1;
      ghost var rest := fs[..n];
      LastOff(fs);
      Cleanup(rest, frame);
      Unlink(id, parent);
    }

    lemma LastPopped(all: seq<Frame>)
      requires |all| == 1
      ensures Popped(all) == all[..0]
    {
    }

    lemma LastOff(all: seq<Frame>)
      requires all != []
      ensures all[..|all|-1] + [all[|all|-1]] == all
    {
    }

    lemma CurrentIs(id: FrameId)
      requires FramesOk(frames, stack, fs) && Chain(fs) && currentFrame == Some(id) == Last(stack)
      ensures stack != [] && fs != [] && |stack| == |fs| && id == stack[|stack|-1]
      ensures id in frames && frames[id] == fs[|fs|-1]
      ensures frames[id].parent == Last(stack[..|stack|-1])
      ensures |fs| > 1 ==>
        frames[id].parent == Some(stack[|fs|-2]) && stack[|fs|-2] in frames && frames[stack[|fs|-2]] == fs[|fs|-2]
      ensures |fs| == 1 ==> frames[id].parent == None
      ensures forall s :: s in frames[id].res ==> HasSlot(frames[id].kind, s)
    {
      var n := |fs| - 1;
      assert Chained(frames, stack, fs, n);
      assert n > 0 ==> Chained(frames, stack, fs, n - 1);
      forall s | s in fs[n].res ensures HasSlot(fs[n].kind, s) {
        assert LinkedAt(fs, n, s);
      }
    }

    /** The exit status goes to the parent. */
    method PassStatus(frame: Frame, id: FrameId, parent: FrameId)
      requires FramesOk(frames, stack, fs) && Chain(fs) && StoresOk(fs) && |fs| > 1
      requires frame == fs[|fs|-1] && parent == stack[|fs|-2] && parent in frames && frames[parent] == fs[|fs|-2]
      requires id == stack[|fs|-1] && Below(frames, nextFrame)
      modifies `frames, `fs
      ensures FramesOk(frames, stack, fs) && Chain(fs) && StoresOk(fs) && Below(frames, nextFrame)
      ensures |fs| == |old(fs)| && fs[|fs|-1] == frame && fs[..|fs|-1] == Popped(old(fs))
      ensures id in frames && frames[id] == frame
    {
      hide Chain, OwnersOk;
      ghost var n := |fs| - 1;
      if PolicyOf(frame.kind).affectsParentStatus {
        StatusOnly(frames, stack, fs, owner, pre, n - 1, frame.exitStatus, fs[n - 1].bgPid);
        frames := frames[parent := frames[parent].(exitStatus := frame.exitStatus)];
        fs := fs[n - 1 := fs[n - 1].(exitStatus := frame.exitStatus)];
      }
      assert Chained(frames, stack, fs, n);
    }

    /** Free the frame itself and make its parent current. */
    method Unlink(id: FrameId, parent: Option<FrameId>)
      requires FramesOk(frames, stack, fs) && Chain(fs) && fs != [] && StoresOk(fs[..|fs|-1])
               && Below(frames, nextFrame)
      requires |stack| == |fs| && id == stack[|stack|-1] && parent == Last(stack[..|stack|-1])
      requires topFrame == First(stack) && topFrameInitialized
      modifies `frames, `stack, `fs, `currentFrame, `topFrame, `topFrameInitialized
      ensures Valid() && stack == old(stack)[..|old(stack)|-1] && fs == old(fs)[..|old(fs)|-1]
      ensures currentFrame == parent == Last(stack) && id !in frames
    {
      hide Chain, FramesOk, OwnersOk, StoresOk;
      FramesPop(frames, stack, fs);
      ChainPop(fs);
      frames := frames - {id};
      stack := stack[..|stack|-1];
      fs := fs[..|fs|-1];
      currentFrame := parent;
      if parent.None? {
        topFrame := None;
        topFrameInitialized := false;
      }
    }

    // --------------------------------------------------------- the first frame

    /** A store set up on the executor before its first frame exists. */
    method Preset(s: Slot, content: Content)
      requires Valid() && stack == [] && s in HANDED_OVER && s !in pre
      modifies `stores, `nextStore, `pre, `owner
      ensures Valid() && pre == old(pre)[s := old(nextStore)]
      ensures old(nextStore) !in old(stores) && stores == old(stores)[old(nextStore) := content]
    {
      hide *;
      Parts();
      PresetStore(s, content);
      Together();
    }

    method PresetStore(s: Slot, content: Content)
      requires StoresOk(fs) && fs == [] && s !in pre
      modifies `stores, `nextStore, `pre, `owner
      ensures StoresOk(fs) && pre == old(pre)[s := old(nextStore)]
      ensures old(nextStore) !in old(stores) && stores == old(stores)[old(nextStore) := content]
    {
      var id := nextStore;
      PresetOwners(owner, pre, s, id);
      stores := stores[id := content];
      nextStore := nextStore + 1;
      pre := pre[s := id];
      owner := owner[id := Owner(-1, s)];
    }

    ghost predicate FirstFrameIs(id: FrameId)
      reads this
    {
      Valid() && stack == [id] && |fs| == 1 && fs[0].kind == TopLevel
    }

    /** The first frame's own store for s is destroyed and the executor's taken over. */
    method HandOver(id: FrameId, s: Slot)
      requires FirstFrameIs(id) && s in pre && s != Locals && s != SourceName
      modifies `stores, `frames, `pre, `owner, `fs
      ensures FirstFrameIs(id) && pre == old(pre) - {s}
      ensures s in old(fs)[0].res && fs[0] == old(fs)[0].(res := old(fs)[0].res[s := old(pre)[s]])
      ensures stores == old(stores) - {old(fs)[0].res[s]}
    {
      hide FramesOk, OwnersOk, Chain, StoresOk;
      ghost var g := fs[0];
      TopLevelFacts(s);
      ChainedFirst(id);
      var bare := Free([], frames[id], s);
      frames := frames[id := bare.(res := bare.res[s := pre[s]])];
      fs := [frames[id]];
      TakeStore(bare, s);
      HandedOver(old(frames), stack, g, fs[0], id, s);
    }

    method TakeStore(bare: Frame, s: Slot)
      requires StoresOk([] + [bare]) && s in pre && s !in bare.res && ScopeOf(bare.kind, s) != Share
      modifies `pre, `owner
      ensures StoresOk([bare.(res := bare.res[s := old(pre)[s]])]) && pre == old(pre) - {s}
    {
      TakeOver(owner, [], pre, bare, s);
      owner := owner[pre[s] := Owner(0, s)];
      pre := pre - {s};
      var g' := bare.(res := bare.res[s := old(pre)[s]]);
      assert [] + [g'] == [g'];
    }

    lemma ChainedFirst(id: FrameId)
      requires FramesOk(frames, stack, fs) && |fs| == 1 && stack == [id] && fs == [] + [fs[0]]
      ensures id in frames && frames[id] == fs[0] && fs == [fs[0]]
    {
      assert Chained(frames, stack, fs, 0);
      assert [] + [fs[0]] == [fs[0]];
    }

    lemma TopLevelFacts(s: Slot)
      requires Valid() && |fs| == 1 && fs[0].kind == TopLevel && s != Locals && s != SourceName
      ensures Owns(fs[0], s) && s in fs[0].res && ScopeOf(TopLevel, s) != Share
      ensures fs == [] + [fs[0]] && Chain(fs) && FramesOk(frames, stack, fs) && StoresOk(fs)
    {
      assert LinkedAt(fs, 0, s);
    }

    lemma HandedOver(frames0: map<FrameId, Frame>, stack: seq<FrameId>, g: Frame, g': Frame, id: FrameId, s: Slot)
      requires FramesOk(frames0, stack, [g]) && Chain([g]) && stack == [id] && g.kind == TopLevel && s in g.res
      requires g' == g.(res := g'.res) && g'.res.Keys == g.res.Keys
      ensures FramesOk(frames0[id := g'], stack, [g']) && Chain([g'])
      ensures forall n :: Below(frames0, n) ==> Below(frames0[id := g'], n)
    {
      assert Chained(frames0, stack, [g], 0);
      assert FrameAt([g], 0);
      forall i, t | 0 <= i < |[g']| ensures LinkedAt([g'], i, t) {
        assert LinkedAt([g], 0, t);
        assert t in g'.res.Keys <==> t in g.res.Keys;
      }
      forall i | 0 <= i < |[g']| ensures Chained(frames0[id := g'], stack, [g'], i) && FrameAt([g'], i) {
      }
    }

    /** Change what a live store holds. */
    method Assign(id: StoreId, content: Content)
      requires Valid() && id in stores
      modifies `stores
      ensures Valid() && stores == old(stores)[id := content]
    {
      hide OwnersOk, FramesOk, Chain;
      stores := stores[id := content];
      assert stores.Keys == old(stores).Keys;
    }

    /** Change the current frame's exit status and background process id. */
    method SetStatus(status: int, bg: int)
      requires Valid() && currentFrame.Some?
      modifies `frames, `fs
      ensures Valid() && fs != [] && |fs| == |old(fs)|
      ensures fs == old(fs)[|fs|-1 := old(fs)[|fs|-1].(exitStatus := status, bgPid := bg)]
    {
      hide *;
      Parts();
      StoresAre(fs);
      StoresBelow();
      CurrentIs(currentFrame.value);
      var id, n := currentFrame.value, |fs| - 1;
      StatusOnly(frames, stack, fs, owner, pre, n, status, bg);
      frames := frames[id := frames[id].(exitStatus := status, bgPid := bg)];
      fs := fs[n := fs[n].(exitStatus := status, bgPid := bg)];
      StatusParts(old(frames), id);
      Together();
    }

    lemma StoresBelow()
      requires StoresOk(fs)
      ensures Below(stores, nextStore)
    {
    }

    lemma StatusParts(frames0: map<FrameId, Frame>, id: FrameId)
      requires Below(frames0, nextFrame) && id in frames0 && frames.Keys == frames0.Keys + {id}
      requires OwnersOk(owner, fs, pre) && stores.Keys == owner.Keys && Below(stores, nextStore)
      ensures Below(frames, nextFrame) && StoresOk(fs)
    {
      hide OwnersOk;
      assert forall k :: k in frames ==> k in frames.Keys;
    }

    /** No other slot, of the first frame or of the executor, uses the same store. */
    lemma FirstFrameSlots(id: FrameId, s: Slot)
      requires FirstFrameIs(id) && s != Locals && s != SourceName
      ensures s in fs[0].res
      ensures forall t :: t in fs[0].res && t != s ==> fs[0].res[t] != fs[0].res[s]
      ensures forall t :: t in pre ==> pre[t] != fs[0].res[s] && pre[t] in stores
    {
      assert LinkedAt(fs, 0, s) && Recorded(owner, fs, 0, s);
      forall t | t in fs[0].res && t != s ensures fs[0].res[t] != fs[0].res[s] {
        assert LinkedAt(fs, 0, t) && Recorded(owner, fs, 0, t);
      }
    }

    /** The first frame: stores set up earlier on the executor become the
        frame's, everything else is new. */
    method CreateTopLevel(options: Content, umask: Content, status: int, bg: int) returns (id: FrameId)
      requires Valid() && stack == []
      modifies this
      ensures FirstFrameIs(id) && currentFrame == topFrame == Some(id) && topFrameInitialized
      ensures pre == old(pre) - (set s | s in HANDED_OVER)
      ensures forall s :: TopSlot(make, old(stores), old(pre), stores, fs[0], s, HANDED_OVER, Given(options, umask))
      ensures fs[0].exitStatus == status && fs[0].bgPid == bg
    {
      hide OwnersOk, Chain, FramesOk, StoresOk, TopSlot, Waiting, Obtained, Entered, WithArg0, Extends, Below;
      NoFrames();
      ghost var filled;
      id, filled := Push(None, TopLevel, Params(None, None));
      FirstPushed(id);
      TopStart(make, old(stores), filled, pre, fs[0]);
      HandOverAll(id, old(stores));
      SetGiven(id, Options, options, old(stores), old(pre), map[]);
      SetGiven(id, Umask, umask, old(stores), old(pre), map[Options := options]);
      ghost var g := fs[0];
      SetStatus(status, bg);
      assert FirstFrameIs(id) by { FirstStays(id, g); }
      TopResOnly(make, old(stores), old(pre), stores, g, fs[0], Given(options, umask));
    }

    /** The executor's stores are the first frame's up to the k-th of the list. */
    ghost predicate HandedUpTo(id: FrameId, stores0: map<StoreId, Content>, pre0: map<Slot, StoreId>, k: nat)
      requires k <= |HANDED_OVER|
      reads this
    {
      && FirstFrameIs(id) && pre == pre0 - (set s | s in HANDED_OVER[..k])
      && (forall s :: TopSlot(make, stores0, pre0, stores, fs[0], s, HANDED_OVER[..k], map[]))
      && Waiting(stores0, pre0, stores, HANDED_OVER[..k])
    }

    method HandOverAll(id: FrameId, ghost stores0: map<StoreId, Content>)
      requires FirstFrameIs(id) && Waiting(stores0, pre, stores, [])
      requires forall s :: TopSlot(make, stores0, pre, stores, fs[0], s, [], map[])
      modifies `stores, `frames, `pre, `owner, `fs
      ensures FirstFrameIs(id) && pre == old(pre) - (set s | s in HANDED_OVER)
      ensures forall s :: TopSlot(make, stores0, old(pre), stores, fs[0], s, HANDED_OVER, map[])
    {
      hide TopSlot, Valid, HANDED_OVER, Waiting;
      assert HANDED_OVER[..0] == [];
      assert pre == pre - (set s | s in HANDED_OVER[..0]);
      for k := 0 to |HANDED_OVER|
        invariant HandedUpTo(id, stores0, old(pre), k)
        modifies `stores, `frames, `pre, `owner, `fs
      {
        HandOverNext(id, stores0, old(pre), k);
      }
      assert HANDED_OVER[..|HANDED_OVER|] == HANDED_OVER;
    }

    method HandOverNext(id: FrameId, ghost stores0: map<StoreId, Content>, ghost pre0: map<Slot, StoreId>, k: nat)
      requires k < |HANDED_OVER| && HandedUpTo(id, stores0, pre0, k)
      modifies `stores, `frames, `pre, `owner, `fs
      ensures HandedUpTo(id, stores0, pre0, k + 1)
    {
      hide Valid, TopSlot, Waiting, HANDED_OVER;
      var s := HANDED_OVER[k];
      HandedFacts(k);
      if s in pre {
        ghost var g, was := fs[0], stores;
        FirstFrameSlots(id, s);
        assert forall t :: t in pre0 && t !in HANDED_OVER[..k] ==> t in pre && pre0[t] != g.res[s];
        HandOver(id, s);
        TopStep(make, stores0, pre0, was, stores, g, fs[0], HANDED_OVER[..k], s);
      } else {
        TopSkip(make, stores0, pre0, stores, fs[0], HANDED_OVER[..k], s);
      }
    }

    method SetGiven(id: FrameId, s: Slot, content: Content, ghost stores0: map<StoreId, Content>,
                    ghost pre0: map<Slot, StoreId>, ghost given: map<Slot, Content>)
      requires FirstFrameIs(id) && (s == Options || s == Umask)
      requires forall t :: TopSlot(make, stores0, pre0, stores, fs[0], t, HANDED_OVER, given)
      modifies `stores
      ensures FirstFrameIs(id)
      ensures var now := given[s := content];
              forall t :: TopSlot(make, stores0, pre0, stores, fs[0], t, HANDED_OVER, now)
    {
      hide OwnersOk, Chain, FramesOk, StoresOk, TopSlot;
      ghost var was := stores;
      FirstFrameSlots(id, s);
      FirstIsCurrent(id, s);
      Assign(frames[id].res[s], content);
      TopGiven(make, stores0, pre0, was, stores, fs[0], given, s, content);
    }

    lemma NoFrames()
      requires Valid() && stack == []
      ensures fs == [] && currentFrame == None && LastFrame(fs) == None && forall s :: s in pre ==> pre[s] in stores
    {
    }

    lemma FirstPushed(id: FrameId)
      requires Valid() && stack == [] + [id] && |fs| == 1 && Entered(fs[0], None, None, TopLevel)
      ensures FirstFrameIs(id) && fs[0].kind == TopLevel && currentFrame == topFrame == Some(id) && topFrameInitialized
    {
    }

    lemma FirstStays(id: FrameId, g: Frame)
      requires Valid() && stack == [id] && |fs| == 1 && fs[0].kind == g.kind == TopLevel
      ensures FirstFrameIs(id)
    {
    }

    lemma FirstIsCurrent(id: FrameId, s: Slot)
      requires FirstFrameIs(id) && s in fs[0].res
      ensures id in frames && frames[id] == fs[0] && fs[0].res[s] in stores && Valid()
    {
      assert Chained(frames, stack, fs, 0);
      AliasedExactlyWhenShared(owner, fs, pre, 0, s, 0, s);
    }

    // ------------------------------------------------------------ whole runs

    /** Entering a frame and leaving it again leaves everything as it was; only
        a dot script run without arguments has changed its caller's $0. */
    method EnterAndLeave(kind: Kind, params: Params)
      requires Valid() && (currentFrame.Some? || kind == TopLevel)
      modifies this
      ensures Valid() && stack == old(stack) && fs == old(fs) && currentFrame == old(currentFrame) && pre == old(pre)
      ensures stores == AfterVisit(make, old(stores), LastFrame(old(fs)), kind, params)
    {
      hide *;
      ghost var before, all, owner0, stack0 := stores, fs, owner, stack;
      Facts();
      var id, filled := Push(currentFrame, kind, params);
      ghost var g := fs[|all|];
      EnteredIs(g, LastFrame(all), old(currentFrame), kind);
      VisitPushed(before, filled, owner0, all, kind, params);
      LastOff(fs);
      assert fs == all + [g];
      assert stack[..|stack| - 1] == stack0;
      var _ := Pop(id);
      VisitFrames(all, g, kind);
    }

    /** Freeing what the last push made leaves the stores before it, but for $0. */
    lemma VisitPushed(before: map<StoreId, Content>, filled: map<StoreId, Content>, owner0: Owners, all: seq<Frame>,
                      kind: Kind, params: Params)
      requires Valid() && OwnersOk(owner0, all, pre) && before.Keys == owner0.Keys
      requires |fs| == |all| + 1 && fs[..|all|] == all && fs[|all|].kind == kind
      requires fs[|all|].saved.Some? ==> Overrides(kind, Positional, params)
      requires forall s :: HasSlot(kind, s) ==> Obtained(make, before, filled, LastFrame(all), fs[|all|], s, params)
      requires Extends(before, filled) && stores == WithArg0(make, filled, fs[|all|], params)
      ensures stores - FreedWith(owner, |all|) == AfterVisit(make, before, LastFrame(all), kind, params)
    {
      hide *;
      var g := fs[|all|];
      Facts();
      SlotsOf(|all|);
      LastOff(fs);
      assert fs == all + [g];
      VisitStores(make, before, filled, owner0, owner, all, g, pre, params);
    }

    /** A properly nested run: enter a frame, run what is inside, leave it with
        its status. Nothing leaks and nothing an outer frame holds is freed.
        What the current frame sees afterwards is exactly RunView, and stores
        it does not point to are untouched: all of them when the frame entered
        is isolated, and all but positional parameters when nothing inside
        changes a slot. */
    method Run(nest: Nest)
      requires Valid() && (currentFrame.Some? || nest.kind == TopLevel)
      modifies this
      ensures Valid() && stack == old(stack) && currentFrame == old(currentFrame) && pre == old(pre)
              && owner == old(owner)
      ensures fs == WithStatus(old(fs), StatusOf(Enter(nest))) && stores.Keys == old(stores).Keys
      ensures Seen(LastFrame(fs), stores) == RunView(make, nest, Seen(LastFrame(old(fs)), old(stores)))
      ensures Untouched(LastFrame(old(fs)), old(stores), stores)
      ensures Isolated(nest.kind, nest.params) ==> stores == old(stores)
      ensures Quiet(nest) ==> SameButPositional(owner, old(stores), stores)
      decreases nest, 1
    {
      hide *;
      ghost var fs0, owner0, stores0 := fs, owner, stores;
      ghost var p := LastFrame(fs0);
      Facts();
      LastFacts();
      var id, filled := Push(currentFrame, nest.kind, nest.params);
      ghost var g := fs[|fs0|];
      Facts();
      LastFacts();
      EnteredIs(g, p, old(currentFrame), nest.kind);
      SlotsOf(|fs0|);
      LastOff(fs);
      LastOfAll(fs0, g);
      IsEnteredBelow(make, stores0, filled, p, g, nest.params);
      EnterSees(make, stores0, filled, p, g, nest.params);
      ghost var stores1 := stores;
      RunInside(nest);
      StatusOfLast(fs0, g, StatusAfter(nest.inside));
      LastOfAll(fs0, WithStatus([g], StatusAfter(nest.inside))[0]);
      AllButLast(fs0, WithStatus([g], StatusAfter(nest.inside))[0]);
      SetStatus(nest.status, nest.bg);
      ghost var stores2, all := stores, fs;
      var _ := Pop(id);
      NestEnds(fs0, g, all, nest);
      Facts();
      OwnersAgree(owner0, fs0, owner, fs, pre);
      OwnersAgree(owner, fs, owner0, fs0, pre);
      assert owner == owner0;
      SameSlotsSee(WithStatus([g], StatusAfter(nest.inside))[0], g, stores2);
      LeaveSees(make, stores0, filled, p, g, nest.params, stores2, stores);
      LastSees(fs0, StatusOf(Enter(nest)), stores);
      RunSees(make, nest, stores0, stores, p, owner, g, stores2);
    }

    /** The steps of one frame, in order. */
    method RunInside(nest: Nest)
      requires Valid() && currentFrame.Some?
      modifies this
      ensures Valid() && stack == old(stack) && currentFrame == old(currentFrame) && pre == old(pre)
              && owner == old(owner)
      ensures fs == WithStatus(old(fs), StatusAfter(nest.inside)) && stores.Keys == old(stores).Keys
      ensures Seen(LastFrame(fs), stores) ==
              InsideView(make, nest, |nest.inside|, Seen(LastFrame(old(fs)), old(stores)))
      ensures Untouched(LastFrame(old(fs)), old(stores), stores)
      decreases nest, 0
    {
      hide *;
      ghost var view := Seen(LastFrame(fs), stores);
      NothingRun(make, nest, fs, stores);
      for k := 0 to |nest.inside|
        invariant Valid() && stack == old(stack) && currentFrame == old(currentFrame) && pre == old(pre)
                  && owner == old(owner)
        invariant fs == WithStatus(old(fs), StatusAfter(nest.inside[..k])) && stores.Keys == old(stores).Keys
        invariant Seen(LastFrame(fs), stores) == InsideView(make, nest, k, view)
        invariant Untouched(LastFrame(old(fs)), old(stores), stores)
      {
        ghost var was := stores;
        LastSees(old(fs), StatusAfter(nest.inside[..k]), stores);
        match nest.inside[k] {
          case Enter(inner) => Run(inner);
          case Change(s, f) => ChangeSlot(s, f);
        }
        OneMore(nest.inside, k, old(fs));
        StepSees(make, nest, k, view);
        UntouchedTwice(LastFrame(old(fs)), LastFrame(WithStatus(old(fs), StatusAfter(nest.inside[..k]))),
                       old(stores), was, stores);
      }
      assert nest.inside[..|nest.inside|] == nest.inside;
    }

    /** A command changes what a slot of the current frame holds, if there is
        such a slot. */
    method ChangeSlot(s: Slot, f: Content -> Content)
      requires Valid() && currentFrame.Some?
      modifies `stores
      ensures Valid() && stores.Keys == old(stores).Keys
      ensures Seen(LastFrame(fs), stores) == Changed(Seen(LastFrame(fs), old(stores)), s, f)
      ensures Untouched(LastFrame(fs), old(stores), stores)
      ensures WithStatus(fs, StatusOf(Change(s, f))) == fs
    {
      hide *;
      Parts();
      Facts();
      LastFacts();
      CurrentIs(currentFrame.value);
      NoStatus(s, f, fs);
      var g := frames[currentFrame.value];
      ghost var before := stores;
      if s in g.res {
        Assign(g.res[s], f(stores[g.res[s]]));
      }
      OneSlotChanged(g, s, f, before, stores);
    }

    lemma LastFacts()
      requires Valid()
      ensures LastFrame(fs).Some? ==>
        && fs != [] && LastFrame(fs).value == fs[|fs|-1]
        && Whole(LastFrame(fs).value, stores) && Distinct(LastFrame(fs).value)
      ensures LastFrame(fs).None? ==> fs == []
      ensures forall s :: LastFrame(fs).Some? && s in LastFrame(fs).value.res ==>
        LastFrame(fs).value.res[s] in owner && owner[LastFrame(fs).value.res[s]].slot == s
      ensures forall s :: LastFrame(fs).Some? && s in LastFrame(fs).value.res ==> LastFrame(fs).value.res[s] in stores
    {
      hide *;
      Parts();
      Facts();
      LastIs(fs);
      if fs != [] {
        DistinctAt(owner, fs, pre, |fs| - 1);
        WholeAt(|fs| - 1);
        WholeLive(fs[|fs|-1], stores);
      }
    }

    lemma Facts()
      requires Valid()
      ensures OwnersOk(owner, fs, pre) && stores.Keys == owner.Keys && Chain(fs) && |stack| == |fs|
      ensures currentFrame == Last(stack) && (currentFrame.Some? <==> stack != [])
    {
    }

    lemma StoresAre(all: seq<Frame>)
      requires StoresOk(all)
      ensures OwnersOk(owner, all, pre) && stores.Keys == owner.Keys
    {
    }

    lemma SlotsOf(i: nat)
      requires Chain(fs) && i < |fs|
      ensures forall s :: s in fs[i].res ==> HasSlot(fs[i].kind, s)
    {
      forall s | s in fs[i].res ensures HasSlot(fs[i].kind, s) {
        assert LinkedAt(fs, i, s);
      }
    }

    lemma EnteredIs(g: Frame, p: Option<Frame>, parent: Option<FrameId>, kind: Kind)
      ensures Entered(g, p, parent, kind) ==> g.kind == kind && g.parent == parent
    {
    }

    lemma VisitFrames(all: seq<Frame>, g: Frame, kind: Kind)
      requires Entered(g, LastFrame(all), g.parent, kind)
      ensures Popped(all + [g]) == all
    {
      assert (all + [g])[..|all|] == all;
    }

    /** Once the last frame is gone only stores no frame ever took over are left. */
    lemma NothingLeft()
      requires Valid() && stack == []
      ensures frames == map[] && currentFrame == None
      ensures forall id :: id in stores <==> exists s :: s in pre && pre[s] == id
    {
      forall id | id in stores ensures exists s :: s in pre && pre[s] == id {
        assert OwnedBy(id, owner[id], fs, pre);
      }
    }

    /** The pop of exec_frame_pop(&executor->current_frame): the final clearing
        of the caller's pointer clears the field just set to the parent. */
    method PopThroughCurrentFrame()
      requires Valid() && currentFrame.Some?
      modifies this
      ensures currentFrame == None && stack == old(stack)[..|old(stack)|-1] && FramesOk(frames, stack, fs)
      ensures stores == old(stores) - FreedWith(old(owner), |old(fs)| - 1)
      ensures Valid() <==> |old(stack)| == 1
    {
      hide FramesOk, OwnersOk, Chain, FreedWith;
      Facts();
      var _ := Pop(currentFrame.value);
      currentFrame := None;
    }

    /** exec_destroy's loop over exec_frame_pop(&e->current_frame): it ends
        after one frame, so every outer frame stays in memory. */
    method Destroy()
      requires Valid()
      modifies this
      ensures currentFrame == None && FramesOk(frames, stack, fs)
      ensures stack == if old(stack) == [] then [] else old(stack)[..|old(stack)|-1]
      ensures frames == map[] <==> |old(stack)| <= 1
    {
      hide OwnersOk, Chain, FreedWith;
      while currentFrame.Some?
        invariant currentFrame.Some? ==> Valid() && stack == old(stack)
        invariant currentFrame.None? ==> FramesOk(frames, stack, fs)
        invariant currentFrame.None? ==> stack == if old(stack) == [] then [] else old(stack)[..|old(stack)|-1]
        decreases if currentFrame.Some? then 1 else 0
      {
        PopThroughCurrentFrame();
      }
      if stack != [] {
        assert Chained(frames, stack, fs, 0);
      }
    }

    lemma ForgetStores(all: seq<Frame>, g: Frame, s: Slot)
      requires StoresOk(all + [g]) && !Owns(g, s)
      ensures StoresOk(all + [g.(res := g.res - {s})])
    {
      Forget(owner, all, pre, g, s);
    }

    lemma NoneLeft(all: seq<Frame>, owner0: Owners, freed: set<StoreId>)
      requires StoresOk(all) && owner == owner0 - freed
      requires forall id :: id in freed ==> id in owner0 && owner0[id].index == |all|
      ensures freed == FreedWith(owner0, |all|)
    {
      forall id ensures id in freed <==> id in FreedWith(owner0, |all|) {
        assert id in owner ==> OwnedBy(id, owner[id], all, pre);
      }
    }

    method SetArg0(g: Frame, params: Params)
      requires StoresOk(fs + [g]) && Positional in g.res && g.res[Positional] in stores
      modifies `stores
      ensures StoresOk(fs + [g]) && stores == WithArg0(make, old(stores), g, params)
    {
      hide OwnersOk;
      if PolicyOf(g.kind).setsArg0 && params.scriptPath.Some? {
        ghost var was := stores.Keys;
        stores := stores[g.res[Positional] := make.setArg0(stores[g.res[Positional]], params.scriptPath.value)];
        assert stores.Keys == was;
      }
    }

    lemma ShareStores(g: Frame, s: Slot, id: StoreId)
      requires StoresOk(fs + [g]) && s !in g.res
      requires ScopeOf(g.kind, s) == Share && (s != Positional || g.saved.None?)
      ensures StoresOk(fs + [g.(res := g.res[s := id])])
    {
      FillShared(owner, fs, pre, g, s, id);
    }
  }
}
