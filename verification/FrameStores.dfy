/** What execution frames hold (src/exec_frame.c): how a new frame's slots are
    obtained, what a frame sees in its slots, and what a nested run of frames
    changes. Memory is explicit: stores and frames live in maps keyed by their
    address, so freeing one and using it afterwards are visible. */
module FrameStores {
  import opened Options
  import opened FramePolicy
  import opened FrameOwnership

  /** What a variable store, trap table, directory name and so on hold. */
  type Content = string

  /** What a push is told: call or dot-script arguments and the script's path. */
  datatype Params = Params(arguments: Option<Content>, scriptPath: Option<Content>)

  /** How stores are made: a new one, a copied trap store, a changed $0, and
      positional parameters from a $0 and the arguments of a call. */
  datatype Making = Making(initial: (Kind, Slot) -> Content, resetTraps: Content -> Content,
                           setArg0: (Content, Content) -> Content, arg0: Content -> Content,
                           called: (Content, Content) -> Content)

  predicate Overrides(kind: Kind, s: Slot, params: Params) {
    s == Positional && PolicyOf(kind).canOverride && params.arguments.Some?
  }

  /** The frame gets a store of its own for s; otherwise it shares its parent's. */
  predicate GetsOwn(kind: Kind, s: Slot, params: Params) {
    ScopeOf(kind, s) != Share || Overrides(kind, s, params)
  }

  /** The content slot s of frame p holds, if there is such a slot. */
  function ContentAt(stores: map<StoreId, Content>, p: Option<Frame>, s: Slot): Option<Content> {
    if p.Some? && s in p.value.res && p.value.res[s] in stores then Some(stores[p.value.res[s]]) else None
  }

  /** What a new frame's own store for slot s starts with, above being what
      its parent has there. New positional parameters keep the parent's $0. */
  function StartFrom(make: Making, above: Option<Content>, kind: Kind, s: Slot, params: Params): Content {
    if Overrides(kind, s, params) && above.Some? then make.called(make.arg0(above.value), params.arguments.value)
    else if ScopeOf(kind, s) == Copy && above.Some? then
      (if s == Traps && PolicyOf(kind).resetsTraps then make.resetTraps(above.value) else above.value)
    else if s == Positional && kind == Function && params.arguments.Some? && above.Some? then
      make.called(make.arg0(above.value), params.arguments.value)
    else if s == SourceName && params.scriptPath.Some? then params.scriptPath.value
    else if s == SourceName && above.Some? then above.value
    else make.initial(kind, s)
  }

  function StartContent(make: Making, stores: map<StoreId, Content>, p: Option<Frame>, kind: Kind, s: Slot,
                        params: Params): Content {
    StartFrom(make, ContentAt(stores, p, s), kind, s, params)
  }

  /** How slot s of a new frame g came about. */
  ghost predicate Obtained(make: Making, before: map<StoreId, Content>, after: map<StoreId, Content>,
                           p: Option<Frame>, g: Frame, s: Slot, params: Params) {
    && s in g.res
    && if GetsOwn(g.kind, s, params) then
         && g.res[s] !in before && g.res[s] in after
         && after[g.res[s]] == StartContent(make, before, p, g.kind, s, params)
       else p.Some? && s in p.value.res && g.res[s] == p.value.res[s]
  }

  /** Every slot of p points to a live store. */
  ghost predicate Whole(p: Frame, stores: map<StoreId, Content>) {
    && (forall s :: s in p.res <==> HasSlot(p.kind, s))
    && (forall s :: s in p.res ==> p.res[s] in stores)
  }

  ghost predicate Extends(before: map<StoreId, Content>, after: map<StoreId, Content>) {
    forall k :: k in before ==> k in after && after[k] == before[k]
  }

  ghost predicate Below<V>(m: map<nat, V>, next: nat) {
    forall k :: k in m ==> k < next
  }

  /** The i-th frame of the chain is in memory and points to the one before. */
  ghost predicate Chained(frames: map<FrameId, Frame>, stack: seq<FrameId>, fs: seq<Frame>, i: nat)
    requires i < |stack| == |fs|
  {
    && stack[i] in frames && frames[stack[i]] == fs[i]
    && fs[i].parent == if i == 0 then None else Some(stack[i-1])
  }

  /** The frames in memory are the chain, linked by their parent pointers. */
  ghost predicate FramesOk(frames: map<FrameId, Frame>, stack: seq<FrameId>, fs: seq<Frame>) {
    && |stack| == |fs|
    && (forall i :: 0 <= i < |fs| ==> Chained(frames, stack, fs, i))
    && (forall i, j :: 0 <= i < j < |stack| ==> stack[i] != stack[j])
    && (forall id :: id in frames ==> id in stack)
  }

  function Last(stack: seq<FrameId>): Option<FrameId> {
    if stack == [] then None else Some(stack[|stack|-1])
  }

  function First(stack: seq<FrameId>): Option<FrameId> {
    if stack == [] then None else Some(stack[0])
  }

  lemma FramesPush(frames: map<FrameId, Frame>, stack: seq<FrameId>, fs: seq<Frame>, id: FrameId, g: Frame)
    requires FramesOk(frames, stack, fs) && id !in frames && g.parent == Last(stack)
    ensures FramesOk(frames[id := g], stack + [id], fs + [g])
  {
    var frames', stack', fs' := frames[id := g], stack + [id], fs + [g];
    forall i | 0 <= i < |fs'| ensures Chained(frames', stack', fs', i) && (i < |fs| ==> stack'[i] != id) {
      assert i < |fs| ==> Chained(frames, stack, fs, i);
    }
    forall k | k in frames' ensures k in stack' {
      assert k != id ==> k in stack;
      assert stack'[|stack|] == id;
    }
  }

  lemma FramesPop(frames: map<FrameId, Frame>, stack: seq<FrameId>, fs: seq<Frame>)
    requires FramesOk(frames, stack, fs) && stack != []
    ensures FramesOk(frames - {stack[|stack|-1]}, stack[..|stack|-1], fs[..|fs|-1])
  {
    var n := |stack| - 1;
    forall i | 0 <= i < n ensures Chained(frames - {stack[n]}, stack[..n], fs[..n], i) {
      assert Chained(frames, stack, fs, i);
    }
    forall k | k in frames - {stack[n]} ensures k in stack[..n] {
      var i :| 0 <= i < |stack| && stack[i] == k;
      assert stack[..n][i] == k;
    }
  }

  /** Only the exit status and background process id of frame i change. */
  lemma StatusOnly(frames: map<FrameId, Frame>, stack: seq<FrameId>, fs: seq<Frame>, owner: Owners,
                   pre: map<Slot, StoreId>, i: nat, status: int, bg: int)
    requires FramesOk(frames, stack, fs) && Chain(fs) && OwnersOk(owner, fs, pre) && i < |fs|
    ensures var g := fs[i].(exitStatus := status, bgPid := bg);
            && FramesOk(frames[stack[i] := g], stack, fs[i := g])
            && Chain(fs[i := g]) && OwnersOk(owner, fs[i := g], pre)
  {
    var g := fs[i].(exitStatus := status, bgPid := bg);
    var fs' := fs[i := g];
    StatusOwners(fs, owner, pre, i, status, bg);
    StatusChain(fs, i, status, bg);
    var frames' := frames[stack[i] := g];
    forall k | 0 <= k < |fs'| ensures Chained(frames', stack, fs', k) {
      assert Chained(frames, stack, fs, k);
    }
    assert Chained(frames, stack, fs, i);
  }

  lemma StatusOwners(fs: seq<Frame>, owner: Owners, pre: map<Slot, StoreId>, i: nat, status: int, bg: int)
    requires OwnersOk(owner, fs, pre) && i < |fs|
    ensures OwnersOk(owner, fs[i := fs[i].(exitStatus := status, bgPid := bg)], pre)
  {
    var fs' := fs[i := fs[i].(exitStatus := status, bgPid := bg)];
    forall k, s | 0 <= k < |fs'| ensures Recorded(owner, fs', k, s) {
      assert Recorded(owner, fs, k, s);
    }
    forall id | id in owner ensures OwnedBy(id, owner[id], fs', pre) {
      assert OwnedBy(id, owner[id], fs, pre);
    }
  }

  lemma StatusChain(fs: seq<Frame>, i: nat, status: int, bg: int)
    requires Chain(fs) && i < |fs|
    ensures Chain(fs[i := fs[i].(exitStatus := status, bgPid := bg)])
  {
    var fs' := fs[i := fs[i].(exitStatus := status, bgPid := bg)];
    forall k, s | 0 <= k < |fs'| ensures LinkedAt(fs', k, s) {
      assert LinkedAt(fs, k, s);
    }
    forall k | 0 <= k < |fs'| ensures FrameAt(fs', k) {
      assert FrameAt(fs, k);
    }
  }

  /** A frame each of whose slots was obtained from its parent joins the chain. */
  lemma ChainPush(make: Making, before: map<StoreId, Content>, after: map<StoreId, Content>, fs: seq<Frame>, g: Frame,
                  params: Params)
    requires Chain(fs)
    requires fs == [] ==> g.kind == TopLevel
    requires forall s :: HasSlot(g.kind, s) ==> Obtained(make, before, after, LastFrame(fs), g, s, params)
    requires forall s :: s in g.res ==> HasSlot(g.kind, s)
    requires fs != [] ==> Positional in fs[|fs|-1].res
    requires g.saved == if fs != [] && Overrides(g.kind, Positional, params)
                        then Some(fs[|fs|-1].res[Positional]) else None
    requires g.loopDepth == (if fs == [] then 0 else fs[|fs|-1].loopDepth) + (if PolicyOf(g.kind).isLoop then 1 else 0)
    ensures Chain(fs + [g])
  {
    var n, fs' := |fs|, fs + [g];
    forall i | 0 <= i < |fs'| ensures FrameAt(fs', i) {
      assert i < n ==> FrameAt(fs, i);
    }
    forall i, s | 0 <= i < |fs'| ensures LinkedAt(fs', i, s) {
      assert i < n ==> LinkedAt(fs, i, s);
      if i == n && HasSlot(g.kind, s) {
        assert Obtained(make, before, after, LastFrame(fs), g, s, params);
      }
    }
  }

  function LastFrame(fs: seq<Frame>): Option<Frame> {
    if fs == [] then None else Some(fs[|fs|-1])
  }

  lemma ChainPop(fs: seq<Frame>)
    requires Chain(fs) && fs != []
    ensures Chain(fs[..|fs|-1])
  {
    var less := fs[..|fs|-1];
    forall i | 0 <= i < |less| ensures FrameAt(less, i) {
      assert FrameAt(fs, i);
    }
    forall i, s | 0 <= i < |less| ensures LinkedAt(less, i, s) {
      assert LinkedAt(fs, i, s);
    }
  }

  /** A frame's slots are live. */
  lemma SlotIsLive(owner: Owners, fs: seq<Frame>, pre: map<Slot, StoreId>, i: nat, s: Slot)
    requires OwnersOk(owner, fs, pre) && Chain(fs) && i < |fs| && HasSlot(fs[i].kind, s)
    ensures s in fs[i].res && fs[i].res[s] in owner
  {
    assert LinkedAt(fs, i, s);
    AliasedExactlyWhenShared(owner, fs, pre, i, s, i, s);
  }

  /** The stores a frame at index n owns. */
  ghost function FreedWith(owner: Owners, n: int): set<StoreId> {
    set id | id in owner && owner[id].index == n
  }

  /** The record exec_frame_push starts from. */
  function NewFrame(p: Option<Frame>, parent: Option<FrameId>, kind: Kind): (g: Frame)
    ensures g.res == map[] && g.saved == None && Entered(g, p, parent, kind)
    ensures g.kind == kind && g.parent == parent
    ensures g.loopDepth == (if p.Some? then p.value.loopDepth else 0) + (if PolicyOf(kind).isLoop then 1 else 0)
  {
    Frame(kind, parent, map[], None,
          (if p.Some? then p.value.loopDepth else 0) + (if PolicyOf(kind).isLoop then 1 else 0),
          if p.Some? then p.value.exitStatus else 0,
          if p.Some? then p.value.bgPid else 0,
          kind == Trap)
  }

  /** The fields of a frame just entered. */
  predicate Entered(g: Frame, p: Option<Frame>, parent: Option<FrameId>, kind: Kind) {
    && g.kind == kind && g.parent == parent && g.inTrap == (kind == Trap)
    && g.exitStatus == (if p.Some? then p.value.exitStatus else 0)
    && g.bgPid == (if p.Some? then p.value.bgPid else 0)
  }

  /** The fields of a new frame, in plain words. */
  lemma EntersWith(p: Option<Frame>, parent: Option<FrameId>, kind: Kind)
    ensures var g := NewFrame(p, parent, kind);
            && g.exitStatus == (if p.Some? then p.value.exitStatus else 0)
            && g.bgPid == (if p.Some? then p.value.bgPid else 0)
            && g.loopDepth == (if p.Some? then p.value.loopDepth else 0) + (if kind == Loop then 1 else 0)
            && g.inTrap == (kind == Trap)
  {
  }

  lemma StillEntered(g: Frame, g': Frame, p: Option<Frame>, parent: Option<FrameId>, kind: Kind)
    requires Entered(g, p, parent, kind) && g' == g.(res := g'.res, saved := g'.saved)
    ensures Entered(g', p, parent, kind)
  {
  }

  /** A dot script's path becomes $0 of the positional parameters it uses,
      which are its caller's when it has no arguments. */
  function WithArg0(make: Making, stores: map<StoreId, Content>, g: Frame, params: Params): map<StoreId, Content> {
    if PolicyOf(g.kind).setsArg0 && params.scriptPath.Some? && Positional in g.res && g.res[Positional] in stores
    then stores[g.res[Positional] := make.setArg0(stores[g.res[Positional]], params.scriptPath.value)]
    else stores
  }

  /** The first k slots of the new frame g are filled. */
  ghost predicate Filled(make: Making, before: map<StoreId, Content>, now: map<StoreId, Content>,
                         p: Option<Frame>, g: Frame, params: Params, k: nat) {
    && Extends(before, now)
    && (forall s :: s in g.res <==> HasSlot(g.kind, s) && Place(s) < k)
    && (forall s :: s in g.res ==> Obtained(make, before, now, p, g, s, params))
    && g.saved == if k > 2 && p.Some? && Positional in p.value.res && Overrides(g.kind, Positional, params)
                  then Some(p.value.res[Positional]) else None
  }

  lemma FilledStart(make: Making, before: map<StoreId, Content>, p: Option<Frame>, g: Frame, params: Params)
    requires g.res == map[] && g.saved == None
    ensures Filled(make, before, before, p, g, params, 0)
  {
  }

  lemma FilledFacts(make: Making, before: map<StoreId, Content>, now: map<StoreId, Content>,
                    p: Option<Frame>, g: Frame, params: Params, k: nat)
    requires Filled(make, before, now, p, g, params, k) && k < |SLOT_ORDER|
    ensures Extends(before, now) && SLOT_ORDER[k] !in g.res && (g.saved.Some? ==> Positional in g.res)
  {
    PlaceIsUnique(k);
    assert HasSlot(g.kind, Positional) && Place(Positional) == 2;
  }

  lemma FilledStep(make: Making, before: map<StoreId, Content>, was: map<StoreId, Content>, now: map<StoreId, Content>,
                   p: Option<Frame>, g: Frame, g': Frame, params: Params, k: nat)
    requires Filled(make, before, was, p, g, params, k) && k < |SLOT_ORDER|
    requires var s := SLOT_ORDER[k];
             && Extends(before, now)
             && (forall i :: i in was ==> i in now && now[i] == was[i])
             && (HasSlot(g.kind, s) ==> Obtained(make, before, now, p, g', s, params))
             && g' == g.(res := g'.res, saved := g'.saved)
             && (p.Some? ==> Positional in p.value.res)
             && g'.saved == (if Overrides(g.kind, s, params) && p.Some? then Some(p.value.res[Positional]) else g.saved)
             && g'.res.Keys == g.res.Keys + (if HasSlot(g.kind, s) then {s} else {})
             && forall t :: t in g.res ==> g'.res[t] == g.res[t]
    ensures Filled(make, before, now, p, g', params, k + 1)
  {
    hide HasSlot, Place, StartContent, GetsOwn;
    var s := SLOT_ORDER[k];
    PlaceIsUnique(k);
    forall t ensures t in g'.res <==> HasSlot(g'.kind, t) && Place(t) < k + 1 {
      assert Place(t) == k ==> t == s;
      assert t in g'.res.Keys <==> t in g.res.Keys || (HasSlot(g.kind, s) && t == s);
    }
    forall t | t in g'.res ensures Obtained(make, before, now, p, g', t, params) {
      if t != s {
        assert t in g'.res.Keys;
        assert Obtained(make, before, was, p, g, t, params);
      }
    }
  }

  lemma FilledDone(make: Making, before: map<StoreId, Content>, now: map<StoreId, Content>,
                   p: Option<Frame>, g: Frame, params: Params)
    requires Filled(make, before, now, p, g, params, |SLOT_ORDER|)
    requires p.Some? ==> Whole(p.value, before)
    ensures Extends(before, now)
    ensures forall s :: s in g.res <==> HasSlot(g.kind, s)
    ensures forall s :: HasSlot(g.kind, s) ==> Obtained(make, before, now, p, g, s, params)
    ensures Positional in g.res && g.res[Positional] in now
    ensures p.Some? ==> Positional in p.value.res
    ensures g.saved == if p.Some? && Overrides(g.kind, Positional, params) then Some(p.value.res[Positional]) else None
  {
    assert HasSlot(g.kind, Positional) && Place(Positional) == 2;
    assert Obtained(make, before, now, p, g, Positional, params);
    assert p.Some? ==> HasSlot(p.value.kind, Positional);
  }

  lemma PresetOwners(owner: Owners, pre: map<Slot, StoreId>, s: Slot, id: StoreId)
    requires OwnersOk(owner, [], pre) && s !in pre && id !in owner
    ensures OwnersOk(owner[id := Owner(-1, s)], [], pre[s := id])
  {
    forall k | k in owner ensures OwnedBy(k, owner[k], [], pre[s := id]) {
      assert OwnedBy(k, owner[k], [], pre);
    }
  }

  /** What the stores hold after a frame was entered and left: a dot script
      with a path and no arguments set $0 of the caller's own parameters. */
  function AfterVisit(make: Making, before: map<StoreId, Content>, p: Option<Frame>, kind: Kind,
                      params: Params): map<StoreId, Content> {
    if PolicyOf(kind).setsArg0 && params.scriptPath.Some? && params.arguments.None?
       && p.Some? && Positional in p.value.res && p.value.res[Positional] in before
    then
      var id := p.value.res[Positional];
      before[id := make.setArg0(before[id], params.scriptPath.value)]
    else before
  }

  /** The stores the new frame owns are exactly the new ones. */
  lemma NewStoresAreItsOwn(make: Making, before: map<StoreId, Content>, filled: map<StoreId, Content>, owner0: Owners,
                           owner1: Owners, all: seq<Frame>, g: Frame, pre: map<Slot, StoreId>, params: Params)
    requires OwnersOk(owner0, all, pre) && before.Keys == owner0.Keys
    requires OwnersOk(owner1, all + [g], pre) && filled.Keys == owner1.Keys
    requires g.saved.Some? ==> Overrides(g.kind, Positional, params)
    requires forall s :: s in g.res ==> HasSlot(g.kind, s)
    requires forall s :: HasSlot(g.kind, s) ==> Obtained(make, before, filled, LastFrame(all), g, s, params)
    ensures forall id :: id in filled ==> (id in FreedWith(owner1, |all|) <==> id !in before)
  {
    var now := all + [g];
    forall id | id in filled ensures id in FreedWith(owner1, |all|) <==> id !in before {
      var o := owner1[id];
      assert OwnedBy(id, o, now, pre);
      if o.index == |all| {
        assert Obtained(make, before, filled, LastFrame(all), g, o.slot, params);
      } else if o.index >= 0 {
        assert now[o.index] == all[o.index];
        assert Recorded(owner0, all, o.index, o.slot);
      }
    }
  }

  lemma VisitStores(make: Making, before: map<StoreId, Content>, filled: map<StoreId, Content>, owner0: Owners,
                    owner1: Owners, all: seq<Frame>, g: Frame, pre: map<Slot, StoreId>, params: Params)
    requires OwnersOk(owner0, all, pre) && before.Keys == owner0.Keys
    requires OwnersOk(owner1, all + [g], pre) && WithArg0(make, filled, g, params).Keys == owner1.Keys
    requires g.saved.Some? ==> Overrides(g.kind, Positional, params)
    requires Extends(before, filled)
    requires forall s :: s in g.res ==> HasSlot(g.kind, s)
    requires forall s :: HasSlot(g.kind, s) ==> Obtained(make, before, filled, LastFrame(all), g, s, params)
    ensures WithArg0(make, filled, g, params) - FreedWith(owner1, |all|) ==
            AfterVisit(make, before, LastFrame(all), g.kind, params)
  {
    hide OwnersOk, FreedWith, Obtained, Overrides;
    var freed, p := FreedWith(owner1, |all|), LastFrame(all);
    assert HasSlot(g.kind, Positional);
    Arg0Keys(make, filled, g, params);
    NewStoresAreItsOwn(make, before, filled, owner0, owner1, all, g, pre, params);
    RemoveNew(before, filled, freed);
    VisitArg0(make, before, filled, freed, p, g, params);
  }

  lemma Arg0Keys(make: Making, filled: map<StoreId, Content>, g: Frame, params: Params)
    ensures WithArg0(make, filled, g, params).Keys == filled.Keys
  {
  }

  lemma RemoveNew(before: map<StoreId, Content>, filled: map<StoreId, Content>, freed: set<StoreId>)
    requires Extends(before, filled) && forall id :: id in filled ==> (id in freed <==> id !in before)
    ensures filled - freed == before
  {
  }

  lemma VisitArg0(make: Making, before: map<StoreId, Content>, filled: map<StoreId, Content>, freed: set<StoreId>,
                  p: Option<Frame>, g: Frame, params: Params)
    requires Extends(before, filled) && filled - freed == before
    requires forall id :: id in filled ==> (id in freed <==> id !in before)
    requires Obtained(make, before, filled, p, g, Positional, params)
    ensures WithArg0(make, filled, g, params) - freed == AfterVisit(make, before, p, g.kind, params)
  {
    hide StartContent;
    if PolicyOf(g.kind).setsArg0 && params.scriptPath.Some? && g.res[Positional] in filled {
      assert g.kind == DotScript;
      var id := g.res[Positional];
      var c := make.setArg0(filled[id], params.scriptPath.value);
      if id in before {
        assert filled[id := c] - freed == before[id := c];
      } else {
        assert filled[id := c] - freed == before;
      }
    }
  }

  /** The chain after the last frame is gone, its exit status passed up if
      its kind says so. */
  ghost function Popped(all: seq<Frame>): seq<Frame>
    requires all != []
  {
    var n := |all| - 1;
    if n > 0 && PolicyOf(all[n].kind).affectsParentStatus
    then all[..n][n-1 := all[n-1].(exitStatus := all[n].exitStatus)] else all[..n]
  }

  // ------------------------------------------------------------ nested runs

  /** What runs in one frame: frames entered and left, changes to what the
      frame's slots hold, and in the end the status and background process id
      its own commands leave. */
  datatype Step = Enter(nest: Nest) | Change(slot: Slot, f: Content -> Content)
  datatype Nest = Nest(kind: Kind, params: Params, inside: seq<Step>, status: int, bg: int)

  /** The exit status one step hands to the frame around it, if any. */
  function StatusOf(step: Step): Option<int> {
    match step
    case Enter(nest) => if PolicyOf(nest.kind).affectsParentStatus then Some(nest.status) else None
    case Change(_, _) => None
  }

  function StatusAfter(steps: seq<Step>): Option<int> {
    if |steps| == 0 then None
    else
      var last := StatusOf(steps[|steps|-1]);
      if last.Some? then last else StatusAfter(steps[..|steps|-1])
  }

  function WithStatus(fs: seq<Frame>, status: Option<int>): seq<Frame> {
    if status.Some? && fs != [] then fs[|fs|-1 := fs[|fs|-1].(exitStatus := status.value)] else fs
  }

  /** The same stores, holding the same, positional parameters apart. */
  ghost predicate SameButPositional(owner: Owners, before: map<StoreId, Content>, after: map<StoreId, Content>) {
    && before.Keys == after.Keys
    && (forall id :: id in before && id in owner && owner[id].slot != Positional ==> after[id] == before[id])
  }

  /** The chain determines who owns what: a chain that only grew, statuses
      apart, has kept its owners. */
  lemma OwnersAgree(owner0: Owners, fs0: seq<Frame>, owner1: Owners, fs1: seq<Frame>, pre: map<Slot, StoreId>)
    requires OwnersOk(owner0, fs0, pre) && OwnersOk(owner1, fs1, pre) && |fs0| <= |fs1|
    requires forall i :: 0 <= i < |fs0| ==> SameSlots(fs0[i], fs1[i])
    ensures forall id :: id in owner0 ==> id in owner1 && owner1[id] == owner0[id]
  {
    forall id | id in owner0 ensures id in owner1 && owner1[id] == owner0[id] {
      var o := owner0[id];
      assert OwnedBy(id, o, fs0, pre);
      if o.index != -1 {
        assert Recorded(owner1, fs1, o.index, o.slot);
      }
    }
  }

  predicate SameSlots(f: Frame, g: Frame) {
    f.kind == g.kind && f.res == g.res && f.saved == g.saved
  }

  lemma AllButLast(fs: seq<Frame>, g: Frame)
    ensures (fs + [g])[..|fs|] == fs && forall i :: 0 <= i < |fs| ==> SameSlots(fs[i], (fs + [g])[i])
  {
  }

  /** Entering a frame changes what no older store holds, positional parameters apart. */
  lemma PushKeeps(make: Making, before: map<StoreId, Content>, filled: map<StoreId, Content>, owner: Owners,
                  fs: seq<Frame>, g: Frame, pre: map<Slot, StoreId>, params: Params)
    requires OwnersOk(owner, fs, pre) && Chain(fs) && Extends(before, filled) && before.Keys == owner.Keys
    requires Obtained(make, before, filled, LastFrame(fs), g, Positional, params)
    ensures var after := WithArg0(make, filled, g, params);
            forall id :: id in before ==> id in after && (owner[id].slot != Positional ==> after[id] == before[id])
  {
    hide OwnersOk, Chain;
    var n := |fs| - 1;
    if !GetsOwn(g.kind, Positional, params) {
      PositionalOwner(owner, fs, pre);
    }
  }

  lemma PositionalOwner(owner: Owners, fs: seq<Frame>, pre: map<Slot, StoreId>)
    requires OwnersOk(owner, fs, pre) && Chain(fs) && fs != [] && Positional in fs[|fs|-1].res
    ensures var id := fs[|fs|-1].res[Positional]; id in owner && owner[id].slot == Positional
  {
    var n := |fs| - 1;
    SlotIsOwners(fs, n, Positional);
    assert Recorded(owner, fs, OwnerIndex(fs, n, Positional), Positional);
  }

  lemma StatusOfLast(fs: seq<Frame>, g: Frame, status: Option<int>)
    ensures |WithStatus([g], status)| == 1 && WithStatus(fs + [g], status) == fs + [WithStatus([g], status)[0]]
    ensures SameSlots(WithStatus([g], status)[0], g) && WithStatus([g], status)[0].kind == g.kind
  {
  }

  lemma NestEnds(fs: seq<Frame>, g: Frame, all: seq<Frame>, nest: Nest)
    requires |all| == |fs| + 1 && all[..|fs|] == fs && g.kind == nest.kind && (fs == [] ==> g.kind == TopLevel)
    requires all[|fs|].kind == g.kind && all[|fs|].exitStatus == nest.status
    ensures Popped(all) == WithStatus(fs, StatusOf(Enter(nest)))
    ensures forall i :: 0 <= i < |fs| ==> SameSlots(fs[i], Popped(all)[i]) && SameSlots(Popped(all)[i], fs[i])
    ensures |Popped(all)| == |fs|
  {
  }

  lemma OneMore(steps: seq<Step>, k: nat, fs: seq<Frame>)
    requires k < |steps|
    ensures WithStatus(WithStatus(fs, StatusAfter(steps[..k])), StatusOf(steps[k])) ==
            WithStatus(fs, StatusAfter(steps[..k+1]))
  {
    assert steps[..k+1][..k] == steps[..k];
  }

  // ---------------------------------------- what a frame sees in its slots

  /** What each slot of a frame holds. */
  type View = map<Slot, Content>

  ghost function Seen(f: Option<Frame>, stores: map<StoreId, Content>): View {
    if f.None? then map[]
    else map s | s in f.value.res && f.value.res[s] in stores :: stores[f.value.res[s]]
  }

  function Look(view: View, s: Slot): Option<Content> {
    if s in view then Some(view[s]) else None
  }

  /** What a frame entered from a view sees at first. */
  ghost function Entering(make: Making, view: View, kind: Kind, params: Params): View {
    NamedArg0(make, Started(make, view, kind, params), kind, params)
  }

  ghost function Started(make: Making, view: View, kind: Kind, params: Params): View {
    map s: Slot | HasSlot(kind, s) && (GetsOwn(kind, s, params) || s in view) ::
      if GetsOwn(kind, s, params) then StartFrom(make, Look(view, s), kind, s, params) else view[s]
  }

  function NamedArg0(make: Making, view: View, kind: Kind, params: Params): View {
    if PolicyOf(kind).setsArg0 && params.scriptPath.Some? && Positional in view
    then view[Positional := make.setArg0(view[Positional], params.scriptPath.value)]
    else view
  }

  /** What the outer frame sees when a frame that ended with the inner view is
      left: changes to the slots they share. */
  ghost function Leaving(kind: Kind, params: Params, outer: View, inner: View): View {
    map s | s in outer :: if HasSlot(kind, s) && !GetsOwn(kind, s, params) && s in inner then inner[s] else outer[s]
  }

  /** What the frame around a nested run sees after it. */
  ghost function RunView(make: Making, nest: Nest, view: View): View
    decreases nest, |nest.inside| + 1
  {
    var inner := InsideView(make, nest, |nest.inside|, Entering(make, view, nest.kind, nest.params));
    Leaving(nest.kind, nest.params, view, inner)
  }

  /** What the frame itself sees after its first k steps. */
  ghost function InsideView(make: Making, nest: Nest, k: nat, view: View): View
    requires k <= |nest.inside|
    decreases nest, k
  {
    if k == 0 then view
    else
      var before := InsideView(make, nest, k - 1, view);
      match nest.inside[k-1]
      case Enter(inner) => RunView(make, inner, before)
      case Change(s, f) => Changed(before, s, f)
  }

  function Changed(view: View, s: Slot, f: Content -> Content): View {
    if s in view then view[s := f(view[s])] else view
  }

  ghost predicate PointsTo(f: Option<Frame>, id: StoreId) {
    f.Some? && exists s :: s in f.value.res && f.value.res[s] == id
  }

  /** Stores f does not point to are still there and hold the same. */
  ghost predicate Untouched(f: Option<Frame>, before: map<StoreId, Content>, after: map<StoreId, Content>) {
    forall id :: id in before && !PointsTo(f, id) ==> id in after && after[id] == before[id]
  }

  ghost predicate Distinct(f: Frame) {
    forall s, t :: s in f.res && t in f.res && s != t ==> f.res[s] != f.res[t]
  }

  lemma DistinctAt(owner: Owners, fs: seq<Frame>, pre: map<Slot, StoreId>, i: nat)
    requires OwnersOk(owner, fs, pre) && Chain(fs) && i < |fs|
    ensures Distinct(fs[i])
    ensures forall s :: s in fs[i].res ==> fs[i].res[s] in owner && owner[fs[i].res[s]].slot == s
  {
    forall s, t | s in fs[i].res && t in fs[i].res && s != t ensures fs[i].res[s] != fs[i].res[t] {
      AliasedExactlyWhenShared(owner, fs, pre, i, s, i, t);
    }
    forall s | s in fs[i].res ensures fs[i].res[s] in owner && owner[fs[i].res[s]].slot == s {
      SlotIsOwners(fs, i, s);
      assert Recorded(owner, fs, OwnerIndex(fs, i, s), s);
    }
  }

  /** A frame g that was just entered below p. */
  ghost predicate EnteredBelow(make: Making, before: map<StoreId, Content>, filled: map<StoreId, Content>,
                               p: Option<Frame>, g: Frame, params: Params) {
    && Extends(before, filled) && (p.Some? ==> Whole(p.value, before)) && Distinct(g)
    && (forall s :: s in g.res <==> HasSlot(g.kind, s))
    && (forall s :: HasSlot(g.kind, s) ==> Obtained(make, before, filled, p, g, s, params))
  }

  /** Each slot of the new frame, before $0 is set. */
  lemma SlotEntered(make: Making, before: map<StoreId, Content>, filled: map<StoreId, Content>, p: Option<Frame>,
                    g: Frame, params: Params, s: Slot)
    requires EnteredBelow(make, before, filled, p, g, params) && s in g.res
    ensures g.res[s] in filled
    ensures var view := Seen(p, before);
            && (GetsOwn(g.kind, s, params) || s in view)
            && filled[g.res[s]] == if GetsOwn(g.kind, s, params) then StartFrom(make, Look(view, s), g.kind, s, params)
                                   else view[s]
  {
    hide StartFrom, GetsOwn, HasSlot;
    assert Obtained(make, before, filled, p, g, s, params);
  }

  /** The new frame sees what it should. */
  lemma EnterSees(make: Making, before: map<StoreId, Content>, filled: map<StoreId, Content>, p: Option<Frame>,
                  g: Frame, params: Params)
    requires EnteredBelow(make, before, filled, p, g, params)
    ensures var after := WithArg0(make, filled, g, params);
            Seen(Some(g), after) == Entering(make, Seen(p, before), g.kind, params)
  {
    hide Started, NamedArg0, Seen, WithArg0, EnteredBelow;
    EnteredFacts(make, before, filled, p, g, params);
    StartSees(make, before, filled, p, g, params);
    Arg0Sees(make, filled, g, params);
  }

  lemma StartSees(make: Making, before: map<StoreId, Content>, filled: map<StoreId, Content>, p: Option<Frame>,
                  g: Frame, params: Params)
    requires EnteredBelow(make, before, filled, p, g, params)
    ensures Seen(Some(g), filled) == Started(make, Seen(p, before), g.kind, params)
  {
    hide StartFrom, GetsOwn, HasSlot, EnteredBelow;
    EnteredFacts(make, before, filled, p, g, params);
    var seen, want := Seen(Some(g), filled), Started(make, Seen(p, before), g.kind, params);
    forall s ensures s in seen <==> s in want {
      if s in g.res {
        SlotEntered(make, before, filled, p, g, params, s);
      }
    }
    forall s | s in seen ensures seen[s] == want[s] {
      SlotEntered(make, before, filled, p, g, params, s);
    }
  }

  lemma Arg0Sees(make: Making, filled: map<StoreId, Content>, g: Frame, params: Params)
    requires Distinct(g) && Positional in g.res && g.res[Positional] in filled
    ensures Seen(Some(g), WithArg0(make, filled, g, params)) ==
            NamedArg0(make, Seen(Some(g), filled), g.kind, params)
  {
    hide PolicyOf;
  }

  lemma EnteredFacts(make: Making, before: map<StoreId, Content>, filled: map<StoreId, Content>, p: Option<Frame>,
                     g: Frame, params: Params)
    requires EnteredBelow(make, before, filled, p, g, params)
    ensures Distinct(g) && forall s :: s in g.res <==> HasSlot(g.kind, s)
    ensures Positional in g.res && g.res[Positional] in filled
  {
    assert HasSlot(g.kind, Positional);
    SlotEntered(make, before, filled, p, g, params, Positional);
  }

  /** What the new frame points to: its own new stores, and its parent's. */
  lemma NewOrShared(make: Making, before: map<StoreId, Content>, filled: map<StoreId, Content>, p: Option<Frame>,
                    g: Frame, params: Params, id: StoreId)
    requires EnteredBelow(make, before, filled, p, g, params) && id in before && PointsTo(Some(g), id)
    ensures PointsTo(p, id)
    ensures forall s :: p.Some? && s in p.value.res && p.value.res[s] == id && Distinct(p.value) ==>
              HasSlot(g.kind, s) && !GetsOwn(g.kind, s, params)
  {
    hide StartFrom, GetsOwn, HasSlot;
    var t :| t in g.res && g.res[t] == id;
    assert Obtained(make, before, filled, p, g, t, params);
  }

  lemma EnterTouches(make: Making, before: map<StoreId, Content>, filled: map<StoreId, Content>, p: Option<Frame>,
                     g: Frame, params: Params)
    requires EnteredBelow(make, before, filled, p, g, params)
    ensures Untouched(p, before, WithArg0(make, filled, g, params))
    ensures forall id :: id in before && !PointsTo(Some(g), id) ==>
              var after := WithArg0(make, filled, g, params); id in after && after[id] == before[id]
  {
    hide StartFrom, GetsOwn, HasSlot, Obtained, PolicyOf;
    EnteredFacts(make, before, filled, p, g, params);
    var after := WithArg0(make, filled, g, params);
    forall id | id in before && !PointsTo(p, id) ensures id in after && after[id] == before[id] {
      if PointsTo(Some(g), id) {
        NewOrShared(make, before, filled, p, g, params, id);
      }
    }
  }

  /** After leaving g, p sees the changes to what they share and nothing else. */
  lemma LeaveSees(make: Making, before: map<StoreId, Content>, filled: map<StoreId, Content>, p: Option<Frame>,
                  g: Frame, params: Params, inside: map<StoreId, Content>, after: map<StoreId, Content>)
    requires EnteredBelow(make, before, filled, p, g, params) && (p.Some? ==> Distinct(p.value))
    requires Untouched(Some(g), WithArg0(make, filled, g, params), inside)
    requires inside.Keys == WithArg0(make, filled, g, params).Keys
    requires after.Keys == before.Keys && forall id :: id in after ==> id in inside && after[id] == inside[id]
    ensures Seen(p, after) == Leaving(g.kind, params, Seen(p, before), Seen(Some(g), inside))
    ensures Untouched(p, before, after)
  {
    hide StartFrom, GetsOwn, HasSlot, Obtained, WithArg0, EnteredBelow, PointsTo, Distinct;
    EnterTouches(make, before, filled, p, g, params);
    forall id | id in before && !PointsTo(p, id) ensures id in after && after[id] == before[id] {
      if PointsTo(Some(g), id) {
        NewOrShared(make, before, filled, p, g, params, id);
      }
      assert id in after.Keys;
    }
    if p.Some? {
      var outer, inner := Seen(p, before), Seen(Some(g), inside);
      forall s | s in p.value.res ensures LeftAs(p.value, after, s, Leaving(g.kind, params, outer, inner)) {
        SlotLeft(make, before, filled, p.value, g, params, inside, after, s);
      }
      SeenIs(p.value, after, Leaving(g.kind, params, outer, inner));
    }
  }

  ghost predicate LeftAs(p: Frame, after: map<StoreId, Content>, s: Slot, want: View) {
    s in p.res && p.res[s] in after && s in want && after[p.res[s]] == want[s]
  }

  lemma SeenIs(p: Frame, after: map<StoreId, Content>, want: View)
    requires forall s :: s in p.res ==> LeftAs(p, after, s, want)
    requires forall s :: s in want ==> s in p.res
    ensures Seen(Some(p), after) == want
  {
  }

  lemma SlotLeft(make: Making, before: map<StoreId, Content>, filled: map<StoreId, Content>, p: Frame, g: Frame,
                 params: Params, inside: map<StoreId, Content>, after: map<StoreId, Content>, s: Slot)
    requires EnteredBelow(make, before, filled, Some(p), g, params) && Distinct(p) && s in p.res
    requires Untouched(Some(g), WithArg0(make, filled, g, params), inside)
    requires inside.Keys == WithArg0(make, filled, g, params).Keys
    requires after.Keys == before.Keys && forall id :: id in after ==> id in inside && after[id] == inside[id]
    ensures p.res[s] in before && p.res[s] in after && s in Seen(Some(p), before)
    ensures after[p.res[s]] == Leaving(g.kind, params, Seen(Some(p), before), Seen(Some(g), inside))[s]
  {
    hide StartFrom, GetsOwn, HasSlot, WithArg0, EnteredBelow, Untouched, Seen, PointsTo;
    var id := p.res[s];
    ParentSlot(make, before, filled, p, g, params, s);
    assert id in after.Keys;
    if HasSlot(g.kind, s) && !GetsOwn(g.kind, s, params) {
      SharedSlot(make, before, filled, p, g, params, inside, s);
    } else {
      OwnSlotLeft(make, before, filled, p, g, params, inside, s);
    }
  }

  lemma ParentSlot(make: Making, before: map<StoreId, Content>, filled: map<StoreId, Content>, p: Frame, g: Frame,
                   params: Params, s: Slot)
    requires EnteredBelow(make, before, filled, Some(p), g, params) && s in p.res
    ensures p.res[s] in before && s in Seen(Some(p), before) && Seen(Some(p), before)[s] == before[p.res[s]]
  {
  }

  lemma SharedSlot(make: Making, before: map<StoreId, Content>, filled: map<StoreId, Content>, p: Frame, g: Frame,
                   params: Params, inside: map<StoreId, Content>, s: Slot)
    requires EnteredBelow(make, before, filled, Some(p), g, params) && s in p.res && p.res[s] in inside
    requires HasSlot(g.kind, s) && !GetsOwn(g.kind, s, params)
    ensures s in Seen(Some(g), inside) && Seen(Some(g), inside)[s] == inside[p.res[s]]
  {
    hide StartFrom, GetsOwn, HasSlot;
    assert Obtained(make, before, filled, Some(p), g, s, params);
  }

  lemma OwnSlotLeft(make: Making, before: map<StoreId, Content>, filled: map<StoreId, Content>, p: Frame, g: Frame,
                    params: Params, inside: map<StoreId, Content>, s: Slot)
    requires EnteredBelow(make, before, filled, Some(p), g, params) && Distinct(p) && s in p.res && p.res[s] in before
    requires Untouched(Some(g), WithArg0(make, filled, g, params), inside)
    requires !(HasSlot(g.kind, s) && !GetsOwn(g.kind, s, params))
    ensures p.res[s] in inside && inside[p.res[s]] == before[p.res[s]]
  {
    hide StartFrom, GetsOwn, HasSlot, WithArg0, EnteredBelow;
    var id := p.res[s];
    EnterTouches(make, before, filled, Some(p), g, params);
    if PointsTo(Some(g), id) {
      NewOrShared(make, before, filled, Some(p), g, params, id);
      assert false;
    }
  }

  lemma WholeLive(p: Frame, stores: map<StoreId, Content>)
    requires Whole(p, stores)
    ensures forall s :: s in p.res ==> p.res[s] in stores
  {
  }

  lemma LastIs(fs: seq<Frame>)
    ensures LastFrame(fs) == if fs == [] then None else Some(fs[|fs|-1])
  {
  }

  lemma LastOfAll(fs: seq<Frame>, g: Frame)
    ensures LastFrame(fs + [g]) == Some(g)
  {
  }

  lemma IsEnteredBelow(make: Making, before: map<StoreId, Content>, filled: map<StoreId, Content>, p: Option<Frame>,
                       g: Frame, params: Params)
    requires Extends(before, filled) && (p.Some? ==> Whole(p.value, before)) && Distinct(g)
    requires forall s :: s in g.res ==> HasSlot(g.kind, s)
    requires forall s :: HasSlot(g.kind, s) ==> Obtained(make, before, filled, p, g, s, params)
    ensures EnteredBelow(make, before, filled, p, g, params)
  {
  }

  /** Only its slots matter for what a frame sees. */
  lemma SameSlotsSee(f: Frame, g: Frame, stores: map<StoreId, Content>)
    requires SameSlots(f, g)
    ensures Seen(Some(f), stores) == Seen(Some(g), stores)
    ensures forall before :: Untouched(Some(f), before, stores) <==> Untouched(Some(g), before, stores)
  {
    assert forall id :: PointsTo(Some(f), id) <==> PointsTo(Some(g), id);
  }

  predicate SameRes(f: Option<Frame>, g: Option<Frame>) {
    f.Some? == g.Some? && (f.Some? ==> f.value.res == g.value.res)
  }

  lemma LastSees(fs: seq<Frame>, status: Option<int>, stores: map<StoreId, Content>)
    ensures SameRes(LastFrame(fs), LastFrame(WithStatus(fs, status)))
    ensures Seen(LastFrame(WithStatus(fs, status)), stores) == Seen(LastFrame(fs), stores)
    ensures forall before :: Untouched(LastFrame(WithStatus(fs, status)), before, stores) <==>
              Untouched(LastFrame(fs), before, stores)
  {
    if fs != [] {
      assert SameSlots(WithStatus(fs, status)[|fs|-1], fs[|fs|-1]);
      SameSlotsSee(WithStatus(fs, status)[|fs|-1], fs[|fs|-1], stores);
    }
  }

  /** The conclusions of a nested run. */
  lemma RunSees(make: Making, nest: Nest, before: map<StoreId, Content>, after: map<StoreId, Content>,
                p: Option<Frame>, owner: Owners, g: Frame, inside: map<StoreId, Content>)
    requires g.kind == nest.kind && after.Keys == before.Keys && Untouched(p, before, after)
    requires Seen(p, after) == Leaving(g.kind, nest.params, Seen(p, before), Seen(Some(g), inside))
    requires Seen(Some(g), inside) ==
             InsideView(make, nest, |nest.inside|, Entering(make, Seen(p, before), nest.kind, nest.params))
    requires forall s :: p.Some? && s in p.value.res ==> p.value.res[s] in owner && owner[p.value.res[s]].slot == s
    ensures Seen(p, after) == RunView(make, nest, Seen(p, before))
    ensures Isolated(nest.kind, nest.params) ==> after == before
    ensures Quiet(nest) ==> SameButPositional(owner, before, after)
  {
    hide Seen, InsideView, Entering, Leaving, Untouched, Quiet, Isolated, SameButPositional;
    var view := Seen(p, before);
    if Isolated(nest.kind, nest.params) {
      IsolatedRunsShowNothing(make, nest, view);
      SameViewSameStores(p, before, after);
    }
    if Quiet(nest) {
      QuietViews(make, nest, view);
      forall s | s in view && s != Positional ensures s in Seen(p, after) && Seen(p, after)[s] == view[s] {
        assert s in view.Keys;
      }
      QuietSame(owner, p, before, after);
    }
  }

  lemma NothingRun(make: Making, nest: Nest, fs: seq<Frame>, stores: map<StoreId, Content>)
    ensures nest.inside[..0] == [] && WithStatus(fs, StatusAfter(nest.inside[..0])) == fs
    ensures InsideView(make, nest, 0, Seen(LastFrame(fs), stores)) == Seen(LastFrame(fs), stores)
    ensures Untouched(LastFrame(fs), stores, stores)
  {
  }

  lemma StepSees(make: Making, nest: Nest, k: nat, view: View)
    requires k < |nest.inside|
    ensures InsideView(make, nest, k + 1, view) ==
            match nest.inside[k]
            case Enter(inner) => RunView(make, inner, InsideView(make, nest, k, view))
            case Change(s, f) => Changed(InsideView(make, nest, k, view), s, f)
  {
    hide RunView, Changed;
  }

  lemma UntouchedTwice(f: Option<Frame>, g: Option<Frame>, a: map<StoreId, Content>, b: map<StoreId, Content>,
                       c: map<StoreId, Content>)
    requires SameRes(f, g)
    requires Untouched(f, a, b) && Untouched(g, b, c)
    ensures Untouched(f, a, c)
  {
    assert forall id :: PointsTo(f, id) <==> PointsTo(g, id);
  }

  lemma NoStatus(s: Slot, f: Content -> Content, fs: seq<Frame>)
    ensures WithStatus(fs, StatusOf(Change(s, f))) == fs
  {
  }

  lemma OneSlotChanged(g: Frame, s: Slot, f: Content -> Content, before: map<StoreId, Content>,
                       after: map<StoreId, Content>)
    requires Distinct(g) && forall t :: t in g.res ==> g.res[t] in before
    requires after == if s in g.res then before[g.res[s] := f(before[g.res[s]])] else before
    ensures after.Keys == before.Keys
    ensures Seen(Some(g), after) == Changed(Seen(Some(g), before), s, f) && Untouched(Some(g), before, after)
  {
  }

  // ----------------------------------------- what goes in, kind by kind

  /** The slot looks the same to the new frame as to its parent. */
  predicate SameIn(before: View, after: View, s: Slot) {
    s in before ==> s in after && after[s] == before[s]
  }

  /** Which content a new frame starts with, by the names of kinds and slots. */
  ghost predicate Inherits(make: Making, before: View, after: View, kind: Kind, params: Params) {
    && (kind in {Subshell, BackgroundJob, PipelineCmd} ==> InheritsCopies(make, before, after))
    && (kind == Function ==> InheritsCall(make, before, after, params))
    && (kind == DotScript ==> InheritsScript(make, before, after, params))
    && (kind in {BraceGroup, Loop, Trap, Pipeline, Eval} ==> InheritsEverything(before, after))
    && (kind in {TopLevel, Subshell, Function, BackgroundJob, PipelineCmd, DotScript, Eval} ==>
          InheritsSource(make, before, after, kind, params))
  }

  ghost predicate InheritsCopies(make: Making, before: View, after: View) {
    && (forall s :: s !in {Traps, SourceName, Locals} ==> SameIn(before, after, s))
    && (Traps in before ==> Traps in after && after[Traps] == make.resetTraps(before[Traps]))
  }

  ghost predicate InheritsCall(make: Making, before: View, after: View, params: Params) {
    && (forall s :: s !in {Positional, SourceName, Locals} ==> SameIn(before, after, s))
    && Positional in after && Locals in after && after[Locals] == make.initial(Function, Locals)
    && (params.arguments.None? ==> after[Positional] == make.initial(Function, Positional))
    && (params.arguments.Some? && Positional in before ==>
          after[Positional] == make.called(make.arg0(before[Positional]), params.arguments.value))
  }

  ghost predicate InheritsScript(make: Making, before: View, after: View, params: Params) {
    && (forall s :: s !in {Positional, SourceName, Locals} ==> SameIn(before, after, s))
    && (Positional in before ==>
          var mine := if params.arguments.Some?
                      then make.called(make.arg0(before[Positional]), params.arguments.value)
                      else before[Positional];
          && Positional in after
          && after[Positional] == if params.scriptPath.Some? then make.setArg0(mine, params.scriptPath.value) else mine)
  }

  ghost predicate InheritsEverything(before: View, after: View) {
    forall s :: s !in {SourceName, Locals} ==> SameIn(before, after, s)
  }

  ghost predicate InheritsSource(make: Making, before: View, after: View, kind: Kind, params: Params) {
    && SourceName in after
    && after[SourceName] == if params.scriptPath.Some? then params.scriptPath.value
                            else if SourceName in before then before[SourceName]
                            else make.initial(kind, SourceName)
  }

  lemma EnteringInherits(make: Making, view: View, kind: Kind, params: Params)
    ensures Inherits(make, view, Entering(make, view, kind, params), kind, params)
  {
    hide InheritsCopies, InheritsCall, InheritsScript, InheritsEverything, InheritsSource, Entering;
    if kind in {Subshell, BackgroundJob, PipelineCmd} {
      CopiesGoIn(make, view, kind, params);
    }
    if kind == Function {
      CallGoesIn(make, view, params);
    }
    if kind == DotScript {
      ScriptGoesIn(make, view, params);
    }
    if kind in {BraceGroup, Loop, Trap, Pipeline, Eval} {
      EverythingGoesIn(make, view, kind, params);
    }
    if kind in {TopLevel, Subshell, Function, BackgroundJob, PipelineCmd, DotScript, Eval} {
      SourceGoesIn(make, view, kind, params);
    }
  }

  /** One slot of a frame just entered, before $0 is set. */
  lemma SlotStarts(make: Making, view: View, kind: Kind, params: Params, s: Slot)
    requires HasSlot(kind, s)
    ensures GetsOwn(kind, s, params) ==>
      s in Started(make, view, kind, params) &&
      Started(make, view, kind, params)[s] == StartFrom(make, Look(view, s), kind, s, params)
    ensures !GetsOwn(kind, s, params) ==> SameIn(view, Started(make, view, kind, params), s)
  {
    hide GetsOwn, HasSlot, StartFrom;
  }

  lemma NoArg0(make: Making, view: View, kind: Kind, params: Params)
    ensures kind != DotScript ==> Entering(make, view, kind, params) == Started(make, view, kind, params)
    ensures forall s :: s != Positional ==>
              SameIn(Started(make, view, kind, params), Entering(make, view, kind, params), s)
  {
    hide Started;
  }

  lemma CopiesGoIn(make: Making, view: View, kind: Kind, params: Params)
    requires kind in {Subshell, BackgroundJob, PipelineCmd}
    ensures InheritsCopies(make, view, Entering(make, view, kind, params))
  {
    hide Started, Entering;
    NoArg0(make, view, kind, params);
    forall s | s !in {Traps, SourceName, Locals} ensures SameIn(view, Started(make, view, kind, params), s) {
      SlotStarts(make, view, kind, params, s);
    }
    SlotStarts(make, view, kind, params, Traps);
  }

  lemma CallGoesIn(make: Making, view: View, params: Params)
    ensures InheritsCall(make, view, Entering(make, view, Function, params), params)
  {
    hide Started, Entering;
    NoArg0(make, view, Function, params);
    forall s | s !in {Positional, SourceName, Locals} ensures SameIn(view, Started(make, view, Function, params), s) {
      SlotStarts(make, view, Function, params, s);
    }
    SlotStarts(make, view, Function, params, Positional);
    SlotStarts(make, view, Function, params, Locals);
  }

  lemma ScriptGoesIn(make: Making, view: View, params: Params)
    ensures InheritsScript(make, view, Entering(make, view, DotScript, params), params)
  {
    hide Started;
    var start := Started(make, view, DotScript, params);
    NoArg0(make, view, DotScript, params);
    forall s | s !in {Positional, SourceName, Locals}
      ensures SameIn(view, Entering(make, view, DotScript, params), s)
    {
      SlotStarts(make, view, DotScript, params, s);
      assert SameIn(start, Entering(make, view, DotScript, params), s);
    }
    SlotStarts(make, view, DotScript, params, Positional);
  }

  lemma EverythingGoesIn(make: Making, view: View, kind: Kind, params: Params)
    requires kind in {BraceGroup, Loop, Trap, Pipeline, Eval}
    ensures InheritsEverything(view, Entering(make, view, kind, params))
  {
    hide Started, Entering;
    NoArg0(make, view, kind, params);
    forall s | s !in {SourceName, Locals} ensures SameIn(view, Started(make, view, kind, params), s) {
      SlotStarts(make, view, kind, params, s);
    }
  }

  lemma SourceGoesIn(make: Making, view: View, kind: Kind, params: Params)
    requires kind in {TopLevel, Subshell, Function, BackgroundJob, PipelineCmd, DotScript, Eval}
    ensures InheritsSource(make, view, Entering(make, view, kind, params), kind, params)
  {
    hide Started, Entering;
    NoArg0(make, view, kind, params);
    SlotStarts(make, view, kind, params, SourceName);
    assert SameIn(Started(make, view, kind, params), Entering(make, view, kind, params), SourceName);
  }

  // ------------------------------------------- the other kinds, by name

  /** Which slots a frame shares with the one around it, so that its changes show there. */
  lemma SharedByName(kind: Kind, params: Params, s: Slot)
    ensures HasSlot(kind, s) && !GetsOwn(kind, s, params) <==>
            && s != Locals && s != SourceName
            && (kind in {BraceGroup, Loop, Trap, Pipeline, Eval}
                || (kind == Function && s != Positional)
                || (kind == DotScript && (s == Positional ==> params.arguments.None?)))
  {
  }

  /** Which kinds hand their exit status up, count as a loop, and run in a trap. */
  lemma PoliciesByName(kind: Kind)
    ensures PolicyOf(kind).affectsParentStatus <==>
            kind in {Subshell, BraceGroup, Function, Loop, Pipeline, PipelineCmd, DotScript, Eval}
    ensures PolicyOf(kind).isLoop <==> kind == Loop
    ensures HasSlot(kind, Locals) <==> kind == Function
    ensures HasSlot(kind, SourceName) <==>
            kind in {TopLevel, Subshell, Function, BackgroundJob, PipelineCmd, DotScript, Eval}
  {
  }

  /** The slots a pre-initialized executor hands to its first frame. */
  lemma HandedOverByName(s: Slot)
    ensures s in HANDED_OVER <==> s in {Variables, Positional, Functions, Aliases, Traps, Fds, Cwd}
  {
  }

  // ------------------------------------------------------- what shows, and what not

  /** A frame with a store of its own in every slot. */
  predicate Isolated(kind: Kind, params: Params) {
    forall s :: HasSlot(kind, s) ==> GetsOwn(kind, s, params)
  }

  lemma IsolatedKinds(kind: Kind, params: Params)
    ensures Isolated(kind, params) <==>
            kind == TopLevel || kind == Subshell || kind == BackgroundJob || kind == PipelineCmd
  {
    assert HasSlot(kind, Variables) && (GetsOwn(kind, Variables, params) <==> ScopeOf(kind, Variables) != Share);
  }

  /** Whatever runs in an isolated frame, the frame around it sees nothing of it. */
  lemma IsolatedRunsShowNothing(make: Making, nest: Nest, view: View)
    requires Isolated(nest.kind, nest.params)
    ensures RunView(make, nest, view) == view
  {
    hide InsideView, Entering, GetsOwn, HasSlot;
  }

  /** And then no store has changed at all. */
  lemma SameViewSameStores(p: Option<Frame>, before: map<StoreId, Content>, after: map<StoreId, Content>)
    requires Untouched(p, before, after) && after.Keys == before.Keys && Seen(p, after) == Seen(p, before)
    ensures after == before
  {
    forall id | id in before ensures id in after && after[id] == before[id] {
      assert id in after.Keys;
      if PointsTo(p, id) {
        var s :| s in p.value.res && p.value.res[s] == id;
        assert s in Seen(p, before) && Seen(p, after)[s] == Seen(p, before)[s];
      }
    }
  }

  lemma {:induction false} ViewsKeepSlots(make: Making, nest: Nest, k: nat, view: View)
    requires k <= |nest.inside|
    ensures InsideView(make, nest, k, view).Keys == view.Keys
    decreases k
  {
    if k == 0 {
    } else {
      ViewsKeepSlots(make, nest, k - 1, view);
      match nest.inside[k-1] {
        case Enter(inner) => assert RunView(make, inner, InsideView(make, nest, k - 1, view)).Keys == view.Keys;
        case Change(s, f) =>
      }
    }
  }

  /** The last change a frame makes to a slot it shares is what the frame around it sees. */
  lemma SharedChangeShows(make: Making, nest: Nest, s: Slot, f: Content -> Content, view: View)
    requires nest.inside != [] && nest.inside[|nest.inside|-1] == Change(s, f)
    requires HasSlot(nest.kind, s) && !GetsOwn(nest.kind, s, nest.params) && s in view
    ensures var start := Entering(make, view, nest.kind, nest.params);
            var before := InsideView(make, nest, |nest.inside| - 1, start);
            s in before && s in RunView(make, nest, view) && RunView(make, nest, view)[s] == f(before[s])
  {
    hide StartFrom, HasSlot, GetsOwn;
    var start := Entering(make, view, nest.kind, nest.params);
    ViewsKeepSlots(make, nest, |nest.inside| - 1, start);
    assert s in start.Keys;
  }

  /** No step of a run, at any depth, changes a slot. */
  predicate Quiet(nest: Nest) {
    forall k :: 0 <= k < |nest.inside| ==> QuietStep(nest.inside[k])
  }

  predicate QuietStep(step: Step) {
    match step
    case Enter(nest) => Quiet(nest)
    case Change(_, _) => false
  }

  /** Then only positional parameters can look different, through their $0. */
  lemma {:induction false} QuietViews(make: Making, nest: Nest, view: View)
    requires Quiet(nest)
    ensures RunView(make, nest, view).Keys == view.Keys
    ensures forall s :: s in view && s != Positional ==> RunView(make, nest, view)[s] == view[s]
    decreases nest, |nest.inside| + 1
  {
    hide StartFrom, HasSlot, GetsOwn;
    QuietInside(make, nest, |nest.inside|, Entering(make, view, nest.kind, nest.params));
  }

  lemma {:induction false} QuietInside(make: Making, nest: Nest, k: nat, view: View)
    requires Quiet(nest) && k <= |nest.inside|
    ensures InsideView(make, nest, k, view).Keys == view.Keys
    ensures forall s :: s in view && s != Positional ==> InsideView(make, nest, k, view)[s] == view[s]
    decreases nest, k
  {
    hide StartFrom, HasSlot, GetsOwn;
    if k == 0 {
    } else {
      var before := InsideView(make, nest, k - 1, view);
      QuietInside(make, nest, k - 1, view);
      assert QuietStep(nest.inside[k-1]);
      QuietViews(make, nest.inside[k-1].nest, before);
      forall s | s in view && s != Positional ensures InsideView(make, nest, k, view)[s] == view[s] {
        assert s in view.Keys && s in before;
      }
    }
  }

  lemma QuietSame(owner: Owners, p: Option<Frame>, before: map<StoreId, Content>, after: map<StoreId, Content>)
    requires Untouched(p, before, after) && after.Keys == before.Keys
    requires forall s :: p.Some? && s in p.value.res ==> p.value.res[s] in owner && owner[p.value.res[s]].slot == s
    requires forall s :: s in Seen(p, before) && s != Positional ==>
               s in Seen(p, after) && Seen(p, after)[s] == Seen(p, before)[s]
    ensures SameButPositional(owner, before, after)
  {
    forall id | id in before && id in owner && owner[id].slot != Positional ensures after[id] == before[id] {
      if PointsTo(p, id) {
        var s :| s in p.value.res && p.value.res[s] == id;
        assert s in Seen(p, before);
      }
    }
  }

  // ------------------------------------------------ the first frame's slots

  /** Slot s of the first frame g, once the slots in done were handed over: the
      executor's store with what it held, or a new store. */
  ghost predicate TopSlot(make: Making, stores0: map<StoreId, Content>, pre0: map<Slot, StoreId>,
                          stores: map<StoreId, Content>, g: Frame, s: Slot, done: seq<Slot>,
                          given: map<Slot, Content>) {
    HasSlot(TopLevel, s) ==>
      && s in g.res && g.res[s] in stores
      && if s in done && s in pre0
         then g.res[s] == pre0[s] && pre0[s] in stores0 && stores[pre0[s]] == stores0[pre0[s]]
         else g.res[s] !in stores0 && stores[g.res[s]] == if s in given then given[s] else make.initial(TopLevel, s)
  }

  /** The executor's stores that are still to be handed over are untouched. */
  ghost predicate Waiting(stores0: map<StoreId, Content>, pre0: map<Slot, StoreId>, stores: map<StoreId, Content>,
                          done: seq<Slot>) {
    forall s :: s in pre0 && s !in done ==>
      pre0[s] in stores0 && pre0[s] in stores && stores[pre0[s]] == stores0[pre0[s]]
  }

  function Given(options: Content, umask: Content): map<Slot, Content> {
    map[Options := options, Umask := umask]
  }

  lemma TopStart(make: Making, stores0: map<StoreId, Content>, stores: map<StoreId, Content>,
                 pre0: map<Slot, StoreId>, g: Frame)
    requires g.kind == TopLevel && Extends(stores0, stores) && (forall s :: s in pre0 ==> pre0[s] in stores0)
    requires forall s :: HasSlot(TopLevel, s) ==> Obtained(make, stores0, stores, None, g, s, Params(None, None))
    ensures Waiting(stores0, pre0, stores, []) && WithArg0(make, stores, g, Params(None, None)) == stores
    ensures forall s :: TopSlot(make, stores0, pre0, stores, g, s, [], map[])
  {
    forall s ensures TopSlot(make, stores0, pre0, stores, g, s, [], map[]) {
      if HasSlot(TopLevel, s) {
        assert Obtained(make, stores0, stores, None, g, s, Params(None, None));
        TopLevelOwns(s, Params(None, None));
      }
    }
  }

  lemma HandedFacts(k: nat)
    requires k < |HANDED_OVER|
    ensures HANDED_OVER[k] != Locals && HANDED_OVER[k] != SourceName && HANDED_OVER[k] !in HANDED_OVER[..k]
    ensures HANDED_OVER[..k+1] == HANDED_OVER[..k] + [HANDED_OVER[k]]
    ensures HasSlot(TopLevel, HANDED_OVER[k])
  {
  }

  lemma TopStep(make: Making, stores0: map<StoreId, Content>, pre0: map<Slot, StoreId>, was: map<StoreId, Content>,
                stores: map<StoreId, Content>, g: Frame, g': Frame, done: seq<Slot>, s: Slot)
    requires s in pre0 && s !in done && s in g.res
    requires forall t :: TopSlot(make, stores0, pre0, was, g, t, done, map[])
    requires Waiting(stores0, pre0, was, done)
    requires stores == was - {g.res[s]} && g'.res == g.res[s := pre0[s]]
    requires forall t :: t in g.res && t != s ==> g.res[t] != g.res[s]
    requires forall t :: t in pre0 && t !in done ==> pre0[t] != g.res[s]
    ensures forall t :: TopSlot(make, stores0, pre0, stores, g', t, done + [s], map[])
    ensures Waiting(stores0, pre0, stores, done + [s])
  {
    hide HasSlot;
    forall t ensures TopSlot(make, stores0, pre0, stores, g', t, done + [s], map[]) {
      assert TopSlot(make, stores0, pre0, was, g, t, done, map[]);
    }
  }

  lemma TopSkip(make: Making, stores0: map<StoreId, Content>, pre0: map<Slot, StoreId>, stores: map<StoreId, Content>,
                g: Frame, done: seq<Slot>, s: Slot)
    requires s !in pre0
    requires forall t :: TopSlot(make, stores0, pre0, stores, g, t, done, map[])
    requires Waiting(stores0, pre0, stores, done)
    ensures forall t :: TopSlot(make, stores0, pre0, stores, g, t, done + [s], map[])
    ensures Waiting(stores0, pre0, stores, done + [s])
  {
    hide HasSlot;
    forall t ensures TopSlot(make, stores0, pre0, stores, g, t, done + [s], map[]) {
      assert TopSlot(make, stores0, pre0, stores, g, t, done, map[]);
    }
  }

  lemma TopGiven(make: Making, stores0: map<StoreId, Content>, pre0: map<Slot, StoreId>, was: map<StoreId, Content>,
                 stores: map<StoreId, Content>, g: Frame, given: map<Slot, Content>, s: Slot, content: Content)
    requires s !in HANDED_OVER && s in g.res && stores == was[g.res[s] := content]
    requires forall t :: TopSlot(make, stores0, pre0, was, g, t, HANDED_OVER, given)
    requires forall t :: t in g.res && t != s ==> g.res[t] != g.res[s]
    ensures var now := given[s := content]; forall t :: TopSlot(make, stores0, pre0, stores, g, t, HANDED_OVER, now)
  {
    hide HasSlot;
    var now := given[s := content];
    forall t ensures TopSlot(make, stores0, pre0, stores, g, t, HANDED_OVER, now) {
      assert TopSlot(make, stores0, pre0, was, g, t, HANDED_OVER, given);
    }
  }

  lemma TopResOnly(make: Making, stores0: map<StoreId, Content>, pre0: map<Slot, StoreId>,
                   stores: map<StoreId, Content>, g: Frame, g': Frame, given: map<Slot, Content>)
    requires g'.res == g.res && forall t :: TopSlot(make, stores0, pre0, stores, g, t, HANDED_OVER, given)
    ensures forall t :: TopSlot(make, stores0, pre0, stores, g', t, HANDED_OVER, given)
  {
    forall t ensures TopSlot(make, stores0, pre0, stores, g', t, HANDED_OVER, given) {
      assert TopSlot(make, stores0, pre0, stores, g, t, HANDED_OVER, given);
    }
  }

  lemma NoSlotNoOverride(kind: Kind, s: Slot, params: Params)
    ensures !HasSlot(kind, s) ==> !Overrides(kind, s, params)
  {
  }

  lemma TopLevelOwns(s: Slot, params: Params)
    ensures GetsOwn(TopLevel, s, params) && !Overrides(TopLevel, s, params)
  {
  }

  lemma SharableSlot(p: Frame, stores: map<StoreId, Content>, kind: Kind, s: Slot, params: Params)
    requires Whole(p, stores)
    ensures Positional in p.res && (s in p.res ==> p.res[s] in stores)
    ensures !GetsOwn(kind, s, params) ==> s in p.res
    ensures Overrides(kind, s, params) ==> s == Positional
    ensures GetsOwn(kind, s, params) && !Overrides(kind, s, params) ==> ScopeOf(kind, s) != Share
  {
  }

  lemma NotOwn(kind: Kind, s: Slot, params: Params)
    requires !GetsOwn(kind, s, params)
    ensures ScopeOf(kind, s) == Share && !Overrides(kind, s, params)
  {
  }

  lemma ObtainedOwn(make: Making, before: map<StoreId, Content>, mid: map<StoreId, Content>,
                    after: map<StoreId, Content>, p: Option<Frame>, g: Frame, s: Slot, params: Params)
    requires Extends(before, mid) && GetsOwn(g.kind, s, params) && s in g.res && g.res[s] !in mid
    requires after == mid[g.res[s] := StartContent(make, before, p, g.kind, s, params)]
    ensures Obtained(make, before, after, p, g, s, params) && Extends(before, after)
  {
  }

  lemma ObtainedShare(make: Making, before: map<StoreId, Content>, after: map<StoreId, Content>,
                      p: Option<Frame>, g: Frame, s: Slot, params: Params)
    requires !GetsOwn(g.kind, s, params) && s in g.res && p.Some? && s in p.value.res && g.res[s] == p.value.res[s]
    ensures Obtained(make, before, after, p, g, s, params)
  {
  }

  lemma SameStart(make: Making, before: map<StoreId, Content>, after: map<StoreId, Content>,
                  p: Option<Frame>, kind: Kind, s: Slot, params: Params)
    requires Extends(before, after)
    requires p.Some? && s in p.value.res ==> p.value.res[s] in before
    ensures StartContent(make, before, p, kind, s, params) == StartContent(make, after, p, kind, s, params)
  {
  }
}
