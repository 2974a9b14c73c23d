/** The builtin command registry: an open-addressing hash table with linear
    probing, tombstones and purge-on-grow (src/builtin_store.c), proved to
    behave as a finite map from names to bindings. */
module BuiltinStore {
  import opened Bits
  import opened Options

  const INITIAL_CAPACITY: nat := 32
  const LOAD_FACTOR_PCT: nat := 70

  datatype Category = Special | Regular
  datatype Binding<F> = Binding(fn: F, category: Category)

  datatype Slot<F> =
    | Empty
    | Tombstone
    | Occupied(hash: nat, name: string, fn: F, category: Category)

  // ---------------------------------------------------------------- hashing

  const FNV_OFFSET: bv32 := 2166136261
  const FNV_PRIME: bv32 := 16777619

  function Mix(hash: bv32, c: char): bv32 {
    (hash ^ ((c as int % 256) as bv32)) * FNV_PRIME
  }

  ghost function Fnv1a(s: string): bv32 {
    if s == [] then FNV_OFFSET else Mix(Fnv1a(s[..|s|-1]), s[|s|-1])
  }

  ghost function HashOf(name: string): nat {
    Fnv1a(name) as nat
  }

  method Fnv1aHash(str: string) returns (hash: nat)
    ensures hash == HashOf(str)
  {
    var h := FNV_OFFSET;
    for i := 0 to |str|
      invariant h == Fnv1a(str[..i])
    {
      h := Mix(h, str[i]);
      assert str[..i+1][..i] == str[..i];
    }
    assert str[..|str|] == str;
    hash := h as nat;
  }

  // ---------------------------------------------------------------- probing

  /** The i-th slot visited from home. */
  function Probe(home: nat, i: nat, cap: nat): (p: nat)
    requires home < cap && i < cap
    ensures p < cap
  {
    if home + i < cap then home + i else home + i - cap
  }

  /** How many steps after home slot p is visited. */
  function Dist(home: nat, p: nat, cap: nat): (d: nat)
    requires home < cap && p < cap
    ensures d < cap && Probe(home, d, cap) == p
  {
    if home <= p then p - home else p + cap - home
  }

  lemma MulLe(a: int, b: int, c: nat)
    requires a <= b
    ensures a * c <= b * c
  {
  }

  /** The code masks the sum with capacity - 1: for a power of two that is the
      remainder, and for the sums that occur one conditional subtraction. */
  lemma ProbeIsMasked(home: nat, i: nat, cap: nat)
    requires IsPowerOfTwo(cap) && home < cap && i < cap
    ensures Bitwise(And, home + i, cap - 1) == (home + i) % cap == Probe(home, i, cap)
  {
    MaskIsMod(home + i, cap);
    ProbeIsMod(home, i, cap);
  }

  lemma ProbeIsMod(home: nat, i: nat, cap: nat)
    requires home < cap && i < cap
    ensures (home + i) % cap == Probe(home, i, cap)
  {
    if home + i < cap {
      RemainderIs(home + i, cap, 0, home + i);
    } else {
      RemainderIs(home + i, cap, 1, home + i - cap);
    }
  }

  // ------------------------------------------------------------- invariants

  ghost function Home(name: string, cap: nat): (h: nat)
    requires cap > 0
    ensures h < cap
  {
    HashOf(name) % cap
  }

  /** No EMPTY slot among the first d probes from home. */
  ghost predicate Chain<F>(s: seq<Slot<F>>, home: nat, d: nat)
    requires home < |s| && d <= |s|
  {
    forall i :: 0 <= i < d ==> !s[Probe(home, i, |s|)].Empty?
  }

  /** The entry in slot p caches its hash and is reachable from its home slot. */
  ghost predicate LinkedAt<F>(s: seq<Slot<F>>, p: nat) {
    p < |s| && s[p].Occupied? ==>
      && s[p].hash == HashOf(s[p].name)
      && Chain(s, Home(s[p].name, |s|), Dist(Home(s[p].name, |s|), p, |s|))
  }

  ghost predicate Linked<F>(s: seq<Slot<F>>) {
    |s| > 0 && forall p: nat {:trigger LinkedAt(s, p)} :: LinkedAt(s, p)
  }

  ghost predicate Unique<F>(s: seq<Slot<F>>) {
    forall p, q :: 0 <= p < |s| && 0 <= q < |s| && s[p].Occupied? && s[q].Occupied? && s[p].name == s[q].name ==> p == q
  }

  ghost predicate HasEmpty<F>(s: seq<Slot<F>>) {
    exists p :: 0 <= p < |s| && s[p].Empty?
  }

  ghost predicate Absent<F>(s: seq<Slot<F>>, name: string) {
    forall p :: 0 <= p < |s| && s[p].Occupied? ==> s[p].name != name
  }

  /** The table holds exactly the bindings of m. */
  ghost predicate Represents<F>(s: seq<Slot<F>>, m: map<string, Binding<F>>) {
    && (forall p :: 0 <= p < |s| && s[p].Occupied? ==>
          s[p].name in m && m[s[p].name] == Binding(s[p].fn, s[p].category))
    && (forall n :: n in m ==> !Absent(s, n))
  }

  /** The number of live slots. */
  ghost function Live<F>(s: seq<Slot<F>>): (n: nat)
    ensures n <= |s|
  {
    if s == [] then 0 else Live(s[..|s|-1]) + (if s[|s|-1].Occupied? then 1 else 0)
  }

  /** The number of tombstones. */
  ghost function Dead<F>(s: seq<Slot<F>>): (n: nat)
    ensures n <= |s|
  {
    if s == [] then 0 else Dead(s[..|s|-1]) + (if s[|s|-1].Tombstone? then 1 else 0)
  }

  /** What a probe for name may answer: its slot, or, when it is absent, the
      first slot on its probe path that holds no live entry. */
  ghost predicate IsSlotFor<F>(s: seq<Slot<F>>, name: string, slot: nat) {
    && |s| > 0
    && slot < |s|
    && (s[slot].Occupied? ==> s[slot].name == name)
    && (!s[slot].Occupied? ==>
          && Absent(s, name)
          && LiveRun(s, Home(name, |s|), Dist(Home(name, |s|), slot, |s|)))
  }

  lemma {:induction false} LoadLeavesAnEmptySlot<F>(s: seq<Slot<F>>)
    ensures Live(s) + Dead(s) <= |s|
    ensures Live(s) + Dead(s) < |s| <==> HasEmpty(s)
  {
    if s == [] {
    } else {
      var rest := s[..|s|-1];
      LoadLeavesAnEmptySlot(rest);
      assert forall p :: 0 <= p < |rest| ==> rest[p] == s[p];
      if HasEmpty(rest) {
        var p :| 0 <= p < |rest| && rest[p].Empty?;
        assert s[p].Empty?;
      }
    }
  }

  lemma FullChainHasNoEmpty<F>(s: seq<Slot<F>>, home: nat)
    requires home < |s| && Chain(s, home, |s|)
    ensures !HasEmpty(s)
  {
    forall p | 0 <= p < |s| ensures !s[p].Empty? {
      assert !s[Probe(home, Dist(home, p, |s|), |s|)].Empty?;
    }
  }

  /** A live entry answers every probe for its name, so an EMPTY slot met on
      the way proves the name absent. */
  lemma EmptyEndsSearch<F>(s: seq<Slot<F>>, name: string, i: nat)
    requires Linked(s) && i < |s|
    requires s[Probe(Home(name, |s|), i, |s|)].Empty?
    requires forall j :: 0 <= j < i ==> Misses(s[Probe(Home(name, |s|), j, |s|)], name)
    ensures Absent(s, name)
  {
    forall p | 0 <= p < |s| && s[p].Occupied?
      ensures s[p].name != name
    {
      assert LinkedAt(s, p);
      var home := Home(s[p].name, |s|);
      assert Chain(s, home, Dist(home, p, |s|));
      assert s[Probe(home, Dist(home, p, |s|), |s|)] == s[p];
    }
  }

  lemma PlaceKeepsInvariants<F>(s: seq<Slot<F>>, slot: nat, hash: nat, name: string, fn: F, category: Category)
    requires Linked(s) && Unique(s) && IsSlotFor(s, name, slot) && !s[slot].Occupied?
    requires hash == HashOf(name)
    ensures var t := s[slot := Occupied(hash, name, fn, category)];
            Linked(t) && Unique(t)
  {
    var t := s[slot := Occupied(hash, name, fn, category)];
    forall p: nat ensures LinkedAt(t, p) {
      assert LinkedAt(s, p);
    }
  }

  /** Replacing a live entry by anything but EMPTY never breaks a chain. */
  lemma OverwriteKeepsInvariants<F>(s: seq<Slot<F>>, slot: nat, e: Slot<F>)
    requires Linked(s) && Unique(s) && slot < |s| && s[slot].Occupied?
    requires e.Tombstone? || (e.Occupied? && e.hash == s[slot].hash && e.name == s[slot].name)
    ensures Linked(s[slot := e]) && Unique(s[slot := e])
  {
    var t := s[slot := e];
    forall p: nat ensures LinkedAt(t, p) {
      assert LinkedAt(s, p);
    }
  }

  /** The slots hold exactly m, with the true slot counts. */
  ghost predicate Holds<F>(s: seq<Slot<F>>, m: map<string, Binding<F>>, count: int, tombstones: int) {
    && Linked(s) && Unique(s) && Represents(s, m)
    && count == Live(s) == |m|
    && tombstones == Dead(s)
  }

  lemma {:induction false} SlotCounts<F>(s: seq<Slot<F>>, slot: nat, e: Slot<F>)
    requires slot < |s|
    ensures Live(s[slot := e]) == Live(s) + (if e.Occupied? then 1 else 0) - (if s[slot].Occupied? then 1 else 0)
    ensures Dead(s[slot := e]) == Dead(s) + (if e.Tombstone? then 1 else 0) - (if s[slot].Tombstone? then 1 else 0)
  {
    var rest := s[..|s|-1];
    var t := s[slot := e];
    if slot == |s| - 1 {
      assert t[..|s|-1] == rest;
    } else {
      assert t[..|s|-1] == rest[slot := e];
      SlotCounts(rest, slot, e);
    }
  }

  lemma PlaceNew<F>(s: seq<Slot<F>>, m: map<string, Binding<F>>, count: int, tombstones: int,
                    slot: nat, hash: nat, name: string, b: Binding<F>)
    requires Holds(s, m, count, tombstones) && IsSlotFor(s, name, slot) && !s[slot].Occupied?
    requires hash == HashOf(name)
    ensures s[slot].Tombstone? ==> tombstones > 0
    ensures Holds(s[slot := Occupied(hash, name, b.fn, b.category)], m[name := b], count + 1,
                  if s[slot].Tombstone? then tombstones - 1 else tombstones)
  {
    PlaceKeepsInvariants(s, slot, hash, name, b.fn, b.category);
    PlaceRepresents(s, m, slot, hash, name, b);
    SlotCounts(s, slot, Occupied(hash, name, b.fn, b.category));
  }

  lemma PlaceRepresents<F>(s: seq<Slot<F>>, m: map<string, Binding<F>>, slot: nat, hash: nat, name: string,
                           b: Binding<F>)
    requires Represents(s, m) && Absent(s, name) && slot < |s| && !s[slot].Occupied?
    ensures name !in m
    ensures Represents(s[slot := Occupied(hash, name, b.fn, b.category)], m[name := b])
  {
    var t := s[slot := Occupied(hash, name, b.fn, b.category)];
    StillNamed(s, m, slot, t);
    assert t[slot].name == name;
  }

  lemma ReplaceLive<F>(s: seq<Slot<F>>, m: map<string, Binding<F>>, count: int, tombstones: int,
                       slot: nat, name: string, b: Binding<F>)
    requires Holds(s, m, count, tombstones) && slot < |s| && s[slot].Occupied? && s[slot].name == name
    ensures Holds(s[slot := Occupied(s[slot].hash, name, b.fn, b.category)], m[name := b], count, tombstones)
  {
    var e := Occupied(s[slot].hash, name, b.fn, b.category);
    OverwriteKeepsInvariants(s, slot, e);
    SlotCounts(s, slot, e);
    var t := s[slot := e];
    StillNamed(s, m, slot, t);
    assert t[slot].name == name;
  }

  lemma BuryLive<F>(s: seq<Slot<F>>, m: map<string, Binding<F>>, count: int, tombstones: int, slot: nat)
    requires Holds(s, m, count, tombstones) && slot < |s| && s[slot].Occupied?
    ensures Holds(s[slot := Tombstone], m - {s[slot].name}, count - 1, tombstones + 1)
  {
    OverwriteKeepsInvariants(s, slot, Tombstone);
    var t := s[slot := Tombstone];
    SlotCounts(s, slot, Tombstone);
    assert (m - {s[slot].name}).Keys == m.Keys - {s[slot].name};
    StillNamed(s, m, slot, t);
  }

  /** Names kept elsewhere than in the changed slot are still kept. */
  lemma StillNamed<F>(s: seq<Slot<F>>, m: map<string, Binding<F>>, slot: nat, t: seq<Slot<F>>)
    requires Represents(s, m) && slot < |s| == |t|
    requires forall p :: 0 <= p < |s| && p != slot ==> t[p] == s[p]
    ensures forall n :: n in m && !(s[slot].Occupied? && s[slot].name == n) ==> !Absent(t, n)
  {
    forall n | n in m && !(s[slot].Occupied? && s[slot].name == n)
      ensures !Absent(t, n)
    {
      var p :| 0 <= p < |s| && s[p].Occupied? && s[p].name == n;
      assert t[p] == s[p];
    }
  }

  /** A probe finds a live slot exactly when the name is bound, and then its binding. */
  lemma ProbeAgrees<F>(s: seq<Slot<F>>, m: map<string, Binding<F>>, name: string, slot: nat)
    requires Holds(s, m, |m|, Dead(s)) && IsSlotFor(s, name, slot)
    ensures slot < |s|
    ensures s[slot].Occupied? <==> name in m
    ensures name in m ==> s[slot].name == name && m[name] == Binding(s[slot].fn, s[slot].category)
  {
  }

  /** Rehashing progress: t holds exactly the live entries of the first i old slots. */
  ghost predicate Rehashed<F>(s: seq<Slot<F>>, i: nat, t: seq<Slot<F>>) {
    && i <= |s|
    && Linked(t) && Unique(t)
    && Dead(t) == 0
    && Live(t) == Live(s[..i])
    && (forall p :: 0 <= p < |t| && t[p].Occupied? ==> t[p] in s[..i])
    && (forall j :: 0 <= j < i && s[j].Occupied? ==> s[j] in t)
  }

  lemma {:induction false} AllEmpty<F>(t: seq<Slot<F>>)
    requires forall p :: 0 <= p < |t| ==> t[p] == Empty
    ensures Live(t) == Dead(t) == 0
  {
    if t == [] {
    } else {
      AllEmpty(t[..|t|-1]);
    }
  }

  lemma RehashStart<F>(s: seq<Slot<F>>, t: seq<Slot<F>>)
    requires |t| > 0 && forall p :: 0 <= p < |t| ==> t[p] == Empty
    ensures Rehashed(s, 0, t)
  {
    AllEmpty(t);
  }

  lemma RehashSkip<F>(s: seq<Slot<F>>, i: nat, t: seq<Slot<F>>)
    requires Rehashed(s, i, t) && i < |s| && !s[i].Occupied?
    ensures Rehashed(s, i + 1, t)
  {
    assert s[..i+1][..i] == s[..i];
  }

  lemma RehashRoom<F>(s: seq<Slot<F>>, i: nat, t: seq<Slot<F>>)
    requires Linked(s) && Rehashed(s, i, t) && i < |s| < |t|
    ensures HasEmpty(t) && Linked(t)
    ensures s[i].Occupied? ==> s[i].hash == HashOf(s[i].name)
  {
    assert LinkedAt(s, i);
    LoadLeavesAnEmptySlot(t);
  }

  lemma RehashFree<F>(s: seq<Slot<F>>, i: nat, t: seq<Slot<F>>, slot: nat)
    requires Rehashed(s, i, t) && Unique(s) && i < |s| && s[i].Occupied?
    requires IsSlotFor(t, s[i].name, slot)
    ensures t[slot].Empty?
  {
    assert forall j :: 0 <= j < i && s[j].Occupied? ==> s[j].name != s[i].name;
    assert forall p :: 0 <= p < |t| && t[p].Occupied? ==> t[p].name != s[i].name;
    if t[slot].Tombstone? {
      SlotCounts(t, slot, Empty);
    }
  }

  lemma RehashStep<F>(s: seq<Slot<F>>, i: nat, t: seq<Slot<F>>, slot: nat)
    requires Linked(s) && Unique(s) && Rehashed(s, i, t) && i < |s| && s[i].Occupied?
    requires IsSlotFor(t, s[i].name, slot)
    ensures slot < |t| && Rehashed(s, i + 1, t[slot := s[i]])
  {
    var e := s[i];
    RehashFree(s, i, t, slot);
    assert LinkedAt(s, i);
    PlaceKeepsInvariants(t, slot, e.hash, e.name, e.fn, e.category);
    SlotCounts(t, slot, e);
    assert s[..i+1][..i] == s[..i];
    RehashMoves(s, i, t, slot);
  }

  lemma RehashMoves<F>(s: seq<Slot<F>>, i: nat, t: seq<Slot<F>>, slot: nat)
    requires i < |s| && slot < |t| && t[slot].Empty?
    requires forall p :: 0 <= p < |t| && t[p].Occupied? ==> t[p] in s[..i]
    requires forall j :: 0 <= j < i && s[j].Occupied? ==> s[j] in t
    ensures var t' := t[slot := s[i]];
            && (forall p :: 0 <= p < |t'| && t'[p].Occupied? ==> t'[p] in s[..i+1])
            && (forall j :: 0 <= j < i + 1 && s[j].Occupied? ==> s[j] in t')
  {
    var t' := t[slot := s[i]];
    assert s[..i+1] == s[..i] + [s[i]];
    forall j | 0 <= j < i + 1 && s[j].Occupied?
      ensures s[j] in t'
    {
      if j < i {
        var q :| 0 <= q < |t| && t[q] == s[j];
        assert t'[q] == s[j];
      } else {
        assert t'[slot] == s[j];
      }
    }
  }

  lemma RehashDone<F>(s: seq<Slot<F>>, m: map<string, Binding<F>>, count: int, tombstones: int, t: seq<Slot<F>>)
    requires Holds(s, m, count, tombstones) && Rehashed(s, |s|, t)
    ensures Holds(t, m, count, 0)
  {
    assert s[..|s|] == s;
    forall n | n in m ensures !Absent(t, n) {
      var p :| 0 <= p < |s| && s[p].Occupied? && s[p].name == n;
      var q :| 0 <= q < |t| && t[q] == s[p];
    }
  }

  /** The first i probes for name met neither an EMPTY slot nor the name;
      firstTombstone is the first of them that was a tombstone. */
  ghost predicate Scanned<F>(s: seq<Slot<F>>, name: string, i: nat, firstTombstone: Option<nat>) {
    && i <= |s|
    && |s| > 0
    && var home := Home(name, |s|);
    && Chain(s, home, i)
    && (forall j :: 0 <= j < i ==> Misses(s[Probe(home, j, |s|)], name))
    && match firstTombstone
       case None => LiveRun(s, home, i)
       case Some(f) => f < |s| && s[f].Tombstone? && LiveRun(s, home, Dist(home, f, |s|))
  }

  predicate Misses<F>(e: Slot<F>, name: string) { e.Occupied? ==> e.name != name }

  ghost predicate LiveRun<F>(s: seq<Slot<F>>, home: nat, d: nat)
    requires home < |s| && d <= |s|
  {
    forall j :: 0 <= j < d ==> s[Probe(home, j, |s|)].Occupied?
  }

  lemma ScanEmpty<F>(s: seq<Slot<F>>, name: string, i: nat, firstTombstone: Option<nat>)
    requires Linked(s) && Scanned(s, name, i, firstTombstone) && i < |s|
    requires s[Probe(Home(name, |s|), i, |s|)].Empty?
    ensures IsSlotFor(s, name, if firstTombstone.Some? then firstTombstone.value else Probe(Home(name, |s|), i, |s|))
  {
    EmptyEndsSearch(s, name, i);
  }

  lemma ScanStep<F>(s: seq<Slot<F>>, name: string, i: nat, firstTombstone: Option<nat>)
    requires Scanned(s, name, i, firstTombstone) && i < |s|
    ensures var p := Probe(Home(name, |s|), i, |s|);
            && (s[p].Tombstone? ==> Scanned(s, name, i + 1, if firstTombstone.None? then Some(p) else firstTombstone))
            && (s[p].Occupied? && s[p].name != name ==> Scanned(s, name, i + 1, firstTombstone))
  {
  }

  /** Linear probing for name. A full table is the C code's fall-through. */
  method FindSlot<F>(entries: array<Slot<F>>, name: string, hash: nat) returns (slot: nat)
    requires Linked(entries[..]) && hash == HashOf(name) && IsPowerOfTwo(entries.Length)
    ensures slot < entries.Length
    ensures HasEmpty(entries[..]) ==> IsSlotFor(entries[..], name, slot)
  {
    var capacity := entries.Length;
    var mask := capacity - 1;
    MaskIsMod(hash, capacity);
    var idx := Bitwise(And, hash, mask);
    var firstTombstone: Option<nat> := None;
    var i := 0;
    ghost var s := entries[..];
    while i < capacity
      invariant Scanned(s, name, i, firstTombstone)
    {
      ProbeIsMasked(idx, i, capacity);
      var probe := Bitwise(And, idx + i, mask);
      ScanStep(s, name, i, firstTombstone);
      match entries[probe] {
        case Empty =>
          ScanEmpty(s, name, i, firstTombstone);
          return if firstTombstone.Some? then firstTombstone.value else probe;
        case Tombstone =>
          if firstTombstone.None? {
            firstTombstone := Some(probe);
          }
        case Occupied(h, n, _, _) =>
          assert LinkedAt(s, probe);
          if h == hash && n == name {
            return probe;
          }
      }
      i := i + 1;
    }
    FullChainHasNoEmpty(s, idx);
    slot := if firstTombstone.Some? then firstTombstone.value else 0;
  }

  // -------------------------------------------------------------- the store

  /** One registry operation, as its callers see it. */
  datatype Op<F> = Set(name: string, binding: Binding<F>) | Remove(gone: string) | Clear

  function ApplyOp<F>(m: map<string, Binding<F>>, op: Op<F>): map<string, Binding<F>> {
    match op
    case Set(name, b) => m[name := b]
    case Remove(name) => m - {name}
    case Clear => map[]
  }

  function ApplyAll<F>(m: map<string, Binding<F>>, ops: seq<Op<F>>): map<string, Binding<F>> {
    if ops == [] then m else ApplyOp(ApplyAll(m, ops[..|ops|-1]), ops[|ops|-1])
  }

  /** The visit list of for_each over slots s, in slot order. */
  function Visits<F>(s: seq<Slot<F>>): seq<(string, F, Category)> {
    if s == [] then []
    else
      var e := s[|s|-1];
      Visits(s[..|s|-1]) + (if e.Occupied? then [(e.name, e.fn, e.category)] else [])
  }

  /** Visit v is the call for the live slot p. */
  ghost predicate VisitOf<F>(s: seq<Slot<F>>, p: nat, v: (string, F, Category)) {
    p < |s| && s[p].Occupied? && v == (s[p].name, s[p].fn, s[p].category)
  }

  /** Each visit comes from one live slot, and later visits from later slots. */
  lemma {:induction false} VisitsAreLiveSlots<F>(s: seq<Slot<F>>) returns (at: seq<nat>)
    ensures |at| == |Visits(s)|
    ensures forall k :: 0 <= k < |at| ==> VisitOf(s, at[k], Visits(s)[k])
    ensures forall j, k :: 0 <= j < k < |at| ==> at[j] < at[k]
    ensures forall p :: 0 <= p < |s| && s[p].Occupied? ==> p in at
  {
    if s == [] {
      at := [];
    } else {
      var n, rest := |s| - 1, s[..|s|-1];
      var before := VisitsAreLiveSlots(rest);
      at := before + if s[n].Occupied? then [n] else [];
      forall k | 0 <= k < |at| ensures VisitOf(s, at[k], Visits(s)[k]) && (k < |before| ==> at[k] < n) {
        assert k < |before| ==> VisitOf(rest, before[k], Visits(rest)[k]);
      }
      forall p | 0 <= p < |s| && s[p].Occupied? ensures p in at {
        assert p < n ==> rest[p] == s[p] && p in before;
        assert p == n ==> at[|before|] == n;
      }
    }
  }

  /** for_each calls back exactly once per binding of the map the table stands for. */
  lemma VisitsEachBindingOnce<F>(s: seq<Slot<F>>, m: map<string, Binding<F>>)
    requires Unique(s) && Represents(s, m)
    ensures forall n, f, c :: (n, f, c) in Visits(s) <==> n in m && m[n] == Binding(f, c)
    ensures forall j, k :: 0 <= j < k < |Visits(s)| ==> Visits(s)[j].0 != Visits(s)[k].0
  {
    var at := VisitsAreLiveSlots(s);
    forall n, f, c | n in m && m[n] == Binding(f, c)
      ensures (n, f, c) in Visits(s)
    {
      var p :| 0 <= p < |s| && s[p].Occupied? && s[p].name == n;
      var k :| 0 <= k < |at| && at[k] == p;
      assert Visits(s)[k] == (n, f, c);
    }
  }

  /** The load bound every operation keeps. */
  predicate WithinLoad(used: nat, capacity: nat) {
    used * 100 < (LOAD_FACTOR_PCT + 1) * capacity + 100
  }

  /** The load after which one more slot may be used. */
  predicate RoomForOne(used: nat, capacity: nat) {
    used * 100 < (LOAD_FACTOR_PCT + 1) * capacity
  }

  lemma DoubleCapacity(used: nat, count: nat, capacity: nat)
    requires WithinLoad(used, capacity) && count <= used && capacity >= INITIAL_CAPACITY && IsPowerOfTwo(capacity)
    ensures RoomForOne(count, 2 * capacity) && WithinLoad(count, 2 * capacity) && IsPowerOfTwo(2 * capacity)
  {
  }

  class Store<F> {
    var entries: array<Slot<F>>
    var capacity: nat
    var count: nat
    var tombstones: nat
    ghost var contents: map<string, Binding<F>>

    /** What every operation keeps. The last line is the load bound: it is what
        makes the table always have an EMPTY slot. */
    ghost predicate Valid()
      reads this, entries
    {
      && capacity == entries.Length >= INITIAL_CAPACITY && IsPowerOfTwo(capacity)
      && Holds(entries[..], contents, count, tombstones)
      && WithinLoad(count + tombstones, capacity)
    }

    constructor ()
      ensures Valid() && fresh(entries)
      ensures contents == map[] && count == 0 && tombstones == 0 && capacity == 32
    {
      entries := new Slot<F>[INITIAL_CAPACITY](_ => Empty);
      capacity := INITIAL_CAPACITY;
      count := 0;
      tombstones := 0;
      contents := map[];
      new;
      AllEmpty(entries[..]);
    }

    /** The invariant, conjunct by conjunct, and what it gives a probe. */
    lemma Unpack()
      requires Valid()
      ensures capacity == entries.Length >= INITIAL_CAPACITY && IsPowerOfTwo(capacity)
      ensures Holds(entries[..], contents, count, tombstones)
      ensures WithinLoad(count + tombstones, capacity)
      ensures Linked(entries[..]) && Unique(entries[..]) && HasEmpty(entries[..])
      ensures count == |contents| && tombstones == Dead(entries[..])
    {
      LoadLeavesAnEmptySlot(entries[..]);
    }

    lemma Pack()
      requires capacity == entries.Length >= INITIAL_CAPACITY && IsPowerOfTwo(capacity)
      requires Holds(entries[..], contents, count, tombstones)
      requires WithinLoad(count + tombstones, capacity)
      ensures Valid()
    {
    }

    method Grow(newCapacity: nat)
      requires Valid() && newCapacity == 2 * capacity
      modifies this
      ensures Valid() && fresh(entries)
      ensures contents == old(contents) && capacity == newCapacity && tombstones == 0 && count == old(count)
    {
      hide *;
      Unpack();
      var newEntries := new Slot<F>[newCapacity](_ => Empty);
      ghost var s := entries[..];
      RehashStart(s, newEntries[..]);
      DoubleCapacity(old(count) + old(tombstones), count, old(capacity));
      for i := 0 to capacity
        modifies newEntries
        invariant Rehashed(s, i, newEntries[..])
      {
        ghost var t := newEntries[..];
        if entries[i].Occupied? {
          RehashRoom(s, i, t);
          var slot := FindSlot(newEntries, entries[i].name, entries[i].hash);
          RehashStep(s, i, t, slot);
          newEntries[slot] := entries[i];
          assert newEntries[..] == t[slot := s[i]];
        } else {
          RehashSkip(s, i, t);
        }
      }
      RehashDone(s, contents, count, tombstones, newEntries[..]);
      entries := newEntries;
      capacity := newCapacity;
      tombstones := 0;
      Pack();
    }

    /** After it, one more entry fits under the load bound. */
    method EnsureCapacity()
      requires Valid()
      modifies this
      ensures Valid() && (entries == old(entries) || fresh(entries))
      ensures contents == old(contents) && count == old(count)
      ensures RoomForOne(count + tombstones, capacity)
      ensures (capacity, tombstones) ==
        if (old(count) + old(tombstones)) * 100 / old(capacity) > 70
        then (2 * old(capacity), 0) else (old(capacity), old(tombstones))
    {
      var used := count + tombstones;
      LoadQuotient(used * 100, capacity);
      if used * 100 / capacity > LOAD_FACTOR_PCT {
        Grow(capacity * 2);
      }
    }

    /** A NULL name or function is refused; otherwise name is bound to (fn, category),
        replacing any earlier binding. */
    method Set(name: Option<string>, fn: Option<F>, category: Category) returns (ok: bool)
      requires Valid()
      modifies this, entries
      ensures Valid() && (entries == old(entries) || fresh(entries))
      ensures ok == (name.Some? && fn.Some?)
      ensures contents == if ok then old(contents)[name.value := Binding(fn.value, category)] else old(contents)
    {
      hide *;
      if name.None? || fn.None? {
        return false;
      }
      EnsureCapacity();
      Unpack();
      var hash := Fnv1aHash(name.value);
      var slot := FindSlot(entries, name.value, hash);
      ProbeAgrees(entries[..], contents, name.value, slot);
      ghost var s := entries[..];
      var e := entries[slot];
      ghost var b := Binding(fn.value, category);
      if e.Occupied? {
        ReplaceLive(s, contents, count, tombstones, slot, name.value, b);
        entries[slot] := Occupied(e.hash, e.name, fn.value, category);
        contents := contents[name.value := b];
        assert entries[..] == s[slot := Occupied(e.hash, e.name, fn.value, category)];
        Pack();
        return true;
      }
      PlaceNew(s, contents, count, tombstones, slot, hash, name.value, b);
      if e.Tombstone? {
        tombstones := tombstones - 1;
      }
      entries[slot] := Occupied(hash, name.value, fn.value, category);
      contents := contents[name.value := b];
      count := count + 1;
      assert entries[..] == s[slot := Occupied(hash, name.value, fn.value, category)];
      Pack();
      return true;
    }

    /** True exactly when name was bound; then it no longer is. */
    method Remove(name: Option<string>) returns (ok: bool)
      requires Valid()
      modifies this, entries
      ensures Valid() && entries == old(entries)
      ensures ok == (name.Some? && name.value in old(contents))
      ensures contents == if ok then old(contents) - {name.value} else old(contents)
    {
      hide *;
      if name.None? {
        return false;
      }
      Unpack();
      var hash := Fnv1aHash(name.value);
      var slot := FindSlot(entries, name.value, hash);
      ProbeAgrees(entries[..], contents, name.value, slot);
      if !entries[slot].Occupied? {
        return false;
      }
      ghost var s := entries[..];
      BuryLive(s, contents, count, tombstones, slot);
      entries[slot] := Tombstone;
      contents := contents - {name.value};
      count := count - 1;
      tombstones := tombstones + 1;
      assert entries[..] == s[slot := Tombstone];
      Pack();
      return true;
    }

    method Clear()
      requires Valid()
      modifies this, entries
      ensures Valid() && entries == old(entries)
      ensures contents == map[] && capacity == old(capacity)
    {
      for i := 0 to capacity
        invariant entries.Length == capacity == old(capacity) && entries == old(entries)
        invariant forall j :: 0 <= j < i ==> entries[j] == Empty
      {
        entries[i] := Empty;
      }
      count := 0;
      tombstones := 0;
      contents := map[];
      AllEmpty(entries[..]);
    }

    method Has(name: Option<string>) returns (found: bool)
      requires Valid()
      ensures found == (name.Some? && name.value in contents)
    {
      var b := Lookup(name);
      found := b.Some?;
    }

    method Get(name: Option<string>) returns (fn: Option<F>)
      requires Valid()
      ensures fn == if name.Some? && name.value in contents then Some(contents[name.value].fn) else None
    {
      var b := Lookup(name);
      fn := if b.Some? then Some(b.value.fn) else None;
    }

    method Lookup(name: Option<string>) returns (binding: Option<Binding<F>>)
      requires Valid()
      ensures binding == if name.Some? && name.value in contents then Some(contents[name.value]) else None
    {
      hide *;
      if name.None? {
        return None;
      }
      Unpack();
      var hash := Fnv1aHash(name.value);
      var slot := FindSlot(entries, name.value, hash);
      ProbeAgrees(entries[..], contents, name.value, slot);
      binding := if entries[slot].Occupied? then Some(Binding(entries[slot].fn, entries[slot].category)) else None;
    }

    /** The callback's argument list, call by call. */
    method ForEach() returns (calls: seq<(string, F, Category)>)
      requires Valid()
      ensures calls == Visits(entries[..])
      ensures forall n, f, c :: (n, f, c) in calls <==> n in contents && contents[n] == Binding(f, c)
      ensures forall j, k :: 0 <= j < k < |calls| ==> calls[j].0 != calls[k].0
    {
      calls := [];
      for i := 0 to capacity
        invariant calls == Visits(entries[..i])
      {
        assert entries[..i+1][..i] == entries[..i];
        var e := entries[i];
        if e.Occupied? {
          calls := calls + [(e.name, e.fn, e.category)];
        }
      }
      assert entries[..capacity] == entries[..];
      VisitsEachBindingOnce(entries[..], contents);
    }

    /** Any run of operations leaves the store standing for the map the same
        run builds. */
    method Run(ops: seq<Op<F>>)
      requires Valid()
      modifies this, entries
      ensures Valid() && (entries == old(entries) || fresh(entries))
      ensures contents == ApplyAll(old(contents), ops)
    {
      hide Valid;
      for i := 0 to |ops|
        invariant Valid() && (entries == old(entries) || fresh(entries))
        invariant contents == ApplyAll(old(contents), ops[..i])
      {
        assert ops[..i+1][..i] == ops[..i];
        match ops[i] {
          case Set(name, b) => var _ := Set(Some(name), Some(b.fn), b.category);
          case Remove(name) => var _ := Remove(Some(name));
          case Clear => Clear();
        }
      }
      assert ops[..|ops|] == ops;
    }
  }

  lemma LoadQuotient(x: nat, cap: nat)
    requires cap > 0
    ensures x / cap > LOAD_FACTOR_PCT <==> x >= (LOAD_FACTOR_PCT + 1) * cap
  {
    var q := x / cap;
    assert x == q * cap + x % cap;
    if q > LOAD_FACTOR_PCT {
      MulLe(LOAD_FACTOR_PCT + 1, q, cap);
    } else {
      MulLe(q, LOAD_FACTOR_PCT, cap);
    }
  }
}
