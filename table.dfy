/**
 * The intern table (src/table.c): open addressing with linear probing and
 * tombstones, keyed by string-object identity.
 */
module Tables {
  import opened Common
  import opened Values
  import opened Memory

  /**
   * One slot (Entry). A slot with a key is live; a slot without a key is
   * never-used when its value is nil and a tombstone otherwise.
   */
  datatype Entry = Entry(key: ObjString?, value: Value)

  predicate NeverUsed(e: Entry) {
    e.key == null && e.value.Nil?
  }

  predicate IsLive(e: Entry) {
    e.key != null
  }

  /** The slot a probe for `hash` starts at: `hash % alloc`. */
  function Home(hash: U32, n: nat): (r: nat)
    requires n > 0
    ensures r < n
  {
    hash % n
  }

  /** The slot reached after `t` steps forward from slot `h0`, wrapping at `n`. */
  function Probe(h0: nat, t: nat, n: nat): (r: nat)
    requires h0 < n && t < n
    ensures r < n
  {
    if h0 + t < n then h0 + t else h0 + t - n
  }

  /** How many steps forward from `h0` slot `j` lies. */
  function Dist(h0: nat, j: nat, n: nat): (r: nat)
    requires h0 < n && j < n
    ensures r < n && Probe(h0, r, n) == j
  {
    if j >= h0 then j - h0 else j + n - h0
  }

  lemma DistOfProbe(h0: nat, t: nat, n: nat)
    requires h0 < n && t < n
    ensures Dist(h0, Probe(h0, t, n), n) == t
  {
  }

  /** One step of the probe loop, `index = (index + 1) % alloc`, moves to the next slot of the sequence. */
  lemma ProbeStep(h0: nat, t: nat, n: nat)
    requires h0 < n && t + 1 < n
    ensures (Probe(h0, t, n) + 1) % n == Probe(h0, t + 1, n)
  {
    var i := Probe(h0, t, n);
    if i + 1 < n {
      assert (i + 1) % n == i + 1;
    } else {
      assert (i + 1) % n == 0;
    }
  }

  /**
   * find_entry from the `t`-th slot of the probe sequence, with `tomb` the
   * first tombstone passed so far: the slot holding `key`, or else, at the
   * first never-used slot, the first tombstone passed or that slot. A probe
   * that visits every slot stops (the source would loop forever; the table
   * invariant keeps a never-used slot, so this case does not arise).
   */
  function FindFrom(s: seq<Entry>, key: ObjString, h0: nat, t: nat, tomb: Option<nat>): (r: nat)
    requires h0 < |s| && t <= |s|
    requires tomb.Some? ==> tomb.value < |s|
    ensures r < |s|
    decreases |s| - t
  {
    if t == |s| then
      (if tomb.Some? then tomb.value else h0)
    else
      var j := Probe(h0, t, |s|);
      if s[j].key == null then
        if s[j].value.Nil? then
          (if tomb.Some? then tomb.value else j)
        else
          FindFrom(s, key, h0, t + 1, if tomb.None? then Some(j) else tomb)
      else if s[j].key == key then
        j
      else
        FindFrom(s, key, h0, t + 1, tomb)
  }

  /** The slot find_entry returns for `key`. */
  function FindSlot(s: seq<Entry>, key: ObjString): nat
    requires |s| > 0
  {
    FindFrom(s, key, Home(key.hash, |s|), 0, None)
  }

  ghost predicate HasNeverUsed(s: seq<Entry>) {
    exists j :: 0 <= j < |s| && NeverUsed(s[j])
  }

  /** None of the first `d` slots of the probe sequence from `h0` is never-used. */
  ghost predicate ClearBefore(s: seq<Entry>, h0: nat, d: nat)
    requires h0 < |s| && d <= |s|
  {
    forall t :: 0 <= t < d ==> !NeverUsed(s[Probe(h0, t, |s|)])
  }

  ghost predicate UniqueKeys(s: seq<Entry>) {
    forall i, j :: 0 <= i < |s| && 0 <= j < |s| && s[i].key != null && s[i].key == s[j].key ==> i == j
  }

  /** Every live key is reached from its home slot before any never-used slot. */
  ghost predicate Reachable(s: seq<Entry>) {
    forall j :: 0 <= j < |s| && s[j].key != null ==>
      ClearBefore(s, Home(s[j].key.hash, |s|), Dist(Home(s[j].key.hash, |s|), j, |s|))
  }

  ghost predicate WellFormed(s: seq<Entry>) {
    UniqueKeys(s) && Reachable(s)
  }

  ghost predicate NoTombstones(s: seq<Entry>) {
    forall j :: 0 <= j < |s| && s[j].key == null ==> s[j].value.Nil?
  }

  /** The mapping the slots hold: each live key to its value. */
  ghost function MapOf(s: seq<Entry>): map<ObjString, Value>
    requires UniqueKeys(s)
  {
    map j | 0 <= j < |s| && s[j].key != null :: s[j].key := s[j].value
  }

  /** The number of slots in use, live or tombstone (what `count` counts). */
  function CountUsed(s: seq<Entry>): nat {
    if s == [] then 0 else CountUsed(s[..|s| - 1]) + (if NeverUsed(s[|s| - 1]) then 0 else 1)
  }

  /** The number of live slots. */
  function CountLive(s: seq<Entry>): nat {
    if s == [] then 0 else CountLive(s[..|s| - 1]) + (if IsLive(s[|s| - 1]) then 1 else 0)
  }

  // ---------------------------------------------------------------------------
  // Probing

  /**
   * Wherever find_entry stops, the slot holds `key` or no key at all, and no
   * slot before it on the probe sequence is never-used.
   */
  lemma {:induction false} FindFromLands(s: seq<Entry>, key: ObjString, h0: nat, t: nat, tomb: Option<nat>, delta: nat)
    requires h0 < |s| && t <= delta < |s| && NeverUsed(s[Probe(h0, delta, |s|)])
    requires ClearBefore(s, h0, t)
    requires tomb.Some? ==> tomb.value < |s| && Dist(h0, tomb.value, |s|) < t && s[tomb.value].key == null
    ensures var r := FindFrom(s, key, h0, t, tomb);
      (s[r].key == null || s[r].key == key) && ClearBefore(s, h0, Dist(h0, r, |s|))
    decreases |s| - t
  {
    var j := Probe(h0, t, |s|);
    DistOfProbe(h0, t, |s|);
    if s[j].key == null && !s[j].value.Nil? {
      var tomb' := if tomb.None? then Some(j) else tomb;
      FindFromLands(s, key, h0, t + 1, tomb', delta);
    } else if s[j].key != null && s[j].key != key {
      FindFromLands(s, key, h0, t + 1, tomb, delta);
    }
  }

  /** find_entry returns the slot of a key that is reachable from its home slot. */
  lemma {:induction false} FindFromLive(s: seq<Entry>, key: ObjString, h0: nat, t: nat, tomb: Option<nat>, j: nat)
    requires h0 < |s| && j < |s| && s[j].key == key
    requires t <= Dist(h0, j, |s|) && ClearBefore(s, h0, Dist(h0, j, |s|))
    requires forall i :: 0 <= i < |s| && s[i].key == key ==> i == j
    requires tomb.Some? ==> tomb.value < |s|
    ensures FindFrom(s, key, h0, t, tomb) == j
    decreases |s| - t
  {
    var p := Probe(h0, t, |s|);
    if t < Dist(h0, j, |s|) {
      DistOfProbe(h0, t, |s|);
      assert p != j;
      var tomb' := if s[p].key == null && tomb.None? then Some(p) else tomb;
      FindFromLive(s, key, h0, t + 1, tomb', j);
    }
  }

  lemma CountLiveZero(s: seq<Entry>, j: nat)
    requires j < |s| && IsLive(s[j])
    ensures CountLive(s) > 0
  {
    if j < |s| - 1 {
      CountLiveZero(s[..|s| - 1], j);
    }
  }

  lemma {:induction false} CountLiveAtMostUsed(s: seq<Entry>)
    ensures CountLive(s) <= CountUsed(s)
  {
    if s != [] {
      CountLiveAtMostUsed(s[..|s| - 1]);
    }
  }

  /** While fewer slots are used than exist, a never-used slot remains. */
  lemma {:induction false} FreeSlotExists(s: seq<Entry>)
    requires CountUsed(s) < |s|
    ensures HasNeverUsed(s)
  {
    var last := |s| - 1;
    if !NeverUsed(s[last]) {
      FreeSlotExists(s[..last]);
      var j :| 0 <= j < last && NeverUsed(s[..last][j]);
      assert NeverUsed(s[j]);
    }
  }

  /** Replacing one slot changes both counts by what the old and new slot contribute. */
  lemma {:induction false} CountUpdate(s: seq<Entry>, p: nat, e: Entry)
    requires p < |s|
    ensures CountUsed(s[p := e]) == CountUsed(s) - (if NeverUsed(s[p]) then 0 else 1) + (if NeverUsed(e) then 0 else 1)
    ensures CountLive(s[p := e]) == CountLive(s) - (if IsLive(s[p]) then 1 else 0) + (if IsLive(e) then 1 else 0)
  {
    var s' := s[p := e];
    var last := |s| - 1;
    if p < last {
      CountUpdate(s[..last], p, e);
      assert s'[..last] == s[..last][p := e];
    } else {
      assert s'[..last] == s[..last];
    }
  }

  lemma CountPrefix(s: seq<Entry>, i: nat)
    requires i < |s|
    ensures CountLive(s[..i + 1]) == CountLive(s[..i]) + (if IsLive(s[i]) then 1 else 0)
  {
    assert s[..i + 1][..i] == s[..i];
  }

  lemma {:induction false} CountLivePrefixBound(s: seq<Entry>, i: nat)
    requires i <= |s|
    ensures CountLive(s[..i]) <= CountLive(s)
    decreases |s| - i
  {
    if i < |s| {
      CountPrefix(s, i);
      CountLivePrefixBound(s, i + 1);
    } else {
      assert s[..i] == s;
    }
  }

  lemma {:induction false} CountEmpty(n: nat)
    ensures CountUsed(seq(n, _ => Entry(null, Nil))) == 0
  {
    if n > 0 {
      CountEmpty(n - 1);
      assert seq(n, _ => Entry(null, Nil))[..n - 1] == seq(n - 1, _ => Entry(null, Nil));
    }
  }

  // ---------------------------------------------------------------------------
  // Lookup, insertion and deletion on the slot sequence

  /** In a well-formed table with a never-used slot, find_entry finds a key exactly when it is present. */
  lemma Lookup(s: seq<Entry>, key: ObjString)
    requires |s| > 0 && WellFormed(s) && HasNeverUsed(s)
    ensures var r := FindSlot(s, key);
      (s[r].key != null <==> key in MapOf(s)) &&
      (s[r].key != null ==> s[r].key == key && s[r].value == MapOf(s)[key]) &&
      ClearBefore(s, Home(key.hash, |s|), Dist(Home(key.hash, |s|), r, |s|))
  {
    var h0 := Home(key.hash, |s|);
    var jn :| 0 <= jn < |s| && NeverUsed(s[jn]);
    FindFromLands(s, key, h0, 0, None, Dist(h0, jn, |s|));
    var r := FindSlot(s, key);
    if key in MapOf(s) {
      var j :| 0 <= j < |s| && s[j].key == key;
      FindFromLive(s, key, h0, 0, None, j);
    }
    if s[r].key != null {
      assert s[r].key in MapOf(s);
    }
  }

  /** Writing a slot whose key occurs nowhere else keeps the keys unique. */
  lemma UniqueKeysStore(s: seq<Entry>, r: nat, e: Entry)
    requires r < |s| && UniqueKeys(s)
    requires e.key != null ==> forall i :: 0 <= i < |s| && i != r ==> s[i].key != e.key
    ensures UniqueKeys(s[r := e])
  {
  }

  /** Storing `key` in a slot that is free or already holds it, with `key` nowhere else, maps `key` to `value`. */
  lemma MapOfStore(s: seq<Entry>, r: nat, key: ObjString, value: Value)
    requires r < |s| && UniqueKeys(s) && (s[r].key == null || s[r].key == key)
    requires forall i :: 0 <= i < |s| && i != r ==> s[i].key != key
    ensures UniqueKeys(s[r := Entry(key, value)])
    ensures MapOf(s[r := Entry(key, value)]) == MapOf(s)[key := value]
  {
    var s' := s[r := Entry(key, value)];
    UniqueKeysStore(s, r, Entry(key, value));
    var m, m' := MapOf(s)[key := value], MapOf(s');
    forall k | k in m'
      ensures k in m && m'[k] == m[k]
    {
      var j :| 0 <= j < |s'| && s'[j].key == k;
      assert m'[k] == s'[j].value;
      if k != key {
        assert s[j].key == k && s'[j] == s[j];
      }
    }
    forall k | k in m
      ensures k in m'
    {
      if k == key {
        assert s'[r].key == key;
      } else {
        var j :| 0 <= j < |s| && s[j].key == k;
        assert s'[j].key == k;
      }
    }
    assert m' == m;
  }

  /** Emptying the slot of a live key removes exactly that key. */
  lemma MapOfClear(s: seq<Entry>, r: nat, value: Value)
    requires r < |s| && UniqueKeys(s) && s[r].key != null
    ensures UniqueKeys(s[r := Entry(null, value)])
    ensures MapOf(s[r := Entry(null, value)]) == MapOf(s) - {s[r].key}
  {
    var s' := s[r := Entry(null, value)];
    UniqueKeysStore(s, r, Entry(null, value));
    var m, m' := MapOf(s) - {s[r].key}, MapOf(s');
    forall k | k in m'
      ensures k in m && m'[k] == m[k]
    {
      var j :| 0 <= j < |s'| && s'[j].key == k;
      assert s[j].key == k;
    }
    forall k | k in m
      ensures k in m'
    {
      var j :| 0 <= j < |s| && s[j].key == k;
      assert s'[j].key == k;
    }
  }

  /** A key stored on a clear path from its home slot stays reachable, and so do all others. */
  lemma ReachableStore(s: seq<Entry>, r: nat, key: ObjString, value: Value)
    requires r < |s| && Reachable(s)
    requires ClearBefore(s, Home(key.hash, |s|), Dist(Home(key.hash, |s|), r, |s|))
    ensures Reachable(s[r := Entry(key, value)])
  {
    var s' := s[r := Entry(key, value)];
    forall j | 0 <= j < |s'| && s'[j].key != null
      ensures ClearBefore(s', Home(s'[j].key.hash, |s|), Dist(Home(s'[j].key.hash, |s|), j, |s|))
    {
      var h := Home(s'[j].key.hash, |s|);
      forall t | 0 <= t < Dist(h, j, |s|)
        ensures !NeverUsed(s'[Probe(h, t, |s|)])
      {
        if j != r {
          assert !NeverUsed(s[Probe(h, t, |s|)]);
        } else {
          DistOfProbe(h, t, |s|);
        }
      }
    }
  }

  /** A tombstone does not break any probe path. */
  lemma ReachableClear(s: seq<Entry>, r: nat, value: Value)
    requires r < |s| && Reachable(s) && !value.Nil?
    ensures Reachable(s[r := Entry(null, value)])
  {
    var s' := s[r := Entry(null, value)];
    forall j | 0 <= j < |s'| && s'[j].key != null
      ensures ClearBefore(s', Home(s'[j].key.hash, |s|), Dist(Home(s'[j].key.hash, |s|), j, |s|))
    {
      var h := Home(s'[j].key.hash, |s|);
      assert ClearBefore(s, h, Dist(h, j, |s|));
    }
  }

  /**
   * Storing `key` in the slot `r` find_entry returned keeps every key
   * reachable and unique, maps `key` to `value`, and uses up a slot exactly
   * when `r` was never used.
   */
  lemma Insert(s: seq<Entry>, key: ObjString, value: Value, r: nat)
    requires |s| > 0 && WellFormed(s) && HasNeverUsed(s) && r == FindSlot(s, key)
    ensures WellFormed(s[r := Entry(key, value)])
    ensures MapOf(s[r := Entry(key, value)]) == MapOf(s)[key := value]
    ensures key in MapOf(s) <==> s[r].key != null
    ensures CountUsed(s[r := Entry(key, value)]) == CountUsed(s) + (if NeverUsed(s[r]) then 1 else 0)
  {
    Lookup(s, key);
    MapOfStore(s, r, key, value);
    ReachableStore(s, r, key, value);
    CountUpdate(s, r, Entry(key, value));
  }

  /**
   * Turning the slot `r` find_entry returned for a present key into a
   * tombstone removes exactly that key, keeps the table well formed and
   * leaves the number of used slots as it was.
   */
  lemma Remove(s: seq<Entry>, key: ObjString, r: nat)
    requires |s| > 0 && WellFormed(s) && HasNeverUsed(s) && r == FindSlot(s, key) && s[r].key != null
    ensures key in MapOf(s)
    ensures WellFormed(s[r := Entry(null, Bool(true))])
    ensures MapOf(s[r := Entry(null, Bool(true))]) == MapOf(s) - {key}
    ensures CountUsed(s[r := Entry(null, Bool(true))]) == CountUsed(s)
  {
    Lookup(s, key);
    MapOfClear(s, r, Bool(true));
    ReachableClear(s, r, Bool(true));
    CountUpdate(s, r, Entry(null, Bool(true)));
  }

  lemma MapOfEmpty(s: seq<Entry>)
    requires UniqueKeys(s) && CountUsed(s) == 0
    ensures MapOf(s) == map[]
  {
    CountLiveAtMostUsed(s);
    forall k | k in MapOf(s)
      ensures false
    {
      var j :| 0 <= j < |s| && s[j].key == k;
      CountLiveZero(s, j);
    }
  }

  lemma MapOfSnoc(s: seq<Entry>, i: nat)
    requires i < |s| && UniqueKeys(s)
    ensures UniqueKeys(s[..i]) && UniqueKeys(s[..i + 1])
    ensures MapOf(s[..i + 1]) == if IsLive(s[i]) then MapOf(s[..i])[s[i].key := s[i].value] else MapOf(s[..i])
    ensures IsLive(s[i]) ==> s[i].key !in MapOf(s[..i])
  {
    var a, b := s[..i], s[..i + 1];
    assert UniqueKeys(a) && UniqueKeys(b);
    assert b == a + [s[i]];
    if IsLive(s[i]) {
      SnocLive(a, s[i]);
    } else {
      MapOfDropFree(a, s[i]);
    }
  }

  lemma SnocLive(a: seq<Entry>, e: Entry)
    requires UniqueKeys(a + [e]) && IsLive(e)
    ensures UniqueKeys(a) && e.key !in MapOf(a) && MapOf(a + [e]) == MapOf(a)[e.key := e.value]
  {
    var b := a + [e];
    assert UniqueKeys(a);
    assert b[|a|] == e;
    assert b[..|a|] == a;
    MapOfStore(a + [Entry(null, Nil)], |a|, e.key, e.value);
    assert (a + [Entry(null, Nil)])[|a| := e] == b;
    MapOfDropFree(a, Entry(null, Nil));
  }

  /** A trailing slot without a key adds nothing to the mapping. */
  lemma MapOfDropFree(a: seq<Entry>, e: Entry)
    requires UniqueKeys(a + [e]) && !IsLive(e)
    ensures UniqueKeys(a) && MapOf(a + [e]) == MapOf(a)
  {
    var b := a + [e];
    assert forall i :: 0 <= i < |a| ==> a[i] == b[i];
    forall k | k in MapOf(b)
      ensures k in MapOf(a)
    {
      var j :| 0 <= j < |b| && b[j].key == k;
      assert b[|a|] == e;
      assert j < |a|;
      assert a[j].key == k;
    }
    forall k | k in MapOf(a)
      ensures k in MapOf(b) && MapOf(b)[k] == MapOf(a)[k]
    {
      var j :| 0 <= j < |a| && a[j].key == k;
      assert b[j].key == k;
    }
  }

  /** While rehashing, the new slots always keep a never-used one. */
  lemma RehashRoom(s: seq<Entry>, src: seq<Entry>, i: nat)
    requires i < |src| && CountUsed(s) == CountLive(src[..i]) && CountLive(src) < |s|
    ensures HasNeverUsed(s)
  {
    CountLivePrefixBound(src, i);
    FreeSlotExists(s);
  }

  /**
   * One step of resize_table: the `i`-th old entry, live, goes to the slot
   * find_entry picks in the new slots, which then hold the first `i + 1` old
   * entries' mapping.
   */
  lemma RehashStep(s: seq<Entry>, src: seq<Entry>, i: nat, dest: nat)
    requires i < |src| && UniqueKeys(src) && IsLive(src[i])
    requires |s| > 0 && WellFormed(s) && NoTombstones(s) && HasNeverUsed(s)
    requires CountUsed(s) == CountLive(src[..i])
    requires UniqueKeys(src[..i]) && MapOf(s) == MapOf(src[..i])
    requires dest == FindSlot(s, src[i].key)
    ensures WellFormed(s[dest := src[i]]) && NoTombstones(s[dest := src[i]])
    ensures CountUsed(s[dest := src[i]]) == CountUsed(s) + 1 == CountLive(src[..i + 1])
    ensures UniqueKeys(src[..i + 1]) && MapOf(s[dest := src[i]]) == MapOf(src[..i + 1])
  {
    MapOfSnoc(src, i);
    CountPrefix(src, i);
    Insert(s, src[i].key, src[i].value, dest);
    assert src[i] == Entry(src[i].key, src[i].value);
  }

  // ---------------------------------------------------------------------------
  // The table object

  /** find_entry: probe from `hash % alloc` until the key or a never-used slot is met. */
  method FindEntry(entries: array<Entry>, alloc: nat, key: ObjString) returns (index: nat)
    requires alloc == entries.Length && alloc > 0 && HasNeverUsed(entries[..])
    ensures index == FindSlot(entries[..], key)
  {
    ghost var s := entries[..];
    var h0 := key.hash % alloc;
    index := h0;
    var tombstone: Option<nat> := None;
    ghost var t := 0;
    ghost var jn :| 0 <= jn < alloc && NeverUsed(s[jn]);
    ghost var delta := Dist(h0, jn, alloc);
    while true
      invariant t <= delta && index == Probe(h0, t, alloc)
      invariant tombstone.Some? ==> tombstone.value < alloc
      invariant FindFrom(s, key, h0, t, tombstone) == FindSlot(s, key)
      decreases alloc - t
    {
      var entry := entries[index];
      if entry.key == null {
        if entry.value.Nil? {
          return if tombstone.Some? then tombstone.value else index;
        } else if tombstone.None? {
          tombstone := Some(index);
        }
      } else if entry.key == key {
        return index;
      }
      DistOfProbe(h0, t, alloc);
      ProbeStep(h0, t, alloc);
      index := (index + 1) % alloc;
      t := t + 1;
    }
  }

  /**
   * Growing a table within the load factor leaves room, under the load
   * factor, for one more entry than the live ones it keeps.
   */
  lemma GrowRoom(used: nat, live: nat, alloc: nat)
    requires live <= used && 4 * used <= 3 * alloc
    ensures live < GrowCapacity(alloc) && 4 * (live + 1) <= 3 * GrowCapacity(alloc)
  {
    if alloc < 8 {
      assert used <= 5;
    }
  }

  /** The fresh slot array of resize_table: every slot never used (no key, value nil). */
  method EmptySlots(n: nat) returns (a: array<Entry>)
    ensures fresh(a) && a[..] == seq(n, _ => Entry(null, Nil))
  {
    a := new Entry[n];
    for i := 0 to n
      modifies a
      invariant forall k :: 0 <= k < i ==> a[k] == Entry(null, Nil)
    {
      a[i] := Entry(null, Nil);
    }
  }

  /** The intern table: `count` counts live entries and tombstones, `alloc` is the capacity. */
  class Table {
    var count: nat
    var alloc: nat
    var entries: array<Entry>

    /** The slots are well formed and `count` counts the used ones. */
    ghost predicate Consistent()
      reads this, entries
    {
      entries.Length == alloc && count == CountUsed(entries[..]) && WellFormed(entries[..])
    }

    /** Consistent, and at most three quarters of the slots are used (TABLE_MAX_LOAD). */
    ghost predicate Valid()
      reads this, entries
    {
      Consistent() && 4 * count <= 3 * alloc
    }

    ghost function Contents(): map<ObjString, Value>
      reads this, entries
      requires Consistent()
    {
      MapOf(entries[..])
    }

    /** init_table */
    constructor ()
      ensures Valid() && Contents() == map[] && count == 0 && alloc == 0
    {
      count := 0;
      alloc := 0;
      entries := new Entry[0];
    }

    lemma FreeSlot()
      requires Valid() && alloc > 0
      ensures HasNeverUsed(entries[..])
    {
      FreeSlotExists(entries[..]);
    }

    /**
     * resize_table: rehash every live entry into `newAlloc` fresh slots,
     * dropping the tombstones, and recount.
     */
    method Resize(newAlloc: nat)
      requires Consistent() && CountLive(entries[..]) < newAlloc
      modifies this
      ensures Consistent() && fresh(entries) && alloc == newAlloc
      ensures Contents() == old(Contents())
      ensures count == CountLive(old(entries[..])) && NoTombstones(entries[..])
    {
      var newEntries := EmptySlots(newAlloc);
      CountEmpty(newAlloc);
      var oldEntries, oldAlloc := entries, alloc;
      ghost var old_s := oldEntries[..];
      assert old_s[..0] == [];
      assert CountUsed(newEntries[..]) == 0;
      var live := 0;
      for i := 0 to oldAlloc
        modifies newEntries
        invariant WellFormed(newEntries[..]) && NoTombstones(newEntries[..])
        invariant live == CountUsed(newEntries[..]) == CountLive(old_s[..i])
        invariant UniqueKeys(old_s[..i]) && MapOf(newEntries[..]) == MapOf(old_s[..i])
      {
        var entry := oldEntries[i];
        ghost var s := newEntries[..];
        if entry.key != null {
          RehashRoom(s, old_s, i);
          var dest := FindEntry(newEntries, newAlloc, entry.key);
          RehashStep(s, old_s, i, dest);
          newEntries[dest] := entry;
          assert newEntries[..] == s[dest := old_s[i]];
          live := live + 1;
        } else {
          MapOfSnoc(old_s, i);
          CountPrefix(old_s, i);
        }
      }
      assert old_s[..oldAlloc] == old_s;
      entries, alloc, count := newEntries, newAlloc, live;
    }

    /**
     * table_set: grow when one more entry would pass the load factor, then
     * store the pair; the result tells whether the key was new. The count
     * rises only when the slot used was never used before.
     */
    method Set(key: ObjString, value: Value) returns (isNew: bool, ghost slot: nat)
      requires Valid()
      modifies this, entries
      ensures Valid()
      ensures Contents() == old(Contents())[key := value]
      ensures isNew <==> key !in old(Contents())
      ensures alloc == if 4 * (old(count) + 1) > 3 * old(alloc) then GrowCapacity(old(alloc)) else old(alloc)
      ensures 4 * (old(count) + 1) <= 3 * old(alloc) ==>
        entries == old(entries) && slot == FindSlot(old(entries[..]), key) &&
        count == old(count) + (if NeverUsed(old(entries[..])[slot]) then 1 else 0)
      ensures entries == old(entries) || fresh(entries)
    {
      if 4 * (count + 1) > 3 * alloc {
        var newAlloc := GrowCapacity(alloc);
        CountLiveAtMostUsed(entries[..]);
        GrowRoom(count, CountLive(entries[..]), alloc);
        Resize(newAlloc);
      }
      isNew, slot := Store(key, value);
    }

    /**
     * The store of table_set, once the capacity suffices: find the key's
     * slot, count it if it was never used, and write the pair there.
     */
    method Store(key: ObjString, value: Value) returns (isNew: bool, ghost slot: nat)
      requires Consistent() && 4 * (count + 1) <= 3 * alloc
      modifies this, entries
      ensures Valid() && entries == old(entries) && alloc == old(alloc)
      ensures Contents() == old(Contents())[key := value]
      ensures isNew <==> key !in old(Contents())
      ensures slot == FindSlot(old(entries[..]), key)
      ensures count == old(count) + (if NeverUsed(old(entries[..])[slot]) then 1 else 0)
    {
      ghost var s := entries[..];
      FreeSlotExists(s);
      var index := FindEntry(entries, alloc, key);
      slot := index;
      Insert(s, key, value, index);
      isNew := entries[index].key == null;
      if isNew && entries[index].value.Nil? {
        count := count + 1;
      }
      entries[index] := Entry(key, value);
      assert entries[..] == s[index := Entry(key, value)];
    }

    /** table_get: the value stored under `key`, if any. */
    method Get(key: ObjString) returns (found: bool, value: Value)
      requires Valid()
      ensures found <==> key in Contents()
      ensures found ==> value == Contents()[key]
    {
      value := Nil;
      if count == 0 {
        MapOfEmpty(entries[..]);
        return false, value;
      }
      FreeSlot();
      var index := FindEntry(entries, alloc, key);
      Lookup(entries[..], key);
      var entry := entries[index];
      if entry.key == null {
        return false, value;
      }
      found, value := true, entry.value;
    }

    /**
     * table_delete: replace the entry of `key` by a tombstone (no key, value
     * true); the count and the capacity stay as they are.
     */
    method Delete(key: ObjString) returns (deleted: bool)
      requires Valid()
      modifies entries
      ensures Valid() && count == old(count)
      ensures Contents() == old(Contents()) - {key}
      ensures deleted <==> key in old(Contents())
    {
      if count == 0 {
        MapOfEmpty(entries[..]);
        RemoveAbsent(Contents(), key);
        return false;
      }
      FreeSlot();
      ghost var s := entries[..];
      var index := FindEntry(entries, alloc, key);
      Lookup(s, key);
      var entry := entries[index];
      if entry.key == null {
        RemoveAbsent(Contents(), key);
        return false;
      }
      Remove(s, key, index);
      entries[index] := Entry(null, Bool(true));
      assert entries[..] == s[index := Entry(null, Bool(true))];
      deleted := true;
    }

    /**
     * table_find_string: the interned string with these characters and this
     * hash, found by probing from the hash without needing the object itself.
     */
    method FindString(chars: seq<char>, hash: U32) returns (r: ObjString?)
      requires Valid()
      ensures r != null ==> r in Contents() && r.chars == chars && r.hash == hash
      ensures r == null <==> !exists k :: k in Contents() && k.chars == chars && k.hash == hash
    {
      if count == 0 {
        MapOfEmpty(entries[..]);
        return null;
      }
      FreeSlot();
      r := FindMatch(entries, alloc, chars, hash);
    }
  }

  /**
   * The probe loop of table_find_string: from `hash % alloc`, the first key
   * with these characters and this hash, or null at the first never-used
   * slot. Tombstones are passed over.
   */
  method FindMatch(entries: array<Entry>, alloc: nat, chars: seq<char>, hash: U32) returns (r: ObjString?)
    requires alloc == entries.Length && alloc > 0 && HasNeverUsed(entries[..])
    requires WellFormed(entries[..])
    ensures r != null ==> r in MapOf(entries[..]) && r.chars == chars && r.hash == hash
    ensures r == null <==> !exists k :: k in MapOf(entries[..]) && k.chars == chars && k.hash == hash
  {
    ghost var s := entries[..];
    var index := hash % alloc;
    ghost var h0 := index;
    ghost var t := 0;
    ghost var jn :| 0 <= jn < alloc && NeverUsed(s[jn]);
    ghost var delta := Dist(h0, jn, alloc);
    while true
      invariant t <= delta && index == Probe(h0, t, alloc)
      invariant ClearBefore(s, h0, t)
      invariant forall t' :: 0 <= t' < t ==> !Matches(s[Probe(h0, t', alloc)], chars, hash)
      decreases alloc - t
    {
      var entry := entries[index];
      if entry.key == null {
        if entry.value.Nil? {
          NoMatchBeyond(s, chars, hash, h0, t);
          return null;
        }
      } else if |entry.key.chars| == |chars| && entry.key.hash == hash && entry.key.chars == chars {
        assert entry.key in MapOf(s);
        return entry.key;
      }
      DistOfProbe(h0, t, alloc);
      ProbeStep(h0, t, alloc);
      index := (index + 1) % alloc;
      t := t + 1;
    }
  }

  /** A live slot whose key has these characters and this hash. */
  predicate Matches(e: Entry, chars: seq<char>, hash: U32) {
    e.key != null && e.key.chars == chars && e.key.hash == hash
  }

  /**
   * A probe that met a never-used slot after `t` steps without a match proves
   * that no key with these characters and hash is in the table.
   */
  lemma NoMatchBeyond(s: seq<Entry>, chars: seq<char>, hash: U32, h0: nat, t: nat)
    requires |s| > 0 && WellFormed(s) && h0 == Home(hash, |s|) && t < |s|
    requires NeverUsed(s[Probe(h0, t, |s|)])
    requires forall t' :: 0 <= t' < t ==> !Matches(s[Probe(h0, t', |s|)], chars, hash)
    ensures !exists k :: k in MapOf(s) && k.chars == chars && k.hash == hash
  {
  }

  lemma RemoveAbsent<K, V>(m: map<K, V>, k: K)
    requires k !in m
    ensures m - {k} == m
  {
  }

  lemma UnionUpdate<K, V>(m: map<K, V>, n: map<K, V>, k: K, v: V)
    ensures (m + n)[k := v] == m + n[k := v]
  {
  }

  /**
   * table_add_all: copy every live entry of `from` into `to`; on a key both
   * hold, the value from `from` wins.
   */
  method AddAll(from: Table, to: Table)
    requires from.Valid() && to.Valid() && from != to && from.entries != to.entries
    modifies to, to.entries
    ensures to.Valid() && to.Contents() == old(to.Contents()) + from.Contents()
  {
    var slots, n := from.entries, from.alloc;
    ghost var src := slots[..];
    ghost var start := to.Contents();
    for i := 0 to n
      invariant slots[..] == src && |src| == n
      invariant to.entries == old(to.entries) || fresh(to.entries)
      invariant to.Valid() && UniqueKeys(src[..i])
      invariant to.Contents() == start + MapOf(src[..i])
    {
      MapOfSnoc(src, i);
      var entry := slots[i];
      if entry.key != null {
        var _, _ := to.Set(entry.key, entry.value);
        UnionUpdate(start, MapOf(src[..i]), entry.key, entry.value);
      }
    }
    assert src[..n] == src;
  }
}
