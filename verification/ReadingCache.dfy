/** The dashboard cache of `main.c`: 32 slots that refine a bounded map from OBIS text to reading. */
module ReadingCache {
  import opened Bytes
  import opened Readings

  const CAPACITY := 32

  // ---------- The map ----------

  type Cache = map<string, Reading>

  /** Caching one reading: a null reading removes its key, any other inserts or overwrites, and only a new key
      that finds the map full is ignored. */
  function Cached(m: Cache, r: Reading): Cache {
    if r.IsNull() then m - {r.obisStr}
    else if r.obisStr in m || |m| < CAPACITY then m[r.obisStr := r]
    else m
  }

  function CachedAll(m: Cache, rs: seq<Reading>): Cache
    decreases |rs|
  {
    if rs == [] then m else CachedAll(Cached(m, rs[0]), rs[1..])
  }

  function Get(m: Cache, key: string): Reading { if key in m then m[key] else CLEARED }

  // ---------- The slots ----------

  predicate Distinct(slots: seq<Reading>) {
    forall i, j :: 0 <= i < j < |slots| && !slots[i].IsNull() && !slots[j].IsNull() ==>
      slots[i].obisStr != slots[j].obisStr
  }

  function ToMap(slots: seq<Reading>): Cache {
    if slots == [] then map[]
    else
      var m, last := ToMap(slots[..|slots| - 1]), slots[|slots| - 1];
      if last.IsNull() then m else m[last.obisStr := last]
  }

  predicate Holds(slots: seq<Reading>, key: string, j: nat) {
    j < |slots| && !slots[j].IsNull() && slots[j].obisStr == key
  }

  lemma {:induction false} SlotInMap(slots: seq<Reading>, j: nat)
    requires Distinct(slots) && j < |slots| && !slots[j].IsNull()
    ensures slots[j].obisStr in ToMap(slots) && ToMap(slots)[slots[j].obisStr] == slots[j]
    decreases |slots|
  {
    if j < |slots| - 1 { SlotInMap(slots[..|slots| - 1], j); }
  }

  lemma {:induction false} KeyHasSlot(slots: seq<Reading>, key: string) returns (j: nat)
    requires key in ToMap(slots)
    ensures Holds(slots, key, j)
    decreases |slots|
  {
    var last := slots[|slots| - 1];
    if !last.IsNull() && last.obisStr == key { j := |slots| - 1; } else { j := KeyHasSlot(slots[..|slots| - 1], key); }
  }

  lemma InMapIff(slots: seq<Reading>, key: string)
    requires Distinct(slots)
    ensures key in ToMap(slots) <==> exists j :: Holds(slots, key, j)
  {
    if key in ToMap(slots) {
      var j := KeyHasSlot(slots, key);
    }
    forall j: nat | Holds(slots, key, j) ensures key in ToMap(slots) { SlotInMap(slots, j); }
  }

  function Occupied(slots: seq<Reading>): nat {
    if slots == [] then 0
    else Occupied(slots[..|slots| - 1]) + if slots[|slots| - 1].IsNull() then 0 else 1
  }

  lemma {:induction false} SizeIsOccupied(slots: seq<Reading>)
    requires Distinct(slots)
    ensures |ToMap(slots)| == Occupied(slots) <= |slots|
    decreases |slots|
  {
    if slots != [] {
      var init, last := slots[..|slots| - 1], slots[|slots| - 1];
      SizeIsOccupied(init);
      if !last.IsNull() && last.obisStr in ToMap(init) {
        var j := KeyHasSlot(init, last.obisStr);
        assert false;
      }
    }
  }

  lemma {:induction false} FreeSlotIff(slots: seq<Reading>)
    ensures Occupied(slots) <= |slots|
    ensures Occupied(slots) == |slots| <==> forall k :: 0 <= k < |slots| ==> !slots[k].IsNull()
    decreases |slots|
  {
    if slots != [] {
      var init := slots[..|slots| - 1];
      FreeSlotIff(init);
      assert forall k :: 0 <= k < |init| ==> init[k] == slots[k];
    }
  }

  /** Replacing the contents of a slot changes the map at that slot's keys only. */
  lemma Overwritten(slots: seq<Reading>, j: nat, r: Reading)
    requires Distinct(slots) && j < |slots| && Distinct(slots[j := r])
    requires slots[j].IsNull() || slots[j].obisStr == r.obisStr
    ensures ToMap(slots[j := r]) ==
      if r.IsNull() then (if slots[j].IsNull() then ToMap(slots) else ToMap(slots) - {r.obisStr})
      else ToMap(slots)[r.obisStr := r]
  {
    var new_ := slots[j := r];
    var want := if r.IsNull() then (if slots[j].IsNull() then ToMap(slots) else ToMap(slots) - {r.obisStr})
                else ToMap(slots)[r.obisStr := r];
    forall key ensures key in ToMap(new_) <==> key in want
               ensures key in ToMap(new_) && key in want ==> ToMap(new_)[key] == want[key]
    {
      if key in ToMap(new_) {
        var i := KeyHasSlot(new_, key);
        SlotInMap(new_, i);
        if i != j { SlotInMap(slots, i); }
      }
      if key in want && !(key == r.obisStr && !r.IsNull()) {
        var i := KeyHasSlot(slots, key);
        SlotInMap(slots, i);
        if i != j { SlotInMap(new_, i); }
      }
      if key == r.obisStr && !r.IsNull() { SlotInMap(new_, j); }
    }
    assert ToMap(new_).Keys == want.Keys;
  }

  lemma {:induction false} NothingCached(slots: seq<Reading>)
    requires forall k :: 0 <= k < |slots| ==> slots[k].IsNull()
    ensures Distinct(slots) && ToMap(slots) == map[]
    decreases |slots|
  {
    if slots != [] { NothingCached(slots[..|slots| - 1]); }
  }

  lemma RemoveAbsent(m: Cache, key: string)
    requires key !in m
    ensures m - {key} == m
  {
  }

  lemma FreshKey(slots: seq<Reading>, j: nat, r: Reading)
    requires Distinct(slots) && j < |slots| && slots[j].IsNull()
    requires forall k: nat :: !Holds(slots, r.obisStr, k)
    ensures Distinct(slots[j := r])
  {
    var n := slots[j := r];
    forall i, k | 0 <= i < k < |n| && !n[i].IsNull() && !n[k].IsNull()
      ensures n[i].obisStr != n[k].obisStr
    {
      assert !Holds(slots, r.obisStr, i) && !Holds(slots, r.obisStr, k);
    }
  }

  class DashboardCache {
    const slots: array<Reading>

    constructor ()
      ensures Valid() && fresh(slots) && Contents() == map[]
    {
      slots := new Reading[CAPACITY](_ => CLEARED);
      new;
      assert slots[..] == seq(CAPACITY, _ => CLEARED);
      NothingCached(slots[..]);
    }

    ghost predicate Valid()
      reads this, slots
    {
      slots.Length == CAPACITY && Distinct(slots[..])
    }

    ghost function Contents(): Cache
      requires Valid()
      reads this, slots
    {
      ToMap(slots[..])
    }

    /** Caching one reading: the slot that holds its key, or else the first free slot. */
    method Store(r: Reading)
      requires Valid()
      modifies slots
      ensures Valid() && Contents() == Cached(old(Contents()), r)
    {
      hide ToMap;
      ghost var was := slots[..];
      SizeIsOccupied(was);
      FreeSlotIff(was);
      InMapIff(was, r.obisStr);
      for j := 0 to CAPACITY
        invariant slots[..] == was
        invariant forall k :: 0 <= k < j ==> !Holds(was, r.obisStr, k)
      {
        if !slots[j].IsNull() && slots[j].obisStr == r.obisStr {
          slots[j] := r;
          assert slots[..] == was[j := r];
          assert Holds(was, r.obisStr, j);
          Overwritten(was, j, r);
          return;
        }
      }
      assert r.obisStr !in ToMap(was);
      for j := 0 to CAPACITY
        invariant slots[..] == was
        invariant forall k :: 0 <= k < j ==> !was[k].IsNull()
      {
        if slots[j].IsNull() {
          slots[j] := r;
          assert slots[..] == was[j := r];
          FreshKey(was, j, r);
          Overwritten(was, j, r);
          RemoveAbsent(ToMap(was), r.obisStr);
          return;
        }
      }
      RemoveAbsent(ToMap(was), r.obisStr);
    }

    /** `cache_readings`; the lock is held throughout. */
    method CacheReadings(readings: seq<Reading>)
      requires Valid()
      modifies slots
      ensures Valid() && Contents() == CachedAll(old(Contents()), readings)
    {
      assert readings[0..] == readings;
      for i := 0 to |readings|
        invariant Valid()
        invariant CachedAll(Contents(), readings[i..]) == CachedAll(old(Contents()), readings)
      {
        assert readings[i..][1..] == readings[i + 1..];
        Store(readings[i]);
      }
    }

    /** `get_cached_reading` */
    method GetCachedReading(key: string) returns (r: Reading)
      requires Valid()
      ensures r == Get(Contents(), key)
    {
      InMapIff(slots[..], key);
      for i := 0 to CAPACITY
        invariant forall k :: 0 <= k < i ==> !Holds(slots[..], key, k)
      {
        if !slots[i].IsNull() && slots[i].obisStr == key {
          SlotInMap(slots[..], i);
          return slots[i];
        }
      }
      r := CLEARED;
    }
  }

  /** A reading changes what is shown for its own key only: then it is shown, or nothing if it is null, unless 32 other
      keys are there. */
  lemma OnlyItsKey(m: Cache, r: Reading, key: string)
    ensures Get(Cached(m, r), key) ==
      if key != r.obisStr then Get(m, key)
      else if !r.valid && r.dataType == 0x00 then CLEARED
      else if key in m || |m| < 32 then r
      else CLEARED
  {
  }

  // ---------- Any batches ----------

  lemma {:induction false} CachedAllConcat(m: Cache, a: seq<Reading>, b: seq<Reading>)
    ensures CachedAll(m, a + b) == CachedAll(CachedAll(m, a), b)
    decreases |a|
  {
    if a == [] {
      assert a + b == b;
    } else {
      assert (a + b)[0] == a[0] && (a + b)[1..] == a[1..] + b;
      CachedAllConcat(Cached(m, a[0]), a[1..], b);
    }
  }

  lemma ChangedSize(m: Cache, key: string, r: Reading)
    ensures |m - {key}| <= |m|
    ensures |m[key := r]| == if key in m then |m| else |m| + 1
  {
    assert (m - {key}).Keys == m.Keys - {key};
    assert m[key := r].Keys == m.Keys + {key};
    assert |m.Keys| == |m| && |(m - {key}).Keys| == |m - {key}| && |m[key := r].Keys| == |m[key := r]|;
  }

  /** The map never exceeds the number of slots. */
  lemma {:induction false} Bounded(m: Cache, rs: seq<Reading>)
    requires |m| <= 32
    ensures |CachedAll(m, rs)| <= 32
    decreases |rs|
  {
    if rs != [] {
      var r := rs[0];
      ChangedSize(m, r.obisStr, r);
      Bounded(Cached(m, r), rs[1..]);
    }
  }

  /** The last reading given for a key. */
  function Last(rs: seq<Reading>, key: string): Option<Reading> {
    if rs == [] then None
    else if rs[|rs| - 1].obisStr == key then Some(rs[|rs| - 1])
    else Last(rs[..|rs| - 1], key)
  }

  function Keys(rs: seq<Reading>): set<string> { set r | r in rs :: r.obisStr }

  lemma Subset(a: set<string>, b: set<string>)
    requires a <= b
    ensures |a| <= |b|
  {
    assert b == a + (b - a);
  }

  lemma {:induction false} KeysBound(rs: seq<Reading>)
    requires |Keys(rs)| <= CAPACITY
    ensures CachedAll(map[], rs).Keys <= Keys(rs)
    decreases |rs|
  {
    if rs != [] {
      var before, last := rs[..|rs| - 1], rs[|rs| - 1];
      assert rs == before + [last];
      CachedAllConcat(map[], before, [last]);
      assert Keys(before) <= Keys(rs);
      Subset(Keys(before), Keys(rs));
      KeysBound(before);
      assert last in rs;
      assert CachedAll(map[], rs) == Cached(CachedAll(map[], before), last);
    }
  }

  lemma ProperSubset(a: set<string>, b: set<string>, x: string)
    requires a <= b && x in b && x !in a
    ensures |a| < |b|
  {
    Subset(a + {x}, b);
  }

  /** As long as no more keys occur than there are slots, a lookup gives the last reading of its key, whatever
      the batches: nothing is lost to the bound, and a key whose last reading is null is gone. */
  lemma {:induction false} LookupIsLast(rs: seq<Reading>, key: string)
    requires |Keys(rs)| <= 32
    ensures Get(CachedAll(map[], rs), key)
      == match Last(rs, key) {
           case None => CLEARED
           case Some(r) => if !r.valid && r.dataType == 0x00 then CLEARED else r
         }
    decreases |rs|
  {
    if rs != [] {
      var before, last := rs[..|rs| - 1], rs[|rs| - 1];
      assert rs == before + [last];
      CachedAllConcat(map[], before, [last]);
      Subset(Keys(before), Keys(rs));
      LookupIsLast(before, key);
      KeysBound(before);
      var m := CachedAll(map[], before);
      assert CachedAll(map[], rs) == Cached(m, last);
      if last.obisStr !in m {
        assert last in rs;
        ProperSubset(m.Keys, Keys(rs), last.obisStr);
        assert |m| == |m.Keys|;
      }
    }
  }
}
