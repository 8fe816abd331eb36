/** The write-coalescing buffer (block/mod.rs, DirtyMap). */
module DirtyMap {
  import opened Arithmetic
  import opened Bytes
  import opened Sealing
  import opened Wrappers

  /** Unwritten data and the number of blocks it is meant for. */
  datatype Entry = Entry(data: seq<byte>, count: nat)

  type Entries = map<nat, Entry>

  /** One drained entry: where it goes and its bytes. */
  datatype Extent = Extent(lba: nat, data: seq<byte>)

  /** The greatest key at or below `x`. */
  function FloorKey(m: Entries, x: nat): (r: Option<nat>)
    ensures r.Some? ==> r.value in m && r.value <= x && forall k :: k in m && k <= x ==> k <= r.value
    ensures r.None? ==> forall k :: k in m ==> x < k
  {
    if x in m then Some(x) else if x == 0 then None else FloorKey(m, x - 1)
  }

  /** Data for the whole block range, if the entry at the greatest key at or below `start` holds it all. */
  function ReadOverlap(m: Entries, start: nat, count: nat, bs: nat): Option<seq<byte>> {
    match FloorKey(m, start)
    case None => None
    case Some(k) =>
      var offset := (start - k) * bs;
      var end := offset + count * bs;
      if start + count <= k + m[k].count && 0 <= offset <= end <= |m[k].data| then Some(m[k].data[offset..end]) else None
  }

  /** Entries are non-empty and carry exactly their blocks. */
  ghost predicate Whole(m: Entries, bs: nat) {
    forall k :: k in m ==> m[k].count > 0 && |m[k].data| == m[k].count * bs
  }

  /** No two entries share a block. */
  ghost predicate Disjoint(m: Entries) {
    forall j, k :: j in m && k in m && j < k ==> j + m[j].count <= k
  }

  ghost predicate Contains(m: Entries, k: nat, start: nat, count: nat) {
    k in m && k <= start && start + count <= k + m[k].count
  }

  /** The entry that holds the whole range is the one looked at, and its bytes of the range are returned. */
  lemma ReadOverlapAt(m: Entries, k: nat, start: nat, count: nat, bs: nat)
    requires bs > 0 && count > 0 && Disjoint(m) && Contains(m, k, start, count)
    requires |m[k].data| == m[k].count * bs
    ensures 0 <= start * bs - k * bs <= start * bs - k * bs + count * bs <= |m[k].data|
    ensures ReadOverlap(m, start, count, bs) == Some(m[k].data[start * bs - k * bs..start * bs - k * bs + count * bs])
  {
    assert FloorKey(m, start) == Some(k);
    RangeInEntry(start, count, k, m[k].count, bs);
  }

  /** On disjoint entries looking at one key is enough: the lookup succeeds exactly when
      some entry holds the whole range. */
  lemma ReadOverlapExact(m: Entries, start: nat, count: nat, bs: nat)
    requires bs > 0 && count > 0 && Whole(m, bs) && Disjoint(m)
    ensures ReadOverlap(m, start, count, bs).Some? <==> exists k: nat :: Contains(m, k, start, count)
  {
    if k: nat :| Contains(m, k, start, count) {
      ReadOverlapAt(m, k, start, count, bs);
    }
    if ReadOverlap(m, start, count, bs).Some? {
      assert Contains(m, FloorKey(m, start).value, start, count);
    }
  }

  lemma RangeInEntry(start: nat, count: nat, k: nat, n: nat, bs: nat)
    requires k <= start && start + count <= k + n
    ensures (start - k) * bs == start * bs - k * bs
    ensures 0 <= start * bs - k * bs <= start * bs - k * bs + count * bs <= n * bs
  {
    MulMono(k, start, bs);
    MulMono(start + count, k + n, bs);
    assert (start + count) * bs == start * bs + count * bs && (k + n) * bs == k * bs + n * bs;
  }

  // -- Byte count ------------------------------------------------------------

  /** The bytes held in all entries together. */
  ghost function DirtyBytes(m: Entries): nat {
    if m == map[] then 0
    else
      var k :| k in m;
      |m[k].data| + DirtyBytes(m - {k})
  }

  /** The sum does not depend on which entry is counted first. */
  lemma {:induction false} DirtyBytesAny(m: Entries, x: nat)
    requires x in m
    ensures DirtyBytes(m) == |m[x].data| + DirtyBytes(m - {x})
    decreases |m|
  {
    var k :| k in m && DirtyBytes(m) == |m[k].data| + DirtyBytes(m - {k});
    if k != x {
      assert (m - {k}) - {x} == (m - {x}) - {k};
      DirtyBytesAny(m - {k}, x);
      DirtyBytesAny(m - {x}, k);
    }
  }

  lemma DirtyBytesInsert(m: Entries, x: nat, e: Entry)
    ensures DirtyBytes(m[x := e]) == DirtyBytes(m) + |e.data| - if x in m then |m[x].data| else 0
  {
    DirtyBytesAny(m[x := e], x);
    assert m[x := e] - {x} == m - {x};
    if x in m {
      DirtyBytesAny(m, x);
    } else {
      assert m - {x} == m;
    }
  }

  // -- Draining --------------------------------------------------------------

  /** `items` are the entries of `m`, each once, in ascending order of address. */
  ghost predicate IsDrain(items: seq<Extent>, m: Entries) {
    && (forall i, j :: 0 <= i < j < |items| ==> items[i].lba < items[j].lba)
    && (forall i :: 0 <= i < |items| ==> items[i].lba in m && items[i].data == m[items[i].lba].data)
    && (forall k :: k in m ==> Listed(items, k))
  }

  ghost predicate Listed(items: seq<Extent>, k: nat) {
    exists i :: 0 <= i < |items| && items[i].lba == k
  }

  /** The first key in the map's order of iteration. */
  method FirstKey(m: Entries) returns (k: nat)
    requires m != map[]
    ensures k in m && forall j :: j in m ==> k <= j
  {
    k :| k in m;
    while exists j :: 0 <= j < k && j in m
      invariant k in m
      decreases k
    {
      var j :| 0 <= j < k && j in m;
      k := j;
    }
  }

  lemma DrainSnoc(items: seq<Extent>, m: Entries, k: nat, e: Entry)
    requires IsDrain(items, m) && forall j :: j in m ==> j < k
    ensures IsDrain(items + [Extent(k, e.data)], m[k := e])
  {
    var all := items + [Extent(k, e.data)];
    forall j | j in m[k := e]
      ensures Listed(all, j)
    {
      if j == k {
        assert all[|items|].lba == k;
      } else {
        assert Listed(items, j);
        var i :| 0 <= i < |items| && items[i].lba == j;
        assert all[i].lba == j;
      }
    }
  }

  /** The entries below an address, and those from it on. */
  ghost function Before(m: Entries, low: nat): Entries {
    map k | k in m && k < low :: m[k]
  }

  ghost function From(m: Entries, low: nat): Entries {
    map k | k in m && low <= k :: m[k]
  }

  /** The first entry from `low` on, and what there is before and after it. */
  lemma NextEntry(m: Entries, low: nat, k: nat)
    requires k in From(m, low) && forall j :: j in From(m, low) ==> k <= j
    ensures From(m, low) - {k} == From(m, k + 1)
    ensures Before(m, low)[k := m[k]] == Before(m, k + 1)
  {
    forall j | j in m && j <= k && j != k
      ensures j < low
    {
      assert j !in From(m, low);
    }
  }

  lemma AllBefore(m: Entries, low: nat)
    requires From(m, low) == map[]
    ensures Before(m, low) == m
  {
    forall k | k in m
      ensures k < low
    {
      assert k !in From(m, low);
    }
  }

  /** `items` are the entries below `low`, and `rest` is what there is from it on. */
  ghost predicate Halfway(m: Entries, low: nat, rest: Entries, items: seq<Extent>) {
    forall n: nat {:trigger Look(n)} :: Look(n) ==> rest == From(m, low) && IsDrain(items, Before(m, low))
  }

  lemma NothingDrained(m: Entries)
    ensures Halfway(m, 0, m, [])
  {
    assert From(m, 0) == m && Before(m, 0) == map[];
  }

  lemma OneMoreDrained(m: Entries, low: nat, rest: Entries, items: seq<Extent>, k: nat)
    requires Halfway(m, low, rest, items) && k in rest && forall j :: j in rest ==> k <= j
    ensures Halfway(m, k + 1, rest - {k}, items + [Extent(k, rest[k].data)])
  {
    assert Look(0);
    NextEntry(m, low, k);
    DrainSnoc(items, Before(m, low), k, m[k]);
  }

  lemma AllDrained(m: Entries, low: nat, items: seq<Extent>)
    requires Halfway(m, low, map[], items)
    ensures IsDrain(items, m)
  {
    assert Look(0);
    AllBefore(m, low);
  }

  /** The entries in the map's order of iteration. */
  method InOrder(m: Entries) returns (items: seq<Extent>)
    ensures IsDrain(items, m)
  {
    items := [];
    var rest := m;
    ghost var low := 0;
    NothingDrained(m);
    while rest != map[]
      invariant Halfway(m, low, rest, items)
      decreases |rest|
    {
      var k := FirstKey(rest);
      OneMoreDrained(m, low, rest, items, k);
      items := items + [Extent(k, rest[k].data)];
      rest, low := rest - {k}, k + 1;
    }
    AllDrained(m, low, items);
  }

  class DirtyMap {
    var entries: Entries
    var totalBytes: nat

    /** The running total is the sum of the entries' lengths. */
    ghost predicate Valid()
      reads this
    {
      totalBytes == DirtyBytes(entries)
    }

    constructor ()
      ensures Valid() && entries == map[]
    {
      entries, totalBytes := map[], 0;
    }

    predicate IsEmpty()
      reads this
    {
      entries == map[]
    }

    /** Entries are keyed by their first block only: an older entry there is replaced, however long. */
    method Insert(start: nat, count: nat, data: seq<byte>)
      requires Valid()
      modifies this
      ensures Valid() && entries == old(entries)[start := Entry(data, count)]
    {
      DirtyBytesInsert(entries, start, Entry(data, count));
      var len := |data|;
      if start in entries {
        DirtyBytesAny(entries, start);
        totalBytes := totalBytes - |entries[start].data|;
      }
      entries := entries[start := Entry(data, count)];
      totalBytes := totalBytes + len;
    }

    method DrainSorted() returns (items: seq<Extent>)
      requires Valid()
      modifies this
      ensures Valid() && entries == map[]
      ensures IsDrain(items, old(entries))
    {
      items := InOrder(entries);
      entries, totalBytes := map[], 0;
    }

    method Lookup(start: nat, count: nat, bs: nat) returns (r: Option<seq<byte>>)
      ensures r == ReadOverlap(entries, start, count, bs)
    {
      r := None;
      var floor := FloorKey(entries, start);
      if floor.Some? {
        var entry := entries[floor.value];
        if start + count <= floor.value + entry.count {
          MulMono(0, start - floor.value, bs);
          MulMono(0, count, bs);
          var offset := (start - floor.value) * bs;
          var end := offset + count * bs;
          if end <= |entry.data| {
            r := Some(entry.data[offset..end]);
          }
        }
      }
    }
  }
}
