/**
 Two byte-bounded caches: images in development mode (src/data/DevAssetCache.cpp:32-100) and text responses
 (src/data/TextResponseCache.cpp:15-66). File times are parameters.
 */
module Caches {
  import opened Chars

  type bytes = seq<int>

  // ----- images: first in, first out ------------------------------------------------------------

  datatype Images = Images(data: map<string, bytes>, order: seq<string>, size: nat, max: nat)

  function Total(order: seq<string>, data: map<string, bytes>): nat
    requires forall k :: 0 <= k < |order| ==> order[k] in data
  {
    if order == [] then 0 else |data[order[0]]| + Total(order[1..], data)
  }

  predicate Distinct(order: seq<string>) { forall j, k :: 0 <= j < k < |order| ==> order[j] != order[k] }

  /** The queue holds each cached key once, and the counter is the sum of the stored sizes. */
  ghost predicate Consistent(c: Images)
  {
    && Distinct(c.order)
    && (forall key :: key in c.data <==> key in c.order)
    && c.size == Total(c.order, c.data)
  }

  lemma {:induction false} TotalOnly(order: seq<string>, a: map<string, bytes>, b: map<string, bytes>)
    requires forall k :: 0 <= k < |order| ==> order[k] in a && order[k] in b && a[order[k]] == b[order[k]]
    ensures Total(order, a) == Total(order, b)
  {
    if order != [] {
      TotalOnly(order[1..], a, b);
    }
  }

  lemma {:induction false} TotalConcat(x: seq<string>, y: seq<string>, data: map<string, bytes>)
    requires forall k :: 0 <= k < |x| ==> x[k] in data
    requires forall k :: 0 <= k < |y| ==> y[k] in data
    ensures forall k :: 0 <= k < |x + y| ==> (x + y)[k] in data
    ensures Total(x + y, data) == Total(x, data) + Total(y, data)
  {
    if x == [] {
      assert x + y == y;
    } else {
      assert (x + y)[1..] == x[1..] + y;
      TotalConcat(x[1..], y, data);
    }
  }

  /** The oldest entry leaves. */
  function DropOldest(c: Images): Images
    requires c.order != [] && c.order[0] in c.data && c.size >= |c.data[c.order[0]]|
  {
    c.(data := c.data - {c.order[0]}, order := c.order[1..], size := c.size - |c.data[c.order[0]]|)
  }

  lemma OldestFits(c: Images)
    requires Consistent(c) && c.order != []
    ensures c.order[0] in c.data && c.size >= |c.data[c.order[0]]| && Consistent(DropOldest(c))
  {
    assert c.order[0] in c.order;
    var rest := c.order[1..];
    assert c.order == [c.order[0]] + rest;
    forall k | 0 <= k < |rest| ensures rest[k] != c.order[0] && rest[k] in c.data {
      assert rest[k] == c.order[k + 1];
    }
    TotalOnly(rest, c.data, c.data - {c.order[0]});
  }

  /** Old entries leave until n more bytes fit or nothing is left. */
  ghost function MakeRoom(c: Images, n: nat): (r: Images)
    requires Consistent(c)
    ensures Consistent(r) && r.max == c.max && (r.order == [] || r.size + n <= r.max)
    decreases |c.order|
  {
    if c.order == [] || c.size + n <= c.max then c
    else
      OldestFits(c);
      MakeRoom(DropOldest(c), n)
  }

  /** The cache after its k oldest entries have left. */
  ghost function Dropped(c: Images, k: nat): (r: Images)
    requires Consistent(c) && k <= |c.order|
    ensures Consistent(r) && r.max == c.max && r.order == c.order[k..]
    ensures forall key :: key in r.data ==> key in c.data && r.data[key] == c.data[key]
    decreases k
  {
    if k == 0 then c
    else
      OldestFits(c);
      assert c.order[k..] == c.order[1..][k - 1..];
      Dropped(DropOldest(c), k - 1)
  }

  lemma DroppedStep(c: Images, k: nat)
    requires Consistent(c) && 0 < k <= |c.order|
    ensures c.order[0] in c.data && c.size >= |c.data[c.order[0]]| && Consistent(DropOldest(c))
    ensures |DropOldest(c).order| == |c.order| - 1 && Dropped(c, k) == Dropped(DropOldest(c), k - 1)
  {
    OldestFits(c);
    hide Consistent;
  }

  lemma MakeRoomStep(c: Images, n: nat)
    requires Consistent(c)
    ensures c.order == [] || c.size + n <= c.max ==> MakeRoom(c, n) == c && Dropped(c, 0) == c
    ensures c.order != [] && c.size + n > c.max ==>
              && c.order[0] in c.data && c.size >= |c.data[c.order[0]]| && Consistent(DropOldest(c))
              && MakeRoom(c, n) == MakeRoom(DropOldest(c), n) && Dropped(c, 0) == c
  {
    if c.order != [] {
      OldestFits(c);
    }
    hide Consistent;
  }

  /** What leaves are the oldest entries, one at a time, and no more than had to. */
  lemma {:induction false} MakeRoomDropsOldest(c: Images, n: nat) returns (gone: nat)
    requires Consistent(c)
    ensures gone <= |c.order| && MakeRoom(c, n) == Dropped(c, gone)
    ensures forall k: nat :: k < gone ==> Dropped(c, k).size + n > c.max
    decreases |c.order|
  {
    hide Consistent, MakeRoom, Dropped;
    gone := 0;
    MakeRoomStep(c, n);
    if c.order != [] && c.size + n > c.max {
      var d := DropOldest(c);
      var more := MakeRoomDropsOldest(d, n);
      gone := more + 1;
      DroppedStep(c, gone);
      forall k: nat | k < gone ensures Dropped(c, k).size + n > c.max {
        if k > 0 {
          DroppedStep(c, k);
        }
      }
    }
  }

  /** The first place of a key in the queue is taken out. */
  function Without(order: seq<string>, key: string): seq<string>
  {
    if order == [] then [] else if order[0] == key then order[1..] else [order[0]] + Without(order[1..], key)
  }

  lemma {:induction false} WithoutIs(order: seq<string>, key: string)
    requires Distinct(order)
    ensures Distinct(Without(order, key))
    ensures forall x :: x in Without(order, key) <==> x in order && x != key
    ensures key !in order ==> Without(order, key) == order
  {
    if order != [] {
      var tail := order[1..];
      assert order == [order[0]] + tail;
      forall j, k | 0 <= j < k < |tail| ensures tail[j] != tail[k] {
        assert tail[j] == order[j + 1] && tail[k] == order[k + 1];
      }
      WithoutIs(tail, key);
      forall k | 0 <= k < |tail| ensures tail[k] != order[0] {
        assert tail[k] == order[k + 1];
      }
      var w := Without(tail, key);
      forall k | 0 <= k < |w| ensures w[k] != order[0] {
        assert w[k] in w;
        assert w[k] in tail;
      }
    }
  }

  lemma {:induction false} WithoutTotal(order: seq<string>, key: string, data: map<string, bytes>)
    requires Distinct(order) && key in order && forall k :: 0 <= k < |order| ==> order[k] in data
    ensures forall k :: 0 <= k < |Without(order, key)| ==> Without(order, key)[k] in data
    ensures Total(order, data) == Total(Without(order, key), data) + |data[key]|
  {
    var tail := order[1..];
    assert order == [order[0]] + tail;
    forall j, k | 0 <= j < k < |tail| ensures tail[j] != tail[k] {
      assert tail[j] == order[j + 1] && tail[k] == order[k + 1];
    }
    if order[0] != key {
      WithoutTotal(tail, key, data);
      assert ([order[0]] + Without(tail, key))[1..] == Without(tail, key);
    }
  }

  lemma RemoveKeeps(c: Images, key: string)
    requires Consistent(c) && key in c.data
    ensures c.size >= |c.data[key]|
    ensures Consistent(c.(data := c.data - {key}, order := Without(c.order, key), size := c.size - |c.data[key]|))
  {
    WithoutIs(c.order, key);
    WithoutTotal(c.order, key, c.data);
    var order := Without(c.order, key);
    forall k | 0 <= k < |order| ensures order[k] in c.data && order[k] != key {
      assert order[k] in order;
    }
    TotalOnly(order, c.data, c.data - {key});
  }

  lemma AppendKeeps(c: Images, key: string, data: bytes)
    requires Consistent(c) && key !in c.data
    ensures Consistent(c.(data := c.data[key := data], order := c.order + [key], size := c.size + |data|))
  {
    var d := c.data[key := data];
    forall k | 0 <= k < |c.order| ensures c.order[k] in c.data && c.order[k] != key {
      assert c.order[k] in c.order;
    }
    TotalOnly(c.order, c.data, d);
    TotalConcat(c.order, [key], d);
    assert [key][1..] == [];
    assert Total([key], d) == |data|;
  }

  /** The key's entry leaves, wherever it stands. */
  ghost function Removed(c: Images, key: string): (r: Images)
    requires Consistent(c)
    ensures Consistent(r) && r.max == c.max && r.size <= c.size && key !in r.data
    ensures forall other :: other in r.data ==> other in c.data && r.data[other] == c.data[other]
  {
    if key in c.data then
      RemoveKeeps(c, key);
      c.(data := c.data - {key}, order := Without(c.order, key), size := c.size - |c.data[key]|)
    else c
  }

  /** A new entry comes last. */
  ghost function Appended(c: Images, key: string, data: bytes): (r: Images)
    requires Consistent(c) && key !in c.data
    ensures Consistent(r) && r.max == c.max
  {
    AppendKeeps(c, key, data);
    c.(data := c.data[key := data], order := c.order + [key], size := c.size + |data|)
  }

  /** putWebP: room is made first, then the key's old entry goes, then the new one comes last. */
  ghost function Put(c: Images, key: string, data: Option<bytes>): (r: Images)
    requires Consistent(c)
    ensures Consistent(r) && r.max == c.max
  {
    if data.None? || data.value == [] || |data.value| > c.max then c
    else Appended(Removed(MakeRoom(c, |data.value|), key), key, data.value)
  }

  predicate Admitted(c: Images, data: Option<bytes>) { data.Some? && 0 < |data.value| <= c.max }

  /** An admitted entry is stored and within the limit; every other key keeps its data or is gone. */
  lemma PutStores(c: Images, key: string, data: Option<bytes>)
    requires Consistent(c)
    ensures var r := Put(c, key, data);
            if !Admitted(c, data) then r == c
            else key in r.data && r.data[key] == data.value && r.size <= r.max && r.order[|r.order| - 1] == key
                 && forall other :: other in r.data && other != key ==> other in c.data && r.data[other] == c.data[other]
  {
    hide Consistent, MakeRoom, Dropped, Without, Removed;
    if Admitted(c, data) {
      var gone := MakeRoomDropsOldest(c, |data.value|);
      EmptyIsZero(MakeRoom(c, |data.value|));
      DroppedKeeps(c, gone);
    }
  }

  lemma DroppedKeeps(c: Images, k: nat)
    requires Consistent(c) && k <= |c.order|
    ensures forall key :: key in Dropped(c, k).data ==> key in c.data && Dropped(c, k).data[key] == c.data[key]
  {
    hide Consistent;
  }

  lemma EmptyIsZero(c: Images)
    requires Consistent(c)
    ensures c.order == [] ==> c.size == 0
  {
  }

  /** Exactly what is left: the entries after the oldest ones that had to go, without the old entry of the key, and then
      the new one. The old entry of the key still counts while room is made. */
  lemma PutExactly(c: Images, key: string, data: Option<bytes>) returns (gone: nat)
    requires Consistent(c) && Admitted(c, data)
    ensures gone <= |c.order|
    ensures gone == |c.order| || Dropped(c, gone).size + |data.value| <= c.max
    ensures forall k: nat :: k < gone ==> Dropped(c, k).size + |data.value| > c.max
    ensures var r := Put(c, key, data);
            && r.order == Without(c.order[gone..], key) + [key]
            && (forall other :: other in c.order[gone..] && other != key ==> other in r.data && r.data[other] == c.data[other])
            && r.data.Keys == (set other | other in r.order)
  {
    assert data.Some?;
    hide *;
    gone := MakeRoomDropsOldest(c, |data.value|);
    RoomMade(c, gone);
    var d := MakeRoom(c, |data.value|);
    RemovedIs(d, key);
    PutIs(c, key, data);
    EmptyRoom(c, gone, |data.value|);
  }

  lemma EmptyRoom(c: Images, gone: nat, n: nat)
    requires Consistent(c) && gone <= |c.order| && MakeRoom(c, n) == Dropped(c, gone)
    ensures gone == |c.order| || Dropped(c, gone).size + n <= c.max
  {
    hide Consistent;
  }

  lemma PutIs(c: Images, key: string, data: Option<bytes>)
    requires Consistent(c) && Admitted(c, data)
    ensures var d := Removed(MakeRoom(c, |data.value|), key);
            var r := Put(c, key, data);
            r.order == d.order + [key] && r.data == d.data[key := data.value] && r.data.Keys == (set x | x in r.order)
  {
    hide MakeRoom, Removed, Consistent;
    var r := Put(c, key, data);
    ConsistentKeys(r);
  }

  lemma ConsistentKeys(c: Images)
    requires Consistent(c)
    ensures c.data.Keys == (set x | x in c.order)
  {
  }

  lemma RoomMade(c: Images, gone: nat)
    requires Consistent(c) && gone <= |c.order|
    ensures var d := Dropped(c, gone);
            d.order == c.order[gone..] && Distinct(d.order) && forall key :: key in d.order ==> key in c.data && key in d.data && d.data[key] == c.data[key]
  {
    DroppedKeeps(c, gone);
  }

  lemma RemovedIs(c: Images, key: string)
    requires Consistent(c)
    ensures Removed(c, key).order == Without(c.order, key) && Removed(c, key).data == c.data - {key}
    ensures forall x :: x in Without(c.order, key) <==> x in c.order && x != key
  {
    WithoutIs(c.order, key);
  }

  // ----- images over whole runs -----------------------------------------------------------------

  datatype ImageOp = PutImage(key: string, data: Option<bytes>) | SetMax(max: nat) | Clear

  ghost function ImageStep(c: Images, op: ImageOp): (r: Images)
    requires Consistent(c)
    ensures Consistent(r)
  {
    match op
    case PutImage(key, data) => Put(c, key, data)
    case SetMax(max) => c.(max := max)
    case Clear => Images(map[], [], 0, c.max)
  }

  const NoImages := Images(map[], [], 0, 0)

  /** The cache after these operations, from an empty one with this limit. */
  ghost function ImageRun(max: nat, ops: seq<ImageOp>): (r: Images)
    ensures Consistent(r)
  {
    if ops == [] then NoImages.(max := max) else ImageStep(ImageRun(max, ops[..|ops| - 1]), ops[|ops| - 1])
  }

  /** A simple map: the last admitted data of each key since the last clear. */
  ghost function LastPut(max: nat, ops: seq<ImageOp>): map<string, bytes>
  {
    if ops == [] then map[]
    else
      var before := LastPut(max, ops[..|ops| - 1]);
      match ops[|ops| - 1]
      case PutImage(key, data) =>
        if Admitted(ImageRun(max, ops[..|ops| - 1]), data) then before[key := data.value] else before
      case SetMax(_) => before
      case Clear => map[]
  }

  /** Whatever was done, a cached image is the last one admitted under its key. */
  lemma {:induction false} CachedIsLast(max: nat, ops: seq<ImageOp>)
    ensures var c := ImageRun(max, ops);
            forall key :: key in c.data ==> key in LastPut(max, ops) && c.data[key] == LastPut(max, ops)[key]
  {
    if ops != [] {
      var front := ops[..|ops| - 1];
      CachedIsLast(max, front);
      var op := ops[|ops| - 1];
      if op.PutImage? {
        PutStores(ImageRun(max, front), op.key, op.data);
      }
      hide Put;
    }
  }

  lemma RunStep(max: nat, ops: seq<ImageOp>, op: ImageOp)
    ensures ImageRun(max, ops + [op]) == ImageStep(ImageRun(max, ops), op)
  {
    hide ImageStep;
    assert (ops + [op])[..|ops|] == ops;
  }

  class DevAssetCache {
    var webp: map<string, bytes>
    var webpOrder: seq<string>
    var webpSizeBytes: nat
    var maxWebpBytes: nat
    /** What has been done to this cache so far, and the limit it started with. */
    ghost var ops: seq<ImageOp>
    ghost const firstMax: nat

    ghost function AsImages(): Images
      reads this
    {
      Images(webp, webpOrder, webpSizeBytes, maxWebpBytes)
    }

    ghost predicate Valid()
      reads this
    {
      AsImages() == ImageRun(firstMax, ops)
    }

    constructor (max: nat)
      ensures Valid() && ops == [] && firstMax == max
    {
      webp, webpOrder, webpSizeBytes, maxWebpBytes := map[], [], 0, max;
      ops, firstMax := [], max;
    }

    ghost method Did(op: ImageOp)
      requires AsImages() == ImageStep(ImageRun(firstMax, ops), op)
      modifies this`ops
      ensures Valid() && ops == old(ops) + [op]
    {
      hide ImageStep;
      RunStep(firstMax, ops, op);
      ops := ops + [op];
    }

    method Evict(entrySize: nat)
      requires Consistent(AsImages())
      modifies this`webp, this`webpOrder, this`webpSizeBytes
      ensures Consistent(AsImages()) && AsImages() == MakeRoom(old(AsImages()), entrySize)
    {
      hide Consistent;
      while webpOrder != [] && webpSizeBytes + entrySize > maxWebpBytes
        invariant Consistent(AsImages()) && MakeRoom(AsImages(), entrySize) == MakeRoom(old(AsImages()), entrySize)
        decreases |webpOrder|
      {
        OldestFits(AsImages());
        var oldest := webpOrder[0];
        if oldest in webp {
          webpSizeBytes := webpSizeBytes - |webp[oldest]|;
          webp := webp - {oldest};
        }
        webpOrder := webpOrder[1..];
      }
    }

    method RemoveFromOrder(key: string)
      modifies this`webpOrder
      ensures webpOrder == Without(old(webpOrder), key)
    {
      var i := 0;
      assert webpOrder[0..] == webpOrder;
      while i < |webpOrder| && webpOrder[i] != key
        invariant i <= |webpOrder| && webpOrder == old(webpOrder)
        invariant Without(webpOrder, key) == webpOrder[..i] + Without(webpOrder[i..], key)
      {
        assert webpOrder[i..][1..] == webpOrder[i + 1..];
        assert webpOrder[..i + 1] == webpOrder[..i] + [webpOrder[i]];
        i := i + 1;
      }
      if i < |webpOrder| {
        assert webpOrder[i..][1..] == webpOrder[i + 1..];
        webpOrder := webpOrder[..i] + webpOrder[i + 1..];
      }
    }

    method PutWebP(key: string, data: Option<bytes>)
      requires Valid()
      modifies this
      ensures Valid() && ops == old(ops) + [PutImage(key, data)]
      ensures Consistent(AsImages()) && AsImages() == Put(old(AsImages()), key, data)
    {
      PutUnlogged(key, data);
      Did(PutImage(key, data));
    }

    method PutUnlogged(key: string, data: Option<bytes>)
      requires Consistent(AsImages())
      modifies this`webp, this`webpOrder, this`webpSizeBytes
      ensures Consistent(AsImages()) && AsImages() == Put(old(AsImages()), key, data)
    {
      hide Consistent, MakeRoom, Without;
      if data.None? || data.value == [] {
        return;
      }
      var entrySize := |data.value|;
      if entrySize > maxWebpBytes {
        return;
      }
      Evict(entrySize);
      if key in webp {
        RemoveKeeps(AsImages(), key);
        webpSizeBytes := webpSizeBytes - |webp[key]|;
        webp := webp - {key};
        RemoveFromOrder(key);
      }
      AppendKeeps(AsImages(), key, data.value);
      webpSizeBytes := webpSizeBytes + entrySize;
      webp := webp[key := data.value];
      webpOrder := webpOrder + [key];
    }

    /** The last data admitted under the key since the last clear, for the keys still in the queue. */
    method GetWebP(key: string) returns (r: Option<bytes>)
      requires Valid()
      ensures r.Some? <==> key in webpOrder
      ensures r.Some? ==> key in LastPut(firstMax, ops) && r.value == LastPut(firstMax, ops)[key]
    {
      CachedIsLast(firstMax, ops);
      r := if key in webp then Some(webp[key]) else None;
    }

    method SetMaxWebPBytes(max: nat)
      requires Valid()
      modifies this
      ensures Valid() && ops == old(ops) + [SetMax(max)]
      ensures Consistent(AsImages()) && AsImages() == old(AsImages()).(max := max)
    {
      maxWebpBytes := max;
      Did(SetMax(max));
    }

    method ClearAll()
      requires Valid()
      modifies this
      ensures Valid() && ops == old(ops) + [Clear]
      ensures Consistent(AsImages()) && AsImages() == NoImages.(max := old(AsImages()).max)
    {
      webp, webpOrder, webpSizeBytes := map[], [], 0;
      Did(Clear);
    }
  }

  // ----- text responses: any victim -------------------------------------------------------------

  /** The file's time when the entry was made, if it could be read. */
  datatype Entry = Entry(payload: string, mtime: Option<int>)

  ghost function Sum(entries: map<string, Entry>): nat
    decreases |entries|
  {
    if entries == map[] then 0
    else
      var key :| key in entries;
      |entries[key].payload| + Sum(entries - {key})
  }

  /** Any entry can be taken out of the sum first. */
  lemma {:induction false} SumTakes(entries: map<string, Entry>, key: string)
    requires key in entries
    ensures Sum(entries) == |entries[key].payload| + Sum(entries - {key})
    decreases |entries|
  {
    var first :| first in entries && Sum(entries) == |entries[first].payload| + Sum(entries - {first});
    if first != key {
      SumTakes(entries - {first}, key);
      SumTakes(entries - {key}, first);
      assert entries - {first} - {key} == entries - {key} - {first};
    }
  }

  lemma SumNone()
    ensures Sum(map[]) == 0
  {
  }

  lemma SumAdds(entries: map<string, Entry>, key: string, e: Entry)
    requires key !in entries
    ensures Sum(entries[key := e]) == Sum(entries) + |e.payload|
  {
    SumTakes(entries[key := e], key);
    assert entries[key := e] - {key} == entries;
  }

  class TextResponseCache {
    var entries: map<string, Entry>
    var totalBytes: nat
    /** The last admitted store of each key. */
    ghost var last: map<string, Entry>

    /** The counter is the sum of the sizes, and every entry is the last one stored under its key. */
    ghost predicate Valid()
      reads this
    {
      totalBytes == Sum(entries) && forall key :: key in entries ==> key in last && entries[key] == last[key]
    }

    constructor ()
      ensures Valid() && entries == map[] && last == map[]
    {
      entries, totalBytes, last := map[], 0, map[];
    }

    method Remove(key: string)
      requires Valid() && key in entries
      modifies this`entries, this`totalBytes
      ensures Valid() && entries == old(entries) - {key}
      ensures totalBytes == old(totalBytes) - |old(entries)[key].payload|
    {
      SumTakes(entries, key);
      totalBytes := totalBytes - |entries[key].payload|;
      entries := entries - {key};
    }

    /** `mtime`: the file's time now, if it can be read. A hit is the last payload stored under the key, of the
        same time; otherwise the entry is dropped. */
    method Lookup(key: string, mtime: Option<int>, devMode: bool, maxEntryBytes: nat, maxTotalBytes: nat)
      returns (hit: Option<string>)
      requires Valid()
      modifies this`entries, this`totalBytes
      ensures Valid()
      ensures hit.Some? <==> !devMode && maxEntryBytes > 0 && maxTotalBytes > 0 && key in old(entries)
                             && old(entries)[key].mtime.Some? && old(entries)[key].mtime == mtime
      ensures hit.Some? ==> key in last && hit.value == last[key].payload && last[key].mtime == mtime
      ensures entries == if hit.Some? || devMode || maxEntryBytes == 0 || maxTotalBytes == 0 then old(entries)
                         else old(entries) - {key}
    {
      if devMode || maxEntryBytes == 0 || maxTotalBytes == 0 {
        return None;
      }
      if key !in entries {
        assert entries - {key} == entries;
        return None;
      }
      if entries[key].mtime.None? {
        Remove(key);
        return None;
      }
      if mtime.None? || mtime != entries[key].mtime {
        Remove(key);
        return None;
      }
      return Some(entries[key].payload);
    }

    /** Victims are taken in any order until the new entry fits. */
    method MakeRoomFor(size: nat, maxTotalBytes: nat)
      requires Valid()
      modifies this`entries, this`totalBytes
      ensures Valid() && (entries == map[] || totalBytes + size <= maxTotalBytes)
      ensures forall key :: key in entries ==> key in old(entries) && entries[key] == old(entries)[key]
      ensures old(totalBytes) + size <= maxTotalBytes ==> entries == old(entries)
    {
      while totalBytes + size > maxTotalBytes && entries != map[]
        invariant Valid()
        invariant forall key :: key in entries ==> key in old(entries) && entries[key] == old(entries)[key]
        invariant old(totalBytes) + size <= maxTotalBytes ==> entries == old(entries) && totalBytes == old(totalBytes)
        decreases |entries|
      {
        var victim :| victim in entries;
        Remove(victim);
      }
    }

    /** A new entry, once there is room. */
    method Insert(key: string, entry: Entry)
      requires Valid() && key !in entries
      modifies this
      ensures Valid() && totalBytes == old(totalBytes) + |entry.payload|
      ensures entries == old(entries)[key := entry] && last == old(last)[key := entry]
    {
      SumAdds(entries, key, entry);
      hide Sum;
      totalBytes := totalBytes + |entry.payload|;
      entries := entries[key := entry];
      last := last[key := entry];
    }

    method Store(key: string, payload: string, mtime: Option<int>, devMode: bool, maxEntryBytes: nat,
                 maxTotalBytes: nat) returns (ghost admitted: bool)
      requires Valid()
      modifies this
      ensures Valid()
      ensures admitted == (!devMode && payload != "" && maxEntryBytes > 0 && maxTotalBytes > 0 && |payload| <= maxEntryBytes)
      ensures last == if admitted then old(last)[key := Entry(payload, mtime)] else old(last)
      ensures !admitted ==> entries == old(entries)
      ensures admitted ==>
                && key in entries && entries[key] == Entry(payload, mtime)
                && totalBytes <= (if maxTotalBytes > maxEntryBytes then maxTotalBytes else maxEntryBytes)
                && (totalBytes <= maxTotalBytes || entries == map[key := Entry(payload, mtime)])
                && forall other :: other in entries && other != key ==>
                     other in old(entries) && entries[other] == old(entries)[other]
      ensures admitted && old(totalBytes - (if key in entries then |entries[key].payload| else 0)) + |payload| <= maxTotalBytes
              ==> entries == old(entries)[key := Entry(payload, mtime)]
    {
      hide Sum;
      admitted := false;
      if devMode || payload == "" || maxEntryBytes == 0 || maxTotalBytes == 0 || |payload| > maxEntryBytes {
        return;
      }
      admitted := true;
      var entry := Entry(payload, mtime);
      if key in entries {
        Remove(key);
      }
      MakeRoomFor(|payload|, maxTotalBytes);
      SumNone();
      Insert(key, entry);
    }
  }
}
