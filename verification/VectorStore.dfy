/**
 The in-memory store (src/vector_store.cpp): a flat arena of dense slots with tombstones,
 two id tables and a live count, refining the plain map of module Recovery.
 */
module VectorStore {
  import opened Types
  import opened Recovery

  /** Row `id` of a row-major arena. */
  function Row(arena: Vector, dim: nat, id: nat): (v: Vector)
    requires (id + 1) * dim <= |arena|
    ensures |v| == dim
  {
    assert (id + 1) * dim == id * dim + dim;
    arena[id * dim..(id + 1) * dim]
  }

  lemma RowBounds(dim: nat, id: nat, n: nat)
    requires id < n
    ensures 0 <= id * dim && (id + 1) * dim == id * dim + dim <= n * dim
  {
    var gap := n - (id + 1);
    assert n * dim == (id + 1 + gap) * dim == (id + 1) * dim + gap * dim;
  }

  function Rows(arena: Vector, dim: nat, n: nat): (rows: seq<Vector>)
    requires |arena| == n * dim
    ensures |rows| == n && forall id | 0 <= id < n :: |rows[id]| == dim
  {
    seq(n, id requires 0 <= id < n => RowBounds(dim, id, n); Row(arena, dim, id))
  }

  /** std::copy over row `id`. */
  function Overwrite(arena: Vector, dim: nat, id: nat, v: Vector): (a: Vector)
    requires (id + 1) * dim <= |arena| && |v| == dim
    ensures |a| == |arena|
  {
    assert (id + 1) * dim == id * dim + dim;
    arena[..id * dim] + v + arena[(id + 1) * dim..]
  }

  /** Overwriting one row changes that row only. */
  lemma RowsOverwrite(arena: Vector, dim: nat, n: nat, id: nat, v: Vector)
    requires |arena| == n * dim && id < n && |v| == dim
    ensures (id + 1) * dim <= |arena|
    ensures Rows(Overwrite(arena, dim, id, v), dim, n) == Rows(arena, dim, n)[id := v]
  {
    RowBounds(dim, id, n);
    var a := Overwrite(arena, dim, id, v);
    forall j | 0 <= j < n
      ensures Rows(a, dim, n)[j] == Rows(arena, dim, n)[id := v][j]
    {
      RowBounds(dim, j, n);
      if j < id { RowBounds(dim, j, id); }
      if id < j { RowBounds(dim, id, j); }
      assert a == arena[..id * dim] + v + arena[id * dim + |v|..];
      SliceOverwritten(arena, id * dim, v, j * dim, j * dim + dim);
    }
  }

  lemma SliceOverwritten(s: Vector, at: nat, v: Vector, lo: nat, hi: nat)
    requires at + |v| <= |s| && lo <= hi <= |s|
    ensures var a := s[..at] + v + s[at + |v|..];
            && |a| == |s|
            && (hi <= at || at + |v| <= lo ==> a[lo..hi] == s[lo..hi])
            && (lo == at && hi == at + |v| ==> a[lo..hi] == v)
  {}

  lemma RowsAppend(arena: Vector, dim: nat, n: nat, v: Vector)
    requires |arena| == n * dim && |v| == dim
    ensures |arena + v| == (n + 1) * dim
    ensures Rows(arena + v, dim, n + 1) == Rows(arena, dim, n) + [v]
  {
    RowBounds(dim, n, n + 1);
    forall j | 0 <= j < n + 1
      ensures Rows(arena + v, dim, n + 1)[j] == (Rows(arena, dim, n) + [v])[j]
    {
      RowBounds(dim, j, n + 1);
      if j < n { RowBounds(dim, j, n); }
    }
  }

  function Count(flags: seq<bool>): nat {
    if flags == [] then 0 else (if flags[0] then 1 else 0) + Count(flags[1..])
  }

  lemma {:induction false} CountUpdate(flags: seq<bool>, i: nat, b: bool)
    requires i < |flags|
    ensures Count(flags[i := b]) == Count(flags) - (if flags[i] then 1 else 0) + (if b then 1 else 0)
  {
    if i != 0 {
      CountUpdate(flags[1..], i - 1, b);
      assert flags[i := b][1..] == flags[1..][i - 1 := b];
    } else {
      assert flags[0 := b][1..] == flags[1..];
    }
  }

  lemma {:induction false} CountSnoc(flags: seq<bool>, b: bool)
    ensures Count(flags + [b]) == Count(flags) + (if b then 1 else 0)
  {
    if flags == [] {
      assert flags + [b] == [b];
    } else {
      CountSnoc(flags[1..], b);
      assert (flags + [b])[1..] == flags[1..] + [b];
    }
  }

  ghost function LiveSlots(live: seq<bool>): set<nat> { set i: nat | i < |live| && live[i] }

  lemma LiveSlotsSnoc(live: seq<bool>, last: nat)
    requires |live| == last + 1
    ensures last !in LiveSlots(live[..last])
    ensures LiveSlots(live) == LiveSlots(live[..last]) + (if live[last] then {last} else {})
  {}

  lemma {:induction false} CountIsCardinality(live: seq<bool>)
    ensures Count(live) == |LiveSlots(live)|
    decreases |live|
  {
    if live == [] {
      assert LiveSlots(live) == {};
    } else {
      hide Count, LiveSlots;
      var last := |live| - 1;
      CountIsCardinality(live[..last]);
      CountSnoc(live[..last], live[last]);
      assert live == live[..last] + [live[last]];
      LiveSlotsSnoc(live, last);
    }
  }

  /** Naming finitely many slots by distinct names gives as many names. */
  lemma {:induction false} NamesCount(keys: set<Str>, slots: set<nat>, names: seq<Str>)
    requires forall i | i in slots :: i < |names| && names[i] in keys
    requires forall i, j | i in slots && j in slots && i != j :: names[i] != names[j]
    requires forall x | x in keys :: exists i :: i in slots && names[i] == x
    ensures |keys| == |slots|
    decreases slots
  {
    if slots == {} {
      assert keys == {};
    } else {
      var i :| i in slots;
      forall x | x in keys - {names[i]}
        ensures exists j :: j in slots - {i} && names[j] == x
      {
        var j :| j in slots && names[j] == x;
        assert j in slots - {i};
      }
      NamesCount(keys - {names[i]}, slots - {i}, names);
    }
  }

  /** What the slots stand for. */
  ghost function SlotMap(rows: seq<Vector>, live: seq<bool>, meta: seq<Metadata>, toId: map<Str, nat>): Db
    requires |rows| == |live| == |meta| && forall x | x in toId :: toId[x] < |rows|
  {
    map x | x in toId && live[toId[x]] :: Entry(rows[toId[x]], meta[toId[x]])
  }

  lemma SlotMapAppend(rows: seq<Vector>, live: seq<bool>, meta: seq<Metadata>, toId: map<Str, nat>,
                      ext: Str, v: Vector, m: Metadata)
    requires |rows| == |live| == |meta| && (forall x | x in toId :: toId[x] < |rows|) && ext !in toId
    ensures SlotMap(rows + [v], live + [true], meta + [m], toId[ext := |rows|])
         == SlotMap(rows, live, meta, toId)[ext := Entry(v, m)]
  {}

  lemma SlotMapSet(rows: seq<Vector>, live: seq<bool>, meta: seq<Metadata>, toId: map<Str, nat>,
                   ext: Str, v: Vector, m: Metadata)
    requires |rows| == |live| == |meta| && (forall x | x in toId :: toId[x] < |rows|) && ext in toId
    requires forall x | x in toId && x != ext :: toId[x] != toId[ext]
    ensures SlotMap(rows[toId[ext] := v], live[toId[ext] := true], meta[toId[ext] := m], toId)
         == SlotMap(rows, live, meta, toId)[ext := Entry(v, m)]
  {}

  class VectorStore {
    const dim: nat
    var arena: Vector
    var live: seq<bool>
    var extIds: seq<Str>
    var meta: seq<Metadata>
    var extToInt: map<Str, nat>
    var liveCount: nat

    /** Arena, flags, id tables and live count agree. */
    ghost predicate Valid()
      reads this
    {
      && |live| == |meta| == |extIds|
      && |arena| == |extIds| * dim
      && (forall x | x in extToInt :: extToInt[x] < |extIds| && extIds[extToInt[x]] == x)
      && (forall id | 0 <= id < |extIds| :: extIds[id] in extToInt && extToInt[extIds[id]] == id)
      && liveCount == Count(live)
    }

    /** The vector of every slot, live or not. */
    ghost function Vectors(): seq<Vector>
      reads this
      requires Valid()
    {
      Rows(arena, dim, |extIds|)
    }

    /** The map from live external ids to entries that the store represents. */
    ghost function Contents(): Db
      reads this
      requires Valid()
    {
      SlotMap(Vectors(), live, meta, extToInt)
    }

    /** A live slot is an entry of the map. */
    lemma LiveSlot(id: nat)
      requires Valid() && id < |extIds| && live[id]
      ensures extIds[id] in Contents() && Contents()[extIds[id]] == Entry(Vectors()[id], meta[id])
      ensures extToInt[extIds[id]] == id
    {
      hide Rows, Count;
    }

    /** An entry of the map is a live slot. */
    lemma EntrySlot(x: Str)
      requires Valid() && x in Contents()
      ensures x in extToInt && extToInt[x] < |extIds| && live[extToInt[x]] && extIds[extToInt[x]] == x
    {
      hide Rows, Count;
    }

    /** size(): the live count is the size of the map. */
    lemma SizeIsLiveCount()
      requires Valid()
      ensures |Contents()| == liveCount
    {
      hide Rows, Count, SlotMap;
      var keys, slots := Contents().Keys, LiveSlots(live);
      CountIsCardinality(live);
      forall i | i in slots
        ensures extIds[i] in keys
      {
        LiveSlot(i);
      }
      forall x | x in keys
        ensures exists i :: i in slots && extIds[i] == x
      {
        EntrySlot(x);
        assert extToInt[x] in slots;
      }
      assert forall i, j | i in slots && j in slots && i != j :: extIds[i] != extIds[j];
      NamesCount(keys, slots, extIds);
    }

    lemma ResolveMeans(x: Str)
      requires Valid()
      ensures x in Contents() <==> x in extToInt && live[extToInt[x]]
    {}

    constructor (dim: nat)
      ensures Valid() && this.dim == dim && extIds == [] && live == [] && Contents() == map[]
    {
      this.dim := dim;
      arena, live, extIds, meta, extToInt, liveCount := [], [], [], [], map[], 0;
    }

    method Get(id: nat) returns (v: Vector)
      requires Valid() && id < |extIds|
      ensures v == Vectors()[id]
    {
      RowBounds(dim, id, |extIds|);
      v := arena[id * dim..(id + 1) * dim];
    }

    method Resolve(ext: Str) returns (id: Option<nat>)
      requires Valid()
      ensures id.Some? <==> ext in Contents()
      ensures id.Some? ==> ext in extToInt && id.value == extToInt[ext]
    {
      if ext !in extToInt || !live[extToInt[ext]] { return None; }
      return Some(extToInt[ext]);
    }

    method IsLive(id: nat) returns (b: bool)
      requires Valid()
      ensures b == (id < |live| && live[id])
    {
      b := id < |live| && live[id];
    }

    /** The first half of do_insert: an id seen before gets its slot overwritten and revived. */
    method ReviveSlot(id: nat, vec: Vector, m: Metadata)
      requires Valid() && id < |extIds| && |vec| == dim
      modifies this`arena, this`meta, this`live, this`liveCount
      ensures Valid()
      ensures Contents() == old(Contents())[extIds[id] := Entry(vec, m)]
      ensures Vectors() == old(Vectors())[id := vec] && live == old(live)[id := true] && meta == old(meta)[id := m]
    {
      hide Rows, Overwrite, Count, SlotMap;
      RowsOverwrite(arena, dim, |extIds|, id, vec);
      CountUpdate(live, id, true);
      arena := Overwrite(arena, dim, id, vec);
      meta := meta[id := m];
      if !live[id] {
        live := live[id := true];
        liveCount := liveCount + 1;
      }
      assert live == old(live)[id := true];
      SlotMapSet(old(Vectors()), old(live), old(meta), extToInt, extIds[id], vec, m);
    }

    /** The second half: a new id gets the next dense slot. */
    method NewSlot(ext: Str, vec: Vector, m: Metadata)
      requires Valid() && ext !in extToInt && |vec| == dim
      modifies this
      ensures Valid()
      ensures Contents() == old(Contents())[ext := Entry(vec, m)]
      ensures extIds == old(extIds) + [ext] && Vectors() == old(Vectors()) + [vec]
      ensures live == old(live) + [true] && meta == old(meta) + [m]
      ensures ext in extToInt && extToInt[ext] == |old(extIds)|
    {
      hide Rows, Count, SlotMap;
      SlotMapAppend(Vectors(), live, meta, extToInt, ext, vec, m);
      RowsAppend(arena, dim, |extIds|, vec);
      CountSnoc(live, true);
      extToInt := extToInt[ext := |extIds|];
      arena := arena + vec;
      live := live + [true];
      extIds := extIds + [ext];
      meta := meta + [m];
      liveCount := liveCount + 1;
    }

    /** do_insert */
    method Insert(ext: Str, vec: Vector, m: Metadata) returns (r: Result<nat>)
      requires Valid()
      modifies this
      ensures Valid()
      ensures r.Ok? <==> |vec| == dim
      ensures r.Err? ==> unchanged(this) && r.error == BadDimension
      ensures r.Ok? ==> Contents() == old(Contents())[ext := Entry(vec, m)]
      ensures r.Ok? ==> r.value < |extIds| && extIds[r.value] == ext
      ensures r.Ok? && ext in old(extToInt) ==>
                (extIds == old(extIds) && Vectors() == old(Vectors())[r.value := vec]
                 && live == old(live)[r.value := true] && meta == old(meta)[r.value := m])
      ensures r.Ok? && ext !in old(extToInt) ==>
                (r.value == |old(extIds)| && extIds == old(extIds) + [ext]
                 && Vectors() == old(Vectors()) + [vec] && live == old(live) + [true] && meta == old(meta) + [m])
    {
      hide Rows, Count, SlotMap;
      if |vec| != dim { return Err(BadDimension); }
      if ext in extToInt {
        ReviveSlot(extToInt[ext], vec, m);
      } else {
        NewSlot(ext, vec, m);
      }
      return Ok(extToInt[ext]);
    }

    /** do_update: only a live entry; no metadata means leave it. */
    method Update(ext: Str, vec: Vector, m: Option<Metadata>) returns (r: Result<Option<nat>>)
      requires Valid()
      modifies this
      ensures Valid()
      ensures r.Err? <==> ext in old(Contents()) && |vec| != dim
      ensures r.Err? || ext !in old(Contents()) ==> unchanged(this)
      ensures r.Err? ==> r.error == BadDimension
      ensures r.Ok? ==> Apply(dim, old(Contents()), Op(OpKind.Update, ext, vec, m)) == Ok(Contents())
      ensures r.Ok? ==> r.value.Some? == (ext in old(Contents()))
      ensures extIds == old(extIds) && live == old(live)
      ensures r.Ok? && r.value.Some? ==>
                (r.value.value < |extIds| && extIds[r.value.value] == ext
                 && Vectors() == old(Vectors())[r.value.value := vec]
                 && meta == if m.Some? then old(meta)[r.value.value := m.value] else old(meta))
    {
      hide Rows, Overwrite, Count;
      if ext !in extToInt || !live[extToInt[ext]] { return Ok(None); }
      if |vec| != dim { return Err(BadDimension); }
      var id := extToInt[ext];
      RowsOverwrite(arena, dim, |extIds|, id, vec);
      arena := Overwrite(arena, dim, id, vec);
      if m.Some? { meta := meta[id := m.value]; }
      assert Contents() == old(Contents())[ext := Entry(vec, meta[id])];
      return Ok(Some(id));
    }

    /** do_erase: a tombstone. */
    method Erase(ext: Str) returns (id: Option<nat>)
      requires Valid()
      modifies this`live, this`liveCount
      ensures Valid()
      ensures Contents() == old(Contents()) - {ext} && Vectors() == old(Vectors())
      ensures id.Some? <==> ext in old(Contents())
      ensures id.None? ==> unchanged(this)
      ensures id.Some? ==>
                (id.value < |extIds| && extIds[id.value] == ext && old(live)[id.value]
                 && live == old(live)[id.value := false])
    {
      hide Rows, Count;
      if ext !in extToInt || !live[extToInt[ext]] {
        assert Contents() == Contents() - {ext};
        return None;
      }
      var i := extToInt[ext];
      CountUpdate(live, i, false);
      live := live[i := false];
      liveCount := liveCount - 1;
      assert Contents() == old(Contents()) - {ext};
      return Some(i);
    }
  }
}
