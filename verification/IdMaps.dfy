/** Two id allocators: the server's IdMap, whose vector never shrinks, and the loader's, which
    drops the last slot when its id is removed. */
module IdMaps {
  import opened Collections

  /** What both keep: a vector of slots and the set of ids that are free. */
  datatype Slots<T> = Slots(items: seq<T>, free: set<int>)

  ghost predicate Sound<T>(s: Slots<T>) {
    forall id <- s.free :: 0 <= id < |s.items|
  }

  /** The items in use, by id. */
  ghost function Live<T>(s: Slots<T>): map<int, T> {
    map id | 0 <= id < |s.items| && id !in s.free :: s.items[id]
  }

  // ----- what each of the two does

  function AddItem<T>(s: Slots<T>, item: T): (r: (Slots<T>, int))
    requires s.free != {} ==> 0 <= Min(s.free) < |s.items|
  {
    if s.free == {} then (Slots(s.items + [item], s.free), |s.items|)
    else (Slots(s.items[Min(s.free) := item], s.free - {Min(s.free)}), Min(s.free))
  }

  function ServerRemove<T>(s: Slots<T>, id: int, none: T): Slots<T>
    requires 0 <= id < |s.items|
  {
    Slots(s.items[id := none], s.free + {id})
  }

  function LoaderRemove<T>(s: Slots<T>, id: int, none: T): Slots<T> {
    if id < 0 || id >= |s.items| || id in s.free then s
    else if id == |s.items| - 1 then Slots(s.items[..id], s.free)
    else Slots(s.items[id := none], s.free + {id})
  }

  // ----- the allocator both implement

  /** The least id that is not in use. */
  ghost predicate IsLeastUnused(id: int, used: set<int>) {
    0 <= id && id !in used && forall j :: 0 <= j < id ==> j in used
  }

  lemma AddIsLeast<T>(s: Slots<T>, item: T)
    requires Sound(s)
    ensures s.free != {} ==> 0 <= Min(s.free) < |s.items|
    ensures var (r, id) := AddItem(s, item);
            Sound(r) && IsLeastUnused(id, Live(s).Keys) && Live(r) == Live(s)[id := item]
  {
  }

  /** Removing an id that is free already changes nothing either. */
  lemma ServerRemoves<T>(s: Slots<T>, id: int, none: T)
    requires Sound(s) && 0 <= id < |s.items|
    ensures Sound(ServerRemove(s, id, none)) && Live(ServerRemove(s, id, none)) == Live(s) - {id}
  {
  }

  /** Removing an id that is not in use changes nothing. */
  lemma LoaderRemoves<T>(s: Slots<T>, id: int, none: T)
    requires Sound(s)
    ensures Sound(LoaderRemove(s, id, none)) && Live(LoaderRemove(s, id, none)) == Live(s) - {id}
  {
    if id !in Live(s) {
      assert Live(s) - {id} == Live(s);
    }
  }

  // ----- runs

  datatype Op<T> = Add(item: T) | Remove(id: int)

  datatype Run<T> = Run(slots: Slots<T>, ids: seq<int>)

  /** The server's allocator after these operations, with the ids it gave out; an operation on
      an id that was never given out is skipped. */
  ghost function ServerRun<T>(ops: seq<Op<T>>, none: T): (r: Run<T>)
    ensures Sound(r.slots)
  {
    if ops == [] then Run(Slots([], {}), [])
    else
      var before, op := ServerRun(ops[..|ops| - 1], none), ops[|ops| - 1];
      var s := before.slots;
      match op
      case Add(item) =>
        AddIsLeast(s, item);
        var (r, id) := AddItem(s, item);
        Run(r, before.ids + [id])
      case Remove(id) =>
        if id < 0 || id >= |s.items| then before
        else
          ServerRemoves(s, id, none);
          Run(ServerRemove(s, id, none), before.ids)
  }

  ghost function LoaderRun<T>(ops: seq<Op<T>>, none: T): (r: Run<T>)
    ensures Sound(r.slots)
  {
    if ops == [] then Run(Slots([], {}), [])
    else
      var before, op := LoaderRun(ops[..|ops| - 1], none), ops[|ops| - 1];
      var s := before.slots;
      match op
      case Add(item) =>
        AddIsLeast(s, item);
        var (r, id) := AddItem(s, item);
        Run(r, before.ids + [id])
      case Remove(id) =>
        LoaderRemoves(s, id, none);
        Run(LoaderRemove(s, id, none), before.ids)
  }

  /** Both give out the same ids and hold the same items under them, whatever the operations. */
  lemma {:induction false} SameAnswers<T>(ops: seq<Op<T>>, none: T)
    ensures ServerRun(ops, none).ids == LoaderRun(ops, none).ids
    ensures Live(ServerRun(ops, none).slots) == Live(LoaderRun(ops, none).slots)
  {
    if ops != [] {
      var init, op := ops[..|ops| - 1], ops[|ops| - 1];
      SameAnswers(init, none);
      var s, l := ServerRun(init, none).slots, LoaderRun(init, none).slots;
      match op
      case Add(item) =>
        AddIsLeast(s, item);
        AddIsLeast(l, item);
        OneLeast(AddItem(s, item).1, AddItem(l, item).1, Live(s).Keys);
        hide Live, AddItem, Sound;
      case Remove(id) =>
        LoaderRemoves(l, id, none);
        if 0 <= id < |s.items| {
          ServerRemoves(s, id, none);
        } else {
          assert Live(s) - {id} == Live(s);
        }
        hide Live, LoaderRemove, Sound;
    }
  }

  lemma OneLeast(a: int, b: int, used: set<int>)
    requires IsLeastUnused(a, used) && IsLeastUnused(b, used)
    ensures a == b
  {
  }

  // ----- the server's allocator

  class IdMap<T> {
    var items: seq<T>
    var freeIds: set<int>
    const none: T           // a default item

    ghost function View(): Slots<T>
      reads this
    {
      Slots(items, freeIds)
    }

    ghost predicate Valid()
      reads this
    {
      Sound(View())
    }

    constructor (none: T)
      ensures Valid() && Live(View()) == map[]
    {
      this.none := none;
      items, freeIds := [], {};
    }

    method Add(item: T) returns (id: int)
      requires Valid()
      modifies this
      ensures Valid() && (View(), id) == AddItem(old(View()), item)
      ensures IsLeastUnused(id, old(Live(View())).Keys) && Live(View()) == old(Live(View()))[id := item]
    {
      AddIsLeast(View(), item);
      if freeIds == {} {
        items := items + [item];
        id := |items| - 1;
      } else {
        id := Min(freeIds);
        freeIds := freeIds - {id};
        items := items[id := item];
      }
      hide Live;
    }

    function MaxId(): int
      reads this
    {
      |items| - 1
    }

    predicate IsValidId(id: int)
      requires Valid()
      reads this
      ensures IsValidId(id) <==> id in Live(View())
    {
      id >= 0 && id <= MaxId() && id !in freeIds
    }

    /** The next id in use after this one, or -1; below -1 the next number. */
    method NextId(id: int) returns (next: int)
      requires Valid()
      ensures if id < -1 then next == id + 1
              else if next == -1 then forall j <- Live(View()) :: j <= id
              else next in Live(View()) && id < next && forall j <- Live(View()) :: j <= id || next <= j
    {
      next := id;
      var found := false;
      while !found
        invariant id <= next && (forall j <- Live(View()) :: j <= id || next <= j)
        invariant if id < -1 then next == if found then id + 1 else id
                  else if found then id < next && next in Live(View())
                  else next == id || next !in Live(View())
        decreases |items| - next, !found
      {
        if next >= MaxId() {
          return -1;
        }
        next := next + 1;
        found := next !in freeIds;
      }
    }

    /** Remove an id that was given out before; no other item moves. */
    method Remove(id: int)
      requires Valid() && 0 <= id < |items|
      modifies this
      ensures Valid() && View() == ServerRemove(old(View()), id, none) && Live(View()) == old(Live(View())) - {id}
    {
      ServerRemoves(View(), id, none);
      freeIds := freeIds + {id};
      items := items[id := none];
      hide Live;
    }

    /** The number of ids in use. */
    function Size(): (n: int)
      requires Valid()
      reads this
      ensures n == |Live(View())|
    {
      SizeCounts(View());
      |items| - |freeIds|
    }
  }

  lemma SizeCounts<T>(s: Slots<T>)
    requires Sound(s)
    ensures |s.items| - |s.free| == |Live(s)|
  {
    var all := Below(|s.items|);
    assert Live(s).Keys == all - s.free && s.free <= all;
    assert |Live(s)| == |Live(s).Keys|;
  }

  function Below(n: nat): (ids: set<int>)
    ensures |ids| == n && forall id :: id in ids <==> 0 <= id < n
  {
    if n == 0 then {} else Below(n - 1) + {n - 1}
  }

  /** Starting at -1, NextId meets the ids in use in increasing order: these are the calls. */
  method AllIds<T>(m: IdMap<T>) returns (ids: seq<int>)
    requires m.Valid()
    ensures forall i, j :: 0 <= i < j < |ids| ==> ids[i] < ids[j]
    ensures forall id :: id in ids <==> id in Live(m.View())
  {
    ids := [];
    ghost var live, from := Live(m.View()), -1;
    var id := m.NextId(-1);
    while id != -1
      invariant from >= -1 && (id != -1 ==> id in live && from < id)
      invariant forall j <- live :: j <= from || (id != -1 && id <= j)
      invariant forall i, j :: 0 <= i < j < |ids| ==> ids[i] < ids[j]
      invariant forall i :: 0 <= i < |ids| ==> ids[i] in live && ids[i] <= from
      invariant forall j <- live :: j <= from ==> j in ids
      decreases |m.items| - from
    {
      ids := ids + [id];
      from := id;
      id := m.NextId(id);
    }
  }

  // ----- the loader's allocator

  class LoaderIdMap<T> {
    var data: seq<T>
    var freeIds: set<int>
    const nullItem: T

    ghost function View(): Slots<T>
      reads this
    {
      Slots(data, freeIds)
    }

    /** Freed slots hold the null pointer. */
    ghost predicate Valid()
      reads this
    {
      Sound(View()) && forall id <- freeIds :: data[id] == nullItem
    }

    constructor (nullItem: T)
      ensures Valid() && Live(View()) == map[]
    {
      this.nullItem := nullItem;
      data, freeIds := [], {};
    }

    method Add(item: T) returns (id: int)
      requires Valid()
      modifies this
      ensures Valid() && (View(), id) == AddItem(old(View()), item)
      ensures IsLeastUnused(id, old(Live(View())).Keys) && Live(View()) == old(Live(View()))[id := item]
    {
      AddIsLeast(View(), item);
      id := 0;
      if freeIds == {} {
        id := |data|;
        data := data + [item];
      } else {
        id := Min(freeIds);
        freeIds := freeIds - {id};
        data := data[id := item];
      }
      hide Live;
    }

    method Get(id: int) returns (item: T)
      requires Valid()
      ensures item == if id in Live(View()) then Live(View())[id] else nullItem
    {
      if id < 0 || id >= |data| {
        return nullItem;
      }
      item := data[id];
    }

    /** Removing an id that is not in use is ignored. */
    method Remove(id: int)
      requires Valid()
      modifies this
      ensures Valid() && View() == LoaderRemove(old(View()), id, nullItem) && Live(View()) == old(Live(View())) - {id}
    {
      LoaderRemoves(View(), id, nullItem);
      if id < 0 || id >= |data| {
        return;
      }
      if id in freeIds {
        return;
      }
      if id == |data| - 1 {
        data := data[..id];
      } else {
        freeIds := freeIds + {id};
        data := data[id := nullItem];
      }
      hide Live;
    }
  }
}
