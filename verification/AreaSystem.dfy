/** Areas, the system's and the processes' tables of them, and the calls that change them. */
module AreaSystem {
  import opened AreaTables
  import opened SharedFiles
  import opened Collections
  import opened HaikuTypes

  const REGION_NO_PRIVATE_MAP: int := 0
  const REGION_PRIVATE_MAP: int := 1

  /** protection & B_WRITE_AREA */
  predicate IsWritable(protection: int) { protection / 2 % 2 == 1 }

  class Area {
    var id: int
    var address: int
    var size: int
    var protection: int
    var team: int
    var mapping: int
    var entryRef: EntryRef
    var offset: int

    function View(): Info
      reads this`address, this`size, this`protection, this`team, this`mapping, this`entryRef, this`offset
    {
      Info(address, size, protection, team, mapping, entryRef, offset)
    }

    constructor (i: Info)
      ensures View() == i
    {
      id, address, size, protection, team := 0, i.address, i.size, i.protection, i.team;
      mapping, entryRef, offset := i.mapping, i.file, i.offset;
    }

    method Share(ref: EntryRef, newOffset: int)
      modifies this`entryRef, this`offset
      ensures View() == old(View()).(file := ref, offset := newOffset)
    {
      entryRef, offset := ref, newOffset;
    }

    method Unshare()
      modifies this`entryRef, this`offset
      ensures View() == old(View()).(file := EntryRef(-1, -1), offset := SIZE_MAX)
    {
      entryRef, offset := EntryRef(-1, -1), SIZE_MAX;
    }

    /** Area::Split: this area becomes the first range, new areas are made for the others. */
    method Split(ranges: seq<(int, int)>) returns (areas: seq<Area>)
      requires ranges != [] && IsSane(View())
      requires forall r <- ranges :: address <= r.0 < r.1 <= address + size
      modifies this`address, this`size, this`offset
      ensures View() == Piece(old(View()), ranges[0].0, ranges[0].1)
      ensures |areas| == |ranges| - 1
      ensures forall k :: 0 <= k < |areas| ==>
                fresh(areas[k]) && areas[k].View() == Piece(old(View()), ranges[k + 1].0, ranges[k + 1].1)
    {
      ghost var was := View();
      var originalAddress, originalOffset := address, offset;
      assert was.address <= ranges[0].0;
      PieceIs(was, ranges[0].0, ranges[0].1, 0);
      address, size := ranges[0].0, ranges[0].1 - ranges[0].0;
      if IsShared(View()) {
        offset := originalOffset + (ranges[0].0 - originalAddress);
      }
      areas := [];
      var i := 1;
      while i < |ranges|
        invariant 1 <= i <= |ranges| && |areas| == i - 1 && View() == Piece(was, ranges[0].0, ranges[0].1)
        invariant forall k :: 0 <= k < |areas| ==>
                    fresh(areas[k]) && areas[k].View() == Piece(was, ranges[k + 1].0, ranges[k + 1].1)
      {
        var (start, end) := ranges[i];
        var area := new Area(View());
        area.address, area.size := start, end - start;
        if IsShared(View()) {
          area.offset := originalOffset + (start - originalAddress);
        }
        areas := areas + [area];
        i := i + 1;
      }
    }
  }

  // ----- the search for an id

  /** How far the cyclic cursor is from `to`. */
  function Distance(cursor: int, to: int): (d: int)
    requires 1 <= cursor <= INT32_MAX && 1 <= to <= INT32_MAX
    ensures 0 <= d < INT32_MAX && (d == 0 <==> cursor == to)
  {
    if cursor <= to then to - cursor else to - cursor + INT32_MAX
  }

  function NextCursor(cursor: int): (next: int)
    requires 1 <= cursor <= INT32_MAX
    ensures 1 <= next <= INT32_MAX
    ensures forall to :: 1 <= to <= INT32_MAX && to != cursor ==> Distance(next, to) < Distance(cursor, to)
  {
    if cursor == INT32_MAX then 1 else cursor + 1
  }

  /** The search from the cursor has got to `id`. */
  ghost predicate AreUsed(id: int, cursor: int, used: set<int>) {
    if cursor <= id then forall k :: cursor <= k < id ==> k in used
    else (forall k :: cursor <= k <= INT32_MAX ==> k in used) && (forall k :: 1 <= k < id ==> k in used)
  }

  /** The id is the first unused one at or behind the cursor, or else the first one of all. */
  ghost predicate IsFirstUnused(id: int, cursor: int, used: set<int>) {
    1 <= id <= INT32_MAX && id !in used && AreUsed(id, cursor, used)
  }

  /** The first unused id is the one that is nearest to the cursor, when counting on from the
      greatest id to 1. */
  lemma FirstUnusedIsNearest(id: int, cursor: int, used: set<int>)
    requires 1 <= cursor <= INT32_MAX && 1 <= id <= INT32_MAX
    ensures IsFirstUnused(id, cursor, used) <==>
            && id !in used
            && forall k :: 1 <= k <= INT32_MAX && k !in used ==> (id - cursor) % INT32_MAX <= (k - cursor) % INT32_MAX
  {
    forall k: int | 1 <= k <= INT32_MAX ensures (k - cursor) % INT32_MAX == Distance(cursor, k) {
    }
  }

  /** Fewer than n ids leave one of 1..n unused. */
  lemma SomeIdIsUnused(used: set<int>, n: nat)
    requires |used| < n && forall id <- used :: 1 <= id <= n
    ensures exists id :: 1 <= id <= n && id !in used
  {
    var all := Ids(n);
    assert all * used == used;
    assert |all - used| == |all| - |used| > 0;
    var id := Pick(all - used);
  }

  function Ids(n: nat): (ids: set<int>)
    ensures |ids| == n && forall id :: id in ids <==> 1 <= id <= n
  {
    if n == 0 then {} else Ids(n - 1) + {n}
  }

  /** What the host answers when a file is opened: the handles for writing and for reading (-1:
      none), and which entry they are. */
  datatype Host = Host(forWriting: int, forReading: int, entry: Option<EntryRef>)

  /** What the host answers when a file is cloned: the clone's path, whether it could be made,
      and how it opens. */
  datatype Answers = Answers(cloneName: string, cloneWorks: bool, host: Host)

  lemma SharedCounts(t: map<int, Info>, a: map<EntryRef, SharedFile>, b: map<EntryRef, SharedFile>, id: int,
                     f: EntryRef, offset: int, newFile: SharedFile)
    requires AllCounted(t, a) && id in t && SameCounts(b, WithOneMore(a, f, newFile))
    ensures f in b
    ensures AllCounted(t[id := t[id].(file := f, offset := offset)], b) <==> !IsShared(t[id]) && offset != SIZE_MAX
  {
    hide AllCounted, IsShared;
    var n := t[id := t[id].(file := f, offset := offset)];
    ShareCounts(t, a, id, f, offset, newFile);
    if AllCounted(n, b) {
      CountsFollow(n, b, WithOneMore(a, f, newFile));
    }
    if AllCounted(n, WithOneMore(a, f, newFile)) {
      CountsFollow(n, WithOneMore(a, f, newFile), b);
    }
  }

  lemma SaneWith(t: map<int, Info>, id: int, i: Info)
    requires Sane(t) && id in t
    ensures Sane(t[id := i]) <==> IsSane(i)
  {
    if Sane(t[id := i]) {
      assert id in t[id := i];
    }
  }

  // ----- a process

  class Process {
    const team: int
    var areas: map<int, Area>

    constructor (team: int)
      ensures this.team == team && areas == map[]
    {
      this.team, areas := team, map[];
    }

    /** The areas of a process are areas of the system, under the same ids. */
    ghost predicate In(system: System)
      reads this, system`areas
    {
      forall id :: id in areas ==> id in system.areas && system.areas[id] == areas[id]
    }

    ghost function Table(system: System): map<int, Info>
      reads this, system`table
    {
      Restrict(system.table, areas.Keys)
    }

    /** The next id after this one, or -1. */
    method NextAreaId(id: int) returns (next: int)
      requires forall k <- areas :: k > 0
      ensures if next == -1 then forall k <- areas :: k <= id
              else next in areas && id < next && forall k <- areas :: k <= id || next <= k
    {
      var later := set k | k in areas && k > id;
      if later == {} {
        NoneLater(areas.Keys, id);
        return -1;
      }
      next := Min(later);
      assert forall k <- areas :: k > id ==> k in later;
    }

    method RegisterArea(area: Area)
      modifies this`areas
      ensures areas == old(areas)[area.id := area]
    {
      areas := areas[area.id := area];
    }

    method UnregisterArea(id: int)
      modifies this`areas
      ensures areas == old(areas) - {id}
    {
      areas := areas - {id};
    }
  }

  function Restrict(t: map<int, Info>, ids: set<int>): map<int, Info> {
    map id | id in ids && id in t :: t[id]
  }

  lemma RestrictWith(t: map<int, Info>, ids: set<int>, id: int, i: Info)
    requires id in ids
    ensures Restrict(t[id := i], ids) == Restrict(t, ids)[id := i]
  {
  }

  lemma NoneLater(keys: set<int>, id: int)
    requires (set k | k in keys && k > id) == {}
    ensures forall k <- keys :: k <= id
  {
    var later := set k | k in keys && k > id;
    assert forall k <- keys :: k > id ==> k in later;
  }

  // ----- the system

  class System {
    var areas: map<int, Area>
    var nextAreaId: int
    const memory: MemoryService
    ghost var table: map<int, Info>

    ghost predicate At(id: int)
      requires id in areas && id in table
      reads this`areas, this`table, areas.Values
    {
      areas[id].id == id && areas[id].View() == table[id]
    }

    /** The areas are known by their own ids, which are positive int32. */
    ghost predicate Structure()
      reads this, areas.Values
    {
      && table.Keys == areas.Keys && 1 <= nextAreaId <= INT32_MAX
      && (forall id <- areas :: 1 <= id <= INT32_MAX)
      && (forall id :: id in areas ==> At(id))
    }

    ghost predicate Valid()
      reads this, areas.Values, memory
    {
      Structure() && Sane(table) && AllCounted(table, memory.files)
    }

    constructor (inShm: string -> bool)
      ensures Valid() && areas == map[] && fresh(memory)
    {
      areas, nextAreaId, table := map[], 1, map[];
      memory := new MemoryService(inShm);
    }

    /** The cyclic search of RegisterArea. It ends because some id is unused. */
    method FindId() returns (nextId: int)
      requires Structure() && |areas| < INT32_MAX
      modifies this`nextAreaId
      ensures Structure() && IsFirstUnused(nextId, old(nextAreaId), areas.Keys) && table.Keys == areas.Keys
      ensures nextAreaId == if nextId == INT32_MAX then 1 else nextId + 1
    {
      hide At;
      SomeIdIsUnused(areas.Keys, INT32_MAX);
      ghost var cursor := nextAreaId;
      ghost var unused :| 1 <= unused <= INT32_MAX && unused !in areas.Keys;
      nextId := nextAreaId;
      nextAreaId := NextCursor(nextAreaId);
      while nextId in areas
        invariant 1 <= nextId <= INT32_MAX && nextAreaId == NextCursor(nextId)
        invariant AreUsed(nextId, cursor, areas.Keys)
        decreases Distance(nextId, unused)
      {
        nextId := nextAreaId;
        nextAreaId := NextCursor(nextAreaId);
      }
    }

    /** RegisterArea for an existing area: another reference to its file, if it has one. */
    method RegisterArea(area: Area) returns (ok: bool)
      requires Valid() && area !in areas.Values && IsSane(area.View()) && |areas| < INT32_MAX
      modifies this`areas, this`nextAreaId, this`table, memory, area`id
      ensures Valid()
      ensures ok == (!IsShared(area.View()) || area.entryRef in old(memory.files))
      ensures memory.files == if IsShared(area.View()) && ok then
                                WithOneMore(old(memory.files), area.entryRef, old(memory.files)[area.entryRef])
                              else old(memory.files)
      ensures memory.closed == old(memory.closed) && memory.removed == old(memory.removed)
      ensures if ok then
                && IsFirstUnused(area.id, old(nextAreaId), old(areas).Keys)
                && nextAreaId == NextCursor(area.id)
                && areas == old(areas)[area.id := area] && table == old(table)[area.id := area.View()]
              else
                areas == old(areas) && table == old(table)
    {
      hide AllCounted, Structure, At;
      var nextId := FindId();
      if IsShared(area.View()) {
        ok := memory.AcquireSharedFile(area.entryRef);
        if !ok {
          return;
        }
        CountShared(table, old(memory.files), nextId, area.View(), old(memory.files)[area.entryRef]);
      } else {
        CountUnshared(table, memory.files, nextId, area.View());
      }
      Insert(nextId, area);
      ok := true;
    }

    /** Enter an area under an unused id. */
    method Insert(id: int, area: Area)
      requires Structure() && 1 <= id <= INT32_MAX && id !in areas && area !in areas.Values
      modifies this`areas, this`table, area`id
      ensures Structure() && area.id == id && areas == old(areas)[id := area] && table == old(table)[id := area.View()]
    {
      area.id := id;
      areas, table := areas[id := area], table[id := area.View()];
      forall k | k in areas ensures At(k) {
        assert k != id ==> old(At(k));
      }
    }

    /** RegisterArea for a new area, which is not shared. */
    method RegisterNewArea(address: int, size: nat, protection: int, team: int) returns (area: Area)
      requires Valid() && |areas| < INT32_MAX
      modifies this`areas, this`nextAreaId, this`table
      ensures Valid() && fresh(area) && IsFirstUnused(area.id, old(nextAreaId), old(areas).Keys)
      ensures nextAreaId == NextCursor(area.id)
      ensures area.View() == Info(address, size, protection, team, REGION_NO_PRIVATE_MAP, EntryRef(-1, -1), SIZE_MAX)
      ensures areas == old(areas)[area.id := area] && table == old(table)[area.id := area.View()]
    {
      hide AllCounted, Structure, At;
      var nextId := FindId();
      area := new Area(Info(address, size, protection, team, REGION_NO_PRIVATE_MAP, EntryRef(-1, -1), SIZE_MAX));
      CountUnshared(table, memory.files, nextId, area.View());
      Insert(nextId, area);
    }

    /** UnregisterArea releases the area's file. */
    method UnregisterArea(id: int)
      requires Valid()
      modifies this`areas, this`table, memory
      ensures Valid() && areas == old(areas) - {id} && table == old(table) - {id}
      ensures var f := if id in old(table) && IsShared(old(table)[id]) then Some(old(table)[id].file) else None;
              && memory.files == (if f == None then old(memory.files) else WithOneLess(old(memory.files), f.value))
              && (if f != None && f.value in old(memory.files) && |References(old(table), f.value)| == 1 then
                    match old(memory.files)[f.value].source
                    case Handle(h) => memory.closed == old(memory.closed) + [h] && memory.removed == old(memory.removed)
                    case Name(n) =>
                      && memory.closed == old(memory.closed)
                      && memory.removed == old(memory.removed) + (if memory.inShm(n) then [n] else [])
                  else
                    memory.closed == old(memory.closed) && memory.removed == old(memory.removed))
    {
      if id in areas {
        CountRemoved(table, memory.files, id);
        AreaIsSane(id);
        hide AllCounted, Counted, At;
        if IsShared(areas[id].View()) {
          LastReference(areas[id].entryRef);
          memory.ReleaseSharedFile(areas[id].entryRef);
        }
        hide IsShared;
        areas, table := areas - {id}, table - {id};
        forall k | k in areas ensures At(k) {
          assert old(At(k));
        }
      }
    }

    lemma LastReference(f: EntryRef)
      requires Valid()
      ensures IsLast(memory.files, f) <==> f in memory.files && |References(table, f)| == 1
    {
      assert Counted(table, memory.files, f);
    }

    // ----- sharing

    /** Open a file for a registered area and share the area; the counts stay right if and only
        if it was not shared before and the offset does not stand for "not shared". */
    method OpenAndShare(id: int, area: Area, byHandle: bool, name: string, host: Host, offset: int)
        returns (shared: bool)
      requires Valid() && id in areas && area == areas[id]
      modifies this`table, memory, area`entryRef, area`offset
      ensures Structure() && shared == Opens(host, IsWritable(area.protection))
      ensures !byHandle ==> memory.files == OpenedByName(old(memory.files), name, host, IsWritable(area.protection))
      ensures memory.removed == old(memory.removed)
      ensures if shared then
                && id in old(table) && table == old(table)[id := old(table)[id].(file := host.entry.value,
                                                                                 offset := offset)]
                && host.entry.value in memory.files
                && (AllCounted(table, memory.files) <==> !IsShared(old(table)[id]) && offset != SIZE_MAX)
                && (Valid() <==>
                    !IsShared(old(table)[id]) && 0 <= offset < SIZE_MAX && offset + old(table)[id].size <= SIZE_MAX)
              else Valid() && table == old(table)
    {
      hide AllCounted, SameCounts, OpenedByName;
      assert At(id);
      ghost var files, t := memory.files, table;
      var ref := Open(byHandle, name, host, IsWritable(area.protection));
      shared := ref != None;
      if shared {
        SharedCounts(t, files, memory.files, id, ref.value, offset, SharedFile(Name(name), false, 1));
        area.Share(ref.value, offset);
        table := table[id := area.View()];
        SaneWith(t, id, area.View());
      }
      forall k | k in areas ensures At(k) {
        assert k != id ==> old(At(k)) && areas[k].id == k;
      }
    }

    /** Either OpenSharedFile */
    method Open(byHandle: bool, name: string, host: Host, wanted: bool) returns (ref: Option<EntryRef>)
      modifies memory
      ensures ref == if Opens(host, wanted) then host.entry else None
      ensures if ref == None then memory.files == old(memory.files)
              else SameCounts(memory.files, WithOneMore(old(memory.files), ref.value, SharedFile(Name(name), false, 1)))
      ensures !byHandle ==> memory.files == OpenedByName(old(memory.files), name, host, wanted)
      ensures memory.removed == old(memory.removed)
    {
      hide Opened, SameCounts, WithOneMore;
      ghost var handle := if host.forWriting != -1 then host.forWriting else host.forReading;
      ghost var writable := wanted || host.forWriting != -1;
      if byHandle {
        ref := memory.OpenProcessFile(host.forWriting, host.forReading, wanted, host.entry);
      } else {
        ref := memory.OpenNamedFile(name, host.forWriting, host.forReading, wanted, host.entry);
      }
      if ref != None {
        OpenedCounts(old(memory.files), ref.value, if byHandle then Handle(handle) else Name(name), writable,
                     SharedFile(Name(name), false, 1));
      }
    }

    /** server_hserver_call_share_area. The process's memory is written before or after the area
        is shared, depending on where the file comes from. */
    method ShareArea(id: int, byHandle: bool, host: Host, offset: int, created: bool, path: string, pathLen: nat,
                     writeWorks: bool)
        returns (status: int, shared: bool)
      requires Valid()
      modifies this`table, memory, areas.Values
      ensures status == if id !in areas then B_BAD_VALUE
                        else if byHandle then
                          if !Opens(host, IsWritable(old(areas[id].protection))) then B_ENTRY_NOT_FOUND
                          else if pathLen >= 1 && !writeWorks then B_BAD_ADDRESS else B_OK
                        else if !created then B_NO_MEMORY
                        else if |path| > pathLen then B_NAME_TOO_LONG
                        else if !writeWorks then B_BAD_ADDRESS
                        else if !Opens(host, IsWritable(old(areas[id].protection))) then B_ENTRY_NOT_FOUND
                        else B_OK
      ensures Structure() && shared == (status == B_OK || (byHandle && status == B_BAD_ADDRESS))
      ensures !shared ==> Valid() && table == old(table)
      ensures shared ==>
                && id in old(table) && host.entry != None && host.entry.value in memory.files
                && table == old(table)[id := old(table)[id].(file := host.entry.value, offset := offset)]
                && (AllCounted(table, memory.files) <==> !IsShared(old(table)[id]) && offset != SIZE_MAX)
                && (Valid() <==>
                    !IsShared(old(table)[id]) && 0 <= offset < SIZE_MAX && offset + old(table)[id].size <= SIZE_MAX)
      ensures memory.removed == old(memory.removed) + (
                if id in areas && !byHandle && created && status != B_OK then [path] else [])
    {
      hide AllCounted, At, Sane, OpenedByName;
      shared := false;
      if id !in areas {
        return B_BAD_VALUE, shared;
      }
      if byHandle {
        shared := OpenAndShare(id, areas[id], true, "", host, offset);
        if !shared {
          return B_ENTRY_NOT_FOUND, shared;
        }
        if pathLen >= 1 && !writeWorks {
          return B_BAD_ADDRESS, shared;
        }
        return B_OK, shared;
      }
      if !created {
        return B_NO_MEMORY, shared;
      }
      if |path| > pathLen {
        memory.RemoveFile(path);
        return B_NAME_TOO_LONG, shared;
      }
      if !writeWorks {
        memory.RemoveFile(path);
        return B_BAD_ADDRESS, shared;
      }
      shared := OpenAndShare(id, areas[id], false, path, host, offset);
      if !shared {
        memory.RemoveFile(path);
        return B_ENTRY_NOT_FOUND, shared;
      }
      status := B_OK;
    }

    // ----- forking

    /** The loop body of Process::Fork: the child gets a copy that is not shared, and if the area
        was a private mapping of a file, a clone of that file. */
    method ForkArea(parent: Process, child: Process, id: int, answers: Answers) returns (copyId: int)
      requires Valid() && parent.In(this) && child.In(this) && parent != child && id in parent.areas && id in table
      requires |areas| < INT32_MAX
      modifies this`areas, this`nextAreaId, this`table, memory, child`areas
      ensures Valid() && parent.In(this) && child.In(this)
      ensures copyId !in old(areas) && copyId in areas && copyId in table && fresh(areas[copyId])
      ensures areas == old(areas)[copyId := areas[copyId]] && child.areas == old(child.areas)[copyId := areas[copyId]]
      ensures table == old(table)[copyId := CopyOf(old(table)[id], child.team, answers, old(memory.files))]
      ensures memory.files == FilesAfter(old(memory.files), old(table)[id], answers)
    {
      hide AllCounted, Structure, Sane, At, Valid, Process.Table, CanClone, FilesAfter;
      copyId := CopyArea(child, id);
      CloneIfMapped(id, copyId, areas[copyId], answers);
    }

    /** The copy that is not shared. */
    method CopyArea(child: Process, id: int) returns (copyId: int)
      requires Valid() && child.In(this) && id in areas && id in table && |areas| < INT32_MAX
      modifies this`areas, this`nextAreaId, this`table, memory, child`areas
      ensures Valid() && child.In(this) && copyId !in old(areas) && copyId in areas && fresh(areas[copyId])
      ensures areas == old(areas)[copyId := areas[copyId]] && child.areas == old(child.areas)[copyId := areas[copyId]]
      ensures table == old(table)[copyId := Unshared(table[id], child.team)] && memory.files == old(memory.files)
    {
      hide AllCounted, Structure, Sane, At, Valid, Process.Table;
      AreaIsSane(id);
      var copy := new Area(areas[id].View());
      copy.Unshare();
      copy.team := child.team;
      assert copy !in areas.Values;
      copyId := AddPart(child, copy);
    }

    /** The clone for an area that was a private mapping of a file with a name. */
    method CloneIfMapped(id: int, copyId: int, copy: Area, answers: Answers)
      requires Valid() && id in areas && id in table && copyId in areas && copyId in table && id != copyId
      requires copy == areas[copyId] && table[copyId] == Unshared(table[id], table[copyId].team)
      modifies this`table, memory, copy`entryRef, copy`offset
      ensures Valid() && memory.files == FilesAfter(old(memory.files), old(table)[id], answers)
      ensures table == old(table)[copyId :=
                if CanClone(old(table)[id], answers) && Named(old(memory.files), old(table)[id].file) then
                  old(table)[copyId].(file := answers.host.entry.value, offset := old(table)[id].offset)
                else old(table)[copyId]]
    {
      hide AllCounted, Structure, Sane, At, Valid, Opens, Opened;
      AreaIsSane(id);
      var area := areas[id];
      if IsShared(area.View()) && area.mapping == REGION_PRIVATE_MAP {
        var clones := area.entryRef in memory.files && !memory.files[area.entryRef].source.Handle?
            && answers.cloneWorks;
        if clones {
          CloneFile(id, copyId, copy, answers.cloneName, answers.host);
        }
      }
    }

    /** The copy is shared with a clone of the file, at the same offset. */
    method CloneFile(id: int, copyId: int, copy: Area, cloneName: string, host: Host)
      requires Valid() && id in areas && id in table && copyId in areas && copy == areas[copyId] && copyId in table
      requires id != copyId && table[copyId].size == table[id].size && IsShared(table[id]) && !IsShared(table[copyId])
      modifies this`table, memory, copy`entryRef, copy`offset
      ensures Valid() && copyId in table
      ensures memory.files ==
                OpenedByName(old(memory.files), cloneName, host, IsWritable(old(table)[copyId].protection))
      ensures table == if Opens(host, IsWritable(old(table)[copyId].protection)) then
                         old(table)[copyId := old(table)[copyId].(file := host.entry.value,
                                                                  offset := old(table)[id].offset)]
                       else old(table)
    {
      hide AllCounted, Structure, At, OpenedByName;
      AreaIsSane(id);
      AreaIsSane(copyId);
      var _ := OpenAndShare(copyId, copy, false, cloneName, host, areas[id].offset);
    }

    /** What holds between the turns of the loop of Fork. */
    ghost predicate Forked(parent: Process, child: Process, b: Before, f: Forking, last: int)
      reads this`table, this`areas, memory`files, parent, child
    {
      && ForkedIn(table, areas, memory.files, parent.areas.Keys, child.areas.Keys, child.team, b, f, last)
      && |areas| + |Later(parent.areas.Keys, last)| < INT32_MAX
    }

    method ForkTurn(parent: Process, child: Process, id: int, answers: Answers,
                    ghost b: Before, ghost f: Forking, ghost last: int) returns (ghost now: Forking)
      requires Valid() && parent.In(this) && child.In(this) && parent != child && id in parent.areas && id in table
      requires Forked(parent, child, b, f, last) && last < id && forall k <- parent.areas :: k <= last || id <= k
      requires answers == b.answers(id) && id in b.table && table[id] == b.table[id]
      modifies this`areas, this`nextAreaId, this`table, memory, child`areas
      ensures Valid() && parent.In(this) && child.In(this) && Forked(parent, child, b, now, id)
      ensures forall k :: k in old(table) ==> k in table && table[k] == old(table)[k]
    {
      hide AllCounted, At, Structure, Sane, Valid, Later, ForkedIn, Process.In, CopyOf, FilesAfter;
      LaterShrinks(parent.areas.Keys, last, id);
      ghost var t, all, mine, files := table, areas, child.areas, memory.files;
      KeysAgree(child);
      var copyId := ForkArea(parent, child, id, answers);
      now := Forking(f.order + [id], f.copies + [copyId]);
      ForkedStep(t, all, files, parent.areas.Keys, mine.Keys, child.team, b, f, last, id, copyId, areas[copyId]);
      assert child.areas.Keys == mine.Keys + {copyId};
      assert |areas| == |all| + 1;
    }

    lemma KeysAgree(process: Process)
      requires Valid() && process.In(this)
      ensures table.Keys == areas.Keys && process.areas.Keys <= table.Keys
    {
      hide At, AllCounted, Sane;
      forall k | k in process.areas.Keys ensures k in table.Keys {
        assert k in areas;
      }
    }

    /** The area loop of Process::Fork, while there are ids for the copies: every area of the
        parent gets a copy of its own, in the order of their ids, and nothing else changes. The
        answers of the host depend on the area. */
    method Fork(parent: Process, child: Process, answers: int -> Answers)
        returns (ghost order: seq<int>, ghost copies: seq<int>)
      requires Valid() && parent.In(this) && child.In(this) && parent != child && |areas| + |parent.areas| < INT32_MAX
      modifies this`areas, this`nextAreaId, this`table, memory, child`areas
      ensures Valid() && parent.In(this) && child.In(this)
      ensures Untouched(old(table), old(areas), {})
      ensures IsOrder(order, parent.areas.Keys) && AreCopies(copies, order, old(areas).Keys)
      ensures child.areas.Keys == old(child.areas).Keys + Elements(copies)
      ensures var b := Before(old(table), old(areas), old(child.areas).Keys, old(memory.files), answers);
              && AreKnown(order, b) && memory.files == FilesAfterAll(b, order)
              && forall i :: 0 <= i < |order| ==>
                   && copies[i] in table
                   && var c, p, a := table[copies[i]], old(table)[order[i]], answers(order[i]);
                   && c.address == p.address && c.size == p.size && c.protection == p.protection
                   && c.mapping == p.mapping && c.team == child.team
                   && var files, host, writable := FilesAfterAll(b, order[..i]), a.host, p.protection / 2 % 2 == 1;
                      if p.offset != SIZE_MAX && p.mapping == 1 && p.file in files && files[p.file].source.Name?
                         && a.cloneWorks && host.entry != None
                         && (host.forWriting != -1 || (!writable && host.forReading != -1))
                      then c.file == host.entry.value && c.offset == p.offset
                      else c.file == EntryRef(-1, -1) && c.offset == SIZE_MAX
    {
      hide AllCounted, At, Structure, Sane, Valid, Forked, Process.In, CopyAt, FilesAfterAll;
      ghost var b, last := Before(table, areas, child.areas.Keys, memory.files, answers), -1;
      ghost var f := Forking([], []);
      PositiveIds(parent);
      StartForked(parent, child, b);
      var id := parent.NextAreaId(-1);
      while id != -1
        invariant Valid() && parent.In(this) && child.In(this) && Forked(parent, child, b, f, last)
        invariant forall k :: k in b.table ==> k in table && table[k] == b.table[k]
        invariant forall k <- parent.areas :: k in b.table
        invariant if id == -1 then forall k <- parent.areas :: k <= last
                  else id in parent.areas && id in table && last < id <= INT32_MAX
                       && forall k <- parent.areas :: k <= last || id <= k
        decreases INT32_MAX - last, id != -1
      {
        f := ForkTurn(parent, child, id, answers(id), b, f, last);
        last := id;
        PositiveIds(parent);
        id := parent.NextAreaId(id);
      }
      EndForked(parent, child, b, f, last);
      order, copies := f.order, f.copies;
    }

    lemma StartForked(parent: Process, child: Process, b: Before)
      requires Valid() && parent.In(this) && |areas| + |parent.areas| < INT32_MAX
      requires b.table == table && b.areas == areas && b.child == child.areas.Keys && b.files == memory.files
      ensures Forked(parent, child, b, Forking([], []), -1)
    {
      hide At, AllCounted, Sane, Structure, Later, Valid, Process.In, ForkedIn;
      PositiveIds(parent);
      KeysAgree(parent);
      LaterAll(parent.areas.Keys);
      NothingForked(parent.areas.Keys, child.team, b);
    }

    lemma EndForked(parent: Process, child: Process, b: Before, f: Forking, last: int)
      requires Forked(parent, child, b, f, last) && forall k <- parent.areas :: k <= last
      ensures Untouched(b.table, b.areas, {})
      ensures IsOrder(f.order, parent.areas.Keys) && AreCopies(f.copies, f.order, b.areas.Keys)
      ensures child.areas.Keys == b.child + Elements(f.copies)
      ensures AreKnown(f.order, b) && memory.files == FilesAfterAll(b, f.order)
      ensures forall i :: 0 <= i < |f.order| ==>
                && f.copies[i] in table
                && var c, p, a := table[f.copies[i]], b.table[f.order[i]], b.answers(f.order[i]);
                && c.address == p.address && c.size == p.size && c.protection == p.protection
                && c.mapping == p.mapping && c.team == child.team
                && var files, host, writable := FilesAfterAll(b, f.order[..i]), a.host, p.protection / 2 % 2 == 1;
                   if p.offset != SIZE_MAX && p.mapping == 1 && p.file in files && files[p.file].source.Name?
                      && a.cloneWorks && host.entry != None
                      && (host.forWriting != -1 || (!writable && host.forReading != -1))
                   then c.file == host.entry.value && c.offset == p.offset
                   else c.file == EntryRef(-1, -1) && c.offset == SIZE_MAX
    {
      hide UntouchedIn, Later, CopyAt, FilesAfterAll;
      assert parent.areas.Keys == UpTo(parent.areas.Keys, last);
      forall i | 0 <= i < |f.order| {
        CopyAtMeans(b, child.team, f.order, i);
      }
    }

    lemma AreaIsSane(id: int)
      requires Valid() && id in areas
      ensures id in table && areas[id].View() == table[id] && areas[id].id == id && IsSane(table[id])
    {
      assert At(id);
    }

    // ----- unmapping

    /** The ranges of an area that survive, found by sorting all four addresses. */
    method SurvivingRanges(start: int, size: nat, address: int, holeSize: nat) returns (ranges: seq<(int, int)>)
      ensures ranges == Surviving(start, start + size, address, address + holeSize)
    {
      hide Surviving, Sorted;
      var addresses := Sorted(start, start + size, address, address + holeSize);
      ranges := [];
      var i := 0;
      while i + 1 < 4
        invariant 0 <= i < 4
        invariant ranges == KeptUpTo(addresses, i, start, start + size, address, address + holeSize)
      {
        if addresses[i] != addresses[i + 1] {
          if addresses[i + 1] <= address || addresses[i] >= address + holeSize {
            if addresses[i] >= start && addresses[i + 1] <= start + size {
              ranges := ranges + [(addresses[i], addresses[i + 1])];
            }
          }
        }
        i := i + 1;
      }
      KeptIsSurviving(start, start + size, address, address + holeSize);
    }

    lemma SharedIsOpen(id: int)
      requires Valid() && id in table
      ensures IsShared(table[id]) ==> table[id].file in memory.files
    {
      assert Counted(table, memory.files, table[id].file);
      assert IsShared(table[id]) ==> id in References(table, table[id].file);
    }

    /** Split a registered area; its first part stays registered. */
    method SplitRegistered(id: int, ranges: seq<(int, int)>) returns (parts: seq<Area>)
      requires Valid() && id in areas && ranges != []
      requires forall r <- ranges :: table[id].address <= r.0 < r.1 <= table[id].address + table[id].size
      modifies this`table, areas[id]
      ensures Valid() && table == old(table)[id := Piece(old(table)[id], ranges[0].0, ranges[0].1)]
      ensures |parts| == |ranges| - 1
      ensures forall k :: 0 <= k < |parts| ==>
                fresh(parts[k]) && parts[k].View() == Piece(old(table)[id], ranges[k + 1].0, ranges[k + 1].1)
    {
      hide AllCounted;
      assert At(id);
      assert ranges[0] in ranges;
      ghost var i := table[id];
      PieceIs(i, ranges[0].0, ranges[0].1, 0);
      var area := areas[id];
      parts := area.Split(ranges);
      CountSame(table, memory.files, id, area.View());
      table := table[id := area.View()];
      forall k | k in areas ensures At(k) {
        assert k != id ==> old(At(k));
        assert k != id ==> areas[k].id == k;
      }
    }

    /** One turn of the unmapping loop, for area id of the process: it is cut at the hole, and a
        second part becomes an area of its own. */
    method CutArea(process: Process, id: int, address: int, holeSize: nat) returns (pieces: nat, ghost extra: int)
      requires Valid() && process.In(this) && id in process.areas && id in table && |areas| < INT32_MAX
      modifies this`areas, this`nextAreaId, this`table, memory, process`areas, process.areas[id]
      ensures Valid() && process.In(this) && pieces == |SurvivingOf(old(table)[id], address, address + holeSize)|
      ensures extra !in old(areas) && table == Cut(old(table), id, extra, address, address + holeSize)
      ensures process.Table(this) == Cut(old(process.Table(this)), id, extra, address, address + holeSize)
      ensures if pieces == 2 then
                && extra in areas && fresh(areas[extra])
                && areas == old(areas)[extra := areas[extra]]
                && process.areas == old(process.areas)[extra := areas[extra]]
              else areas == old(areas) && process.areas == old(process.areas)
    {
      hide AllCounted, At, Structure, Cut, Surviving, SurvivingOf, Valid, Sane, Piece, IsSane, Process.In,
           Process.Table;
      ghost var was, h, e := process.Table(this), address, address + holeSize;
      var ranges := RangesOf(process, id, address, holeSize);
      TableKeys(process);
      pieces, extra := |ranges|, 0;
      if pieces > 0 {
        extra := SplitOff(process, id, ranges);
      }
      CutIs(old(table), id, extra, h, e);
      CutIs(was, id, extra, h, e);
    }

    /** Split an area of the process in one or two. */
    method SplitOff(process: Process, id: int, ranges: seq<(int, int)>) returns (extra: int)
      requires Valid() && process.In(this) && id in process.areas && id in table && |areas| < INT32_MAX
      requires 1 <= |ranges| <= 2
      requires forall r <- ranges :: table[id].address <= r.0 < r.1 <= table[id].address + table[id].size
      modifies this`areas, this`nextAreaId, this`table, memory, process`areas, process.areas[id]
      ensures Valid() && process.In(this) && extra !in old(areas)
      ensures var i := old(table)[id];
              var first, second := Piece(i, ranges[0].0, ranges[0].1),
                  Piece(i, ranges[|ranges| - 1].0, ranges[|ranges| - 1].1);
              if |ranges| == 2 then
                && extra in areas && fresh(areas[extra])
                && areas == old(areas)[extra := areas[extra]]
                && process.areas == old(process.areas)[extra := areas[extra]]
                && table == old(table)[id := first][extra := second]
                && process.Table(this) == old(process.Table(this))[id := first][extra := second]
              else
                && areas == old(areas) && process.areas == old(process.areas)
                && table == old(table)[id := first] && process.Table(this) == old(process.Table(this))[id := first]
    {
      hide AllCounted, At, Structure, Piece, IsSane, Sane, Restrict, Valid;
      AreaIsSane(id);
      RestrictWith(table, process.areas.Keys, id, Piece(table[id], ranges[0].0, ranges[0].1));
      ghost var i, all := table[id], areas.Values;
      SharedIsOpen(id);
      assert ranges[|ranges| - 1] in ranges;
      PieceIs(i, ranges[|ranges| - 1].0, ranges[|ranges| - 1].1, 0);
      extra := 0;
      NoZero();
      var parts := SplitRegistered(id, ranges);
      if |ranges| == 2 {
        assert parts[0] !in all;
        extra := AddPart(process, parts[0]);
      }
    }

    lemma NoZero()
      requires Valid()
      ensures 0 !in areas
    {
      hide At;
    }

    method RangesOf(process: Process, id: int, address: int, holeSize: nat) returns (ranges: seq<(int, int)>)
      requires Valid() && process.In(this) && id in process.areas
      ensures ranges == SurvivingOf(table[id], address, address + holeSize)
      ensures forall r <- ranges :: table[id].address <= r.0 < r.1 <= table[id].address + table[id].size
      ensures 0 !in areas && id in table
    {
      hide AllCounted;
      assert At(id);
      RangesInside(table[id], address, address + holeSize);
      ranges := SurvivingRanges(process.areas[id].address, process.areas[id].size, address, holeSize);
    }

    /** Register an area with the system and with the process. */
    method AddPart(process: Process, part: Area) returns (id: int)
      requires Valid() && process.In(this) && part !in areas.Values && |areas| < INT32_MAX
      requires IsSane(part.View()) && (IsShared(part.View()) ==> part.View().file in memory.files)
      modifies this`areas, this`nextAreaId, this`table, memory, process`areas, part`id
      ensures Valid() && process.In(this) && id !in old(areas)
      ensures areas == old(areas)[id := part] && table == old(table)[id := part.View()]
      ensures process.areas == old(process.areas)[id := part]
      ensures process.Table(this) == old(process.Table(this))[id := part.View()]
      ensures !IsShared(part.View()) ==> memory.files == old(memory.files)
    {
      hide AllCounted, At, Structure;
      var ok := RegisterArea(part);
      id := part.id;
      process.RegisterArea(part);
    }

    /** What holds between the turns of the unmapping loop, `last` being the id of the last. */
    ghost predicate Progress(process: Process, u: Unmap, last: int, gone: set<int>)
      requires u.table.Keys == u.areas.Keys
      reads this`table, this`areas, process
    {
      && Unmapping(u.mineTable, process.Table(this), last, gone, u.h, u.e)
      && OthersKept(u, table, areas) && NewOnes(u, process.areas.Keys, table)
      && u.areas.Keys <= areas.Keys && |areas| + |Later(u.mine, last)| < INT32_MAX
    }

    /** One turn of the unmapping loop. */
    method UnmapTurn(process: Process, id: int, address: int, size: nat, ghost u: Unmap, ghost last: int,
                     ghost gone: set<int>) returns (pieces: nat)
      requires Valid() && process.In(this) && id in process.areas && id in table
      requires u.table.Keys == u.areas.Keys && u.h == address && u.e == address + size
                 && Progress(process, u, last, gone)
      requires last < id && forall k <- process.areas :: k <= last || id <= k
      modifies this`areas, this`nextAreaId, this`table, memory, process`areas, process.areas[id]
      ensures Valid() && process.In(this) && Progress(process, u, id, if pieces == 0 then gone + {id} else gone)
      ensures old(process.areas).Keys <= process.areas.Keys
      ensures forall k <- process.areas ::
                if k in old(process.areas) then process.areas[k] == old(process.areas)[k] else fresh(process.areas[k])
    {
      hide AllCounted, At, Cut, SurvivingOf, Unmapping, Structure, Later, Piece, Surviving, OthersKept, NewOnes;
      ghost var extra;
      ghost var t, all := process.Table(this), table;
      TableKeys(process);
      pieces, extra := CutArea(process, id, address, size);
      UnmappingStep(u.mineTable, t, last, gone, u.h, u.e, id, extra);
      LaterShrinks(u.mine, last, id);
      NewOneIsWhole(u, old(process.areas.Keys), all, id);
      TableKeys(process);
      OthersStep(u, all, old(process.areas.Keys), old(areas), areas, id, extra);
      NewOnesStep(u, old(process.areas.Keys), all, process.areas.Keys, id, extra);
    }

    /** The areas that are not among `mine` are the objects they were, with what they held. */
    ghost predicate Untouched(tableBefore: map<int, Info>, areasBefore: map<int, Area>, mine: set<int>)
      reads this`table, this`areas
    {
      UntouchedIn(table, areas, tableBefore, areasBefore, mine)
    }

    /** server_hserver_call_unmap_memory, while there are ids for the new areas: every address
        of the process outside the range keeps what it was mapped to, none inside is mapped,
        and nobody else's areas change. */
    method UnmapMemory(process: Process, address: int, size: nat)
      requires Valid() && process.In(this) && |areas| + |process.areas| < INT32_MAX
      modifies this`areas, this`nextAreaId, this`table, memory, process`areas, process.areas.Values
      ensures Valid() && process.In(this)
      ensures Unmapped(old(process.Table(this)), process.Table(this), address, address + size)
      ensures Untouched(old(table), old(areas), old(process.areas).Keys)
    {
      hide *;
      ghost var u := StartProgress(process, address, address + size);
      UnmapFrom(process, address, size, u);
    }

    method UnmapFrom(process: Process, address: int, size: nat, ghost u: Unmap)
      requires Valid() && process.In(this)
      requires u.table.Keys == u.areas.Keys && u.h == address && u.e == address + size && Progress(process, u, -1, {})
      modifies this`areas, this`nextAreaId, this`table, memory, process`areas, process.areas.Values
      ensures Valid() && process.In(this) && Unmapped(u.mineTable, process.Table(this), u.h, u.e)
      ensures Untouched(u.table, u.areas, u.mine)
    {
      hide *;
      ghost var last;
      var idsToUnregister;
      idsToUnregister, last := CutAll(process, address, size, u);
      Unregister(process, idsToUnregister, u, last);
    }

    /** The end of the call: what is left of nothing goes. */
    method Unregister(process: Process, ids: seq<int>, ghost u: Unmap, ghost last: int)
      requires Valid() && process.In(this) && u.table.Keys == u.areas.Keys && u.h <= u.e
      requires Progress(process, u, last, Elements(ids)) && forall k <- process.areas :: k <= last
      modifies this`areas, this`table, memory, process`areas
      ensures Valid() && process.In(this) && Unmapped(u.mineTable, process.Table(this), u.h, u.e)
      ensures Untouched(u.table, u.areas, u.mine)
    {
      hide AllCounted, At, Structure, Progress, Sane, Unmapped, Valid, OthersKept, Process.In, Process.Table, Elements;
      EndProgress(process, u, last, Elements(ids));
      UnregisterAll(process, ids);
      OthersRemain(u);
    }

    lemma OthersRemain(u: Unmap)
      requires u.table.Keys == u.areas.Keys && OthersKept(u, table, areas)
      ensures Untouched(u.table, u.areas, u.mine)
    {
    }

    /** The unmapping loop: it ends although areas are added to the map it passes, for the ids
        only go up. The ids to unregister are kept, so that they are not reused on the way. */
    method CutAll(process: Process, address: int, size: nat, ghost u: Unmap)
        returns (idsToUnregister: seq<int>, ghost last: int)
      requires Valid() && process.In(this)
      requires u.table.Keys == u.areas.Keys && u.h == address && u.e == address + size && Progress(process, u, -1, {})
      modifies this`areas, this`nextAreaId, this`table, memory, process`areas, process.areas.Values
      ensures Valid() && process.In(this) && Progress(process, u, last, Elements(idsToUnregister))
      ensures forall k <- process.areas :: k <= last
    {
      hide AllCounted, At, Structure, Progress, Sane, Valid;
      last, idsToUnregister := -1, [];
      NoElements();
      PositiveIds(process);
      var id := process.NextAreaId(-1);
      while id != -1
        invariant Valid() && process.In(this) && Progress(process, u, last, Elements(idsToUnregister))
        invariant forall k <- process.areas :: fresh(process.areas[k]) || process.areas[k] in old(process.areas.Values)
        invariant if id == -1 then forall k <- process.areas :: k <= last
                  else id in process.areas && id in table && last < id <= INT32_MAX
                       && forall k <- process.areas :: k <= last || id <= k
        decreases INT32_MAX - last, id != -1
      {
        var pieces := UnmapTurn(process, id, address, size, u, last, Elements(idsToUnregister));
        OneElementMore(idsToUnregister, id);
        if pieces == 0 {
          idsToUnregister := idsToUnregister + [id];
        }
        last := id;
        PositiveIds(process);
        id := process.NextAreaId(id);
      }
    }

    lemma PositiveIds(process: Process)
      requires Valid() && process.In(this)
      ensures forall k <- process.areas :: 0 < k <= INT32_MAX && k in table
    {
      hide At;
    }

    lemma StartProgress(process: Process, h: int, e: int) returns (u: Unmap)
      requires Valid() && process.In(this) && |areas| + |process.areas| < INT32_MAX
      ensures u.table == table && u.areas == areas && u.mine == process.areas.Keys && u.mineTable == process.Table(this)
                && u.h == h && u.e == e
      ensures u.table.Keys == u.areas.Keys && Progress(process, u, -1, {})
    {
      hide AllCounted, At, SurvivingOf, Maps, Disjoint;
      u := Unmap(table, areas, process.areas.Keys, process.Table(this), h, e);
      PositiveIds(process);
      assert Later(u.mine, -1) == u.mine;
    }

    lemma EndProgress(process: Process, u: Unmap, last: int, gone: set<int>)
      requires Valid() && process.In(this) && u.table.Keys == u.areas.Keys && u.h <= u.e
      requires Progress(process, u, last, gone) && forall k <- process.areas :: k <= last
      ensures Unmapped(u.mineTable, process.Table(this) - gone, u.h, u.e)
      ensures OthersKept(u, table - gone, areas - gone)
    {
      hide Unmapped, Maps, Disjoint, At, SurvivingOf;
      TableKeys(process);
      UnmappingEnds(u.mineTable, process.Table(this), last, gone, u.h, u.e);
    }

    /** The areas of which nothing is left are unregistered. */
    method UnregisterAll(process: Process, ids: seq<int>)
      requires Valid() && process.In(this)
      modifies this`areas, this`table, memory, process`areas
      ensures Valid() && process.In(this)
      ensures areas == old(areas) - Elements(ids) && table == old(table) - Elements(ids)
      ensures process.areas == old(process.areas) - Elements(ids)
                && process.Table(this) == old(process.Table(this)) - Elements(ids)
    {
      hide AllCounted, At, Structure, Sane, Valid, Elements;
      var i := 0;
      NoElements();
      while i < |ids|
        invariant i <= |ids| && Valid() && process.In(this)
        invariant areas == old(areas) - Elements(ids[..i]) && table == old(table) - Elements(ids[..i])
        invariant process.areas == old(process.areas) - Elements(ids[..i])
        invariant process.Table(this) == old(process.Table(this)) - Elements(ids[..i])
      {
        assert ids[..i + 1] == ids[..i] + [ids[i]];
        OneElementMore(ids[..i], ids[i]);
        MinusMore(old(areas), Elements(ids[..i]), ids[i]);
        MinusMore(old(table), Elements(ids[..i]), ids[i]);
        MinusMore(old(process.areas), Elements(ids[..i]), ids[i]);
        MinusMore(old(process.Table(this)), Elements(ids[..i]), ids[i]);
        UnregisterBoth(process, ids[i]);
        i := i + 1;
      }
      assert ids[..i] == ids;
    }

    method UnregisterBoth(process: Process, id: int)
      requires Valid() && process.In(this)
      modifies this`areas, this`table, memory, process`areas
      ensures Valid() && process.In(this)
      ensures areas == old(areas) - {id} && table == old(table) - {id}
      ensures process.areas == old(process.areas) - {id} && process.Table(this) == old(process.Table(this)) - {id}
    {
      hide AllCounted, At, Structure, Sane;
      process.UnregisterArea(id);
      UnregisterArea(id);
    }

    lemma TableKeys(process: Process)
      requires Valid() && process.In(this)
      ensures process.Table(this).Keys == process.areas.Keys && table.Keys == areas.Keys
      ensures forall k <- process.areas :: k in table && process.Table(this)[k] == table[k]
    {
      hide At;
      forall k ensures k in process.Table(this) <==> k in process.areas {
        assert k in process.areas ==> k in areas;
      }
    }
  }

  /** A system whose counts are wrong: an area that is shared twice with the same file. */
  method ShareTwice(f: EntryRef, inShm: string -> bool) returns (system: System, first: int, second: int)
    ensures fresh(system) && first == B_OK && second == B_OK
    ensures f in system.memory.files && !AllCounted(system.table, system.memory.files)
  {
    hide AllCounted, System.At;
    system := new System(inShm);
    var area := system.RegisterNewArea(0x1000, 0x1000, 0, 1);
    var id, host, shared := area.id, Host(-1, 3, Some(f)), false;
    first, shared := system.ShareArea(id, true, host, 0, false, "", 0, true);
    system.AreaIsSane(id);
    second, shared := system.ShareArea(id, true, host, 0, false, "", 0, true);
  }

  /** The host has a handle that will do, and knows its entry. */
  predicate Opens(host: Host, wanted: bool) {
    host.entry != None && (host.forWriting != -1 || (!wanted && host.forReading != -1))
  }

  /** A private mapping of a file of which a clone can be made and opened. */
  predicate CanClone(p: Info, a: Answers) {
    IsShared(p) && p.mapping == REGION_PRIVATE_MAP && a.cloneWorks && Opens(a.host, IsWritable(p.protection))
  }

  function Unshared(p: Info, team: int): Info { p.(team := team, file := EntryRef(-1, -1), offset := SIZE_MAX) }

  /** The table of files after a path was opened, if the host opened it. */
  function OpenedByName(files: map<EntryRef, SharedFile>, name: string, host: Host, wanted: bool)
      : map<EntryRef, SharedFile>
  {
    if Opens(host, wanted) then Opened(files, host.entry.value, Name(name), wanted || host.forWriting != -1) else files
  }

  /** The child's copy of an area: it refers to a clone of the area's file, at the same offset, if
      the file has a name by then and the clone can be made and opened; else it is not shared. */
  ghost function CopyOf(p: Info, team: int, a: Answers, files: map<EntryRef, SharedFile>): Info {
    if CanClone(p, a) && Named(files, p.file) then
      Unshared(p, team).(file := a.host.entry.value, offset := p.offset)
    else Unshared(p, team)
  }

  /** The table of files after an area was copied. */
  ghost function FilesAfter(files: map<EntryRef, SharedFile>, p: Info, a: Answers): map<EntryRef, SharedFile> {
    if CanClone(p, a) && Named(files, p.file) then OpenedByName(files, a.cloneName, a.host, IsWritable(p.protection))
    else files
  }

  /** What there was before a fork, and what the host answers during it. */
  datatype Before = Before(table: map<int, Info>, areas: map<int, Area>, child: set<int>,
                           files: map<EntryRef, SharedFile>, answers: int -> Answers)

  /** The areas copied so far, in order, and their copies. */
  datatype Forking = Forking(order: seq<int>, copies: seq<int>)

  ghost predicate AreKnown(order: seq<int>, b: Before) { forall i :: 0 <= i < |order| ==> order[i] in b.table }

  /** The table of files after these areas were copied one after the other. */
  ghost function FilesAfterAll(b: Before, order: seq<int>): map<EntryRef, SharedFile>
    requires AreKnown(order, b)
  {
    if order == [] then b.files
    else
      var n := |order| - 1;
      FilesAfter(FilesAfterAll(b, order[..n]), b.table[order[n]], b.answers(order[n]))
  }

  /** The i-th copy, which is made with the files as the copies before it left them. */
  ghost function CopyAt(b: Before, team: int, order: seq<int>, i: nat): Info
    requires i < |order| && AreKnown(order, b)
  {
    CopyOf(b.table[order[i]], team, b.answers(order[i]), FilesAfterAll(b, order[..i]))
  }

  /** What a copy is, told by the words of the area and the answers of the host. */
  lemma CopyAtMeans(b: Before, team: int, order: seq<int>, i: nat)
    requires i < |order| && AreKnown(order, b)
    ensures var c, p, a := CopyAt(b, team, order, i), b.table[order[i]], b.answers(order[i]);
            && c.address == p.address && c.size == p.size && c.protection == p.protection
            && c.mapping == p.mapping && c.team == team
            && var files, host, writable := FilesAfterAll(b, order[..i]), a.host, p.protection / 2 % 2 == 1;
               if p.offset != SIZE_MAX && p.mapping == 1 && p.file in files && files[p.file].source.Name?
                  && a.cloneWorks && host.entry != None
                  && (host.forWriting != -1 || (!writable && host.forReading != -1))
               then c.file == host.entry.value && c.offset == p.offset
               else c.file == EntryRef(-1, -1) && c.offset == SIZE_MAX
  {
    hide FilesAfterAll;
  }

  /** How the table of files changes with the i-th copy: only by the clone that it was shared
      with, which is there under its name with one more reference. */
  lemma FilesTurn(b: Before, order: seq<int>, i: nat)
    requires i < |order| && AreKnown(order, b)
    ensures FilesAfterAll(b, []) == b.files
    ensures var files, after := FilesAfterAll(b, order[..i]), FilesAfterAll(b, order[..i + 1]);
            var p, a := b.table[order[i]], b.answers(order[i]);
            var host, writable := a.host, p.protection / 2 % 2 == 1;
            if p.offset != SIZE_MAX && p.mapping == 1 && p.file in files && files[p.file].source.Name?
               && a.cloneWorks && host.entry != None
               && (host.forWriting != -1 || (!writable && host.forReading != -1))
            then
              && after.Keys == files.Keys + {host.entry.value}
              && (forall g <- files :: g != host.entry.value ==> after[g] == files[g])
              && var e := host.entry.value;
                 after[e] == if e !in files then SharedFile(Name(a.cloneName), writable || host.forWriting != -1, 1)
                             else if files[e].writable || (!writable && host.forWriting == -1) then
                               SharedFile(files[e].source, files[e].writable, files[e].refCount + 1)
                             else SharedFile(Name(a.cloneName), true, files[e].refCount + 1)
            else after == files
  {
    assert order[..i + 1][..i] == order[..i];
  }

  ghost function UpTo(ids: set<int>, last: int): set<int> { set k | k in ids && k <= last }

  ghost predicate IsOrder(order: seq<int>, ids: set<int>) {
    && Elements(order) == ids && forall i, j :: 0 <= i < j < |order| ==> order[i] < order[j]
  }

  ghost predicate AreCopies(copies: seq<int>, order: seq<int>, before: set<int>) {
    && |copies| == |order| && (forall c <- copies :: c !in before)
    && forall i, j :: 0 <= i < j < |copies| ==> copies[i] != copies[j]
  }

  ghost predicate UntouchedIn(t: map<int, Info>, areas: map<int, Area>, tableBefore: map<int, Info>,
                              areasBefore: map<int, Area>, mine: set<int>) {
    forall k :: k in tableBefore && k !in mine ==>
      k in t && k in areas && k in areasBefore && t[k] == tableBefore[k] && areas[k] == areasBefore[k]
  }

  /** Every area of the parent up to `last` has been copied, and nothing else has changed. */
  ghost predicate ForkedIn(t: map<int, Info>, areas: map<int, Area>, files: map<EntryRef, SharedFile>, parent: set<int>,
                           child: set<int>, team: int, b: Before, f: Forking, last: int) {
    && UntouchedIn(t, areas, b.table, b.areas, {}) && b.areas.Keys <= areas.Keys
    && IsOrder(f.order, UpTo(parent, last)) && AreCopies(f.copies, f.order, b.areas.Keys)
    && child == b.child + Elements(f.copies)
    && AreKnown(f.order, b) && files == FilesAfterAll(b, f.order)
    && forall i :: 0 <= i < |f.order| ==> f.copies[i] in t && t[f.copies[i]] == CopyAt(b, team, f.order, i)
  }

  lemma NothingForked(parent: set<int>, team: int, b: Before)
    requires b.table.Keys == b.areas.Keys && forall k <- parent :: 0 < k
    ensures ForkedIn(b.table, b.areas, b.files, parent, b.child, team, b, Forking([], []), -1)
  {
    NoElements();
    assert UpTo(parent, -1) == {};
  }

  /** One more area, id, has got its copy. */
  lemma ForkedStep(t: map<int, Info>, all: map<int, Area>, files: map<EntryRef, SharedFile>, parent: set<int>,
                   child: set<int>, team: int, b: Before, f: Forking, last: int, id: int, copyId: int, area: Area)
    requires ForkedIn(t, all, files, parent, child, team, b, f, last)
    requires id in parent && last < id && (forall k <- parent :: k <= last || id <= k)
    requires copyId !in t && copyId !in all && id in b.table
    ensures var i, now := CopyOf(b.table[id], team, b.answers(id), files), Forking(f.order + [id], f.copies + [copyId]);
            ForkedIn(t[copyId := i], all[copyId := area], FilesAfter(files, b.table[id], b.answers(id)), parent,
                     child + {copyId}, team, b, now, id)
  {
    hide UntouchedIn, CopyOf, FilesAfter, IsOrder, AreCopies, UpTo, FilesAfterAll, CopyAt;
    var i := CopyOf(b.table[id], team, b.answers(id), files);
    StillUntouched(b, t, all, copyId, i, area);
    OrderStep(f.order, parent, last, id);
    CopiesStep(f, all.Keys, b.areas.Keys, id, copyId);
    OneElementMore(f.copies, copyId);
    FilesStep(b, team, f.order, id);
  }

  lemma OrderStep(order: seq<int>, parent: set<int>, last: int, id: int)
    requires IsOrder(order, UpTo(parent, last)) && id in parent && last < id
    requires forall k <- parent :: k <= last || id <= k
    ensures IsOrder(order + [id], UpTo(parent, id))
  {
    OneElementMore(order, id);
    assert UpTo(parent, id) == UpTo(parent, last) + {id};
    var now := order + [id];
    forall i, j | 0 <= i < j < |now| ensures now[i] < now[j] {
      assert now[i] == order[i] && order[i] in Elements(order);
    }
  }

  lemma CopiesStep(f: Forking, all: set<int>, before: set<int>, id: int, copyId: int)
    requires AreCopies(f.copies, f.order, before) && before <= all && copyId !in all
    requires forall i :: 0 <= i < |f.order| && i < |f.copies| ==> f.copies[i] != copyId
    ensures AreCopies(f.copies + [copyId], f.order + [id], before)
  {
  }

  lemma FilesStep(b: Before, team: int, order: seq<int>, id: int)
    requires id in b.table && AreKnown(order, b)
    ensures AreKnown(order + [id], b)
    ensures FilesAfterAll(b, order + [id]) == FilesAfter(FilesAfterAll(b, order), b.table[id], b.answers(id))
    ensures CopyAt(b, team, order + [id], |order|)
              == CopyOf(b.table[id], team, b.answers(id), FilesAfterAll(b, order))
    ensures forall i :: 0 <= i < |order| ==> CopyAt(b, team, order + [id], i) == CopyAt(b, team, order, i)
  {
    hide CopyOf, FilesAfter;
    assert (order + [id])[..|order|] == order;
    forall i | 0 <= i < |order| ensures CopyAt(b, team, order + [id], i) == CopyAt(b, team, order, i) {
      assert (order + [id])[..i] == order[..i];
    }
  }

  lemma StillUntouched(b: Before, t: map<int, Info>, all: map<int, Area>, id: int, i: Info, area: Area)
    requires UntouchedIn(t, all, b.table, b.areas, {}) && b.areas.Keys <= all.Keys && id !in all && id !in t
    ensures UntouchedIn(t[id := i], all[id := area], b.table, b.areas, {})
  {
  }

  lemma LaterAll(ids: set<int>)
    requires forall k <- ids :: 0 < k
    ensures Later(ids, -1) == ids
  {
  }

  /** What there was before unmapping [h, e): all areas, and those of the process. */
  datatype Unmap = Unmap(table: map<int, Info>, areas: map<int, Area>, mine: set<int>, mineTable: map<int, Info>,
                         h: int, e: int)

  /** The areas of other processes are what they were. */
  ghost predicate OthersKept(u: Unmap, t: map<int, Info>, areas: map<int, Area>)
    requires u.table.Keys == u.areas.Keys
  {
    forall k :: k in u.table && k !in u.mine ==> k in t && k in areas && t[k] == u.table[k] && areas[k] == u.areas[k]
  }

  /** The ids that are new to the process are new to the system, and nothing is left to split
      in their areas. */
  ghost predicate NewOnes(u: Unmap, ids: set<int>, t: map<int, Info>) {
    forall k :: k in ids && k !in u.mine ==> k !in u.areas && k in t && |SurvivingOf(t[k], u.h, u.e)| <= 1
  }

  lemma NoElements()
    ensures Elements([]) == {}
  {
  }

  lemma MinusMore<T>(m: map<int, T>, s: set<int>, k: int)
    ensures (m - s) - {k} == m - (s + {k})
  {
  }

  lemma OneElementMore(s: seq<int>, k: int)
    ensures Elements(s + [k]) == Elements(s) + {k}
  {
  }

  lemma NewOneIsWhole(u: Unmap, ids: set<int>, t: map<int, Info>, id: int)
    requires NewOnes(u, ids, t) && id in ids && id in t
    ensures id in u.mine || |SurvivingOf(t[id], u.h, u.e)| <= 1
  {
  }

  lemma OthersStep(u: Unmap, t: map<int, Info>, ids: set<int>, areas: map<int, Area>, after: map<int, Area>, id: int,
                   extra: int)
    requires u.table.Keys == u.areas.Keys && OthersKept(u, t, areas) && NewOnes(u, ids, t)
    requires id in t && id in ids && extra !in t
               && (after == areas || (extra in after && after == areas[extra := after[extra]]))
    ensures OthersKept(u, Cut(t, id, extra, u.h, u.e), after)
  {
    hide Cut, SurvivingOf;
    forall k | k in u.table && k !in u.mine
      ensures k in Cut(t, id, extra, u.h, u.e) && k in after && Cut(t, id, extra, u.h, u.e)[k] == u.table[k]
                && after[k] == u.areas[k]
    {
      CutOthers(t, id, extra, u.h, u.e, k);
    }
  }

  lemma NewOnesStep(u: Unmap, ids: set<int>, t: map<int, Info>, after: set<int>, id: int, extra: int)
    requires NewOnes(u, ids, t) && u.areas.Keys <= t.Keys && u.h <= u.e
    requires id in t && IsSane(t[id]) && extra !in t
    requires after == ids || (after == ids + {extra} && extra in Cut(t, id, extra, u.h, u.e))
    ensures NewOnes(u, after, Cut(t, id, extra, u.h, u.e))
  {
    hide Cut, SurvivingOf;
    CutPieces(t, id, extra, u.h, u.e);
    forall k | k in after && k !in u.mine
      ensures k !in u.areas && k in Cut(t, id, extra, u.h, u.e)
                && |SurvivingOf(Cut(t, id, extra, u.h, u.e)[k], u.h, u.e)| <= 1
    {
      CutOthers(t, id, extra, u.h, u.e, k);
    }
  }

  lemma LaterShrinks(ids: set<int>, last: int, id: int)
    requires last < id
    ensures |Later(ids, id)| <= |Later(ids, last)| && (id in ids ==> |Later(ids, id)| < |Later(ids, last)|)
  {
    assert Later(ids, id) <= Later(ids, last);
    SubsetSize(Later(ids, id), Later(ids, last));
    if id in ids {
      assert Later(ids, id) <= Later(ids, last) - {id};
      SubsetSize(Later(ids, id), Later(ids, last) - {id});
    }
  }

  lemma CutOthers(t: map<int, Info>, id: int, extra: int, h: int, e: int, k: int)
    requires id in t
    ensures k in t && k != id && k != extra ==> k in Cut(t, id, extra, h, e) && Cut(t, id, extra, h, e)[k] == t[k]
    ensures t.Keys <= Cut(t, id, extra, h, e).Keys <= t.Keys + {extra}
  {
  }

  /** There is nothing left to split in the pieces. */
  lemma CutPieces(t: map<int, Info>, id: int, extra: int, h: int, e: int)
    requires id in t && h <= e && IsSane(t[id]) && extra !in t
    ensures var c := Cut(t, id, extra, h, e);
            && |SurvivingOf(c[id], h, e)| <= 1 && (extra in c ==> |SurvivingOf(c[extra], h, e)| <= 1)
  {
    var r := SurvivingOf(t[id], h, e);
    forall k: nat | k < |r| ensures |Surviving(r[k].0, r[k].1, h, e)| <= 1 {
      SurvivingPieces(t[id], h, e, k);
    }
  }

  ghost function Later(ids: set<int>, last: int): set<int> { set k | k in ids && k > last }

  ghost function Elements(s: seq<int>): set<int> { set k | k in s }

  /** Cut, told by its cases. */
  lemma CutIs(t: map<int, Info>, id: int, extra: int, h: int, e: int)
    requires id in t
    ensures var i := t[id]; var r := SurvivingOf(i, h, e);
            && (|r| == 0 ==> Cut(t, id, extra, h, e) == t)
            && (|r| == 1 ==> Cut(t, id, extra, h, e) == t[id := Piece(i, r[0].0, r[0].1)])
            && (|r| == 2 ==>
                  Cut(t, id, extra, h, e) == t[id := Piece(i, r[0].0, r[0].1)][extra := Piece(i, r[1].0, r[1].1)])
  {
  }

  lemma RangesInside(i: Info, h: int, e: int)
    requires h <= e && IsSane(i)
    ensures forall r <- SurvivingOf(i, h, e) :: i.address <= r.0 < r.1 <= i.address + i.size
  {
    var s := SurvivingOf(i, h, e);
    forall k: nat | k < |s| ensures i.address <= s[k].0 < s[k].1 <= i.address + i.size {
      SurvivingPieces(i, h, e, k);
    }
  }

  // ----- cutting ranges by sorting

  /** std::sort of four addresses, of which the first two and the last two are in order. */
  function Sorted(a: int, b: int, h: int, e: int): (r: seq<int>)
    requires a <= b && h <= e
    ensures |r| == 4 && r[0] <= r[1] <= r[2] <= r[3]
  {
    if b <= h then [a, b, h, e]
    else if e <= a then [h, e, a, b]
    else if a <= h && b <= e then [a, h, b, e]
    else if a <= h then [a, h, e, b]
    else if b <= e then [h, a, b, e]
    else [h, a, e, b]
  }

  /** The range from x to y, if it lies in the area and not in the hole. */
  function Kept(x: int, y: int, start: int, end: int, h: int, e: int): seq<(int, int)> {
    if x != y && (y <= h || x >= e) && x >= start && y <= end then [(x, y)] else []
  }

  function KeptUpTo(addresses: seq<int>, i: nat, start: int, end: int, h: int, e: int): seq<(int, int)>
    requires i < |addresses|
  {
    if i == 0 then []
    else KeptUpTo(addresses, i - 1, start, end, h, e) + Kept(addresses[i - 1], addresses[i], start, end, h, e)
  }

  lemma KeptIsSurviving(start: int, end: int, h: int, e: int)
    requires start <= end && h <= e
    ensures KeptUpTo(Sorted(start, end, h, e), 3, start, end, h, e) == Surviving(start, end, h, e)
  {
    var r := Sorted(start, end, h, e);
    KeptThree(r, start, end, h, e);
    hide KeptUpTo;
  }

  lemma KeptThree(r: seq<int>, start: int, end: int, h: int, e: int)
    requires |r| == 4
    ensures KeptUpTo(r, 3, start, end, h, e) ==
              Kept(r[0], r[1], start, end, h, e) + Kept(r[1], r[2], start, end, h, e)
                  + Kept(r[2], r[3], start, end, h, e)
  {
    hide Kept;
    assert KeptUpTo(r, 1, start, end, h, e) == Kept(r[0], r[1], start, end, h, e);
    assert KeptUpTo(r, 2, start, end, h, e) == KeptUpTo(r, 1, start, end, h, e) + Kept(r[1], r[2], start, end, h, e);
  }
}
