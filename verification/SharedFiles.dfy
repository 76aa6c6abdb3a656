/** The table of shared files, with reference counts.

    The host's answers (which handle a file opens as, which entry a handle is) are parameters. */
module SharedFiles {
  import opened AreaTables
  import opened Collections

  datatype Source = Handle(handle: int) | Name(name: string)

  datatype SharedFile = SharedFile(source: Source, writable: bool, refCount: int)

  /** Each file is in the table exactly while areas refer to it, and its count is their number. */
  ghost predicate Counted(t: map<int, Info>, files: map<EntryRef, SharedFile>, f: EntryRef) {
    && (f in files <==> |References(t, f)| > 0)
    && (f in files ==> files[f].refCount == |References(t, f)|)
  }

  ghost predicate AllCounted(t: map<int, Info>, files: map<EntryRef, SharedFile>) {
    forall f :: Counted(t, files, f)
  }

  // ----- what the operations do to the table

  /** One reference more; a file that was not there comes from `newFile`. */
  function WithOneMore(files: map<EntryRef, SharedFile>, f: EntryRef, newFile: SharedFile): map<EntryRef, SharedFile> {
    if f in files then files[f := files[f].(refCount := files[f].refCount + 1)] else files[f := newFile.(refCount := 1)]
  }

  /** One reference less; the last one takes the file out of the table. */
  function WithOneLess(files: map<EntryRef, SharedFile>, f: EntryRef): map<EntryRef, SharedFile> {
    if f !in files then files
    else if files[f].refCount == 1 then files - {f}
    else files[f := files[f].(refCount := files[f].refCount - 1)]
  }

  ghost predicate IsLast(files: map<EntryRef, SharedFile>, f: EntryRef) { f in files && files[f].refCount == 1 }

  /** The table after file f was opened from a source: one more reference, and a file that was
      read-only takes the new source if that can be written. */
  function Opened(files: map<EntryRef, SharedFile>, f: EntryRef, source: Source, writable: bool)
      : map<EntryRef, SharedFile>
  {
    if f !in files then files[f := SharedFile(source, writable, 1)]
    else if writable && !files[f].writable then files[f := SharedFile(source, true, files[f].refCount + 1)]
    else files[f := files[f].(refCount := files[f].refCount + 1)]
  }

  ghost predicate SameCounts(a: map<EntryRef, SharedFile>, b: map<EntryRef, SharedFile>) {
    a.Keys == b.Keys && forall f <- a :: a[f].refCount == b[f].refCount
  }

  /** The file is in the table under a name, so that it can be cloned. */
  ghost predicate Named(files: map<EntryRef, SharedFile>, f: EntryRef) { f in files && files[f].source.Name? }

  class MemoryService {
    var files: map<EntryRef, SharedFile>
    const inShm: string -> bool           // which paths are inside the shared-memory directory
    ghost var closed: seq<int>            // host handles closed so far
    ghost var removed: seq<string>        // host files removed so far

    constructor (inShm: string -> bool)
      ensures files == map[] && closed == [] && removed == [] && this.inShm == inShm
    {
      files, this.inShm := map[], inShm;
      closed, removed := [], [];
    }

    method RemoveFile(name: string)
      modifies this`removed
      ensures removed == old(removed) + [name]
    {
      removed := removed + [name];
    }

    method CloseFile(handle: int)
      modifies this`closed
      ensures closed == old(closed) + [handle]
    {
      closed := closed + [handle];
    }

    /** OpenSharedFile for a handle of a process: `forWriting` and `forReading` are the handles
        the host has for it (-1: none), `entry` is what it refers to. */
    method OpenProcessFile(forWriting: int, forReading: int, wanted: bool, entry: Option<EntryRef>)
        returns (ref: Option<EntryRef>)
      modifies this`files, this`closed
      ensures ref == if forWriting != -1 || (!wanted && forReading != -1) then entry else None
      ensures ref == None ==> files == old(files)
      ensures var handle, writable := if forWriting != -1 then forWriting else forReading, wanted || forWriting != -1;
              && (ref != None ==> files == Opened(old(files), ref.value, Handle(handle), writable))
              && closed == old(closed) + (
                   if forWriting == -1 && (wanted || forReading == -1) then []
                   else if entry == None then [handle]
                   else if entry.value !in old(files) then []
                   else if !writable || old(files)[entry.value].writable then [handle]
                   else if old(files)[entry.value].source.Handle? then [1]
                   else [])
    {
      var handle, writable := forWriting, wanted;
      if handle == -1 && writable {
        return None;
      } else if handle == -1 {
        handle := forReading;
        if handle == -1 {
          return None;
        }
      } else {
        writable := true;
      }
      if entry == None {
        CloseFile(handle);
        return None;
      }
      ref := entry;
      var f := entry.value;
      if f in files {
        var file := files[f];
        file := file.(refCount := file.refCount + 1);
        if writable && !file.writable {
          if file.source.Handle? {
            CloseFile(1);  // the source passes HasHandle(), not GetHandle()
          }
          file := file.(source := Handle(handle), writable := true);
        } else {
          CloseFile(handle);
        }
        files := files[f := file];
      } else {
        files := files[f := SharedFile(Handle(handle), writable, 1)];
      }
    }

    /** OpenSharedFile for the name of a file */
    method OpenNamedFile(name: string, forWriting: int, forReading: int, wanted: bool, entry: Option<EntryRef>)
        returns (ref: Option<EntryRef>)
      modifies this`files, this`closed
      ensures ref == if forWriting != -1 || (!wanted && forReading != -1) then entry else None
      ensures ref == None ==> files == old(files)
      ensures var handle, writable := if forWriting != -1 then forWriting else forReading, wanted || forWriting != -1;
              && (ref != None ==> files == Opened(old(files), ref.value, Name(name), writable))
              && closed == old(closed) + (
                   if forWriting == -1 && (wanted || forReading == -1) then []
                   else if entry != None && entry.value in old(files) && !old(files)[entry.value].writable && writable
                           && old(files)[entry.value].source.Handle? then
                     [handle, old(files)[entry.value].source.handle]
                   else [handle])
    {
      var handle, writable := forWriting, wanted;
      if handle == -1 && writable {
        return None;
      } else if handle == -1 {
        handle := forReading;
        if handle == -1 {
          return None;
        }
      } else {
        writable := true;
      }
      CloseFile(handle);
      if entry == None {
        return None;
      }
      ref := entry;
      var f := entry.value;
      if f in files {
        var file := files[f];
        file := file.(refCount := file.refCount + 1);
        if writable && !file.writable {
          if file.source.Handle? {
            CloseFile(file.source.handle);
          }
          file := file.(source := Name(name), writable := true);
        }
        files := files[f := file];
      } else {
        files := files[f := SharedFile(Name(name), writable, 1)];
      }
    }

    method AcquireSharedFile(f: EntryRef) returns (ok: bool)
      modifies this`files
      ensures ok == (f in old(files))
      ensures files == if ok then WithOneMore(old(files), f, old(files)[f]) else old(files)
    {
      ok := f in files;
      if ok {
        files := files[f := files[f].(refCount := files[f].refCount + 1)];
      }
    }

    /** The last reference closes the host handle of the file, or removes the file if it was
        made for sharing. */
    method ReleaseSharedFile(f: EntryRef)
      modifies this
      ensures files == WithOneLess(old(files), f)
      ensures closed == old(closed) + (
                if IsLast(old(files), f) && old(files)[f].source.Handle? then [old(files)[f].source.handle] else [])
      ensures removed == old(removed) + (
                if IsLast(old(files), f) && old(files)[f].source.Name? && inShm(old(files)[f].source.name)
                then [old(files)[f].source.name] else [])
    {
      if f in files {
        var file := files[f];
        file := file.(refCount := file.refCount - 1);
        files := files[f := file];
        if file.refCount == 0 {
          if file.source.Handle? {
            CloseFile(file.source.handle);
          } else if inShm(file.source.name) {
            RemoveFile(file.source.name);
          }
          files := files - {f};
        }
      }
    }
  }

  /** A file that was opened has one more reference. It was opened from the given source if it is
      new, or was read-only and can now be written; else the source stays. Once a file is
      writable, it stays so, and no other file changes. */
  lemma OpenedMeans(files: map<EntryRef, SharedFile>, f: EntryRef, source: Source, writable: bool)
    ensures var after := Opened(files, f, source, writable);
            && after.Keys == files.Keys + {f} && (forall g <- files :: g != f ==> after[g] == files[g])
            && after[f].refCount == (if f in files then files[f].refCount else 0) + 1
            && after[f].source == (if f in files && (files[f].writable || !writable) then files[f].source else source)
            && (after[f].writable <==> writable || (f in files && files[f].writable))
  {
  }

  /** Counting leaves the sources and the other files alone. */
  lemma CountingMeans(files: map<EntryRef, SharedFile>, f: EntryRef, newFile: SharedFile)
    ensures var more := WithOneMore(files, f, newFile);
            && more.Keys == files.Keys + {f} && (forall g <- files :: g != f ==> more[g] == files[g])
            && more[f] == if f in files then SharedFile(files[f].source, files[f].writable, files[f].refCount + 1)
                          else SharedFile(newFile.source, newFile.writable, 1)
    ensures var less := WithOneLess(files, f);
            && less.Keys == files.Keys - (if f in files && files[f].refCount == 1 then {f} else {})
            && (forall g <- less :: g != f ==> less[g] == files[g])
            && (f in less ==> less[f] == SharedFile(files[f].source, files[f].writable, files[f].refCount - 1))
  {
  }

  // ----- the counts stay right

  lemma OpenedCounts(files: map<EntryRef, SharedFile>, f: EntryRef, source: Source, writable: bool, newFile: SharedFile)
    ensures SameCounts(Opened(files, f, source, writable), WithOneMore(files, f, newFile))
  {
  }

  lemma CountsFollow(t: map<int, Info>, a: map<EntryRef, SharedFile>, b: map<EntryRef, SharedFile>)
    requires AllCounted(t, a) && SameCounts(a, b)
    ensures AllCounted(t, b)
  {
    forall f ensures Counted(t, b, f) {
      assert Counted(t, a, f);
    }
  }

  /** Registering an area that is not shared. */
  lemma CountUnshared(t: map<int, Info>, files: map<EntryRef, SharedFile>, id: int, i: Info)
    requires AllCounted(t, files) && id !in t && !IsShared(i)
    ensures AllCounted(t[id := i], files)
  {
    var n := t[id := i];
    forall f ensures Counted(n, files, f) {
      assert Counted(t, files, f);
      ReferencesWith(t, id, i, f);
    }
  }

  /** Registering an area together with one more reference. */
  lemma CountShared(t: map<int, Info>, files: map<EntryRef, SharedFile>, id: int, i: Info, newFile: SharedFile)
    requires AllCounted(t, files) && id !in t && IsShared(i)
    ensures AllCounted(t[id := i], WithOneMore(files, i.file, newFile))
  {
    var n, more := t[id := i], WithOneMore(files, i.file, newFile);
    forall f ensures Counted(n, more, f) {
      assert Counted(t, files, f);
      ReferencesWith(t, id, i, f);
    }
  }

  /** An area that keeps its file. */
  lemma CountSame(t: map<int, Info>, files: map<EntryRef, SharedFile>, id: int, i: Info)
    requires AllCounted(t, files) && id in t && IsShared(i) == IsShared(t[id]) && i.file == t[id].file
    ensures AllCounted(t[id := i], files)
  {
    var n := t[id := i];
    forall f ensures Counted(n, files, f) {
      assert Counted(t, files, f);
      ReferencesWith(t, id, i, f);
    }
  }

  /** Unregistering an area, which releases its file. */
  lemma CountRemoved(t: map<int, Info>, files: map<EntryRef, SharedFile>, id: int)
    requires AllCounted(t, files) && id in t
    ensures AllCounted(t - {id}, if IsShared(t[id]) then WithOneLess(files, t[id].file) else files)
  {
    var r := if IsShared(t[id]) then WithOneLess(files, t[id].file) else files;
    forall f ensures Counted(t - {id}, r, f) {
      assert Counted(t, files, f);
      ReferencesWithout(t, id, f);
    }
  }

  /** Sharing an area keeps the counts right if and only if it was not shared before and its
      offset does not stand for "not shared". */
  lemma ShareCounts(t: map<int, Info>, files: map<EntryRef, SharedFile>, id: int, f: EntryRef, offset: int,
                    newFile: SharedFile)
    requires AllCounted(t, files) && id in t
    ensures AllCounted(t[id := t[id].(file := f, offset := offset)], WithOneMore(files, f, newFile))
            <==> !IsShared(t[id]) && offset != SIZE_MAX
  {
    var i := t[id].(file := f, offset := offset);
    var n, more := t[id := i], WithOneMore(files, f, newFile);
    if !IsShared(t[id]) && offset != SIZE_MAX {
      forall g ensures Counted(n, more, g) {
        assert Counted(t, files, g);
        ReferencesWith(t, id, i, g);
      }
    } else {
      var g := if offset == SIZE_MAX || t[id].file == f then f else t[id].file;
      assert Counted(t, files, g);
      ReferencesWith(t, id, i, g);
      assert !Counted(n, more, g);
    }
  }

  /** Sharing an area that is not shared, twice: the file has one area and the count two. */
  lemma SharedTwice(i: Info, f: EntryRef)
    requires !IsShared(i)
    ensures var once := i.(file := f, offset := 0); var file := SharedFile(Handle(3), true, 1);
            && AllCounted(map[1 := i], map[]) && AllCounted(map[1 := once], WithOneMore(map[], f, file))
            && !AllCounted(map[1 := once], WithOneMore(WithOneMore(map[], f, file), f, file))
  {
    var once, file, t := i.(file := f, offset := 0), SharedFile(Handle(3), true, 1), map[1 := i];
    assert AllCounted(t, map[]);
    ShareCounts(t, map[], 1, f, 0, file);
    assert t[1 := once] == map[1 := once];
    ShareCounts(map[1 := once], WithOneMore(map[], f, file), 1, f, 0, file);
    assert map[1 := once][1 := once] == map[1 := once];
  }
}
