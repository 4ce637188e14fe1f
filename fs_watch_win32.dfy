/**
 * The Windows backend of sfl_fs_watch.h: the watch list kept by
 * sfl_fs_watch_add and the walk over the FILE_NOTIFY_INFORMATION records
 * that ReadDirectoryChangesW leaves in an entry's buffer.
 *
 * The watch list is modelled by value: `directories` is the ring
 * ctx->directories read from its head, and each entry's `children` its
 * `node` ring read likewise, so appending to a ring is `+ [e]` here (the
 * node links are modelled by FsWatchRing). Paths are given already
 * absolute; whether the path is a directory and the path with its last
 * component removed are inputs, since the source gets them from the file
 * system.
 */
module FsWatchWin32 {
  import opened FsWatchCommon

  /**
   * SflFsWatchEntry, as far as the watch list goes: the path, the ID (-1
   * until one is assigned) and the entries on its `node` ring.
   */
  datatype Entry = Entry(file: string, id: int, children: seq<Entry>)

  /** sfl_fs_watch_init_entry: no ID yet and no children. */
  function InitEntry(file: string): (e: Entry)
    ensures e.file == file && e.id == -1 && e.children == []
  {
    Entry(file, -1, [])
  }

  /** Every ID is -1 or one get_next_id hands out; children always have one. */
  predicate IdsValid(dirs: seq<Entry>)
  {
    forall i :: 0 <= i < |dirs| ==>
      (dirs[i].id == -1 || 0 <= dirs[i].id < MaxId) &&
      forall j :: 0 <= j < |dirs[i].children| ==> 0 <= dirs[i].children[j].id < MaxId
  }

  /**
   * The index of the first directory entry, in ring order, that is `path`
   * itself or a prefix of it; |dirs| when there is none.
   */
  function FirstMatch(dirs: seq<Entry>, path: string): (i: nat)
    ensures i <= |dirs|
    ensures i < |dirs| ==> Hierarchy(path, dirs[i].file) != -1
    ensures forall j :: 0 <= j < i ==> Hierarchy(path, dirs[j].file) == -1
  {
    if dirs == [] then 0
    else if Hierarchy(path, dirs[0].file) != -1 then 0
    else 1 + FirstMatch(dirs[1..], path)
  }

  /**
   * The watch list and counter after sfl_fs_watch_add(path), given the
   * is_directory probe and the parent path of `path`.
   */
  function AddOutcome(dirs: seq<Entry>, current: int, path: string, isDirectory: int, parent: string): (seq<Entry>, int)
    requires CounterInRange(current)
  {
    var i := FirstMatch(dirs, path);
    var (id, next) := NextId(current);
    if i < |dirs| then
      if Hierarchy(path, dirs[i].file) == 1 then
        (dirs[i := dirs[i].(children := dirs[i].children + [Entry(path, id, [])])], next)
      else if dirs[i].id == -1 then
        (dirs[i := dirs[i].(id := id)], next)
      else
        (dirs, current)
    else if isDirectory == 0 then
      (dirs + [Entry(parent, -1, [Entry(path, id, [])])], next)
    else
      (dirs + [Entry(path, id, [])], next)
  }

  /** A path below an entry already watched, not the entry itself, joins that entry's children. */
  lemma AddChildOfWatched(dirs: seq<Entry>, current: int, path: string, isDirectory: int, parent: string)
    requires CounterInRange(current)
    requires FirstMatch(dirs, path) < |dirs| && Hierarchy(path, dirs[FirstMatch(dirs, path)].file) == 1
    ensures var (dirs', current') := AddOutcome(dirs, current, path, isDirectory, parent);
            var i := FirstMatch(dirs, path);
            && |dirs'| == |dirs|
            && (forall j :: 0 <= j < |dirs| && j != i ==> dirs'[j] == dirs[j])
            && dirs'[i].file == dirs[i].file && dirs'[i].id == dirs[i].id
            && dirs'[i].children == dirs[i].children + [Entry(path, NextId(current).0, [])]
            && current' == NextId(current).1
  {
  }

  /**
   * A path that is a watched directory itself gets an ID if it had none, and
   * otherwise changes nothing: not even the counter moves.
   */
  lemma AddWatchedDirectory(dirs: seq<Entry>, current: int, path: string, isDirectory: int, parent: string)
    requires CounterInRange(current)
    requires FirstMatch(dirs, path) < |dirs| && Hierarchy(path, dirs[FirstMatch(dirs, path)].file) == 0
    ensures var (dirs', current') := AddOutcome(dirs, current, path, isDirectory, parent);
            var i := FirstMatch(dirs, path);
            if dirs[i].id == -1 then
              dirs' == dirs[i := dirs[i].(id := NextId(current).0)] && current' == NextId(current).1
            else
              dirs' == dirs && current' == current
  {
  }

  /** Adding a watched directory a second time changes nothing. */
  lemma AddWatchedDirectoryIdempotent(dirs: seq<Entry>, current: int, path: string, isDirectory: int, parent: string)
    requires CounterInRange(current)
    requires FirstMatch(dirs, path) < |dirs| && Hierarchy(path, dirs[FirstMatch(dirs, path)].file) == 0
    ensures var (dirs1, current1) := AddOutcome(dirs, current, path, isDirectory, parent);
            CounterInRange(current1) && AddOutcome(dirs1, current1, path, isDirectory, parent) == (dirs1, current1)
  {
    var i := FirstMatch(dirs, path);
    var (dirs1, current1) := AddOutcome(dirs, current, path, isDirectory, parent);
    FirstMatchSameFiles(dirs, dirs1, path);
    assert dirs1[i].id != -1;
  }

  /**
   * A path under no watched entry appends exactly one directory entry: for a
   * file, its parent directory without an ID, holding the file with a fresh
   * ID; for a directory, or when the probe failed, the path itself with a
   * fresh ID and no children.
   */
  lemma AddUnwatched(dirs: seq<Entry>, current: int, path: string, isDirectory: int, parent: string)
    requires CounterInRange(current) && FirstMatch(dirs, path) == |dirs|
    ensures var (dirs', current') := AddOutcome(dirs, current, path, isDirectory, parent);
            var id := NextId(current).0;
            && |dirs'| == |dirs| + 1 && dirs'[..|dirs|] == dirs
            && current' == NextId(current).1
            && (isDirectory == 0 ==> dirs'[|dirs|] == Entry(parent, -1, [Entry(path, id, [])]))
            && (isDirectory != 0 ==> dirs'[|dirs|] == Entry(path, id, []))
  {
  }

  /** Only the paths of directory entries decide the first match. */
  lemma {:induction false} FirstMatchSameFiles(dirs: seq<Entry>, dirs': seq<Entry>, path: string)
    requires |dirs| == |dirs'| && forall j :: 0 <= j < |dirs| ==> dirs[j].file == dirs'[j].file
    ensures FirstMatch(dirs, path) == FirstMatch(dirs', path)
  {
    if dirs != [] {
      FirstMatchSameFiles(dirs[1..], dirs'[1..], path);
    }
  }

  /**
   * Children are never compared, so adding the same file twice below a
   * watched directory gives that directory two children for it, with two
   * different IDs.
   */
  lemma AddFileTwice(dirs: seq<Entry>, current: int, path: string, isDirectory: int, parent: string)
    requires CounterInRange(current)
    requires FirstMatch(dirs, path) < |dirs| && Hierarchy(path, dirs[FirstMatch(dirs, path)].file) == 1
    ensures var (dirs1, current1) := AddOutcome(dirs, current, path, isDirectory, parent);
            CounterInRange(current1) &&
            var (dirs2, current2) := AddOutcome(dirs1, current1, path, isDirectory, parent);
            var i := FirstMatch(dirs, path);
            var ids := IdsFrom(current, 2);
            && dirs2[i].children == dirs[i].children + [Entry(path, ids[0], []), Entry(path, ids[1], [])]
            && ids[0] != ids[1]
  {
    var i := FirstMatch(dirs, path);
    var (dirs1, current1) := AddOutcome(dirs, current, path, isDirectory, parent);
    FirstMatchSameFiles(dirs, dirs1, path);
    var ids := IdsFrom(current, 2);
    assert ids[1] == NextId(current1).0;
    IdsFromDistinct(current, 2, 0, 1);
  }

  /** sfl_fs_watch_add keeps every ID in range. */
  lemma AddKeepsIdsValid(dirs: seq<Entry>, current: int, path: string, isDirectory: int, parent: string)
    requires CounterInRange(current) && IdsValid(dirs)
    ensures var (dirs', current') := AddOutcome(dirs, current, path, isDirectory, parent);
            CounterInRange(current') && IdsValid(dirs')
  {
  }

  class WatchContext {
    var directories: seq<Entry>
    var currentId: int

    ghost predicate Valid()
      reads this
    {
      CounterInRange(currentId) && IdsValid(directories)
    }

    /** sfl_fs_watch_init: an empty ring and a counter at 0. */
    constructor ()
      ensures Valid() && directories == [] && currentId == 0
    {
      directories := [];
      currentId := 0;
    }

    /** sfl_fs_watch_get_next_id on ctx->current_id. */
    method GetNextId() returns (id: int)
      requires CounterInRange(currentId)
      modifies this
      ensures (id, currentId) == NextId(old(currentId))
      ensures directories == old(directories)
    {
      if currentId == MaxId {
        currentId := 0;
      }
      id := currentId;
      currentId := currentId + 1;
    }

    /**
     * sfl_fs_watch_add. Directory entries are compared in ring order; the
     * first that is the path or a prefix of it decides. The result is 1 on
     * every path.
     */
    method Add(path: string, isDirectory: int, parent: string) returns (r: int)
      requires Valid()
      modifies this
      ensures Valid()
      ensures r == 1
      ensures (directories, currentId) == AddOutcome(old(directories), old(currentId), path, isDirectory, parent)
    {
      var i := 0;
      while i < |directories|
        invariant directories == old(directories) && currentId == old(currentId)
        invariant 0 <= i <= |directories|
        invariant forall j :: 0 <= j < i ==> Hierarchy(path, directories[j].file) == -1
      {
        var entry := directories[i];
        var status := CompareFilesHierarchy(path, entry.file);
        if status == 1 {
          var id := GetNextId();
          directories := directories[i := entry.(children := entry.children + [Entry(path, id, [])])];
          return 1;
        } else if status == 0 {
          if entry.id == -1 {
            var id := GetNextId();
            directories := directories[i := entry.(id := id)];
          }
          return 1;
        }
        i := i + 1;
      }
      var newDirectory: Entry;
      if isDirectory == 0 {
        var id := GetNextId();
        var newEntry := InitEntry(path).(id := id);
        newDirectory := InitEntry(parent).(children := [newEntry]);
      } else {
        var id := GetNextId();
        newDirectory := InitEntry(path).(id := id);
      }
      directories := directories + [newDirectory];
      r := 1;
    }
  }

  // ---------------------------------------------------------------------------
  // FILE_NOTIFY_INFORMATION records
  // ---------------------------------------------------------------------------

  type Byte = b: int | 0 <= b < 256

  /** The DWORD stored little-endian at `pos`. */
  function DwordAt(buf: seq<Byte>, pos: nat): nat
    requires pos + 4 <= |buf|
  {
    buf[pos] as int + 0x100 * (buf[pos + 1] as int) + 0x1_0000 * (buf[pos + 2] as int) + 0x100_0000 * (buf[pos + 3] as int)
  }

  /** The fields of a record at `pos`: NextEntryOffset, Action, FileNameLength, FileName. */
  function NextEntryOffset(buf: seq<Byte>, pos: nat): nat requires pos + 12 <= |buf| { DwordAt(buf, pos) }
  function Action(buf: seq<Byte>, pos: nat): nat requires pos + 12 <= |buf| { DwordAt(buf, pos + 4) }
  function FileNameLength(buf: seq<Byte>, pos: nat): nat requires pos + 12 <= |buf| { DwordAt(buf, pos + 8) }

  /** The UTF-16 code units of a name of `units` code units stored from `pos`. */
  function CodeUnits(buf: seq<Byte>, pos: nat, units: nat): (s: seq<int>)
    requires pos + 2 * units <= |buf|
    ensures |s| == units
    decreases units
  {
    if units == 0 then [] else [buf[pos] as int + 0x100 * (buf[pos + 1] as int)] + CodeUnits(buf, pos + 2, units - 1)
  }

  /** The name of the record at `pos`: FileNameLength bytes of UTF-16 after the fixed fields. */
  function FileName(buf: seq<Byte>, pos: nat): seq<int>
    requires pos + 12 <= |buf| && pos + 12 + FileNameLength(buf, pos) <= |buf|
  {
    CodeUnits(buf, pos + 12, FileNameLength(buf, pos) / 2)
  }

  /**
   * The chain of records starting at `pos` lies inside the buffer: each
   * record with its name fits, and a non-zero NextEntryOffset leads to the
   * next record.
   */
  predicate WellFormed(buf: seq<Byte>, pos: nat)
    decreases |buf| - pos
  {
    && pos + 12 <= |buf|
    && pos + 12 + FileNameLength(buf, pos) <= |buf|
    && var next := NextEntryOffset(buf, pos);
       next == 0 || (pos + next <= |buf| && WellFormed(buf, pos + next))
  }

  /** The start of every record in the chain from `pos`, in chain order. */
  function Chain(buf: seq<Byte>, pos: nat): (offsets: seq<nat>)
    requires WellFormed(buf, pos)
    ensures |offsets| > 0 && offsets[0] == pos
    decreases |buf| - pos
  {
    var next := NextEntryOffset(buf, pos);
    if next == 0 then [pos] else [pos] + Chain(buf, pos + next)
  }

  /** SflFsWatchFileNotification, with the path as its UTF-16 code units. */
  datatype Notification = Notification(path: seq<int>, kind: int)

  /** The notification built from the record at `pos`. */
  function NotificationAt(buf: seq<Byte>, pos: nat): Notification
    requires pos + 12 <= |buf| && pos + 12 + FileNameLength(buf, pos) <= |buf|
  {
    Notification(FileName(buf, pos), KindOfAction(Action(buf, pos)))
  }

  /** The notifications, in order, for the chain of records from `pos`. */
  function Notifications(buf: seq<Byte>, pos: nat): (ns: seq<Notification>)
    requires WellFormed(buf, pos)
    ensures |ns| == |Chain(buf, pos)|
    decreases |buf| - pos
  {
    var next := NextEntryOffset(buf, pos);
    [NotificationAt(buf, pos)] + (if next == 0 then [] else Notifications(buf, pos + next))
  }

  /**
   * The chain runs forward record by record and ends at the first record
   * whose NextEntryOffset is 0; there is one notification per record, built
   * from that record, the last one included.
   */
  lemma {:induction false} ChainShape(buf: seq<Byte>, pos: nat, k: nat)
    requires WellFormed(buf, pos) && k < |Chain(buf, pos)|
    ensures var c := Chain(buf, pos);
            && c[k] + 12 <= |buf| && c[k] + 12 + FileNameLength(buf, c[k]) <= |buf|
            && (NextEntryOffset(buf, c[k]) == 0 <==> k == |c| - 1)
            && (k < |c| - 1 ==> c[k + 1] == c[k] + NextEntryOffset(buf, c[k]))
            && Notifications(buf, pos)[k] == NotificationAt(buf, c[k])
    decreases |buf| - pos
  {
    var next := NextEntryOffset(buf, pos);
    if k > 0 {
      ChainShape(buf, pos + next, k - 1);
    }
  }

  /** Firing the `k`-th record of the chain extends the calls made so far by its notification. */
  lemma FireStep(buf: seq<Byte>, k: nat)
    requires WellFormed(buf, 0) && k < |Chain(buf, 0)|
    ensures var c := Chain(buf, 0);
            var all := Notifications(buf, 0);
            && c[k] + 12 <= |buf| && c[k] + 12 + FileNameLength(buf, c[k]) <= |buf|
            && all[..k + 1] == all[..k] + [NotificationAt(buf, c[k])]
            && (NextEntryOffset(buf, c[k]) == 0 ==> all[..k + 1] == all)
            && (NextEntryOffset(buf, c[k]) != 0 ==> k + 1 < |c| && c[k + 1] == c[k] + NextEntryOffset(buf, c[k]))
  {
    ChainShape(buf, 0, k);
    SliceSnoc(Notifications(buf, 0), k);
  }

  lemma SliceSnoc<T>(s: seq<T>, k: nat)
    requires k < |s|
    ensures s[..k + 1] == s[..k] + [s[k]]
    ensures k + 1 == |s| ==> s[..k + 1] == s
  {
  }

  /**
   * sfl_fs_watch_get_notifications: `fired` lists the calls made to the
   * notification procedure, in order. Nothing is filtered against the
   * entries' children.
   */
  method GetNotifications(buf: seq<Byte>) returns (fired: seq<Notification>)
    requires WellFormed(buf, 0)
    ensures fired == Notifications(buf, 0)
  {
    ghost var chain := Chain(buf, 0);
    ghost var all := Notifications(buf, 0);
    ghost var k := 0;
    var pos := 0;
    fired := [];
    while true
      invariant 0 <= k < |chain| && pos == chain[k]
      invariant fired == all[..k]
      decreases |chain| - k
    {
      FireStep(buf, k);
      var next := NextEntryOffset(buf, pos);
      fired := fired + [NotificationAt(buf, pos)];
      if next == 0 {
        assert all[..k + 1] == all;
        return;
      }
      pos := pos + next;
      k := k + 1;
    }
  }
}
