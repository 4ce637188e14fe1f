/**
 * Platform-independent parts of sfl_fs_watch.h: notification kinds and
 * results, the watch ID counter, and the path hierarchy test.
 */
module FsWatchCommon {

  /** SflFsWatchNotificationKind. */
  const KindInvalid: int := 0
  const KindCreated: int := 1
  const KindDeleted: int := 2
  const KindModified: int := 3

  /** SflFsWatchResult. */
  const ResultNone: int := 0
  const ResultTimeout: int := 1
  const ResultError: int := -1

  /** SFL_FS_WATCH_MAX_ID, the largest C int. */
  const MaxId: int := 2147483647

  /** The FILE_ACTION_* codes of a FILE_NOTIFY_INFORMATION record. */
  const ActionAdded: int := 1
  const ActionRemoved: int := 2
  const ActionModified: int := 3
  const ActionRenamedOldName: int := 4
  const ActionRenamedNewName: int := 5

  /** sfl_fs_watch_notification_kind_to_string. */
  function KindName(kind: int): (s: string)
    ensures s != "" <==> KindInvalid <= kind <= KindModified
    ensures kind == KindInvalid ==> s == "Invalid"
    ensures kind == KindCreated ==> s == "Created"
    ensures kind == KindDeleted ==> s == "Deleted"
    ensures kind == KindModified ==> s == "Modified"
  {
    if kind == KindInvalid then "Invalid"
    else if kind == KindCreated then "Created"
    else if kind == KindDeleted then "Deleted"
    else if kind == KindModified then "Modified"
    else ""
  }

  /** Distinct valid kinds have distinct names. */
  lemma KindNameInjective(a: int, b: int)
    requires KindName(a) != "" && a != b
    ensures KindName(a) != KindName(b)
  {
  }

  /** The action switch of sfl_fs_watch_get_notifications. */
  function KindOfAction(action: int): (kind: int)
    ensures kind == KindCreated <==> action == ActionAdded || action == ActionRenamedNewName
    ensures kind == KindDeleted <==> action == ActionRemoved || action == ActionRenamedOldName
    ensures kind == KindModified <==> action == ActionModified
    ensures kind == KindInvalid <==> !(ActionAdded <= action <= ActionRenamedNewName)
  {
    if action == ActionAdded || action == ActionRenamedNewName then KindCreated
    else if action == ActionRemoved || action == ActionRenamedOldName then KindDeleted
    else if action == ActionModified then KindModified
    else KindInvalid
  }

  // ---------------------------------------------------------------------------
  // IDs
  // ---------------------------------------------------------------------------

  /** A counter value sfl_fs_watch_get_next_id can be handed. */
  predicate CounterInRange(current: int)
  {
    0 <= current <= MaxId
  }

  /**
   * One sfl_fs_watch_get_next_id call on a counter holding `current`: the ID
   * it returns and the counter it leaves behind.
   */
  function NextId(current: int): (r: (int, int))
    requires CounterInRange(current)
    ensures 0 <= r.0 < MaxId && CounterInRange(r.1)
    ensures current == MaxId ==> r.0 == 0
    ensures current < MaxId ==> r.0 == current
    ensures r.1 == r.0 + 1
  {
    var c := if current == MaxId then 0 else current;
    (c, c + 1)
  }

  /** The IDs handed out by `n` consecutive calls starting from `current`. */
  function IdsFrom(current: int, n: nat): (ids: seq<int>)
    requires CounterInRange(current)
    ensures |ids| == n
    decreases n
  {
    if n == 0 then [] else
      var (id, next) := NextId(current);
      [id] + IdsFrom(next, n - 1)
  }

  /** The k-th of consecutive IDs is the counter plus k, wrapped modulo MaxId. */
  lemma {:induction false} IdsFromAt(current: int, n: nat, k: nat)
    requires CounterInRange(current) && k < n
    ensures IdsFrom(current, n)[k] == (current + k) % MaxId
    decreases k
  {
    if k > 0 {
      var (id, next) := NextId(current);
      IdsFromAt(next, n - 1, k - 1);
      assert next == current % MaxId + 1;
    }
  }

  /** Up to MaxId consecutive calls never hand out the same ID twice. */
  lemma IdsFromDistinct(current: int, n: nat, i: nat, j: nat)
    requires CounterInRange(current) && n <= MaxId && i < j < n
    ensures IdsFrom(current, n)[i] != IdsFrom(current, n)[j]
  {
    IdsFromAt(current, n, i);
    IdsFromAt(current, n, j);
  }

  // ---------------------------------------------------------------------------
  // Path hierarchy
  // ---------------------------------------------------------------------------

  /**
   * The answer of sfl_fs_watch_compare_files_hierarchy: 0 for the same path,
   * 1 when `directory` is a proper prefix of `child`, -1 otherwise. The test
   * is on characters: there is no check for a separator after the prefix.
   */
  function Hierarchy(child: string, directory: string): (r: int)
    ensures r == 0 <==> child == directory
    ensures r == 1 <==> directory < child
    ensures r == -1 <==> !(directory <= child)
  {
    if directory <= child then (if |directory| == |child| then 0 else 1) else -1
  }

  /** "/a/bc" counts as inside "/a/b". */
  lemma HierarchyIgnoresSeparators()
    ensures Hierarchy("/a/bc", "/a/b") == 1
  {
    assert "/a/b" < "/a/bc";
  }

  /** sfl_fs_watch_compare_files_hierarchy, on strings without their NUL. */
  method CompareFilesHierarchy(child: string, directory: string) returns (r: int)
    ensures r == Hierarchy(child, directory)
  {
    if |directory| > |child| {
      return -1;
    }
    var i := 0;
    while i < |directory|
      invariant 0 <= i <= |directory|
      invariant directory[..i] == child[..i]
    {
      if directory[i] != child[i] {
        return -1;
      }
      i := i + 1;
    }
    assert directory == child[..|directory|];
    r := if |directory| == |child| then 0 else 1;
  }
}
