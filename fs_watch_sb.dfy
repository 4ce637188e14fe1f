/**
 * The stretchy buffer of sfl_fs_watch.h (the sfl_fs_watch_sb_* macros and
 * sfl_fs_watch_sb_growf). In C the buffer is the address of the elements,
 * preceded by two ints: the capacity `m` and the count `n`; a null address
 * is the empty buffer. Here that address is `data` (null or an array whose
 * length is the capacity) next to the two header fields.
 */
module FsWatchStretchy {

  /**
   * The capacity sfl_fs_watch_sb_growf asks for: twice the old capacity (0
   * for a null buffer) or the count plus the increment, whichever is larger.
   */
  function GrowCapacity(isNull: bool, capacity: int, count: int, increment: int): (m: int)
    ensures m >= count + increment
    ensures !isNull ==> m >= 2 * capacity
    ensures m == count + increment || m == (if isNull then 0 else 2 * capacity)
  {
    var doubled := if isNull then 0 else 2 * capacity;
    if doubled > count + increment then doubled else count + increment
  }

  /** sfl_fs_watch_sb_needsgrow: a null buffer, or no spare slot left after adding `n`. */
  function NeedsGrow(isNull: bool, capacity: int, count: int, n: int): bool
  {
    isNull || count + n >= capacity
  }

  class StretchyBuffer<T(0)> {
    var data: array?<T>
    /** The header int sfl_fs_watch_sb_m. */
    var capacity: int
    /** The header int sfl_fs_watch_sb_n. */
    var count: int

    ghost predicate Valid()
      reads this
    {
      data != null ==> 0 <= count <= capacity && data.Length == capacity
    }

    /** The null buffer, as a zero-initialised context holds it. */
    constructor ()
      ensures Valid() && data == null
    {
      data := null;
      capacity, count := 0, 0;
    }

    /** sfl_fs_watch_sb_count. */
    function Count(): (n: int)
      reads this
      requires Valid()
      ensures n >= 0
      ensures data == null ==> n == 0
    {
      if data == null then 0 else count
    }

    /** The elements in index order. */
    ghost function Elements(): (s: seq<T>)
      reads this, data
      requires Valid()
      ensures |s| == Count()
    {
      if data == null then [] else data[..count]
    }

    /**
     * sfl_fs_watch_sb_growf, with the allocation succeeding: a larger block
     * holding the old elements, the capacity from GrowCapacity, and a count
     * of 0 when the buffer was null.
     */
    method Growf(increment: int)
      requires Valid() && increment >= 0
      modifies this
      ensures Valid() && data != null && fresh(data)
      ensures capacity == GrowCapacity(old(data) == null, old(capacity), old(Count()), increment)
      ensures Count() == old(Count())
      ensures Elements() == old(Elements())
    {
      var m := GrowCapacity(data == null, capacity, Count(), increment);
      var grown := new T[m];
      if data != null {
        var i := 0;
        while i < count
          invariant 0 <= i <= count
          invariant grown[..i] == data[..i]
          modifies grown
        {
          grown[i] := data[i];
          i := i + 1;
        }
      } else {
        count := 0;
      }
      data := grown;
      capacity := m;
    }

    /** sfl_fs_watch_sb_maybegrow. */
    method MaybeGrow(n: int)
      requires Valid() && n >= 0
      modifies this
      ensures Valid() && data != null
      ensures Count() == old(Count()) && Elements() == old(Elements())
      ensures count + n <= capacity
      ensures NeedsGrow(old(data) == null, old(capacity), old(count), n) ==> fresh(data)
      ensures !NeedsGrow(old(data) == null, old(capacity), old(count), n) ==> data == old(data) && capacity == old(capacity)
    {
      if NeedsGrow(data == null, capacity, count, n) {
        Growf(n);
      }
    }

    /** sfl_fs_watch_sb_push: `v` becomes the last element. */
    method Push(v: T)
      requires Valid()
      modifies this, data
      ensures Valid() && data != null
      ensures Elements() == old(Elements()) + [v]
    {
      MaybeGrow(1);
      data[count] := v;
      count := count + 1;
    }

    /**
     * sfl_fs_watch_sb_add: make room for `n` more elements and return the
     * index of the first one. The new slots hold whatever the block held.
     */
    method AddN(n: int) returns (first: int)
      requires Valid() && n >= 0
      modifies this, data
      ensures Valid() && data != null
      ensures first == old(Count()) && Count() == old(Count()) + n
      ensures Elements()[..first] == old(Elements())
    {
      MaybeGrow(n);
      count := count + n;
      first := count - n;
    }

    /** sfl_fs_watch_sb_last. */
    method Last() returns (v: T)
      requires Valid() && Count() > 0
      ensures v == Elements()[Count() - 1]
    {
      v := data[count - 1];
    }
  }
}
