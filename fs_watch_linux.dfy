/**
 * The Linux backend of sfl_fs_watch.h. The inotify calls are inputs: `add`
 * receives the descriptor inotify_add_watch returned, and `poll` receives
 * the outcomes of its successive read calls.
 */
module FsWatchLinux {
  import opened FsWatchCommon
  import opened FsWatchStretchy

  /** errno's EAGAIN on Linux. */
  const EAGAIN: int := 11

  /** SflFsWatchEntry of the Linux backend. */
  datatype WatchEntry = WatchEntry(filePath: string, watchFd: int)

  /** What one read of the inotify descriptor returned, and errno after it. */
  datatype ReadOutcome = ReadOutcome(length: int, errno: int)

  /** A read that makes the poll loop stop: end of file or a failure. */
  predicate Stops(o: ReadOutcome)
  {
    o.length <= 0
  }

  /** Some read makes the loop stop. */
  predicate Terminates(outcomes: seq<ReadOutcome>)
  {
    exists k :: 0 <= k < |outcomes| && Stops(outcomes[k])
  }

  /** The index of the first read that makes the loop stop. */
  function FirstStop(outcomes: seq<ReadOutcome>): (k: nat)
    requires Terminates(outcomes)
    ensures k < |outcomes| && Stops(outcomes[k])
    ensures forall i :: 0 <= i < k ==> !Stops(outcomes[i])
  {
    if Stops(outcomes[0]) then 0
    else
      assert Terminates(outcomes[1..]) by {
        var k :| 0 <= k < |outcomes| && Stops(outcomes[k]);
        assert k > 0 && Stops(outcomes[1..][k - 1]);
      }
      1 + FirstStop(outcomes[1..])
  }

  /**
   * The result of sfl_fs_watch_poll given its read outcomes: NONE at end of file,
   * on EAGAIN NONE if some read came before and TIMEOUT otherwise, ERROR on
   * any other failure.
   */
  function PollResult(outcomes: seq<ReadOutcome>): int
    requires Terminates(outcomes)
  {
    var k := FirstStop(outcomes);
    if outcomes[k].length == 0 then ResultNone
    else if outcomes[k].errno != EAGAIN then ResultError
    else if k > 0 then ResultNone
    else ResultTimeout
  }

  /** TIMEOUT exactly when the very first read fails with EAGAIN. */
  lemma PollTimeoutIff(outcomes: seq<ReadOutcome>)
    requires Terminates(outcomes)
    ensures PollResult(outcomes) == ResultTimeout <==> outcomes[0].length < 0 && outcomes[0].errno == EAGAIN
  {
  }

  /** ERROR exactly when the stopping read fails with an errno other than EAGAIN. */
  lemma PollErrorIff(outcomes: seq<ReadOutcome>)
    requires Terminates(outcomes)
    ensures PollResult(outcomes) == ResultError <==>
            outcomes[FirstStop(outcomes)].length < 0 && outcomes[FirstStop(outcomes)].errno != EAGAIN
  {
  }

  /** The result is always one of the three SflFsWatchResult values. */
  lemma PollResultKnown(outcomes: seq<ReadOutcome>)
    requires Terminates(outcomes)
    ensures PollResult(outcomes) in {ResultNone, ResultTimeout, ResultError}
  {
  }

  class WatchContext {
    /** The inotify descriptor (inotify_init1's result). */
    var notifyFd: int
    var entries: StretchyBuffer<WatchEntry>

    ghost predicate Valid()
      reads this, entries
    {
      entries.Valid()
    }

    /** The watched entries in the order they were added. */
    ghost function Watched(): seq<WatchEntry>
      reads this, entries, entries.data
      requires Valid()
    {
      entries.Elements()
    }

    /**
     * sfl_fs_watch_init. The entries buffer starts null, as in the
     * zero-initialised context the source relies on: init never sets it.
     */
    constructor (fd: int)
      ensures Valid() && notifyFd == fd && Watched() == []
    {
      notifyFd := fd;
      entries := new StretchyBuffer<WatchEntry>();
    }

    /** sfl_fs_watch_add: `fd` is what inotify_add_watch returned. */
    method Add(filePath: string, fd: int) returns (r: int)
      requires Valid()
      modifies entries, entries.data
      ensures Valid() && entries == old(entries)
      ensures fd == -1 ==> r == 0 && Watched() == old(Watched())
      ensures fd != -1 ==> r == 1 && Watched() == old(Watched()) + [WatchEntry(filePath, fd)]
    {
      if fd == -1 {
        return 0;
      }
      entries.Push(WatchEntry(filePath, fd));
      r := 1;
    }

    /**
     * sfl_fs_watch_poll, given the outcomes of its reads; `used` is how many
     * of them it consumed. The loop never calls the notification procedure
     * and never looks at the bytes read.
     */
    method Poll(outcomes: seq<ReadOutcome>) returns (r: int, used: nat)
      requires Terminates(outcomes)
      ensures r == PollResult(outcomes)
      ensures used == FirstStop(outcomes) + 1
    {
      var offset := 0;
      var done := false;
      var count := 0;
      ghost var k := FirstStop(outcomes);
      while !done
        invariant 0 <= count <= k + 1
        invariant !done ==> count <= k
        invariant done ==> count == k + 1 && outcomes[k].length == 0
        decreases k + 1 - count, !done
      {
        var outcome := outcomes[count];
        if outcome.length == 0 {
          done := true;
        } else if outcome.length < 0 {
          if outcome.errno == EAGAIN {
            return (if count > 0 then ResultNone else ResultTimeout), count + 1;
          } else {
            return ResultError, count + 1;
          }
        }
        offset := offset + outcome.length;
        count := count + 1;
      }
      r, used := ResultNone, count;
    }
  }
}
