/**
 * The downloader's sequential decision logic: the admission loop of Main, the
 * bookkeeping after each transfer, the cleanup, and the two signal handlers.
 *
 * The static fields of the source become the fields of one `Program` object.
 * A transfer is named by its 1-based index. Network transfers, the moments at
 * which they end and the arrival of Ctrl+C are not decided by the program: the
 * outcome of each transfer is an input (`succeeded`), the iteration before
 * which Ctrl+C arrives is an input (`interruptAt`), and which transfers end is
 * a free choice made at every point where the loop can observe it: before each
 * iteration reads the flag (`EndTransfers`) and while `Task.WhenAny` waits
 * (`WaitAny`). The contracts below hold for every such choice.
 */
module Downloader {
  import opened Naming
  import opened ConsoleInput
  import opened FileSystem

  function Elems(s: seq<int>): (e: set<int>)
    ensures forall x :: x in e <==> x in s
  {
    set x | x in s
  }

  lemma ElemsSnoc(s: seq<int>, x: int)
    ensures Elems(s + [x]) == Elems(s) + {x}
  {
  }

  lemma AppendSnoc(a: seq<int>, b: seq<int>, x: int)
    ensures a + (b + [x]) == a + b + [x]
  {
  }

  predicate Increasing(s: seq<int>) {
    forall a, b :: 0 <= a < b < |s| ==> s[a] < s[b]
  }

  predicate NoDups(s: seq<int>) {
    forall a, b :: 0 <= a < b < |s| ==> s[a] != s[b]
  }

  /** The indices 1, 2, ..., n in order. */
  function Indices(n: nat): (s: seq<int>)
    ensures |s| == n && forall k :: 0 <= k < n ==> s[k] == k + 1
  {
    seq(n, k => k + 1)
  }

  /**
   * The tasks whose membership in `s` is `member`, in their original order.
   * `Select(tasks, done, false)` is `downloadTasks.RemoveAll(t => t.IsCompleted)`
   * when `done` holds the completed tasks.
   */
  function Select(tasks: seq<int>, s: set<int>, member: bool): (kept: seq<int>)
    ensures forall t :: t in kept <==> t in tasks && (t in s <==> member)
    ensures |kept| <= |tasks|
    decreases |tasks|
  {
    if tasks == [] then []
    else
      var last := tasks[|tasks| - 1];
      Select(tasks[..|tasks| - 1], s, member) + (if (last in s) == member then [last] else [])
  }

  lemma SelectPrefix(tasks: seq<int>, s: set<int>, member: bool, k: nat)
    requires k < |tasks|
    ensures Select(tasks[..k + 1], s, member)
      == Select(tasks[..k], s, member) + (if (tasks[k] in s) == member then [tasks[k]] else [])
  {
    assert tasks[..k + 1][..k] == tasks[..k];
  }

  /** Selecting keeps the admission order. */
  lemma {:induction false} SelectIncreasing(tasks: seq<int>, s: set<int>, member: bool)
    requires Increasing(tasks)
    ensures Increasing(Select(tasks, s, member))
    decreases |tasks|
  {
    if tasks != [] {
      var init, last := tasks[..|tasks| - 1], tasks[|tasks| - 1];
      SelectIncreasing(init, s, member);
      var front := Select(init, s, member);
      forall x | x in front ensures x < last {
        var a :| 0 <= a < |init| && init[a] == x;
        assert tasks[a] == x;
      }
      if (last in s) == member {
        var kept := front + [last];
        assert Select(tasks, s, member) == kept;
        forall a, b | 0 <= a < b < |kept| ensures kept[a] < kept[b] {
          if b == |kept| - 1 {
            assert kept[a] in front;
          }
        }
      }
    }
  }

  /** RemoveAll drops at least one task when at least one listed task has completed. */
  lemma {:induction false} SelectDropsCompleted(tasks: seq<int>, done: set<int>, t: int)
    requires t in tasks && t in done
    ensures |Select(tasks, done, false)| < |tasks|
    decreases |tasks|
  {
    var init, last := tasks[..|tasks| - 1], tasks[|tasks| - 1];
    if last != t {
      assert t in init;
      SelectDropsCompleted(init, done, t);
    }
  }

  lemma {:induction false} NoDupsCard(s: seq<int>)
    requires NoDups(s)
    ensures |Elems(s)| == |s|
    decreases |s|
  {
    if s != [] {
      var init, last := s[..|s| - 1], s[|s| - 1];
      NoDupsCard(init);
      assert Elems(s) == Elems(init) + {last};
      assert last !in Elems(init);
    }
  }

  lemma NoDupsConcat(a: seq<int>, b: seq<int>)
    requires NoDups(a) && NoDups(b) && Elems(a) !! Elems(b)
    ensures NoDups(a + b)
  {
    forall x, y | 0 <= x < y < |a + b| ensures (a + b)[x] != (a + b)[y] {
      if y >= |a| && x < |a| {
        assert (a + b)[x] in Elems(a) && (a + b)[y] in Elems(b);
      }
    }
  }

  lemma {:induction false} IndexRangeCard(n: nat)
    ensures |IndexRange(n)| == n
  {
    if n > 0 {
      var below := IndexRange(n - 1);
      IndexRangeCard(n - 1);
      assert IndexRange(n) == below + {n};
      assert n !in below;
    }
  }

  lemma {:induction false} SubsetCard(a: set<int>, b: set<int>)
    requires a <= b
    ensures |a| <= |b|
    decreases |b|
  {
    if a != {} {
      if forall y :: y !in a {
        assert false;
      }
      var x :| x in a;
      SubsetCard(a - {x}, b - {x});
    }
  }

  lemma IndicesSnoc(i: nat)
    requires i >= 1
    ensures Indices(i) == Indices(i - 1) + [i]
  {
  }

  lemma IndicesElems(n: nat)
    ensures Elems(Indices(n)) == IndexRange(n)
  {
    forall x | x in IndexRange(n) ensures x in Elems(Indices(n)) {
      assert Indices(n)[x - 1] == x;
    }
  }

  /** A duplicate-free list of admitted indices is no longer than the batch. */
  lemma CountBound(saved: seq<int>, counted: set<int>, n: nat, total: int)
    requires NoDups(saved) && Elems(saved) == counted && counted <= Elems(Indices(n)) && n <= total
    ensures |saved| == |counted| <= total
  {
    NoDupsCard(saved);
    IndexRangeCard(total);
    assert counted <= IndexRange(total);
    SubsetCard(counted, IndexRange(total));
  }

  /**
   * Admitting index `i` after 1..i-1 keeps the list in admission order, adds
   * `i` to the admitted indices and leaves it not yet completed.
   */
  lemma AdmitStep(outstanding: seq<int>, completed: set<int>, i: int)
    requires i >= 1 && Increasing(outstanding)
    requires completed + Elems(outstanding) == Elems(Indices(i - 1))
    ensures Increasing(outstanding + [i]) && i !in completed
    ensures completed + Elems(outstanding + [i]) == Elems(Indices(i))
  {
    var below := Indices(i - 1);
    assert forall k :: 0 <= k < |below| ==> below[k] < i;
    assert i !in Elems(below);
    forall a | 0 <= a < |outstanding| ensures outstanding[a] < i {
      assert outstanding[a] in Elems(Indices(i - 1));
    }
    ElemsSnoc(outstanding, i);
    IndicesSnoc(i);
    ElemsSnoc(Indices(i - 1), i);
  }

  /**
   * Transfers ending: with `ending` drawn from the listed transfers not yet
   * completed, the successful ones are appended to the saved list once each.
   */
  lemma EndStep(tasks: seq<int>, ending: set<int>, succeeded: set<int>, savedBefore: seq<int>, completedBefore: set<int>)
    requires Increasing(tasks) && ending <= Elems(tasks) - completedBefore
    requires NoDups(savedBefore) && Elems(savedBefore) == completedBefore * succeeded
    ensures var savedAfter := savedBefore + Select(tasks, ending * succeeded, true);
      && NoDups(savedAfter) && Elems(savedAfter) == (completedBefore + ending) * succeeded
  {
    SelectIncreasing(tasks, ending * succeeded, true);
    var newlySaved := Select(tasks, ending * succeeded, true);
    assert Elems(newlySaved) == ending * succeeded;
    NoDupsConcat(savedBefore, newlySaved);
    assert Elems(savedBefore + newlySaved) == Elems(savedBefore) + Elems(newlySaved);
  }

  /**
   * RemoveAll after a wait: when at least one listed transfer has completed,
   * the list gets shorter, stays in admission order, and loses exactly the
   * completed ones.
   */
  lemma RemoveStep(before: seq<int>, completed: set<int>)
    requires Increasing(before) && Elems(before) * completed != {}
    ensures var after := Select(before, completed, false);
      && Increasing(after) && |after| < |before|
      && completed !! Elems(after)
      && completed + Elems(after) == completed + Elems(before)
  {
    if forall y :: y !in Elems(before) * completed {
      assert false;
    }
    var t :| t in Elems(before) * completed;
    SelectDropsCompleted(before, completed, t);
    SelectIncreasing(before, completed, false);
    var after := Select(before, completed, false);
    assert completed + Elems(after) == completed + Elems(before);
  }

  /** Writing the successful transfers of a newly completed batch after those already written. */
  lemma WithFilesGrow(fs: Fs, dir: string, completed: set<int>, ending: set<int>, succeeded: set<int>)
    requires dir in fs
    ensures WithFiles(WithFiles(fs, dir, completed * succeeded), dir, ending * succeeded)
      == WithFiles(fs, dir, (completed + ending) * succeeded)
  {
    WithFilesTwice(fs, dir, completed * succeeded, ending * succeeded);
    assert completed * succeeded + ending * succeeded == (completed + ending) * succeeded;
  }

  /** The (current, total) pairs the progress sink has received after `n` successful transfers. */
  function ProgressTrace(n: nat, total: int): (trace: seq<(int, int)>)
    ensures |trace| == n
  {
    if n == 0 then [] else ProgressTrace(n - 1, total) + [(n, total)]
  }

  lemma {:induction false} ProgressTraceAt(n: nat, total: int, k: nat)
    requires k < n
    ensures ProgressTrace(n, total)[k] == (k + 1, total)
  {
    if k < n - 1 {
      ProgressTraceAt(n - 1, total, k);
    }
  }

  /** Progress reports count up by one from 1, always with the batch size, and never pass it. */
  lemma ProgressIncreasing(n: nat, total: int)
    requires n <= total
    ensures forall k :: 0 <= k < n ==> 0 < ProgressTrace(n, total)[k].0 <= ProgressTrace(n, total)[k].1 == total
    ensures forall a, b :: 0 <= a < b < n ==> ProgressTrace(n, total)[a].0 < ProgressTrace(n, total)[b].0
  {
    forall k | 0 <= k < n ensures ProgressTrace(n, total)[k] == (k + 1, total) {
      ProgressTraceAt(n, total, k);
    }
  }

  class Program {
    const totalCount: int
    const parallelism: int
    const savePath: string
    var isCancelled: bool
    var downloadedCount: int
    /** Every (current, total) pair handed to the progress sink, in call order. */
    var progress: seq<(int, int)>
    var fs: Fs
    /** downloadTasks: the admitted transfers RemoveAll has not dropped yet, each named by its index. */
    var outstanding: seq<int>
    /** The admitted transfers whose task has completed: the end of DownloadImageAsync has run for them. */
    var completed: set<int>

    /** Indices handed to DownloadImageAsync, in order. */
    ghost var admitted: seq<int>
    /** Indices whose transfer was counted as a success, in the order they were counted. */
    ghost var saved: seq<int>
    /** The largest number of outstanding transfers there has been. */
    ghost var peak: nat

    ghost predicate Valid()
      reads this`downloadedCount, this`saved, this`progress, this`outstanding, this`peak
    {
      && ValidConfig(Config(totalCount, parallelism, savePath))
      && downloadedCount == |saved|
      && progress == ProgressTrace(|saved|, totalCount)
      && |outstanding| <= peak
    }

    /** The state after ReadInput: the configuration is set and every other static field has its initial value. */
    constructor (config: Config, disk: Fs)
      requires ValidConfig(config)
      ensures Valid()
      ensures totalCount == config.totalCount && parallelism == config.parallelism
      ensures savePath == config.savePath && fs == disk
      ensures !isCancelled && downloadedCount == 0 && progress == [] && outstanding == []
      ensures admitted == [] && completed == {} && saved == [] && peak == 0
    {
      totalCount, parallelism, savePath := config.totalCount, config.parallelism, config.savePath;
      isCancelled, downloadedCount, progress, fs, outstanding, completed := false, 0, [], disk, [], {};
      admitted, saved, peak := [], [], 0;
    }

    /**
     * Lines 57-69, once the transfer of `index` has ended; `transferred` says
     * whether DownloadFileTaskAsync completed. A completed transfer into an
     * existing save directory writes `index.png`, then, under the lock, bumps the
     * count and reports the new count with the batch size. Anything else is
     * caught and only logged.
     */
    method DownloadImage(index: int, transferred: bool) returns (counted: bool)
      requires Valid()
      modifies this`downloadedCount, this`progress, this`fs, this`saved
      ensures Valid()
      ensures counted == (transferred && savePath in old(fs))
      ensures counted ==> (
        && downloadedCount == old(downloadedCount) + 1 && saved == old(saved) + [index]
        && progress == old(progress) + [(downloadedCount, totalCount)]
        && fs == old(fs)[savePath := old(fs)[savePath] + {FileName(index)}])
      ensures !counted ==> (
        && downloadedCount == old(downloadedCount) && saved == old(saved)
        && progress == old(progress) && fs == old(fs))
    {
      counted := transferred && savePath in fs;
      if counted {
        fs := fs[savePath := fs[savePath] + {FileName(index)}];
        downloadedCount := downloadedCount + 1;
        progress := progress + [(downloadedCount, totalCount)];
        saved := saved + [index];
      }
    }

    /**
     * The ends of the transfers in `tasks` that are in `ending`, taken in
     * list order: each runs lines 57-69 of DownloadImage with its outcome from
     * `succeeded`.
     */
    method FinishTransfers(tasks: seq<int>, ending: set<int>, succeeded: set<int>)
      requires Valid()
      modifies this`downloadedCount, this`progress, this`fs, this`saved
      ensures Valid()
      ensures savePath in old(fs) ==> (
        && saved == old(saved) + Select(tasks, ending * succeeded, true)
        && fs == WithFiles(old(fs), savePath, Elems(Select(tasks, ending * succeeded, true))))
      ensures savePath !in old(fs) ==> saved == old(saved) && fs == old(fs)
    {
      ghost var live := savePath in fs;
      ghost var wins := ending * succeeded;
      ghost var got: seq<int> := [];
      if live {
        assert Elems(got) == {};
        WithNoFiles(fs, savePath);
      }
      var k := 0;
      while k < |tasks|
        invariant 0 <= k <= |tasks|
        invariant Valid()
        invariant got == Select(tasks[..k], wins, true)
        invariant live ==> savePath in fs && saved == old(saved) + got && fs == WithFiles(old(fs), savePath, Elems(got))
        invariant !live ==> saved == old(saved) && fs == old(fs)
      {
        SelectPrefix(tasks, wins, true, k);
        if tasks[k] in ending {
          var counted := DownloadImage(tasks[k], tasks[k] in succeeded);
          if tasks[k] in succeeded {
            if live {
              ElemsSnoc(got, tasks[k]);
              AppendSnoc(old(saved), got, tasks[k]);
              WithOneMore(old(fs), savePath, Elems(got), tasks[k]);
            }
            got := got + [tasks[k]];
          }
        }
        k := k + 1;
      }
      assert tasks[..k] == tasks;
    }

    /**
     * Lines 53-69 running beside the loop: before an iteration reads the
     * flag, any listed transfers that have not ended yet may end, each running
     * the end of DownloadImage with its outcome from `succeeded`. Which ones
     * end is a free choice, possibly none; the list itself is left as it is.
     */
    method EndTransfers(succeeded: set<int>) returns (ghost ending: set<int>)
      requires Valid()
      modifies this`downloadedCount, this`progress, this`fs, this`saved, this`completed
      ensures Valid()
      ensures ending <= Elems(outstanding) - old(completed) && completed == old(completed) + ending
      ensures savePath in old(fs) ==> (
        && saved == old(saved) + Select(outstanding, ending * succeeded, true)
        && fs == WithFiles(old(fs), savePath, ending * succeeded))
      ensures savePath !in old(fs) ==> saved == old(saved) && fs == old(fs)
    {
      assert {} <= Elems(outstanding) - completed;
      var endingNow: set<int> :| endingNow <= Elems(outstanding) - completed;
      ending := endingNow;
      FinishTransfers(outstanding, endingNow, succeeded);
      assert Elems(Select(outstanding, endingNow * succeeded, true)) == endingNow * succeeded;
      completed := completed + endingNow;
    }

    /**
     * Lines 39-40. `Task.WhenAny` returns once at least one listed transfer
     * has completed; the listed transfers that end during the wait are
     * `ending`, chosen freely. Each of them runs the end of DownloadImage with
     * its outcome from `succeeded`; RemoveAll then drops every completed task
     * from the list, including those that completed before the wait.
     */
    method WaitAny(succeeded: set<int>) returns (ghost ending: set<int>)
      requires Valid() && outstanding != []
      modifies this`downloadedCount, this`progress, this`fs, this`saved, this`outstanding, this`completed
      ensures Valid()
      ensures ending <= Elems(old(outstanding)) - old(completed) && completed == old(completed) + ending
      ensures Elems(old(outstanding)) * completed != {}
      ensures outstanding == Select(old(outstanding), completed, false)
      ensures savePath in old(fs) ==> (
        && saved == old(saved) + Select(old(outstanding), ending * succeeded, true)
        && fs == WithFiles(old(fs), savePath, ending * succeeded))
      ensures savePath !in old(fs) ==> saved == old(saved) && fs == old(fs)
    {
      var tasks := outstanding;
      var first: set<int> := if tasks[0] in completed then {} else {tasks[0]};
      assert first <= Elems(tasks) - completed && tasks[0] in Elems(tasks) * (completed + first);
      var endingNow: set<int> :| endingNow <= Elems(tasks) - completed && Elems(tasks) * (completed + endingNow) != {};
      ending := endingNow;
      FinishTransfers(tasks, endingNow, succeeded);
      assert Elems(Select(tasks, endingNow * succeeded, true)) == endingNow * succeeded;
      completed := completed + endingNow;
      outstanding := Select(tasks, completed, false);
    }

    /** Lines 115-120: delete 1.png .. downloadedCount.png from an existing save directory. */
    method DeleteCounted()
      requires savePath in fs
      modifies this`fs
      ensures savePath in old(fs) && fs == Deleted(old(fs), savePath, downloadedCount)
    {
      var i := 1;
      DeletedNone(fs, savePath, 0);
      while i <= downloadedCount
        invariant 1 <= i <= if downloadedCount >= 1 then downloadedCount + 1 else 1
        invariant savePath in fs && fs == Deleted(old(fs), savePath, i - 1)
      {
        DeletedStep(old(fs)[savePath], i);
        UpdateTwice(old(fs), savePath, fs[savePath], fs[savePath] - {FileName(i)});
        fs := fs[savePath := fs[savePath] - {FileName(i)}];
        i := i + 1;
      }
      if downloadedCount < 1 {
        DeletedNone(old(fs), savePath, downloadedCount);
        DeletedNone(old(fs), savePath, i - 1);
      } else {
        assert i - 1 == downloadedCount;
      }
    }

    /**
     * Lines 113-126: delete 1.png .. downloadedCount.png from the save
     * directory, then remove the directory if no file is left in it. False
     * when the save directory does not exist: then the first File.Delete (or,
     * for a count below 1, Directory.GetFiles) throws before anything is
     * deleted, which the check up front stands for.
     */
    method CleanUp() returns (cleanedUp: bool)
      modifies this`fs
      ensures cleanedUp == (savePath in old(fs))
      ensures fs == CleanUpFs(old(fs), savePath, downloadedCount)
    {
      if savePath !in fs {
        return false;
      }
      DeleteCounted();
      if fs[savePath] == {} {
        RemoveUpdated(old(fs), savePath, fs[savePath]);
        fs := fs - {savePath};
      }
      return true;
    }

    /**
     * Lines 96-102, Ctrl+C: raise the cancelled flag, then clean up. The
     * process is kept alive (`e.Cancel = true`) only when CleanUp returns; when
     * it throws, the exception leaves the handler before `e.Cancel` is read
     * and the process terminates.
     */
    method OnCancelKeyPress() returns (keepRunning: bool, cleanedUp: bool)
      requires Valid()
      modifies this`isCancelled, this`fs
      ensures Valid() && isCancelled
      ensures cleanedUp == (savePath in old(fs)) && keepRunning == cleanedUp
      ensures fs == CleanUpFs(old(fs), savePath, downloadedCount)
    {
      isCancelled := true;
      cleanedUp := CleanUp();
      keepRunning := cleanedUp;
    }

    /** Lines 104-111, process exit: clean up unless Ctrl+C already did. */
    method OnProcessExit() returns (ranCleanUp: bool, cleanedUp: bool)
      modifies this`fs
      ensures ranCleanUp == !isCancelled
      ensures cleanedUp == (ranCleanUp && savePath in old(fs))
      ensures fs == if ranCleanUp then CleanUpFs(old(fs), savePath, downloadedCount) else old(fs)
    {
      ranCleanUp := !isCancelled;
      cleanedUp := false;
      if ranCleanUp {
        cleanedUp := CleanUp();
      }
    }

    /**
     * What the admission loop keeps true once indices 1..n have been handed
     * out: the list is in admission order and below the parallelism bound,
     * every admitted transfer is completed or still listed, and the successful
     * completed ones have each been counted once.
     */
    ghost predicate Admitted(n: nat, succeeded: set<int>)
      reads this`downloadedCount, this`saved, this`progress, this`outstanding, this`peak, this`admitted, this`completed
    {
      && Valid()
      && admitted == Indices(n)
      && Increasing(outstanding)
      && completed + Elems(outstanding) == Elems(admitted)
      && |outstanding| < parallelism && peak <= parallelism
      && NoDups(saved) && Elems(saved) == completed * succeeded
    }

    /** Transfers that end while the loop runs keep its bookkeeping. */
    method LetTransfersEnd(ghost n: nat, succeeded: set<int>, ghost created: Fs)
      requires Admitted(n, succeeded)
      requires savePath in created && fs == WithFiles(created, savePath, completed * succeeded)
      modifies this`downloadedCount, this`progress, this`fs, this`saved, this`completed
      ensures Admitted(n, succeeded) && fs == WithFiles(created, savePath, completed * succeeded)
      ensures old(completed) <= completed
    {
      ghost var savedBefore, completedBefore := saved, completed;
      ghost var ending := EndTransfers(succeeded);
      EndStep(outstanding, ending, succeeded, savedBefore, completedBefore);
      WithFilesGrow(created, savePath, completedBefore, ending, succeeded);
      assert completed + Elems(outstanding) == completedBefore + Elems(outstanding);
    }

    /**
     * Lines 39-40 as the admission loop sees them: after the wait, the list is
     * shorter, still in admission order, and holds no completed transfer; the
     * files of the successful completed ones have been written.
     */
    method AwaitSlot(succeeded: set<int>, ghost created: Fs)
      requires Valid() && outstanding != [] && Increasing(outstanding)
      requires NoDups(saved) && Elems(saved) == completed * succeeded
      requires savePath in created && fs == WithFiles(created, savePath, completed * succeeded)
      modifies this`downloadedCount, this`progress, this`fs, this`saved, this`outstanding, this`completed
      ensures Valid() && |outstanding| < |old(outstanding)| && Increasing(outstanding)
      ensures completed !! Elems(outstanding)
      ensures completed + Elems(outstanding) == old(completed) + Elems(old(outstanding))
      ensures NoDups(saved) && Elems(saved) == completed * succeeded
      ensures fs == WithFiles(created, savePath, completed * succeeded)
      ensures old(completed) <= completed && completed != {}
    {
      ghost var before, savedBefore, completedBefore := outstanding, saved, completed;
      ghost var ending := WaitAny(succeeded);
      EndStep(before, ending, succeeded, savedBefore, completedBefore);
      RemoveStep(before, completed);
      WithFilesGrow(created, savePath, completedBefore, ending, succeeded);
      assert completed + Elems(before) == completedBefore + Elems(before);
    }

    /**
     * Lines 35-41, one iteration that was not cancelled: start the transfer of
     * `i`, then, when the list is full or `i` is the last index, wait for some
     * transfer to complete and drop the completed ones.
     */
    method Admit(i: int, succeeded: set<int>, ghost created: Fs)
      requires 1 <= i <= totalCount && Admitted(i - 1, succeeded)
      requires savePath in created && fs == WithFiles(created, savePath, completed * succeeded)
      modifies this`outstanding, this`admitted, this`peak, this`downloadedCount, this`progress, this`fs, this`saved, this`completed
      ensures Admitted(i, succeeded) && fs == WithFiles(created, savePath, completed * succeeded)
      ensures old(completed) <= completed
      ensures i == totalCount ==> completed != {}
    {
      AdmitStep(outstanding, completed, i);
      IndicesSnoc(i);
      outstanding := outstanding + [i];
      admitted := admitted + [i];
      peak := if |outstanding| > peak then |outstanding| else peak;
      if |outstanding| >= parallelism || i == totalCount {
        AwaitSlot(succeeded, created);
      }
    }

    /**
     * Lines 30-41, one pass of the loop: transfers may end, Ctrl+C arrives
     * when `interruptAt` names this pass, then the flag is read; a pass that
     * sees it raised admits nothing, any other admits `i`.
     */
    method Iteration(i: int, succeeded: set<int>, interruptAt: int, ghost created: Fs)
      requires 1 <= i <= totalCount && !isCancelled && Admitted(i - 1, succeeded)
      requires savePath in created && fs == WithFiles(created, savePath, completed * succeeded)
      modifies this`isCancelled, this`outstanding, this`admitted, this`peak
      modifies this`downloadedCount, this`progress, this`fs, this`saved, this`completed
      ensures isCancelled == (i == interruptAt)
      ensures Admitted(if isCancelled then i - 1 else i, succeeded)
      ensures !isCancelled ==> fs == WithFiles(created, savePath, completed * succeeded)
      ensures isCancelled ==> fs == CleanUpFs(WithFiles(created, savePath, completed * succeeded), savePath, downloadedCount)
      ensures !isCancelled && i == totalCount ==> completed != {}
    {
      LetTransfersEnd(i - 1, succeeded, created);
      if i == interruptAt {
        var _, _ := OnCancelKeyPress();
      }
      if isCancelled {
        return;
      }
      Admit(i, succeeded, created);
    }

    /**
     * Lines 25-44: create the save directory, then admit indices 1..totalCount
     * in order, stopping as soon as the cancelled flag is seen; whenever the
     * list is full, or at the last index, wait for some transfer to complete.
     * Before each iteration reads the flag, any started transfers may end;
     * Ctrl+C, when `interruptAt` names an iteration, arrives just before that
     * iteration reads the flag.
     */
    method Run(succeeded: set<int>, interruptAt: int)
      requires Valid()
      requires !isCancelled && downloadedCount == 0 && outstanding == []
      requires admitted == [] && completed == {} && saved == [] && peak == 0
      modifies this
      ensures Valid()
      ensures isCancelled == (1 <= interruptAt <= totalCount)
      ensures admitted == Indices(if isCancelled then interruptAt - 1 else totalCount)
      ensures !isCancelled ==> completed != {}
      ensures !isCancelled ==> fs == WithFiles(CreateDirectory(old(fs), savePath), savePath, completed * succeeded)
      ensures isCancelled ==>
        fs == CleanUpFs(WithFiles(CreateDirectory(old(fs), savePath), savePath, completed * succeeded), savePath, downloadedCount)
      ensures peak <= parallelism && |outstanding| < parallelism
      ensures Increasing(outstanding)
      ensures completed + Elems(outstanding) == Elems(admitted)
      ensures NoDups(saved) && Elems(saved) == completed * succeeded
      ensures downloadedCount == |completed * succeeded| <= totalCount
    {
      fs := CreateDirectory(fs, savePath);
      ghost var created := fs;
      WithNoFiles(created, savePath);
      assert completed * succeeded == {};
      var i := 1;
      while i <= totalCount
        invariant 1 <= i <= totalCount + 1
        invariant !isCancelled && !(1 <= interruptAt < i)
        invariant Admitted(i - 1, succeeded)
        invariant savePath in created && fs == WithFiles(created, savePath, completed * succeeded)
        invariant i == totalCount + 1 ==> completed != {}
      {
        Iteration(i, succeeded, interruptAt, created);
        if isCancelled {
          break;
        }
        i := i + 1;
      }
      CountBound(saved, completed * succeeded, |admitted|, totalCount);
    }

    /**
     * Main as written, reaching its end without Ctrl+C: the admission loop,
     * then the process exit, whose handler finds the flag down and cleans up
     * the images the run has just saved.
     */
    method MainThenExit(succeeded: set<int>) returns (ranCleanUp: bool)
      requires Valid()
      requires !isCancelled && downloadedCount == 0 && outstanding == []
      requires admitted == [] && completed == {} && saved == [] && peak == 0
      modifies this
      ensures ranCleanUp && !isCancelled && downloadedCount == |completed * succeeded|
      ensures fs == CleanUpFs(WithFiles(CreateDirectory(old(fs), savePath), savePath, completed * succeeded), savePath, downloadedCount)
    {
      Run(succeeded, 0);
      var cleanedUp;
      ranCleanUp, cleanedUp := OnProcessExit();
    }

    /**
     * Waits until every listed transfer has completed: the step Main leaves
     * out after its last index, where it waits for one transfer only.
     */
    method Drain(succeeded: set<int>, ghost created: Fs)
      requires Valid() && Increasing(outstanding)
      requires NoDups(saved) && Elems(saved) == completed * succeeded
      requires savePath in created && fs == WithFiles(created, savePath, completed * succeeded)
      modifies this`downloadedCount, this`progress, this`fs, this`saved, this`outstanding, this`completed
      ensures Valid() && outstanding == []
      ensures completed == old(completed) + Elems(old(outstanding))
      ensures NoDups(saved) && Elems(saved) == completed * succeeded
      ensures fs == WithFiles(created, savePath, completed * succeeded)
    {
      while outstanding != []
        invariant Valid() && Increasing(outstanding)
        invariant completed + Elems(outstanding) == old(completed) + Elems(old(outstanding))
        invariant NoDups(saved) && Elems(saved) == completed * succeeded
        invariant fs == WithFiles(created, savePath, completed * succeeded)
        decreases |outstanding|
      {
        AwaitSlot(succeeded, created);
      }
      assert Elems(outstanding) == {};
    }

    /**
     * Process exit as evidently intended: clean up only when the run neither
     * was cancelled nor `finished` (Main reached its end).
     */
    method OnProcessExitUnlessFinished(finished: bool) returns (ranCleanUp: bool, cleanedUp: bool)
      modifies this`fs
      ensures ranCleanUp == (!isCancelled && !finished)
      ensures cleanedUp == (ranCleanUp && savePath in old(fs))
      ensures ranCleanUp ==> fs == CleanUpFs(old(fs), savePath, downloadedCount)
      ensures !ranCleanUp ==> fs == old(fs)
    {
      ranCleanUp := !isCancelled && !finished;
      cleanedUp := false;
      if ranCleanUp {
        cleanedUp := CleanUp();
      }
    }

    /**
     * The end of an uncancelled run: wait for the remaining transfers, then
     * exit the process without cleaning up.
     */
    method Complete(succeeded: set<int>, ghost created: Fs)
      requires Valid() && Increasing(outstanding)
      requires completed + Elems(outstanding) == IndexRange(totalCount)
      requires NoDups(saved) && Elems(saved) == completed * succeeded
      requires savePath in created && fs == WithFiles(created, savePath, completed * succeeded)
      modifies this`downloadedCount, this`progress, this`fs, this`saved, this`outstanding, this`completed
      ensures Valid() && outstanding == [] && completed == IndexRange(totalCount)
      ensures fs == WithFiles(created, savePath, IndexRange(totalCount) * succeeded)
      ensures downloadedCount == |IndexRange(totalCount) * succeeded|
    {
      Drain(succeeded, created);
      IndicesElems(totalCount);
      CountBound(saved, completed * succeeded, totalCount, totalCount);
      var _, _ := OnProcessExitUnlessFinished(true);
    }

    /**
     * Main as evidently intended: the admission loop, then a wait for every
     * transfer still listed, then a process exit that keeps the images.
     * After Ctrl+C the run ends with the admission loop: neither exit handler
     * cleans up once the cancelled flag is raised.
     * Without Ctrl+C every index has completed and the save directory holds
     * exactly the images of the successful transfers, each counted once.
     */
    method RunToCompletion(succeeded: set<int>, interruptAt: int)
      requires Valid()
      requires !isCancelled && downloadedCount == 0 && outstanding == []
      requires admitted == [] && completed == {} && saved == [] && peak == 0
      modifies this
      ensures Valid()
      ensures isCancelled == (1 <= interruptAt <= totalCount)
      ensures !isCancelled ==> (
        && outstanding == []
        && completed == IndexRange(totalCount)
        && fs == WithFiles(CreateDirectory(old(fs), savePath), savePath, IndexRange(totalCount) * succeeded)
        && downloadedCount == |IndexRange(totalCount) * succeeded|
        && progress == ProgressTrace(downloadedCount, totalCount))
    {
      ghost var created := CreateDirectory(fs, savePath);
      Run(succeeded, interruptAt);
      if !isCancelled {
        IndicesElems(totalCount);
        Complete(succeeded, created);
      }
    }
  }
}
