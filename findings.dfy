/**
 * Three places where the downloader does not do what it evidently means to,
 * each shown on a concrete input next to the corrected behaviour.
 */
module Findings {
  import opened Decimal
  import opened Naming
  import opened FileSystem
  import opened Downloader

  /**
   * The process-exit handler also runs when Main returns normally, and then
   * the flag it tests is still down (`Program.OnProcessExit`). After a batch
   * of n images that all succeeded, its cleanup deletes every image and the
   * directory Main created: the disk is as it was before the run.
   */
  lemma NormalExitErasesBatch(before: Fs, dir: string, n: nat)
    requires dir !in before
    ensures CleanUpFs(WithFiles(CreateDirectory(before, dir), dir, IndexRange(n)), dir, n) == before
  {
    var created := CreateDirectory(before, dir);
    var written := WithFiles(created, dir, IndexRange(n));
    FileNamesEmpty();
    assert written[dir] - FileNamesUpTo(n) == {};
    assert CleanUpFs(written, dir, n) == written - {dir};
    assert written - {dir} == before;
  }

  /**
   * CleanUp deletes 1.png .. downloadedCount.png, but downloadedCount counts
   * successes, not indices. With index 1 failed and index 2 saved the count
   * is 1: 1.png is deleted (it does not exist), 2.png and its directory stay.
   */
  lemma CountCleanUpMissesFile()
    ensures var written := WithFiles(CreateDirectory(map[], "./outputs"), "./outputs", {2});
      CleanUpFs(written, "./outputs", 1) == map["./outputs" := {"2.png"}]
  {
    var dir := "./outputs";
    assert IntString(2) == "2";
    assert FileName(2) == "2.png";
    FileNamesSingleton(2);
    FileNamesUpToMember(2, 1);
    var written := WithFiles(CreateDirectory(map[], dir), dir, {2});
    assert written[dir] == {"2.png"};
    assert written[dir] - FileNamesUpTo(1) == {"2.png"};
  }

  /** Cleanup by the indices whose images were saved, as CleanUp evidently means. */
  function CleanUpSavedFs(fs: Fs, dir: string, saved: set<int>): Fs {
    RemoveFiles(fs, dir, FileNames(saved))
  }

  /**
   * Cleaning up by the saved indices undoes the run whatever transfers
   * failed: the save directory Main created and every image in it are gone.
   */
  lemma SavedCleanUpRestores(before: Fs, dir: string, saved: set<int>)
    requires dir !in before
    ensures CleanUpSavedFs(WithFiles(CreateDirectory(before, dir), dir, saved), dir, saved) == before
  {
    var written := WithFiles(CreateDirectory(before, dir), dir, saved);
    assert written[dir] - FileNames(saved) == {};
    assert written - {dir} == before;
  }

  /**
   * Main waits for any one transfer at the last index, not for all of them.
   * With two images and room for three, index 2 is admitted last; Task.WhenAny
   * may return with only transfer 1 completed (a choice `Program.WaitAny`
   * allows), RemoveAll leaves transfer 2 in the list, and the loop is over.
   */
  lemma LastWaitMayLeaveTransfers()
    ensures var completed := {1};
      && Elems([1, 2]) * completed != {}
      && Select([1, 2], completed, false) == [2]
  {
    assert 1 in Elems([1, 2]) * {1};
    assert [1, 2][..1] == [1];
    assert Select([1], {1}, false) == [];
  }
}
