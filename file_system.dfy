/**
 * The part of the filesystem the downloader touches: each existing directory
 * path mapped to the names of the files directly inside it. A path that is not
 * a key is a directory that does not exist.
 */
module FileSystem {
  import opened Naming

  type Fs = map<string, set<string>>

  /** Directory.CreateDirectory: makes an empty directory, or keeps an existing one as it is. */
  function CreateDirectory(fs: Fs, dir: string): (r: Fs)
    ensures dir in r && r.Keys == fs.Keys + {dir}
    ensures dir in fs ==> r[dir] == fs[dir]
    ensures dir !in fs ==> r[dir] == {}
    ensures forall d :: d in fs ==> r[d] == fs[d]
  {
    if dir in fs then fs else fs[dir := {}]
  }

  /** The directory `dir` once the files of `indices` have been written into it. */
  function WithFiles(fs: Fs, dir: string, indices: set<int>): Fs
    requires dir in fs
  {
    fs[dir := fs[dir] + FileNames(indices)]
  }

  /** Writing two batches of files one after the other is writing their union. */
  lemma WithFilesTwice(fs: Fs, dir: string, a: set<int>, b: set<int>)
    requires dir in fs
    ensures WithFiles(WithFiles(fs, dir, a), dir, b) == WithFiles(fs, dir, a + b)
  {
    FileNamesUnion(a, b);
    assert fs[dir] + FileNames(a) + FileNames(b) == fs[dir] + FileNames(a + b);
  }

  /** Writing one more file after a batch is writing the batch with that index added. */
  lemma WithOneMore(fs: Fs, dir: string, a: set<int>, i: int)
    requires dir in fs
    ensures var w := WithFiles(fs, dir, a); w[dir := w[dir] + {FileName(i)}] == WithFiles(fs, dir, a + {i})
  {
    FileNamesSingleton(i);
    WithFilesTwice(fs, dir, a, {i});
  }

  lemma WithNoFiles(fs: Fs, dir: string)
    requires dir in fs
    ensures WithFiles(fs, dir, {}) == fs
  {
    FileNamesEmpty();
    assert fs[dir] + FileNames({}) == fs[dir];
  }

  /** The directory `dir` once 1.png .. count.png have been deleted from it. */
  function Deleted(fs: Fs, dir: string, count: int): Fs
    requires dir in fs
  {
    fs[dir := fs[dir] - FileNamesUpTo(count)]
  }

  lemma DeletedNone(fs: Fs, dir: string, count: int)
    requires dir in fs && count < 1
    ensures Deleted(fs, dir, count) == fs
  {
    assert IndexRange(count) == {};
    FileNamesEmpty();
    assert fs[dir] - FileNamesUpTo(count) == fs[dir];
  }

  lemma UpdateTwice(fs: Fs, dir: string, a: set<string>, b: set<string>)
    ensures fs[dir := a][dir := b] == fs[dir := b]
  {
  }

  lemma RemoveUpdated(fs: Fs, dir: string, a: set<string>)
    ensures fs[dir := a] - {dir} == fs - {dir}
  {
  }

  /** Deleting count.png after 1.png .. (count-1).png is deleting 1.png .. count.png. */
  lemma DeletedStep(files: set<string>, count: int)
    requires count >= 1
    ensures files - FileNamesUpTo(count - 1) - {FileName(count)} == files - FileNamesUpTo(count)
  {
    var before, one := FileNamesUpTo(count - 1), {FileName(count)};
    FileNamesUpToStep(count);
    assert files - before - one == files - (before + one);
  }

  /**
   * Deleting the files `names` from `dir`, then removing `dir` if no file is
   * left in it. When `dir` does not exist, nothing changes.
   */
  function RemoveFiles(fs: Fs, dir: string, names: set<string>): (r: Fs)
    ensures dir !in fs ==> r == fs
    ensures dir in fs ==> (dir in r <==> fs[dir] - names != {})
    ensures dir in fs && dir in r ==> r[dir] == fs[dir] - names
  {
    if dir !in fs then fs
    else
      var rest := fs[dir] - names;
      if rest == {} then fs - {dir} else fs[dir := rest]
  }

  /**
   * What CleanUp leaves behind: 1.png .. count.png removed from `dir`, then
   * `dir` itself if it is left empty. When `dir` does not exist, the first
   * File.Delete (or, for a count below 1, Directory.GetFiles) throws and
   * nothing changes.
   */
  function CleanUpFs(fs: Fs, dir: string, count: int): Fs {
    RemoveFiles(fs, dir, FileNamesUpTo(count))
  }

  /** Cleanup touches the save directory only: every other directory keeps its files. */
  lemma CleanUpKeepsOtherDirectories(fs: Fs, dir: string, count: int, d: string)
    requires d != dir
    ensures d in CleanUpFs(fs, dir, count) <==> d in fs
    ensures d in fs ==> CleanUpFs(fs, dir, count)[d] == fs[d]
  {
  }

  /**
   * Cleanup by index: `i.png` is gone after cleanup exactly when `i` lies in
   * 1..count; the file of any other index stays as it was.
   */
  lemma CleanUpByIndex(fs: Fs, dir: string, count: int, i: int)
    requires dir in fs
    ensures var r := CleanUpFs(fs, dir, count);
      && (1 <= i <= count ==> dir !in r || FileName(i) !in r[dir])
      && (!(1 <= i <= count) && FileName(i) in fs[dir] ==> dir in r && FileName(i) in r[dir])
  {
    FileNamesUpToMember(i, count);
    if !(1 <= i <= count) && FileName(i) in fs[dir] {
      assert FileName(i) in fs[dir] - FileNamesUpTo(count);
    }
  }

  /** The save directory is removed exactly when every file in it was one of 1.png .. count.png. */
  lemma CleanUpRemovesDirectoryIff(fs: Fs, dir: string, count: int)
    requires dir in fs
    ensures dir !in CleanUpFs(fs, dir, count) <==> fs[dir] <= FileNamesUpTo(count)
  {
    var rest := fs[dir] - FileNamesUpTo(count);
    if fs[dir] <= FileNamesUpTo(count) {
      assert rest == {};
    } else {
      var f :| f in fs[dir] && f !in FileNamesUpTo(count);
      assert f in rest;
    }
  }

  /** Cleaning up a second time with the same count changes nothing more. */
  lemma CleanUpIdempotent(fs: Fs, dir: string, count: int)
    ensures CleanUpFs(CleanUpFs(fs, dir, count), dir, count) == CleanUpFs(fs, dir, count)
  {
    var once := CleanUpFs(fs, dir, count);
    if dir in once {
      var rest := once[dir];
      assert rest - FileNamesUpTo(count) == rest;
    }
  }
}
