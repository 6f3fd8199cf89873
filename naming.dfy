/**
 * Destination file names. The download of index `i` and the cleanup of index `i`
 * both use the name `"{i}.png"` inside the save directory.
 */
module Naming {
  import opened Decimal

  const Extension := ".png"

  /** `$"{index}.png"` */
  function FileName(index: int): (name: string)
    ensures |name| > |Extension| && name[|name| - |Extension|..] == Extension
  {
    IntString(index) + Extension
  }

  /** Two indices share a file name only when they are the same index. */
  lemma FileNameInjective(i: int, j: int)
    ensures FileName(i) == FileName(j) <==> i == j
  {
    if FileName(i) == FileName(j) {
      var a, b := FileName(i), FileName(j);
      assert IntString(i) == a[..|a| - |Extension|];
      assert IntString(j) == b[..|b| - |Extension|];
      IntStringInjective(i, j);
    }
  }

  /** The names of the files of every index in `indices`. */
  function FileNames(indices: set<int>): (names: set<string>)
    ensures forall i :: i in indices ==> FileName(i) in names
  {
    set i | i in indices :: FileName(i)
  }

  /** The file of `i` is among the files of `indices` exactly when `i` is one of them. */
  lemma FileNamesMember(i: int, indices: set<int>)
    ensures FileName(i) in FileNames(indices) <==> i in indices
  {
    if FileName(i) in FileNames(indices) {
      var j :| j in indices && FileName(i) == FileName(j);
      FileNameInjective(i, j);
    }
  }

  lemma FileNamesUnion(a: set<int>, b: set<int>)
    ensures FileNames(a + b) == FileNames(a) + FileNames(b)
  {
    forall f | f in FileNames(a + b) ensures f in FileNames(a) + FileNames(b) {
      var i :| i in a + b && f == FileName(i);
    }
  }

  lemma FileNamesSingleton(i: int)
    ensures FileNames({i}) == {FileName(i)}
  {
    FileNamesMember(i, {i});
    forall f | f in FileNames({i}) ensures f == FileName(i) {
    }
  }

  lemma FileNamesEmpty()
    ensures FileNames({}) == {}
  {
  }

  /** The indices `1..n`, the range the cleanup walks. */
  function IndexRange(n: int): (r: set<int>)
    ensures forall i :: i in r <==> 1 <= i <= n
    decreases if n < 0 then 0 else n
  {
    if n < 1 then {} else IndexRange(n - 1) + {n}
  }

  /** `1.png .. n.png` */
  function FileNamesUpTo(n: int): (names: set<string>)
  {
    FileNames(IndexRange(n))
  }

  lemma FileNamesUpToMember(i: int, n: int)
    ensures FileName(i) in FileNamesUpTo(n) <==> 1 <= i <= n
  {
    FileNamesMember(i, IndexRange(n));
  }

  lemma FileNamesUpToStep(n: int)
    requires n >= 1
    ensures FileNamesUpTo(n) == FileNamesUpTo(n - 1) + {FileName(n)}
  {
    assert IndexRange(n) == IndexRange(n - 1) + {n};
  }
}
