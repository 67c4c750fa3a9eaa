/**
  The retention loop of the network log (core/network_log.cpp, `clean_logs`):
  indexed log files are visited from the newest back, and removed once the newer
  ones are larger than the limit.
 */
module LogRetention {

  /** A log file by its index; it may have vanished since the directory was read. */
  datatype LogFile = LogFile(index: int, present: bool, size: nat)

  function Bytes(f: LogFile): (n: nat)
  {
    if f.present then f.size else 0
  }

  function Total(files: seq<LogFile>): (n: nat)
  {
    if files == [] then 0 else Bytes(files[0]) + Total(files[1..])
  }

  /** The sizes of the files that are there, summed from the newest back. */
  ghost function SumOfSizes(files: seq<LogFile>): nat {
    if files == [] then 0
    else
      var newest := files[|files| - 1];
      SumOfSizes(files[..|files| - 1]) + (if newest.present then newest.size else 0)
  }

  lemma {:induction false} SumOfCons(f: LogFile, files: seq<LogFile>)
    ensures SumOfSizes([f] + files) == (if f.present then f.size else 0) + SumOfSizes(files)
  {
    var all := [f] + files;
    if files == [] {
      assert all[..0] == [];
    } else {
      SumOfCons(f, files[..|files| - 1]);
      assert all[..|all| - 1] == [f] + files[..|files| - 1];
    }
  }

  lemma {:induction false} TotalIsSum(files: seq<LogFile>)
    ensures Total(files) == SumOfSizes(files)
  {
    if files != [] {
      TotalIsSum(files[1..]);
      SumOfCons(files[0], files[1..]);
      assert files == [files[0]] + files[1..];
    }
  }

  /** The files at these positions, in order. */
  function Survivors(files: seq<LogFile>, maxSize: nat): (r: seq<LogFile>)
  {
    if files == [] then []
    else (if files[0].present && Total(files[1..]) <= maxSize then [files[0]] else []) + Survivors(files[1..], maxSize)
  }

  lemma {:induction false} TotalOfSurvivors(files: seq<LogFile>, maxSize: nat)
    ensures Total(files) <= maxSize ==> Total(Survivors(files, maxSize)) == Total(files)
    ensures Total(Survivors(files, maxSize)) <= Total(files)
    ensures Total(files) > maxSize ==> Total(Survivors(files, maxSize)) > maxSize
  {
    if files != [] {
      TotalOfSurvivors(files[1..], maxSize);
      var rest := Survivors(files[1..], maxSize);
      if files[0].present && Total(files[1..]) <= maxSize {
        assert ([files[0]] + rest)[1..] == rest;
      } else {
        assert [] + rest == rest;
      }
    }
  }

  /**
    `clean_logs` over the files in index order: a file is kept exactly when the
    files newer than it total at most the limit.
   */
  method CleanLogs(files: seq<LogFile>, maxSize: nat) returns (kept: seq<LogFile>)
    ensures kept == Survivors(files, maxSize)
    ensures forall f :: f in kept <==> exists i :: Stays(files, maxSize, i, f)
  {
    kept := [];
    var size := 0;
    var i := |files|;
    while i > 0
      invariant 0 <= i <= |files|
      invariant kept == Survivors(files[i..], maxSize) && size == Total(kept)
    {
      i := i - 1;
      var f := files[i];
      assert files[i..] == [f] + files[i + 1..];
      TotalOfSurvivors(files[i + 1..], maxSize);
      if f.present {
        if size > maxSize {
          // removed
        } else {
          size := size + f.size;
          kept := [f] + kept;
          assert kept[1..] == Survivors(files[i + 1..], maxSize);
        }
      }
    }
    assert files[0..] == files;
    SurvivorsStay(files, maxSize);
  }

  /** The file at `i` is there, and the files newer than it sum up to at most the limit. */
  ghost predicate Stays(files: seq<LogFile>, maxSize: nat, i: int, f: LogFile) {
    0 <= i < |files| && files[i] == f && f.present && SumOfSizes(files[i + 1..]) <= maxSize
  }

  lemma {:induction false} SurvivorsStay(files: seq<LogFile>, maxSize: nat)
    ensures forall f :: f in Survivors(files, maxSize) <==> exists i :: Stays(files, maxSize, i, f)
  {
    if files != [] {
      var rest := files[1..];
      SurvivorsStay(rest, maxSize);
      TotalIsSum(rest);
      forall f, i | Stays(rest, maxSize, i, f) ensures Stays(files, maxSize, i + 1, f) {
        assert files[i + 2..] == rest[i + 1..];
      }
      forall f, i | Stays(files, maxSize, i, f) && i > 0 ensures Stays(rest, maxSize, i - 1, f) {
        assert files[i + 1..] == rest[i..];
      }
      var one := if files[0].present && Total(rest) <= maxSize then [files[0]] else [];
      forall f ensures f in one <==> Stays(files, maxSize, 0, f) {}
      assert Survivors(files, maxSize) == one + Survivors(rest, maxSize);
    }
  }

  function Existing(files: seq<LogFile>): (r: seq<LogFile>)
  {
    if files == [] then [] else (if files[0].present then [files[0]] else []) + Existing(files[1..])
  }

  lemma {:induction false} AllSurvive(files: seq<LogFile>, maxSize: nat)
    requires Total(files) <= maxSize
    ensures Survivors(files, maxSize) == Existing(files)
  {
    if files != [] { AllSurvive(files[1..], maxSize); }
  }

  lemma {:induction false} TotalOfExisting(files: seq<LogFile>)
    ensures Total(Existing(files)) == Total(files)
  {
    if files != [] {
      TotalOfExisting(files[1..]);
      var rest := Existing(files[1..]);
      assert ([files[0]] + rest)[1..] == rest && [] + rest == rest;
    }
  }

  /**
    The survivors are the newest existing files, all from some position on; when
    anything older was removed they exceed the limit, and by no more than the
    size of the oldest of them.
   */
  lemma {:induction false} SurvivorsAreNewest(files: seq<LogFile>, maxSize: nat) returns (from: nat)
    ensures from <= |files| && Survivors(files, maxSize) == Existing(files[from..])
    ensures Total(Survivors(files, maxSize)) == Total(files[from..]) && (from > 0 ==> Total(files[from..]) > maxSize)
    ensures var s := Survivors(files, maxSize); s != [] ==> Total(s) <= maxSize + s[0].size
  {
    if files == [] {
      from := 0;
    } else if Total(files[1..]) <= maxSize {
      from := 0;
      AllSurvive(files[1..], maxSize);
      TotalOfExisting(files);
      TotalOfExisting(files[1..]);
      assert files[0..] == files;
    } else {
      var j := SurvivorsAreNewest(files[1..], maxSize);
      from := j + 1;
      assert files[1..][j..] == files[from..];
      assert [] + Survivors(files[1..], maxSize) == Survivors(files[1..], maxSize);
    }
  }

  /** The order of the loop: `std::map` by index. */
  predicate ByIndex(files: seq<LogFile>) {
    forall i, j :: 0 <= i < j < |files| ==> files[i].index < files[j].index
  }

  /** Every file that stays has a higher index than every file that is removed. */
  lemma RemovedAreOlder(files: seq<LogFile>, maxSize: nat, kept: LogFile, removed: LogFile)
    requires ByIndex(files) && kept in Survivors(files, maxSize)
    requires removed in files && removed.present && removed !in Survivors(files, maxSize)
    ensures removed.index < kept.index
  {
    var from := SurvivorsAreNewest(files, maxSize);
    ExistingAre(files[from..]);
    forall i | from <= i < |files| ensures files[i] in files[from..] {
      assert files[from..][i - from] == files[i];
    }
    var i :| 0 <= i < |files| && files[i] == removed;
    var j :| 0 <= j < |files[from..]| && files[from..][j] == kept;
    assert files[from + j] == kept;
  }

  lemma {:induction false} ExistingAre(files: seq<LogFile>)
    ensures forall f :: f in Existing(files) <==> f in files && f.present
  {
    if files != [] {
      ExistingAre(files[1..]);
      assert forall f :: f in files <==> f == files[0] || f in files[1..];
    }
  }
}
