/**
  The log attached to feedback (core/utils.cpp, `create_feedback_logs_archive`):
  the end of the network log is collected from the log files, newest first, and
  the pieces are put together for the archive.
 */
module FeedbackLog {
  import opened Sequences

  const NUL: char := '\0'

  /** All log data in the order it was written; a file that no longer exists adds nothing. */
  function History(files: seq<Option<string>>): (s: string)
  {
    if files == [] then ""
    else History(files[..|files| - 1]) + match files[|files| - 1] case None => "" case Some(data) => data
  }

  function Min(a: nat, b: nat): (m: nat)
  {
    if a < b then a else b
  }

  /** The last `n` bytes. */
  function Tail(s: string, n: nat): (r: string)
    requires n <= |s|
  {
    s[|s| - n..]
  }

  /** The chunks of a stack from the top down, put one behind the other. */
  function FromTop(stack: seq<string>): (s: string)
  {
    if stack == [] then "" else stack[|stack| - 1] + FromTop(stack[..|stack| - 1])
  }

  /** How many files the last `limit` bytes come from. */
  function FilesNeeded(files: seq<Option<string>>, limit: nat): (n: nat)
  {
    if files == [] || limit == 0 then 0
    else
      var size := match files[|files| - 1] case None => 0 case Some(data) => |data|;
      (if size > 0 then 1 else 0) + FilesNeeded(files[..|files| - 1], limit - Min(size, limit))
  }

  predicate NoneEmpty(chunks: seq<string>) {
    forall i :: 0 <= i < |chunks| ==> chunks[i] != ""
  }

  /** `stack::push`. */
  function Push(chunks: seq<string>, chunk: string): (r: seq<string>)
    ensures FromTop(r) == chunk + FromTop(chunks) && |r| == |chunks| + 1
    ensures chunk != "" && NoneEmpty(chunks) ==> NoneEmpty(r)
  {
    assert (chunks + [chunk])[..|chunks|] == chunks;
    chunks + [chunk]
  }

  /** What is wanted of the chunks: the end of the log, up to the limit, in nonempty pieces. */
  ghost predicate Collected(files: seq<Option<string>>, limit: nat, chunks: seq<string>, sizeLeft: nat) {
    && FromTop(chunks) == Tail(History(files), Min(limit, |History(files)|))
    && sizeLeft == limit - |FromTop(chunks)|
    && |chunks| == FilesNeeded(files, limit) && NoneEmpty(chunks)
  }

  /** On the way there, with the files of `names` still to visit. */
  ghost predicate Collecting(files: seq<Option<string>>, limit: nat, names: seq<Option<string>>, chunks: seq<string>,
                             sizeLeft: nat)
  {
    && History(files) == History(names) + FromTop(chunks)
    && sizeLeft == limit - |FromTop(chunks)|
    && |chunks| + FilesNeeded(names, sizeLeft) == FilesNeeded(files, limit) && NoneEmpty(chunks)
  }

  lemma CollectingStarts(files: seq<Option<string>>, limit: nat)
    ensures Collecting(files, limit, files, [], limit)
  {
    assert History(files) + "" == History(files);
  }

  lemma CollectingEnds(files: seq<Option<string>>, limit: nat, chunks: seq<string>, sizeLeft: nat)
    requires Collecting(files, limit, [], chunks, sizeLeft)
    ensures Collected(files, limit, chunks, sizeLeft)
  {
    assert History(files) == FromTop(chunks);
    assert Tail(History(files), |History(files)|) == History(files);
  }

  /** A file that is gone. */
  lemma MissingFile(files: seq<Option<string>>, limit: nat, names: seq<Option<string>>, chunks: seq<string>,
                    sizeLeft: nat)
    requires Collecting(files, limit, names, chunks, sizeLeft) && names != [] && names[|names| - 1].None?
    ensures Collecting(files, limit, names[..|names| - 1], chunks, sizeLeft)
  {
    HistoryWithout(names);
    CountWithout(names, sizeLeft);
  }

  lemma HistoryWithout(names: seq<Option<string>>)
    requires names != [] && names[|names| - 1].None?
    ensures History(names) == History(names[..|names| - 1])
  {
    assert History(names) == History(names[..|names| - 1]) + "";
  }

  lemma CountWithout(names: seq<Option<string>>, sizeLeft: nat)
    requires names != [] && names[|names| - 1].None?
    ensures FilesNeeded(names, sizeLeft) == FilesNeeded(names[..|names| - 1], sizeLeft)
  {
    NothingNeeded(names[..|names| - 1]);
  }

  /** What is read of a file when `sizeLeft` bytes are still wanted. */
  function Part(data: string, sizeLeft: nat): (r: string)
  {
    data[|data| - Min(|data|, sizeLeft)..]
  }

  /** The stack once that part was pushed, unless it is empty. */
  function WithPart(chunks: seq<string>, data: string, sizeLeft: nat): (r: seq<string>)
    ensures FromTop(r) == Part(data, sizeLeft) + FromTop(chunks)
    ensures |r| == |chunks| + (if Part(data, sizeLeft) != "" then 1 else 0)
    ensures NoneEmpty(chunks) ==> NoneEmpty(r)
  {
    if Part(data, sizeLeft) != "" then Push(chunks, Part(data, sizeLeft)) else chunks
  }

  lemma PartCounts(names: seq<Option<string>>, data: string, sizeLeft: nat)
    requires names != [] && names[|names| - 1] == Some(data)
    ensures FilesNeeded(names, sizeLeft)
         == (if Part(data, sizeLeft) != "" then 1 else 0)
          + FilesNeeded(names[..|names| - 1], sizeLeft - |Part(data, sizeLeft)|)
  {}

  /** A file all of which is read, while more is wanted. */
  lemma WholeFile(files: seq<Option<string>>, limit: nat, names: seq<Option<string>>, chunks: seq<string>,
                  sizeLeft: nat, data: string)
    requires Collecting(files, limit, names, chunks, sizeLeft)
    requires names != [] && names[|names| - 1] == Some(data) && |data| < sizeLeft
    ensures Collecting(files, limit, names[..|names| - 1], WithPart(chunks, data, sizeLeft), sizeLeft - |data|)
  {
    HistoryBefore(names, data);
    PartCounts(names, data, sizeLeft);
    assert Part(data, sizeLeft) == data;
    Regrouped(History(names[..|names| - 1]), data, FromTop(chunks));
  }

  lemma HistoryBefore(names: seq<Option<string>>, data: string)
    requires names != [] && names[|names| - 1] == Some(data)
    ensures History(names) == History(names[..|names| - 1]) + data
  {}

  lemma Regrouped(front: string, data: string, have: string)
    ensures (front + data) + have == front + (data + have)
  {}

  /** The file whose end completes the limit. */
  lemma LastFile(files: seq<Option<string>>, limit: nat, names: seq<Option<string>>, chunks: seq<string>,
                 sizeLeft: nat, data: string)
    requires Collecting(files, limit, names, chunks, sizeLeft)
    requires names != [] && names[|names| - 1] == Some(data) && sizeLeft <= |data|
    ensures Collected(files, limit, WithPart(chunks, data, sizeLeft), 0)
  {
    HistoryBefore(names, data);
    EndOfWhole(History(files), History(names[..|names| - 1]), data, FromTop(chunks), sizeLeft, limit);
    PartCounts(names, data, sizeLeft);
    NothingNeeded(names[..|names| - 1]);
  }

  /** With all of `have` behind it, the end of `data` completes the last `limit` bytes. */
  lemma EndOfWhole(whole: string, front: string, data: string, have: string, n: nat, limit: nat)
    requires whole == (front + data) + have && n <= |data| && limit == n + |have|
    ensures |Part(data, n)| == n && Min(limit, |whole|) == limit
    ensures Part(data, n) + have == Tail(whole, limit)
  {}

  lemma NothingNeeded(names: seq<Option<string>>)
    ensures FilesNeeded(names, 0) == 0
  {}

  /**
    The collecting loop: the chunks, oldest on top, are together exactly the end
    of the log, up to the limit, whatever the number and the sizes of the files.
   */
  method CollectChunks(files: seq<Option<string>>, limit: nat) returns (chunks: seq<string>, sizeLeft: nat)
    ensures FromTop(chunks) == Tail(History(files), Min(limit, |History(files)|))
    ensures sizeLeft == limit - |FromTop(chunks)|
    ensures |chunks| == FilesNeeded(files, limit) && NoneEmpty(chunks)
  {
    chunks, sizeLeft := [], limit;
    var names := files;
    CollectingStarts(files, limit);
    while names != []
      invariant Collecting(files, limit, names, chunks, sizeLeft)
      decreases |names|
    {
      var top := names[|names| - 1];
      if top.Some? {
        var last;
        chunks, sizeLeft, last := ReadFile(files, limit, names, chunks, sizeLeft, top.value);
        if last {
          return;
        }
      } else {
        MissingFile(files, limit, names, chunks, sizeLeft);
      }
      names := names[..|names| - 1];
    }
    CollectingEnds(files, limit, chunks, sizeLeft);
  }

  /** The body of that loop for a file that exists; `last` says that the limit is reached. */
  method ReadFile(ghost files: seq<Option<string>>, ghost limit: nat, ghost names: seq<Option<string>>,
                  before: seq<string>, left: nat, data: string)
    returns (chunks: seq<string>, sizeLeft: nat, last: bool)
    requires Collecting(files, limit, names, before, left) && names != [] && names[|names| - 1] == Some(data)
    ensures if last then Collected(files, limit, chunks, sizeLeft)
      else Collecting(files, limit, names[..|names| - 1], chunks, sizeLeft)
  {
    var amount := if |data| - left < 0 then |data| else left;
    if amount < left {
      WholeFile(files, limit, names, before, left, data);
    } else {
      LastFile(files, limit, names, before, left, data);
    }
    chunks := before;
    if amount > 0 {
      chunks := Push(chunks, data[|data| - amount..]);
    }
    sizeLeft := left - amount;
    last := sizeLeft == 0;
  }

  // ---------------------------------------------------------------- putting the chunks together

  ghost function Sizes(chunks: seq<string>): nat {
    if chunks == [] then 0 else |chunks[|chunks| - 1]| + Sizes(chunks[..|chunks| - 1])
  }

  lemma {:induction false} SizesOfTop(chunks: seq<string>)
    ensures |FromTop(chunks)| == Sizes(chunks)
  {
    if chunks != [] { SizesOfTop(chunks[..|chunks| - 1]); }
  }

  /** A chunk and the one below it, with others beside them, are less than the whole. */
  lemma {:induction false} TwoOfMany(chunks: seq<string>, i: nat)
    requires i < |chunks| && NoneEmpty(chunks)
    ensures |chunks[i]| + (if i + 1 < |chunks| then |chunks[i + 1]| else 0) <= Sizes(chunks)
    ensures |chunks| > 2 ==> |chunks[i]| + (if i + 1 < |chunks| then |chunks[i + 1]| else 0) < Sizes(chunks)
    ensures |chunks| >= 2 ==> |chunks[i]| < Sizes(chunks)
  {
    var n := |chunks| - 1;
    var front := chunks[..n];
    if i < n {
      TwoOfMany(front, i);
    } else if n > 0 {
      TwoOfMany(front, 0);
    }
  }

  lemma SmallStack(chunks: seq<string>)
    ensures |chunks| == 1 ==> FromTop(chunks) == chunks[0]
    ensures |chunks| == 2 ==> FromTop(chunks) == chunks[1] + chunks[0]
  {
    if |chunks| == 2 {
      assert chunks[..1] == [chunks[0]] && [chunks[0]][..0] == [];
    }
  }

  /**
    The copying loop: each chunk goes to the offset given by the size of the one
    before it alone. With at most two chunks the result is the chunks in order;
    with more the last byte is never written.
   */
  method Assemble(chunks: seq<string>, size: nat) returns (log: array<char>)
    requires size == |FromTop(chunks)| && NoneEmpty(chunks)
    ensures fresh(log) && log.Length == size
    ensures |chunks| <= 2 ==> log[..] == FromTop(chunks)
    ensures |chunks| > 2 ==> size > 0 && log[size - 1] == NUL
  {
    log := new char[size](_ => NUL);
    var previous := 0;
    var left := |chunks|;
    SizesOfTop(chunks);
    SmallStack(chunks);
    if chunks != [] { TwoOfMany(chunks, 0); }
    while left > 0
      invariant 0 <= left <= |chunks|
      invariant previous == if left == |chunks| then 0 else |chunks[left]|
      invariant |chunks| > 2 ==> log[size - 1] == NUL
      invariant |chunks| == 1 && left == 0 ==> log[..] == chunks[0]
      invariant |chunks| == 2 && left < 2 ==> log[..|chunks[1]|] == chunks[1]
      invariant |chunks| == 2 && left == 0 ==> log[..] == chunks[1] + chunks[0]
    {
      TwoOfMany(chunks, left - 1);
      var chunk := chunks[left - 1];
      forall k | 0 <= k < |chunk| {
        log[previous + k] := chunk[k];
      }
      previous := |chunk|;
      left := left - 1;
    }
  }

  /**
    The whole of it: the end of the log, up to the limit. The chunks collected
    are always right, and so is the text put together from them when they come
    from at most two files. From three files on its last byte is never written,
    so that for a log without zero bytes it is wrong.
   */
  method CreateFeedbackLog(files: seq<Option<string>>, limit: nat) returns (log: array<char>)
    ensures log.Length == Min(limit, |History(files)|)
    ensures FilesNeeded(files, limit) <= 2 ==> log[..] == Tail(History(files), Min(limit, |History(files)|))
    ensures FilesNeeded(files, limit) > 2 ==> log.Length > 0 && log[log.Length - 1] == NUL
    ensures NUL !in History(files) ==>
      (log[..] == Tail(History(files), Min(limit, |History(files)|)) <==> FilesNeeded(files, limit) <= 2)
  {
    var chunks, left := CollectChunks(files, limit);
    log := Assemble(chunks, limit - left);
    if |chunks| > 2 {
      assert log[..][|log[..]| - 1] == NUL;
      assert NUL !in History(files) ==> NUL !in Tail(History(files), Min(limit, |History(files)|));
    }
  }

  /** The failing input: three files of one byte each, all wanted. */
  lemma ThreeFilesFail()
    ensures var files := [Some("a"), Some("b"), Some("c")];
      FilesNeeded(files, 3) == 3 && History(files) == "abc"
  {
    var files := [Some("a"), Some("b"), Some("c")];
    assert files[..2] == [Some("a"), Some("b")] && [Some("a"), Some("b")][..1] == [Some("a")] && [Some("a")][..0] == [];
    assert FilesNeeded([Some("a")], 1) == 1;
    assert FilesNeeded([Some("a"), Some("b")], 2) == 2;
    assert History([Some("a")]) == "a" && History([Some("a"), Some("b")]) == "ab";
  }
}
