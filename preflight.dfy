/** The checks `main` makes before conversion: which required support files
    are missing, and whether the previously converted output is stale. */
module Preflight {

  /** What os.Stat reports for a path: success with the size it gives,
      an error for which os.IsNotExist holds, or any other error. */
  datatype StatResult = StatOk(size: int) | StatNotExist | StatError

  /** The required files reported missing, in the order they were listed. */
  function Missing(files: seq<string>, stat: string -> StatResult): seq<string>
    decreases |files|
  {
    if files == [] then []
    else
      var last := files[|files| - 1];
      Missing(files[..|files| - 1], stat) + (if stat(last).StatNotExist? then [last] else [])
  }

  /** checkFileExists: walks the required names in order and collects those
      whose stat fails with "does not exist". */
  method CheckFileExists(files: seq<string>, stat: string -> StatResult) returns (missingFiles: seq<string>)
    ensures missingFiles == Missing(files, stat)
    ensures |missingFiles| <= |files|
  {
    missingFiles := [];
    for i := 0 to |files|
      invariant missingFiles == Missing(files[..i], stat)
    {
      assert files[..i + 1][..i] == files[..i];
      if stat(files[i]).StatNotExist? {
        missingFiles := missingFiles + [files[i]];
      }
    }
    assert files[..|files|] == files;
    MissingLength(files, stat);
  }

  /** A name is reported exactly when it is listed and its stat says it does
      not exist; a stat failing for any other reason does not report it. */
  lemma {:induction false} MissingMembers(files: seq<string>, stat: string -> StatResult)
    ensures forall f :: f in Missing(files, stat) <==> f in files && stat(f).StatNotExist?
    decreases |files|
  {
    if files != [] {
      var init, last := files[..|files| - 1], files[|files| - 1];
      MissingMembers(init, stat);
      assert files == init + [last];
    }
  }

  /** No more names are reported than were required. */
  lemma {:induction false} MissingLength(files: seq<string>, stat: string -> StatResult)
    ensures |Missing(files, stat)| <= |files|
    decreases |files|
  {
    if files != [] {
      MissingLength(files[..|files| - 1], stat);
    }
  }

  /** The filter keeps the listing order: the missing names of a concatenation
      are those of the first part followed by those of the second. */
  lemma {:induction false} MissingConcat(a: seq<string>, b: seq<string>, stat: string -> StatResult)
    ensures Missing(a + b, stat) == Missing(a, stat) + Missing(b, stat)
    decreases |b|
  {
    if b == [] {
      assert a + b == a;
    } else {
      var init := b[..|b| - 1];
      MissingConcat(a, init, stat);
      assert (a + b)[..|a + b| - 1] == a + init;
    }
  }

  /** When every required name exists (or fails to stat for another reason),
      nothing is reported; when none exists, all are reported in order. */
  lemma {:induction false} MissingExtremes(files: seq<string>, stat: string -> StatResult)
    ensures (forall i :: 0 <= i < |files| ==> !stat(files[i]).StatNotExist?) ==> Missing(files, stat) == []
    ensures (forall i :: 0 <= i < |files| ==> stat(files[i]).StatNotExist?) ==> Missing(files, stat) == files
    decreases |files|
  {
    if files != [] {
      var init := files[..|files| - 1];
      MissingExtremes(init, stat);
      assert files == init + [files[|files| - 1]];
    }
  }

  /** The stale-output rule of `main`: remove the destination directory only
      when both stats succeed and the source directory's reported size is
      strictly larger than the destination's. */
  function ShouldRemoveOutput(src: StatResult, dst: StatResult): (remove: bool)
    ensures remove <==> src.StatOk? && dst.StatOk? && src.size > dst.size
  {
    match src
    case StatOk(srcSize) =>
      (match dst
       case StatOk(dstSize) => srcSize > dstSize
       case _ => false)
    case _ => false
  }

  /** The rule never removes in both directions, and never removes when the
      two sizes are equal. */
  lemma RemovalAsymmetric(src: StatResult, dst: StatResult)
    ensures ShouldRemoveOutput(src, dst) ==> !ShouldRemoveOutput(dst, src)
    ensures src.StatOk? && dst.StatOk? && src.size == dst.size ==> !ShouldRemoveOutput(src, dst)
  {
  }
}
