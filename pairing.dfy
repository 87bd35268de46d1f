/** The pairing loop of main in src/Main.cpp: one bitmap from each reader per
    iteration, the transformed one rescaled to the original's dimensions when
    they differ, one output row per pair. Run is the specification of the
    whole loop; Compare is the loop itself. */
module Pairing {
  import opened Frames
  import opened FrameReader

  /** One printed line: the 1-based index, the transformed reader's
      last_keyframe_pos, and the SSIM score. */
  datatype Row = Row(index: int, keyframePos: int, ssim: real)

  /** How the loop ends: both readers returned null; a reader took exit(1);
      or exactly one reader returned null, which main then dereferences. */
  datatype Ending = Completed | Aborted | NullDereference

  /** The dimension contract of Bitmap::scale: its result has the requested
      width and height. */
  ghost predicate ScalesTo(scale: (Bitmap, int, int) -> Bitmap)
  {
    forall b, w, h :: scale(b, w, h).width == w && scale(b, w, h).height == h
  }

  /** Bitmap::SSIM is defined at least on every pair of equal dimensions. */
  ghost predicate Comparable(ssim: (Bitmap, Bitmap) --> real)
  {
    forall a, b :: SameDimensions(a, b) ==> ssim.requires(a, b)
  }

  /** The transformed bitmap as compared against the original: itself when
      the dimensions agree, otherwise rescaled to the original's. */
  function Fit(orig: Bitmap, transformed: Bitmap, scale: (Bitmap, int, int) -> Bitmap): (b: Bitmap)
    requires ScalesTo(scale)
    ensures SameDimensions(orig, b)
    ensures SameDimensions(orig, transformed) ==> b == transformed
    ensures !SameDimensions(orig, transformed) ==> b == scale(transformed, orig.width, orig.height)
  {
    if SameDimensions(orig, transformed) then transformed
    else scale(transformed, orig.width, orig.height)
  }

  /** Decoder answers not yet given: the loop's termination measure. */
  function Pending(outcomes: seq<Option<Bitmap>>, s: State): nat
  {
    if |s.fed| <= |outcomes| then |outcomes| - |s.fed| else 0
  }

  /** The loop from iteration i on, with the readers in states os and ts:
      the rows it prints and how it ends. */
  function Run(orig: Stream, trans: Stream, os: State, ts: State, i: nat,
               scale: (Bitmap, int, int) -> Bitmap, ssim: (Bitmap, Bitmap) --> real): (r: (seq<Row>, Ending))
    requires os.cursor <= |orig.frames| && ts.cursor <= |trans.frames|
    requires ScalesTo(scale) && Comparable(ssim)
    ensures forall k :: 0 <= k < |r.0| ==> r.0[k].index == i + k + 1
    decreases Pending(orig.outcomes, os) + Pending(trans.outcomes, ts)
  {
    var o := Step(orig, os);
    if o.0.Abort? then ([], Aborted)
    else
      var t := Step(trans, ts);
      if t.0.Abort? then ([], Aborted)
      else if o.0.Null? && t.0.Null? then ([], Completed)
      else if o.0.Null? || t.0.Null? then ([], NullDereference)
      else
        var row := Row(i + 1, t.1.lastKeyframePos, ssim(o.0.bitmap, Fit(o.0.bitmap, t.0.bitmap, scale)));
        var rest := Run(orig, trans, o.1, t.1, i + 1, scale, ssim);
        ([row] + rest.0, rest.1)
  }

  /** Row k of the loop is the pair of the (k+1)-th reads of both readers,
      numbered i + k + 1 and carrying the transformed reader's
      last_keyframe_pos after that read; the original bitmap is compared as
      it came and the transformed one after Fit. */
  lemma {:induction false} RunRowPairsReads(orig: Stream, trans: Stream, os: State, ts: State, i: nat,
                                            scale: (Bitmap, int, int) -> Bitmap, ssim: (Bitmap, Bitmap) --> real, k: nat)
    requires os.cursor <= |orig.frames| && ts.cursor <= |trans.frames|
    requires ScalesTo(scale) && Comparable(ssim)
    requires k < |Run(orig, trans, os, ts, i, scale, ssim).0|
    ensures var o := ReadMany(orig, os, k + 1);
            var t := ReadMany(trans, ts, k + 1);
            && o.0[k].Frame? && t.0[k].Frame?
            && Run(orig, trans, os, ts, i, scale, ssim).0[k]
                 == Row(i + k + 1, t.1.lastKeyframePos, ssim(o.0[k].bitmap, Fit(o.0[k].bitmap, t.0[k].bitmap, scale)))
    decreases k
  {
    var o := Step(orig, os);
    var t := Step(trans, ts);
    if k > 0 {
      RunRowPairsReads(orig, trans, o.1, t.1, i + 1, scale, ssim, k - 1);
      assert ReadMany(orig, os, k + 1).0[k] == ReadMany(orig, o.1, k).0[k - 1];
      assert ReadMany(trans, ts, k + 1).0[k] == ReadMany(trans, t.1, k).0[k - 1];
      assert ReadMany(trans, ts, k + 1).1 == ReadMany(trans, t.1, k).1;
    }
  }

  /** Row k read off any sequence of at least k + 1 reads of both readers. */
  lemma RunRowInReads(orig: Stream, trans: Stream, os: State, ts: State, i: nat,
                      scale: (Bitmap, int, int) -> Bitmap, ssim: (Bitmap, Bitmap) --> real, k: nat, m: nat)
    requires os.cursor <= |orig.frames| && ts.cursor <= |trans.frames|
    requires ScalesTo(scale) && Comparable(ssim)
    requires k < |Run(orig, trans, os, ts, i, scale, ssim).0| && k < m
    ensures var ors := ReadMany(orig, os, m).0;
            var trs := ReadMany(trans, ts, m).0;
            && ors[k].Frame? && trs[k].Frame?
            && Run(orig, trans, os, ts, i, scale, ssim).0[k]
                 == Row(i + k + 1, ReadMany(trans, ts, k + 1).1.lastKeyframePos,
                        ssim(ors[k].bitmap, Fit(ors[k].bitmap, trs[k].bitmap, scale)))
  {
    RunRowPairsReads(orig, trans, os, ts, i, scale, ssim, k);
    ReadManyPrefix(orig, os, k + 1, m);
    ReadManyPrefix(trans, ts, k + 1, m);
    assert ReadMany(orig, os, m).0[k] == ReadMany(orig, os, k + 1).0[k];
    assert ReadMany(trans, ts, m).0[k] == ReadMany(trans, ts, k + 1).0[k];
  }

  /** The loop ends on the first pair of reads that is not two bitmaps:
      Completed exactly when both are null, Aborted when either read took
      exit(1), NullDereference when exactly one is null. When the original
      read aborts, the transformed read named here is never performed: exit(1)
      ends the process inside the original's read first. */
  lemma {:induction false} RunEndsAtFirstMismatch(orig: Stream, trans: Stream, os: State, ts: State, i: nat,
                                                  scale: (Bitmap, int, int) -> Bitmap, ssim: (Bitmap, Bitmap) --> real)
    requires os.cursor <= |orig.frames| && ts.cursor <= |trans.frames|
    requires ScalesTo(scale) && Comparable(ssim)
    ensures var run := Run(orig, trans, os, ts, i, scale, ssim);
            var n := |run.0|;
            var last := ReadMany(orig, os, n + 1).0[n];
            var tlast := ReadMany(trans, ts, n + 1).0[n];
            && (run.1 == Completed <==> last.Null? && tlast.Null?)
            && (run.1 == Aborted <==> last.Abort? || tlast.Abort?)
            && (run.1 == NullDereference <==> !last.Abort? && !tlast.Abort? && last.Null? != tlast.Null?)
    decreases Pending(orig.outcomes, os) + Pending(trans.outcomes, ts)
  {
    var o := Step(orig, os);
    var t := Step(trans, ts);
    if !o.0.Abort? && !t.0.Abort? && !o.0.Null? && !t.0.Null? {
      var run := Run(orig, trans, os, ts, i, scale, ssim);
      var rest := Run(orig, trans, o.1, t.1, i + 1, scale, ssim);
      var n := |run.0|;
      RunEndsAtFirstMismatch(orig, trans, o.1, t.1, i + 1, scale, ssim);
      assert n == |rest.0| + 1;
      assert ReadMany(orig, os, n + 1).0[n] == ReadMany(orig, o.1, n).0[n - 1];
      assert ReadMany(trans, ts, n + 1).0[n] == ReadMany(trans, t.1, n).0[n - 1];
    }
  }

  /** The whole loop in terms of the two readers' read sequences. */
  lemma RunPairsReads(orig: Stream, trans: Stream, os: State, ts: State, i: nat,
                      scale: (Bitmap, int, int) -> Bitmap, ssim: (Bitmap, Bitmap) --> real)
    requires os.cursor <= |orig.frames| && ts.cursor <= |trans.frames|
    requires ScalesTo(scale) && Comparable(ssim)
    ensures var run := Run(orig, trans, os, ts, i, scale, ssim);
            var n := |run.0|;
            var ors := ReadMany(orig, os, n + 1).0;
            var trs := ReadMany(trans, ts, n + 1).0;
            && (forall k :: 0 <= k < n ==>
                  && ors[k].Frame? && trs[k].Frame?
                  && run.0[k] == Row(i + k + 1, ReadMany(trans, ts, k + 1).1.lastKeyframePos,
                                     ssim(ors[k].bitmap, Fit(ors[k].bitmap, trs[k].bitmap, scale))))
            && (run.1 == Completed <==> ors[n].Null? && trs[n].Null?)
            && (run.1 == Aborted <==> ors[n].Abort? || trs[n].Abort?)
            && (run.1 == NullDereference <==>
                  !ors[n].Abort? && !trs[n].Abort? && ors[n].Null? != trs[n].Null?)
  {
    var run := Run(orig, trans, os, ts, i, scale, ssim);
    var n := |run.0|;
    var ors := ReadMany(orig, os, n + 1).0;
    var trs := ReadMany(trans, ts, n + 1).0;
    forall k | 0 <= k < n
      ensures && ors[k].Frame? && trs[k].Frame?
              && run.0[k] == Row(i + k + 1, ReadMany(trans, ts, k + 1).1.lastKeyframePos,
                                 ssim(ors[k].bitmap, Fit(ors[k].bitmap, trs[k].bitmap, scale)))
    {
      RunRowInReads(orig, trans, os, ts, i, scale, ssim, k, n + 1);
    }
    RunEndsAtFirstMismatch(orig, trans, os, ts, i, scale, ssim);
  }

  /** The keyframe column: row k carries the position of the last keyframe
      among the packets the transformed reader has fetched by its (k+1)-th
      read, or 0 when there was none yet. */
  lemma KeyframeColumn(orig: Stream, trans: Stream, scale: (Bitmap, int, int) -> Bitmap,
                       ssim: (Bitmap, Bitmap) --> real, k: nat)
    requires ScalesTo(scale) && Comparable(ssim)
    requires k < |Run(orig, trans, Initial(), Initial(), 0, scale, ssim).0|
    ensures var fetched := ReadMany(trans, Initial(), k + 1).1.cursor;
            Run(orig, trans, Initial(), Initial(), 0, scale, ssim).0[k].keyframePos
              == LastKeyframe(trans.frames, 0, fetched, 0)
  {
    var run := Run(orig, trans, Initial(), Initial(), 0, scale, ssim);
    var n := |run.0|;
    RunPairsReads(orig, trans, Initial(), Initial(), 0, scale, ssim);
    ReadManyPrefix(trans, Initial(), k + 1, n + 1);
    var trs := ReadMany(trans, Initial(), n + 1).0;
    var firstReads := ReadMany(trans, Initial(), k + 1).0;
    forall j | 0 <= j < k + 1 ensures !firstReads[j].Abort? {
      assert firstReads[j] == trs[j];
    }
    ReadsTrackKeyframe(trans, Initial(), k + 1);
  }

  /** What one iteration of the loop does: print a row, or leave the loop. */
  datatype Turn = Printed(row: Row) | Stopped(ending: Ending)

  /** One iteration of the loop of main, as iteration i (counting from 0). */
  method Iteration(orig: Reader, transformed: Reader, i: nat,
                   scale: (Bitmap, int, int) -> Bitmap, ssim: (Bitmap, Bitmap) --> real)
    returns (turn: Turn)
    requires orig.Valid() && transformed.Valid()
    requires orig != transformed && orig.file != transformed.file && orig.decoder != transformed.decoder
    requires ScalesTo(scale) && Comparable(ssim)
    modifies orig, orig.file, orig.decoder, transformed, transformed.file, transformed.decoder
    ensures orig.Valid() && transformed.Valid()
    ensures var run := Run(orig.Input(), transformed.Input(), old(orig.Current()), old(transformed.Current()), i, scale, ssim);
            match turn
            case Stopped(ending) => run == ([], ending)
            case Printed(row) =>
              var rest := Run(orig.Input(), transformed.Input(), orig.Current(), transformed.Current(), i + 1, scale, ssim);
              run == ([row] + rest.0, rest.1)
    ensures turn.Printed? ==>
              Pending(orig.Input().outcomes, orig.Current()) + Pending(transformed.Input().outcomes, transformed.Current())
              < Pending(orig.Input().outcomes, old(orig.Current())) + Pending(transformed.Input().outcomes, old(transformed.Current()))
  {
    ghost var os, ts := orig.Current(), transformed.Current();
    var bmpOrig := orig.Read();
    if bmpOrig.Abort? {
      return Stopped(Aborted);
    }
    var bmpTransformed := transformed.Read();
    assert (bmpTransformed, transformed.Current()) == Step(transformed.Input(), ts);
    if bmpTransformed.Abort? {
      return Stopped(Aborted);
    }
    if bmpOrig.Null? && bmpTransformed.Null? {
      return Stopped(Completed);
    }
    if bmpOrig.Null? || bmpTransformed.Null? {
      return Stopped(NullDereference);
    }
    var compared := bmpTransformed.bitmap;
    if !SameDimensions(bmpOrig.bitmap, compared) {
      compared := scale(compared, bmpOrig.bitmap.width, bmpOrig.bitmap.height);
    }
    turn := Printed(Row(i + 1, transformed.lastKeyframePos, ssim(bmpOrig.bitmap, compared)));
  }

  /** The loop of main over two readers that do not share a file or a decoder. */
  method Compare(orig: Reader, transformed: Reader,
                 scale: (Bitmap, int, int) -> Bitmap, ssim: (Bitmap, Bitmap) --> real)
    returns (rows: seq<Row>, ending: Ending)
    requires orig.Valid() && transformed.Valid()
    requires orig != transformed && orig.file != transformed.file && orig.decoder != transformed.decoder
    requires ScalesTo(scale) && Comparable(ssim)
    modifies orig, orig.file, orig.decoder, transformed, transformed.file, transformed.decoder
    ensures (rows, ending) == Run(orig.Input(), transformed.Input(), old(orig.Current()),
                                  old(transformed.Current()), 0, scale, ssim)
  {
    ghost var spec := Run(orig.Input(), transformed.Input(), old(orig.Current()), old(transformed.Current()), 0, scale, ssim);
    rows := [];
    var i := 0;
    while true
      invariant orig.Valid() && transformed.Valid()
      invariant var rest := Run(orig.Input(), transformed.Input(), orig.Current(), transformed.Current(), i, scale, ssim);
                rows + rest.0 == spec.0 && rest.1 == spec.1
      decreases Pending(orig.Input().outcomes, orig.Current()) + Pending(transformed.Input().outcomes, transformed.Current())
    {
      ghost var rest := Run(orig.Input(), transformed.Input(), orig.Current(), transformed.Current(), i, scale, ssim);
      var turn := Iteration(orig, transformed, i, scale, ssim);
      match turn
      case Stopped(e) =>
        ending := e;
        assert rest == ([], e);
        assert rows == spec.0;
        return;
      case Printed(row) =>
        rows := rows + [row];
        i := i + 1;
    }
  }

  /** main after argument checking: open a reader on each input and run the
      loop from the start. */
  method CompareFiles(orig: Stream, transformed: Stream,
                      scale: (Bitmap, int, int) -> Bitmap, ssim: (Bitmap, Bitmap) --> real)
    returns (rows: seq<Row>, ending: Ending)
    requires ScalesTo(scale) && Comparable(ssim)
    ensures (rows, ending) == Run(orig, transformed, Initial(), Initial(), 0, scale, ssim)
  {
    var o := new Reader(orig);
    var t := new Reader(transformed);
    rows, ending := Compare(o, t, scale, ssim);
  }
}
