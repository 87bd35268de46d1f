/** The frame reader (class Reader of src/Main.cpp): one file and one decoder
    presented as a pull sequence of bitmaps, hiding the decoder's buffering.
    Step is the specification of one call of Reader::read; the class below is
    proved to follow it, and the lemmas state what Step promises. */
module FrameReader {
  import opened Frames

  /** What one call of read gives back: a bitmap, the null pointer, or the
      exit(1) taken on a packet without a position. */
  datatype ReadResult = Frame(bitmap: Bitmap) | Null | Abort

  /** The reader's state: the file cursor, the decoder's input log, and the
      fields last_keyframe_pos, skipped and eof. */
  datatype State = State(cursor: nat, fed: seq<Packet>, lastKeyframePos: int, skipped: nat, eof: bool)

  function Initial(): State
  {
    State(0, [], 0, 0, false)
  }

  function AsRead(o: Option<Bitmap>): ReadResult
  {
    match o
    case Some(b) => Frame(b)
    case None => Null
  }

  /** One pass through the body of read: it either settles the call, or ends
      in the tail call of read (after setting eof, or after a packet the
      decoder kept). */
  datatype Attempt = Done(result: ReadResult, state: State) | Retry(state: State)

  function Advance(st: Stream, s: State): (a: Attempt)
    requires s.cursor <= |st.frames|
    ensures a.state.cursor <= |st.frames|
    ensures a.Retry? ==>
              && !s.eof
              && (|| (s.cursor == |st.frames| && a.state == s.(eof := true))
                  || (&& s.cursor < |st.frames| && !a.state.eof
                      && a.state.cursor == s.cursor + 1 && a.state.skipped == s.skipped + 1
                      && Outcome(st.outcomes, |s.fed|).None?))
    ensures a.Done? && a.result.Null? ==> s.eof && (s.skipped == 0 ==> a.state == s)
    ensures a.Done? && a.result.Frame? ==> Outcome(st.outcomes, |s.fed|) == Some(a.result.bitmap)
  {
    if !s.eof then
      if s.cursor == |st.frames| then
        Retry(s.(eof := true))
      else
        var raw := st.frames[s.cursor];
        var fetched := s.(cursor := s.cursor + 1);
        if raw.pos < 0 then
          Done(Abort, fetched)
        else
          var keyed := if raw.isKey then fetched.(lastKeyframePos := raw.pos) else fetched;
          var decoded := keyed.(fed := keyed.fed + [Data(raw)]);
          match Outcome(st.outcomes, |s.fed|)
          case None => Retry(decoded.(skipped := decoded.skipped + 1))
          case Some(b) => Done(Frame(b), decoded)
    else if s.skipped != 0 then
      Done(AsRead(Outcome(st.outcomes, |s.fed|)), s.(fed := s.fed + [Flush]))
    else
      Done(Null, s)
  }

  /** One call of read. While reading, a packet the decoder keeps is counted
      in skipped and the call fetches again; at end of file the call flushes
      once if skipped is non-zero, and returns null otherwise. */
  function Step(st: Stream, s: State): (r: (ReadResult, State))
    requires s.cursor <= |st.frames|
    ensures s.cursor <= r.1.cursor <= |st.frames|
    ensures |s.fed| <= |r.1.fed| && s.skipped <= r.1.skipped
    ensures s.eof ==> r.1.eof && r.1.cursor == s.cursor
    ensures r.1.eof && !s.eof ==> r.1.cursor == |st.frames|
    ensures !s.eof && s.cursor == |st.frames| ==> r.1.eof
    ensures r.0.Null? ==> r.1.eof
    ensures r.0.Frame? ==> |s.fed| < |r.1.fed| && Outcome(st.outcomes, |r.1.fed| - 1) == Some(r.0.bitmap)
    ensures r.0.Abort? ==> !s.eof && !r.1.eof && s.cursor < r.1.cursor && st.frames[r.1.cursor - 1].pos < 0
    decreases if s.eof then 0 else 1, |st.frames| - s.cursor
  {
    match Advance(st, s)
    case Done(result, t) => (result, t)
    case Retry(t) => Step(st, t)
  }

  /** n successive calls of read. */
  function ReadMany(st: Stream, s: State, n: nat): (r: (seq<ReadResult>, State))
    requires s.cursor <= |st.frames|
    ensures |r.0| == n && s.cursor <= r.1.cursor <= |st.frames|
    decreases n
  {
    if n == 0 then
      ([], s)
    else
      var first := Step(st, s);
      var rest := ReadMany(st, first.1, n - 1);
      ([first.0] + rest.0, rest.1)
  }

  /** last_keyframe_pos after the packets fs[from..to] have been fetched,
      starting from init. */
  function LastKeyframe(fs: seq<RawFrame>, from: nat, to: nat, init: int): int
    requires from <= to <= |fs|
    decreases (to as int) - (from as int)
  {
    if from == to then init
    else LastKeyframe(fs, from + 1, to, if fs[from].isKey then fs[from].pos else init)
  }

  /** How many of the logged decode calls were fed a packet and gave nothing back. */
  function Buffered(fed: seq<Packet>, outcomes: seq<Option<Bitmap>>): nat
  {
    if fed == [] then 0
    else
      Buffered(fed[..|fed| - 1], outcomes)
        + (if fed[|fed| - 1].Data? && Outcome(outcomes, |fed| - 1).None? then 1 else 0)
  }

  lemma BufferedAppend(fed: seq<Packet>, p: Packet, outcomes: seq<Option<Bitmap>>)
    ensures Buffered(fed + [p], outcomes)
         == Buffered(fed, outcomes) + (if p.Data? && Outcome(outcomes, |fed|).None? then 1 else 0)
  {
    assert (fed + [p])[..|fed|] == fed;
  }

  /** fs[k] is a keyframe and none follows it before index to. */
  predicate LatestKeyAt(fs: seq<RawFrame>, k: nat, to: nat)
    requires to <= |fs|
  {
    k < to && fs[k].isKey && forall j :: k < j < to ==> !fs[j].isKey
  }

  /** The last keyframe wins: with no keyframe in fs[from..to] the value is
      init, otherwise it is the position of the last keyframe there. */
  lemma {:induction false} LastKeyframeIsLatestKey(fs: seq<RawFrame>, from: nat, to: nat, init: int)
    requires from <= to <= |fs|
    ensures (forall k :: from <= k < to ==> !fs[k].isKey) ==> LastKeyframe(fs, from, to, init) == init
    ensures forall k :: from <= k && LatestKeyAt(fs, k, to) ==> LastKeyframe(fs, from, to, init) == fs[k].pos
    decreases (to as int) - (from as int)
  {
    if from < to {
      LastKeyframeIsLatestKey(fs, from + 1, to, if fs[from].isKey then fs[from].pos else init);
    }
  }

  lemma {:induction false} LastKeyframeSplit(fs: seq<RawFrame>, from: nat, mid: nat, to: nat, init: int)
    requires from <= mid <= to <= |fs|
    ensures LastKeyframe(fs, from, to, init) == LastKeyframe(fs, mid, to, LastKeyframe(fs, from, mid, init))
    decreases (mid as int) - (from as int)
  {
    if from < mid {
      LastKeyframeSplit(fs, from + 1, mid, to, if fs[from].isKey then fs[from].pos else init);
    }
  }

  /** last_keyframe_pos after a call is the last keyframe among the packets the
      call fetched and did not abort on; a packet without a position leaves
      it untouched. */
  lemma {:induction false} StepTracksKeyframe(st: Stream, s: State)
    requires s.cursor <= |st.frames|
    ensures var r := Step(st, s);
            var decodedEnd := if r.0.Abort? then r.1.cursor - 1 else r.1.cursor;
            s.cursor <= decodedEnd
            && r.1.lastKeyframePos == LastKeyframe(st.frames, s.cursor, decodedEnd, s.lastKeyframePos)
    decreases if s.eof then 0 else 1, |st.frames| - s.cursor
  {
    var a := Advance(st, s);
    if a.Retry? {
      assert Step(st, s) == Step(st, a.state);
      StepTracksKeyframe(st, a.state);
    }
  }

  /** after extends before with Data(fs[from]), ..., Data(fs[to - 1]), possibly
      followed by more packets. */
  ghost predicate FedInOrder(before: seq<Packet>, after: seq<Packet>, fs: seq<RawFrame>, from: nat, to: nat)
    requires from <= to <= |fs|
  {
    && before <= after
    && |before| + (to - from) <= |after|
    && forall k :: from <= k < to ==> after[|before| + (k - from)] == Data(fs[k])
  }

  lemma FedInOrderCons(before: seq<Packet>, mid: seq<Packet>, after: seq<Packet>, fs: seq<RawFrame>, from: nat, to: nat)
    requires from < to <= |fs|
    requires mid == before + [Data(fs[from])] && FedInOrder(mid, after, fs, from + 1, to)
    ensures FedInOrder(before, after, fs, from, to)
  {
    forall k | from <= k < to
      ensures after[|before| + (k - from)] == Data(fs[k])
    {
      if k == from {
        assert after[|before|] == mid[|before|];
      } else {
        assert after[|mid| + (k - (from + 1))] == Data(fs[k]);
      }
    }
  }

  /** How many packets a call feeds: one per fetched packet with a valid
      position, plus the flush of the drain phase when it happens. */
  lemma {:induction false} StepFedLength(st: Stream, s: State)
    requires s.cursor <= |st.frames|
    ensures var r := Step(st, s);
            var decodedEnd := if r.0.Abort? then r.1.cursor - 1 else r.1.cursor;
            var flushed := r.1.eof && r.1.skipped != 0;
            && s.cursor <= decodedEnd
            && |r.1.fed| == |s.fed| + (decodedEnd - s.cursor) + (if flushed then 1 else 0)
    decreases if s.eof then 0 else 1, |st.frames| - s.cursor
  {
    var a := Advance(st, s);
    if a.Retry? {
      assert Step(st, s) == Step(st, a.state);
      StepFedLength(st, a.state);
    }
  }

  /** A call that stops at its first attempt feeds at most the packet it
      fetched, when that packet has a valid position. */
  lemma AdvanceDoneFeeds(st: Stream, s: State)
    requires s.cursor <= |st.frames| && Advance(st, s).Done?
    ensures var a := Advance(st, s);
            var decodedEnd := if a.result.Abort? then a.state.cursor - 1 else a.state.cursor;
            s.cursor <= decodedEnd <= |st.frames| && FedInOrder(s.fed, a.state.fed, st.frames, s.cursor, decodedEnd)
  {
    if !s.eof && st.frames[s.cursor].pos >= 0 {
      assert Advance(st, s).state.fed == s.fed + [Data(st.frames[s.cursor])];
    }
  }

  /** An attempt that retries before end of file has fetched and fed exactly
      the next packet. */
  lemma AdvanceRetryFeeds(st: Stream, s: State)
    requires s.cursor <= |st.frames| && Advance(st, s).Retry? && !Advance(st, s).state.eof
    ensures var t := Advance(st, s).state;
            s.cursor < |st.frames| && t.cursor == s.cursor + 1 && t.fed == s.fed + [Data(st.frames[s.cursor])]
  {
  }

  /** The packets a call feeds come from the file in stream order. */
  lemma {:induction false} StepFedOrder(st: Stream, s: State)
    requires s.cursor <= |st.frames|
    ensures var r := Step(st, s);
            var decodedEnd := if r.0.Abort? then r.1.cursor - 1 else r.1.cursor;
            s.cursor <= decodedEnd && FedInOrder(s.fed, r.1.fed, st.frames, s.cursor, decodedEnd)
    decreases if s.eof then 0 else 1, |st.frames| - s.cursor
  {
    var a := Advance(st, s);
    if a.Retry? {
      var t := a.state;
      var r := Step(st, t);
      assert Step(st, s) == r;
      StepFedOrder(st, t);
      if !t.eof {
        AdvanceRetryFeeds(st, s);
        var e := if r.0.Abort? then r.1.cursor - 1 else r.1.cursor;
        FedInOrderCons(s.fed, t.fed, r.1.fed, st.frames, s.cursor, e);
      }
    } else {
      AdvanceDoneFeeds(st, s);
    }
  }

  /** The decoder is fed exactly the fetched packets, in file order, and then
      the one flush of the drain phase when it happens; a packet without a
      position is fetched but never fed. */
  lemma StepFeedsDecoder(st: Stream, s: State)
    requires s.cursor <= |st.frames|
    ensures var r := Step(st, s);
            var decodedEnd := if r.0.Abort? then r.1.cursor - 1 else r.1.cursor;
            var flushed := r.1.eof && r.1.skipped != 0;
            && s.cursor <= decodedEnd
            && FedInOrder(s.fed, r.1.fed, st.frames, s.cursor, decodedEnd)
            && |r.1.fed| == |s.fed| + (decodedEnd - s.cursor) + (if flushed then 1 else 0)
            && (flushed ==> r.1.fed[|r.1.fed| - 1] == Flush)
  {
    StepFedLength(st, s);
    StepFedOrder(st, s);
    StepFlushesLast(st, s);
  }

  /** A call flushes the decoder only as its last action, and exactly when it
      ends past end of file with skipped non-zero. */
  lemma {:induction false} StepFlushesLast(st: Stream, s: State)
    requires s.cursor <= |st.frames|
    ensures var r := Step(st, s);
            r.1.eof && r.1.skipped != 0 ==> |s.fed| < |r.1.fed| && r.1.fed[|r.1.fed| - 1] == Flush
    decreases if s.eof then 0 else 1, |st.frames| - s.cursor
  {
    var a := Advance(st, s);
    if a.Retry? {
      assert Step(st, s) == Step(st, a.state);
      StepFlushesLast(st, a.state);
    }
  }

  /** Every packet a call feeds to the decoder has a valid position. */
  lemma {:induction false} StepChecksPositions(st: Stream, s: State)
    requires s.cursor <= |st.frames|
    ensures var r := Step(st, s);
            var decodedEnd := if r.0.Abort? then r.1.cursor - 1 else r.1.cursor;
            forall k :: s.cursor <= k < decodedEnd ==> st.frames[k].pos >= 0
    decreases if s.eof then 0 else 1, |st.frames| - s.cursor
  {
    var a := Advance(st, s);
    if a.Retry? {
      StepChecksPositions(st, a.state);
    }
  }

  /** skipped grows by exactly the number of packets the decoder swallowed
      during the call; a flush that gives nothing back does not count. */
  lemma {:induction false} StepCountsBuffered(st: Stream, s: State)
    requires s.cursor <= |st.frames|
    ensures var r := Step(st, s);
            r.1.skipped + Buffered(s.fed, st.outcomes) == s.skipped + Buffered(r.1.fed, st.outcomes)
    decreases if s.eof then 0 else 1, |st.frames| - s.cursor
  {
    var a := Advance(st, s);
    if !s.eof && s.cursor < |st.frames| && st.frames[s.cursor].pos >= 0 {
      BufferedAppend(s.fed, Data(st.frames[s.cursor]), st.outcomes);
    } else if s.eof && s.skipped != 0 {
      BufferedAppend(s.fed, Flush, st.outcomes);
    }
    if a.Retry? {
      StepCountsBuffered(st, a.state);
    }
  }

  /** After end of file the reader never touches the file again and never
      lowers skipped. With skipped == 0 every call returns null and changes
      nothing; otherwise every call issues one flush and returns the
      decoder's answer to it. */
  lemma {:induction false} DrainPhase(st: Stream, s: State, n: nat)
    requires s.cursor <= |st.frames| && s.eof
    ensures var r := ReadMany(st, s, n);
            r.1.eof && r.1.cursor == s.cursor && r.1.skipped == s.skipped
            && r.1.lastKeyframePos == s.lastKeyframePos
            && (s.skipped == 0 ==> r.1 == s && forall k :: 0 <= k < n ==> r.0[k] == Null)
            && (s.skipped != 0 ==>
                  r.1.fed == s.fed + seq(n, _ => Flush)
                  && forall k :: 0 <= k < n ==> r.0[k] == AsRead(Outcome(st.outcomes, |s.fed| + k)))
    decreases n
  {
    if n > 0 {
      var first := Step(st, s);
      DrainPhase(st, first.1, n - 1);
      var r := ReadMany(st, s, n);
      var rest := ReadMany(st, first.1, n - 1);
      assert r.0 == [first.0] + rest.0;
      if s.skipped != 0 {
        assert s.fed + [Flush] + seq(n - 1, _ => Flush) == s.fed + seq(n, _ => Flush);
        forall k | 0 <= k < n
          ensures r.0[k] == AsRead(Outcome(st.outcomes, |s.fed| + k))
        {
          if k > 0 {
            assert r.0[k] == rest.0[k - 1];
          }
        }
      }
    }
  }

  /** The end of the sequence is final when nothing was swallowed: once read
      returns null with skipped == 0, every later call returns null too. */
  lemma NullIsFinal(st: Stream, s: State, n: nat)
    requires s.cursor <= |st.frames|
    requires Step(st, s).0.Null? && Step(st, s).1.skipped == 0
    ensures forall k :: 0 <= k < n ==> ReadMany(st, Step(st, s).1, n).0[k] == Null
  {
    DrainPhase(st, Step(st, s).1, n);
  }

  /** Null is not final while skipped is non-zero: every later call flushes
      again, and a decoder that still answers turns a null into a bitmap. */
  lemma NullThenFrame(b: Bitmap)
    ensures var st := Stream([RawFrame(0, true)], [None, None, Some(b)]);
            var first := Step(st, Initial());
            && first.0 == Null && first.1.skipped == 1
            && Step(st, first.1).0 == Frame(b)
  {
    var st := Stream([RawFrame(0, true)], [None, None, Some(b)]);
    var s1 := State(1, [Data(RawFrame(0, true))], 0, 1, false);
    var s2 := s1.(eof := true);
    assert Advance(st, Initial()) == Retry(s1);
    assert Advance(st, s1) == Retry(s2);
    assert Step(st, s2) == (Null, s2.(fed := s2.fed + [Flush]));
  }

  lemma {:induction false} ReadManyPrefix(st: Stream, s: State, m: nat, n: nat)
    requires s.cursor <= |st.frames| && m <= n
    ensures ReadMany(st, s, m).0 == ReadMany(st, s, n).0[..m]
    decreases m
  {
    if m > 0 {
      ReadManyPrefix(st, Step(st, s).1, m - 1, n - 1);
    }
  }

  /** Over any run of calls that did not abort, last_keyframe_pos is the
      position of the last keyframe fetched so far (or its old value if
      there was none). */
  lemma {:induction false} ReadsTrackKeyframe(st: Stream, s: State, n: nat)
    requires s.cursor <= |st.frames|
    ensures var r := ReadMany(st, s, n);
            (forall k :: 0 <= k < n ==> !r.0[k].Abort?)
              ==> r.1.lastKeyframePos == LastKeyframe(st.frames, s.cursor, r.1.cursor, s.lastKeyframePos)
    decreases n
  {
    var r := ReadMany(st, s, n);
    if n > 0 && forall k :: 0 <= k < n ==> !r.0[k].Abort? {
      var first := Step(st, s);
      var rest := ReadMany(st, first.1, n - 1);
      assert !r.0[0].Abort?;
      forall k | 0 <= k < n - 1 ensures !rest.0[k].Abort? {
        assert rest.0[k] == r.0[k + 1];
      }
      StepTracksKeyframe(st, s);
      ReadsTrackKeyframe(st, first.1, n - 1);
      LastKeyframeSplit(st.frames, s.cursor, first.1.cursor, r.1.cursor, s.lastKeyframePos);
    }
  }

  /** Reader of src/Main.cpp: a file, a decoder, and the three fields that
      read updates in place. */
  class Reader {
    const file: VideoFile
    const decoder: Decoder
    var lastKeyframePos: int
    var skipped: nat
    var eof: bool

    /** skipped counts the packets the decoder has swallowed so far. */
    ghost predicate Valid()
      reads this, file, decoder
    {
      file.Valid() && skipped == Buffered(decoder.fed, decoder.outcomes)
    }

    function Input(): Stream
    {
      Stream(file.frames, decoder.outcomes)
    }

    function Current(): State
      reads this, file, decoder
    {
      State(file.cursor, decoder.fed, lastKeyframePos, skipped, eof)
    }

    constructor (input: Stream)
      ensures Valid() && fresh(file) && fresh(decoder)
      ensures Input() == input && Current() == Initial()
    {
      file := new VideoFile(input.frames);
      decoder := new Decoder(input.outcomes);
      lastKeyframePos := 0;
      skipped := 0;
      eof := false;
    }

    method Read() returns (r: ReadResult)
      requires Valid()
      modifies this, file, decoder
      ensures Valid()
      ensures (r, Current()) == Step(Input(), old(Current()))
      decreases if eof then 0 else 1, |file.frames| - file.cursor
    {
      ghost var s := Current();
      if !eof {
        var raw := file.FetchRawFrame();
        if raw.None? {
          eof := true;
          assert Advance(Input(), s) == Retry(Current());
          r := Read();
          return;
        }
        var frame := raw.value;
        if frame.pos < 0 {
          r := Abort;
          return;
        }
        if frame.isKey {
          lastKeyframePos := frame.pos;
        }
        BufferedAppend(decoder.fed, Data(frame), decoder.outcomes);
        var out := decoder.Decode(Data(frame));
        if out.None? {
          skipped := skipped + 1;
          assert Advance(Input(), s) == Retry(Current());
          r := Read();
        } else {
          r := Frame(out.value);
        }
      } else if skipped != 0 {
        BufferedAppend(decoder.fed, Flush, decoder.outcomes);
        var out := decoder.Decode(Flush);
        r := AsRead(out);
      } else {
        r := Null;
      }
    }
  }
}
