# SSIM frame pairing, modelled in Dafny

The `ssim` tool compares an original video with a transformed copy, frame by
frame. Two parts of `src/Main.cpp` are modelled here.

- The frame reader (`class Reader`, `Reader::read`) turns a demuxer and a
  decoder that may buffer frames into one pull sequence of bitmaps.
  - While reading, each call fetches the next packet and aborts the run on a
    packet without a position.
  - A keyframe updates `last_keyframe_pos`.
  - The packet is then fed to the decoder. When the decoder gives nothing
    back, `skipped` is incremented and the call fetches again.
  - At end of file, `eof` is set. After that, a call flushes the decoder once
    when `skipped` is non-zero, and returns null otherwise.
- The pairing loop of `main` reads one bitmap from each reader per iteration
  and stops when both are null. When the dimensions differ, it rescales the
  transformed bitmap to the original's width and height. It prints one row per
  pair: the 1-based index, the transformed reader's `last_keyframe_pos`, and
  the SSIM score.

The project has three modules.

- `Frames` (frames.dfy): packets, bitmaps and the two foreign collaborators.
  - `VideoFile` is a list of packets with a read cursor.
  - `Decoder` is an oracle whose k-th call answers `outcomes[k]`, whatever it
    is fed, and nothing once the answers are used up. It keeps a log of
    everything it was fed, so the model can state what the reader feeds it.
- `FrameReader` (reader.dfy): the reader.
  - `Step` is the pure specification of one call of `read`.
  - The class `Reader` holds the fields that `read` updates in place. Its
    method `Read` keeps the source's tail recursion and is proved to follow
    `Step`.
  - The lemmas state what `Step` promises.
- `Pairing` (pairing.dfy): the loop of `main`.
  - `Run` is the pure specification of the whole loop.
  - `Compare` is the loop itself, over two `Reader` objects, and is proved
    equal to `Run`. `Iteration` is one pass of its body.
  - `CompareFiles` opens both readers and runs the loop.

The loop can end in three ways:

- both reads return null (`Completed`);
- a reader takes `exit(1)` on a packet without a position (`Aborted`);
- exactly one read returns null (`NullDereference`). In the source, line 94 of
  src/Main.cpp then dereferences that null pointer. When the original's
  bitmap is null, `hasSameDimensions` is called through it. When the
  transformed bitmap is null, the argument `*bmp_transformed` dereferences
  it. The model makes this an explicit outcome rather than excluding it.

The drain phase follows the code. `Reader::read` never decrements `skipped`.
So the drain does not stop after one recovered frame. While `skipped` is
non-zero, every call after end of file flushes the decoder again and returns
whatever the decoder answers, a bitmap or null.

## Model

| member | source | states |
|---|---|---|
| Frames.VideoFile.FetchRawFrame | src/Main.cpp:40 | returns the next packet and advances the cursor; once the file is exhausted, returns None and leaves the cursor unchanged |
| Frames.Decoder.Decode | src/Main.cpp:55 | logs the packet it is fed and returns the oracle's answer for that call |
| FrameReader.Advance | src/Main.cpp:39-70 | one pass through the body of read settles the call or re-enters read; it re-enters only before end of file, and then either at the end of the file, setting eof and changing nothing else, or after one fetched packet the decoder kept, which adds one to skipped; a null result comes only after end of file and changes nothing when skipped is 0; a bitmap is the decoder's answer to this call |
| FrameReader.Step | src/Main.cpp:38-71 | a call never moves the file cursor backwards; once set, eof stays set and the file is never touched again; eof is set only once the last packet has been fetched, and a call that starts at the end of the file with eof clear always sets it; null is returned only after end of file; a returned bitmap is the decoder's answer to the last packet fed; an abort happens before end of file, on a fetched packet with a negative position |
| FrameReader.StepTracksKeyframe | src/Main.cpp:46-53 | after a call, last_keyframe_pos is the position of the last keyframe among the packets the call fetched, excluding a packet it aborted on; with no keyframe, it is unchanged |
| FrameReader.LastKeyframeIsLatestKey | src/Main.cpp:51-53 | the keyframe fold equals its starting value when no keyframe was fetched, and otherwise equals the position of the latest keyframe |
| FrameReader.ReadsTrackKeyframe | src/Main.cpp:51-53 | over any run of calls without an abort, last_keyframe_pos is the position of the latest keyframe fetched since the start |
| FrameReader.StepFedLength | src/Main.cpp:46-66 | a call makes one decode call per fetched packet that has a valid position, plus one flush when it ends past end of file with skipped non-zero |
| FrameReader.StepFedOrder | src/Main.cpp:40-58 | the packets a call feeds to the decoder are the packets it fetched, in file order, appended after the earlier ones |
| FrameReader.StepFeedsDecoder | src/Main.cpp:40-66 | combines the order and the count: the decoder gets exactly the fetched packets with valid positions, in order, then, when the call ends past end of file with skipped non-zero, one more packet, which is the flush |
| FrameReader.StepChecksPositions | src/Main.cpp:46-55 | every packet fed to the decoder has a non-negative position |
| FrameReader.StepFlushesLast | src/Main.cpp:62-66 | a call that ends past end of file with skipped non-zero has issued a flush, and the flush is the last thing fed |
| FrameReader.StepCountsBuffered | src/Main.cpp:55-58 | skipped grows by exactly the number of packets the decoder took without giving a bitmap back; a flush never changes it |
| FrameReader.DrainPhase | src/Main.cpp:62-70 | after end of file, any number of calls leaves the cursor, skipped and last_keyframe_pos unchanged; with skipped zero, every call returns null and changes nothing; otherwise every call issues one flush and returns the decoder's answer to it |
| FrameReader.NullIsFinal | src/Main.cpp:63-69 | once a call returns null with skipped zero, every later call returns null |
| FrameReader.NullThenFrame | src/Main.cpp:62-66 | with one keyframe packet and a decoder that answers nothing, nothing, then a bitmap: the first read returns null with skipped 1, and the next read returns that bitmap |
| FrameReader.Reader.constructor | src/Main.cpp:26-36 | a new reader has its own file and decoder, is at the start of the file, and has eof false, skipped 0 and last_keyframe_pos 0 |
| FrameReader.Reader.Read | src/Main.cpp:38-71 | the result and the new state of the file, the decoder and the fields are exactly those given by Step; skipped counts the packets the decoder has swallowed so far |
| Pairing.Fit | src/Main.cpp:94-97 | the bitmap compared against the original always has the original's dimensions; it is the transformed bitmap itself when the dimensions already agree, and otherwise the transformed bitmap scaled to the original's width and height |
| Pairing.Run | src/Main.cpp:86-101 | the rows of the loop are numbered i + 1, i + 2, ... in order, so the printed index strictly increases from 1 |
| Pairing.RunRowPairsReads | src/Main.cpp:86-100 | row k pairs the (k+1)-th reads of both readers, has index i+k+1, carries the transformed reader's last_keyframe_pos after that read, and compares the original bitmap as read against the fitted transformed one |
| Pairing.RunEndsAtFirstMismatch | src/Main.cpp:87-94 | the loop ends at the first pair of reads that is not two bitmaps: Completed exactly when both are null, Aborted exactly when either aborts, NullDereference exactly when neither aborts and exactly one is null |
| Pairing.RunPairsReads | src/Main.cpp:86-101 | the whole loop in terms of the two read sequences: every row comes from a pair of bitmaps, and the ending is decided by the first pair that is not |
| Pairing.KeyframeColumn | src/Main.cpp:100 | from fresh readers, row k's keyframe column is the position of the last keyframe the transformed reader has fetched by its (k+1)-th read, or 0 |
| Pairing.Iteration | src/Main.cpp:87-100 | one pass of the loop body either prints the next row of Run and leaves the rest to later passes, or stops with Run's ending; after a printed row, fewer decoder answers are pending |
| Pairing.Compare | src/Main.cpp:86-101 | the loop prints exactly Run's rows and ends as Run does |
| Pairing.CompareFiles | src/Main.cpp:83-101 | opening both readers and running the loop prints exactly Run's rows from the initial states, and ends as Run does |

## Left out

- The demuxer and decoder internals behind `fetchRawFrame` and `decode` are foreign code. The file is a fixed list of packets. The decoder is an oracle with a finite list of answers, which do not depend on the packet contents. This finiteness is what bounds the drain phase, which in the source ends only when the real decoder stops answering.
- `Bitmap::SSIM` is floating-point numerics, so it is a function parameter. It is required to be defined on every pair of bitmaps with equal dimensions.
- The pixel work of `Bitmap::scale` is a function parameter too. Only its dimension contract is kept: the result has the requested width and height.
- `printf` formatting and the `std::cerr` messages are I/O and are not modelled. A row is a value, and `exit(1)` is the result `Abort` with the ending `Aborted`.
- Argument-count checking, `av_register_all`, `avcodec_register_all` and the exception handlers of `main` are command-line and library plumbing.
- Memory ownership is not modelled: the `new` in the constructor without a destructor, and the `unique_ptr` swap after scaling, which the model replaces by using the scaled bitmap.
- `check_frame` is never called, so it is not modelled.
- FrameReader.Step: `int` widths are not modelled. `skipped` is unbounded, where the source's 32-bit `int` could overflow. `last_keyframe_pos` takes the packet position unchanged. The model does not capture a narrowing of that position to `int` in the assignment at src/Main.cpp:52, which comes after the sign check at line 46. The header that declares `RawFrame::getPos` is not shown, and is not part of this model.
- FrameReader.NullIsFinal: a null from read is final only when skipped is 0. While skipped is non-zero, every later call flushes again, and a decoder that still answers turns a null into a bitmap, as FrameReader.NullThenFrame shows. Whether a real decoder does so is not shown in the source, so the model promises nothing more for that case.
- Pairing.Run: the null dereference is modelled as the ending `NullDereference`. What the process actually does after that undefined behaviour is not modelled. The loop index `i` (src/Main.cpp:86, 100) is unbounded, where the source's 32-bit `int` could overflow.
