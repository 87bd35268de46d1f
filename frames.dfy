/** Values that pass between the video file, the decoder and the frame reader,
    and the two foreign collaborators (the demuxer and the decoder) as oracles. */
module Frames {

  datatype Option<T> = None | Some(value: T)

  /** A demuxed packet: its stream position (negative when the demuxer could
      not determine it) and whether it starts a keyframe. */
  datatype RawFrame = RawFrame(pos: int, isKey: bool)

  /** What the decoder is fed: a packet of the file, or the empty raw frame
      that asks it to give back a frame it is still holding. */
  datatype Packet = Data(raw: RawFrame) | Flush

  /** A decoded picture; its pixels are opaque to the pairing logic. */
  datatype Bitmap = Bitmap(width: int, height: int, pixels: seq<int>)

  predicate SameDimensions(a: Bitmap, b: Bitmap)
  {
    a.width == b.width && a.height == b.height
  }

  /** One input: the packets of the file in stream order, and what the decoder
      answers to its k-th call, whatever it is fed. */
  datatype Stream = Stream(frames: seq<RawFrame>, outcomes: seq<Option<Bitmap>>)

  /** The decoder's answer to its k-th call; it has nothing more to give once
      its recorded answers are used up. */
  function Outcome(outcomes: seq<Option<Bitmap>>, k: nat): Option<Bitmap>
  {
    if k < |outcomes| then outcomes[k] else None
  }

  /** The container being demuxed: a fixed list of packets and a read cursor. */
  class VideoFile {
    const frames: seq<RawFrame>
    var cursor: nat

    ghost predicate Valid()
      reads this
    {
      cursor <= |frames|
    }

    constructor (frames: seq<RawFrame>)
      ensures Valid() && this.frames == frames && cursor == 0
    {
      this.frames := frames;
      cursor := 0;
    }

    /** The next packet, or None once the file is exhausted (and on every
        later call). */
    method FetchRawFrame() returns (raw: Option<RawFrame>)
      requires Valid()
      modifies this
      ensures Valid()
      ensures old(cursor) < |frames| ==> raw == Some(frames[old(cursor)]) && cursor == old(cursor) + 1
      ensures old(cursor) == |frames| ==> raw == None && cursor == old(cursor)
    {
      if cursor < |frames| {
        raw := Some(frames[cursor]);
        cursor := cursor + 1;
      } else {
        raw := None;
      }
    }
  }

  /** The decoder: it records every packet it is fed and answers from its
      oracle, zero or one bitmap per call. */
  class Decoder {
    const outcomes: seq<Option<Bitmap>>
    var fed: seq<Packet>

    constructor (outcomes: seq<Option<Bitmap>>)
      ensures this.outcomes == outcomes && fed == []
    {
      this.outcomes := outcomes;
      fed := [];
    }

    method Decode(p: Packet) returns (out: Option<Bitmap>)
      modifies this
      ensures fed == old(fed) + [p]
      ensures out == Outcome(outcomes, |old(fed)|)
    {
      out := Outcome(outcomes, |fed|);
      fed := fed + [p];
    }
  }
}
