// The bounded array stack that drives both the request-batch traversal and the tree build.
module TraversalStack {
  import opened Logs

  /** One stack row: a saved SSTable slot, the current index, and the range it splits. */
  datatype Frame = Frame(offset: nat, current: nat, left: nat, right: nat)

  /** Every frame leaves room above itself for the traversal of its own range. */
  ghost predicate RoomFor(frames: seq<Frame>, length: nat) {
    forall j :: 0 <= j < |frames| && frames[j].left < frames[j].right ==>
      j + DepthNeed(frames[j].right - frames[j].left) <= length
  }

  class Stack {
    const data: array<Frame>
    var back: nat

    ghost predicate Valid()
      reads this
    {
      back <= data.Length
    }

    ghost function Frames(): (s: seq<Frame>)
      requires Valid()
      reads this, data
      ensures |s| == back
    {
      data[..back]
    }

    constructor (length: nat)
      ensures Valid() && fresh(data) && data.Length == length && Frames() == []
    {
      data := new Frame[length];
      back := 0;
    }

    method PushTop(frame: Frame)
      requires Valid() && back < data.Length
      modifies this`back, data
      ensures Valid()
      ensures Frames() == old(Frames()) + [frame]
    {
      data[back] := frame;
      back := back + 1;
    }

    /** The source returns `data[back]`, one row above the row pushed last; the row below is meant. */
    method Top() returns (frame: Frame)
      requires Valid() && Frames() != []
      ensures frame == Frames()[back - 1]
    {
      frame := data[back - 1];
    }

    method PopTop()
      requires Valid() && Frames() != []
      modifies this`back
      ensures Valid()
      ensures Frames() == old(Frames())[..old(back) - 1]
    {
      back := back - 1;
    }

    method Empty() returns (r: bool)
      requires Valid()
      ensures r <==> Frames() == []
    {
      r := back == 0;
    }
  }
}
