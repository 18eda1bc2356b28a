/**
 * The keyframe list of an ObjectPath, as far as the path editor uses it. The
 * ObjectPath implementation itself is not part of this model. The path component is
 * described as keeping its keyframes sorted by time, with addKeyFrame and setFrameTime
 * returning the index at which the frame lands; the bodies below are a stand-in with
 * that behaviour. Where a frame goes among frames of equal time (after them) is a
 * choice made here, not taken from ObjectPath's code.
 */
module ObjectPaths {
  import opened Basics

  datatype KeyFrame = KeyFrame(time: real, position: Vec3, target: Vec3, up: Vec3)

  /** The index at which a keyframe with the given time is inserted: after every frame that is not later. */
  function InsertPosition(frames: seq<KeyFrame>, time: real): (i: nat)
    ensures i <= |frames|
    ensures forall j :: 0 <= j < i ==> frames[j].time <= time
    ensures i < |frames| ==> time < frames[i].time
  {
    if frames == [] || time < frames[0].time then 0
    else 1 + InsertPosition(frames[1..], time)
  }

  function Insert(frames: seq<KeyFrame>, frame: KeyFrame): (r: seq<KeyFrame>)
    ensures |r| == |frames| + 1
    ensures r[InsertPosition(frames, frame.time)] == frame
    ensures multiset(r) == multiset(frames) + multiset{frame}
  {
    var i := InsertPosition(frames, frame.time);
    assert frames == frames[..i] + frames[i..];
    frames[..i] + [frame] + frames[i..]
  }

  class ObjectPath {
    var frames: seq<KeyFrame>

    constructor (frames: seq<KeyFrame>)
      ensures this.frames == frames
    {
      this.frames := frames;
    }

    /** addKeyFrame: the returned index holds the new keyframe and is below the new count. */
    method AddKeyFrame(time: real, position: Vec3, target: Vec3, up: Vec3) returns (index: nat)
      modifies this
      ensures frames == Insert(old(frames), KeyFrame(time, position, target, up))
      ensures index < |frames| && frames[index] == KeyFrame(time, position, target, up)
    {
      index := InsertPosition(frames, time);
      frames := Insert(frames, KeyFrame(time, position, target, up));
    }

    /** removeKeyFrame: later keyframes move down by one. */
    method RemoveKeyFrame(i: nat)
      requires i < |frames|
      modifies this
      ensures frames == RemoveAt(old(frames), i)
    {
      frames := RemoveAt(frames, i);
    }

    /** setFrameTime: the keyframe is re-placed by its new time; its new index is returned. */
    method SetFrameTime(i: nat, time: real) returns (index: nat)
      requires i < |frames|
      modifies this
      ensures |frames| == old(|frames|)
      ensures index < |frames|
      ensures frames[index] == old(frames[i]).(time := time)
      ensures frames == Insert(RemoveAt(old(frames), i), old(frames[i]).(time := time))
    {
      var moved := frames[i].(time := time);
      var rest := RemoveAt(frames, i);
      index := InsertPosition(rest, time);
      frames := Insert(rest, moved);
    }
  }
}
