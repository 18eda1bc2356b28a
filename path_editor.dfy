/**
 * PathEditor: the active-frame index and the edited frame time that the editor keeps
 * beside a shared ObjectPath, and the order in which it fires its three callbacks.
 * Each GUI control is replaced by the boolean it returns ("the button fired") and,
 * where it edits a value, by the value it produces.
 */
module PathEditing {
  import opened Basics
  import opened ObjectPaths
  import Framework

  /** The three callbacks handed to the editor at creation. */
  datatype Callback = ActiveChanged | AddRemoveKeyframe | EditComplete

  class PathEditor {
    const path: ObjectPath
    /** mActiveFrame */
    var activeFrame: nat
    /** mFrameTime */
    var frameTime: real
    /** Whether mEditCompleteCB holds a callable target. */
    const hasEditCompleteCB: bool
    /** The callbacks fired so far, oldest first. */
    var fired: seq<Callback>

    /** The active frame indexes a keyframe, or is 0 while the path has none. */
    predicate ActiveFrameInRange()
      reads this, path
    {
      activeFrame < |path.frames| || (|path.frames| == 0 && activeFrame == 0)
    }

    /**
     * PathEditor(pPath, ...): the frame time starts at keyframe 0's time when the path
     * has keyframes. The fields otherwise keep their declared initial values, taken to
     * be 0.
     */
    constructor (path: ObjectPath, hasEditCompleteCB: bool)
      ensures this.path == path && this.hasEditCompleteCB == hasEditCompleteCB
      ensures activeFrame == 0 && fired == []
      ensures |path.frames| > 0 ==> frameTime == path.frames[0].time
      ensures |path.frames| == 0 ==> frameTime == 0.0
      ensures ActiveFrameInRange()
    {
      this.path := path;
      this.hasEditCompleteCB := hasEditCompleteCB;
      activeFrame := 0;
      fired := [];
      frameTime := if |path.frames| > 0 then path.frames[0].time else 0.0;
    }

    /** closeEditor: true exactly when the button fired; the completion callback runs only if one is set. */
    method CloseEditor(buttonFired: bool) returns (closed: bool)
      modifies this
      ensures closed == buttonFired
      ensures fired == old(fired) + (if buttonFired && hasEditCompleteCB then [EditComplete] else [])
      ensures activeFrame == old(activeFrame) && frameTime == old(frameTime)
    {
      if buttonFired {
        if hasEditCompleteCB {
          fired := fired + [EditComplete];
        }
        return true;
      }
      return false;
    }

    /** setActiveFrame(id): the frame time follows the new active keyframe, then the active-changed callback fires. */
    method SetActiveFrame(id: nat)
      requires id < |path.frames|
      modifies this
      ensures activeFrame == id
      ensures frameTime == path.frames[id].time
      ensures fired == old(fired) + [ActiveChanged]
      ensures ActiveFrameInRange()
    {
      activeFrame := id;
      frameTime := path.frames[activeFrame].time;
      fired := fired + [ActiveChanged];
    }

    /**
     * editActiveFrameID: when the path has keyframes, an integer widget ranging over
     * [0, count - 1] edits the active frame; when it reports a change, setActiveFrame
     * is applied to the new value. `picked` is the value the user entered, which the
     * widget clamps to its range.
     */
    method EditActiveFrameID(changed: bool, picked: int)
      requires ActiveFrameInRange()
      modifies this
      ensures ActiveFrameInRange()
      ensures |path.frames| > 0 && changed ==>
        activeFrame == Framework.Clamp(picked, 0, |path.frames| - 1)
        && frameTime == path.frames[activeFrame].time
        && fired == old(fired) + [ActiveChanged]
      ensures !(|path.frames| > 0 && changed) ==>
        activeFrame == old(activeFrame) && frameTime == old(frameTime) && fired == old(fired)
    {
      if |path.frames| > 0 {
        if changed {
          var v := Framework.Clamp(picked, 0, |path.frames| - 1);
          SetActiveFrame(v);
        }
      }
    }

    /**
     * addFrame: the button is offered whatever the keyframe count. When pressed, it
     * inserts a keyframe at the edited frame time with the active keyframe's
     * position, target and up; the returned index becomes active; the add/remove
     * callback fires, then setActiveFrame fires the active-changed callback.
     */
    method AddFrame(buttonFired: bool)
      requires ActiveFrameInRange() && (buttonFired ==> |path.frames| > 0)
      modifies this, path
      ensures ActiveFrameInRange()
      ensures !buttonFired ==> unchanged(this, path)
      ensures buttonFired ==>
        var cur := old(path.frames[activeFrame]);
        var added := KeyFrame(old(frameTime), cur.position, cur.target, cur.up);
        && path.frames == Insert(old(path.frames), added)
        && activeFrame < |path.frames| && path.frames[activeFrame] == added
        && frameTime == old(frameTime)
        && fired == old(fired) + [AddRemoveKeyframe, ActiveChanged]
    {
      if buttonFired {
        var cur := path.frames[activeFrame];
        activeFrame := path.AddKeyFrame(frameTime, cur.position, cur.target, cur.up);
        fired := fired + [AddRemoveKeyframe];
        SetActiveFrame(activeFrame);
      }
    }

    /**
     * deleteFrame: only offered while the path has more than one keyframe. Removes the
     * active keyframe, fires the add/remove callback, clamps the active frame to the
     * new last index and makes it active (firing the active-changed callback).
     */
    method DeleteFrame(buttonFired: bool)
      requires ActiveFrameInRange()
      modifies this, path
      ensures ActiveFrameInRange()
      ensures !(old(|path.frames|) > 1 && buttonFired) ==> unchanged(this, path)
      ensures old(|path.frames|) > 1 && buttonFired ==>
        && path.frames == RemoveAt(old(path.frames), old(activeFrame))
        && activeFrame == (if old(activeFrame) < |path.frames| then old(activeFrame) else |path.frames| - 1)
        && activeFrame < |path.frames|
        && frameTime == path.frames[activeFrame].time
        && fired == old(fired) + [AddRemoveKeyframe, ActiveChanged]
    {
      if |path.frames| > 1 && buttonFired {
        path.RemoveKeyFrame(activeFrame);
        fired := fired + [AddRemoveKeyframe];
        activeFrame := if |path.frames| - 1 < activeFrame then |path.frames| - 1 else activeFrame;
        if |path.frames| > 0 {
          SetActiveFrame(activeFrame);
        }
      }
    }

    /**
     * updateFrame: only offered while the path has keyframes. Moves the active
     * keyframe to the edited frame time; the index setFrameTime returns becomes active;
     * the add/remove callback fires, then the active-changed callback.
     */
    method UpdateFrame(buttonFired: bool)
      requires ActiveFrameInRange()
      modifies this, path
      ensures ActiveFrameInRange()
      ensures !(old(|path.frames|) > 0 && buttonFired) ==> unchanged(this, path)
      ensures old(|path.frames|) > 0 && buttonFired ==>
        var moved := old(path.frames[activeFrame]).(time := old(frameTime));
        && path.frames == Insert(RemoveAt(old(path.frames), old(activeFrame)), moved)
        && activeFrame < |path.frames| && path.frames[activeFrame] == moved
        && frameTime == old(frameTime)
        && fired == old(fired) + [AddRemoveKeyframe, ActiveChanged]
    {
      if |path.frames| > 0 && buttonFired {
        activeFrame := path.SetFrameTime(activeFrame, frameTime);
        fired := fired + [AddRemoveKeyframe];
        SetActiveFrame(activeFrame);
      }
    }
  }
}
