/**
 * PathRenderer::renderPath's vertex list: for every segment between consecutive
 * keyframes, ten line pieces sampled along the segment, each piece starting where
 * the previous one ended. The path's sampling (getFrameAt) is a parameter:
 * frameAt(f, i) is the position getFrameAt returns for segment f at t = i / 10.
 */
module PathRendering {
  import opened Basics
  import Framework

  /** Line pieces per keyframe segment (the local constant `detail`). */
  const Detail: nat := 10
  /** Vertices emitted per keyframe segment: two per piece. */
  const SegmentVertices: nat := 2 * Detail

  /** The position the vertex at index k of a rendered path samples. */
  function SampleOfVertex(frameAt: (nat, nat) -> Vec3, k: nat): Vec3
  {
    frameAt(k / SegmentVertices, (k % SegmentVertices + 1) / 2)
  }

  /** v holds the vertex pairs of `segments` keyframe segments, in order. */
  ghost predicate IsPolyline(v: seq<Vec3>, frameAt: (nat, nat) -> Vec3, segments: nat)
  {
    && |v| == SegmentVertices * segments
    && forall k :: 0 <= k < |v| ==> v[k] == SampleOfVertex(frameAt, k)
  }

  /** The first and second vertex of piece p (0 <= p < Detail) of segment f. */
  function PieceStart(v: seq<Vec3>, f: nat, p: nat): Vec3
    requires SegmentVertices * f + 2 * p + 1 < |v|
  {
    v[SegmentVertices * f + 2 * p]
  }

  function PieceEnd(v: seq<Vec3>, f: nat, p: nat): Vec3
    requires SegmentVertices * f + 2 * p + 1 < |v|
  {
    v[SegmentVertices * f + 2 * p + 1]
  }

  lemma PieceIndices(f: nat, p: nat)
    requires p < Detail
    ensures (SegmentVertices * f + 2 * p) / SegmentVertices == f
    ensures (SegmentVertices * f + 2 * p) % SegmentVertices == 2 * p
    ensures (SegmentVertices * f + 2 * p + 1) / SegmentVertices == f
    ensures (SegmentVertices * f + 2 * p + 1) % SegmentVertices == 2 * p + 1
  {
    Framework.DivisionUnique(SegmentVertices * f + 2 * p, SegmentVertices, f, 2 * p);
    Framework.DivisionUnique(SegmentVertices * f + 2 * p + 1, SegmentVertices, f, 2 * p + 1);
  }

  /**
   * What a rendered path looks like piece by piece: piece p of segment f runs from
   * sample p to sample p + 1 of that segment, so the first piece starts at the
   * segment's t = 0 sample, the last ends at its t = 1 sample, and each piece starts
   * where the previous one ended.
   */
  lemma {:induction false} PolylinePieces(v: seq<Vec3>, frameAt: (nat, nat) -> Vec3, segments: nat)
    requires IsPolyline(v, frameAt, segments)
    ensures forall f, p :: 0 <= f < segments && 0 <= p < Detail ==>
      SegmentVertices * f + 2 * p + 1 < |v|
      && PieceStart(v, f, p) == frameAt(f, p) && PieceEnd(v, f, p) == frameAt(f, p + 1)
    ensures forall f, p :: 0 <= f < segments && 0 < p < Detail ==>
      SegmentVertices * f + 2 * p + 1 < |v| && PieceStart(v, f, p) == PieceEnd(v, f, p - 1)
    ensures forall f :: 0 <= f < segments ==>
      SegmentVertices * f + 1 < |v| && PieceStart(v, f, 0) == frameAt(f, 0)
  {
    forall f, p | 0 <= f < segments && 0 <= p < Detail
      ensures SegmentVertices * f + 2 * p + 1 < |v|
      ensures PieceStart(v, f, p) == frameAt(f, p) && PieceEnd(v, f, p) == frameAt(f, p + 1)
    {
      PieceIndices(f, p);
      Framework.MulAddOne(f, segments - f - 1, SegmentVertices);
    }
  }

  class PathRenderer {
    /** mVertexData */
    var vertices: seq<Vec3>

    /** PathRenderer(maxVertices): the vertex list is resized to maxVertices zero positions. */
    constructor (maxVertices: nat)
      ensures |vertices| == maxVertices
      ensures forall i :: 0 <= i < |vertices| ==> vertices[i] == Vec3(0.0, 0.0, 0.0)
    {
      vertices := seq(maxVertices, _ => Vec3(0.0, 0.0, 0.0));
    }

    /**
     * The vertex-list part of renderPath for a path of keyFrameCount keyframes. The
     * list is cleared, then each segment pushes its ten pieces; vertexCount counts the
     * pushes and is the count handed to the upload and draw (not modelled).
     * getKeyFrameCount() - 1 is unsigned, so the caller must pass a path with at least
     * one keyframe. Nothing limits the pushes to maxVertices.
     */
    method RenderPath(keyFrameCount: nat, frameAt: (nat, nat) -> Vec3) returns (vertexCount: nat)
      requires keyFrameCount >= 1
      modifies this
      ensures vertexCount == |vertices| == SegmentVertices * (keyFrameCount - 1)
      ensures IsPolyline(vertices, frameAt, keyFrameCount - 1)
      ensures forall k :: 0 <= k < |vertices| ==> vertices[k] == SampleOfVertex(frameAt, k)
    {
      vertices := [];
      vertexCount := 0;
      var frameID: nat := 0;
      while frameID < keyFrameCount - 1
        invariant frameID <= keyFrameCount - 1
        invariant vertexCount == |vertices| == SegmentVertices * frameID
        invariant forall k :: 0 <= k < |vertices| ==> vertices[k] == SampleOfVertex(frameAt, k)
      {
        var lastFrame := frameAt(frameID, 0);
        var i: nat := 1;
        while i <= Detail
          invariant 1 <= i <= Detail + 1
          invariant vertexCount == |vertices| == SegmentVertices * frameID + 2 * (i - 1)
          invariant lastFrame == frameAt(frameID, i - 1)
          invariant forall k :: 0 <= k < |vertices| ==> vertices[k] == SampleOfVertex(frameAt, k)
        {
          var currFrame := frameAt(frameID, i);
          PieceIndices(frameID, i - 1);
          vertices := vertices + [lastFrame];
          vertices := vertices + [currFrame];
          vertexCount := vertexCount + 2;
          lastFrame := currFrame;
          i := i + 1;
        }
        frameID := frameID + 1;
      }
    }
  }
}
