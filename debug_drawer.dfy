/**
 * DebugDrawer's line-vertex list: a vector whose capacity is fixed when the drawer
 * is created, filled two vertices at a time by addLine and emptied by render.
 */
module DebugDrawing {
  import opened Basics

  datatype LineVertex = LineVertex(position: Vec3, color: Vec3)

  /** Four corners, as DebugDrawer::Quad. */
  datatype Quad = Quad(p0: Vec3, p1: Vec3, p2: Vec3, p3: Vec3)

  /** The value-initialised vertex that vector::resize fills in. */
  const ZeroVertex := LineVertex(Vec3(0.0, 0.0, 0.0), Vec3(0.0, 0.0, 0.0))

  /** The vertices of the line a->b in the given colour. */
  function LineVertices(a: Vec3, b: Vec3, color: Vec3): (r: seq<LineVertex>)
    ensures |r| == 2 && r[0].position == a && r[1].position == b
    ensures r[0].color == color && r[1].color == color
  {
    [LineVertex(a, color), LineVertex(b, color)]
  }

  /** The closed outline of a quad: edges q0->q1, q1->q2, q2->q3, q3->q0, in that order. */
  function QuadOutline(q: Quad, color: Vec3): (r: seq<LineVertex>)
    ensures |r| == 8
    ensures forall i :: 0 <= i < 8 ==> r[i].color == color
    ensures r[0].position == q.p0 && r[1].position == q.p1
    ensures r[2].position == q.p1 && r[3].position == q.p2
    ensures r[4].position == q.p2 && r[5].position == q.p3
    ensures r[6].position == q.p3 && r[7].position == q.p0
  {
    LineVertices(q.p0, q.p1, color) + LineVertices(q.p1, q.p2, color)
    + LineVertices(q.p2, q.p3, color) + LineVertices(q.p3, q.p0, color)
  }

  class DebugDrawer {
    /** mVertexData */
    var vertices: seq<LineVertex>
    /** mVertexData.capacity(), which stays at maxVertices: resize reserves it and clear keeps it. */
    const capacity: nat
    /** mCurrentColor */
    var currentColor: Vec3

    predicate Valid()
      reads this
    {
      |vertices| <= capacity
    }

    /**
     * DebugDrawer(maxVertices): the vertex list is resized to maxVertices, so it
     * starts full of zero vertices. The vertex buffer and VAO are not modelled.
     */
    constructor (maxVertices: nat, color: Vec3)
      ensures Valid()
      ensures capacity == maxVertices && currentColor == color
      ensures |vertices| == maxVertices
      ensures forall i :: 0 <= i < |vertices| ==> vertices[i] == ZeroVertex
    {
      capacity := maxVertices;
      currentColor := color;
      vertices := seq(maxVertices, _ => ZeroVertex);
    }

    /** setColor */
    method SetColor(color: Vec3)
      modifies this
      ensures currentColor == color && vertices == old(vertices)
    {
      currentColor := color;
    }

    /** addLine: appends a then b in the current colour when two vertices still fit; otherwise does nothing. */
    method AddLine(a: Vec3, b: Vec3)
      requires Valid()
      modifies this
      ensures Valid()
      ensures currentColor == old(currentColor)
      ensures capacity - old(|vertices|) >= 2 ==> vertices == old(vertices) + LineVertices(a, b, currentColor)
      ensures capacity - old(|vertices|) < 2 ==> vertices == old(vertices)
    {
      if capacity - |vertices| >= 2 {
        vertices := vertices + [LineVertex(a, currentColor)];
        vertices := vertices + [LineVertex(b, currentColor)];
      }
    }

    /**
     * addQuad: four addLine calls around the quad. Whatever fits is a prefix of the
     * quad's outline, made of whole lines: as many of the four lines as there are free
     * vertex pairs.
     */
    method AddQuad(q: Quad)
      requires Valid()
      modifies this
      ensures Valid()
      ensures currentColor == old(currentColor)
      ensures var lines := if (capacity - old(|vertices|)) / 2 < 4 then (capacity - old(|vertices|)) / 2 else 4;
        vertices == old(vertices) + QuadOutline(q, currentColor)[..2 * lines]
      ensures capacity - old(|vertices|) >= 8 ==> vertices == old(vertices) + QuadOutline(q, currentColor)
      ensures |vertices| <= old(|vertices|) + 8
    {
      ghost var start := vertices;
      ghost var outline := QuadOutline(q, currentColor);
      AddLine(q.p0, q.p1);
      AddLine(q.p1, q.p2);
      AddLine(q.p2, q.p3);
      AddLine(q.p3, q.p0);
      ghost var free := capacity - |start|;
      if free >= 8 {
        assert vertices == start + outline;
      } else if free >= 6 {
        assert vertices == start + outline[..6];
      } else if free >= 4 {
        assert vertices == start + outline[..4];
      } else if free >= 2 {
        assert vertices == start + outline[..2];
      } else {
        assert vertices == start + outline[..0];
      }
    }

    /**
     * render: draws exactly as many vertices as the list holds, then clears the list
     * (its capacity is kept). The upload and the draw call are not modelled; the
     * returned count is the draw call's vertex count.
     */
    method Render() returns (drawn: nat)
      requires Valid()
      modifies this
      ensures Valid()
      ensures drawn == old(|vertices|)
      ensures vertices == [] && currentColor == old(currentColor)
    {
      drawn := |vertices|;
      vertices := [];
    }
  }

  /**
   * A freshly created drawer is full: lines are ignored until the first render, and
   * after it lines are kept again.
   */
  method StartsFullUntilRender(maxVertices: nat, color: Vec3, a: Vec3, b: Vec3)
    returns (ignored: seq<LineVertex>, drawn: nat, kept: seq<LineVertex>)
    ensures ignored == seq(maxVertices, _ => ZeroVertex)
    ensures drawn == maxVertices
    ensures maxVertices >= 2 ==> kept == LineVertices(a, b, color)
    ensures maxVertices < 2 ==> kept == []
  {
    var d := new DebugDrawer(maxVertices, color);
    d.AddLine(a, b);
    ignored := d.vertices;
    drawn := d.Render();
    d.AddLine(a, b);
    kept := d.vertices;
  }
}
