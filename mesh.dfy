/** The in-memory container behind the mesh loader.

    A mesh owns four insertion-ordered lists: its elements, its surfaces, its
    vertices, and an auxiliary list of vertices gathered per element. Each
    list only grows at its end or has one slot replaced, so a position once
    assigned keeps naming the same entry. Index-based access is bounds
    checked (`std::vector::at`): an index at or past the end is reported as
    `OutOfRange` and leaves the mesh as it was. */
module MeshModel {
  import opened Entities
  import opened VertexLookup

  class Mesh {
    var elements: seq<Element>
    var surfaces: seq<Surface>
    var vertices: seq<Vertex>
    var vertexElements: seq<Vertex>

    /** A new mesh holds no elements, surfaces or vertices. */
    constructor ()
      ensures elements == [] && surfaces == [] && vertices == []
      ensures vertexElements == []
    {
      elements := [];
      surfaces := [];
      vertices := [];
      vertexElements := [];
    }

    /** Replaces the element at `index`; fails, changing nothing, when the
        index is not below the element count. */
    method SetElement(index: u32, e: Element) returns (s: Status)
      modifies this
      ensures index as int < |old(elements)| ==> s == Done && elements == old(elements)[index as int := e]
      ensures index as int >= |old(elements)| ==>
                s == Failed(OutOfRange(index as nat, |old(elements)|)) && elements == old(elements)
      ensures |elements| == |old(elements)|
      ensures surfaces == old(surfaces) && vertices == old(vertices)
      ensures vertexElements == old(vertexElements)
    {
      if index as int < |elements| {
        elements := elements[index as int := e];
        s := Done;
      } else {
        s := Failed(OutOfRange(index as nat, |elements|));
      }
    }

    /** Appends an element at the end of the element list. */
    method AddElement(e: Element)
      modifies this
      ensures elements == old(elements) + [e]
      ensures surfaces == old(surfaces) && vertices == old(vertices)
      ensures vertexElements == old(vertexElements)
    {
      elements := elements + [e];
    }

    /** The element stored at `index`, or `OutOfRange` past the end. */
    method ElementAt(index: u32) returns (r: Result<Element>)
      ensures index as int < |elements| <==> r.Ok?
      ensures r.Ok? ==> r.value == elements[index as int]
      ensures r.Err? ==> r.error == OutOfRange(index as nat, |elements|)
    {
      if index as int < |elements| {
        r := Ok(elements[index as int]);
      } else {
        r := Err(OutOfRange(index as nat, |elements|));
      }
    }

    /** A copy of the whole element list, in insertion order. */
    method ElementList() returns (es: seq<Element>)
      ensures es == elements
    {
      es := elements;
    }

    /** Replaces the surface at `index`; fails, changing nothing, when the
        index is not below the surface count. */
    method SetSurface(index: u32, f: Surface) returns (s: Status)
      modifies this
      ensures index as int < |old(surfaces)| ==> s == Done && surfaces == old(surfaces)[index as int := f]
      ensures index as int >= |old(surfaces)| ==>
                s == Failed(OutOfRange(index as nat, |old(surfaces)|)) && surfaces == old(surfaces)
      ensures |surfaces| == |old(surfaces)|
      ensures elements == old(elements) && vertices == old(vertices)
      ensures vertexElements == old(vertexElements)
    {
      if index as int < |surfaces| {
        surfaces := surfaces[index as int := f];
        s := Done;
      } else {
        s := Failed(OutOfRange(index as nat, |surfaces|));
      }
    }

    /** Appends a surface at the end of the surface list. */
    method AddSurface(f: Surface)
      modifies this
      ensures surfaces == old(surfaces) + [f]
      ensures elements == old(elements) && vertices == old(vertices)
      ensures vertexElements == old(vertexElements)
    {
      surfaces := surfaces + [f];
    }

    /** The surface stored at `index`, or `OutOfRange` past the end. */
    method SurfaceAt(index: u32) returns (r: Result<Surface>)
      ensures index as int < |surfaces| <==> r.Ok?
      ensures r.Ok? ==> r.value == surfaces[index as int]
      ensures r.Err? ==> r.error == OutOfRange(index as nat, |surfaces|)
    {
      if index as int < |surfaces| {
        r := Ok(surfaces[index as int]);
      } else {
        r := Err(OutOfRange(index as nat, |surfaces|));
      }
    }

    /** A copy of the whole surface list, in insertion order. */
    method SurfaceList() returns (fs: seq<Surface>)
      ensures fs == surfaces
    {
      fs := surfaces;
    }

    /** Appends a vertex to the auxiliary per-element vertex list only. */
    method AddVertexElement(v: Vertex)
      modifies this
      ensures vertexElements == old(vertexElements) + [v]
      ensures elements == old(elements) && surfaces == old(surfaces)
      ensures vertices == old(vertices)
    {
      vertexElements := vertexElements + [v];
    }

    /** Appends a vertex at the end of the vertex list; it becomes the answer
        of the lookup for its own id, and every other id's answer stays. */
    method AddVertex(v: Vertex)
      modifies this
      ensures vertices == old(vertices) + [v]
      ensures elements == old(elements) && surfaces == old(surfaces)
      ensures vertexElements == old(vertexElements)
      ensures LastWithId(vertices, v.id) == Some(v)
      ensures forall id :: id != v.id ==> LastWithId(vertices, id) == LastWithId(old(vertices), id)
    {
      vertices := vertices + [v];
      LastWithIdAppend(old(vertices), v, v.id);
      forall id | id != v.id
        ensures LastWithId(vertices, id) == LastWithId(old(vertices), id)
      {
        LastWithIdAppend(old(vertices), v, id);
      }
    }

    /** The vertex stored at `index`, or `OutOfRange` past the end. */
    method VertexAt(index: u32) returns (r: Result<Vertex>)
      ensures index as int < |vertices| <==> r.Ok?
      ensures r.Ok? ==> r.value == vertices[index as int]
      ensures r.Err? ==> r.error == OutOfRange(index as nat, |vertices|)
    {
      if index as int < |vertices| {
        r := Ok(vertices[index as int]);
      } else {
        r := Err(OutOfRange(index as nat, |vertices|));
      }
    }

    /** The last vertex in list order whose id is `id`, or `None` (the null
        handle) when no vertex has that id. */
    method VertexAtId(id: u32) returns (r: Option<Vertex>)
      ensures r == LastWithId(vertices, id as nat)
      ensures r.None? <==> forall k :: 0 <= k < |vertices| ==> vertices[k].id != id as nat
      ensures r.Some? ==> r.value.id == id as nat
      ensures r.Some? ==> exists k :: 0 <= k < |vertices| && vertices[k] == r.value &&
                                      forall j :: k < j < |vertices| ==> vertices[j].id != id as nat
    {
      r := None;
      var i := 0;
      while i < |vertices|
        invariant 0 <= i <= |vertices|
        invariant r == LastWithId(vertices[..i], id as nat)
      {
        assert vertices[..i + 1][..i] == vertices[..i];
        if vertices[i].id == id as nat {
          r := Some(vertices[i]);
        }
        i := i + 1;
      }
      assert vertices[..i] == vertices;
      LastWithIdNoneIff(vertices, id as nat);
      if r.Some? {
        LastWithIdSome(vertices, id as nat);
      }
    }

    /** A copy of the whole vertex list, in insertion order. */
    method VertexList() returns (vs: seq<Vertex>)
      ensures vs == vertices
    {
      vs := vertices;
    }
  }
}
