# Mesh container model

This project models the in-memory container behind a finite-element mesh
loader: the `Mesh` class of `include/mesh.h`. A mesh owns four
insertion-ordered lists — elements, surfaces, vertices, and an auxiliary list
of vertices gathered per element — and offers, for each, appending at the
end, bounds-checked replacement and reading by index, copies of the whole
list, and a lookup of a vertex by its numeric id.

Layout:

- `entities.dfy` (module `Entities`): the `u32` type of the C++ `unsigned`
  parameters; `Element`, `Surface` and `Vertex` as values carrying a `handle`
  that stands for the identity of the shared object (a `Vertex` also carries
  its `id`); `Option` for a nullable handle; `MeshError`, `Result` and
  `Status` for the `std::out_of_range` failure of `std::vector::at`.
- `lookup.dfy` (module `VertexLookup`): `LastWithId`, the meaning of the
  lookup by id (the last vertex in list order with that id, or none), its
  characterisation lemmas, and `LastIndexMap`, an id-to-position table that
  gives the same answers.
- `mesh.dfy` (module `MeshModel`): class `Mesh` with one `seq` field per list
  and one method per operation. The lookup by id is a `while` loop that, like
  the source's `for` loop, overwrites its answer on every match; it is proved
  equal to `LastWithId`.

Each method that changes the mesh states its whole new state: which list
changed, how, and that the other three are untouched. Reading by index or by
id, and the list copies, change nothing (they have no `modifies` clause).

`std::vector::at` throws before it assigns, so an out-of-range index is
modelled as an `OutOfRange(index, size)` result with the mesh left as it was,
rather than as a precondition.

The design description of this system asserts that vertex ids are unique
within a mesh. The code does not enforce this: `vertex_ptr` appends any vertex,
and `vertex_ptr_at_id` returns the last match. The model follows the code
(`LastWithId` is last-match-wins on any list) and proves separately, in
`LastWithIdUnique`, that under unique ids the lookup finds exactly the vertex
carrying the id.

## Model

| member | source | states |
|---|---|---|
| `MeshModel.Mesh.constructor` | include/mesh.h:21-25 | a new mesh has empty element, surface and vertex lists (and an empty auxiliary list) |
| `MeshModel.Mesh.SetElement` | include/mesh.h:43-45 | below the element count, that slot now holds the new element and nothing else changes; at or past it, `OutOfRange(index, count)` is reported and the mesh is unchanged; the length and the other three lists never change |
| `MeshModel.Mesh.AddElement` | include/mesh.h:48-50 | the element list grows by exactly the new element at its end; earlier elements and the other lists are unchanged |
| `MeshModel.Mesh.ElementAt` | include/mesh.h:53-55 | succeeds exactly when the index is below the element count, then returns the element stored at that position; otherwise reports `OutOfRange(index, count)` |
| `MeshModel.Mesh.ElementList` | include/mesh.h:58-60 | returns the current element list, in insertion order, without changing the mesh |
| `MeshModel.Mesh.SetSurface` | include/mesh.h:63-65 | below the surface count, that slot now holds the new surface and nothing else changes; otherwise `OutOfRange(index, count)` and the mesh is unchanged |
| `MeshModel.Mesh.AddSurface` | include/mesh.h:68-70 | the surface list grows by exactly the new surface at its end; the other lists are unchanged |
| `MeshModel.Mesh.SurfaceAt` | include/mesh.h:73-75 | succeeds exactly when the index is below the surface count, then returns the surface at that position; otherwise `OutOfRange(index, count)` |
| `MeshModel.Mesh.SurfaceList` | include/mesh.h:78-80 | returns the current surface list without changing the mesh |
| `MeshModel.Mesh.AddVertexElement` | include/mesh.h:83-86 | appends to the auxiliary per-element vertex list only; element, surface and vertex lists are untouched |
| `MeshModel.Mesh.AddVertex` | include/mesh.h:89-91 | the vertex list grows by exactly the new vertex at its end, the other lists are unchanged, the lookup of the new vertex's id now returns it and the lookup of every other id is unaffected |
| `MeshModel.Mesh.VertexAt` | include/mesh.h:94-96 | succeeds exactly when the index is below the vertex count, then returns the vertex at that position; otherwise `OutOfRange(index, count)` |
| `MeshModel.Mesh.VertexAtId` | include/mesh.h:99-106 | the scan's answer is null exactly when no vertex has the id; a returned vertex has the id, is in the list, and no later vertex has the id (last match wins); the mesh is not changed |
| `MeshModel.Mesh.VertexList` | include/mesh.h:109-111 | returns the current vertex list without changing the mesh |
| `VertexLookup.LastWithIdNoneIff` | include/mesh.h:99-106 | the lookup yields null if and only if no vertex of the list carries the id |
| `VertexLookup.LastWithIdSome` | include/mesh.h:101-104 | a vertex the lookup yields carries the id, occurs in the list, and no vertex after that occurrence carries the id |
| `VertexLookup.LastWithIdAppend` | include/mesh.h:99-106 | appending a vertex makes it the lookup's answer for its id and leaves every other id's answer as it was |
| `VertexLookup.LastWithIdUnique` | include/mesh.h:99-106 | when no two vertices share an id, looking up any listed vertex's id yields exactly that vertex |
| `VertexLookup.LastIndexMapAgrees` | include/mesh.h:99-106 | an id-to-last-position table has an entry exactly for the ids present, each entry points at a vertex with that id, and reading through it gives the same answer as the linear scan |

## Left out

- File parsing (`read_msh_file`, `read_keyword`, `read_elements`, `read_vertices`, `read_surfaces`): only declared in `include/mesh.h`; their bodies are in `mesh.tcc`, which is not part of this model, and they are file-stream I/O.
- Shared-pointer reference counting and aliasing: entries are values whose `handle` stands for the shared object's identity; two lists holding the same handle are not modelled as sharing one mutable object.
- The internals of `Element`, `Surface` and `Vertex` and of `settings.h`: not part of this model. Vertex coordinates are floating point and are omitted; only the vertex `id` is kept. The integer type `id()` returns is not visible, so it is an unbounded `nat`, compared with the `unsigned` query as a number.
- The C++ exception mechanism of `std::vector::at`: an out-of-range index is an explicit `OutOfRange` result instead of a thrown `std::out_of_range`.
- Memory exhaustion on `push_back`: appends are assumed always to succeed.
