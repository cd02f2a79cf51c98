/** The entities a mesh holds, and the small result types its accessors return.

    Element, Surface and Vertex are reached in the program through shared
    handles; their own headers are not part of this model. Each is modelled
    as a value carrying a `handle` that stands for the identity of the shared
    object, and a Vertex additionally carries the numeric `id` the lookup by
    id compares against. */
module Entities {

  /** The C++ `unsigned` type used for indices and queried ids. */
  newtype u32 = x: int | 0 <= x < 0x1_0000_0000

  /** A volumetric cell, known here only by its identity. */
  datatype Element = Element(handle: nat)

  /** A boundary face, known here only by its identity. */
  datatype Surface = Surface(handle: nat)

  /** A mesh point: its identity and the id read from the mesh file.
      Coordinates are floating point and are not modelled. */
  datatype Vertex = Vertex(handle: nat, id: nat)

  /** A nullable shared handle: `None` is the null pointer. */
  datatype Option<T> = None | Some(value: T)

  /** The failure `std::vector::at` reports: the index asked for and the
      size of the list at that moment. */
  datatype MeshError = OutOfRange(index: nat, size: nat)

  /** The outcome of a bounds-checked read. */
  datatype Result<T> = Ok(value: T) | Err(error: MeshError)

  /** The outcome of a bounds-checked replacement, which returns nothing. */
  datatype Status = Done | Failed(error: MeshError)
}
