/** Value types shared by the rasterizer, the planner and the geometry helpers. */
module Types {

  /** An optional value; stands for JavaScript's `undefined`/`null` and for sentinel values. */
  datatype Option<T> = None | Some(value: T)

  /** A three.js `Vector3`, reduced to its coordinates. Sketched boundaries lie in the y = 0 plane. */
  datatype Vec3 = Vec3(x: real, y: real, z: real)

  /**
   * A grid cell, anchored at its corner (x, z). `inside` is the flag the cell record carries;
   * `index` is set only once the cell is kept as an inside cell.
   */
  datatype Cell = Cell(x: real, z: real, inside: bool, index: Option<nat>)
}
