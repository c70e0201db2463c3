/** The lights of the Whitted and path-tracing scenes (`Light` and
    `AreaLight` in assignment_6/include and assignment_7/include): a point
    light has a position and an intensity; an area light adds a side
    length, a normal and two spanning vectors. */
module Lights {
  import opened Vectors

  datatype Light =
    | PointLight(position: Vec3, intensity: Vec3)
    | AreaLight(position: Vec3, intensity: Vec3, length: real, normal: Vec3, u: Vec3, v: Vec3)

  /** The `AreaLight` constructor: a 100-unit square facing down, spanned by
      the x and z axes. */
  function NewAreaLight(p: Vec3, i: Vec3): Light {
    AreaLight(p, i, 100.0, Vec3(0.0, -1.0, 0.0), Vec3(1.0, 0.0, 0.0), Vec3(0.0, 0.0, 1.0))
  }
}
