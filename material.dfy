/** The surface material record (src/internal/entitiy/material.rs). */
module Materials {
  import opened Colors

  /** Albedo is the source's `[f32; 2]`: the diffuse weight, then the specular weight. */
  datatype Material = Material(
    diffuse: Color,
    specular: real,
    albedo: (real, real),
    reflectivity: real,
    transparency: real,
    refractiveIndex: real)

  /** Material::black(): the canonical all-zero material. Its refractive index
      is 0, not the 1 of vacuum. */
  function Black(): (m: Material)
    ensures m.diffuse == Color(0, 0, 0)
    ensures m.specular == 0.0 && m.albedo == (0.0, 0.0)
    ensures m.reflectivity == 0.0 && m.transparency == 0.0
    ensures m.refractiveIndex == 0.0
  {
    Material(Color(0, 0, 0), 0.0, (0.0, 0.0), 0.0, 0.0, 0.0)
  }
}
