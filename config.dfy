/** The fixed configuration of the thermal camera script: temperature range,
    sensor and display geometry, and palette size. */
module Config {
  /** Temperature (degrees C) drawn with the first palette entry. */
  const MinTemp: real := 20.0
  /** Temperature (degrees C) drawn with the last palette entry. */
  const MaxTemp: real := 50.0

  /** The MLX90640 grid is 32 columns by 24 rows, row-major. */
  const SrcW: int := 32
  const SrcH: int := 24
  const FrameSize: int := SrcW * SrcH

  /** Number of palette entries. */
  const ColorDepth: int := 1000
}
