/**
 * The internal sample types the service moves around (namespace msensor).
 * Floating-point fields are modelled as `real`: they are only copied and
 * compared, never computed with. Timestamps are microseconds as `nat`.
 */
module Samples {

  /** One unsigned 8-bit value: a JPEG byte or one channel of a pixel. */
  newtype byte = x: int | 0 <= x < 256

  /** A point of a 3D scan with its return intensity (Point3I). */
  datatype Point3I = Point3I(x: real, y: real, z: real, intensity: real)

  /**
   * The intensity a point gets when it is built from (x, y, z) alone.
   * The point type's header is not part of this model; its default
   * intensity is taken to be zero.
   */
  const DefaultIntensity: real := 0.0

  /** A 3D scan: timestamped list of points (Scan3DI). */
  datatype Scan3DI = Scan3DI(points: seq<Point3I>, timestamp: nat)

  /** A 6-axis inertial sample: accelerations and angular rates (IMUData). */
  datatype ImuData = ImuData(ax: real, ay: real, az: real,
                             gx: real, gy: real, gz: real,
                             timestamp: nat)

  /** One single-ended analog reading (AdcSample). */
  datatype AdcSample = AdcSample(voltage: real, timestamp: nat)

  /**
   * An image as the camera stream sees it: its shape and its bytes.
   * The wire conversion reads only the shape; the bytes go to the encoder.
   */
  datatype Mat = Mat(rows: int, cols: int, channels: int, data: seq<byte>)

  /** A timestamped image (CameraFrame). */
  datatype CameraFrame = CameraFrame(mat: Mat, timestamp: nat)
}
