/**
 * The wire records of the sensors RPC service (package sensors).
 * The schema file is not part of this model; the fields are those the
 * conversions and the service set or read.
 */
module Messages {

  import opened Samples

  /** One point of a point-cloud message. */
  datatype PointMsg = PointMsg(x: real, y: real, z: real, intensity: real)

  /** A point-cloud message (PointCloud3). */
  datatype PointCloud3 = PointCloud3(timestamp: nat, points: seq<PointMsg>)

  /** An inertial message (sensors::IMUData). */
  datatype ImuMsg = ImuMsg(ax: real, ay: real, az: real,
                           gx: real, gy: real, gz: real,
                           timestamp: nat)

  /** The image encodings a camera reply can announce. */
  datatype CameraEncoding = UnknownEncoding | Gray8 | Bgr8 | Rgb8 | Mjpeg

  /** One camera frame on the wire (CameraStreamReply). */
  datatype CameraStreamReply = CameraStreamReply(
    width: int, height: int, encoding: CameraEncoding,
    timestamp: nat, imageData: seq<byte>)

  /** A reply as freshly constructed, before any setter runs. */
  const EmptyReply := CameraStreamReply(0, 0, UnknownEncoding, 0, [])

  /** The reply of a unary ADC request (AdcData). */
  datatype AdcData = AdcData(sample: real, timestamp: nat)
}
