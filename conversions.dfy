/**
 * Field-by-field conversions between the internal samples and the wire
 * records (grpc/conversions.cc): point clouds both ways, inertial samples
 * both ways, and a camera frame to a camera reply.
 */
module Conversions {

  import opened Samples
  import opened Messages

  // ---------------------------------------------------------------------
  // Inertial samples
  // ---------------------------------------------------------------------

  /** toGRPC(IMUData): the wire message carrying the sample's seven fields. */
  function ImuToMsg(imu: ImuData): (m: ImuMsg)
    ensures MsgToImu(m) == imu
  {
    ImuMsg(imu.ax, imu.ay, imu.az, imu.gx, imu.gy, imu.gz, imu.timestamp)
  }

  /** fromGRPC(IMUData): the internal sample read back from a wire message. */
  function MsgToImu(m: ImuMsg): (imu: ImuData)
    ensures imu.ax == m.ax && imu.ay == m.ay && imu.az == m.az
    ensures imu.gx == m.gx && imu.gy == m.gy && imu.gz == m.gz
    ensures imu.timestamp == m.timestamp
  {
    ImuData(m.ax, m.ay, m.az, m.gx, m.gy, m.gz, m.timestamp)
  }

  /** Reading a message into a sample and writing it out again loses nothing. */
  lemma ImuMsgRoundTrip(m: ImuMsg)
    ensures ImuToMsg(MsgToImu(m)) == m
  {
  }

  // ---------------------------------------------------------------------
  // Point clouds
  // ---------------------------------------------------------------------

  /** One point written to the wire: x, y, z and intensity. */
  function PointToMsg(p: Point3I): PointMsg
  {
    PointMsg(p.x, p.y, p.z, p.intensity)
  }

  /** One point built from a wire point: x, y, z only. */
  function MsgToPoint(m: PointMsg): Point3I
  {
    Point3I(m.x, m.y, m.z, DefaultIntensity)
  }

  /** The points of a scan appended, in order, to a point-cloud message. */
  function PointsToMsgs(ps: seq<Point3I>): (ms: seq<PointMsg>)
    ensures |ms| == |ps|
    ensures forall i :: 0 <= i < |ps| ==> ms[i] == PointToMsg(ps[i])
    decreases |ps|
  {
    if ps == [] then [] else PointsToMsgs(ps[..|ps| - 1]) + [PointToMsg(ps[|ps| - 1])]
  }

  /** The points of a message emplaced, in order, into a scan. */
  function MsgsToPoints(ms: seq<PointMsg>): (ps: seq<Point3I>)
    ensures |ps| == |ms|
    ensures forall i :: 0 <= i < |ms| ==> ps[i] == MsgToPoint(ms[i])
    decreases |ms|
  {
    if ms == [] then [] else MsgsToPoints(ms[..|ms| - 1]) + [MsgToPoint(ms[|ms| - 1])]
  }

  // The point-cloud conversions come twice. The methods ToGrpcScan and
  // FromGrpcCloud are the loops of toGRPC(Scan3DI) and fromGRPC(PointCloud3);
  // the functions ScanToCloud and CloudToScan are their specifications, which
  // the methods' postconditions meet and which the service's specification
  // and the lemmas use.

  /** toGRPC(Scan3DI), as a value. */
  function ScanToCloud(scan: Scan3DI): PointCloud3
  {
    PointCloud3(scan.timestamp, PointsToMsgs(scan.points))
  }

  /** fromGRPC(PointCloud3), as a value. */
  function CloudToScan(cloud: PointCloud3): Scan3DI
  {
    Scan3DI(MsgsToPoints(cloud.points), cloud.timestamp)
  }

  /**
   * toGRPC(Scan3DI): set the timestamp, then add one wire point per scan
   * point, in order.
   */
  method ToGrpcScan(scan: Scan3DI) returns (cloud: PointCloud3)
    ensures cloud.timestamp == scan.timestamp
    ensures |cloud.points| == |scan.points|
    ensures forall i :: 0 <= i < |scan.points| ==>
              cloud.points[i] == PointMsg(scan.points[i].x, scan.points[i].y,
                                          scan.points[i].z, scan.points[i].intensity)
    ensures cloud == ScanToCloud(scan)
  {
    cloud := PointCloud3(scan.timestamp, []);
    for i := 0 to |scan.points|
      invariant cloud.timestamp == scan.timestamp
      invariant cloud.points == PointsToMsgs(scan.points[..i])
    {
      var point := scan.points[i];
      assert scan.points[..i + 1][..i] == scan.points[..i];
      cloud := cloud.(points := cloud.points + [PointMsg(point.x, point.y, point.z, point.intensity)]);
    }
    assert scan.points[..|scan.points|] == scan.points;
  }

  /**
   * fromGRPC(PointCloud3): emplace one point per wire point, in order,
   * from its x, y and z, then set the timestamp.
   */
  method FromGrpcCloud(cloud: PointCloud3) returns (scan: Scan3DI)
    ensures scan.timestamp == cloud.timestamp
    ensures |scan.points| == |cloud.points|
    ensures forall i :: 0 <= i < |cloud.points| ==>
              scan.points[i] == Point3I(cloud.points[i].x, cloud.points[i].y,
                                        cloud.points[i].z, DefaultIntensity)
    ensures scan == CloudToScan(cloud)
  {
    var points: seq<Point3I> := [];
    for i := 0 to |cloud.points|
      invariant points == MsgsToPoints(cloud.points[..i])
    {
      var pt := cloud.points[i];
      assert cloud.points[..i + 1][..i] == cloud.points[..i];
      points := points + [Point3I(pt.x, pt.y, pt.z, DefaultIntensity)];
    }
    assert cloud.points[..|cloud.points|] == cloud.points;
    scan := Scan3DI(points, cloud.timestamp);
  }

  /**
   * Converting a scan to the wire and back keeps the timestamp, the number
   * of points and every point's coordinates; only intensity is reset.
   */
  lemma ScanRoundTrip(scan: Scan3DI)
    ensures CloudToScan(ScanToCloud(scan)).timestamp == scan.timestamp
    ensures |CloudToScan(ScanToCloud(scan)).points| == |scan.points|
    ensures forall i :: 0 <= i < |scan.points| ==>
              var p := CloudToScan(ScanToCloud(scan)).points[i];
              p.x == scan.points[i].x && p.y == scan.points[i].y && p.z == scan.points[i].z
              && p.intensity == DefaultIntensity
  {
  }

  /** Intensity is never read from a point-cloud message. */
  lemma CloudToScanIgnoresIntensity(c: PointCloud3, d: PointCloud3)
    requires c.timestamp == d.timestamp && |c.points| == |d.points|
    requires forall i :: 0 <= i < |c.points| ==>
               c.points[i].x == d.points[i].x && c.points[i].y == d.points[i].y
               && c.points[i].z == d.points[i].z
    ensures CloudToScan(c) == CloudToScan(d)
  {
  }

  // ---------------------------------------------------------------------
  // Camera frames
  // ---------------------------------------------------------------------

  /** The JPEG quality the camera stream uses: toGRPC's default argument. */
  const DefaultJpegQuality: int := 85

  /**
   * What the JPEG encoder reports: whether it succeeded, and the contents of
   * the output buffer it leaves behind (on failure, whatever it left there).
   */
  datatype EncodeOutcome = EncodeOutcome(ok: bool, buffer: seq<byte>)

  /**
   * The JPEG encoder, an external library call: it sees the image, the
   * quality and the buffer it writes into.
   */
  type JpegEncoder = (Mat, int, seq<byte>) -> EncodeOutcome

  /** The encoding announced from the channel count. */
  function ChannelEncoding(channels: int): (e: CameraEncoding)
    ensures e == Bgr8 <==> channels == 3
    ensures e == Gray8 <==> channels == 1
    ensures e == UnknownEncoding <==> channels != 1 && channels != 3
  {
    if channels == 3 then Bgr8 else if channels == 1 then Gray8 else UnknownEncoding
  }

  /**
   * toGRPC(CameraFrame, quality), given the encoder's shared output buffer as
   * it stands before the call. The setters run in toGRPC's order; the
   * channel-based encoding is overwritten by MJPEG, and an encoder failure
   * changes nothing in the reply except the bytes it carries. Those bytes are
   * a copy of the buffer as the encoder leaves it, so they are also the
   * buffer's contents after the call.
   */
  function FrameToReply(frame: CameraFrame, quality: int, buffer: seq<byte>,
                        encode: JpegEncoder): (reply: CameraStreamReply)
    ensures reply.width == frame.mat.cols && reply.height == frame.mat.rows
    ensures reply.timestamp == frame.timestamp
    ensures reply.encoding == Mjpeg
    ensures reply.imageData == encode(frame.mat, quality, buffer).buffer
  {
    var reply := EmptyReply.(width := frame.mat.cols, height := frame.mat.rows);
    var reply := reply.(encoding := ChannelEncoding(frame.mat.channels));
    var reply := reply.(timestamp := frame.timestamp);
    var outcome := encode(frame.mat, quality, buffer);
    reply.(encoding := Mjpeg, imageData := outcome.buffer)
  }

  /**
   * The channel count never reaches the reply: two frames that differ only
   * in it, and that the encoder treats alike, give the same reply.
   */
  lemma FrameToReplyIgnoresChannels(f: CameraFrame, g: CameraFrame, quality: int,
                                    buffer: seq<byte>, encode: JpegEncoder)
    requires f.mat.rows == g.mat.rows && f.mat.cols == g.mat.cols
    requires f.timestamp == g.timestamp
    requires encode(f.mat, quality, buffer) == encode(g.mat, quality, buffer)
    ensures FrameToReply(f, quality, buffer, encode) == FrameToReply(g, quality, buffer, encode)
  {
  }
}
