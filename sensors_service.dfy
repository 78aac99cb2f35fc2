/**
 * The RPC service (grpc/sensors_service.cc): three server-streaming calls,
 * each guarded by its own "a client is connected" flag, and one unary ADC
 * call.
 *
 * A streaming call is modelled sequentially: the adapter's poll results are
 * a finite sequence (a sample or nothing, one per loop iteration) after which
 * the peer cancels, and the transport's writer records every message that
 * is handed to it.
 */
module SensorsService {

  import opened Optional
  import opened Samples
  import opened Messages
  import opened Conversions

  // ---------------------------------------------------------------------
  // Outcomes of a call
  // ---------------------------------------------------------------------

  datatype StatusCode = Ok | Unknown | Unavailable | ResourceExhausted

  datatype Status = Status(code: StatusCode, message: string)

  const OkStatus := Status(Ok, "")

  const OnlyOneClient := "Only one client per stream supported"
  const LidarUnavailable := "Lidar not available"
  const ImuUnavailable := "IMU not available"
  const CameraUnavailable := "Camera not available"
  const AdcUnavailable := "ADC not available"
  const AdcReadFailure := "ADC read failure"

  // ---------------------------------------------------------------------
  // Specification of a stream's guard and of what a session writes
  // ---------------------------------------------------------------------

  /**
   * One call of a streaming method, seen from outside: the status it returns
   * and its stream's flag afterwards, given whether the adapter is present
   * and whether the flag was set when the call came in.
   */
  function StreamCall(present: bool, connected: bool, unavailable: string): (Status, bool)
  {
    if !present then (Status(Unavailable, unavailable), connected)
    else if connected then (Status(ResourceExhausted, OnlyOneClient), connected)
    else (OkStatus, false)
  }

  /** The samples among a sequence of poll results, in poll order. */
  function Present<S>(polls: seq<Option<S>>): seq<S>
    decreases |polls|
  {
    if polls == [] then []
    else
      var last := polls[|polls| - 1];
      Present(polls[..|polls| - 1]) + (if last.Some? then [last.value] else [])
  }

  /** Polling in two stretches yields the samples of each, one after the other. */
  lemma {:induction false} PresentAppend<S>(a: seq<Option<S>>, b: seq<Option<S>>)
    ensures Present(a + b) == Present(a) + Present(b)
    decreases |b|
  {
    if b == [] {
      assert a + b == a;
    } else {
      var b' := b[..|b| - 1];
      assert (a + b)[..|a + b| - 1] == a + b';
      PresentAppend(a, b');
    }
  }

  /** Polls that all come back empty yield nothing. */
  lemma {:induction false} PresentOfEmptyPolls<S>(polls: seq<Option<S>>)
    requires forall i :: 0 <= i < |polls| ==> polls[i].None?
    ensures Present(polls) == []
    decreases |polls|
  {
    if polls != [] {
      PresentOfEmptyPolls(polls[..|polls| - 1]);
    }
  }

  /** The positions of the polls that returned a sample, in poll order. */
  function SamplePositions<S>(polls: seq<Option<S>>): (pos: seq<nat>)
    ensures |pos| == |Present(polls)|
    decreases |polls|
  {
    if polls == [] then []
    else
      SamplePositions(polls[..|polls| - 1]) + (if polls[|polls| - 1].Some? then [|polls| - 1] else [])
  }

  /** The k-th sample was returned by the poll at the k-th position. */
  lemma {:induction false} PositionHoldsSample<S>(polls: seq<Option<S>>, k: nat)
    requires k < |SamplePositions(polls)|
    ensures SamplePositions(polls)[k] < |polls|
    ensures polls[SamplePositions(polls)[k]] == Some(Present(polls)[k])
    decreases |polls|
  {
    var prefix := polls[..|polls| - 1];
    if k < |SamplePositions(prefix)| {
      PositionHoldsSample(prefix, k);
      assert SamplePositions(polls)[k] == SamplePositions(prefix)[k];
      assert Present(polls)[k] == Present(prefix)[k];
      assert polls[SamplePositions(prefix)[k]] == prefix[SamplePositions(prefix)[k]];
    }
  }

  /** Later samples come from later polls. */
  lemma {:induction false} PositionsIncrease<S>(polls: seq<Option<S>>, k: nat, l: nat)
    requires k < l < |SamplePositions(polls)|
    ensures SamplePositions(polls)[k] < SamplePositions(polls)[l]
    decreases |polls|
  {
    var prefix := polls[..|polls| - 1];
    var pre := SamplePositions(prefix);
    assert SamplePositions(polls)[k] == pre[k];
    if l < |pre| {
      PositionsIncrease(prefix, k, l);
      assert SamplePositions(polls)[l] == pre[l];
    } else {
      PositionHoldsSample(prefix, k);
    }
  }

  /** Every poll that returned a sample has its position listed. */
  lemma {:induction false} SampleHasPosition<S>(polls: seq<Option<S>>, j: nat)
    requires j < |polls| && polls[j].Some?
    ensures j in SamplePositions(polls)
    decreases |polls|
  {
    var prefix := polls[..|polls| - 1];
    if j < |prefix| {
      assert prefix[j] == polls[j];
      SampleHasPosition(prefix, j);
    }
  }

  /**
   * The samples are exactly the present poll results, in poll order, each
   * once: they sit at strictly increasing poll positions, and every poll that
   * returned a sample is one of those positions.
   */
  lemma PresentPositions<S>(polls: seq<Option<S>>) returns (pos: seq<nat>)
    ensures |pos| == |Present(polls)|
    ensures forall k :: 0 <= k < |pos| ==> pos[k] < |polls| && polls[pos[k]] == Some(Present(polls)[k])
    ensures forall k, l :: 0 <= k < l < |pos| ==> pos[k] < pos[l]
    ensures forall j :: 0 <= j < |polls| && polls[j].Some? ==> j in pos
  {
    pos := SamplePositions(polls);
    forall k | 0 <= k < |pos|
      ensures pos[k] < |polls| && polls[pos[k]] == Some(Present(polls)[k])
    {
      PositionHoldsSample(polls, k);
    }
    forall k, l | 0 <= k < l < |pos|
      ensures pos[k] < pos[l]
    {
      PositionsIncrease(polls, k, l);
    }
    forall j | 0 <= j < |polls| && polls[j].Some?
      ensures j in pos
    {
      SampleHasPosition(polls, j);
    }
  }

  /** One more poll adds its sample, if it returned one, at the end. */
  lemma PresentStep<S>(polls: seq<Option<S>>, i: nat)
    requires i < |polls|
    ensures Present(polls[..i + 1])
            == Present(polls[..i]) + (if polls[i].Some? then [polls[i].value] else [])
  {
    assert polls[..i + 1][..i] == polls[..i];
  }

  /** A function applied to every element, in order. */
  function MapSeq<S, M>(xs: seq<S>, f: S -> M): seq<M>
    decreases |xs|
  {
    if xs == [] then [] else MapSeq(xs[..|xs| - 1], f) + [f(xs[|xs| - 1])]
  }

  /** Mapping keeps the length and converts each element in place. */
  lemma {:induction false} MapSeqAt<S, M>(xs: seq<S>, f: S -> M)
    ensures |MapSeq(xs, f)| == |xs|
    ensures forall i :: 0 <= i < |xs| ==> MapSeq(xs, f)[i] == f(xs[i])
    decreases |xs|
  {
    if xs != [] {
      MapSeqAt(xs[..|xs| - 1], f);
    }
  }

  /** Mapping a concatenation maps each part. */
  lemma {:induction false} MapSeqAppend<S, M>(xs: seq<S>, ys: seq<S>, f: S -> M)
    ensures MapSeq(xs + ys, f) == MapSeq(xs, f) + MapSeq(ys, f)
    decreases |ys|
  {
    if ys == [] {
      assert xs + ys == xs;
    } else {
      var ys' := ys[..|ys| - 1];
      assert (xs + ys)[..|xs + ys| - 1] == xs + ys';
      MapSeqAppend(xs, ys', f);
    }
  }

  /** One more poll appends the conversion of its sample, if it returned one. */
  lemma MapPresentStep<S, M>(polls: seq<Option<S>>, i: nat, f: S -> M)
    requires i < |polls|
    ensures MapSeq(Present(polls[..i + 1]), f)
            == MapSeq(Present(polls[..i]), f) + (if polls[i].Some? then [f(polls[i].value)] else [])
  {
    PresentStep(polls, i);
    var before := Present(polls[..i]);
    if polls[i].Some? {
      assert (before + [polls[i].value])[..|before|] == before;
    } else {
      assert before + [] == before;
    }
  }

  /**
   * A loop iteration that writes the conversion of poll i's sample, if any,
   * after what the earlier polls wrote, has written the conversions of the
   * first i + 1 polls.
   */
  lemma WrittenStep<S, M>(sent: seq<M>, before: seq<M>, after: seq<M>,
                          polls: seq<Option<S>>, i: nat, f: S -> M)
    requires i < |polls|
    requires before == sent + MapSeq(Present(polls[..i]), f)
    requires after == before + (if polls[i].Some? then [f(polls[i].value)] else [])
    ensures after == sent + MapSeq(Present(polls[..i + 1]), f)
  {
    MapPresentStep(polls, i, f);
  }

  /**
   * The encoder's shared output buffer after converting a sequence of
   * frames, one after the other, starting from `buffer`.
   */
  function JpegBufferAfter(frames: seq<CameraFrame>, buffer: seq<byte>, encode: JpegEncoder): seq<byte>
    decreases |frames|
  {
    if frames == [] then buffer
    else
      var last := frames[|frames| - 1];
      encode(last.mat, DefaultJpegQuality, JpegBufferAfter(frames[..|frames| - 1], buffer, encode)).buffer
  }

  /**
   * The camera replies written for a sequence of frames, each converted with
   * the buffer as the frames before it left it.
   */
  function CameraReplies(frames: seq<CameraFrame>, buffer: seq<byte>,
                         encode: JpegEncoder): (replies: seq<CameraStreamReply>)
    ensures |replies| == |frames|
    decreases |frames|
  {
    if frames == [] then []
    else
      var earlier := frames[..|frames| - 1];
      CameraReplies(earlier, buffer, encode)
      + [FrameToReply(frames[|frames| - 1], DefaultJpegQuality, JpegBufferAfter(earlier, buffer, encode), encode)]
  }

  /**
   * Reply k carries frame k's width, height and timestamp, is announced as
   * MJPEG, and carries the bytes the encoder left when given frame k and the
   * buffer as the earlier frames left it.
   */
  lemma {:induction false} CameraReplyAt(frames: seq<CameraFrame>, buffer: seq<byte>,
                                         encode: JpegEncoder, k: nat)
    requires k < |frames|
    ensures var reply := CameraReplies(frames, buffer, encode)[k];
            && reply.width == frames[k].mat.cols
            && reply.height == frames[k].mat.rows
            && reply.timestamp == frames[k].timestamp
            && reply.encoding == Mjpeg
            && reply.imageData
               == encode(frames[k].mat, DefaultJpegQuality, JpegBufferAfter(frames[..k], buffer, encode)).buffer
    decreases |frames|
  {
    var earlier := frames[..|frames| - 1];
    if k < |earlier| {
      CameraReplyAt(earlier, buffer, encode, k);
      assert earlier[..k] == frames[..k];
      assert CameraReplies(frames, buffer, encode)[k] == CameraReplies(earlier, buffer, encode)[k];
    } else {
      assert frames[..k] == earlier;
    }
  }

  /**
   * One reply per frame, whatever the encoder reports: reply k carries frame
   * k's width, height and timestamp, is announced as MJPEG, and carries the
   * bytes the encoder left when given frame k and the buffer as the earlier
   * frames left it. The buffer left at the end is the last reply's bytes.
   */
  lemma CameraRepliesMatchFrames(frames: seq<CameraFrame>, buffer: seq<byte>, encode: JpegEncoder)
    ensures |CameraReplies(frames, buffer, encode)| == |frames|
    ensures forall k :: 0 <= k < |frames| ==>
              var reply := CameraReplies(frames, buffer, encode)[k];
              && reply.width == frames[k].mat.cols
              && reply.height == frames[k].mat.rows
              && reply.timestamp == frames[k].timestamp
              && reply.encoding == Mjpeg
              && reply.imageData
                 == encode(frames[k].mat, DefaultJpegQuality, JpegBufferAfter(frames[..k], buffer, encode)).buffer
    ensures frames == [] ==> JpegBufferAfter(frames, buffer, encode) == buffer
    ensures frames != [] ==>
              JpegBufferAfter(frames, buffer, encode)
              == CameraReplies(frames, buffer, encode)[|frames| - 1].imageData
  {
    forall k | 0 <= k < |frames|
      ensures var reply := CameraReplies(frames, buffer, encode)[k];
              && reply.width == frames[k].mat.cols
              && reply.height == frames[k].mat.rows
              && reply.timestamp == frames[k].timestamp
              && reply.encoding == Mjpeg
              && reply.imageData
                 == encode(frames[k].mat, DefaultJpegQuality, JpegBufferAfter(frames[..k], buffer, encode)).buffer
    {
      CameraReplyAt(frames, buffer, encode, k);
    }
  }

  /**
   * A frame whose encoding leaves the shared buffer as it found it (as a
   * failed encoding that does not touch the buffer does) is sent with the
   * previous frame's bytes.
   */
  lemma StaleBytesRepeat(frames: seq<CameraFrame>, buffer: seq<byte>, encode: JpegEncoder, k: nat)
    requires 0 < k < |frames|
    requires encode(frames[k].mat, DefaultJpegQuality, JpegBufferAfter(frames[..k], buffer, encode)).buffer
             == JpegBufferAfter(frames[..k], buffer, encode)
    ensures CameraReplies(frames, buffer, encode)[k].imageData
            == CameraReplies(frames, buffer, encode)[k - 1].imageData
  {
    CameraReplyAt(frames, buffer, encode, k);
    CameraReplyAt(frames, buffer, encode, k - 1);
    assert frames[..k][..k - 1] == frames[..k - 1];
  }

  /** One more frame appends its reply and passes the buffer on. */
  lemma CameraRepliesStep(frames: seq<CameraFrame>, frame: CameraFrame, buffer: seq<byte>,
                          encode: JpegEncoder)
    ensures CameraReplies(frames + [frame], buffer, encode)
            == CameraReplies(frames, buffer, encode)
               + [FrameToReply(frame, DefaultJpegQuality, JpegBufferAfter(frames, buffer, encode), encode)]
    ensures JpegBufferAfter(frames + [frame], buffer, encode)
            == encode(frame.mat, DefaultJpegQuality, JpegBufferAfter(frames, buffer, encode)).buffer
  {
    assert (frames + [frame])[..|frames|] == frames;
  }

  /**
   * A camera loop iteration that converts and writes poll i's frame, if any,
   * after what the earlier polls wrote, has written the replies of the first
   * i + 1 polls and left the buffer as they leave it.
   */
  lemma CameraWrittenStep(sent: seq<CameraStreamReply>, before: seq<CameraStreamReply>,
                          after: seq<CameraStreamReply>, buffer0: seq<byte>,
                          bufferBefore: seq<byte>, bufferAfter: seq<byte>,
                          polls: seq<Option<CameraFrame>>, i: nat, encode: JpegEncoder)
    requires i < |polls|
    requires before == sent + CameraReplies(Present(polls[..i]), buffer0, encode)
    requires bufferBefore == JpegBufferAfter(Present(polls[..i]), buffer0, encode)
    requires after == before + (if polls[i].Some?
                                then [FrameToReply(polls[i].value, DefaultJpegQuality, bufferBefore, encode)]
                                else [])
    requires bufferAfter == (if polls[i].Some?
                             then encode(polls[i].value.mat, DefaultJpegQuality, bufferBefore).buffer
                             else bufferBefore)
    ensures after == sent + CameraReplies(Present(polls[..i + 1]), buffer0, encode)
    ensures bufferAfter == JpegBufferAfter(Present(polls[..i + 1]), buffer0, encode)
  {
    PresentStep(polls, i);
    var frames := Present(polls[..i]);
    if polls[i].Some? {
      CameraRepliesStep(frames, polls[i].value, buffer0, encode);
      assert Present(polls[..i + 1]) == frames + [polls[i].value];
    } else {
      assert Present(polls[..i + 1]) == frames;
    }
  }

  // ---------------------------------------------------------------------
  // The transport
  // ---------------------------------------------------------------------

  /**
   * A server-side stream writer. `written` holds every message handed to
   * Write, in call order. `replies` scripts what the transport reports: the
   * n-th Write reports `replies[n]`, and every Write past the end of the
   * script reports failure, as once the peer has gone. So a writer can
   * succeed for a while and then fail.
   */
  class ServerWriter<M> {
    var written: seq<M>
    const replies: seq<bool>

    constructor (replies: seq<bool>)
      ensures written == [] && this.replies == replies
    {
      written := [];
      this.replies := replies;
    }

    method Write(msg: M) returns (ok: bool)
      modifies this
      ensures written == old(written) + [msg]
      ensures ok == (|old(written)| < |replies| && replies[|old(written)|])
    {
      ok := |written| < |replies| && replies[|written|];
      written := written + [msg];
    }
  }

  // ---------------------------------------------------------------------
  // The service
  // ---------------------------------------------------------------------

  /**
   * ScanService. The four adapters are fixed at construction; each is
   * present or absent. Each streaming method owns one flag. The JPEG
   * encoder's shared output buffer, which outlives each conversion, is kept
   * here too, since the camera stream is its only user.
   */
  class ScanService {
    const hasAdc: bool
    const hasCamera: bool
    const hasImu: bool
    const hasLidar: bool

    var lidarConnected: bool
    var imuConnected: bool
    var cameraConnected: bool

    var jpegBuffer: seq<byte>

    constructor (hasAdc: bool, hasCamera: bool, hasImu: bool, hasLidar: bool)
      ensures this.hasAdc == hasAdc && this.hasCamera == hasCamera
      ensures this.hasImu == hasImu && this.hasLidar == hasLidar
      ensures !lidarConnected && !imuConnected && !cameraConnected
      ensures jpegBuffer == []
    {
      this.hasAdc := hasAdc;
      this.hasCamera := hasCamera;
      this.hasImu := hasImu;
      this.hasLidar := hasLidar;
      lidarConnected, imuConnected, cameraConnected := false, false, false;
      jpegBuffer := [];
    }

    /**
     * getLidarScan: `polls` are the scans (or nothing) the adapter returns,
     * one per iteration, before the peer cancels.
     */
    method GetLidarScan(polls: seq<Option<Scan3DI>>, writer: ServerWriter<PointCloud3>)
      returns (status: Status)
      modifies this`lidarConnected, writer
      ensures (status, lidarConnected) == StreamCall(hasLidar, old(lidarConnected), LidarUnavailable)
      ensures status.code == Ok ==>
                writer.written == old(writer.written) + MapSeq(Present(polls), ScanToCloud)
      ensures status.code != Ok ==> writer.written == old(writer.written)
      ensures imuConnected == old(imuConnected) && cameraConnected == old(cameraConnected)
    {
      if !hasLidar {
        return Status(Unavailable, LidarUnavailable);
      }
      if lidarConnected {
        return Status(ResourceExhausted, OnlyOneClient);
      }
      lidarConnected := true;
      PumpLidarScans(polls, writer);
      lidarConnected := false;
      return OkStatus;
    }

    /** getImuData: as GetLidarScan, over inertial samples. */
    method GetImuData(polls: seq<Option<ImuData>>, writer: ServerWriter<ImuMsg>)
      returns (status: Status)
      modifies this`imuConnected, writer
      ensures (status, imuConnected) == StreamCall(hasImu, old(imuConnected), ImuUnavailable)
      ensures status.code == Ok ==>
                writer.written == old(writer.written) + MapSeq(Present(polls), ImuToMsg)
      ensures status.code != Ok ==> writer.written == old(writer.written)
      ensures lidarConnected == old(lidarConnected) && cameraConnected == old(cameraConnected)
    {
      if !hasImu {
        return Status(Unavailable, ImuUnavailable);
      }
      if imuConnected {
        return Status(ResourceExhausted, OnlyOneClient);
      }
      imuConnected := true;
      PumpImuSamples(polls, writer);
      imuConnected := false;
      return OkStatus;
    }

    /**
     * getCameraFrame: `polls` are the frames the camera's read delivers (or
     * nothing, when read fails), one per iteration, before the peer
     * cancels; `encode` is the JPEG encoder.
     */
    method GetCameraFrame(polls: seq<Option<CameraFrame>>, encode: JpegEncoder,
                          writer: ServerWriter<CameraStreamReply>)
      returns (status: Status)
      modifies this`cameraConnected, this`jpegBuffer, writer
      ensures (status, cameraConnected) == StreamCall(hasCamera, old(cameraConnected), CameraUnavailable)
      ensures status.code == Ok ==>
                && writer.written == old(writer.written) + CameraReplies(Present(polls), old(jpegBuffer), encode)
                && jpegBuffer == JpegBufferAfter(Present(polls), old(jpegBuffer), encode)
      ensures status.code != Ok ==>
                writer.written == old(writer.written) && jpegBuffer == old(jpegBuffer)
      ensures lidarConnected == old(lidarConnected) && imuConnected == old(imuConnected)
    {
      if !hasCamera {
        return Status(Unavailable, CameraUnavailable);
      }
      if cameraConnected {
        return Status(ResourceExhausted, OnlyOneClient);
      }
      cameraConnected := true;
      jpegBuffer := PumpCameraFrames(polls, jpegBuffer, encode, writer);
      cameraConnected := false;
      return OkStatus;
    }

    /**
     * The loop of getLidarScan, from the first poll until the peer cancels:
     * each scan returned is converted and written; an empty poll writes nothing.
     */
    method PumpLidarScans(polls: seq<Option<Scan3DI>>, writer: ServerWriter<PointCloud3>)
      modifies writer
      ensures writer.written == old(writer.written) + MapSeq(Present(polls), ScanToCloud)
    {
      ghost var sent0 := writer.written;
      var i := 0;
      while i < |polls|
        invariant 0 <= i <= |polls|
        invariant writer.written == sent0 + MapSeq(Present(polls[..i]), ScanToCloud)
      {
        ghost var before := writer.written;
        if polls[i].Some? {
          var cloud := ToGrpcScan(polls[i].value);
          var _ := writer.Write(cloud);
        }
        WrittenStep(sent0, before, writer.written, polls, i, ScanToCloud);
        i := i + 1;
      }
      assert polls[..|polls|] == polls;
    }

    /**
     * The loop of getImuData, from the first poll until the peer cancels:
     * each sample returned is converted and written; an empty poll writes nothing.
     */
    method PumpImuSamples(polls: seq<Option<ImuData>>, writer: ServerWriter<ImuMsg>)
      modifies writer
      ensures writer.written == old(writer.written) + MapSeq(Present(polls), ImuToMsg)
    {
      ghost var sent0 := writer.written;
      var i := 0;
      while i < |polls|
        invariant 0 <= i <= |polls|
        invariant writer.written == sent0 + MapSeq(Present(polls[..i]), ImuToMsg)
      {
        ghost var before := writer.written;
        if polls[i].Some? {
          var _ := writer.Write(ImuToMsg(polls[i].value));
        }
        WrittenStep(sent0, before, writer.written, polls, i, ImuToMsg);
        i := i + 1;
      }
      assert polls[..|polls|] == polls;
    }

    /**
     * The loop of getCameraFrame, from the first poll until the peer cancels:
     * each frame read is converted, through the shared JPEG buffer, and written.
     */
    method PumpCameraFrames(polls: seq<Option<CameraFrame>>, buffer0: seq<byte>, encode: JpegEncoder,
                            writer: ServerWriter<CameraStreamReply>)
      returns (buffer: seq<byte>)
      modifies writer
      ensures writer.written == old(writer.written) + CameraReplies(Present(polls), buffer0, encode)
      ensures buffer == JpegBufferAfter(Present(polls), buffer0, encode)
    {
      ghost var sent0 := writer.written;
      buffer := buffer0;
      var i := 0;
      while i < |polls|
        invariant 0 <= i <= |polls|
        invariant writer.written == sent0 + CameraReplies(Present(polls[..i]), buffer0, encode)
        invariant buffer == JpegBufferAfter(Present(polls[..i]), buffer0, encode)
      {
        ghost var before, bufferBefore := writer.written, buffer;
        if polls[i].Some? {
          buffer := SendFrame(polls[i].value, buffer, encode, writer);
        }
        CameraWrittenStep(sent0, before, writer.written, buffer0, bufferBefore, buffer,
                          polls, i, encode);
        i := i + 1;
      }
      assert polls[..|polls|] == polls;
    }

    /**
     * One frame read: convert it through the JPEG buffer as it stands and
     * write the reply; the buffer as the encoder leaves it, of which the
     * reply's bytes are a copy.
     */
    method SendFrame(frame: CameraFrame, buffer: seq<byte>, encode: JpegEncoder,
                     writer: ServerWriter<CameraStreamReply>)
      returns (buffer': seq<byte>)
      modifies writer
      ensures writer.written
              == old(writer.written) + [FrameToReply(frame, DefaultJpegQuality, buffer, encode)]
      ensures buffer' == encode(frame.mat, DefaultJpegQuality, buffer).buffer
    {
      var reply := FrameToReply(frame, DefaultJpegQuality, buffer, encode);
      var _ := writer.Write(reply);
      buffer' := reply.imageData;
    }

    /**
     * getAdcData: `reading` is what the adapter's single-ended read returns
     * (consulted only when the adapter is present); `response` is the reply
     * record as handed in, and `filled` is it afterwards.
     */
    method GetAdcData(reading: Option<AdcSample>, response: AdcData)
      returns (status: Status, filled: AdcData)
      ensures !hasAdc ==> status == Status(Unavailable, AdcUnavailable) && filled == response
      ensures hasAdc && reading.None? ==>
                status == Status(Unknown, AdcReadFailure) && filled == response
      ensures hasAdc && reading.Some? ==>
                status == OkStatus
                && filled.sample == reading.value.voltage
                && filled.timestamp == reading.value.timestamp
    {
      filled := response;
      if !hasAdc {
        return Status(Unavailable, AdcUnavailable), filled;
      }
      if reading.None? {
        return Status(Unknown, AdcReadFailure), filled;
      }
      filled := filled.(sample := reading.value.voltage);
      filled := filled.(timestamp := reading.value.timestamp);
      return OkStatus, filled;
    }
  }

  // ---------------------------------------------------------------------
  // Clients
  // ---------------------------------------------------------------------

  /**
   * Two lidar calls, one after the other, each with its own stream: the
   * first one's end clears the flag, so the second is accepted too, and each
   * stream carries the scans of its own session.
   */
  method LidarSessionsInSequence(service: ScanService, first: seq<Option<Scan3DI>>,
                                 second: seq<Option<Scan3DI>>,
                                 firstWriter: ServerWriter<PointCloud3>,
                                 secondWriter: ServerWriter<PointCloud3>)
    returns (s1: Status, s2: Status)
    requires service.hasLidar && !service.lidarConnected
    requires firstWriter != secondWriter
    modifies service`lidarConnected, firstWriter, secondWriter
    ensures s1 == OkStatus && s2 == OkStatus
    ensures !service.lidarConnected
    ensures firstWriter.written == old(firstWriter.written) + MapSeq(Present(first), ScanToCloud)
    ensures secondWriter.written == old(secondWriter.written) + MapSeq(Present(second), ScanToCloud)
  {
    s1 := service.GetLidarScan(first, firstWriter);
    s2 := service.GetLidarScan(second, secondWriter);
  }

  /**
   * Each stream has its own flag: while an IMU client is connected a second
   * IMU client is refused, and a lidar client is still accepted; the IMU
   * session keeps its flag.
   */
  method StreamsAreIndependent(service: ScanService, imuPolls: seq<Option<ImuData>>,
                               lidarPolls: seq<Option<Scan3DI>>,
                               imuWriter: ServerWriter<ImuMsg>,
                               lidarWriter: ServerWriter<PointCloud3>)
    returns (imuStatus: Status, lidarStatus: Status)
    requires service.hasImu && service.imuConnected
    requires service.hasLidar && !service.lidarConnected
    modifies service`imuConnected, service`lidarConnected, imuWriter, lidarWriter
    ensures imuStatus == Status(ResourceExhausted, OnlyOneClient)
    ensures imuWriter.written == old(imuWriter.written)
    ensures lidarStatus == OkStatus
    ensures lidarWriter.written == old(lidarWriter.written) + MapSeq(Present(lidarPolls), ScanToCloud)
    ensures service.imuConnected && !service.lidarConnected
  {
    imuStatus := service.GetImuData(imuPolls, imuWriter);
    lidarStatus := service.GetLidarScan(lidarPolls, lidarWriter);
  }
}
