# msensor sensor service: a verified model

This project models three parts of the msensor repository:

- The RPC service `ScanService` (`grpc/sensors_service.cc`):
  - three server-streaming calls, for lidar scans, IMU samples and camera frames;
  - one unary call for an ADC reading.
- The wire conversions between the internal samples and the RPC records
  (`grpc/conversions.cc`).
- The simulated camera (`src/camera/sim_camera.cc`).

Modules, one per file:

| file | module | models |
|---|---|---|
| `optional.dfy` | `Optional` | an adapter result that may be empty |
| `samples.dfy` | `Samples` | the internal sample structs: points, scans, IMU and ADC samples, images and frames |
| `messages.dfy` | `Messages` | the wire records: point clouds, IMU messages, camera replies, ADC replies |
| `conversions.dfy` | `Conversions` | `toGRPC` / `fromGRPC` |
| `sensors_service.dfy` | `SensorsService` | the service class, the stream writer, and the specification functions of a session |
| `sim_camera.dfy` | `Camera` | `SimCamera` and the frame that `read` fills |

## How the service is modelled

- Each streaming method keeps a function-local static flag that says a client is connected.
  The model makes these three flags fields of `ScanService`: `lidarConnected`, `imuConnected` and `cameraConnected`.
- The four adapter pointers (`grpc/sensors_service.hh:62-65`) become the constant fields `hasAdc`, `hasCamera`, `hasImu` and `hasLidar`.
  Each one says whether the adapter is present.
- A streaming call takes `polls`, a finite sequence of adapter results.
  Each element is the sample returned, or nothing, in one pass of the `while (!context->IsCancelled())` loop.
  After the last poll the peer cancels.
- The transport's writer is a `ServerWriter` object.
  Its `written` field records every message passed to `Write`, in call order.
  It is built with a script `replies`: the n-th `Write` reports `replies[n]`, and every `Write` past the script reports failure.
  So one writer can succeed and then fail, as when the peer drops. The loops ignore the result, as the source does.
- The loops are written out as `while` loops.
  Each method's postcondition relates the messages written to these specification functions:
  - `Present`: the samples among the poll results, in order;
  - `MapSeq`: the conversion applied to each of them;
  - `CameraReplies`: the camera conversion, applied frame by frame;
  - `JpegBufferAfter`: the JPEG buffer after those frames.
  `StreamCall` gives the returned status and the flag afterwards.
- Each loop is its own method (`PumpLidarScans`, `PumpImuSamples`, `PumpCameraFrames`), called between setting and clearing the flag.
- `toGRPC(CameraFrame)` writes into a static JPEG buffer that persists between calls.
  Only the camera stream calls it, so the model keeps that buffer as the field `jpegBuffer` of the service.
- The JPEG encoder (`cv::imencode`) is a parameter `encode`.
  It reports success or failure together with the buffer contents it leaves behind.

## What the code does not do

- `grpc/sensors_service.hh:3` includes `boost/lockfree/spsc_queue.hpp`, but nothing uses it. There is no queue between an adapter and its stream.
- No streaming method reads its request message (`grpc/sensors_service.cc:14`, `:45`, `:77`). No parameter of the request changes what is sent.
- The result of `writer->Write` is never checked (`grpc/sensors_service.cc:34`, `:65`, `:99`). A failed write does not end the session; only cancellation does.
- `getAdcData` ignores its request too. A client sends a channel (`test/client/client.py:213`), but `grpc/sensors_service.cc:116` calls `readSingleEnded()` without one.

The model follows the code: whatever each `Write` reports, the loops go on.

## Model

| member | source | states |
|---|---|---|
| `SensorsService.ScanService.constructor` | grpc/sensors_service.cc:6-10 | The service keeps which adapters it was given. Every stream starts with no client connected. |
| `SensorsService.ScanService.GetLidarScan` | grpc/sensors_service.cc:12-41 | No lidar adapter: `UNAVAILABLE`, even if the flag is set. Flag already set: `RESOURCE_EXHAUSTED` ("Only one client per stream supported"), flag still set. In both cases nothing is written and the flag keeps its value. Otherwise the messages written are exactly the conversions of the present polls, in poll order, whatever the writer reports back. Afterwards the flag is clear and the status is `OK`. The IMU and camera flags are untouched. |
| `SensorsService.ScanService.PumpLidarScans` | grpc/sensors_service.cc:32-36 | The lidar loop. Each scan returned is converted and written, in poll order; an empty poll writes nothing. The loop may change only the writer, so the stream's flag stays set while it runs. |
| `SensorsService.ScanService.GetImuData` | grpc/sensors_service.cc:43-73 | The same as for lidar, over IMU samples converted by `ImuToMsg`. It leaves the lidar and camera flags unchanged. |
| `SensorsService.ScanService.PumpImuSamples` | grpc/sensors_service.cc:63-67 | The IMU loop. Each sample returned is converted and written, in poll order; an empty poll writes nothing. |
| `SensorsService.ScanService.GetCameraFrame` | grpc/sensors_service.cc:75-107 | The same guard and lifecycle as for lidar. On acceptance the replies written are `CameraReplies` of the frames read, in read order, starting from the JPEG buffer's contents before the call. The buffer is left as `JpegBufferAfter` those frames. On refusal nothing is written and the buffer is unchanged. |
| `SensorsService.ScanService.PumpCameraFrames` | grpc/sensors_service.cc:95-101 | The camera loop. Each frame read is converted through the shared JPEG buffer and written. Failed reads write nothing and leave the buffer alone. |
| `SensorsService.ScanService.SendFrame` | grpc/sensors_service.cc:99 | One frame is converted with the buffer as it stands, and the reply is written. The buffer becomes what the encoder left in it. |
| `SensorsService.ScanService.GetAdcData` | grpc/sensors_service.cc:109-124 | No adapter: `UNAVAILABLE` ("ADC not available"). Failed read: `UNKNOWN` ("ADC read failure"). In both cases the response is untouched. Otherwise the status is `OK` and the response carries the reading's voltage and timestamp. |
| `SensorsService.LidarSessionsInSequence` | grpc/sensors_service.cc:23-38 | On a service with a lidar and no client, two lidar calls one after the other, each with its own writer, are both accepted with `OK`, because the first one clears the flag when it ends. Each writer then holds the scans of its own session, in order, and the flag is clear. |
| `SensorsService.StreamsAreIndependent` | grpc/sensors_service.cc:17-30 | Each stream has its own flag. While an IMU client is connected, a second IMU call gets `RESOURCE_EXHAUSTED` and writes nothing, and a lidar call is still accepted and writes its scans. The IMU flag stays set. |
| `SensorsService.PresentPositions` | grpc/sensors_service.cc:32-36 | The samples written are exactly the present poll results. They appear in poll order, at strictly increasing poll positions, each once. Every poll that returned a sample contributes one. |
| `SensorsService.PositionHoldsSample` | grpc/sensors_service.cc:33-34 | The k-th sample written came from the poll at the k-th listed position. |
| `SensorsService.PositionsIncrease` | grpc/sensors_service.cc:32-36 | Later samples come from later polls. |
| `SensorsService.SampleHasPosition` | grpc/sensors_service.cc:33-34 | Every poll that returned a sample has its position listed, so none is skipped. |
| `SensorsService.PresentOfEmptyPolls` | grpc/sensors_service.cc:33 | Polls that all come back empty write nothing. |
| `SensorsService.PresentAppend` | grpc/sensors_service.cc:32-36 | Polling in two stretches yields the samples of the first stretch, then those of the second. |
| `SensorsService.MapSeqAt` | grpc/sensors_service.cc:34 | Converting the samples keeps their number and order. Each message is the conversion of the sample at the same position. |
| `SensorsService.MapSeqAppend` | grpc/sensors_service.cc:34 | Converting two stretches of samples gives the conversions of the first, then those of the second. |
| `SensorsService.CameraReplyAt` | grpc/sensors_service.cc:95-101 | Reply k has frame k's width, height and timestamp and is announced as MJPEG. Its bytes are what the encoder left given frame k and the buffer as the earlier frames left it. |
| `SensorsService.CameraRepliesMatchFrames` | grpc/sensors_service.cc:95-101 | Every frame read gives exactly one reply, whether or not JPEG encoding succeeds. Reply k has frame k's width, height and timestamp and is announced as MJPEG. Its bytes are what the encoder left given frame k and the buffer as the earlier frames left it. After the last frame the buffer holds the last reply's bytes; with no frames it is unchanged. |
| `SensorsService.StaleBytesRepeat` | grpc/conversions.cc:75-82 | The buffer is static and copied into the reply whether or not encoding succeeds. So a frame whose encoding leaves the buffer as it was is sent with the previous frame's bytes. |
| `Conversions.ImuToMsg` | grpc/conversions.cc:34-56 | Reading the wire message of an IMU sample back gives the same sample. All seven fields, ax, ay, az, gx, gy, gz and the timestamp, survive the trip. |
| `Conversions.MsgToImu` | grpc/conversions.cc:34-44 | `fromGRPC(IMUData)` copies each of the seven fields, ax, ay, az, gx, gy, gz and the timestamp, from the message into the sample. |
| `Conversions.ImuMsgRoundTrip` | grpc/conversions.cc:34-56 | Reading an IMU message into a sample and converting it back gives the same message. |
| `Conversions.PointsToMsgs` | grpc/conversions.cc:23-29 | One wire point per scan point, in the same order, with x, y, z and intensity copied. |
| `Conversions.MsgsToPoints` | grpc/conversions.cc:11-13 | One point per wire point, in the same order, with x, y and z copied. The intensity is the point type's default. |
| `Conversions.ToGrpcScan` | grpc/conversions.cc:19-32 | `toGRPC(scan)` copies the timestamp and emits one point per input point, in order, with all four fields copied. |
| `Conversions.FromGrpcCloud` | grpc/conversions.cc:6-17 | `fromGRPC(cloud)` copies the timestamp and yields one point per message point, in order, with x, y and z copied. |
| `Conversions.ScanRoundTrip` | grpc/conversions.cc:6-32 | Converting a scan to the wire and back keeps the timestamp, the point count and every point's x, y and z. Intensity comes back as the default. |
| `Conversions.CloudToScanIgnoresIntensity` | grpc/conversions.cc:6-17 | Intensity is never read from a point-cloud message. Clouds that differ only in intensity give the same scan. |
| `Conversions.ChannelEncoding` | grpc/conversions.cc:65-71 | The provisional encoding is BGR8 exactly for 3 channels, GRAY8 exactly for 1, and UNKNOWN otherwise. |
| `Conversions.FrameToReply` | grpc/conversions.cc:58-85 | The reply has width = cols, height = rows and the frame's timestamp. Its final encoding is always MJPEG, because line 81 overwrites lines 65-71. Its image bytes are whatever the encoder left in the shared buffer, and the reply is produced even when encoding fails. |
| `Conversions.FrameToReplyIgnoresChannels` | grpc/conversions.cc:65-81 | The channel-based encoding of lines 65-71 never reaches the reply. Frames that differ only in channel count, and that the encoder turns into the same bytes, give the same reply. |
| `Camera.CameraFrame.constructor` | grpc/sensors_service.cc:97 | A default-constructed frame holds an image with no pixels and one channel, as a default `cv::Mat` has. Its timestamp is taken to start at 0. |
| `Camera.SimCamera.Read` | src/camera/sim_camera.cc:7-24 | `read` returns true. Afterwards the image is 480 rows × 640 columns × 3 channels, and the old image is reused when it already had that shape. Otherwise the new image is freshly allocated and the old one is left as it was, so another frame sharing it keeps its pixels. Every pixel (y, x) holds (x mod 256, y mod 256, (x+y) mod 256), so every cell is written and each value is a byte in [0, 255]. The timestamp is the supplied clock value. |
| `Camera.SimCamera.IsOpened` | src/camera/sim_camera.cc:26 | The simulated camera is always open. |
| `Camera.SimCamera.Release` | src/camera/sim_camera.cc:28 | `release` changes nothing. The camera is still open afterwards. |

## Left out

- `SensorsService.ScanService.GetLidarScan`, `SensorsService.ScanService.GetImuData` and `SensorsService.ScanService.GetCameraFrame`: exceptions thrown inside a session are not modelled. Every adapter poll, camera read, JPEG encoding and allocation is taken to return. In the source nothing resets the flag on that path (`grpc/sensors_service.cc:32-38`, `:63-70`, `:95-104`). An exception escaping the loop leaves the flag set, and every later call on that stream gets `RESOURCE_EXHAUSTED`. "Afterwards the flag is clear" holds for the normal exit only.
- Concurrency: the real interleaving of concurrent RPCs is not modelled. That includes the race between checking and setting a stream's flag (`grpc/sensors_service.cc:23-30`). Each call is one sequential step.
- The three flags are function-local statics, and the JPEG buffer is a static in `toGRPC` (`grpc/conversions.cc:75`). In the source they are shared by every `ScanService` instance in a process. The model keeps them per object as `lidarConnected`, `imuConnected`, `cameraConnected` and `jpegBuffer`, which is the same when there is only one service.
- The server plumbing is not part of this model: the listening port, `ServerBuilder`, `Shutdown`, and the `ServerContext`. A poll sequence that ends in cancellation stands in for the context. `ServerWriter` is reduced to the record of messages passed to it.
- The request messages are not modelled, because the service ignores them.
- The console logging at the start and end of each stream is not modelled.
- JPEG encoding (`cv::imencode`) is a library call. It is a parameter of the model and the image bytes are not interpreted. The model does not fix what the encoder leaves in the buffer when it fails.
- `timing::getNowUs` and the 33 ms sleep in `SimCamera::read` are a clock and a delay. The clock reading is a parameter, and the sleep is left out.
- Widths of numeric fields: floats are `real` and only copied or compared. Timestamps are unbounded naturals, because the sample and message headers are not part of this model.
- `Samples.DefaultIntensity`: `fromGRPC` builds points from x, y and z only. The point type's header is not part of this model, so its default intensity is taken to be 0.
- `Camera.CameraFrame` holds only the 8-bit image that `SimCamera` creates. Other OpenCV element types are not modelled.
- The frame type `msensor::CameraFrame` is not part of this model. `Camera.CameraFrame.constructor` takes its default timestamp to be 0; `read` overwrites it.
- A frame appears twice: as the object `Camera.CameraFrame` that `read` fills in place, and as the value `Samples.CameraFrame` that the service and `toGRPC` copy. No function maps one to the other.
- The camera loop keeps the JPEG buffer in a local variable and stores it into `jpegBuffer` when the loop ends. Nothing else reads the buffer during a session, so the contents after each frame and at the end are the same as in the source.
- The publisher `main` programs, the hardware drivers, `OpenCvCamera`, `SimAdc` (random voltages), and `publishScan`/`publishImu`/`publishAdc`/`publishCameraFrame` are not part of this model.
  The `publish*` functions are declared in `grpc/sensors_server.hh:20-23` but have no definition.
- The Python test client and its colour map are not part of this model.
