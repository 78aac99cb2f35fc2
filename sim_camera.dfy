/**
 * The simulated camera (src/camera/sim_camera.cc): every read fills the
 * caller's frame with the same 480 x 640 three-channel gradient.
 *
 * Here the frame is the object `read` updates in place, so it is a class
 * holding an array. The service and the conversions only copy frames and
 * read their shape and bytes, so there a frame is the value
 * `Samples.CameraFrame`. Both stand for `msensor::CameraFrame`, and the
 * model has no function from one to the other.
 */
module Camera {

  import opened Samples

  const Width: int := 640
  const Height: int := 480
  const Channels: int := 3
  /** The modulus that keeps each gradient channel within a byte. */
  const Factor: int := 256

  /**
   * The frame a camera read fills: an image of rows x columns x channels
   * bytes, and the capture time in microseconds.
   */
  class CameraFrame {
    var mat: array3<byte>
    var timestamp: nat

    /**
     * A frame as default-constructed: an image with no pixels and, as a
     * default `cv::Mat` has, one channel. The frame type is not part of this
     * model; its timestamp is taken to start at 0, and Read overwrites it.
     */
    constructor ()
      ensures mat.Length0 == 0 && mat.Length1 == 0 && mat.Length2 == 1
      ensures timestamp == 0
      ensures fresh(mat)
    {
      mat := new byte[0, 0, 1];
      timestamp := 0;
    }
  }

  class SimCamera {

    /**
     * read: (re)shape the frame to 480 x 640 x 3, reusing its image when it
     * already has that shape, fill pixel (y, x) with
     * (x mod 256, y mod 256, (x + y) mod 256), and stamp it with `now`, the
     * clock's reading.
     */
    method Read(frame: CameraFrame, now: nat) returns (ok: bool)
      modifies frame, frame.mat
      ensures ok
      ensures frame.mat.Length0 == Height && frame.mat.Length1 == Width
      ensures frame.mat.Length2 == Channels
      ensures (old(frame.mat.Length0) == Height && old(frame.mat.Length1) == Width
               && old(frame.mat.Length2) == Channels) ==> frame.mat == old(frame.mat)
      ensures frame.mat != old(frame.mat) ==> fresh(frame.mat)
      ensures frame.mat != old(frame.mat) ==> unchanged(old(frame.mat))
      ensures forall y, x :: 0 <= y < Height && 0 <= x < Width ==>
                && frame.mat[y, x, 0] as int == x % Factor
                && frame.mat[y, x, 1] as int == y % Factor
                && frame.mat[y, x, 2] as int == (x + y) % Factor
      ensures frame.timestamp == now
    {
      if !(frame.mat.Length0 == Height && frame.mat.Length1 == Width
           && frame.mat.Length2 == Channels) {
        frame.mat := new byte[Height, Width, Channels];
      }
      var m := frame.mat;
      for y := 0 to Height
        invariant frame.mat == m
        invariant m != old(frame.mat) ==> unchanged(old(frame.mat))
        invariant forall yy, x :: 0 <= yy < y && 0 <= x < Width ==>
                    && m[yy, x, 0] as int == x % Factor
                    && m[yy, x, 1] as int == yy % Factor
                    && m[yy, x, 2] as int == (x + yy) % Factor
      {
        for x := 0 to Width
          invariant frame.mat == m
          invariant m != old(frame.mat) ==> unchanged(old(frame.mat))
          invariant forall yy, xx :: 0 <= yy < y && 0 <= xx < Width ==>
                      && m[yy, xx, 0] as int == xx % Factor
                      && m[yy, xx, 1] as int == yy % Factor
                      && m[yy, xx, 2] as int == (xx + yy) % Factor
          invariant forall xx :: 0 <= xx < x ==>
                      && m[y, xx, 0] as int == xx % Factor
                      && m[y, xx, 1] as int == y % Factor
                      && m[y, xx, 2] as int == (xx + y) % Factor
        {
          m[y, x, 0] := (x % Factor) as byte;
          m[y, x, 1] := (y % Factor) as byte;
          m[y, x, 2] := ((x + y) % Factor) as byte;
        }
      }
      frame.timestamp := now;
      return true;
    }

    /** isOpened: the simulated camera is always open. */
    predicate IsOpened()
      ensures IsOpened()
    {
      true
    }

    /** release: nothing to release; the camera stays open. */
    method Release()
      ensures IsOpened()
    {
    }
  }
}
