/**
 * Bitrate allocation in compress_video.c: a size budget in megabytes spread
 * over the clip's duration, less a fixed audio share. The C doubles are
 * modelled as exact reals.
 */
module Bitrate {
  import opened Results

  /** The fixed audio bitrate, in bits per second. */
  const AudioBitrate: real := 128000.0

  /** Bits in one megabyte of budget: 1024 * 1024 bytes of 8 bits. */
  const BitsPerMegabyte: real := 8388608.0

  /** The whole budget, in bits per second of clip. */
  function TotalBitrate(sizeMb: real, duration: real): (r: real)
    requires duration > 0.0
    ensures r * duration == sizeMb * BitsPerMegabyte
  {
    (sizeMb * 1024.0 * 1024.0 * 8.0) / duration
  }

  /** What is left of the budget for the video stream: over the clip, the budget's bits less the audio's. */
  function VideoBitrate(sizeMb: real, duration: real): (r: real)
    requires duration > 0.0
    ensures r * duration == sizeMb * BitsPerMegabyte - AudioBitrate * duration
  {
    TotalBitrate(sizeMb, duration) - AudioBitrate
  }

  /** C's `(int)` conversion of a double: the integer part, rounding toward zero. */
  function Truncate(x: real): (n: int)
    ensures x >= 0.0 ==> 0 <= n && n as real <= x < n as real + 1.0
    ensures x < 0.0 ==> n <= 0 && n as real - 1.0 < x <= n as real
  {
    if x >= 0.0 then x.Floor else -((-x).Floor)
  }

  /** The two rates handed to the encoder, in bits per second. */
  datatype BitratePlan = BitratePlan(videoBps: int, audioBps: int)

  /**
   * None when the budget leaves no positive video bitrate; otherwise the
   * truncated video bitrate and the fixed audio bitrate.
   */
  function Allocate(sizeMb: real, duration: real): (r: Option<BitratePlan>)
    requires duration > 0.0
    ensures r.Some? <==> sizeMb * BitsPerMegabyte > AudioBitrate * duration
    ensures r.Some? ==> r.value.audioBps == 128000
    ensures r.Some? ==> var v := r.value.videoBps;
      0 <= v && v as real <= VideoBitrate(sizeMb, duration) < v as real + 1.0
  {
    var video := VideoBitrate(sizeMb, duration);
    BudgetCoversAudio(sizeMb, duration);
    if video <= 0.0 then None
    else Some(BitratePlan(Truncate(video), Truncate(AudioBitrate)))
  }

  /** The budget covers more than the audio share exactly when its bits exceed 128000 per second of clip. */
  lemma BudgetCoversAudio(sizeMb: real, duration: real)
    requires duration > 0.0
    ensures TotalBitrate(sizeMb, duration) > AudioBitrate <==> sizeMb * BitsPerMegabyte > AudioBitrate * duration
  {
  }

  /** A larger budget over the same clip gives a strictly larger video bitrate. */
  lemma VideoBitrateIncreasesWithSize(small: real, large: real, duration: real)
    requires duration > 0.0 && small < large
    ensures VideoBitrate(small, duration) < VideoBitrate(large, duration)
  {
  }

  /** The same positive budget over a longer clip gives a strictly smaller video bitrate. */
  lemma VideoBitrateDecreasesWithDuration(sizeMb: real, short: real, long: real)
    requires sizeMb > 0.0 && 0.0 < short < long
    ensures VideoBitrate(sizeMb, short) > VideoBitrate(sizeMb, long)
  {
    var s, l := TotalBitrate(sizeMb, short), TotalBitrate(sizeMb, long);
    assert s * short == l * long;
    assert l > 0.0 by {
      assert l * long > 0.0;
    }
    assert (s - l) * short == l * (long - short);
    assert l * (long - short) > 0.0;
    assert s > l;
    assert VideoBitrate(sizeMb, short) == s - AudioBitrate;
    assert VideoBitrate(sizeMb, long) == l - AudioBitrate;
  }

  /** The plan handed to the encoder does not shrink when the budget grows. */
  lemma PlanGrowsWithSize(small: real, large: real, duration: real)
    requires duration > 0.0 && small < large
    requires Allocate(small, duration).Some?
    ensures Allocate(large, duration).Some?
    ensures Allocate(small, duration).value.videoBps <= Allocate(large, duration).value.videoBps
  {
    VideoBitrateIncreasesWithSize(small, large, duration);
  }

  /** Ten megabytes over a minute: 83886080 / 60 - 128000 = 1270101.33... bits per second. */
  lemma TenMegabytesOverAMinute()
    ensures Allocate(10.0, 60.0) == Some(BitratePlan(1270101, 128000))
  {
  }

  /** Five megabytes over ten seconds: 41943040 / 10 - 128000 = 4066304 bits per second. */
  lemma FiveMegabytesOverTenSeconds()
    ensures Allocate(5.0, 10.0) == Some(BitratePlan(4066304, 128000))
  {
  }

  /**
   * The guard tests the real-valued video bitrate, not its truncation: half
   * a bit per second passes it, and the encoder is then asked for 0.
   */
  lemma GuardAdmitsZeroVideoBitrate()
    ensures Allocate(1280.005, 83886.08) == Some(BitratePlan(0, 128000))
  {
  }
}
