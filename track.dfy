/**
 * The bookkeeping of one audio file in the ngq player: the `Track` type of
 * src/view/model/track.rs. A track owns the preview buffer that the analyzer
 * appends to while the file is decoded, a write-once fallback for the number
 * of samples per packet, and derives from them the analysis progress and the
 * window of preview samples shown around the playback position.
 *
 * Rust panics (unwrap of None, division by zero, a slice out of range) are
 * modelled as an `Outcome` rather than as preconditions, so that the model
 * says exactly which inputs make the source panic.
 */
module TrackModel {
  import opened Wrappers

  // ------------------------------------------------------------------
  // Preview samples, constants and codec parameters
  // ------------------------------------------------------------------

  /** One downsampled instant: the energies of three frequency bands. */
  datatype Sample = Sample(lows: real, mids: real, highs: real)

  /** The sample all of whose bands are zero, used to pad windows. */
  const ZeroSample := Sample(0.0, 0.0, 0.0)

  type Positive = n: nat | n > 0 witness 1

  /**
   * PREVIEW_SAMPLES_PER_PACKET: how many preview samples the analyzer emits
   * for one decoded packet. Its value is defined outside the track module;
   * the model relies only on its being positive.
   */
  const K: Positive

  /** The codec parameters the decoder reports for a file. */
  datatype CodecParams = CodecParams(
    nFrames: Option<nat>,
    maxFramesPerPacket: Option<nat>,
    channels: Option<nat>)

  /** Why a call panics. */
  datatype Panic = UnwrapOnNone | DivisionByZero | SliceOutOfRange

  /** A call that either returns a value or panics. */
  datatype Outcome<+T> = Returned(value: T) | Panicked(reason: Panic)

  function Min(a: int, b: int): int { if a <= b then a else b }

  /** `n` zero samples. */
  function Zeros(n: nat): (r: seq<Sample>)
    ensures |r| == n
    ensures forall i :: 0 <= i < n ==> r[i] == ZeroSample
  {
    if n == 0 then [] else Zeros(n - 1) + [ZeroSample]
  }

  /** The sample at index `j` of the buffer, or the zero sample outside it. */
  function SampleAt(buffer: seq<Sample>, j: int): Sample {
    if 0 <= j < |buffer| then buffer[j] else ZeroSample
  }

  // ------------------------------------------------------------------
  // Frames per packet and number of packets
  // ------------------------------------------------------------------

  /**
   * get_frames_per_packet: half of the codec's max_frames_per_packet when
   * the codec reports it, otherwise half of the estimate, rounded down.
   */
  function FramesPerPacket(maxFramesPerPacket: Option<nat>, estimate: Option<nat>): (r: Option<nat>)
    ensures r.Some? <==> maxFramesPerPacket.Some? || estimate.Some?
    ensures maxFramesPerPacket.Some? ==>
      2 * r.value <= maxFramesPerPacket.value < 2 * r.value + 2
    ensures maxFramesPerPacket.None? && estimate.Some? ==>
      2 * r.value <= estimate.value < 2 * r.value + 2
  {
    var chosen := if maxFramesPerPacket.Some? then maxFramesPerPacket else estimate;
    match chosen
    case Some(x) => Some(x / 2)
    case None => None
  }

  /** Once the codec reports max_frames_per_packet, the estimate no longer matters. */
  lemma CodecFramesTakePrecedence(maxFramesPerPacket: Option<nat>, e1: Option<nat>, e2: Option<nat>)
    requires maxFramesPerPacket.Some?
    ensures FramesPerPacket(maxFramesPerPacket, e1) == FramesPerPacket(maxFramesPerPacket, e2)
  {
  }

  /**
   * n_packets: the number of whole packets in the track. Unwrapping the
   * frame count panics when the codec does not report it, and the division
   * panics when the frames per packet are known to be zero.
   */
  function NPackets(codec: CodecParams, estimate: Option<nat>): (r: Outcome<Option<nat>>)
    ensures r.Panicked? <==>
      codec.nFrames.None? || FramesPerPacket(codec.maxFramesPerPacket, estimate) == Some(0)
    ensures r.Panicked? ==> (r.reason == UnwrapOnNone <==> codec.nFrames.None?)
    ensures r.Panicked? && codec.nFrames.Some? ==> r.reason == DivisionByZero
    ensures r.Returned? ==>
      (r.value.Some? <==> FramesPerPacket(codec.maxFramesPerPacket, estimate).Some?)
    ensures r.Returned? && r.value.Some? ==>
      var f := FramesPerPacket(codec.maxFramesPerPacket, estimate).value;
      r.value.value * f <= codec.nFrames.value < (r.value.value + 1) * f
  {
    if codec.nFrames.None? then Panicked(UnwrapOnNone)
    else
      match FramesPerPacket(codec.maxFramesPerPacket, estimate)
      case None => Returned(None)
      case Some(f) =>
        if f == 0 then Panicked(DivisionByZero)
        else
          var n := codec.nFrames.value;
          assert n == (n / f) * f + n % f;
          Returned(Some(n / f))
  }

  // ------------------------------------------------------------------
  // Analysis progress
  // ------------------------------------------------------------------

  /** The least `c` with `c * n >= a`. */
  function CeilDiv(a: nat, n: nat): (c: nat)
    requires n > 0
    ensures c * n >= a
    ensures c == 0 || (c - 1) * n < a
  {
    var c := (a + n - 1) / n;
    assert a + n - 1 == c * n + (a + n - 1) % n;
    c
  }

  /** The frames covered by the preview buffer: whole packets analyzed times frames per packet. */
  function AnalyzedFrames(bufferLength: nat, framesPerPacket: nat): (r: nat)
    ensures r * K <= bufferLength * framesPerPacket
    ensures framesPerPacket > 0 ==> bufferLength * framesPerPacket < r * K + K * framesPerPacket
    ensures framesPerPacket > 0 ==>
      r % framesPerPacket == 0 &&
      (r / framesPerPacket) * K <= bufferLength < (r / framesPerPacket + 1) * K
  {
    WholePacketFrames(bufferLength, K, framesPerPacket);
    WholePackets(bufferLength, K, framesPerPacket);
    (bufferLength / K) * framesPerPacket
  }

  /** `(len / d) * f` counts whole packets of `d` samples, `f` frames each. */
  lemma WholePackets(len: nat, d: nat, f: nat)
    requires d > 0
    ensures f > 0 ==> ((len / d) * f) % f == 0 && ((len / d) * f) / f == len / d
    ensures (len / d) * d <= len < (len / d + 1) * d
  {
    if f > 0 {
      MulDivExact(len / d, f);
    }
    assert len == (len / d) * d + len % d;
  }

  /** Counting whole packets of `d` samples loses less than one packet's worth of frames. */
  lemma WholePacketFrames(len: nat, d: nat, f: nat)
    requires d > 0
    ensures (len / d) * f * d <= len * f
    ensures f > 0 ==> len * f < (len / d) * f * d + d * f
  {
    var q, m := len / d, len % d;
    assert len == q * d + m;
    assert len * f == q * d * f + m * f;
    assert q * f * d == q * d * f;
    if f > 0 {
      MulStrict(m, d, f);
    }
  }

  lemma MulStrict(a: nat, b: nat, n: nat)
    requires a < b && n > 0
    ensures a * n < b * n
  {
  }

  /** A multiple of `d` divides back exactly. */
  lemma MulDivExact(q: nat, d: nat)
    requires d > 0
    ensures (q * d) / d == q && (q * d) % d == 0
  {
    var s, r := (q * d) / d, (q * d) % d;
    assert q * d == s * d + r;
    if s < q {
      MulMonotone(s + 1, q, d);
      assert false;
    } else if s > q {
      MulMonotone(q + 1, s, d);
      assert false;
    }
  }

  /**
   * `(frames as f64 / nFrames as f64 * 100.0).ceil() as u8` in exact
   * arithmetic: the percentage rounded up and saturated at 255 by the cast.
   * A zero total gives 0/0 (NaN, cast to 0) or x/0 (infinity, cast to 255).
   */
  function Percentage(frames: nat, nFrames: nat): (r: nat)
    ensures r <= 255
    ensures frames == 0 ==> r == 0
    ensures nFrames > 0 ==> (r <= 100 <==> frames <= nFrames)
    ensures nFrames > 0 && r < 255 ==>
      r * nFrames >= 100 * frames && (r == 0 || (r - 1) * nFrames < 100 * frames)
    ensures nFrames > 0 ==> (r == 255 <==> 100 * frames > 254 * nFrames)
    ensures nFrames == 0 && frames > 0 ==> r == 255
  {
    if nFrames == 0 then
      (if frames == 0 then 0 else 255)
    else
      var c := CeilDiv(100 * frames, nFrames);
      CeilDivAtMost(100 * frames, nFrames, 100);
      CeilDivAtMost(100 * frames, nFrames, 254);
      if c <= 255 then c else 255
  }

  /** The rounded-up quotient is at most `m` exactly when `a` is at most `m` shares of `n`. */
  lemma CeilDivAtMost(a: nat, n: nat, m: nat)
    requires n > 0
    ensures CeilDiv(a, n) <= m <==> a <= m * n
  {
    var c := CeilDiv(a, n);
    if c <= m {
      MulMonotone(c, m, n);
    } else {
      MulMonotone(m, c - 1, n);
    }
  }

  lemma MulMonotone(a: nat, b: nat, n: nat)
    requires a <= b
    ensures a * n <= b * n
  {
  }

  /**
   * progress: 100 once analyzed; otherwise the percentage of frames covered
   * by the whole packets in the buffer, when both the frames per packet and
   * the track's frame count are known, and None when either is unknown.
   */
  function Progress(analyzed: bool, codec: CodecParams, estimate: Option<nat>, bufferLength: nat): (r: Option<nat>)
    ensures analyzed ==> r == Some(100)
    ensures !analyzed ==>
      (r.Some? <==> FramesPerPacket(codec.maxFramesPerPacket, estimate).Some? && codec.nFrames.Some?)
    ensures r.Some? ==> r.value <= 255
    ensures !analyzed && r.Some? && codec.nFrames.value > 0 ==>
      (r.value <= 100 <==>
        AnalyzedFrames(bufferLength, FramesPerPacket(codec.maxFramesPerPacket, estimate).value) <= codec.nFrames.value)
  {
    if analyzed then Some(100)
    else
      match (FramesPerPacket(codec.maxFramesPerPacket, estimate), codec.nFrames)
      case (Some(f), Some(n)) => Some(Percentage(AnalyzedFrames(bufferLength, f), n))
      case _ => None
  }

  lemma AnalyzedFramesMonotone(len1: nat, len2: nat, f: nat)
    requires len1 <= len2
    ensures AnalyzedFrames(len1, f) <= AnalyzedFrames(len2, f)
  {
    DivMonotone(len1, len2, K);
    MulMonotone(len1 / K, len2 / K, f);
  }

  lemma DivMonotone(a: nat, b: nat, d: nat)
    requires a <= b && d > 0
    ensures a / d <= b / d
  {
    var qa, qb := a / d, b / d;
    assert a == qa * d + a % d;
    assert b == qb * d + b % d;
    if qb < qa {
      MulMonotone(qb + 1, qa, d);
      assert false;
    }
  }

  lemma PercentageMonotone(f1: nat, f2: nat, n: nat)
    requires f1 <= f2
    ensures Percentage(f1, n) <= Percentage(f2, n)
  {
    if n > 0 {
      var c1, c2 := CeilDiv(100 * f1, n), CeilDiv(100 * f2, n);
      if c2 < c1 {
        MulMonotone(c2, c1 - 1, n);
        assert false;
      }
    }
  }

  /** Appending samples never makes the progress go back, nor makes it unknown. */
  lemma ProgressMonotone(analyzed: bool, codec: CodecParams, estimate: Option<nat>, len1: nat, len2: nat)
    requires len1 <= len2
    ensures Progress(analyzed, codec, estimate, len1).Some? <==> Progress(analyzed, codec, estimate, len2).Some?
    ensures Progress(analyzed, codec, estimate, len1).Some? ==>
      Progress(analyzed, codec, estimate, len1).value <= Progress(analyzed, codec, estimate, len2).value
  {
    var fpp := FramesPerPacket(codec.maxFramesPerPacket, estimate);
    if !analyzed && fpp.Some? && codec.nFrames.Some? {
      AnalyzedFramesMonotone(len1, len2, fpp.value);
      PercentageMonotone(AnalyzedFrames(len1, fpp.value), AnalyzedFrames(len2, fpp.value), codec.nFrames.value);
    }
  }

  /**
   * A 1000-frame track whose codec reports 200 as max_frames_per_packet has
   * 100 frames per packet; two packets' worth of preview samples is 20%.
   */
  lemma ProgressTwoPacketsOfTen()
    ensures Progress(false, CodecParams(Some(1000), Some(200), None), None, 2 * K) == Some(20)
  {
    assert (2 * K) / K == 2;
    assert CeilDiv(20000, 1000) == 20;
  }

  /**
   * Nothing bounds the progress by 100 before `analyzed` is set: with
   * max_frames_per_packet an upper bound, four packets of at most 300 frames
   * cover a 1000-frame track whose last packet is short, and the progress
   * reads 120.
   */
  lemma ProgressExceedsHundred()
    ensures Progress(false, CodecParams(Some(1000), Some(600), None), None, 4 * K) == Some(120)
  {
    assert (4 * K) / K == 4;
    assert CeilDiv(120000, 1000) == 120;
  }

  /** The progress as the documentation promises it: a percentage between 0 and 100. */
  function ClampedProgress(analyzed: bool, codec: CodecParams, estimate: Option<nat>, bufferLength: nat): (r: Option<nat>)
    ensures r.Some? ==> r.value <= 100
    ensures r.Some? <==> Progress(analyzed, codec, estimate, bufferLength).Some?
    ensures analyzed ==> r == Some(100)
    ensures (Progress(analyzed, codec, estimate, bufferLength).Some? &&
             Progress(analyzed, codec, estimate, bufferLength).value <= 100) ==>
      r == Progress(analyzed, codec, estimate, bufferLength)
    ensures (Progress(analyzed, codec, estimate, bufferLength).Some? &&
             Progress(analyzed, codec, estimate, bufferLength).value > 100) ==>
      r == Some(100)
  {
    match Progress(analyzed, codec, estimate, bufferLength)
    case Some(v) => Some(if v <= 100 then v else 100)
    case None => None
  }

  /** The clamped progress is still non-decreasing as samples are appended. */
  lemma ClampedProgressMonotone(analyzed: bool, codec: CodecParams, estimate: Option<nat>, len1: nat, len2: nat)
    requires len1 <= len2
    ensures ClampedProgress(analyzed, codec, estimate, len1).Some? ==>
      ClampedProgress(analyzed, codec, estimate, len2).Some? &&
      ClampedProgress(analyzed, codec, estimate, len1).value <= ClampedProgress(analyzed, codec, estimate, len2).value
  {
    ProgressMonotone(analyzed, codec, estimate, len1, len2);
  }

  // ------------------------------------------------------------------
  // Static preview
  // ------------------------------------------------------------------

  /**
   * Whether `(targetSize as f64 * progress).floor() as usize` is positive,
   * where progress is `frames as f64 / nFrames as f64 * 2.0`; a zero total
   * gives infinity (positive once multiplied by a positive size) or NaN (0).
   */
  predicate ScaledSizePositive(targetSize: nat, frames: nat, nFrames: nat)
    ensures nFrames > 0 ==>
      (ScaledSizePositive(targetSize, frames, nFrames) <==> (2 * targetSize * frames) / nFrames > 0)
  {
    targetSize > 0 && frames > 0 && 2 * targetSize * frames >= nFrames
  }

  /**
   * preview: the scaled size it computes is unused and its downsampling is
   * disabled, so it returns a copy of the whole buffer. It panics when the
   * codec does not report the frame count, and when the channel count is
   * missing at a point where the scaled size is positive.
   */
  function Preview(codec: CodecParams, estimate: Option<nat>, buffer: seq<Sample>, targetSize: nat): (r: Outcome<seq<Sample>>)
    ensures r.Returned? ==> r.value == buffer
    ensures r.Panicked? ==> r.reason == UnwrapOnNone
    ensures codec.nFrames.None? ==> r.Panicked?
    ensures codec.nFrames.Some? && codec.channels.Some? ==> r.Returned?
    ensures codec.nFrames.Some? && FramesPerPacket(codec.maxFramesPerPacket, estimate).None? ==> r.Returned?
    ensures
      var fpp := FramesPerPacket(codec.maxFramesPerPacket, estimate);
      r.Panicked? <==>
        codec.nFrames.None? ||
        (codec.channels.None? && fpp.Some? &&
         ScaledSizePositive(targetSize, AnalyzedFrames(|buffer|, fpp.value), codec.nFrames.value))
  {
    if codec.nFrames.None? then Panicked(UnwrapOnNone)
    else
      match FramesPerPacket(codec.maxFramesPerPacket, estimate)
      case Some(f) =>
        if ScaledSizePositive(targetSize, AnalyzedFrames(|buffer|, f), codec.nFrames.value) && codec.channels.None?
        then Panicked(UnwrapOnNone)
        else Returned(buffer)
      case None => Returned(buffer)
  }

  // ------------------------------------------------------------------
  // Live preview window
  // ------------------------------------------------------------------

  /** The buffer index of the playback position. */
  function PlayerSample(playerPosition: nat): (p: nat)
    ensures p % K == 0 && p / K == playerPosition
  {
    MulDivExact(playerPosition, K);
    playerPosition * K
  }

  /**
   * The left edge `(p as f32 - targetSize as f32 / 2.0) as usize` of the
   * window when `p >= targetSize / 2`: exact for an even size; for an odd
   * size the extra half moves the edge one further left, and -0.5 truncates
   * to 0.
   */
  function WindowLeft(p: nat, targetSize: nat): (l: nat)
    requires p >= targetSize / 2
    ensures targetSize % 2 == 0 ==> l == p - targetSize / 2
    ensures targetSize % 2 == 1 ==> l == if p == targetSize / 2 then 0 else p - targetSize / 2 - 1
  {
    if p >= (targetSize + 1) / 2 then p - (targetSize + 1) / 2 else 0
  }

  /** The (possibly negative) buffer index that the first sample of a live-preview window shows. */
  function WindowOrigin(p: nat, targetSize: nat): int {
    if p >= targetSize / 2 then WindowLeft(p, targetSize) else p - targetSize / 2
  }

  /**
   * live_preview as written. Past the first half window it is the slice of
   * the buffer from the left edge to `p + targetSize / 2`, cut at the end of
   * the buffer; it panics when the left edge lies beyond the buffer. Near
   * the start it is `targetSize / 2 - p` zero samples followed, if the
   * buffer is not empty, by its first `targetSize - diff` samples, which
   * panics when the buffer is shorter than that.
   */
  function LiveWindow(buffer: seq<Sample>, targetSize: nat, playerPosition: nat): (r: Outcome<seq<Sample>>)
    ensures r.Panicked? ==> r.reason == SliceOutOfRange
    ensures
      var p := PlayerSample(playerPosition);
      r.Panicked? <==>
        if p >= targetSize / 2 then WindowLeft(p, targetSize) > |buffer|
        else 0 < |buffer| < targetSize - (targetSize / 2 - p)
    ensures r.Returned? ==> |r.value| <= targetSize
    ensures
      var p := PlayerSample(playerPosition);
      r.Returned? ==>
        |r.value| == if p >= targetSize / 2 then Min(p + targetSize / 2, |buffer|) - WindowLeft(p, targetSize)
                     else if |buffer| > 0 then targetSize
                     else targetSize / 2 - p
    ensures r.Returned? ==>
      forall i :: 0 <= i < |r.value| ==>
        r.value[i] == SampleAt(buffer, WindowOrigin(PlayerSample(playerPosition), targetSize) + i)
  {
    var p := PlayerSample(playerPosition);
    var half := targetSize / 2;
    if p >= half then
      var left := WindowLeft(p, targetSize);
      var right := Min(p + half, |buffer|);
      if left <= right then Returned(buffer[left..right]) else Panicked(SliceOutOfRange)
    else
      var diff := half - p;
      if |buffer| > 0 then
        if targetSize - diff <= |buffer| then Returned(Zeros(diff) + buffer[..targetSize - diff])
        else Panicked(SliceOutOfRange)
      else
        Returned(Zeros(diff))
  }

  /**
   * Once the buffer reaches the window's right edge, live_preview returns
   * exactly `targetSize` samples, for an even size, and for an odd size past
   * the first half window.
   */
  lemma LiveWindowFull(buffer: seq<Sample>, targetSize: nat, playerPosition: nat)
    requires targetSize % 2 == 0 || PlayerSample(playerPosition) > targetSize / 2
    requires PlayerSample(playerPosition) + targetSize / 2 <= |buffer|
    ensures LiveWindow(buffer, targetSize, playerPosition).Returned?
    ensures |LiveWindow(buffer, targetSize, playerPosition).value| == targetSize
  {
  }

  /**
   * Near the start the window begins with `targetSize / 2 - p` zero samples;
   * the first samples of a non-empty buffer complete it to `targetSize`, and
   * an empty buffer leaves it at the zeros alone.
   */
  lemma LiveWindowStart(buffer: seq<Sample>, targetSize: nat, playerPosition: nat)
    requires PlayerSample(playerPosition) < targetSize / 2
    requires LiveWindow(buffer, targetSize, playerPosition).Returned?
    ensures
      var w := LiveWindow(buffer, targetSize, playerPosition).value;
      var diff := targetSize / 2 - PlayerSample(playerPosition);
      && diff <= |w|
      && w[..diff] == Zeros(diff)
      && (|buffer| > 0 ==> |w| == targetSize && w[diff..] == buffer[..targetSize - diff])
      && (|buffer| == 0 ==> |w| == diff < targetSize)
  {
  }

  /** A one-sample buffer makes live_preview panic at the start of a 10-wide window. */
  lemma LiveWindowPanicsOnShortBuffer(s: Sample)
    ensures LiveWindow([s], 10, 0) == Panicked(SliceOutOfRange)
  {
  }

  /** An empty buffer gives a 10-wide window of only 5 samples. */
  lemma LiveWindowShortOnEmptyBuffer()
    ensures LiveWindow([], 10, 0) == Returned(Zeros(5))
  {
  }

  /** At the right edge the window is cut to the samples the buffer holds: K of the 2K asked for. */
  lemma LiveWindowShortAtEnd(buffer: seq<Sample>)
    requires |buffer| == K
    ensures LiveWindow(buffer, 2 * K, 1) == Returned(buffer)
  {
    assert PlayerSample(1) == K && (2 * K) / 2 == K;
    assert WindowLeft(K, 2 * K) == 0;
    assert buffer[0..K] == buffer;
  }

  /** An odd size at exactly half a window from the start gives one sample fewer than asked for. */
  lemma LiveWindowOddAtHalf(buffer: seq<Sample>)
    requires |buffer| >= 2 * K
    ensures LiveWindow(buffer, 2 * K + 1, 1) == Returned(buffer[..2 * K])
  {
    assert PlayerSample(1) == K && (2 * K + 1) / 2 == K;
    assert WindowLeft(K, 2 * K + 1) == 0;
  }

  /**
   * The window live_preview is meant to return: exactly `targetSize`
   * samples, the buffer seen from index `p - targetSize / 2`, with zero
   * samples wherever that range leaves the buffer on either side.
   */
  function PaddedWindow(buffer: seq<Sample>, targetSize: nat, playerPosition: nat): (r: seq<Sample>)
    ensures |r| == targetSize
    ensures forall i :: 0 <= i < targetSize ==>
      r[i] == SampleAt(buffer, PlayerSample(playerPosition) - targetSize / 2 + i)
  {
    var origin := PlayerSample(playerPosition) - targetSize / 2;
    var lead: nat := if origin >= 0 then 0 else -origin;
    var from: nat := if origin >= 0 then origin else 0;
    var body := if from < |buffer| then buffer[from..Min(origin + targetSize, |buffer|)] else [];
    var r := Zeros(lead) + body + Zeros(targetSize - lead - |body|);
    assert forall i :: 0 <= i < targetSize ==> r[i] == SampleAt(buffer, origin + i) by {
      forall i | 0 <= i < targetSize
        ensures r[i] == SampleAt(buffer, origin + i)
      {
        if i < lead {
        } else if i < lead + |body| {
          assert r[i] == body[i - lead];
        } else {
          assert origin + i >= |buffer|;
        }
      }
    }
    r
  }

  /**
   * For an even size, whatever live_preview returns is the beginning of the
   * intended padded window: the two differ only in the missing tail.
   */
  lemma PaddedWindowExtendsLiveWindow(buffer: seq<Sample>, targetSize: nat, playerPosition: nat)
    requires targetSize % 2 == 0
    requires LiveWindow(buffer, targetSize, playerPosition).Returned?
    ensures
      var w := LiveWindow(buffer, targetSize, playerPosition).value;
      w == PaddedWindow(buffer, targetSize, playerPosition)[..|w|]
  {
    var w := LiveWindow(buffer, targetSize, playerPosition).value;
    var padded := PaddedWindow(buffer, targetSize, playerPosition);
    assert WindowOrigin(PlayerSample(playerPosition), targetSize) == PlayerSample(playerPosition) - targetSize / 2;
    assert forall i :: 0 <= i < |w| ==> w[i] == padded[i];
  }

  // ------------------------------------------------------------------
  // Identity: equality and ordering by file path
  // ------------------------------------------------------------------

  datatype Ordering = Less | Equal | Greater

  function Reverse(o: Ordering): Ordering {
    match o
    case Less => Greater
    case Equal => Equal
    case Greater => Less
  }

  /** String::cmp: lexicographic order of the characters, a proper prefix first. */
  function CompareStrings(a: string, b: string): (r: Ordering)
    ensures r == Equal <==> a == b
  {
    if a == [] then (if b == [] then Equal else Less)
    else if b == [] then Greater
    else if a[0] < b[0] then Less
    else if a[0] > b[0] then Greater
    else
      assert a == [a[0]] + a[1..] && b == [b[0]] + b[1..];
      CompareStrings(a[1..], b[1..])
  }

  /** `a` and `b` agree below `k`, where `a` ends first or has the smaller character. */
  ghost predicate LexLessAt(a: string, b: string, k: nat) {
    && k <= |a| && k <= |b|
    && (forall j :: 0 <= j < k ==> a[j] == b[j])
    && ((k == |a| && k < |b|) || (k < |a| && k < |b| && a[k] < b[k]))
  }

  /** The lexicographic order, stated by the first index where the strings differ. */
  ghost predicate LexLess(a: string, b: string) {
    exists k: nat :: LexLessAt(a, b, k)
  }

  lemma LexLessAtTail(a: string, b: string, k: nat)
    requires a != [] && b != [] && a[0] == b[0]
    ensures LexLessAt(a, b, k + 1) <==> LexLessAt(a[1..], b[1..], k)
  {
    if LexLessAt(a[1..], b[1..], k) {
      forall j | 0 <= j < k + 1
        ensures a[j] == b[j]
      {
        if j > 0 {
          assert a[1..][j - 1] == b[1..][j - 1];
        }
      }
    }
  }

  /** String::cmp puts `a` first exactly in the lexicographic order. */
  lemma {:induction false} CompareStringsLess(a: string, b: string)
    ensures CompareStrings(a, b) == Less <==> LexLess(a, b)
  {
    if a == [] {
      if b != [] {
        assert LexLessAt(a, b, 0);
      }
    } else if b == [] {
    } else if a[0] < b[0] {
      assert LexLessAt(a, b, 0);
    } else if a[0] > b[0] {
    } else {
      CompareStringsLess(a[1..], b[1..]);
      if LexLess(a, b) {
        var k: nat :| LexLessAt(a, b, k);
        assert k > 0;
        LexLessAtTail(a, b, k - 1);
      }
      if LexLess(a[1..], b[1..]) {
        var k: nat :| LexLessAt(a[1..], b[1..], k);
        LexLessAtTail(a, b, k);
      }
    }
  }

  lemma {:induction false} CompareStringsAntisymmetric(a: string, b: string)
    ensures CompareStrings(b, a) == Reverse(CompareStrings(a, b))
  {
    if a != [] && b != [] && a[0] == b[0] {
      CompareStringsAntisymmetric(a[1..], b[1..]);
    }
  }

  lemma {:induction false} CompareStringsTransitive(a: string, b: string, c: string)
    requires CompareStrings(a, b) == Less && CompareStrings(b, c) == Less
    ensures CompareStrings(a, c) == Less
  {
    if a != [] && b != [] && c != [] && a[0] == b[0] && b[0] == c[0] {
      CompareStringsTransitive(a[1..], b[1..], c[1..]);
    }
  }

  // ------------------------------------------------------------------
  // The track
  // ------------------------------------------------------------------

  /** A caller-owned vector of preview samples, which appending drains. */
  class SampleVec {
    var items: seq<Sample>

    constructor (items: seq<Sample>)
      ensures this.items == items
    {
      this.items := items;
    }
  }

  class Track {
    const filePath: string
    /** The last component of the path, as the path library derives it. */
    const fileName: string
    const codecParams: CodecParams
    /** Downsampled preview of the frames decoded so far. */
    var previewBuffer: seq<Sample>
    /** Fallback for the frames per packet when the codec does not report them. */
    var estimatedSamplesPerPacket: Option<nat>
    /** Whether the whole file has been analyzed; no operation of the track sets it. */
    var analyzed: bool

    /** Track::new: an empty buffer, no estimate, not analyzed. */
    constructor (filePath: string, fileName: string, codecParams: CodecParams)
      ensures this.filePath == filePath && this.fileName == fileName && this.codecParams == codecParams
      ensures previewBuffer == [] && estimatedSamplesPerPacket == None && !analyzed
    {
      this.filePath := filePath;
      this.fileName := fileName;
      this.codecParams := codecParams;
      previewBuffer := [];
      estimatedSamplesPerPacket := None;
      analyzed := false;
    }

    /** Sets the estimate only if none is set yet: the first value wins. */
    method SetEstimatedSamplesPerPacket(estimate: nat)
      modifies this`estimatedSamplesPerPacket
      ensures old(estimatedSamplesPerPacket).None? ==> estimatedSamplesPerPacket == Some(estimate)
      ensures old(estimatedSamplesPerPacket).Some? ==> estimatedSamplesPerPacket == old(estimatedSamplesPerPacket)
    {
      var current := estimatedSamplesPerPacket;
      if current.None? {
        estimatedSamplesPerPacket := Some(estimate);
      }
    }

    /**
     * Moves the samples to the tail of the buffer, leaving the caller's
     * vector empty. Every sample already stored keeps its index, and the
     * progress does not go back.
     */
    method AppendPreviewSamples(samples: SampleVec)
      modifies this`previewBuffer, samples`items
      ensures previewBuffer == old(previewBuffer) + old(samples.items)
      ensures samples.items == []
      ensures forall i :: 0 <= i < old(|previewBuffer|) ==> previewBuffer[i] == old(previewBuffer[i])
      ensures
        var before := Progress(analyzed, codecParams, estimatedSamplesPerPacket, old(|previewBuffer|));
        var after := Progress(analyzed, codecParams, estimatedSamplesPerPacket, |previewBuffer|);
        before.Some? ==> after.Some? && before.value <= after.value
    {
      previewBuffer := previewBuffer + samples.items;
      samples.items := [];
      ProgressMonotone(analyzed, codecParams, estimatedSamplesPerPacket, old(|previewBuffer|), |previewBuffer|);
    }

    /**
     * live_preview: copies the buffer, then either slices it around the
     * playback position or builds the zero padding and extends it with the
     * start of the buffer. The playhead position does not take part.
     */
    method LivePreview(targetSize: nat, playerPosition: nat, playheadPosition: nat) returns (r: Outcome<seq<Sample>>)
      ensures r == LiveWindow(previewBuffer, targetSize, playerPosition)
    {
      var snapshot := previewBuffer;
      var p := playerPosition * K;
      var half := targetSize / 2;
      if p >= half {
        var left := WindowLeft(p, targetSize);
        var right := Min(p + half, |snapshot|);
        if left <= right {
          r := Returned(snapshot[left..right]);
        } else {
          r := Panicked(SliceOutOfRange);
        }
      } else {
        var diff := half - p;
        var padding: seq<Sample> := [];
        while |padding| < diff
          invariant |padding| <= diff
          invariant padding == Zeros(|padding|)
        {
          padding := padding + [ZeroSample];
        }
        if |snapshot| > 0 {
          if targetSize - diff <= |snapshot| {
            r := Returned(padding + snapshot[..targetSize - diff]);
          } else {
            r := Panicked(SliceOutOfRange);
          }
        } else {
          r := Returned(padding);
        }
      }
    }
  }

  /** PartialEq: two tracks are equal exactly when their paths are, whatever their state. */
  predicate SameTrack(a: Track, b: Track)
    ensures SameTrack(a, b) <==> CompareStrings(a.filePath, b.filePath) == Equal
  {
    a.filePath == b.filePath
  }

  /** Ord (and PartialOrd): tracks ordered by their paths, consistently with equality. */
  function CompareTracks(a: Track, b: Track): (r: Ordering)
    ensures r == Equal <==> SameTrack(a, b)
    ensures r == Less <==> LexLess(a.filePath, b.filePath)
  {
    CompareStringsLess(a.filePath, b.filePath);
    CompareStrings(a.filePath, b.filePath)
  }
}
