# Track bookkeeping of the ngq terminal audio player

ngq plays an audio file and analyzes it while it plays. Each decoded packet becomes `K`
preview samples (`PREVIEW_SAMPLES_PER_PACKET`), each holding the energies of three frequency
bands. The samples are appended to the track's preview buffer. The renderer then asks the
track for two things: how far the analysis has progressed, and a window of samples centred
on the playback position.

This project models the `Track` type (`src/view/model/track.rs`) in Dafny, in module
`TrackModel` (`track.dfy`). `Option` lives in module `Wrappers` (`wrappers.dfy`).

- `Track` is a class. Its path, file name and codec parameters are constants. Its preview
  buffer (`seq<Sample>`), its write-once estimate of samples per packet (`Option<nat>`) and
  its `analyzed` flag are fields. The methods that change them state the whole new state:
  - `SetEstimatedSamplesPerPacket` sets the estimate only if none is set yet.
  - `AppendPreviewSamples` appends to the buffer and drains the caller's vector.
    Its contract also says that the progress does not go back.
- The read-only operations take a snapshot of the fields. `get_frames_per_packet`,
  `n_packets`, `progress` and `preview` become functions of the field values they read.
  `live_preview` is the method `Track.LivePreview`. It builds the zero padding in a loop,
  as the source builds its padding vector, and is proved equal to the function `LiveWindow`.
- A panic in the source is a value here: `Outcome.Panicked(reason)`, with reason unwrap of
  `None`, division by zero or slice out of range. So the contracts say exactly which inputs
  make each operation panic.
- Equality and ordering of tracks compare only their paths. `SameTrack` and
  `CompareTracks` read no mutable field, so neither can depend on a track's buffer, estimate
  or flag. `CompareStrings` is Rust's `String` order. It is proved equal to the lexicographic
  order defined by the first differing index, antisymmetric and transitive.

The model follows the code as written in two places where the code falls short of what
its users need. The "## Findings" section gives an input for each and a corrected member:
- the doc comment of `progress` (src/view/model/track.rs:70) promises a number between 0 and
  100, but the computation at line 90 does not clamp it; `ClampedProgress` is the corrected
  progress;
- `live_preview` can panic near the start of the track, and it can return fewer than
  `target_size` samples (an empty buffer, the right edge, an odd size at half a window),
  although the renderer draws a fixed-width window; `PaddedWindow` is the corrected window,
  exactly `target_size` samples, zero-padded on either side.

## Model

| member | source | states |
|---|---|---|
| `TrackModel.FramesPerPacket` | src/view/model/track.rs:97-105 | known exactly when the codec's max_frames_per_packet or the estimate is known; then it is half of the codec value if there is one, otherwise half of the estimate, rounded down |
| `TrackModel.CodecFramesTakePrecedence` | src/view/model/track.rs:100-103 | once the codec reports max_frames_per_packet, the estimate has no influence on the frames per packet |
| `TrackModel.NPackets` | src/view/model/track.rs:108-113 | panics exactly when n_frames is unknown (reason: unwrap) or the frames per packet are 0 (reason: division by zero); otherwise it is None exactly when the frames per packet are unknown, and else the number of whole packets q with q*f <= n_frames < (q+1)*f |
| `TrackModel.CeilDiv` | src/view/model/track.rs:90 | the rounding up of the percentage: the least c with c*n >= a |
| `TrackModel.Percentage` | src/view/model/track.rs:90 | the f64 percentage, rounded up and cast to u8: at most 255; 0 when nothing is analyzed; 255 (infinity cast to u8) for analyzed frames over a zero total; for a positive total, at most 100 exactly when the analyzed frames do not exceed the total, 255 exactly when 100*frames exceeds 254*total, and otherwise the least percentage covering the analyzed frames |
| `TrackModel.CeilDivAtMost` | src/view/model/track.rs:90 | the rounded-up quotient of a by n is at most m exactly when a <= m*n |
| `TrackModel.AnalyzedFrames` | src/view/model/track.rs:85-87 | whole packets analyzed times frames per packet: for a positive fpp, r is a multiple of fpp whose packet count q = r/fpp satisfies q*K <= len < (q+1)*K, so a partial packet is not counted; and r*K <= len*fpp < r*K + K*fpp |
| `TrackModel.Progress` | src/view/model/track.rs:71-94 | Some(100) when analyzed; otherwise known exactly when both the frames per packet and n_frames are known; never above 255; for a positive total, at most 100 exactly when (len / K) * fpp <= n_frames |
| `TrackModel.AnalyzedFramesMonotone` | src/view/model/track.rs:85-87 | a longer buffer never covers fewer analyzed frames, since whole packets are counted by integer division |
| `TrackModel.PercentageMonotone` | src/view/model/track.rs:90 | more analyzed frames never give a smaller percentage, whatever the total (including 0) |
| `TrackModel.ProgressMonotone` | src/view/model/track.rs:71-94 | for fixed codec parameters, estimate and flag, a longer buffer gives a progress that is known exactly when the shorter one's is, and is not smaller |
| `TrackModel.ProgressTwoPacketsOfTen` | src/view/model/track.rs:82-90 | with n_frames 1000 and max_frames_per_packet 200 (100 frames per packet), 2*K preview samples give Some(20) |
| `TrackModel.ProgressExceedsHundred` | src/view/model/track.rs:69-90 | as written, the progress exceeds 100: four packets of 300 frames on a 1000-frame track give Some(120) |
| `TrackModel.ClampedProgress` | src/view/model/track.rs:69-70 | the documented progress: never above 100, known exactly when the source's is, 100 when analyzed, equal to the source's whenever that is at most 100, and exactly 100 whenever the source's is above 100 |
| `TrackModel.ClampedProgressMonotone` | src/view/model/track.rs:69-90 | the clamped progress stays known and does not decrease as the buffer grows |
| `TrackModel.ScaledSizePositive` | src/view/model/track.rs:157-161 | for a positive total, the scaled size floor(2*target*frames/n_frames) is positive exactly when the predicate holds; the zero-total cases follow f64 infinity and NaN |
| `TrackModel.Preview` | src/view/model/track.rs:152-170 | returns the whole buffer whatever the target size; panics, always through an unwrap, exactly when n_frames is unknown, or when the channel count is missing while the frames per packet are known and the scaled size is positive |
| `TrackModel.PlayerSample` | src/view/model/track.rs:125 | the buffer index of the playback position is the first sample of that packet: a multiple of K whose quotient by K is the position |
| `TrackModel.Zeros` | src/view/model/track.rs:136-143 | the padding: n samples, each the all-zero sample |
| `TrackModel.WindowLeft` | src/view/model/track.rs:130 | the f32 left edge truncated to usize: p - t/2 for an even size; for an odd size one further left, or 0 when p = t/2 |
| `TrackModel.LiveWindow` | src/view/model/track.rs:117-149 | panics (slice out of range) exactly when, past the first half window, the left edge lies beyond the buffer, or, near the start, the buffer is non-empty but shorter than target_size - diff; otherwise at most target_size samples, exactly min(p + t/2, len) - left edge past the first half window, t near the start with a non-empty buffer and t/2 - p with an empty one; the i-th being the buffer sample at window origin + i, or zero outside the buffer |
| `TrackModel.LiveWindowFull` | src/view/model/track.rs:125-133 | when the buffer reaches p + t/2, and t is even or p > t/2, the window has exactly t samples and does not panic |
| `TrackModel.LiveWindowStart` | src/view/model/track.rs:134-148 | near the start the window begins with t/2 - p zero samples; a non-empty buffer then fills it to exactly t with its first samples; an empty buffer leaves it at the zeros alone, shorter than t |
| `TrackModel.LiveWindowPanicsOnShortBuffer` | src/view/model/track.rs:144-146 | a one-sample buffer, target size 10 and position 0 make the slice panic |
| `TrackModel.LiveWindowShortOnEmptyBuffer` | src/view/model/track.rs:134-147 | an empty buffer, target size 10 and position 0 give only 5 zero samples |
| `TrackModel.LiveWindowShortAtEnd` | src/view/model/track.rs:131-133 | at the right edge the window is cut to the buffer: with K samples, size 2K and position 1 it is the K samples alone |
| `TrackModel.LiveWindowOddAtHalf` | src/view/model/track.rs:130-133 | an odd size 2K+1 at position 1 (p = t/2) gives only the first 2K samples, one fewer than asked for |
| `TrackModel.PaddedWindow` | src/view/model/track.rs:115-116 | the intended window: exactly t samples, the i-th being the buffer sample at p - t/2 + i, or zero outside the buffer on either side |
| `TrackModel.PaddedWindowExtendsLiveWindow` | src/view/model/track.rs:117-149 | for an even size, every window the source returns is a prefix of the intended padded window |
| `TrackModel.CompareStrings` | src/view/model/track.rs:186-189 | String::cmp on paths: Equal exactly when the strings are equal |
| `TrackModel.LexLessAtTail` | src/view/model/track.rs:186-189 | for strings with the same first character, the first difference at k+1 is the first difference at k of their tails |
| `TrackModel.CompareStringsLess` | src/view/model/track.rs:186-189 | Less exactly when the first string is lexicographically smaller (a proper prefix, or a smaller character at the first difference) |
| `TrackModel.CompareStringsAntisymmetric` | src/view/model/track.rs:175-189 | swapping the arguments reverses the ordering |
| `TrackModel.CompareStringsTransitive` | src/view/model/track.rs:186-189 | Less is transitive |
| `TrackModel.SameTrack` | src/view/model/track.rs:180-184 | PartialEq: equal exactly when String::cmp finds the paths equal; it reads no mutable field, so buffers, estimates and flags play no part |
| `TrackModel.CompareTracks` | src/view/model/track.rs:173-190 | Ord and PartialOrd of tracks: Equal exactly when PartialEq holds (same path), Less exactly when the path is lexicographically smaller; buffers, estimates and flags play no part |
| `TrackModel.Track.constructor` | src/view/model/track.rs:33-44 | a new track has the given path, name and codec parameters, an empty buffer, no estimate and is not analyzed |
| `TrackModel.Track.SetEstimatedSamplesPerPacket` | src/view/model/track.rs:51-58 | an absent estimate becomes the given value; a present one is left as it is, so the first value wins |
| `TrackModel.Track.AppendPreviewSamples` | src/view/model/track.rs:61-67 | the buffer becomes the old buffer followed by the samples; the caller's vector is left empty; every earlier index keeps its sample; a known progress stays known and does not decrease |
| `TrackModel.Track.LivePreview` | src/view/model/track.rs:117-149 | returns exactly what LiveWindow gives for the current buffer, the target size and the player position; the playhead position plays no part |

## Left out

- `src/view/app.rs` is not part of this model: terminal setup, key mapping, tokio channels and tasks, the render loop and `process::exit` are I/O, concurrency and UI.
- The `RwLock`s around the buffer and the estimate are not modelled: the track is a single-threaded object, and the read-then-write of the estimate is atomic only in this model.
- The analyzer, the value of `PREVIEW_SAMPLES_PER_PACKET` and the symphonia codec parameters are defined outside this file. `K` is an arbitrary positive constant, and the codec parameters are a record of the three optional values the track reads.
- The f32 band energies of a preview sample are reals; only the all-zero sample matters to the track.
- `TrackMeta` is an empty struct and is not modelled.
- The `Hash` impl feeds only the path to a library hasher. The hasher is not modelled, so no hash function appears here.
- `analyzed` is never set by any code in track.rs. The model keeps the field, and no method of the model changes it either.
- Track.constructor: the file name is an argument standing for `Path::file_name(file_path)`, a library call. The panics of its two unwraps (a path with no final component or one ending in `..`) are not modelled.
- Percentage: the exact ceiling replaces the f64 computation, which can round up one too far (7/100*100.0 is slightly above 7, so its ceiling is 8), and which loses precision above 2^53.
- Progress: the u64 product of analyzed packets and frames per packet is unbounded here. The source wraps it or panics on overflow.
- Preview: the scaled target size is modelled only where it decides whether the channel count is unwrapped, with exact arithmetic instead of f64. The downsampling is commented out in the source and is not modelled.
- LiveWindow: the f32 window edges are modelled by exact integers, which agree with f32 only below 2^24. The usize overflow of `player_position * K` is not modelled.
- Track.AppendPreviewSamples: the concurrent readers that the lock serves are not modelled.

## Findings

| source | as written | input that shows it | evidently intended | confidence | as-written member | corrected member |
|---|---|---|---|---|---|---|
| src/view/model/track.rs:144-146 | near the start of the track, the slice `buffer[0..target_size - diff]` panics when the buffer is non-empty but holds fewer than `target_size - diff` samples; an empty buffer returns only `diff` samples | target size 10, player position 0, buffer of one sample: slice 0..5 of a 1-sample buffer | a window of exactly `target_size` samples, zero-padded on whichever side the buffer does not reach | medium, not executed | `TrackModel.LiveWindowPanicsOnShortBuffer` | `TrackModel.PaddedWindow` |
| src/view/model/track.rs:69-90 | the doc comment promises a number between 0 and 100, but nothing bounds it: max_frames_per_packet is an upper bound, so whole packets times it can exceed n_frames, and `analyzed` is never set to switch to 100 | n_frames 1000, max_frames_per_packet 600, 4*K samples: progress 120 | a percentage clamped to 100 | medium, not executed | `TrackModel.ProgressExceedsHundred` | `TrackModel.ClampedProgress` |
