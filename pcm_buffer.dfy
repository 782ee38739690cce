/**
 * The `AVAudioPCMBuffer` extension of Noa (AVAudioPCMBuffer+Extensions.swift): building
 * mono 16-bit PCM buffers from raw microphone bytes, the two Float-sample clean-up
 * passes, and the conversion to a `CMSampleBuffer`.
 *
 * A buffer is its frame capacity, its valid frame length and its channel storage: a
 * 16-bit channel (an array of samples) or a Float channel (an array of reals). Every
 * buffer built here is mono, so a channel is one array.
 */
module PcmBufferExtensions {
  import opened Wrappers

  type Byte = b: int | 0 <= b < 256

  /** A signed 16-bit sample. */
  type Int16 = s: int | -0x8000 <= s < 0x8000

  /** `Int8(bitPattern:)`: the byte read as two's-complement signed 8-bit. */
  function SignedByte(b: Byte): (v: int)
    ensures -128 <= v < 128
    ensures (v + 256) % 256 == b
    ensures v < 0 <==> b >= 0x80
  {
    if b < 0x80 then b else b - 0x100
  }

  /**
   * `Int16(Int8(bitPattern: b)) << 8` (lines 52-53). The shifted value always fits in 16
   * bits, so the shift is a multiplication by 256: the low byte is zero, the sample lies
   * in [-32768, 32512], and it is negative exactly when the byte's top bit is set.
   */
  function Int8ToInt16Sample(b: Byte): (s: Int16)
    ensures s == SignedByte(b) * 256
    ensures s % 256 == 0 && -32768 <= s <= 32512
    ensures s < 0 <==> b >= 0x80
  {
    SignedByte(b) * 256
  }

  /** The sample gives its byte back: the high byte of its bit pattern. */
  lemma Int8ToInt16Inverse(b: Byte)
    ensures (Int8ToInt16Sample(b) + 0x10000) % 0x10000 / 256 == b
  {
  }

  /** Two bytes copied into one 16-bit sample, low byte first (the platform's little-endian order). */
  function LittleEndianSample(low: Byte, high: Byte): (s: Int16)
    ensures (s + 0x10000) % 0x10000 == low + 256 * high
  {
    var u := low + 256 * high;
    if u < 0x8000 then u else u - 0x10000
  }

  /** The noise gate of line 70 on one sample. */
  function Gated(x: real, threshold: real): real {
    if Abs(x) > threshold then x else 0.0
  }

  function Abs(x: real): real {
    if x < 0.0 then -x else x
  }

  /** The gate keeps loud samples, silences quiet ones, and gating twice changes nothing more. */
  lemma GateProperties(x: real, threshold: real)
    requires threshold >= 0.0
    ensures Gated(x, threshold) == x || Gated(x, threshold) == 0.0
    ensures Abs(Gated(x, threshold)) <= Abs(x)
    ensures Gated(Gated(x, threshold), threshold) == Gated(x, threshold)
  {
  }

  /** The compressor of lines 83-88 on one sample, for the linear threshold of line 79. */
  function Compressed(x: real, linearThreshold: real, ratio: real): real
    requires ratio != 0.0
  {
    var magnitude := Abs(x);
    if magnitude > linearThreshold then
      var compressedMagnitude := linearThreshold + (magnitude - linearThreshold) / ratio;
      if x > 0.0 then compressedMagnitude else -compressedMagnitude
    else x
  }

  /**
   * With a ratio of at least 1 the compressor keeps each sample's sign, never raises its
   * magnitude, and leaves a sample above the threshold above it.
   */
  lemma CompressionProperties(x: real, linearThreshold: real, ratio: real)
    requires ratio >= 1.0 && linearThreshold >= 0.0
    ensures var y := Compressed(x, linearThreshold, ratio);
      && Abs(y) <= Abs(x)
      && (x > 0.0 <==> y > 0.0) && (x < 0.0 <==> y < 0.0)
      && (Abs(x) > linearThreshold ==> Abs(x) >= Abs(y) >= linearThreshold)
  {
    if Abs(x) > linearThreshold {
      DivideByAtLeastOne(Abs(x) - linearThreshold, ratio);
    }
  }

  lemma DivideByAtLeastOne(over: real, ratio: real)
    requires over >= 0.0 && ratio >= 1.0
    ensures 0.0 <= over / ratio <= over
  {
    var q := over / ratio;
    assert q * ratio == over;
    assert q >= 0.0;
    assert q * ratio - q == q * (ratio - 1.0);
    assert q * (ratio - 1.0) >= 0.0;
  }

  /** The parts of a `CMSampleBuffer` this model keeps. */
  datatype SampleBuffer = SampleBuffer(sampleCount: nat, timescale: int, presentationTime: int)

  /** Results of the three CoreMedia calls of `convertToCMSampleBuffer`. */
  datatype CoreMediaStatus = CoreMediaStatus(formatCreated: bool, bufferCreated: bool, dataAttached: bool)

  class PcmBuffer {
    const sampleRate: int
    const frameCapacity: nat
    var frameLength: nat
    /** `int16ChannelData` of a `.pcmFormatInt16` buffer, one channel. */
    const int16ChannelData: Option<array<Int16>>
    /** `floatChannelData` of a `.pcmFormatFloat32` buffer, one channel. */
    const floatChannelData: Option<array<real>>

    ghost predicate Valid()
      reads this
    {
      && frameLength <= frameCapacity
      && (int16ChannelData.Some? ==> int16ChannelData.value.Length == frameCapacity)
      && (floatChannelData.Some? ==> floatChannelData.value.Length == frameCapacity)
    }

    /** `AVAudioPCMBuffer(pcmFormat:frameCapacity:)` for mono 16-bit samples: no valid frames yet. */
    constructor Int16Buffer(sampleRate: int, frameCapacity: nat)
      ensures Valid()
      ensures this.sampleRate == sampleRate && this.frameCapacity == frameCapacity && frameLength == 0
      ensures int16ChannelData.Some? && fresh(int16ChannelData.value) && floatChannelData.None?
    {
      this.sampleRate := sampleRate;
      this.frameCapacity := frameCapacity;
      frameLength := 0;
      var samples := new Int16[frameCapacity];
      int16ChannelData := Some(samples);
      floatChannelData := None;
    }

    /** `AVAudioPCMBuffer(pcmFormat:frameCapacity:)` for mono Float samples, with their initial values. */
    constructor FloatBuffer(sampleRate: int, samples: seq<real>)
      ensures Valid()
      ensures this.sampleRate == sampleRate && frameCapacity == |samples| && frameLength == |samples|
      ensures int16ChannelData.None? && floatChannelData.Some?
      ensures fresh(floatChannelData.value) && floatChannelData.value[..] == samples
    {
      this.sampleRate := sampleRate;
      frameCapacity := |samples|;
      frameLength := |samples|;
      int16ChannelData := None;
      var signal := new real[|samples|](i requires 0 <= i < |samples| => samples[i]);
      floatChannelData := Some(signal);
    }

    /**
     * `applyRefinedNoiseGate` (lines 64-73): without Float channel data nothing changes;
     * otherwise every valid sample not louder than `threshold` becomes 0.
     */
    method ApplyRefinedNoiseGate(threshold: real)
      requires Valid()
      modifies if floatChannelData.Some? then {floatChannelData.value} else {}
      ensures floatChannelData.Some? ==>
        && (forall i | 0 <= i < frameLength ::
              floatChannelData.value[i] == Gated(old(floatChannelData.value[i]), threshold))
        && (forall i | frameLength <= i < frameCapacity :: floatChannelData.value[i] == old(floatChannelData.value[i]))
    {
      if floatChannelData.None? {
        return;
      }
      var signal := floatChannelData.value;
      for index := 0 to frameLength
        invariant forall i | 0 <= i < index :: signal[i] == Gated(old(signal[i]), threshold)
        invariant forall i | index <= i < signal.Length :: signal[i] == old(signal[i])
      {
        signal[index] := if Abs(signal[index]) > threshold then signal[index] else 0.0;
      }
    }

    /**
     * `applyRefinedDynamicRangeCompression` (lines 76-91) for the linear threshold of
     * line 79: without Float channel data nothing changes; otherwise every valid sample
     * louder than the threshold is compressed by `ratio`.
     */
    method ApplyRefinedDynamicRangeCompression(linearThreshold: real, ratio: real)
      requires Valid() && ratio != 0.0
      modifies if floatChannelData.Some? then {floatChannelData.value} else {}
      ensures floatChannelData.Some? ==>
        && (forall i | 0 <= i < frameLength ::
              floatChannelData.value[i] == Compressed(old(floatChannelData.value[i]), linearThreshold, ratio))
        && (forall i | frameLength <= i < frameCapacity :: floatChannelData.value[i] == old(floatChannelData.value[i]))
    {
      if floatChannelData.None? {
        return;
      }
      var signal := floatChannelData.value;
      for index := 0 to frameLength
        invariant forall i | 0 <= i < index :: signal[i] == Compressed(old(signal[i]), linearThreshold, ratio)
        invariant forall i | index <= i < signal.Length :: signal[i] == old(signal[i])
      {
        var magnitude := Abs(signal[index]);
        if magnitude > linearThreshold {
          var overThreshold := magnitude - linearThreshold;
          var compressedMagnitude := linearThreshold + overThreshold / ratio;
          signal[index] := if signal[index] > 0.0 then compressedMagnitude else -compressedMagnitude;
        }
      }
    }

    /**
     * `convertToCMSampleBuffer` (lines 93-162): nil for a buffer without valid frames or
     * when a CoreMedia call fails; otherwise one sample per valid frame, timed at
     * `presentationTimeStamp` or, when none is given, at the host clock's `hostTime`.
     */
    function ConvertToCMSampleBuffer(presentationTimeStamp: Option<int>, hostTime: int, status: CoreMediaStatus): (r: Option<SampleBuffer>)
      reads this
      ensures frameLength == 0 ==> r.None?
      ensures r.Some? <==> frameLength > 0 && status.formatCreated && status.bufferCreated && status.dataAttached
      ensures r.Some? ==> r.value.sampleCount == frameLength && r.value.timescale == sampleRate
      ensures r.Some? ==> r.value.presentationTime == presentationTimeStamp.GetOr(hostTime)
    {
      if frameLength == 0 then None
      else if !status.formatCreated || !status.bufferCreated || !status.dataAttached then None
      else Some(SampleBuffer(frameLength, sampleRate, presentationTimeStamp.GetOr(hostTime)))
    }
  }

  /**
   * `fromMonoInt8Data` (lines 36-60): one frame per byte, every frame valid, and frame i
   * holds byte i read as signed 8-bit and shifted into the high byte. A failed
   * allocation (`allocationFails`) yields nil.
   */
  method FromMonoInt8Data(data: seq<Byte>, sampleRate: int, allocationFails: bool) returns (r: Option<PcmBuffer>)
    ensures allocationFails ==> r.None?
    ensures !allocationFails ==> r.Some? && fresh(r.value) && r.value.Valid()
    ensures r.Some? ==>
      && r.value.frameCapacity == |data| && r.value.frameLength == r.value.frameCapacity
      && r.value.sampleRate == sampleRate
      && r.value.int16ChannelData.Some? && fresh(r.value.int16ChannelData.value)
      && r.value.int16ChannelData.value[..] == Int8Samples(data)
  {
    if allocationFails {
      return None;
    }
    var buffer := new PcmBuffer.Int16Buffer(sampleRate, |data|);
    var destWords := buffer.int16ChannelData.value;
    for i := 0 to |data|
      invariant forall j | 0 <= j < i :: destWords[j] == Int8ToInt16Sample(data[j])
    {
      var sample16 := Int8ToInt16Sample(data[i]);
      destWords[i] := sample16;
    }
    buffer.frameLength := buffer.frameCapacity;
    return Some(buffer);
  }

  /** The samples of an 8-bit recording, widened to 16 bits one by one. */
  function Int8Samples(data: seq<Byte>): (samples: seq<Int16>)
    ensures |samples| == |data|
    ensures forall i | 0 <= i < |data| :: samples[i] == SignedByte(data[i]) * 256
  {
    seq(|data|, i requires 0 <= i < |data| => Int8ToInt16Sample(data[i]))
  }

  /** The widening keeps every byte: two recordings with the same samples are the same. */
  lemma Int8SamplesInjective(a: seq<Byte>, b: seq<Byte>)
    requires Int8Samples(a) == Int8Samples(b)
    ensures a == b
  {
    assert |a| == |b|;
    forall i | 0 <= i < |a|
      ensures a[i] == b[i]
    {
      assert Int8Samples(a)[i] == Int8Samples(b)[i];
      Int8ToInt16Inverse(a[i]);
      Int8ToInt16Inverse(b[i]);
    }
  }

  /** The samples of a 16-bit recording: byte pairs, low byte first; a trailing odd byte is dropped. */
  function Int16Samples(data: seq<Byte>): (samples: seq<Int16>)
    ensures |samples| == |data| / 2
    ensures forall i | 0 <= i < |samples| :: 2 * i + 1 < |data| && samples[i] == LittleEndianSample(data[2 * i], data[2 * i + 1])
  {
    seq(|data| / 2, i requires 0 <= i < |data| / 2 => LittleEndianSample(data[2 * i], data[2 * i + 1]))
  }

  /**
   * `fromMonoInt16Data` (lines 13-34): `data.count / 2` frames (two bytes per frame),
   * all valid, holding the data's byte pairs. The noise gate and the compressor that
   * follow find no Float channel data in a 16-bit buffer and change nothing.
   */
  method FromMonoInt16Data(data: seq<Byte>, sampleRate: int, allocationFails: bool) returns (r: Option<PcmBuffer>)
    ensures allocationFails ==> r.None?
    ensures !allocationFails ==> r.Some? && fresh(r.value) && r.value.Valid()
    ensures r.Some? ==>
      && r.value.frameCapacity == |data| / 2 && r.value.frameLength == r.value.frameCapacity
      && r.value.sampleRate == sampleRate
      && r.value.int16ChannelData.Some? && fresh(r.value.int16ChannelData.value)
      && r.value.int16ChannelData.value[..] == Int16Samples(data)
  {
    if allocationFails {
      return None;
    }
    var bytesPerFrame := 2;
    var buffer := new PcmBuffer.Int16Buffer(sampleRate, |data| / bytesPerFrame);
    var destSamples := buffer.int16ChannelData.value;
    CopyBytes(destSamples, data);
    buffer.frameLength := buffer.frameCapacity;
    buffer.ApplyRefinedNoiseGate(0.01);
    buffer.ApplyRefinedDynamicRangeCompression(LinearThreshold15, 4.0);
    return Some(buffer);
  }

  /**
   * `pow(10.0, 0.15 / 20.0)` (line 79 for the threshold of line 32), rounded to a
   * decimal; the exact Float value does not matter to a 16-bit buffer.
   */
  const LinearThreshold15: real := 1.0174

  /** `data.copyBytes(to:)` into the samples viewed as bytes (lines 24-28): as many whole samples as fit. */
  method CopyBytes(dest: array<Int16>, data: seq<Byte>)
    requires dest.Length == |data| / 2
    modifies dest
    ensures dest[..] == Int16Samples(data)
  {
    for i := 0 to dest.Length
      invariant forall j | 0 <= j < i :: dest[j] == LittleEndianSample(data[2 * j], data[2 * j + 1])
    {
      dest[i] := LittleEndianSample(data[2 * i], data[2 * i + 1]);
    }
  }
}
