/** The browser side of the interview call: the WAV fallback recorder's byte
    layout (`writeString`, `writeWavHeader`, `floatTo16BitPCM`, the buffer
    concatenation and packing in `finalizeAndSendWav`) and the OGG size filter
    of the MediaRecorder path. Browser objects (AudioContext, FileReader,
    WebSocket) are reduced to the values the logic reads from them: the
    context's sample rate and whether the socket is open. */
module InterviewCall {
  import opened Wrappers
  import opened Bytes
  import PyStr
  import Consumer

  /** One UTF-16 code unit, what `charCodeAt` returns. */
  type CodeUnit = u: int | 0 <= u < 0x1_0000

  /** `setUint8` keeps the low eight bits of the value it is given. */
  function LowByte(u: CodeUnit): Byte {
    u % 0x100
  }

  /** The bytes `writeString` produces for a string of code units. */
  function CodeBytes(str: seq<CodeUnit>): (b: seq<Byte>)
    ensures |b| == |str|
    ensures forall i :: 0 <= i < |str| ==> b[i] == LowByte(str[i])
  {
    seq(|str|, i requires 0 <= i < |str| => LowByte(str[i]))
  }

  predicate IsAscii(s: string) {
    forall i :: 0 <= i < |s| ==> s[i] as int < 0x80
  }

  /** An ASCII JavaScript string literal as UTF-16 code units. */
  function Units(s: string): (u: seq<CodeUnit>)
    requires IsAscii(s)
    ensures |u| == |s|
    ensures forall i :: 0 <= i < |s| ==> u[i] == s[i] as int
  {
    seq(|s|, i requires 0 <= i < |s| => s[i] as int)
  }

  /** The bytes of an ASCII tag such as "RIFF": each byte is the character code. */
  function Tag(s: string): (b: seq<Byte>)
    requires IsAscii(s)
    ensures |b| == |s|
    ensures forall i :: 0 <= i < |s| ==> b[i] == s[i] as int
  {
    CodeBytes(Units(s))
  }

  /** `writeString(view, offset, string)`: one `setUint8` per code unit.
      `DataView` throws a RangeError past the end, so the caller keeps the
      write inside the view. */
  method WriteString(view: seq<Byte>, offset: nat, str: seq<CodeUnit>) returns (out: seq<Byte>)
    requires offset + |str| <= |view|
    ensures |out| == |view|
    ensures forall i :: 0 <= i < |str| ==> out[offset + i] == LowByte(str[i])
    ensures forall k :: 0 <= k < |view| && !(offset <= k < offset + |str|) ==> out[k] == view[k]
    ensures out == Overwrite(view, offset, CodeBytes(str))
  {
    out := view;
    var i := 0;
    while i < |str|
      invariant 0 <= i <= |str|
      invariant |out| == |view|
      invariant forall j :: 0 <= j < i ==> out[offset + j] == LowByte(str[j])
      invariant forall k :: 0 <= k < |view| && !(offset <= k < offset + i) ==> out[k] == view[k]
    {
      out := out[offset + i := LowByte(str[i])];
      i := i + 1;
    }
    var expected := Overwrite(view, offset, CodeBytes(str));
    forall k | 0 <= k < |view|
      ensures out[k] == expected[k]
    {
      if offset <= k < offset + |str| {
        assert out[offset + (k - offset)] == LowByte(str[k - offset]);
        assert expected[offset..offset + |str|][k - offset] == expected[k];
      }
    }
  }

  /** Size of the `fmt ` chunk body for PCM. */
  const FmtChunkSize := 16
  /** Format tag 1: uncompressed PCM. */
  const PcmFormat := 1
  const BitsPerSample := 16
  /** Bytes before the sample data in the canonical header. */
  const HeaderSize := 44

  /** The 44 header bytes `writeWavHeader` lays down, field by field in file
      order: the RIFF chunk header, the `fmt ` chunk and the `data` chunk
      header of the RIFF WAVE form (Multimedia Programming Interface and Data
      Specifications 1.0, chapter 3). `setUint16`/`setUint32` store their
      argument modulo 2^16/2^32, little-endian. */
  function HeaderLayout(sampleRate: int, numChannels: int, dataLength: int): (h: seq<Byte>)
    ensures |h| == HeaderSize
  {
    var blockAlign := numChannels * 2;
    var byteRate := sampleRate * blockAlign;
    Tag("RIFF") + LE32(36 + dataLength) + Tag("WAVE") + Tag("fmt ") + LE32(FmtChunkSize)
      + LE16(PcmFormat) + LE16(numChannels) + LE32(sampleRate) + LE32(byteRate)
      + LE16(blockAlign) + LE16(BitsPerSample) + Tag("data") + LE32(dataLength)
  }

  /** One `setUint16`/`setUint32` of the header, written right after the
      bytes already laid down (`written`, counted from offset 0). */
  method PutField(ghost view: seq<Byte>, out: seq<Byte>, ghost written: seq<Byte>, offset: nat, field: seq<Byte>)
    returns (next: seq<Byte>)
    requires offset == |written| && offset + |field| <= |view|
    requires out == Overwrite(view, 0, written)
    ensures next == Overwrite(view, 0, written + field)
  {
    next := Overwrite(out, offset, field);
    OverwriteAdjacent(view, written, field);
  }

  /** One `writeString` of the header, right after the bytes already laid down. */
  method PutTag(ghost view: seq<Byte>, out: seq<Byte>, ghost written: seq<Byte>, offset: nat, tag: string)
    returns (next: seq<Byte>)
    requires IsAscii(tag)
    requires offset == |written| && offset + |tag| <= |view|
    requires out == Overwrite(view, 0, written)
    ensures next == Overwrite(view, 0, written + Tag(tag))
  {
    next := WriteString(out, offset, Units(tag));
    OverwriteAdjacent(view, written, Tag(tag));
  }

  /** `writeWavHeader(view, sampleRate, numChannels, dataLength)`: the thirteen
      writes at offsets 0, 4, 8, ..., 40, in the order `writeWavHeader` writes
      them. */
  method WriteWavHeader(view: seq<Byte>, sampleRate: int, numChannels: int, dataLength: int)
    returns (out: seq<Byte>)
    requires |view| >= HeaderSize
    ensures |out| == |view|
    ensures out[..HeaderSize] == HeaderLayout(sampleRate, numChannels, dataLength)
    ensures out[HeaderSize..] == view[HeaderSize..]
  {
    var blockAlign := numChannels * 2;
    var byteRate := sampleRate * blockAlign;
    ghost var written: seq<Byte> := [];
    out := view;
    assert out == Overwrite(view, 0, written);
    out := PutTag(view, out, written, 0, "RIFF");
    written := written + Tag("RIFF");
    out := PutField(view, out, written, 4, LE32(36 + dataLength));
    written := written + LE32(36 + dataLength);
    out := PutTag(view, out, written, 8, "WAVE");
    written := written + Tag("WAVE");
    out := PutTag(view, out, written, 12, "fmt ");
    written := written + Tag("fmt ");
    out := PutField(view, out, written, 16, LE32(FmtChunkSize));
    written := written + LE32(FmtChunkSize);
    out := PutField(view, out, written, 20, LE16(PcmFormat));
    written := written + LE16(PcmFormat);
    out := PutField(view, out, written, 22, LE16(numChannels));
    written := written + LE16(numChannels);
    out := PutField(view, out, written, 24, LE32(sampleRate));
    written := written + LE32(sampleRate);
    out := PutField(view, out, written, 28, LE32(byteRate));
    written := written + LE32(byteRate);
    out := PutField(view, out, written, 32, LE16(blockAlign));
    written := written + LE16(blockAlign);
    out := PutField(view, out, written, 34, LE16(BitsPerSample));
    written := written + LE16(BitsPerSample);
    out := PutTag(view, out, written, 36, "data");
    written := written + Tag("data");
    out := PutField(view, out, written, 40, LE32(dataLength));
    written := written + LE32(dataLength);
    assert written == HeaderLayout(sampleRate, numChannels, dataLength);
  }

  /** The header fields as a reader of the RIFF WAVE form sees them. */
  datatype WavFormat = WavFormat(
    riffSize: nat, formatTag: nat, channels: nat, sampleRate: nat,
    byteRate: nat, blockAlign: nat, bitsPerSample: nat, dataLength: nat)

  /** A reader for the canonical 44-byte header: checks the four tags and the
      16-byte `fmt ` chunk, then decodes every little-endian field. Bytes after
      the header (the samples) are not looked at. */
  function ParseHeader(b: seq<Byte>): (r: Option<WavFormat>)
    ensures r.Some? ==>
      && |b| >= HeaderSize && b[0..4] == Tag("RIFF") && b[8..12] == Tag("WAVE")
      && b[12..16] == Tag("fmt ") && b[36..40] == Tag("data")
  {
    if |b| < HeaderSize || b[0..4] != Tag("RIFF") || b[8..12] != Tag("WAVE")
      || b[12..16] != Tag("fmt ") || DecodeLE32(b[16..20]) != FmtChunkSize || b[36..40] != Tag("data")
    then None
    else Some(WavFormat(
      DecodeLE32(b[4..8]), DecodeLE16(b[20..22]), DecodeLE16(b[22..24]), DecodeLE32(b[24..28]),
      DecodeLE32(b[28..32]), DecodeLE16(b[32..34]), DecodeLE16(b[34..36]), DecodeLE32(b[40..44])))
  }

  /** Reading back the header gives every written field, reduced to the width
      of its slot. */
  lemma HeaderRoundTrip(sampleRate: int, numChannels: int, dataLength: int, rest: seq<Byte>)
    ensures ParseHeader(HeaderLayout(sampleRate, numChannels, dataLength) + rest) == Some(WavFormat(
      (36 + dataLength) % 0x1_0000_0000, PcmFormat, numChannels % 0x1_0000,
      sampleRate % 0x1_0000_0000, (sampleRate * (numChannels * 2)) % 0x1_0000_0000,
      (numChannels * 2) % 0x1_0000, BitsPerSample, dataLength % 0x1_0000_0000))
  {
    HeaderSlicesRiff(sampleRate, numChannels, dataLength, rest);
    HeaderSlicesFmt(sampleRate, numChannels, dataLength, rest);
    HeaderSlicesData(sampleRate, numChannels, dataLength, rest);
  }

  /** The RIFF chunk descriptor and the `fmt ` chunk id read back. */
  lemma HeaderSlicesRiff(sampleRate: int, numChannels: int, dataLength: int, rest: seq<Byte>)
    ensures var b := HeaderLayout(sampleRate, numChannels, dataLength) + rest;
      && |b| >= HeaderSize
      && b[0..4] == Tag("RIFF") && b[4..8] == LE32(36 + dataLength)
      && b[8..12] == Tag("WAVE") && b[12..16] == Tag("fmt ") && b[16..20] == LE32(FmtChunkSize)
  {
    var h := HeaderLayout(sampleRate, numChannels, dataLength);
    var b := h + rest;
    assert b[..HeaderSize] == h;
    assert b[0..4] == h[0..4];
    assert b[4..8] == h[4..8];
    assert b[8..12] == h[8..12];
    assert b[12..16] == h[12..16];
    assert b[16..20] == h[16..20];
  }

  /** The `fmt ` chunk's fields read back. */
  lemma HeaderSlicesFmt(sampleRate: int, numChannels: int, dataLength: int, rest: seq<Byte>)
    ensures var b := HeaderLayout(sampleRate, numChannels, dataLength) + rest;
      && |b| >= HeaderSize
      && b[20..22] == LE16(PcmFormat) && b[22..24] == LE16(numChannels)
      && b[24..28] == LE32(sampleRate) && b[28..32] == LE32(sampleRate * (numChannels * 2))
      && b[32..34] == LE16(numChannels * 2) && b[34..36] == LE16(BitsPerSample)
  {
    var h := HeaderLayout(sampleRate, numChannels, dataLength);
    var b := h + rest;
    assert b[..HeaderSize] == h;
    assert b[20..22] == h[20..22];
    assert b[22..24] == h[22..24];
    assert b[24..28] == h[24..28];
    assert b[28..32] == h[28..32];
    assert b[32..34] == h[32..34];
    assert b[34..36] == h[34..36];
  }

  /** The `data` chunk header reads back. */
  lemma HeaderSlicesData(sampleRate: int, numChannels: int, dataLength: int, rest: seq<Byte>)
    ensures var b := HeaderLayout(sampleRate, numChannels, dataLength) + rest;
      && |b| >= HeaderSize
      && b[36..40] == Tag("data") && b[40..44] == LE32(dataLength)
  {
    var h := HeaderLayout(sampleRate, numChannels, dataLength);
    var b := h + rest;
    assert b[..HeaderSize] == h;
    assert b[36..40] == h[36..40];
    assert b[40..44] == h[40..44];
  }

  lemma SmallMod(x: int, m: int)
    requires 0 <= x < m
    ensures x % m == x
  {
  }

  /** The RIFF WAVE consistency rules for a PCM file of `fileLength` bytes:
      the RIFF size is the file length minus eight, the data chunk runs to the
      end of the file, a block holds one sample per channel, and the byte rate
      is the sample rate times the block size. */
  predicate PcmConsistent(f: WavFormat, fileLength: nat) {
    && f.formatTag == PcmFormat
    && f.riffSize + 8 == fileLength
    && f.dataLength + HeaderSize == fileLength
    && f.blockAlign == f.channels * (f.bitsPerSample / 8)
    && f.byteRate == f.sampleRate * f.blockAlign
  }

  /** The format a header for these parameters is meant to describe, with
      16-bit samples and `dataLength` bytes of data; it obeys the consistency
      rules for a file of header plus data. */
  function IntendedFormat(sampleRate: nat, numChannels: nat, dataLength: nat): (f: WavFormat)
    ensures PcmConsistent(f, HeaderSize + dataLength)
    ensures f.channels == numChannels && f.sampleRate == sampleRate
    ensures f.bitsPerSample == BitsPerSample && f.dataLength == dataLength
  {
    var blockAlign := numChannels * 2;
    WavFormat(36 + dataLength, PcmFormat, numChannels, sampleRate, sampleRate * blockAlign,
      blockAlign, BitsPerSample, dataLength)
  }

  /** Fields that fit their slots survive the reduction modulo the slot width. */
  lemma FieldsFit(sampleRate: nat, numChannels: nat, dataLength: nat)
    requires numChannels * 2 < 0x1_0000
    requires sampleRate < 0x1_0000_0000 && sampleRate * (numChannels * 2) < 0x1_0000_0000
    requires HeaderSize + dataLength < 0x1_0000_0000
    ensures WavFormat(
      (36 + dataLength) % 0x1_0000_0000, PcmFormat, numChannels % 0x1_0000,
      sampleRate % 0x1_0000_0000, (sampleRate * (numChannels * 2)) % 0x1_0000_0000,
      (numChannels * 2) % 0x1_0000, BitsPerSample, dataLength % 0x1_0000_0000)
      == IntendedFormat(sampleRate, numChannels, dataLength)
  {
    var byteRate := sampleRate * (numChannels * 2);
    assert 0 <= byteRate;
    SmallMod(36 + dataLength, 0x1_0000_0000);
    SmallMod(numChannels, 0x1_0000);
    SmallMod(sampleRate, 0x1_0000_0000);
    SmallMod(byteRate, 0x1_0000_0000);
    SmallMod(numChannels * 2, 0x1_0000);
    SmallMod(dataLength, 0x1_0000_0000);
  }

  /** For values that fit their slots, the written header reads back as the
      intended format, which is consistent with the file. */
  lemma HeaderConsistent(sampleRate: nat, numChannels: nat, pcm: seq<Byte>)
    requires numChannels * 2 < 0x1_0000
    requires sampleRate < 0x1_0000_0000 && sampleRate * (numChannels * 2) < 0x1_0000_0000
    requires HeaderSize + |pcm| < 0x1_0000_0000
    ensures ParseHeader(HeaderLayout(sampleRate, numChannels, |pcm|) + pcm)
      == Some(IntendedFormat(sampleRate, numChannels, |pcm|))
  {
    HeaderRoundTrip(sampleRate, numChannels, |pcm|, pcm);
    FieldsFit(sampleRate, numChannels, |pcm|);
  }

  /** `floatTo16BitPCM`: two little-endian bytes per sample. Clamping and
      scaling of the float are left to `quantize`, which returns the integer
      `setInt16` receives after truncation; `setInt16` stores it modulo 2^16. */
  method FloatTo16BitPCM<S>(samples: seq<S>, quantize: S -> int) returns (pcm: seq<Byte>)
    ensures |pcm| == 2 * |samples|
    ensures forall i :: 0 <= i < |samples| ==> pcm[2 * i..2 * i + 2] == LE16(quantize(samples[i]))
  {
    var l := |samples|;
    pcm := seq(l * 2, _ => 0);
    var offset := 0;
    var i := 0;
    while i < l
      invariant 0 <= i <= l && offset == 2 * i && |pcm| == 2 * l
      invariant forall j :: 0 <= j < i ==> pcm[2 * j..2 * j + 2] == LE16(quantize(samples[j]))
    {
      var before := pcm;
      pcm := Overwrite(pcm, offset, LE16(quantize(samples[i])));
      forall j | 0 <= j < i
        ensures pcm[2 * j..2 * j + 2] == LE16(quantize(samples[j]))
      {
        assert pcm[2 * j..2 * j + 2] == before[2 * j..2 * j + 2];
      }
      i := i + 1;
      offset := offset + 2;
    }
  }

  /** `floats.reduce((acc, a) => acc + a.length, 0)`. */
  function TotalLength<S>(chunks: seq<seq<S>>): nat {
    if |chunks| == 0 then 0 else TotalLength(chunks[..|chunks| - 1]) + |chunks[|chunks| - 1]|
  }

  /** The chunks laid end to end, in order: the reference for concatenation. */
  function Flatten<S>(chunks: seq<seq<S>>): (r: seq<S>)
    ensures |r| == TotalLength(chunks)
  {
    if |chunks| == 0 then [] else Flatten(chunks[..|chunks| - 1]) + chunks[|chunks| - 1]
  }

  /** Flattening a prefix of the chunks gives a prefix of the whole. */
  lemma {:induction false} FlattenPrefix<S>(chunks: seq<seq<S>>, k: nat)
    requires k <= |chunks|
    ensures Flatten(chunks[..k]) <= Flatten(chunks)
  {
    if k < |chunks| {
      var init := chunks[..|chunks| - 1];
      assert chunks[..k] == init[..k];
      FlattenPrefix(init, k);
    } else {
      assert chunks[..k] == chunks;
    }
  }

  /** Chunk `i` occupies the slot starting at the sum of the lengths of the
      chunks before it. */
  lemma FlattenSlot<S>(chunks: seq<seq<S>>, i: nat)
    requires i < |chunks|
    ensures TotalLength(chunks[..i]) + |chunks[i]| <= TotalLength(chunks)
    ensures Flatten(chunks)[TotalLength(chunks[..i])..TotalLength(chunks[..i]) + |chunks[i]|] == chunks[i]
  {
    var upto := chunks[..i + 1];
    assert upto[..i] == chunks[..i];
    FlattenPrefix(chunks, i + 1);
    var o := TotalLength(chunks[..i]);
    var whole := Flatten(chunks);
    assert Flatten(upto) == Flatten(chunks[..i]) + chunks[i];
    assert whole[..o + |chunks[i]|] == Flatten(upto);
    assert whole[o..o + |chunks[i]|] == Flatten(upto)[o..];
  }

  /** The concatenation loop of `finalizeAndSendWav`: a zero-filled array of
      the total length, each chunk `set` at the running offset. */
  method Concatenate<S>(chunks: seq<seq<S>>, zero: S) returns (result: seq<S>)
    ensures |result| == TotalLength(chunks)
    ensures result == Flatten(chunks)
    ensures forall i :: 0 <= i < |chunks| ==>
      TotalLength(chunks[..i]) + |chunks[i]| <= |result|
      && result[TotalLength(chunks[..i])..TotalLength(chunks[..i]) + |chunks[i]|] == chunks[i]
  {
    var total := TotalLength(chunks);
    result := seq(total, _ => zero);
    var offset := 0;
    for i := 0 to |chunks|
      invariant |result| == total
      invariant offset == TotalLength(chunks[..i]) <= total
      invariant result[..offset] == Flatten(chunks[..i])
    {
      ConcatenateStep(chunks, i, result, offset);
      result := Overwrite(result, offset, chunks[i]);
      offset := offset + |chunks[i]|;
    }
    assert chunks[..|chunks|] == chunks;
    assert result[..offset] == result;
    FlattenSlots(chunks);
  }

  /** One round of the concatenation loop: writing chunk `i` at the running
      offset extends the flattened prefix by that chunk. */
  lemma ConcatenateStep<S>(chunks: seq<seq<S>>, i: nat, result: seq<S>, offset: nat)
    requires i < |chunks| && |result| == TotalLength(chunks)
    requires offset == TotalLength(chunks[..i]) <= |result|
    requires result[..offset] == Flatten(chunks[..i])
    ensures offset + |chunks[i]| == TotalLength(chunks[..i + 1]) <= |result|
    ensures Overwrite(result, offset, chunks[i])[..offset + |chunks[i]|] == Flatten(chunks[..i + 1])
  {
    FlattenPrefix(chunks, i + 1);
    FlattenSnoc(chunks, i);
    OverwritePrefix(result, offset, chunks[i]);
  }

  /** One more chunk extends the flattened prefix by that chunk. */
  lemma FlattenSnoc<S>(chunks: seq<seq<S>>, i: nat)
    requires i < |chunks|
    ensures TotalLength(chunks[..i + 1]) == TotalLength(chunks[..i]) + |chunks[i]|
    ensures Flatten(chunks[..i + 1]) == Flatten(chunks[..i]) + chunks[i]
  {
    assert chunks[..i + 1][..i] == chunks[..i];
  }

  /** Every chunk occupies its slot of the flattened sequence. */
  lemma FlattenSlots<S>(chunks: seq<seq<S>>)
    ensures forall i :: 0 <= i < |chunks| ==>
      TotalLength(chunks[..i]) + |chunks[i]| <= |Flatten(chunks)|
      && Flatten(chunks)[TotalLength(chunks[..i])..TotalLength(chunks[..i]) + |chunks[i]|] == chunks[i]
  {
    forall i | 0 <= i < |chunks|
      ensures TotalLength(chunks[..i]) + |chunks[i]| <= |Flatten(chunks)|
      ensures Flatten(chunks)[TotalLength(chunks[..i])..TotalLength(chunks[..i]) + |chunks[i]|] == chunks[i]
    {
      FlattenSlot(chunks, i);
    }
  }

  const DefaultSampleRate := 16000
  const WavMime := "audio/wav"
  const OggMime := "audio/ogg; codecs=opus"
  /** Blobs smaller than this many bytes are dropped by the OGG path. */
  const MinOggBlobSize := 4000

  /** What the client sends: the `audio_chunk` message before the payload is
      base64-encoded into its `data` field. */
  datatype AudioMessage = AudioMessage(payload: seq<Byte>, format: string)

  /** `(audioContext && audioContext.sampleRate) || 16000`: a missing context
      or a zero rate falls back to 16000 Hz. */
  function EffectiveRate(contextRate: Option<nat>): (rate: nat)
    ensures rate != 0
    ensures contextRate.Some? && contextRate.value != 0 ==> rate == contextRate.value
    ensures contextRate.None? || contextRate.value == 0 ==> rate == DefaultSampleRate
  {
    if contextRate.Some? && contextRate.value != 0 then contextRate.value else DefaultSampleRate
  }

  /** `finalizeAndSendWav`: packs the buffered chunks into one mono WAV file
      and sends it when the socket is open, then clears the buffer. */
  method FinalizeAndSendWav<S>(buffered: seq<seq<S>>, zero: S, quantize: S -> int,
                               contextRate: Option<nat>, socketOpen: bool)
    returns (sent: Option<AudioMessage>, remaining: seq<seq<S>>)
    ensures remaining == []
    ensures sent.Some? <==> |buffered| > 0 && socketOpen
    ensures sent.Some? ==>
      var samples := Flatten(buffered);
      var wav := sent.value.payload;
      && sent.value.format == WavMime
      && |wav| == HeaderSize + 2 * |samples|
      && wav[..HeaderSize] == HeaderLayout(EffectiveRate(contextRate), 1, 2 * |samples|)
      && (forall i :: 0 <= i < |samples| ==>
            wav[HeaderSize + 2 * i..HeaderSize + 2 * i + 2] == LE16(quantize(samples[i])))
  {
    if |buffered| == 0 {
      return None, buffered;
    }
    var samples := Concatenate(buffered, zero);
    var wav := AssembleWav(samples, quantize, EffectiveRate(contextRate));
    sent := if socketOpen then Some(AudioMessage(wav, WavMime)) else None;
    remaining := [];
  }

  /** The WAV file of one recording: the 44-byte header for mono 16-bit
      samples at `rate`, then the samples' PCM bytes at offset 44. */
  method AssembleWav<S>(samples: seq<S>, quantize: S -> int, rate: nat) returns (wav: seq<Byte>)
    ensures |wav| == HeaderSize + 2 * |samples|
    ensures wav[..HeaderSize] == HeaderLayout(rate, 1, 2 * |samples|)
    ensures forall i :: 0 <= i < |samples| ==>
      wav[HeaderSize + 2 * i..HeaderSize + 2 * i + 2] == LE16(quantize(samples[i]))
  {
    var pcm := FloatTo16BitPCM(samples, quantize);
    var dataLength := |pcm|;
    wav := seq(HeaderSize + dataLength, _ => 0);
    wav := WriteWavHeader(wav, rate, 1, dataLength);
    var headed := wav;
    wav := Overwrite(wav, HeaderSize, pcm);
    OverwriteKeepsPrefix(headed, HeaderSize, pcm);
    forall i | 0 <= i < |samples|
      ensures wav[HeaderSize + 2 * i..HeaderSize + 2 * i + 2] == LE16(quantize(samples[i]))
    {
      OverwriteSlice(headed, HeaderSize, pcm, 2 * i, 2 * i + 2);
    }
  }

  /** A WAV file as `FinalizeAndSendWav` sends it (header for `sampleCount`
      samples, then the samples' bytes) reads back as mono 16-bit PCM at the
      effective rate, consistent with its own length, as long as the sizes fit
      their slots. */
  lemma SentWavParses(contextRate: Option<nat>, sampleCount: nat, wav: seq<Byte>)
    requires EffectiveRate(contextRate) * 2 < 0x1_0000_0000
    requires |wav| < 0x1_0000_0000
    requires |wav| == HeaderSize + 2 * sampleCount
    requires wav[..HeaderSize] == HeaderLayout(EffectiveRate(contextRate), 1, 2 * sampleCount)
    ensures ParseHeader(wav).Some?
    ensures var f := ParseHeader(wav).value;
      && f.channels == 1 && f.sampleRate == EffectiveRate(contextRate) && f.bitsPerSample == 16
      && f.dataLength == 2 * sampleCount
      && PcmConsistent(f, |wav|)
  {
    var rate := EffectiveRate(contextRate);
    assert wav == HeaderLayout(rate, 1, 2 * sampleCount) + wav[HeaderSize..];
    HeaderConsistent(rate, 1, wav[HeaderSize..]);
    assert |wav[HeaderSize..]| == 2 * sampleCount;
  }

  /** `mr.ondataavailable`: a missing blob or one under 4000 bytes is dropped;
      otherwise it is sent as OGG/Opus when the socket is open. */
  function OnOggData(blob: Option<seq<Byte>>, socketOpen: bool): (sent: Option<AudioMessage>)
    ensures sent.Some? <==> blob.Some? && |blob.value| >= MinOggBlobSize && socketOpen
    ensures sent.Some? ==> sent.value == AudioMessage(blob.value, OggMime)
  {
    if blob.None? || |blob.value| < MinOggBlobSize then None
    else if socketOpen then Some(AudioMessage(blob.value, OggMime))
    else None
  }

  /** Both labels the client sends steer the server to the matching branch:
      WAV input skips conversion, OGG input is saved as `.ogg` and converted. */
  lemma ServerHonoursClientFormats()
    ensures Consumer.ChooseExtension(PyStr.Lower(WavMime)) == ".wav"
    ensures Consumer.ChooseExtension(PyStr.Lower(OggMime)) == ".ogg"
  {
    WavLabelChosen();
    OggLabelChosen();
  }

  lemma WavLabelChosen()
    ensures Consumer.ChooseExtension(PyStr.Lower(WavMime)) == ".wav"
  {
    assert PyStr.Lower(WavMime) == WavMime;
    assert PyStr.OccursAt(WavMime, "wav", 6);
  }

  lemma OggLabelChosen()
    ensures Consumer.ChooseExtension(PyStr.Lower(OggMime)) == ".ogg"
  {
    assert PyStr.Lower(OggMime) == OggMime;
    assert PyStr.OccursAt(OggMime, "ogg", 6);
    OggLabelHasNoWav();
  }

  lemma OggLabelHasNoWav()
    ensures forall k :: !PyStr.OccursAt(OggMime, "wav", k)
  {
    assert forall i :: 0 <= i < |OggMime| ==> OggMime[i] != 'w';
    forall k: nat
      ensures !PyStr.OccursAt(OggMime, "wav", k)
    {
      if k + 3 <= |OggMime| {
        assert OggMime[k..k + 3][0] == OggMime[k];
      }
    }
  }
}
