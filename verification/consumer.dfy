/** The live-interview WebSocket consumer: one connection's session, advanced
    one inbound text frame at a time. The JSON parser, the base64 decoder,
    the ffmpeg transcoder, the Whisper transcriber and the success of each
    `os.remove` are injected through `Engines`; the filesystem is a map from
    paths to contents. */
module Consumer {
  import opened Wrappers
  import opened PyStr
  import opened JsonValue
  import opened Bytes

  type Path = string
  type Audio = seq<Byte>
  type Files = map<Path, Audio>

  /** ffmpeg is asked for mono output (`ac=1`) at 16 kHz (`ar=16000`). */
  const ConvertChannels: nat := 1
  const ConvertRate: nat := 16000
  /** Whisper's beam width (`beam_size=5`). */
  const BeamSize: nat := 5

  /** What ffmpeg did: the converted waveform, or a failure that may have left
      a partial output file behind. */
  datatype Conversion =
    | Converted(wav: Audio)
    | ConversionFailed(message: string, partial: Option<Audio>)

  /** The external collaborators of one receive step. */
  datatype Engines = Engines(
    parseJson: string -> Option<Json>,
    decodeBase64: string -> Result<Audio, string>,
    convert: (Audio, nat, nat) -> Conversion,
    transcribe: (Audio, nat) -> Result<seq<string>, string>,
    removable: Path -> bool)

  /** The external calls a step makes, in order. */
  datatype Call =
    | Convert(src: Path, dst: Path, channels: nat, rate: nat)
    | Transcribe(path: Path, beamSize: nat)
    | Remove(path: Path)

  /** The exception behind an error envelope (`str(e)` is its text). */
  datatype Fault =
    | MissingPayload                  // data["data"] raises KeyError
    | PayloadNotText                  // b64decode of a non-string raises TypeError
    | BadBase64(message: string)      // b64decode rejects the string
    | FormatNotText                   // .lower() on a non-string raises AttributeError
    | ConvertError(message: string)   // ffmpeg failed
    | TranscribeError(message: string)

  /** Server-to-client envelopes. */
  datatype Outbound =
    | Connected                       // {"message": "WebSocket connected"}
    | Echo(message: Json)             // {"echo": data}
    | TranscriptUpdate(text: string)  // {"type": "transcript", "text": ...}
    | ErrorReply(fault: Fault)        // {"type": "error", "text": str(e)}

  /** Exceptions raised before the `try`, which escape `receive` itself. */
  datatype Escape = MalformedJson | NotAnObject

  datatype Outcome = Replied(reply: Outbound) | NoReply | Raised(escape: Escape)

  datatype Session = Session(transcript: string)

  /** The result of one `receive`. */
  datatype Step = Step(session: Session, outcome: Outcome, files: Files, calls: seq<Call>)

  /** An inbound text frame and the random stem `tempfile` picks for it. */
  datatype Inbound = Inbound(text: string, tempStem: Path)

  /** The transcript is always kept stripped. */
  predicate Valid(s: Session) {
    Trimmed(s.transcript)
  }

  /** `connect`: the session starts with an empty transcript and the client is
      greeted. */
  function Connect(): (r: (Session, Outbound))
    ensures r.0.transcript == "" && Valid(r.0)
    ensures r.1 == Connected
  {
    (Session(""), Connected)
  }

  predicate IsAudioChunk(data: Json)
    requires data.JObject?
  {
    "type" in data.fields && data.fields["type"] == JString("audio_chunk")
  }

  /** `data.get("format", "").lower()`: `None` when the value is not a string
      and so has no `lower`. */
  function FormatLabel(fields: map<string, Json>): Option<string> {
    if "format" !in fields then Some("")
    else match fields["format"]
      case JString(text) => Some(Lower(text))
      case _ => None
  }

  /** The temporary file's suffix, from the lower-cased format label. */
  function ChooseExtension(fmt: string): (ext: string)
    ensures ext == ".wav" <==> exists k :: OccursAt(fmt, "wav", k)
    ensures ext == ".ogg" <==>
      (forall k :: !OccursAt(fmt, "wav", k)) && exists k :: OccursAt(fmt, "ogg", k)
    ensures ext == ".webm" <==>
      (forall k :: !OccursAt(fmt, "wav", k)) && (forall k :: !OccursAt(fmt, "ogg", k))
  {
    ContainsIff(fmt, "wav");
    ContainsIff(fmt, "ogg");
    if Contains(fmt, "wav") then ".wav"
    else if Contains(fmt, "ogg") then ".ogg"
    else ".webm"
  }

  /** Only WAV input is handed to Whisper as written; anything else is
      converted next to it. */
  function WavPath(src: Path, ext: string): Path {
    if ext == ".wav" then src else src + ".wav"
  }

  /** Every path a step with this stem can create. */
  function TempPaths(stem: Path): set<Path> {
    {stem + ".wav", stem + ".ogg", stem + ".webm", stem + ".ogg.wav", stem + ".webm.wav"}
  }

  datatype Normalized = Normalized(files: Files, calls: seq<Call>, fault: Option<Fault>)

  /** The waveform Whisper is meant to hear for a chunk saved with this
      suffix: the chunk itself for WAV, otherwise ffmpeg's mono 16 kHz
      output. */
  function Waveform(eng: Engines, audio: Audio, ext: string): Conversion {
    if ext == ".wav" then Converted(audio)
    else eng.convert(audio, ConvertChannels, ConvertRate)
  }

  /** The conversion step: nothing for WAV, otherwise one ffmpeg run into
      `src + ".wav"`, overwriting whatever is there. */
  function Normalize(eng: Engines, fs: Files, src: Path, ext: string): (r: Normalized)
    requires src in fs
    ensures r.fault.None? ==> WavPath(src, ext) in r.files
    ensures r.files.Keys <= fs.Keys + {WavPath(src, ext)}
    ensures forall p :: p in fs && p != WavPath(src, ext) ==> p in r.files && r.files[p] == fs[p]
    ensures forall i :: 0 <= i < |r.calls| ==> r.calls[i].Convert?
    // the WAV file holds the waveform exactly when the conversion succeeded
    ensures r.fault.None? <==> Waveform(eng, fs[src], ext).Converted?
    ensures r.fault.None? ==> r.files[WavPath(src, ext)] == Waveform(eng, fs[src], ext).wav
    ensures Waveform(eng, fs[src], ext).ConversionFailed? ==>
      r.fault == Some(ConvertError(Waveform(eng, fs[src], ext).message))
    ensures ext == ".wav" ==> r == Normalized(fs, [], None)
  {
    if ext == ".wav" then Normalized(fs, [], None)
    else
      var wav := src + ".wav";
      var call := Convert(src, wav, ConvertChannels, ConvertRate);
      match eng.convert(fs[src], ConvertChannels, ConvertRate)
      case Converted(out) => Normalized(fs[wav := out], [call], None)
      case ConversionFailed(msg, partial) =>
        var left := if partial.Some? then fs[wav := partial.value] else fs;
        Normalized(left, [call], Some(ConvertError(msg)))
  }

  /** The stripped texts of the segments whose text is non-empty, in order.
      A whitespace-only segment is kept (as ""), since only empty text is
      falsy. */
  function KeptTexts(segments: seq<string>): (kept: seq<string>)
    ensures |kept| <= |segments|
    ensures forall i :: 0 <= i < |kept| ==> Trimmed(kept[i])
  {
    if |segments| == 0 then []
    else (if segments[0] != "" then [Strip(segments[0])] else []) + KeptTexts(segments[1..])
  }

  /** Filtering segments distributes over concatenation: the kept texts of
      earlier segments come first, so segment order is preserved. */
  lemma {:induction false} KeptTextsConcat(a: seq<string>, b: seq<string>)
    ensures KeptTexts(a + b) == KeptTexts(a) + KeptTexts(b)
    decreases |a|
  {
    if |a| == 0 {
      assert a + b == b;
    } else {
      var head := if a[0] != "" then [Strip(a[0])] else [];
      assert (a + b)[0] == a[0];
      DropInFirst(a, b, 1);
      KeptTextsConcat(a[1..], b);
      Regroup(head, KeptTexts(a[1..]), KeptTexts(b));
    }
  }

  /** A single segment contributes its stripped text exactly when its text
      is non-empty. */
  lemma KeptTextsSingle(segment: string)
    ensures KeptTexts([segment]) == if segment != "" then [Strip(segment)] else []
  {
    assert [segment][1..] == [];
  }

  /** `" ".join(seg.text.strip() for seg in segments if seg.text)`. */
  function ChunkText(segments: seq<string>): string {
    Join(KeptTexts(segments), " ")
  }

  /** The transcript after a chunk: unchanged for empty chunk text, otherwise
      `(transcript + " " + chunk).strip()`. Chunk text is not itself
      stripped: a whitespace-only segment joins in as "", so its leading
      space survives behind the separator. */
  function Append(transcript: string, chunk: string): (r: string)
    ensures Trimmed(transcript) ==> Trimmed(r) && transcript <= r
    ensures chunk == "" ==> r == transcript
    ensures transcript == "" ==> r == Strip(chunk)
    ensures Trimmed(transcript) && transcript != "" && !AllSpace(chunk) ==>
      r == transcript + " " + RStrip(chunk)
    ensures Trimmed(transcript) && Trimmed(chunk) && chunk != "" ==>
      r == if transcript == "" then chunk else transcript + " " + chunk
  {
    if chunk == "" then transcript
    else
      StripJoined(transcript, chunk);
      AppendUnstripped(transcript, chunk);
      Strip(transcript + " " + chunk)
  }

  /** The strip of the joined text for chunk text with outer whitespace. */
  lemma AppendUnstripped(transcript: string, chunk: string)
    ensures transcript == "" ==> Strip(transcript + " " + chunk) == Strip(chunk)
    ensures Trimmed(transcript) && transcript != "" && !AllSpace(chunk) ==>
      Strip(transcript + " " + chunk) == transcript + " " + RStrip(chunk)
  {
    var x := transcript + " " + chunk;
    if transcript == "" {
      assert x == " " + chunk;
      StripAfterLeadingSpace(chunk);
    } else if Trimmed(transcript) && !AllSpace(chunk) {
      assert LStrip(x) == x;
      assert x == (transcript + " ") + chunk;
      RStripAfter(transcript + " ", chunk);
    }
  }

  lemma StripJoined(transcript: string, chunk: string)
    ensures Trimmed(transcript) ==> transcript <= Strip(transcript + " " + chunk)
    ensures Trimmed(transcript) && Trimmed(chunk) && chunk != "" ==>
      Strip(transcript + " " + chunk) == if transcript == "" then chunk else transcript + " " + chunk
  {
    var x := transcript + " " + chunk;
    if Trimmed(chunk) && chunk != "" {
      if transcript == "" {
        StripAfterSpace(chunk);
      } else if Trimmed(transcript) {
        StripTrimmed(x);
      }
    }
    if Trimmed(transcript) {
      AppendKeepsPrefix(transcript, chunk);
    }
  }

  lemma AppendKeepsPrefix(transcript: string, chunk: string)
    requires Trimmed(transcript)
    ensures transcript <= Strip(transcript + " " + chunk)
  {
    var x := transcript + " " + chunk;
    if transcript != "" {
      assert LStrip(x) == x;
      assert x[..|transcript|] == transcript;
      RStripKeeps(x, |transcript|);
    }
  }

  lemma StripAfterSpace(chunk: string)
    requires Trimmed(chunk) && chunk != ""
    ensures Strip(" " + chunk) == chunk
  {
    var x := " " + chunk;
    assert x[1..] == chunk;
    assert LStrip(x) == LStrip(chunk) == chunk;
    assert RStrip(chunk) == chunk;
  }

  /** What every step promises about the session: the transcript stays
      stripped and only grows; a transcript event carries the whole
      transcript, not the new chunk; every other outcome leaves the session
      as it was. */
  ghost predicate Advances(s: Session, s': Session, o: Outcome) {
    && (Valid(s) ==> Valid(s') && s.transcript <= s'.transcript)
    && (o.Replied? && o.reply.TranscriptUpdate? ==> o.reply.text == s'.transcript)
    && (!(o.Replied? && o.reply.TranscriptUpdate?) ==> s' == s)
  }

  /** What every step promises about the filesystem: nothing outside its own
      temporary paths changes, and when removals succeed none of the files it
      created remains. */
  ghost predicate Tidy(eng: Engines, stem: Path, fs: Files, fs': Files) {
    && (forall p :: p !in TempPaths(stem) ==> (p in fs' <==> p in fs) && (p in fs ==> fs'[p] == fs[p]))
    && ((forall p :: p in TempPaths(stem) ==> eng.removable(p)) ==> fs'.Keys <= fs.Keys)
  }

  /** No path is removed twice. */
  ghost predicate RemovesOnce(calls: seq<Call>) {
    forall i, j :: 0 <= i < j < |calls| && calls[i].Remove? ==> calls[i] != calls[j]
  }

  /** What Whisper made of a chunk, before any file is involved: the fault
      that stopped it, or the segments it heard. */
  datatype Hearing = NotHeard(fault: Fault) | Heard(segments: seq<string>)

  /** The text a hearing adds to the transcript. */
  function HeardText(h: Hearing): string {
    if h.Heard? then ChunkText(h.segments) else ""
  }

  /** The file-free pipeline for decoded audio: convert unless WAV, then
      transcribe the waveform with beam width 5. */
  function Listen(eng: Engines, audio: Audio, ext: string): Hearing {
    match Waveform(eng, audio, ext)
    case ConversionFailed(msg, _) => NotHeard(ConvertError(msg))
    case Converted(wav) =>
      match eng.transcribe(wav, BeamSize)
      case Failure(msg) => NotHeard(TranscribeError(msg))
      case Success(segments) => Heard(segments)
  }

  /** The file-free pipeline for an `audio_chunk` message's fields: decode,
      read the format label, then listen. */
  function Hear(eng: Engines, fields: map<string, Json>): Hearing {
    if "data" !in fields then NotHeard(MissingPayload)
    else match fields["data"]
      case JString(payload) =>
        (match eng.decodeBase64(payload)
         case Failure(msg) => NotHeard(BadBase64(msg))
         case Success(audio) =>
           match FormatLabel(fields)
           case None => NotHeard(FormatNotText)
           case Some(fmt) => Listen(eng, audio, ChooseExtension(fmt)))
      case _ => NotHeard(PayloadNotText)
  }

  /** The session and outcome a hearing should produce: an error envelope for
      a fault, nothing for empty chunk text, otherwise the appended
      transcript sent whole. The clauses follow the cases; their meaning
      rests on the contracts of `Append`, `ChunkText` and `Advances`. */
  function Respond(s: Session, h: Hearing): (r: (Session, Outcome))
    ensures h.NotHeard? ==> r == (s, Replied(ErrorReply(h.fault)))
    ensures r.0.transcript == Append(s.transcript, HeardText(h))
    ensures r.1 == NoReply <==> h.Heard? && ChunkText(h.segments) == ""
    ensures r.1.Replied? && r.1.reply.TranscriptUpdate? <==> h.Heard? && ChunkText(h.segments) != ""
    ensures Advances(s, r.0, r.1)
  {
    match h
    case NotHeard(fault) => (s, Replied(ErrorReply(fault)))
    case Heard(segments) =>
      var chunk := ChunkText(segments);
      if chunk == "" then (s, NoReply)
      else
        var t := Append(s.transcript, chunk);
        (Session(t), Replied(TranscriptUpdate(t)))
  }

  /** Whisper on the normalised waveform, then the transcript update. The
      outcome clauses follow the cases; `Append` and `Advances` say what
      they mean for the transcript. */
  function TranscribeChunk(eng: Engines, s: Session, fs: Files, wav: Path): (r: (Session, Outcome))
    requires wav in fs
    ensures Advances(s, r.0, r.1)
    ensures r.1.Replied? || r.1.NoReply?
    ensures var heard := eng.transcribe(fs[wav], BeamSize);
      && (heard.Failure? ==> r == (s, Replied(ErrorReply(TranscribeError(heard.error)))))
      && (heard.Success? && ChunkText(heard.value) == "" ==> r == (s, NoReply))
      && (heard.Success? && ChunkText(heard.value) != "" ==>
            r.0.transcript == Append(s.transcript, ChunkText(heard.value))
            && r.1 == Replied(TranscriptUpdate(r.0.transcript)))
  {
    match eng.transcribe(fs[wav], BeamSize)
    case Failure(msg) => (s, Replied(ErrorReply(TranscribeError(msg))))
    case Success(segments) =>
      var chunk := ChunkText(segments);
      if chunk == "" then (s, NoReply)
      else
        var t := Append(s.transcript, chunk);
        (Session(t), Replied(TranscriptUpdate(t)))
  }

  /** The `finally` block: remove `src` if it exists, then a distinct `wav` if
      it exists. A failing removal raises inside the inner `try`, which
      swallows it and skips the rest. */
  function Cleanup(removable: Path -> bool, fs: Files, src: Path, wav: Path): (r: (Files, seq<Call>))
    ensures r.0.Keys <= fs.Keys
    ensures forall p :: p in fs && p != src && p != wav ==> p in r.0 && r.0[p] == fs[p]
    ensures forall p :: p in r.0 ==> r.0[p] == fs[p]
    ensures removable(src) && removable(wav) ==> src !in r.0 && wav !in r.0
    ensures forall i :: 0 <= i < |r.1| ==> r.1[i] == Remove(src) || r.1[i] == Remove(wav)
    ensures RemovesOnce(r.1)
    // both removals share one `try`: a failed chunk removal skips the other
    ensures src in fs && !removable(src) ==> r == (fs, [Remove(src)])
    ensures wav in fs && wav != src && !removable(wav) ==> wav in r.0
    // each removal that runs and succeeds takes its file away
    ensures removable(src) ==> src !in r.0
    ensures (src !in fs || removable(src)) && removable(wav) ==> wav !in r.0
  {
    if src in fs && !removable(src) then (fs, [Remove(src)])
    else
      var fs1 := fs - {src};
      var calls := if src in fs then [Remove(src)] else [];
      if wav in fs1 && wav != src then
        (if removable(wav) then fs1 - {wav} else fs1, calls + [Remove(wav)])
      else (fs1, calls)
  }

  lemma RemovesOnceAfter(a: seq<Call>, b: seq<Call>)
    requires forall i :: 0 <= i < |a| ==> !a[i].Remove?
    requires forall i :: 0 <= i < |b| ==> b[i].Remove?
    requires RemovesOnce(b)
    ensures RemovesOnce(a + b)
  {
    forall i, j | 0 <= i < j < |a + b| && (a + b)[i].Remove?
      ensures (a + b)[i] != (a + b)[j]
    {
      assert i >= |a|;
      assert (a + b)[i] == b[i - |a|] && (a + b)[j] == b[j - |a|];
    }
  }

  /** The body of the outer `try` once the chunk is decoded and its label
      read: save, normalise, transcribe, and always clean up. */
  function HandleAudio(eng: Engines, s: Session, fs: Files, stem: Path, audio: Audio, ext: string): (r: Step)
    requires ext in {".wav", ".ogg", ".webm"}
    ensures Advances(s, r.session, r.outcome)
    ensures r.outcome.Replied? || r.outcome.NoReply?
    ensures Tidy(eng, stem, fs, r.files)
    ensures RemovesOnce(r.calls)
    ensures (r.session, r.outcome) == Respond(s, Listen(eng, audio, ext))
  {
    var src := stem + ext;
    var wav := WavPath(src, ext);
    var tried := Attempt(eng, s, fs[src := audio], src, ext);
    var cleaned := Cleanup(eng.removable, tried.files, src, wav);
    ChunkPathsAreTemp(stem, ext);
    CleanupIsTidy(eng, stem, fs, tried.files, src, wav);
    RemovesOnceAfter(tried.calls, cleaned.1);
    Step(tried.session, tried.outcome, cleaned.0, tried.calls + cleaned.1)
  }

  /** The body of the inner `try` once the chunk is saved as `src`: the
      conversion, then Whisper unless the conversion failed. Only the WAV
      path can appear or change, and nothing is removed yet. */
  function Attempt(eng: Engines, s: Session, fs: Files, src: Path, ext: string): (r: Step)
    requires src in fs
    ensures Advances(s, r.session, r.outcome)
    ensures r.outcome.Replied? || r.outcome.NoReply?
    ensures r.files.Keys <= fs.Keys + {WavPath(src, ext)}
    ensures forall p :: p in fs && p != WavPath(src, ext) ==> p in r.files && r.files[p] == fs[p]
    ensures forall i :: 0 <= i < |r.calls| ==> !r.calls[i].Remove?
    ensures (r.session, r.outcome) == Respond(s, Listen(eng, fs[src], ext))
  {
    var wav := WavPath(src, ext);
    var norm := Normalize(eng, fs, src, ext);
    if norm.fault.Some? then Step(s, Replied(ErrorReply(norm.fault.value)), norm.files, norm.calls)
    else
      var result := TranscribeChunk(eng, s, norm.files, wav);
      Step(result.0, result.1, norm.files, norm.calls + [Transcribe(wav, BeamSize)])
  }

  /** The saved chunk and its WAV file are among the stem's temporary paths. */
  lemma ChunkPathsAreTemp(stem: Path, ext: string)
    requires ext in {".wav", ".ogg", ".webm"}
    ensures stem + ext in TempPaths(stem) && WavPath(stem + ext, ext) in TempPaths(stem)
  {
    assert (stem + ".ogg") + ".wav" == stem + ".ogg.wav";
    assert (stem + ".webm") + ".wav" == stem + ".webm.wav";
  }

  /** A step that only touched `src` and `wav`, both temporary, and then ran
      the cleanup, leaves the filesystem tidy. */
  lemma CleanupIsTidy(eng: Engines, stem: Path, fs: Files, mid: Files, src: Path, wav: Path)
    requires src in TempPaths(stem) && wav in TempPaths(stem)
    requires mid.Keys <= fs.Keys + {src, wav}
    requires forall p :: p in fs && p != src && p != wav ==> p in mid && mid[p] == fs[p]
    ensures Tidy(eng, stem, fs, Cleanup(eng.removable, mid, src, wav).0)
  {
  }

  /** The outer `try` of `receive` for an `audio_chunk` message. */
  function ProcessChunk(eng: Engines, s: Session, fs: Files, stem: Path, fields: map<string, Json>): (r: Step)
    ensures Advances(s, r.session, r.outcome)
    ensures r.outcome.Replied? || r.outcome.NoReply?
    ensures Tidy(eng, stem, fs, r.files)
    ensures RemovesOnce(r.calls)
    ensures (r.session, r.outcome) == Respond(s, Hear(eng, fields))
  {
    if "data" !in fields then Step(s, Replied(ErrorReply(MissingPayload)), fs, [])
    else match fields["data"]
      case JString(payload) =>
        (match eng.decodeBase64(payload)
         case Failure(msg) => Step(s, Replied(ErrorReply(BadBase64(msg))), fs, [])
         case Success(audio) =>
           match FormatLabel(fields)
           case None => Step(s, Replied(ErrorReply(FormatNotText)), fs, [])
           case Some(fmt) => HandleAudio(eng, s, fs, stem, audio, ChooseExtension(fmt)))
      case _ => Step(s, Replied(ErrorReply(PayloadNotText)), fs, [])
  }

  /** `receive`: one inbound text frame. */
  function Receive(eng: Engines, s: Session, fs: Files, msg: Inbound): (r: Step)
    // json.loads and data.get sit outside the try: their exceptions escape
    ensures r.outcome.Raised? <==>
      eng.parseJson(msg.text).None? || !eng.parseJson(msg.text).value.JObject?
    ensures r.outcome.Raised? ==> r.session == s && r.files == fs && r.calls == []
    // anything that is not an audio chunk is echoed back untouched
    ensures var parsed := eng.parseJson(msg.text);
      parsed.Some? && parsed.value.JObject? && !IsAudioChunk(parsed.value) ==>
        r == Step(s, Replied(Echo(parsed.value)), fs, [])
    ensures Advances(s, r.session, r.outcome)
    ensures Tidy(eng, msg.tempStem, fs, r.files)
    ensures RemovesOnce(r.calls)
  {
    match eng.parseJson(msg.text)
    case None => Step(s, Raised(MalformedJson), fs, [])
    case Some(data) =>
      if !data.JObject? then Step(s, Raised(NotAnObject), fs, [])
      else if !IsAudioChunk(data) then Step(s, Replied(Echo(data)), fs, [])
      else ProcessChunk(eng, s, fs, msg.tempStem, data.fields)
  }

  /** Only WAV input goes to Whisper as written; every other container is
      first converted by ffmpeg into `src + ".wav"`, mono at 16 kHz, and that
      file is what Whisper reads, with beam width 5. */
  lemma ConversionPolicy(eng: Engines, s: Session, fs: Files, stem: Path, audio: Audio, ext: string)
    requires ext in {".wav", ".ogg", ".webm"}
    ensures var r := HandleAudio(eng, s, fs, stem, audio, ext);
      var src := stem + ext;
      && (ext == ".wav" ==>
            (forall i :: 0 <= i < |r.calls| ==> !r.calls[i].Convert?)
            && |r.calls| >= 1 && r.calls[0] == Transcribe(src, BeamSize))
      && (ext != ".wav" ==>
            |r.calls| >= 1 && r.calls[0] == Convert(src, src + ".wav", 1, 16000)
            && (eng.convert(audio, 1, 16000).Converted? ==>
                  |r.calls| >= 2 && r.calls[1] == Transcribe(src + ".wav", BeamSize)))
  {
    var src := stem + ext;
    var saved := fs[src := audio];
    var pre := Attempt(eng, s, saved, src, ext).calls;
    HandleAudioCalls(eng, s, fs, stem, audio, ext);
    AttemptCalls(eng, s, saved, src, ext);
    var r := HandleAudio(eng, s, fs, stem, audio, ext);
    if ext == ".wav" {
      forall i | 0 <= i < |r.calls|
        ensures !r.calls[i].Convert?
      {
        if i == 0 {
          assert r.calls[..|pre|][0] == r.calls[0];
        }
      }
    } else {
      assert r.calls[..|pre|][0] == r.calls[0];
      if eng.convert(audio, 1, 16000).Converted? {
        assert r.calls[..|pre|][1] == r.calls[1];
      }
    }
  }

  /** The calls of a chunk: those of the attempt, then only removals. */
  lemma HandleAudioCalls(eng: Engines, s: Session, fs: Files, stem: Path, audio: Audio, ext: string)
    requires ext in {".wav", ".ogg", ".webm"}
    ensures var src := stem + ext;
      var pre := Attempt(eng, s, fs[src := audio], src, ext).calls;
      var r := HandleAudio(eng, s, fs, stem, audio, ext);
      && |pre| <= |r.calls| && r.calls[..|pre|] == pre
      && forall i :: |pre| <= i < |r.calls| ==> r.calls[i].Remove?
  {
  }

  /** WAV input is transcribed as it is; other input is converted first and
      transcribed only when the conversion succeeds. */
  lemma AttemptCalls(eng: Engines, s: Session, fs: Files, src: Path, ext: string)
    requires src in fs
    ensures var calls := Attempt(eng, s, fs, src, ext).calls;
      && (ext == ".wav" ==> calls == [Transcribe(src, BeamSize)])
      && (ext != ".wav" ==>
            && |calls| >= 1 && calls[0] == Convert(src, src + ".wav", ConvertChannels, ConvertRate)
            && (eng.convert(fs[src], ConvertChannels, ConvertRate).Converted? ==>
                  calls == [calls[0], Transcribe(src + ".wav", BeamSize)]))
  {
  }

  /** Decoding, conversion and transcription failures become error envelopes
      and leave the transcript as it was; a failed decode touches no file. */
  lemma FailuresReportErrors(eng: Engines, s: Session, fs: Files, msg: Inbound)
    requires eng.parseJson(msg.text).Some?
    requires eng.parseJson(msg.text).value.JObject?
    requires IsAudioChunk(eng.parseJson(msg.text).value)
    ensures var fields := eng.parseJson(msg.text).value.fields;
      var r := Receive(eng, s, fs, msg);
      && ("data" !in fields ==> r == Step(s, Replied(ErrorReply(MissingPayload)), fs, []))
      && ("data" in fields && fields["data"].JString? && eng.decodeBase64(fields["data"].s).Failure? ==>
            r == Step(s, Replied(ErrorReply(BadBase64(eng.decodeBase64(fields["data"].s).error))), fs, []))
      && (r.outcome.Replied? && r.outcome.reply.ErrorReply? ==> r.session == s)
      && (Hear(eng, fields).NotHeard? ==>
            r.session == s && r.outcome == Replied(ErrorReply(Hear(eng, fields).fault)))
  {
  }

  /** A saved chunk whose conversion fails is answered with that failure's
      text, and one whose waveform Whisper rejects with Whisper's; either way
      the transcript is untouched. */
  lemma AudioFailuresReportErrors(eng: Engines, s: Session, fs: Files, stem: Path, audio: Audio, ext: string)
    requires ext in {".wav", ".ogg", ".webm"}
    ensures var r := HandleAudio(eng, s, fs, stem, audio, ext);
      var made := eng.convert(audio, ConvertChannels, ConvertRate);
      && (ext != ".wav" && made.ConversionFailed? ==>
            r.session == s && r.outcome == Replied(ErrorReply(ConvertError(made.message))))
      && (ext == ".wav" && eng.transcribe(audio, BeamSize).Failure? ==>
            r.session == s
            && r.outcome == Replied(ErrorReply(TranscribeError(eng.transcribe(audio, BeamSize).error))))
      && (ext != ".wav" && made.Converted? && eng.transcribe(made.wav, BeamSize).Failure? ==>
            r.session == s
            && r.outcome == Replied(ErrorReply(TranscribeError(eng.transcribe(made.wav, BeamSize).error))))
  {
  }

  /** For an `audio_chunk` frame, `receive` answers exactly as the file-free
      pipeline says: the fault's error envelope, nothing for empty chunk
      text, or the appended transcript. */
  lemma AudioChunkOutcome(eng: Engines, s: Session, fs: Files, msg: Inbound)
    requires eng.parseJson(msg.text).Some?
    requires eng.parseJson(msg.text).value.JObject?
    requires IsAudioChunk(eng.parseJson(msg.text).value)
    ensures var h := Hear(eng, eng.parseJson(msg.text).value.fields);
      var r := Receive(eng, s, fs, msg);
      && (h.NotHeard? ==> r.session == s && r.outcome == Replied(ErrorReply(h.fault)))
      && (h.Heard? && ChunkText(h.segments) == "" ==> r.session == s && r.outcome == NoReply)
      && (h.Heard? && ChunkText(h.segments) != "" ==>
            r.session.transcript == Append(s.transcript, ChunkText(h.segments))
            && r.outcome == Replied(TranscriptUpdate(r.session.transcript)))
  {
  }

  /** After a chunk whose removals succeed, neither the saved chunk nor a
      distinct converted file remains, whichever way the step ended. */
  lemma CleanupRemovesBoth(eng: Engines, s: Session, fs: Files, stem: Path, audio: Audio, ext: string)
    requires ext in {".wav", ".ogg", ".webm"}
    requires eng.removable(stem + ext) && eng.removable(WavPath(stem + ext, ext))
    ensures var r := HandleAudio(eng, s, fs, stem, audio, ext);
      stem + ext !in r.files && WavPath(stem + ext, ext) !in r.files
  {
  }

  /** `tempfile` hands out a fresh name: when none of the step's paths
      existed and removals succeed, the filesystem ends exactly as it began. */
  lemma FreshStemLeavesNoTrace(eng: Engines, s: Session, fs: Files, msg: Inbound)
    requires forall p :: p in TempPaths(msg.tempStem) ==> p !in fs && eng.removable(p)
    ensures Receive(eng, s, fs, msg).files == fs
  {
    var r := Receive(eng, s, fs, msg);
    assert r.files.Keys == fs.Keys;
  }

  /** `" ".join` gives the empty string only for no parts or one empty part. */
  lemma JoinEmpty(parts: seq<string>, sep: string)
    requires |sep| > 0
    ensures Join(parts, sep) == "" <==> |parts| == 0 || (|parts| == 1 && parts[0] == "")
  {
    if |parts| >= 2 {
      assert |Join(parts, sep)| >= |sep|;
    }
  }

  /** The chunk text is empty exactly when every segment's text is empty, or
      all but one are and that one is whitespace only. Two whitespace-only
      segments give a non-empty chunk text of one space. */
  lemma {:induction false} ChunkTextEmpty(segments: seq<string>)
    ensures ChunkText(segments) == "" <==>
      |KeptTexts(segments)| == 0 || (|KeptTexts(segments)| == 1 && KeptTexts(segments)[0] == "")
  {
    JoinEmpty(KeptTexts(segments), " ");
  }

  /** A silent chunk sends nothing and keeps the transcript. */
  lemma SilenceSendsNothing(eng: Engines, s: Session, fs: Files, wav: Path)
    requires wav in fs
    requires eng.transcribe(fs[wav], BeamSize).Success?
    requires ChunkText(eng.transcribe(fs[wav], BeamSize).value) == ""
    ensures TranscribeChunk(eng, s, fs, wav) == (s, NoReply)
  {
  }

  /** Whitespace-only segments are not filtered out: two of them still make
      the step send a transcript event, carrying the unchanged transcript. */
  lemma WhitespaceSegmentsStillSend(eng: Engines, s: Session, fs: Files, wav: Path)
    requires Valid(s)
    requires wav in fs
    requires eng.transcribe(fs[wav], BeamSize) == Success([" ", "\t"])
    ensures TranscribeChunk(eng, s, fs, wav) == (s, Replied(TranscriptUpdate(s.transcript)))
  {
    assert AllSpace(" ") && AllSpace("\t");
    BlankChunkText(" ", "\t");
    AppendBlank(s.transcript, " ");
  }

  /** Two non-empty whitespace-only segments join to a single space. */
  lemma BlankChunkText(a: string, b: string)
    requires |a| > 0 && AllSpace(a) && |b| > 0 && AllSpace(b)
    ensures ChunkText([a, b]) == " "
  {
    var segments := [a, b];
    var tail := segments[1..];
    StripEmpty(a);
    StripEmpty(b);
    assert tail == [b] && tail[1..] == [];
    assert KeptTexts(tail) == [Strip(b)] + KeptTexts([]) == [""];
    assert KeptTexts(segments) == [Strip(a)] + KeptTexts(tail) == ["", ""];
  }

  /** A whitespace-only segment keeps its place in the chunk text, so its
      separator space reaches the transcript: "prev" and segments " " and
      "Hello" give "prev  Hello". */
  lemma UnstrippedChunkExample()
    ensures Append("prev", ChunkText([" ", "Hello"])) == "prev  Hello"
  {
    BlankSegmentChunk();
    AppendLeadingSpace();
  }

  lemma BlankSegmentChunk()
    ensures ChunkText([" ", "Hello"]) == " Hello"
  {
    var segments := [" ", "Hello"];
    KeptTextsSingle(" ");
    KeptTextsSingle("Hello");
    KeptTextsConcat([" "], ["Hello"]);
    assert segments == [" "] + ["Hello"];
    assert Strip(" ") == "" by { StripEmpty(" "); }
    assert Strip("Hello") == "Hello" by { StripTrimmed("Hello"); }
    assert KeptTexts(segments) == ["", "Hello"];
  }

  lemma AppendLeadingSpace()
    ensures Append("prev", " Hello") == "prev  Hello"
  {
    assert !AllSpace(" Hello") by { assert !IsSpace(" Hello"[1]); }
    assert RStrip(" Hello") == " Hello";
  }

  /** A non-empty whitespace-only chunk text leaves a stripped transcript as
      it is. */
  lemma AppendBlank(transcript: string, chunk: string)
    requires Trimmed(transcript) && |chunk| > 0 && AllSpace(chunk)
    ensures Append(transcript, chunk) == transcript
  {
    var w := " " + chunk;
    assert AllSpace(w) by {
      assert forall i :: 1 <= i < |w| ==> w[i] == chunk[i - 1];
    }
    Regroup(transcript, " ", chunk);
    StripTrailingSpaces(transcript, w);
  }

  /** The transcript after a sequence of chunk texts, folded in arrival order. */
  function AppendAll(transcript: string, chunks: seq<string>): string
    decreases |chunks|
  {
    if |chunks| == 0 then transcript
    else Append(AppendAll(transcript, chunks[..|chunks| - 1]), chunks[|chunks| - 1])
  }

  /** The non-empty chunk texts, in order. */
  function NonEmpty(chunks: seq<string>): seq<string>
    decreases |chunks|
  {
    if |chunks| == 0 then []
    else NonEmpty(chunks[..|chunks| - 1]) + (if chunks[|chunks| - 1] == "" then [] else [chunks[|chunks| - 1]])
  }

  lemma {:induction false} JoinSnoc(parts: seq<string>, last: string, sep: string)
    requires |parts| > 0
    ensures Join(parts + [last], sep) == Join(parts, sep) + sep + last
    decreases |parts|
  {
    if |parts| == 1 {
      assert (parts + [last])[1..] == [last];
    } else {
      assert (parts + [last])[1..] == parts[1..] + [last];
      JoinSnoc(parts[1..], last, sep);
    }
  }

  /** For stripped chunk texts, a connection's transcript is the single-space
      join of the non-empty ones, in arrival order. */
  lemma {:induction false} TranscriptIsJoin(chunks: seq<string>)
    requires forall i :: 0 <= i < |chunks| ==> Trimmed(chunks[i])
    ensures AppendAll("", chunks) == Join(NonEmpty(chunks), " ")
    decreases |chunks|
  {
    if |chunks| > 0 {
      var init := chunks[..|chunks| - 1];
      var last := chunks[|chunks| - 1];
      TranscriptIsJoin(init);
      NonEmptyTrimmed(init);
      var t := Join(NonEmpty(init), " ");
      JoinTrimmed(NonEmpty(init));
      JoinEmpty(NonEmpty(init), " ");
      assert chunks[..|chunks| - 1] == init;
      assert AppendAll("", chunks) == Append(t, last);
      if last == "" {
        assert NonEmpty(chunks) == NonEmpty(init) + [];
        assert NonEmpty(init) + [] == NonEmpty(init);
      } else if |NonEmpty(init)| == 0 {
        assert NonEmpty(chunks) == [] + [last] == [last];
      } else {
        assert NonEmpty(chunks) == NonEmpty(init) + [last];
        assert NonEmpty(init)[0] != "";
        assert t != "";
        JoinSnoc(NonEmpty(init), last, " ");
      }
    }
  }

  lemma {:induction false} NonEmptyTrimmed(chunks: seq<string>)
    requires forall i :: 0 <= i < |chunks| ==> Trimmed(chunks[i])
    ensures forall i :: 0 <= i < |NonEmpty(chunks)| ==> Trimmed(NonEmpty(chunks)[i]) && |NonEmpty(chunks)[i]| > 0
    decreases |chunks|
  {
    if |chunks| > 0 {
      NonEmptyTrimmed(chunks[..|chunks| - 1]);
    }
  }

  /** Joining non-empty stripped texts with single spaces gives a stripped
      text. */
  lemma {:induction false} JoinTrimmed(parts: seq<string>)
    requires forall i :: 0 <= i < |parts| ==> Trimmed(parts[i]) && |parts[i]| > 0
    ensures Trimmed(Join(parts, " "))
    decreases |parts|
  {
    if |parts| >= 2 {
      JoinTrimmed(parts[1..]);
      JoinEmpty(parts[1..], " ");
    }
  }

  /** The worked example: a WAV chunk heard as "hello world" followed by a
      WebM chunk heard as "how are you". */
  lemma HelloWorldExample()
    ensures AppendAll("", ["hello world", "how are you"]) == "hello world how are you"
  {
    var a, b := "hello world", "how are you";
    FirstChunkExample();
    assert [a, b][..1] == [a];
    assert AppendAll("", [a, b]) == Append(a, b);
    assert Trimmed(a) && Trimmed(b);
  }

  lemma FirstChunkExample()
    ensures AppendAll("", ["hello world"]) == "hello world"
  {
    var a := "hello world";
    assert [a][..0] == [];
    assert Trimmed(a);
  }

  /** A connection processing frames strictly in order. A frame whose
      exception escapes `receive` ends the connection, so later frames are
      never processed. */
  function Run(eng: Engines, s: Session, fs: Files, msgs: seq<Inbound>): (r: (Session, Files, seq<Outcome>))
    ensures StopsAtEscape(r.2, |msgs|)
    decreases |msgs|
  {
    if |msgs| == 0 then (s, fs, [])
    else
      var step := Receive(eng, s, fs, msgs[0]);
      if step.outcome.Raised? then (step.session, step.files, [step.outcome])
      else
        var rest := Run(eng, step.session, step.files, msgs[1..]);
        StopsAtEscapeCons(step.outcome, rest.2, |msgs| - 1);
        (rest.0, rest.1, [step.outcome] + rest.2)
  }

  /** The outcomes of a run over `n` frames: at most one per frame, only the
      last may be an exception escaping `receive`, and the run falls short of
      `n` frames only after such an exception. */
  predicate StopsAtEscape(outs: seq<Outcome>, n: nat) {
    && |outs| <= n
    && (forall i :: 0 <= i < |outs| - 1 ==> !outs[i].Raised?)
    && (|outs| < n ==> |outs| > 0 && outs[|outs| - 1].Raised?)
  }

  /** A frame handled without escaping, in front of the rest of a run. */
  lemma StopsAtEscapeCons(o: Outcome, rest: seq<Outcome>, n: nat)
    requires !o.Raised? && StopsAtEscape(rest, n)
    ensures StopsAtEscape([o] + rest, n + 1)
  {
    var outs := [o] + rest;
    assert forall i :: 0 < i < |outs| ==> outs[i] == rest[i - 1];
  }

  /** A frame whose exception escapes `receive`. */
  predicate Escapes(eng: Engines, msg: Inbound) {
    eng.parseJson(msg.text).None? || !eng.parseJson(msg.text).value.JObject?
  }

  /** The text a frame contributes: what Whisper heard for an audio chunk,
      nothing for any other frame or for a chunk that failed. */
  function FrameText(eng: Engines, msg: Inbound): string {
    match eng.parseJson(msg.text)
    case Some(data) =>
      if data.JObject? && IsAudioChunk(data) then HeardText(Hear(eng, data.fields)) else ""
    case None => ""
  }

  /** The texts of a run's frames, in order. */
  function FrameTexts(eng: Engines, msgs: seq<Inbound>): (r: seq<string>)
    ensures |r| == |msgs|
    ensures forall i :: 0 <= i < |msgs| ==> r[i] == FrameText(eng, msgs[i])
  {
    seq(|msgs|, i requires 0 <= i < |msgs| => FrameText(eng, msgs[i]))
  }

  /** One frame that does not escape appends its text to the transcript. */
  lemma ReceiveAppends(eng: Engines, s: Session, fs: Files, msg: Inbound)
    requires !Escapes(eng, msg)
    ensures Receive(eng, s, fs, msg).session.transcript == Append(s.transcript, FrameText(eng, msg))
  {
    var data := eng.parseJson(msg.text).value;
    if IsAudioChunk(data) {
      AudioChunkOutcome(eng, s, fs, msg);
    }
  }

  /** Folding a first chunk in and then the rest is folding them all. */
  lemma {:induction false} AppendAllCons(transcript: string, chunk: string, rest: seq<string>)
    ensures AppendAll(transcript, [chunk] + rest) == AppendAll(Append(transcript, chunk), rest)
    decreases |rest|
  {
    var all := [chunk] + rest;
    if |rest| == 0 {
      assert all[..0] == [] && all == [chunk];
    } else {
      var init := rest[..|rest| - 1];
      assert all[..|all| - 1] == [chunk] + init;
      assert all[|all| - 1] == rest[|rest| - 1];
      AppendAllCons(transcript, chunk, init);
    }
  }

  /** Over frames none of which escapes, the final transcript is the fold of
      the frames' heard texts, in arrival order; with stripped texts that is
      `TranscriptIsJoin`'s single-space join. */
  lemma {:induction false} RunTranscript(eng: Engines, s: Session, fs: Files, msgs: seq<Inbound>)
    requires forall i :: 0 <= i < |msgs| ==> !Escapes(eng, msgs[i])
    ensures Run(eng, s, fs, msgs).0.transcript == AppendAll(s.transcript, FrameTexts(eng, msgs))
    decreases |msgs|
  {
    if |msgs| == 0 {
      assert FrameTexts(eng, msgs) == [];
    } else {
      var step := Receive(eng, s, fs, msgs[0]);
      var tail := msgs[1..];
      assert !Escapes(eng, msgs[0]);
      ReceiveAppends(eng, s, fs, msgs[0]);
      RunFirst(eng, s, fs, msgs);
      assert forall i :: 0 <= i < |tail| ==> !Escapes(eng, tail[i]) by {
        assert forall i :: 0 <= i < |tail| ==> tail[i] == msgs[i + 1];
      }
      RunTranscript(eng, step.session, step.files, tail);
      FrameTextsCons(eng, msgs);
      AppendAllCons(s.transcript, FrameText(eng, msgs[0]), FrameTexts(eng, tail));
    }
  }

  /** A first frame that does not escape hands its session and files to the
      rest of the run, and its outcome comes first. */
  lemma RunFirst(eng: Engines, s: Session, fs: Files, msgs: seq<Inbound>)
    requires |msgs| > 0 && !Escapes(eng, msgs[0])
    ensures var step := Receive(eng, s, fs, msgs[0]);
      var rest := Run(eng, step.session, step.files, msgs[1..]);
      && Run(eng, s, fs, msgs).0 == rest.0
      && Run(eng, s, fs, msgs).2 == [step.outcome] + rest.2
  {
  }

  /** What `receive` answers to a frame that does not escape, given only the
      transcript so far: the echo, or the reference outcome of hearing the
      chunk. No file enters into it. */
  function FrameOutcome(eng: Engines, transcript: string, msg: Inbound): Outcome
    requires !Escapes(eng, msg)
  {
    var data := eng.parseJson(msg.text).value;
    if IsAudioChunk(data) then Respond(Session(transcript), Hear(eng, data.fields)).1
    else Replied(Echo(data))
  }

  /** One frame's outcome is its reference outcome at the session's
      transcript, whatever files are present. */
  lemma ReceiveOutcome(eng: Engines, s: Session, fs: Files, msg: Inbound)
    requires !Escapes(eng, msg)
    ensures Receive(eng, s, fs, msg).outcome == FrameOutcome(eng, s.transcript, msg)
  {
    assert s == Session(s.transcript);
  }

  /** Over frames none of which escapes, there is one outcome per frame, and
      outcome `i` is frame `i`'s reference outcome at the transcript the
      frames before it left. */
  lemma {:induction false} RunOutcomes(eng: Engines, s: Session, fs: Files, msgs: seq<Inbound>)
    requires forall i :: 0 <= i < |msgs| ==> !Escapes(eng, msgs[i])
    ensures |Run(eng, s, fs, msgs).2| == |msgs|
    ensures forall i :: 0 <= i < |msgs| ==>
      Run(eng, s, fs, msgs).2[i] == FrameOutcome(eng, AppendAll(s.transcript, FrameTexts(eng, msgs[..i])), msgs[i])
    decreases |msgs|
  {
    if |msgs| > 0 {
      var step := Receive(eng, s, fs, msgs[0]);
      var tail := msgs[1..];
      assert !Escapes(eng, msgs[0]);
      assert forall i :: 0 <= i < |tail| ==> !Escapes(eng, tail[i]) by {
        assert forall i :: 0 <= i < |tail| ==> tail[i] == msgs[i + 1];
      }
      RunFirst(eng, s, fs, msgs);
      ReceiveOutcome(eng, s, fs, msgs[0]);
      ReceiveAppends(eng, s, fs, msgs[0]);
      RunOutcomes(eng, step.session, step.files, tail);
      OutcomesCons(eng, s.transcript, msgs, step.outcome, Run(eng, step.session, step.files, tail).2);
    }
  }

  /** The inductive step of `RunOutcomes`, free of files: the first frame's
      outcome in front of the rest's, each at the transcript before it. */
  lemma OutcomesCons(eng: Engines, transcript: string, msgs: seq<Inbound>, first: Outcome, rest: seq<Outcome>)
    requires |msgs| > 0 && forall i :: 0 <= i < |msgs| ==> !Escapes(eng, msgs[i])
    requires first == FrameOutcome(eng, transcript, msgs[0])
    requires |rest| == |msgs| - 1
    requires forall i :: 0 <= i < |rest| ==>
      rest[i] == FrameOutcome(eng, AppendAll(Append(transcript, FrameText(eng, msgs[0])), FrameTexts(eng, msgs[1..][..i])), msgs[1..][i])
    ensures forall i :: 0 <= i < |msgs| ==>
      ([first] + rest)[i] == FrameOutcome(eng, AppendAll(transcript, FrameTexts(eng, msgs[..i])), msgs[i])
  {
    var outs := [first] + rest;
    forall i | 0 <= i < |msgs|
      ensures outs[i] == FrameOutcome(eng, AppendAll(transcript, FrameTexts(eng, msgs[..i])), msgs[i])
    {
      if i == 0 {
        assert msgs[..0] == [] && FrameTexts(eng, []) == [];
      } else {
        assert outs[i] == rest[i - 1] && msgs[1..][i - 1] == msgs[i];
        TranscriptBefore(eng, transcript, msgs, i);
      }
    }
  }

  /** The transcript before frame `i` is the first frame's text followed by
      the texts of the frames between it and `i`. */
  lemma TranscriptBefore(eng: Engines, transcript: string, msgs: seq<Inbound>, i: nat)
    requires 0 < i <= |msgs|
    ensures AppendAll(transcript, FrameTexts(eng, msgs[..i]))
      == AppendAll(Append(transcript, FrameText(eng, msgs[0])), FrameTexts(eng, msgs[1..][..i - 1]))
  {
    var init := msgs[..i];
    FrameTextsCons(eng, init);
    assert init[0] == msgs[0] && init[1..] == msgs[1..][..i - 1];
    AppendAllCons(transcript, FrameText(eng, msgs[0]), FrameTexts(eng, msgs[1..][..i - 1]));
  }

  lemma FrameTextsCons(eng: Engines, msgs: seq<Inbound>)
    requires |msgs| > 0
    ensures FrameTexts(eng, msgs) == [FrameText(eng, msgs[0])] + FrameTexts(eng, msgs[1..])
  {
  }

  /** What a run from session `s` over `n` frames promises: the transcript
      stays stripped and only grows, at most one outcome per frame, and every
      transcript event carries a prefix of the final transcript that extends
      the initial one. */
  ghost predicate Grows(s: Session, r: (Session, Files, seq<Outcome>), n: nat) {
    && Valid(r.0) && s.transcript <= r.0.transcript
    && |r.2| <= n
    && forall i :: 0 <= i < |r.2| && r.2[i].Replied? && r.2[i].reply.TranscriptUpdate? ==>
         s.transcript <= r.2[i].reply.text <= r.0.transcript
  }

  /** Over a whole connection the transcript stays stripped and only grows,
      and every transcript event carries a prefix of the final transcript. */
  lemma {:induction false} RunGrows(eng: Engines, s: Session, fs: Files, msgs: seq<Inbound>)
    requires Valid(s)
    ensures Grows(s, Run(eng, s, fs, msgs), |msgs|)
    decreases |msgs|
  {
    if |msgs| > 0 {
      var step := Receive(eng, s, fs, msgs[0]);
      if !step.outcome.Raised? {
        RunGrows(eng, step.session, step.files, msgs[1..]);
        var rest := Run(eng, step.session, step.files, msgs[1..]);
        GrowsStep(s, step.session, step.outcome, rest, |msgs| - 1);
      }
    }
  }

  /** One step that advances the session, followed by a run that grows,
      is a run that grows. */
  lemma GrowsStep(s: Session, s': Session, o: Outcome, rest: (Session, Files, seq<Outcome>), n: nat)
    requires Valid(s) && Advances(s, s', o) && Grows(s', rest, n)
    ensures Grows(s, (rest.0, rest.1, [o] + rest.2), n + 1)
  {
    var outs := [o] + rest.2;
    forall i | 0 <= i < |outs| && outs[i].Replied? && outs[i].reply.TranscriptUpdate?
      ensures s.transcript <= outs[i].reply.text <= rest.0.transcript
    {
      if i > 0 {
        assert outs[i] == rest.2[i - 1];
      }
    }
  }
}
