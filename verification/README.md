# CompanyPrep interview core, modelled in Dafny

CompanyPrep is an interview-practice application. This project models the
logic at its core, which sits between the external services (Whisper, ffmpeg,
OpenAI, the PDF reader):

- **The live-interview WebSocket consumer** (`backend/api/consumers.py`). A
  connection holds a `Session` with the running transcript. Each inbound text
  frame is one step:
  - anything that is not an `audio_chunk` is echoed back;
  - an audio chunk is saved under an extension picked from its format label;
  - a non-WAV chunk is converted to 16 kHz mono WAV;
  - the chunk is transcribed and the new text is appended to the transcript;
  - a transcript event carrying the whole transcript is sent;
  - the temporary files are removed on every path.

  The JSON parser, the base64 decoder, ffmpeg, Whisper and the success of each
  `os.remove` are parameters (`Engines`). The filesystem is a map from paths to
  contents.
- **The browser's WAV fallback recorder** (`frontend/src/components/InterviewCall.jsx`).
  It covers:
  - `writeString` and `writeWavHeader`, which lay out the canonical 44-byte PCM
    header of the RIFF WAVE form (Multimedia Programming Interface and Data
    Specifications 1.0, chapter 3);
  - the byte length of `floatTo16BitPCM`;
  - the buffer concatenation and packing in `finalizeAndSendWav`;
  - the 4000-byte filter of the OGG MediaRecorder path.
- **The text handling around the language model** (`backend/api/utils.py`):
  - per-line whitespace cleaning of PDF text;
  - code-fence stripping of model replies;
  - the parse-then-repair-once flow for résumé JSON;
  - the question-number range of a page;
  - picking numbered questions out of a reply.
- **The simple rule-based résumé extractors** (`backend/api/resume_parser.py`):
  summary, skills, certifications, achievements and experience.

Modules:

| module | file | models |
|---|---|---|
| `Wrappers` | `wrappers.dfy` | `Option` and `Result` |
| `PyStr` | `pystr.dfy` | Python's `isspace`, `strip`, `find`, `in`, `split`, `join`, `startswith`, `lower` |
| `JsonValue` | `json.dfy` | decoded JSON values |
| `Bytes` | `bytes.dfy` | bytes and the little-endian writes of a JavaScript `DataView` |
| `Consumer` | `consumer.dfy` | `consumers.py` |
| `InterviewCall` | `interview_call.dfy` | `InterviewCall.jsx` |
| `Utils` | `utils.dfy` | `utils.py` |
| `ResumeParser` | `resume_parser.dfy` | `resume_parser.py` |

Two places where the code, not the intuitive reading, is followed:

- **Whitespace-only segments.** `consumers.py` drops only segments whose text
  is empty. A whitespace-only segment survives as `""` after stripping. Two
  such segments therefore join to `" "`, which is truthy, and the consumer
  sends a transcript event with the transcript unchanged
  (`Consumer.WhitespaceSegmentsStillSend`).
- **Parsing outside the `try`.** `json.loads` and `data.get` sit outside the
  `try`. Malformed JSON, or JSON that is not an object, raises out of
  `receive` instead of producing an error envelope (`Consumer.Receive`,
  outcome `Raised`). `Consumer.Run` treats such a frame as ending the
  connection.

## Model

| member | source | states |
|---|---|---|
| `Consumer.Connect` | backend/api/consumers.py:13-16 | A new connection starts with the empty transcript, which satisfies the session invariant, and greets the client. |
| `Consumer.ChooseExtension` | backend/api/consumers.py:27-35 | The extension is `.wav` exactly when the label contains "wav". It is `.ogg` exactly when the label contains "ogg" but not "wav". It is `.webm` exactly when it contains neither, which covers a missing label read as "". |
| `Consumer.Normalize` | backend/api/consumers.py:45-56 | Conversion targets only the WAV path, and no other file is created or altered. There is no fault exactly when the waveform was obtained: WAV input as saved, or a successful mono 16 kHz ffmpeg run. The WAV file then holds that waveform. A failed conversion reports ffmpeg's text as the fault. WAV input leaves everything as it was. Every call made is an ffmpeg conversion. |
| `Consumer.KeptTextsConcat` | backend/api/consumers.py:60 | The segment filter distributes over concatenation, so kept texts stay in segment order. |
| `Consumer.KeptTextsSingle` | backend/api/consumers.py:60 | A segment contributes its stripped text exactly when its text is non-empty. |
| `Consumer.ChunkTextEmpty` | backend/api/consumers.py:60-62 | The chunk text is empty exactly when no segment is kept, or a single kept segment strips to "". |
| `Consumer.Append` | backend/api/consumers.py:62-63 | Empty chunk text leaves the transcript as it was. Otherwise a stripped transcript stays stripped and remains a prefix of the result. With an empty transcript the result is the stripped chunk text. Otherwise, for chunk text with a visible character, it is the old transcript, one space, then the chunk text with only its trailing whitespace removed, so a leading space in the chunk text survives. |
| `Consumer.UnstrippedChunkExample` | backend/api/consumers.py:60-63 | Transcript "prev" and segments " " and "Hello" give chunk text " Hello" and the transcript "prev  Hello", with two spaces. |
| `Consumer.TranscribeChunk` | backend/api/consumers.py:59-67 | A Whisper failure becomes an error envelope with its text, and the session is kept. Empty chunk text sends nothing and keeps the session. Otherwise the transcript becomes the old one with the chunk text appended, and the event carries that whole transcript. The transcript stays stripped and only grows. |
| `Consumer.Cleanup` | backend/api/consumers.py:69-77 | Cleanup deletes at most the chunk and its WAV file. It removes both when removal succeeds, and alters no contents. It calls remove only on those two paths and never twice on one path, even when they are the same path. Both removals share one `try`: a failed chunk removal keeps every file and skips the WAV removal, and a failed WAV removal keeps the WAV file. A successful chunk removal takes the chunk away even when the WAV removal then fails. |
| `Consumer.Respond` | backend/api/consumers.py:59-80 | The reply to what Whisper heard. A fault gives its error envelope and keeps the session. Otherwise the transcript becomes the old one with the chunk text appended. Nothing is sent exactly when the chunk text is empty. A transcript event is sent exactly when it is not, and it carries the whole transcript. |
| `Consumer.Attempt` | backend/api/consumers.py:44-67 | Conversion plus transcription answers exactly as `Respond` does for the saved chunk's waveform passed through Whisper. It can add or change only the WAV path, and removes nothing. |
| `Consumer.HandleAudio` | backend/api/consumers.py:37-77 | Handling one decoded chunk answers exactly as `Respond` does for the file-free pipeline on that audio: convert unless WAV, then transcribe. It changes nothing outside the step's temporary paths and, when removals succeed, leaves no new file behind. No path is removed twice. |
| `Consumer.ProcessChunk` | backend/api/consumers.py:25-80 | The outer `try` answers exactly as `Respond` does for the file-free pipeline on the message's fields: decode, read the label, convert, transcribe. It gives the filesystem guarantees on every path, including a missing payload, a bad payload and an unreadable format label. |
| `Consumer.Receive` | backend/api/consumers.py:18-80 | A frame raises exactly when it is not a JSON object, and then changes nothing. A non-audio object is echoed verbatim, with session and files untouched. Every frame advances the session, keeps the filesystem tidy and removes no path twice. |
| `Consumer.ConversionPolicy` | backend/api/consumers.py:45-59 | WAV input is transcribed directly from the saved file and is never converted. Other input is first converted into `src + ".wav"` at 1 channel and 16000 Hz. On success that file is transcribed with beam width 5. |
| `Consumer.AttemptCalls` | backend/api/consumers.py:45-59 | The external calls of the conversion and transcription, in order, for each branch. |
| `Consumer.HandleAudioCalls` | backend/api/consumers.py:44-77 | A chunk's calls are those of the attempt, followed only by removals. |
| `Consumer.FailuresReportErrors` | backend/api/consumers.py:25-80 | A missing payload or a failed base64 decode yields exactly an error envelope, with session and files unchanged. Any fault of the pipeline yields that fault's error envelope with the session unchanged: decode, label, ffmpeg or Whisper. |
| `Consumer.AudioFailuresReportErrors` | backend/api/consumers.py:44-80 | A failed ffmpeg run is answered with ffmpeg's error text. Whisper rejecting the saved WAV or the converted file is answered with Whisper's. The transcript is untouched in both cases. |
| `Consumer.AudioChunkOutcome` | backend/api/consumers.py:18-80 | For an `audio_chunk` frame, `receive` sends the fault's error envelope, or nothing for empty chunk text, or a transcript event with the chunk text appended. |
| `Consumer.ReceiveAppends` | backend/api/consumers.py:18-80 | A frame that does not escape appends its heard text to the transcript. That text is nothing for a non-audio frame or a failed chunk. |
| `Consumer.AppendAllCons` | backend/api/consumers.py:62-63 | Folding in a first chunk text and then the rest is folding in all of them. |
| `Consumer.Run` | backend/api/consumers.py:12-80 | There is at most one outcome per frame. Only the last outcome may be an exception escaping `receive`, and the run stops before the end only after such an exception. |
| `Consumer.ReceiveOutcome` | backend/api/consumers.py:18-80 | A frame that does not escape gets its reference outcome at the session's transcript, whatever files are present: the echo, or the response to what was heard in the chunk. |
| `Consumer.RunOutcomes` | backend/api/consumers.py:12-80 | Over frames none of which escapes, there is one outcome per frame, and outcome i is frame i's reference outcome at the transcript the earlier frames left. |
| `Consumer.RunTranscript` | backend/api/consumers.py:18-80 | Over frames none of which escapes, the final transcript is the old one with every frame's heard text appended, in arrival order. |
| `Consumer.CleanupRemovesBoth` | backend/api/consumers.py:69-75 | When removals succeed, neither the saved chunk nor a distinct WAV file remains after the step, whichever way it ended. |
| `Consumer.FreshStemLeavesNoTrace` | backend/api/consumers.py:37-77 | With a fresh temporary name and successful removals, a frame leaves the filesystem exactly as it found it. |
| `Consumer.SilenceSendsNothing` | backend/api/consumers.py:62 | Empty chunk text sends nothing and keeps the session. |
| `Consumer.WhitespaceSegmentsStillSend` | backend/api/consumers.py:60-67 | Two whitespace-only segments still cause a transcript event, carrying the unchanged transcript. |
| `Consumer.AppendBlank` | backend/api/consumers.py:63 | Appending whitespace-only chunk text leaves a stripped transcript unchanged. |
| `Consumer.TranscriptIsJoin` | backend/api/consumers.py:60-63 | For stripped chunk texts, the transcript after a connection is the single-space join of the non-empty ones, in arrival order. |
| `Consumer.HelloWorldExample` | backend/api/consumers.py:63 | "hello world" followed by "how are you" gives the transcript "hello world how are you". |
| `Consumer.RunGrows` | backend/api/consumers.py:13-80 | Over a whole connection the transcript stays stripped and only grows. There is at most one outcome per frame. Every transcript event carries a prefix of the final transcript that extends the initial one. |
| `InterviewCall.WriteString` | frontend/src/components/InterviewCall.jsx:34-38 | Byte `offset + i` becomes the low byte of code unit `i`, and every other byte is unchanged. |
| `InterviewCall.WriteWavHeader` | frontend/src/components/InterviewCall.jsx:15-32 | The thirteen writes fill bytes 0..43 with the header layout and leave every later byte untouched. |
| `InterviewCall.HeaderSlicesRiff` | frontend/src/components/InterviewCall.jsx:19-23 | "RIFF" is at 0, `36 + dataLength` (little-endian) at 4, "WAVE" at 8, "fmt " at 12, and chunk size 16 at 16. |
| `InterviewCall.HeaderSlicesFmt` | frontend/src/components/InterviewCall.jsx:16-29 | At their fixed offsets: format 1 at 20, channels at 22, sample rate at 24, `sampleRate * numChannels * 2` at 28, `numChannels * 2` at 32, and 16 bits at 34. |
| `InterviewCall.HeaderSlicesData` | frontend/src/components/InterviewCall.jsx:30-31 | "data" is at 36 and `dataLength` (little-endian) at 40. |
| `InterviewCall.HeaderRoundTrip` | frontend/src/components/InterviewCall.jsx:15-32 | A RIFF WAVE reader accepts the header and reads back every field, reduced modulo the width of its slot. |
| `InterviewCall.IntendedFormat` | frontend/src/components/InterviewCall.jsx:16-17 | The 16-bit format for a sample rate, channel count and data length obeys the RIFF WAVE consistency rules: RIFF size, data size, block size and byte rate. |
| `InterviewCall.HeaderConsistent` | frontend/src/components/InterviewCall.jsx:15-32 | When the values fit their slots, the header followed by the PCM data reads back as the intended, self-consistent format. |
| `InterviewCall.FloatTo16BitPCM` | frontend/src/components/InterviewCall.jsx:3-13 | The output is two bytes per sample, and sample `i` is stored little-endian at offset `2i`. |
| `InterviewCall.Concatenate` | frontend/src/components/InterviewCall.jsx:138-144 | The result's length is the sum of the chunk lengths and its content is the chunks in order. Chunk `i` sits at the sum of the lengths before it. |
| `InterviewCall.FlattenSlots` | frontend/src/components/InterviewCall.jsx:138-144 | In the reference concatenation, every chunk occupies the slot starting at the total length of the chunks before it. |
| `InterviewCall.EffectiveRate` | frontend/src/components/InterviewCall.jsx:146 | The context's rate is used when present and non-zero, otherwise 16000. The rate is never zero. |
| `InterviewCall.AssembleWav` | frontend/src/components/InterviewCall.jsx:147-158 | The file is the 44-byte header for mono 16-bit data followed by the PCM bytes, copied verbatim from offset 44. |
| `InterviewCall.FinalizeAndSendWav` | frontend/src/components/InterviewCall.jsx:133-178 | A file is sent exactly when chunks are buffered and the socket is open. It is labelled `audio/wav`, packs the concatenated samples after the header at the effective rate, and the buffer is empty afterwards. |
| `InterviewCall.SentWavParses` | frontend/src/components/InterviewCall.jsx:146-158 | The sent file reads back as mono 16-bit PCM at the effective rate, consistent with its own length. |
| `InterviewCall.OnOggData` | frontend/src/components/InterviewCall.jsx:191-205 | A blob is sent exactly when it exists, has at least 4000 bytes and the socket is open. It is sent verbatim with the OGG/Opus label. |
| `InterviewCall.ServerHonoursClientFormats` | frontend/src/components/InterviewCall.jsx:183-201 | The client's two labels lead the server to `.wav` and `.ogg`, respectively. |
| `Bytes.Overwrite` | frontend/src/components/InterviewCall.jsx:156-158 | Copying into a view at an offset writes exactly the given elements there and keeps every other element. |
| `Utils.Collapse` | backend/api/utils.py:22 | The output's only whitespace is plain spaces, never two adjacent. Non-whitespace characters are kept in order, and so is the first character's kind. |
| `Utils.CollapseWords` | backend/api/utils.py:22 | Collapsing and then stripping gives the line's words (maximal non-whitespace runs) joined by single spaces. So every whitespace run between two words becomes exactly one space. |
| `Utils.CleanLine` | backend/api/utils.py:22 | A cleaned line is stripped, single-spaced and free of newlines, and keeps exactly the visible characters of the raw line. It is the line's words joined by single spaces, i.e. Python's `" ".join(line.split())`. |
| `Utils.CleanLineFixedPoints` | backend/api/utils.py:22 | Cleaning leaves a line unchanged exactly when it is already stripped and single-spaced. |
| `Utils.CleanLineIdempotent` | backend/api/utils.py:22 | Cleaning a cleaned line changes nothing. |
| `Utils.CleanPageLines` | backend/api/utils.py:21-24 | Splitting a cleaned page gives one line per raw line, the `i`-th being the cleaned `i`-th. |
| `Utils.ExtractTextLines` | backend/api/utils.py:12-27 | The extracted text's lines are every page's cleaned lines in page order, followed by the empty piece after the final newline. |
| `Utils.RemoveFenceTokens` | backend/api/utils.py:70 | Deleting "```json" and "```" tokens never lengthens the text and leaves no "```" behind. Text without a backtick is left alone. |
| `Utils.RemoveFenceKeepsChar` | backend/api/utils.py:70 | A character that does not begin "```" is kept, backticks included, in front of the removal's result on the rest. |
| `Utils.StrayBacktickKept` | backend/api/utils.py:70 | Inline code in single backticks, around any backtick-free text, survives the removal unchanged. |
| `Utils.RemoveFenceKeepsText` | backend/api/utils.py:70 | Text without backticks passes through the token removal unchanged and in place. |
| `Utils.RemoveFenceDropsToken` | backend/api/utils.py:70 | A "```" is deleted together with a "json" right after it, and alone otherwise. |
| `Utils.StripFences` | backend/api/utils.py:69-72 | A reply not starting with "```" is returned unchanged. Otherwise the result is stripped, contains no "```", and is the stripped token removal: the second replacement never changes anything. |
| `Utils.FencedBodyRecovered` | backend/api/utils.py:69-72 | "```json" + body + "```" comes back as the stripped body when the body has no backtick. So does "```" + body + "```", unless the body begins with "json". |
| `Utils.FencedReplyExample` | backend/api/utils.py:69-72 | "```json{}```" comes back as "{}". |
| `Utils.CleanReply` | backend/api/utils.py:66-72 | A cleaned reply is stripped, and it is fence-free whenever the stripped reply began with a fence. |
| `Utils.ParseResume` | backend/api/utils.py:66-114 | The extraction prompt is always sent first. A reply that decodes is returned, and no repair is requested. Otherwise exactly one repair prompt carrying the cleaned reply follows. Its decoded answer is returned, or else the error record. |
| `Utils.RepairPolicy` | backend/api/utils.py:76-114 | Repair is requested exactly when the first reply does not decode. When neither decodes, the result is the error record with both cleaned replies. |
| `Utils.PageRange` | backend/api/utils.py:121-122 | Each page asks for exactly `page_size` question numbers. |
| `Utils.DefaultRange` | backend/api/utils.py:120-122 | The default page asks for questions 1 to 10. |
| `Utils.NextPageFollows` | backend/api/utils.py:121-122 | Page `p + 1` starts right after page `p` ends. |
| `Utils.PagesPartition` | backend/api/utils.py:120-122 | With a positive page size, question number `n` lies on page `(n - 1) / size + 1` and on no other. |
| `Utils.NumberedIff` | backend/api/utils.py:160 | The longest-digit-run test agrees with the backtracking reading of `^\d+\.\s`. |
| `Utils.AfterDotSpace` | backend/api/utils.py:161 | It fails exactly when the line has no ". ". Otherwise it returns the text after the leftmost occurrence: no ". " starts before it. |
| `Utils.Kept` | backend/api/utils.py:159-160 | A line is kept exactly when it is among the lines and numbered. |
| `Utils.KeptConcat` | backend/api/utils.py:159-160 | Keeping distributes over concatenation, so kept lines stay in their original order. |
| `Utils.QuestionsOfKept` | backend/api/utils.py:158-163 | Extraction succeeds exactly when every kept line has a ". ". It then gives one question per kept line, in order, and never more questions than lines. A failure names a kept line that has no ". ". |
| `Utils.FailurePersists` | backend/api/utils.py:159-162 | Once a prefix of the lines fails, the whole extraction fails the same way. |
| `Utils.ExtractQuestions` | backend/api/utils.py:158-164 | The loop computes exactly the extraction over the reply's lines. |
| `Utils.LineRoundTrip` | backend/api/utils.py:160-161 | A line "N. question" is numbered, and its question comes back. |
| `Utils.RenderRoundTrip` | backend/api/utils.py:142-164 | A reply in exactly the format the prompt requests gives back its questions, in order, provided no question spans lines. |
| `Utils.GenerateQuestions` | backend/api/utils.py:120-164 | The request carries the résumé, role, difficulty, interview type and the page's number range. The result is the numbered-line extraction over the stripped reply's lines, so no more questions than lines. |
| `ResumeParser.ExtractSummary` | backend/api/resume_parser.py:19-21 | The summary is stripped, and it is "" when either heading is missing. |
| `ResumeParser.SummaryRoundTrip` | backend/api/resume_parser.py:19-21 | A non-empty section between the first "Profile Summary" and an "Education" that does not appear inside it is read back, stripped. |
| `ResumeParser.EducationAfter` | backend/api/resume_parser.py:20 | The lazy group ends at the first "Education" starting at least one character after the heading. |
| `ResumeParser.FirstMatch` | backend/api/resume_parser.py:70-72 | It returns the leftmost position where `key\s(.+)` matches, or reports that there is none. |
| `ResumeParser.Capture` | backend/api/resume_parser.py:70-72 | Group 1 exists exactly when the pattern matches somewhere. It is the rest of the line after the leftmost match's key and whitespace character, non-empty and without a newline. |
| `ResumeParser.RestOfLine` | backend/api/resume_parser.py:71 | The greedy `.+` runs from its start up to the first newline, or to the end when there is none. |
| `ResumeParser.SkillList` | backend/api/resume_parser.py:75-77 | The list is empty exactly when there is no match. Otherwise `", ".join` of the list gives back the captured text. |
| `ResumeParser.ExtractSkills` | backend/api/resume_parser.py:69-78 | Each category is empty when its label is absent. Otherwise joining it with ", " gives back the text captured after the first label. |
| `ResumeParser.SkillsRoundTrip` | backend/api/resume_parser.py:69-78 | A line "label items" is read back as the items, when no item contains ", " or a newline, the first item is non-empty, and no earlier text holds the label. The label must be unbordered (no proper suffix equals a prefix). |
| `ResumeParser.SkillLabelsUnbordered` | backend/api/resume_parser.py:70-72 | "Programming:", "Frameworks/Tools:" and "Soft Skills:" are each unbordered, so the round trip holds for all three categories. |
| `ResumeParser.SplitJoinSeparated` | backend/api/resume_parser.py:75 | Splitting a ", "-join recovers the items when none contains ", ". Items may be empty or end in a comma. |
| `ResumeParser.FindAll` | backend/api/resume_parser.py:82 | Every match reported by `findall` of a literal is the literal itself. |
| `ResumeParser.FindAllCountsOccurrences` | backend/api/resume_parser.py:82 | For a pattern that cannot overlap itself, `findall` reports one match per occurrence. |
| `ResumeParser.ExtractCertifications` | backend/api/resume_parser.py:81-83 | Every entry is "AWS Certified Cloud Practitioner", one per occurrence in the text. |
| `ResumeParser.NonBlank` | backend/api/resume_parser.py:90 | The kept lines are non-empty and stripped, and there are no more of them than input lines. |
| `ResumeParser.NonBlankConcat` | backend/api/resume_parser.py:90 | Dropping blank lines distributes over concatenation, so kept lines stay in order. |
| `ResumeParser.NonBlankSingle` | backend/api/resume_parser.py:90 | One line is kept, stripped, exactly when it is not blank. |
| `ResumeParser.ExtractAchievements` | backend/api/resume_parser.py:86-91 | At most three items, each non-empty and stripped. The result is empty when the heading is absent, or when its first occurrence ends the text. |
| `ResumeParser.AchievementsGroup` | backend/api/resume_parser.py:87-91 | After the first heading, the achievements are the first three non-blank lines of the rest of the text. |
| `ResumeParser.AchievementsRoundTrip` | backend/api/resume_parser.py:86-91 | An achievements section written one item per line is read back as its first three items, in order. |
| `ResumeParser.ExtractExperience` | backend/api/resume_parser.py:65-66 | The experience list is always empty. |

## Left out

- Whisper, ffmpeg, base64, `json.loads` and `os.remove` are foreign calls. They are parameters of the consumer, and each may fail.
- The OpenAI calls and the `fitz` PDF reader are parameters. The prompts are identified only by the text they embed, because their wording is prose.
- The async Channels machinery and concurrency are left out. One connection processes frames in order.
- Real temporary-file creation is left out. The random name `tempfile` picks is an input of each frame.
- The float clamping and scaling in `floatTo16BitPCM` are floating-point numerics. They are a `quantize` parameter, and only the byte layout is modelled.
- The browser APIs are reduced to the values the logic reads: MediaRecorder, WebAudio, FileReader, WebSocket, React state and the UI. What remains is the context's sample rate, whether the socket is open, and the blob.
- The base64 data-URL encoding on the client is left out. The message is modelled before its payload is encoded.
- `extract_contact`, `extract_education` and `extract_projects` are left out. They rest on regex backtracking, lookahead and lazy DOTALL matching.
- The Django views, serializers, models, admin, urls and routing are left out. They are framework plumbing.
- Prints and logging are left out.
- `PyStr.Lower` lower-cases ASCII letters only. Python's `str.lower` also maps other Unicode letters. The labels the client sends are ASCII.
- `Utils.IsDigit` is ASCII digits only. `\d` on a `str` pattern also matches other Unicode decimal digits.
- JSON values keep numbers as integers. The consumer only compares strings.
- `InterviewCall.HeaderConsistent` requires the rate, byte rate and file size to fit their 16- and 32-bit slots. Beyond that, `InterviewCall.HeaderRoundTrip` states the wrapped values.
- `InterviewCall.SentWavParses` requires the rate and the file size to fit their slots, for the same reason.
- `InterviewCall.EffectiveRate` takes the context's rate as a natural number. The browser's `sampleRate` is a float, and the header write truncates it through ToUint32. A fractional or infinite rate is not modelled; a NaN rate falls back to 16000 through `||`, like a missing or zero rate, which the contract covers.
- `Utils.RemoveFenceTokens` states in its own contract only the shape of its result. Which characters survive is stated by `Utils.RemoveFenceKeepsChar`, `Utils.RemoveFenceKeepsText` and `Utils.RemoveFenceDropsToken`.
- `ResumeParser.ExtractSummary` does not state that its result is a slice of the text between the headings. `ResumeParser.SummaryRoundTrip` states it for texts built around a section.
- `ResumeParser.FindAllCountsOccurrences` is stated for patterns whose first character does not recur in them. "AWS Certified Cloud Practitioner" is one.
- `Consumer.CleanupRemovesBoth` requires both removals to succeed. A failing `os.remove` is swallowed and its file remains; `Consumer.Cleanup` states each removal's effect on its own.
