/** `create_trascript`: derive the audio path from the video's path,
    delete a file already at that path, encode the video's audio track
    there with ffmpeg, and submit the encoded file to the Whisper
    transcription service for Japanese subtitles in SRT form. Whether the
    encoder succeeds and what the service answers are inputs. */
module Transcript {
  import opened Outcomes
  import opened PosixPath
  import opened Artifacts
  import opened AudioName

  /** The fixed parameters of the transcription request. */
  const WhisperModel: string := "whisper-1"
  const DomainPrompt: string := "これは日本のCMの音声です。適切な日本語の字幕を付けてください。"
  const ResponseFormat: string := "srt"
  const TargetLanguage: string := "ja"

  /** What the service is sent: the bytes read back from the audio path,
      and the fixed parameters. */
  datatype Request = Request(audio: Content, model: string, prompt: string,
                             responseFormat: string, language: string)

  /** The effects of one call, in the order they happen. */
  datatype Step =
    | Removed(path: Path)
    | Encoded(video: Path, audio: Path)
    | Submitted(request: Request)

  /** Why a call raises: `os.remove` refuses a directory, ffmpeg fails, or
      the service answers with an error. */
  datatype TranscriptionError = RemoveFailed | EncodeFailed | ServiceFailed(reason: string)

  datatype TranscriptRun = TranscriptRun(fs: FileSystem, steps: seq<Step>,
                                         result: Result<string, TranscriptionError>)

  /** The request sent for an audio file holding `audio`. */
  function RequestFor(audio: Content): Request {
    Request(audio, WhisperModel, DomainPrompt, ResponseFormat, TargetLanguage)
  }

  /** No step removes a file after the audio has been encoded. */
  predicate RemovalsPrecedeEncoding(steps: seq<Step>) {
    forall i, j :: 0 <= i < j < |steps| && steps[i].Encoded? ==> !steps[j].Removed?
  }

  /** Whether the audio path resolves to a directory, which `os.remove`
      refuses. */
  predicate BlockedByDirectory(audio: Path, fs: FileSystem) {
    Norm(audio) in fs && fs[Norm(audio)] == Dir
  }

  /** The removal in the steps `steps` of one call whose audio path is
      `audio`: a stale audio file is deleted before anything else happens,
      at most once, and nothing is deleted after the encoding. */
  predicate RemovalFirst(audio: Path, fs: FileSystem, steps: seq<Step>) {
    var key := Norm(audio);
    && RemovalsPrecedeEncoding(steps)
    && (key in fs && fs[key].File? ==> |steps| > 0 && steps[0] == Removed(audio))
    && (forall i :: 0 <= i < |steps| && steps[i].Removed? ==>
          i == 0 && key in fs && steps[i] == Removed(audio))
  }

  /** The encoding and the request in the steps `steps` of one call for the
      video `mp4FileName` whose audio path is `audio`: the service only ever
      sees freshly encoded audio of this video, each stage runs exactly
      when the ones before it succeeded, and the encoding and the request
      each happen at most once, after nothing but removals. */
  predicate StagesInOrder(mp4FileName: Path, audio: Path, blocked: bool, encoderSucceeds: bool,
                          steps: seq<Step>)
  {
    && (forall i :: 0 <= i < |steps| && steps[i].Submitted? ==>
          0 < i && steps[i - 1] == Encoded(mp4FileName, audio) &&
          steps[i].request == RequestFor(Mp3(mp4FileName)))
    && (blocked ==> steps == [])
    && (!blocked && !encoderSucceeds ==> forall i :: 0 <= i < |steps| ==> steps[i].Removed?)
    && (!blocked && encoderSucceeds ==>
          && |steps| >= 2
          && steps[|steps| - 2..] == [Encoded(mp4FileName, audio), Submitted(RequestFor(Mp3(mp4FileName)))]
          && forall i :: 0 <= i < |steps| - 2 ==> steps[i].Removed?)
  }

  /** Under `StagesInOrder`, ffmpeg runs at most once and the service is
      asked at most once: an encoding is the second-to-last step, a request
      the last, and neither happens unless the call got past the removal
      and ffmpeg succeeded. */
  lemma OneEncodingOneRequest(mp4FileName: Path, audio: Path, blocked: bool, encoderSucceeds: bool,
                              steps: seq<Step>)
    requires StagesInOrder(mp4FileName, audio, blocked, encoderSucceeds, steps)
    ensures forall i :: 0 <= i < |steps| && steps[i].Encoded? ==>
      !blocked && encoderSucceeds && i == |steps| - 2
    ensures forall i :: 0 <= i < |steps| && steps[i].Submitted? ==>
      !blocked && encoderSucceeds && i == |steps| - 1
  {
    if !blocked && encoderSucceeds {
      assert steps[|steps| - 2] == Encoded(mp4FileName, audio);
      assert steps[|steps| - 1].Submitted?;
    }
  }

  /** The result of one call: each failing stage reports its own error, and
      the call succeeds exactly when every stage does, with the service's
      text. */
  predicate StageOutcomes(audio: Path, fs: FileSystem, encoderSucceeds: bool,
                          reply: Result<string, string>, run: TranscriptRun)
  {
    && (run.result.Success? <==> !BlockedByDirectory(audio, fs) && encoderSucceeds && reply.Success?)
    && (BlockedByDirectory(audio, fs) ==> run.result == Failure(RemoveFailed))
    && (!BlockedByDirectory(audio, fs) && !encoderSucceeds ==> run.result == Failure(EncodeFailed))
    && (!BlockedByDirectory(audio, fs) && encoderSucceeds ==>
          run.result == (if reply.Success? then Success(reply.value) else Failure(ServiceFailed(reply.error))))
  }

  /** The store after one call: only the entry of the audio path changes,
      and it ends up freshly encoded or absent. */
  ghost predicate StoreEffect(mp4FileName: Path, audio: Path, fs: FileSystem, encoderSucceeds: bool,
                              run: TranscriptRun)
  {
    var key := Norm(audio);
    && (forall p :: p != key ==> (p in run.fs <==> p in fs) && (p in fs ==> run.fs[p] == fs[p]))
    && (BlockedByDirectory(audio, fs) ==> run.fs == fs)
    && (!BlockedByDirectory(audio, fs) ==>
          if encoderSucceeds then key in run.fs && run.fs[key] == File(Mp3(mp4FileName))
          else key !in run.fs)
  }

  /** What one call of `create_trascript` promises, for the video
      `mp4FileName` whose audio path is `audio`. */
  ghost predicate Transcribes(mp4FileName: Path, audio: Path, fs: FileSystem, encoderSucceeds: bool,
                              reply: Result<string, string>, run: TranscriptRun)
  {
    && RemovalFirst(audio, fs, run.steps)
    && StagesInOrder(mp4FileName, audio, BlockedByDirectory(audio, fs), encoderSucceeds, run.steps)
    && StageOutcomes(audio, fs, encoderSucceeds, reply, run)
    && StoreEffect(mp4FileName, audio, fs, encoderSucceeds, run)
  }

  /** The body of `create_trascript` once the audio path is known. */
  function Transcribe(mp4FileName: Path, audio: Path, fs: FileSystem, encoderSucceeds: bool,
                      reply: Result<string, string>): TranscriptRun
  {
    var key := Norm(audio);
    if BlockedByDirectory(audio, fs) then
      TranscriptRun(fs, [], Failure(RemoveFailed))
    else
      var removal := if key in fs then [Removed(audio)] else [];
      var vacant := fs - {key};
      if !encoderSucceeds then
        TranscriptRun(vacant, removal, Failure(EncodeFailed))
      else
        var encoded := vacant[key := File(Mp3(mp4FileName))];
        var steps := removal + [Encoded(mp4FileName, audio), Submitted(RequestFor(encoded[key].content))];
        match reply
        case Success(text) => TranscriptRun(encoded, steps, Success(text))
        case Failure(reason) => TranscriptRun(encoded, steps, Failure(ServiceFailed(reason)))
  }

  /** `create_trascript(mp4_file_name)`. `encoderSucceeds` is whether the
      ffmpeg run completes; `reply` is the service's answer. */
  function CreateTranscript(mp4FileName: Path, fs: FileSystem, encoderSucceeds: bool,
                            reply: Result<string, string>): (run: TranscriptRun)
    ensures Transcribes(mp4FileName, GetAudioFilename(mp4FileName), fs, encoderSucceeds, reply, run)
  {
    var audio := GetAudioFilename(mp4FileName);
    TranscribeKeepsPromises(mp4FileName, audio, fs, encoderSucceeds, reply);
    Transcribe(mp4FileName, audio, fs, encoderSucceeds, reply)
  }

  /** For any audio path, the steps of the call keep every promise of
      `Transcribes`. */
  lemma TranscribeKeepsPromises(mp4FileName: Path, audio: Path, fs: FileSystem, encoderSucceeds: bool,
                                reply: Result<string, string>)
    ensures Transcribes(mp4FileName, audio, fs, encoderSucceeds, reply,
                        Transcribe(mp4FileName, audio, fs, encoderSucceeds, reply))
  {
    TranscribeStepsInOrder(mp4FileName, audio, fs, encoderSucceeds, reply);
    TranscribeStoreEffect(mp4FileName, audio, fs, encoderSucceeds, reply);
  }

  /** The steps of a call come in the promised order. */
  lemma TranscribeStepsInOrder(mp4FileName: Path, audio: Path, fs: FileSystem, encoderSucceeds: bool,
                               reply: Result<string, string>)
    ensures var steps := Transcribe(mp4FileName, audio, fs, encoderSucceeds, reply).steps;
      && RemovalFirst(audio, fs, steps)
      && StagesInOrder(mp4FileName, audio, BlockedByDirectory(audio, fs), encoderSucceeds, steps)
  {
    var steps := Transcribe(mp4FileName, audio, fs, encoderSucceeds, reply).steps;
    if !BlockedByDirectory(audio, fs) {
      var present := Norm(audio) in fs;
      var removal := if present then [Removed(audio)] else [];
      var stages := if encoderSucceeds then
        [Encoded(mp4FileName, audio), Submitted(RequestFor(Mp3(mp4FileName)))] else [];
      assert steps == removal + stages;
      RemovalComesFirst(audio, fs, removal, stages);
      StagesFollowRemoval(mp4FileName, audio, encoderSucceeds, removal, stages);
    }
  }

  /** An optional removal of the audio path, followed by steps that remove
      nothing, puts the removal first. */
  lemma RemovalComesFirst(audio: Path, fs: FileSystem, removal: seq<Step>, stages: seq<Step>)
    requires removal == if Norm(audio) in fs then [Removed(audio)] else []
    requires forall j :: 0 <= j < |stages| ==> !stages[j].Removed?
    ensures RemovalFirst(audio, fs, removal + stages)
  {
    var steps := removal + stages;
    assert forall i :: 0 <= i < |steps| && steps[i].Removed? ==> i < |removal|;
  }

  /** At most one removal, followed by the encoding and the request exactly
      when the encoder succeeds, runs the stages in the promised order. */
  lemma StagesFollowRemoval(mp4FileName: Path, audio: Path, encoderSucceeds: bool,
                            removal: seq<Step>, stages: seq<Step>)
    requires removal == [] || removal == [Removed(audio)]
    requires stages == if encoderSucceeds then
      [Encoded(mp4FileName, audio), Submitted(RequestFor(Mp3(mp4FileName)))] else []
    ensures StagesInOrder(mp4FileName, audio, false, encoderSucceeds, removal + stages)
  {
    var steps := removal + stages;
    assert forall i :: 0 <= i < |steps| && steps[i].Submitted? ==> i == |removal| + 1;
    if encoderSucceeds {
      assert steps[|steps| - 2..] == stages;
    }
  }

  /** A call changes the store only at the audio path. */
  lemma TranscribeStoreEffect(mp4FileName: Path, audio: Path, fs: FileSystem, encoderSucceeds: bool,
                              reply: Result<string, string>)
    ensures StoreEffect(mp4FileName, audio, fs, encoderSucceeds,
                        Transcribe(mp4FileName, audio, fs, encoderSucceeds, reply))
  {
    var key := Norm(audio);
    var run := Transcribe(mp4FileName, audio, fs, encoderSucceeds, reply);
    if !BlockedByDirectory(audio, fs) {
      var vacant := fs - {key};
      assert run.fs == if encoderSucceeds then vacant[key := File(Mp3(mp4FileName))] else vacant;
    }
  }

  /** A call keeps every key of the store in resolved form: the only key
      it writes is the resolved audio path. */
  lemma TranscribeKeepsResolvedForm(mp4FileName: Path, audio: Path, fs: FileSystem, encoderSucceeds: bool,
                                    reply: Result<string, string>)
    requires InResolvedForm(fs)
    ensures InResolvedForm(Transcribe(mp4FileName, audio, fs, encoderSucceeds, reply).fs)
  {
    TranscribeStoreEffect(mp4FileName, audio, fs, encoderSucceeds, reply);
    NormIdempotent(audio);
  }

  /** Calling again on the store a call left behind, with the same encoder
      outcome and service answer, gives the same store and the same result:
      a failed or repeated call is safe to re-invoke. */
  lemma CreateTranscriptRetrySafe(mp4FileName: Path, fs: FileSystem, encoderSucceeds: bool,
                                    reply: Result<string, string>)
    ensures var first := CreateTranscript(mp4FileName, fs, encoderSucceeds, reply);
      var second := CreateTranscript(mp4FileName, first.fs, encoderSucceeds, reply);
      second.fs == first.fs && second.result == first.result
  {
    TranscribeRetrySafe(mp4FileName, GetAudioFilename(mp4FileName), fs, encoderSucceeds, reply);
  }

  /** `CreateTranscriptRetrySafe` for any audio path. */
  lemma TranscribeRetrySafe(mp4FileName: Path, audio: Path, fs: FileSystem, encoderSucceeds: bool,
                            reply: Result<string, string>)
    ensures var first := Transcribe(mp4FileName, audio, fs, encoderSucceeds, reply);
      var second := Transcribe(mp4FileName, audio, first.fs, encoderSucceeds, reply);
      second.fs == first.fs && second.result == first.result
  {
    var key := Norm(audio);
    var first := Transcribe(mp4FileName, audio, fs, encoderSucceeds, reply);
    if !BlockedByDirectory(audio, fs) {
      var vacant := fs - {key};
      var fs' := if encoderSucceeds then vacant[key := File(Mp3(mp4FileName))] else vacant;
      assert first.fs == fs';
      assert fs' - {key} == vacant;
    }
  }
}
