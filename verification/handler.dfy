/** The `separate` request handler as a function of its upload and of an
    environment that fixes every outcome the handler cannot see: the name
    the temporary-file service picks, whether creating, writing or removing
    that file fails, what the decoder reads back, the resampler, what the
    separation model returns and which buffers the encoder accepts.
    Quantifying over environments covers every way each modelled step can
    succeed or fail. The only state is the set of temporary files present
    on disk. */
module Handler {
  import opened Wrappers
  import opened Grids
  import Upload
  import PosixPath
  import AudioIO

  type Path = string

  /** The observable steps of one request, in the order they happen. */
  datatype Stage = CreateTemp | WriteTemp | Decode | Infer | Encode | RemoveTemp

  /** Failures after admission; none of them is caught, so each becomes a
      server error. `HeaderFailure` is the archive's response failing to
      encode its `Content-Disposition` header. */
  datatype StepFailure =
    | CreateFailure | WriteFailure | DecodeFailure | InferenceFailure
    | PackagingFailure(cause: AudioIO.PackError) | HeaderFailure

  datatype Response<E> =
    | Zip(entries: seq<AudioIO.Entry<E>>, downloadName: string)
    | ClientError(status: int, detail: string)
    | ServerError(failure: StepFailure)

  datatype Environment<!E> = Environment(
    tempName: string,
    createFails: bool,
    writeFails: bool,
    decoded: Option<AudioIO.Decoded<E>>,
    resample: (Grid<E>, int, int) -> Grid<E>,
    separate: Grid<E> -> Option<seq<Grid<E>>>,
    canEncode: (Grid<E>, int) -> bool,
    removeFails: bool)

  /** What one request leaves behind: the response, the temporary files on
      disk afterwards, and the steps it went through. */
  datatype Run<E> = Run(response: Response<E>, live: set<Path>, trace: seq<Stage>)

  /** The work inside the guarded scope once the upload is on disk. */
  datatype Attempt<E> = Attempt(outcome: Result<seq<AudioIO.Entry<E>>, StepFailure>, reached: seq<Stage>)

  /** The temporary file's path: the service's unique name plus the suffix. */
  function TempPath<E>(env: Environment<E>, filename: string): Path {
    env.tempName + Upload.TempSuffix(filename)
  }

  /** The temporary file's path ends with the suffix derived from the
      filename, after the service's unique name. */
  lemma TempPathSuffix<E>(env: Environment<E>, filename: string)
    ensures Upload.EndsWith(TempPath(env, filename), Upload.TempSuffix(filename))
    ensures TempPath(env, filename)[..|env.tempName|] == env.tempName
  {
    var p := TempPath(env, filename);
    assert p[|p| - |Upload.TempSuffix(filename)|..] == Upload.TempSuffix(filename);
  }

  /** Decode and resample, run the model on the waveform, package its stems
      under the default labels at the rate the loader returned. */
  function Process<E>(env: Environment<E>): (a: Attempt<E>)
    // succeeds exactly when every step does, packaging at the canonical rate
    ensures a.outcome.Success? <==>
      && env.decoded.Some?
      && (var w := AudioIO.LoadAudio(env.decoded.value, env.resample);
          && env.separate(w.samples).Some?
          && AudioIO.SaveStemsToZip(env.separate(w.samples).value, AudioIO.TargetRate, None, env.canEncode).Success?)
    // each failure stops the work at the step that raised it
    ensures env.decoded.None? ==> a == Attempt(Failure(DecodeFailure), [Decode])
    ensures env.decoded.Some? ==>
      var w := AudioIO.LoadAudio(env.decoded.value, env.resample);
      && (env.separate(w.samples).None? ==> a == Attempt(Failure(InferenceFailure), [Decode, Infer]))
      && (env.separate(w.samples).Some? ==>
            var r := AudioIO.SaveStemsToZip(env.separate(w.samples).value, AudioIO.TargetRate, None, env.canEncode);
            && a.reached == [Decode, Infer, Encode]
            && (r.Success? ==> a.outcome == Success(r.value))
            && (r.Failure? ==> a.outcome == Failure(PackagingFailure(r.error))))
  {
    match env.decoded
    case None => Attempt(Failure(DecodeFailure), [Decode])
    case Some(d) =>
      var w := AudioIO.LoadAudio(d, env.resample);
      match env.separate(w.samples)
      case None => Attempt(Failure(InferenceFailure), [Decode, Infer])
      case Some(stems) =>
        match AudioIO.SaveStemsToZip(stems, w.rate, None, env.canEncode)
        case Failure(e) => Attempt(Failure(PackagingFailure(e)), [Decode, Infer, Encode])
        case Success(entries) => Attempt(Success(entries), [Decode, Infer, Encode])
  }

  /** Header values are encoded as Latin-1: every character below 256. */
  predicate Latin1(s: string) {
    forall i :: 0 <= i < |s| ==> s[i] as int < 256
  }

  /** The download name encodes exactly when the filename's root does: the
      archive suffix is plain ASCII. */
  lemma DownloadNameLatin1(filename: string)
    ensures Latin1(Upload.DownloadName(filename)) <==> Latin1(PosixPath.SplitExt(filename).root)
  {
    var root := PosixPath.SplitExt(filename).root;
    var name := Upload.DownloadName(filename);
    assert name == root + Upload.ArchiveSuffix;
    if Latin1(name) {
      forall i | 0 <= i < |root| ensures root[i] as int < 256 {
        assert name[i] == root[i];
      }
    }
  }

  /** A download name with an en dash cannot be sent in the header. */
  lemma EnDashNameRejected()
    ensures !Latin1(Upload.DownloadName("A\U{2013}B.wav"))
  {
    var f := "A\U{2013}B.wav";
    assert f[3] == '.';
    assert PosixPath.RFind(f, '.') == 3;
    assert f[..3][0] == 'A';
    assert Upload.DownloadName(f)[1] == f[1];
  }

  /** The response for the outcome of the guarded work: the archive under the
      download name, unless that name cannot be encoded into the header. */
  function Respond<E>(outcome: Result<seq<AudioIO.Entry<E>>, StepFailure>, filename: string): (r: Response<E>)
    ensures r.Zip? <==> outcome.Success? && Latin1(Upload.DownloadName(filename))
    ensures r.Zip? ==> r.entries == outcome.value && r.downloadName == Upload.DownloadName(filename)
    ensures outcome.Success? && !Latin1(Upload.DownloadName(filename)) ==> r == ServerError(HeaderFailure)
    ensures outcome.Failure? ==> r == ServerError(outcome.error)
  {
    match outcome
    case Success(entries) =>
      var name := Upload.DownloadName(filename);
      if Latin1(name) then Zip(entries, name) else ServerError(HeaderFailure)
    case Failure(f) => ServerError(f)
  }

  /** Removal runs once the guarded work is over; a failing removal is
      swallowed and leaves the file where it is. */
  function AfterRemoval(live: set<Path>, p: Path, removeFails: bool): (after: set<Path>)
    ensures removeFails ==> after == live
    ensures !removeFails ==> p !in after && after <= live && live <= after + {p}
  {
    if removeFails then live else live - {p}
  }

  /** The rejection response for a verdict other than admission. */
  function Reject<E>(v: Upload.Verdict): Response<E>
    requires !v.Admit?
  {
    ClientError(v.Status(), v.Detail())
  }

  /** `separate` as the source writes it: the upload is written to the
      temporary file before the guarded scope opens, so a failing write
      escapes without the removal. */
  function SeparateAsWritten<E>(filename: string, size: nat, live: set<Path>, env: Environment<E>): (run: Run<E>)
    ensures !Upload.Validate(filename, size).Admit? ==> run == Run(Reject(Upload.Validate(filename, size)), live, [])
    ensures Upload.Validate(filename, size).Admit? && env.createFails ==>
      run == Run(ServerError(CreateFailure), live, [CreateTemp])
    // the write fails after creation and before the guarded scope: the file stays
    ensures Upload.Validate(filename, size).Admit? && !env.createFails && env.writeFails ==>
      run == Run(ServerError(WriteFailure), live + {TempPath(env, filename)}, [CreateTemp, WriteTemp])
  {
    var v := Upload.Validate(filename, size);
    if !v.Admit? then Run(Reject(v), live, [])
    else if env.createFails then Run(ServerError(CreateFailure), live, [CreateTemp])
    else
      var p := TempPath(env, filename);
      var created := live + {p};
      if env.writeFails then Run(ServerError(WriteFailure), created, [CreateTemp, WriteTemp])
      else
        var a := Process(env);
        Run(Respond(a.outcome, filename), AfterRemoval(created, p, env.removeFails),
            [CreateTemp, WriteTemp] + a.reached + [RemoveTemp])
  }

  /** The path of a guarded run: create, write, the work reached, remove. */
  function GuardedTrace(reached: seq<Stage>): (trace: seq<Stage>)
    requires RemoveTemp !in reached
    ensures |trace| >= 3 && trace[0] == CreateTemp && trace[|trace| - 1] == RemoveTemp
    ensures forall k :: 0 <= k < |trace| - 1 ==> trace[k] != RemoveTemp
    ensures trace[1] == WriteTemp && trace[2..|trace| - 1] == reached
  {
    var trace := [CreateTemp, WriteTemp] + reached + [RemoveTemp];
    assert forall k :: 2 <= k < |trace| - 1 ==> trace[k] == reached[k - 2];
    trace
  }

  /** An admitted upload, from the creation of the temporary file `p` on. */
  function Admitted<E>(filename: string, p: Path, live: set<Path>, env: Environment<E>): (run: Run<E>)
    // creation fails: no file exists and there is nothing to remove
    ensures env.createFails ==> run == Run(ServerError(CreateFailure), live, [CreateTemp])
    // once the file exists: created first, removal attempted last and only there
    ensures !env.createFails ==>
      && |run.trace| >= 3
      && run.trace[0] == CreateTemp
      && run.trace[|run.trace| - 1] == RemoveTemp
      && (forall k :: 0 <= k < |run.trace| - 1 ==> run.trace[k] != RemoveTemp)
      && run.live == (if env.removeFails then live + {p} else live - {p})
    // the steps run in order and stop at the first failure
    ensures !env.createFails && env.writeFails ==>
      run.response == ServerError(WriteFailure) && run.trace == [CreateTemp, WriteTemp, RemoveTemp]
    ensures !env.createFails && !env.writeFails ==>
      run.trace == [CreateTemp, WriteTemp] + Process(env).reached + [RemoveTemp]
    ensures !env.createFails && !env.writeFails && Process(env).outcome.Failure? ==>
      run.response == ServerError(Process(env).outcome.error)
    ensures !env.createFails && !env.writeFails && Process(env).outcome.Success?
              && !Latin1(Upload.DownloadName(filename)) ==>
      run.response == ServerError(HeaderFailure)
    // the archive exactly when every step succeeds; any other outcome is a server error
    ensures run.response.Zip? <==>
      !env.createFails && !env.writeFails && Process(env).outcome.Success? && Latin1(Upload.DownloadName(filename))
    ensures run.response.Zip? ==>
      && run.response == Zip(Process(env).outcome.value, Upload.DownloadName(filename))
      && run.trace == [CreateTemp, WriteTemp, Decode, Infer, Encode, RemoveTemp]
    ensures !run.response.Zip? ==> run.response.ServerError?
  {
    if env.createFails then Run(ServerError(CreateFailure), live, [CreateTemp])
    else
      var after := AfterRemoval(live + {p}, p, env.removeFails);
      if env.writeFails then
        Run(ServerError(WriteFailure), after, GuardedTrace([]))
      else
        var a := Process(env);
        var trace := GuardedTrace(a.reached);
        assert a.outcome.Success? ==> trace == [CreateTemp, WriteTemp, Decode, Infer, Encode, RemoveTemp];
        Run(Respond(a.outcome, filename), after, trace)
  }

  /** `separate` with the write inside the guarded scope, so that removal is
      attempted on every path after the temporary file exists. */
  function Separate<E>(filename: string, size: nat, live: set<Path>, env: Environment<E>): (run: Run<E>)
    // rejected uploads: the distinct client error, nothing created, nothing run
    ensures Upload.Validate(filename, size).UnsupportedFormat? ==>
      run == Run(ClientError(400, "Upload WAV/FLAC/OGG/AIFF only."), live, [])
    ensures Upload.Validate(filename, size).PayloadTooLarge? ==>
      run == Run(ClientError(413, "File too large (limit ~200MB)."), live, [])
    // admitted, creation fails: no file exists and there is nothing to remove
    ensures Upload.Validate(filename, size).Admit? && env.createFails ==>
      run == Run(ServerError(CreateFailure), live, [CreateTemp])
    // admitted, the file exists: created first, removal attempted last and only there
    ensures Upload.Validate(filename, size).Admit? && !env.createFails ==>
      && |run.trace| >= 3
      && run.trace[0] == CreateTemp
      && run.trace[|run.trace| - 1] == RemoveTemp
      && (forall k :: 0 <= k < |run.trace| - 1 ==> run.trace[k] != RemoveTemp)
      && run.live == (if env.removeFails then live + {TempPath(env, filename)} else live - {TempPath(env, filename)})
    // the steps run in order and stop at the first failure
    ensures Upload.Validate(filename, size).Admit? && !env.createFails && env.writeFails ==>
      run.response == ServerError(WriteFailure) && run.trace == [CreateTemp, WriteTemp, RemoveTemp]
    ensures Upload.Validate(filename, size).Admit? && !env.createFails && !env.writeFails ==>
      run.trace == [CreateTemp, WriteTemp] + Process(env).reached + [RemoveTemp]
    ensures Upload.Validate(filename, size).Admit? && !env.createFails && !env.writeFails
              && Process(env).outcome.Failure? ==>
      run.response == ServerError(Process(env).outcome.error)
    ensures Upload.Validate(filename, size).Admit? && !env.createFails && !env.writeFails
              && Process(env).outcome.Success? && !Latin1(Upload.DownloadName(filename)) ==>
      run.response == ServerError(HeaderFailure)
    // the archive exactly when every step succeeds; any other admitted outcome is a server error
    ensures run.response.Zip? <==>
      && Upload.Validate(filename, size).Admit? && !env.createFails && !env.writeFails
      && Process(env).outcome.Success? && Latin1(Upload.DownloadName(filename))
    ensures run.response.Zip? ==>
      && run.response == Zip(Process(env).outcome.value, Upload.DownloadName(filename))
      && run.trace == [CreateTemp, WriteTemp, Decode, Infer, Encode, RemoveTemp]
    ensures Upload.Validate(filename, size).Admit? && !run.response.Zip? ==> run.response.ServerError?
  {
    var v := Upload.Validate(filename, size);
    if !v.Admit? then Run(Reject(v), live, []) else Admitted(filename, TempPath(env, filename), live, env)
  }

  /** The temporary file is gone when the handler returns unless its removal
      failed, whichever step failed or succeeded, and no other file is
      touched. */
  lemma CleanupOnEveryExit<E>(filename: string, size: nat, live: set<Path>, env: Environment<E>)
    requires TempPath(env, filename) !in live
    requires !env.removeFails
    ensures Separate(filename, size, live, env).live == live
    ensures TempPath(env, filename) !in Separate(filename, size, live, env).live
  {
  }

  /** The guarded work does not depend on whether removal will fail. */
  lemma GuardedWorkIgnoresRemoval<E>(env: Environment<E>, removeFails: bool)
    ensures Process(env.(removeFails := removeFails)) == Process(env)
  {
    var env2 := env.(removeFails := removeFails);
    assert env2.decoded == env.decoded && env2.resample == env.resample;
    assert env2.separate == env.separate && env2.canEncode == env.canEncode;
  }

  /** A failing removal never changes what the caller sees. */
  lemma RemovalFailureInvisible<E>(filename: string, size: nat, live: set<Path>, env: Environment<E>)
    ensures Separate(filename, size, live, env).response
         == Separate(filename, size, live, env.(removeFails := !env.removeFails)).response
  {
    var env2 := env.(removeFails := !env.removeFails);
    assert TempPath(env2, filename) == TempPath(env, filename);
    if Upload.Validate(filename, size).Admit? {
      GuardedWorkIgnoresRemoval(env, !env.removeFails);
    }
  }

  /** A rejected upload never reaches the temporary file, the decoder or the
      model, and the extension check wins over the size check. */
  lemma RejectionReachesNothing<E>(filename: string, size: nat, live: set<Path>, env: Environment<E>)
    requires !Upload.Validate(filename, size).Admit?
    ensures var run := Separate(filename, size, live, env);
      && CreateTemp !in run.trace && Decode !in run.trace && Infer !in run.trace
      && run.live == live
      && run.response.ClientError?
      && (run.response.status == 400 <==> !Upload.Admissible(filename))
  {
    Upload.ValidateMeaning(filename, size);
  }

  /** The archive the guarded work produces, and so every archive the
      handler returns: one entry per stem the model gave, at most four, named
      after the default labels in order, at the canonical rate, each holding
      the buffer handed to the encoder, which turns back into its stem. */
  lemma SuccessfulArchive<E>(env: Environment<E>)
    requires Process(env).outcome.Success?
    ensures var entries := Process(env).outcome.value;
      var w := AudioIO.LoadAudio(env.decoded.value, env.resample);
      var stems := env.separate(w.samples).value;
      && |entries| == |stems| <= 4
      && forall i :: 0 <= i < |entries| ==>
           && entries[i].name == AudioIO.DefaultLabels[i] + ".wav"
           && entries[i].payload.rate == AudioIO.TargetRate
           && Transpose(entries[i].payload.frames) == stems[i]
  {
    var a := Process(env);
    var w := AudioIO.LoadAudio(env.decoded.value, env.resample);
    var stems := env.separate(w.samples).value;
    assert AudioIO.Package(stems, AudioIO.TargetRate, AudioIO.DefaultLabels, env.canEncode) == Success(a.outcome.value);
    AudioIO.PackageRoundTrip(stems, AudioIO.TargetRate, AudioIO.DefaultLabels, env.canEncode);
    if |stems| > |AudioIO.DefaultLabels| {
      AudioIO.LabelShortageFails(stems, AudioIO.TargetRate, AudioIO.DefaultLabels, env.canEncode);
    }
  }

  /** Both versions agree whenever the write succeeds. */
  lemma AsWrittenAgreesWhenWriteSucceeds<E>(filename: string, size: nat, live: set<Path>, env: Environment<E>)
    requires !env.writeFails
    ensures SeparateAsWritten(filename, size, live, env) == Separate(filename, size, live, env)
  {
  }

  /** As written, an admitted upload whose write fails leaves its temporary
      file on disk even though removal would have succeeded. */
  lemma AsWrittenLeaksOnWriteFailure<E>(filename: string, size: nat, live: set<Path>, env: Environment<E>)
    requires Upload.Validate(filename, size).Admit?
    requires !env.createFails && env.writeFails && !env.removeFails
    ensures TempPath(env, filename) in SeparateAsWritten(filename, size, live, env).live
    ensures TempPath(env, filename) !in Separate(filename, size, live, env).live
    ensures RemoveTemp !in SeparateAsWritten(filename, size, live, env).trace
  {
  }
}
