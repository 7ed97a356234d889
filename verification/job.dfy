/**
 * The step order of `compress_video` in compress_video.c: probe the duration,
 * allocate the bitrates, choose the output name, run the encoder. Each
 * failure ends the job at once. Child processes are abstracted as the
 * outcomes they report.
 */
module Job {
  import opened Results
  import opened Bitrate
  import opened OutputName

  /** A Win32 process exit code (a DWORD). */
  type ExitCode = c: int | 0 <= c < 0x1_0000_0000

  /** What the duration prober did: whether it started, how it exited, and the number its output parsed to. */
  datatype ProbeRun = ProbeRun(launched: bool, exitCode: ExitCode, parsedDuration: real)

  /** What the encoder did once asked to run. */
  datatype EncoderRun = EncoderRun(launched: bool, exitCode: ExitCode)

  /** The encoder invocation: input path, the two bitrates, output path. */
  datatype EncoderCommand = EncoderCommand(input: string, videoBps: int, audioBps: int, output: string)

  /** Why a job ended without an output file; every one of these ends the process with status 1. */
  datatype JobError =
    | ProbeLaunchFailed
    | ProbeExitNonZero(code: ExitCode)
    | InvalidDuration(parsed: real)
    | BudgetTooSmall
    | NoExtension
    | EncodeLaunchFailed
    | EncodeExitNonZero(code: ExitCode)

  /** `get_video_duration`: any duration it hands on is positive. */
  function ProbeDuration(probe: ProbeRun): (r: Result<real, JobError>)
    ensures r.Success? <==> probe.launched && probe.exitCode == 0 && probe.parsedDuration > 0.0
    ensures r.Success? ==> r.value > 0.0 && r.value == probe.parsedDuration
    ensures !probe.launched ==> r == Failure(ProbeLaunchFailed)
    ensures probe.launched && probe.exitCode != 0 ==> r == Failure(ProbeExitNonZero(probe.exitCode))
    ensures r.Failure? && probe.launched && probe.exitCode == 0 ==> r.error == InvalidDuration(probe.parsedDuration)
  {
    if !probe.launched then Failure(ProbeLaunchFailed)
    else if probe.exitCode != 0 then Failure(ProbeExitNonZero(probe.exitCode))
    else if probe.parsedDuration <= 0.0 then Failure(InvalidDuration(probe.parsedDuration))
    else Success(probe.parsedDuration)
  }

  /**
   * Everything `compress_video` does before it starts the encoder. It gets
   * that far exactly when every earlier check passed, and then asks for the
   * allocated rates and the resolved, not yet existing, name.
   */
  function PrepareEncode(path: string, sizeMb: real, existing: set<string>, probe: ProbeRun): (r: Result<EncoderCommand, JobError>)
    ensures r.Success? <==>
      && probe.launched && probe.exitCode == 0 && probe.parsedDuration > 0.0
      && sizeMb * BitsPerMegabyte > AudioBitrate * probe.parsedDuration
      && '.' in path
    ensures r.Success? ==>
      && r.value.input == path
      && r.value.videoBps == Truncate(VideoBitrate(sizeMb, probe.parsedDuration))
      && r.value.videoBps >= 0
      && r.value.audioBps == 128000
      && r.value.output == OutputPathFor(path, existing).value
      && r.value.output !in existing
  {
    match ProbeDuration(probe)
    case Failure(e) => Failure(e)
    case Success(duration) =>
      match Allocate(sizeMb, duration)
      case None => Failure(BudgetTooSmall)
      case Some(plan) =>
        match OutputPathFor(path, existing)
        case None => Failure(NoExtension)
        case Some(output) => Success(EncoderCommand(path, plan.videoBps, plan.audioBps, output))
  }

  /** Starting the encoder and waiting for it: only a clean exit is a success. */
  function RunEncoder(command: EncoderCommand, run: EncoderRun): (r: Result<string, JobError>)
    ensures r.Success? <==> run.launched && run.exitCode == 0
    ensures r.Success? ==> r.value == command.output
  {
    if !run.launched then Failure(EncodeLaunchFailed)
    else if run.exitCode != 0 then Failure(EncodeExitNonZero(run.exitCode))
    else Success(command.output)
  }

  /**
   * `compress_video`: the path of the compressed file, or the first failure
   * met. It succeeds exactly when every step succeeds, and then names the
   * resolved output file, which did not exist.
   */
  function CompressVideo(path: string, sizeMb: real, existing: set<string>, probe: ProbeRun, encoder: EncoderRun): (r: Result<string, JobError>)
    ensures r.Success? <==>
      && probe.launched && probe.exitCode == 0 && probe.parsedDuration > 0.0
      && sizeMb * BitsPerMegabyte > AudioBitrate * probe.parsedDuration
      && '.' in path
      && encoder.launched && encoder.exitCode == 0
    ensures r.Success? ==> r.value == OutputPathFor(path, existing).value && r.value !in existing
  {
    match PrepareEncode(path, sizeMb, existing, probe)
    case Failure(e) => Failure(e)
    case Success(command) => RunEncoder(command, encoder)
  }

  /**
   * A failed probe ends the job with that failure, whatever the budget, the
   * name or the encoder would have done; the exit code is judged before the
   * parsed duration.
   */
  lemma ProbeFailureEndsJob(path: string, sizeMb: real, existing: set<string>, probe: ProbeRun, encoder: EncoderRun)
    requires ProbeDuration(probe).Failure?
    ensures CompressVideo(path, sizeMb, existing, probe, encoder) == Failure(ProbeDuration(probe).error)
    ensures !probe.launched ==> CompressVideo(path, sizeMb, existing, probe, encoder) == Failure(ProbeLaunchFailed)
    ensures probe.launched && probe.exitCode != 0 ==>
      CompressVideo(path, sizeMb, existing, probe, encoder) == Failure(ProbeExitNonZero(probe.exitCode))
    ensures probe.launched && probe.exitCode == 0 ==>
      CompressVideo(path, sizeMb, existing, probe, encoder) == Failure(InvalidDuration(probe.parsedDuration))
  {
  }

  /** A budget too small is reported before the output name is looked at, even for a path without an extension. */
  lemma BudgetCheckPrecedesNaming(path: string, sizeMb: real, existing: set<string>, probe: ProbeRun, encoder: EncoderRun)
    requires ProbeDuration(probe).Success?
    requires sizeMb * BitsPerMegabyte <= AudioBitrate * probe.parsedDuration
    ensures CompressVideo(path, sizeMb, existing, probe, encoder) == Failure(BudgetTooSmall)
  {
  }

  /** A path without '.' fails once duration and budget are good, before the encoder runs. */
  lemma NoExtensionPrecedesEncoding(path: string, sizeMb: real, existing: set<string>, probe: ProbeRun, encoder: EncoderRun)
    requires ProbeDuration(probe).Success?
    requires sizeMb * BitsPerMegabyte > AudioBitrate * probe.parsedDuration
    requires '.' !in path
    ensures CompressVideo(path, sizeMb, existing, probe, encoder) == Failure(NoExtension)
  {
  }

  /** When preparation fails, what the encoder would have done makes no difference: it is never started. */
  lemma EncoderIrrelevantWhenPreparationFails(path: string, sizeMb: real, existing: set<string>, probe: ProbeRun, first: EncoderRun, second: EncoderRun)
    requires PrepareEncode(path, sizeMb, existing, probe).Failure?
    ensures CompressVideo(path, sizeMb, existing, probe, first) == CompressVideo(path, sizeMb, existing, probe, second)
    ensures CompressVideo(path, sizeMb, existing, probe, first) == Failure(PrepareEncode(path, sizeMb, existing, probe).error)
  {
  }

  /** An encoder that could not be started, or that exited non-zero, ends a fully prepared job with that failure. */
  lemma EncoderFailureIsTerminal(path: string, sizeMb: real, existing: set<string>, probe: ProbeRun, encoder: EncoderRun)
    requires PrepareEncode(path, sizeMb, existing, probe).Success?
    ensures !encoder.launched ==> CompressVideo(path, sizeMb, existing, probe, encoder) == Failure(EncodeLaunchFailed)
    ensures encoder.launched && encoder.exitCode != 0 ==>
      CompressVideo(path, sizeMb, existing, probe, encoder) == Failure(EncodeExitNonZero(encoder.exitCode))
  {
  }

  /** A probe that printed nothing usable parses to 0, which is rejected. */
  lemma ZeroDurationRejected()
    ensures ProbeDuration(ProbeRun(true, 0, 0.0)) == Failure(InvalidDuration(0.0))
  {
  }

  /** Five megabytes of a ten-second "a.mp4" with no name clash and a clean encoder run. */
  lemma FiveMegabyteJob()
    ensures PrepareEncode("a.mp4", 5.0, {}, ProbeRun(true, 0, 10.0))
         == Success(EncoderCommand("a.mp4", 4066304, 128000, "a_compressed.mp4"))
    ensures CompressVideo("a.mp4", 5.0, {}, ProbeRun(true, 0, 10.0), EncoderRun(true, 0)) == Success("a_compressed.mp4")
    ensures CompressVideo("a.mp4", 5.0, {}, ProbeRun(true, 0, 10.0), EncoderRun(true, 1)) == Failure(EncodeExitNonZero(1))
  {
    FiveMegabytesOverTenSeconds();
    assert "a.mp4" == "a" + "." + "mp4";
    SplitAtLastDot("a", "mp4");
    var k := FirstAbsentFrom("a", "mp4", {}, 0);
    FirstAbsentUnique("a", "mp4", {}, 0, k);
    assert Candidate("a", "mp4", 0) == "a_compressed.mp4";
  }
}
