/**
 * The video page (video-compression.js): one selected video at a time, a
 * reset, and a compress button that has the transcoding engine re-encode
 * the video into the same container under a `-compressed` name.
 *
 * The compress handler suspends twice: while the engine loads and while it
 * encodes. The page model therefore splits it at those points
 * (`ClickCompress`, `EngineLoaded`, `EncodingDone`, `EngineFailed`), and
 * the other handlers may run in between, as they can in the browser.
 */
module VideoTool {
  import opened Media
  import opened Text

  // ---------------------------------------------------------------------
  // Names and codec (compressSingle and getExt)
  // ---------------------------------------------------------------------

  /** `getExt(name)`: `name.split('.').pop().toLowerCase()`. It is the
      lower-cased text after the last dot, or the whole name when there is
      no dot, and it never holds a dot. */
  function GetExt(name: string): (ext: string)
    ensures ext == ToLower(name[LastIndexOf(name, '.') + 1..])
    ensures '.' !in ext
  {
    var parts := Split(name, '.');
    var last := parts[|parts| - 1];
    SplitLast(name, '.');
    SplitPiecesLackSep(name, '.');
    ToLowerAvoids(last, '.');
    ToLower(last)
  }

  /** `name.replace(/\.[^/.]+$/, '')`. */
  function BaseName(name: string): string {
    ReplaceExtension(name, "")
  }

  /** The output name `${base}-compressed.${ext}`. */
  function OutputName(name: string): string {
    BaseName(name) + "-compressed." + GetExt(name)
  }

  /** The base name drops exactly the last dot and what follows it when the
      name has an extension, and is the whole name otherwise. */
  lemma BaseNameCutsExtension(name: string)
    ensures HasExtension(name) ==> BaseName(name) == name[..LastIndexOf(name, '.')]
    ensures !HasExtension(name) ==> BaseName(name) == name
  {
    ReplaceExtensionAtLastDot(name, "");
  }

  /** `Clip.MP4` becomes `Clip-compressed.mp4`: for a stem, a dot and an
      extension without `/` or `.`, the output keeps the stem and the
      lower-cased extension. */
  lemma OutputNameOfStem(stem: string, ext: string)
    requires |ext| > 0
    requires forall k :: 0 <= k < |ext| ==> ext[k] != '/' && ext[k] != '.'
    ensures GetExt(stem + "." + ext) == ToLower(ext)
    ensures OutputName(stem + "." + ext) == stem + "-compressed." + ToLower(ext)
  {
    var s := stem + "." + ext;
    LastDotOfStem(stem, ext);
    assert GetExt(s) == ToLower(s[|stem| + 1..]);
    ReplaceExtensionOfStem(stem, ext, "");
    assert BaseName(s) == stem + "";
    assert stem + "" == stem;
  }

  /** A name with no dot is kept whole and also becomes its own extension:
      `movie` gives `movie-compressed.movie`. */
  lemma OutputNameWithoutDot(name: string)
    requires '.' !in name
    ensures GetExt(name) == ToLower(name)
    ensures OutputName(name) == name + "-compressed." + ToLower(name)
  {
    ReplaceExtensionWithout(name, "");
  }

  /** Whatever the name, the output name ends with `.` and the extension
      `getExt` returned. */
  lemma OutputNameEndsWithExt(name: string)
    ensures |OutputName(name)| > |GetExt(name)|
    ensures OutputName(name)[|OutputName(name)| - |GetExt(name)| - 1..] == "." + GetExt(name)
  {
    EndsWithDotExt(BaseName(name), GetExt(name));
  }

  lemma EndsWithDotExt(base: string, ext: string)
    ensures |base + "-compressed." + ext| > |ext|
    ensures (base + "-compressed." + ext)[|base + "-compressed." + ext| - |ext| - 1..] == "." + ext
  {
    var out := base + "-compressed." + ext;
    assert |"-compressed."| == 12 && "-compressed."[11] == '.';
    assert out[|out| - |ext| - 1..] == [out[|base| + 11]] + ext;
  }

  /** The encoder table: `libvpx-vp9` for `webm`, `libx264` for every
      other extension (the `avi`/`mov`/`wmv`/`mkv` branch picks the same). */
  function VideoCodec(ext: string): (codec: string)
    ensures codec == "libvpx-vp9" <==> ext == "webm"
    ensures codec == "libx264" <==> ext != "webm"
  {
    if ext == "webm" then "libvpx-vp9"
    else if ext in ["avi", "mov", "wmv", "mkv"] then "libx264"
    else "libx264"
  }

  /** One engine run: the input file, the output name, the encoder and the
      CRF taken from the quality buttons. */
  datatype Job = Job(input: FileInfo, outputName: string, codec: string, crf: string)

  /** The run `compressSingle` asks of the engine for `file`. */
  function StartJob(file: FileInfo, crf: string): (job: Job)
    ensures job.input == file && job.crf == crf
    ensures job.outputName == OutputName(file.name)
    ensures job.codec == VideoCodec(GetExt(file.name))
    ensures job.codec == "libvpx-vp9" <==> GetExt(file.name) == "webm"
    ensures job.codec == "libx264" <==> GetExt(file.name) != "webm"
  {
    var ext := GetExt(file.name);
    Job(file, BaseName(file.name) + "-compressed." + ext, VideoCodec(ext), crf)
  }

  /** The engine's command line for a run. */
  function EngineArgs(job: Job): (args: seq<string>)
    ensures |args| == 7 && args[1] == job.input.name && args[6] == job.outputName
    ensures args[0] == "-i" && args[2] == "-c:v" && args[4] == "-crf"
    ensures args[3] == job.codec && args[5] == job.crf
  {
    ["-i", job.input.name, "-c:v", job.codec, "-crf", job.crf, job.outputName]
  }

  // ---------------------------------------------------------------------
  // The page
  // ---------------------------------------------------------------------

  /** The encoded video: named after the output, typed like the input. */
  datatype Blob = Blob(name: string, mime: string, size: nat)

  /** The sizes the output area reports. */
  datatype Report = Report(origSize: nat, newSize: nat)

  /** Where the compress handler is: not running, suspended while the engine
      loads, suspended while it encodes, or ended by an exception. */
  datatype Phase = Idle | LoadingEngine | Encoding(job: Job) | Failed

  class VideoPage {
    /** The module-level `selectedFile`. */
    var selected: Option<FileInfo>
    /** The module-level `resultBlob`. */
    var result: Option<Blob>
    /** `compressBtn.disabled` and `resetBtn.disabled`. */
    var compressDisabled: bool
    var resetDisabled: bool
    /** The download button is shown and enabled. */
    var downloadEnabled: bool
    /** The size comparison in the output area. */
    var report: Option<Report>
    var phase: Phase

    /** Both buttons are disabled exactly while a compression is under way
        or after one failed; the download button is only offered with a
        result to save. */
    ghost predicate Valid()
      reads this
    {
      compressDisabled == resetDisabled &&
      (phase == Idle <==> !compressDisabled) &&
      (downloadEnabled ==> result.Some?)
    }

    /** The page as loaded. */
    constructor ()
      ensures Valid()
      ensures selected == None && result == None && report == None && phase == Idle
      ensures !compressDisabled && !downloadEnabled
    {
      selected := None;
      result := None;
      compressDisabled := false;
      resetDisabled := false;
      downloadEnabled := false;
      report := None;
      phase := Idle;
    }

    /** `handleFile(file)`: a missing file changes nothing; otherwise it
        replaces the selection, so at most one file is ever held. */
    method HandleFile(file: Option<FileInfo>)
      requires Valid()
      modifies this`selected
      ensures Valid()
      ensures selected == if file.Some? then file else old(selected)
    {
      if file.None? {
        return;
      }
      selected := file;
    }

    /** `resetAll()`, run by the reset button and by the remove button of the
        listed file: it drops the selection, the result, the report and the
        download, and touches neither the compress and reset buttons nor a
        running compression. A second call changes nothing. */
    method ResetAll()
      requires Valid()
      modifies this
      ensures Valid()
      ensures selected == None && result == None && report == None && !downloadEnabled
      ensures compressDisabled == old(compressDisabled) && resetDisabled == old(resetDisabled)
      ensures phase == old(phase)
      ensures (old(selected) == None && old(result) == None && old(report) == None &&
               !old(downloadEnabled)) ==> unchanged(this)
    {
      selected := None;
      result := None;
      downloadEnabled := false;
      report := None;
    }

    /** A click on the reset button; the browser delivers none while it is
        disabled. */
    method ClickReset()
      requires Valid()
      modifies this
      ensures Valid()
      ensures old(resetDisabled) ==> unchanged(this)
      ensures !old(resetDisabled) ==>
                selected == None && result == None && report == None && !downloadEnabled &&
                phase == old(phase) && !compressDisabled
    {
      if resetDisabled {
        return;
      }
      ResetAll();
    }

    /** A click on the compress button, up to the engine load. Without a
        selection it only alerts; otherwise it disables both buttons and
        suspends on the load. */
    method ClickCompress() returns (alerted: bool)
      requires Valid()
      modifies this
      ensures Valid()
      ensures old(compressDisabled) ==> !alerted && unchanged(this)
      ensures !old(compressDisabled) && old(selected).None? ==> alerted && unchanged(this)
      ensures !old(compressDisabled) && old(selected).Some? ==>
                !alerted && phase == LoadingEngine && compressDisabled && resetDisabled &&
                selected == old(selected) && result == old(result) &&
                report == old(report) && downloadEnabled == old(downloadEnabled)
    {
      alerted := false;
      if compressDisabled {
        return;
      }
      if selected.None? {
        alerted := true;
        return;
      }
      compressDisabled, resetDisabled := true, true;
      phase := LoadingEngine;
    }

    /**
     * The engine has loaded: the handler reads the selection as it is now
     * and starts the run, returning the engine's command line. If the
     * selection was cleared during the load, `compressSingle` fails on the
     * missing file and the handler ends there, leaving both buttons disabled.
     */
    method EngineLoaded(crf: string) returns (args: Option<seq<string>>)
      requires Valid()
      modifies this`phase
      ensures Valid()
      ensures old(phase) != LoadingEngine ==> args == None && phase == old(phase)
      ensures old(phase) == LoadingEngine && selected.None? ==> args == None && phase == Failed
      ensures old(phase) == LoadingEngine && selected.Some? ==>
                var job := StartJob(selected.value, crf);
                phase == Encoding(job) && args == Some(EngineArgs(job))
    {
      args := None;
      if phase != LoadingEngine {
        return;
      }
      if selected.None? {
        phase := Failed;
        return;
      }
      var job := StartJob(selected.value, crf);
      phase := Encoding(job);
      args := Some(EngineArgs(job));
    }

    /** The engine has written the output, of `outputSize` bytes: the result
        is kept under the output name, reported, offered for download, and
        both buttons are enabled again. */
    method EncodingDone(outputSize: nat)
      requires Valid()
      modifies this
      ensures Valid()
      ensures !old(phase).Encoding? ==> unchanged(this)
      ensures old(phase).Encoding? ==>
                var job := old(phase).job;
                result == Some(Blob(job.outputName, job.input.mime, outputSize)) &&
                report == Some(Report(job.input.size, outputSize)) &&
                downloadEnabled && !compressDisabled && !resetDisabled &&
                phase == Idle && selected == old(selected)
    {
      if !phase.Encoding? {
        return;
      }
      var job := phase.job;
      result := Some(Blob(job.outputName, job.input.mime, outputSize));
      report := Some(Report(job.input.size, outputSize));
      downloadEnabled := true;
      compressDisabled, resetDisabled := false, false;
      phase := Idle;
    }

    /** The engine rejected the load or the run: the handler ends with the
        exception and both buttons stay disabled. */
    method EngineFailed()
      requires Valid()
      modifies this`phase
      ensures Valid()
      ensures old(phase) == LoadingEngine || old(phase).Encoding? ==> phase == Failed
      ensures old(phase) == Idle || old(phase) == Failed ==> phase == old(phase)
    {
      if phase == LoadingEngine || phase.Encoding? {
        phase := Failed;
      }
    }

    /** A click on the download button saves the result under its own name;
        without a result it does nothing. */
    method ClickDownload() returns (saved: Option<Blob>)
      requires Valid()
      ensures downloadEnabled ==> saved == result && saved.Some?
      ensures !downloadEnabled ==> saved == None
    {
      if !downloadEnabled || result.None? {
        return None;
      }
      saved := result;
    }
  }
}
