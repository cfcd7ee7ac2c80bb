/**
 * The audio page (audio-compression.js): a batch of at most three audio
 * files, a remove button per file, a reset button, and a compress button
 * that packs every queued file unchanged into one ZIP archive under a
 * `_packed.webm` name, next to a comparison line and a download button per
 * file.
 */
module AudioTool {
  import opened Media
  import opened Batch
  import opened Text

  /** The page takes only candidates whose type starts with `audio/`. */
  predicate IsAudio(f: FileInfo) {
    "audio/" <= f.mime
  }

  /** `name.replace(/\.[^/.]+$/, '_packed.webm')`, the output name of a file. */
  function PackedName(name: string): string {
    ReplaceExtension(name, "_packed.webm")
  }

  /** The name the archive download button saves the ZIP under. */
  const ArchiveName: string := "audios.zip"

  /**
   * The output name replaces the final `.ext` with `_packed.webm`: a name
   * with an extension loses exactly its last dot and what follows, and a
   * name without one (no dot, a dot at the very end, or a `/` after the
   * last dot) is left as it is.
   */
  lemma PackedNameReplacesExtension(name: string)
    ensures HasExtension(name) ==>
              PackedName(name) == name[..LastIndexOf(name, '.')] + "_packed.webm"
    ensures !HasExtension(name) ==> PackedName(name) == name
  {
    ReplaceExtensionAtLastDot(name, "_packed.webm");
  }

  /** `song.mp3` is saved as `song_packed.webm`; any stem and extension alike. */
  lemma PackedNameOfStem(stem: string, ext: string)
    requires |ext| > 0
    requires forall k :: 0 <= k < |ext| ==> ext[k] != '/' && ext[k] != '.'
    ensures PackedName(stem + "." + ext) == stem + "_packed.webm"
  {
    ReplaceExtensionOfStem(stem, ext, "_packed.webm");
  }

  class AudioPage {
    /** The module-level `files` array. */
    var files: seq<Entry>
    /** `compressBtn.disabled`. */
    var compressDisabled: bool
    /** The ZIP download button is shown and enabled. */
    var downloadEnabled: bool
    /** The comparison lines in the output area. */
    var lines: seq<Line>
    /** The archive the ZIP download button saves, once a run has built one. */
    var archive: Option<Archive>

    ghost predicate Valid()
      reads this
    {
      BatchOk(files, IsAudio) && (downloadEnabled ==> archive.Some?)
    }

    /** The page as loaded: nothing queued, compress enabled, no download. */
    constructor ()
      ensures Valid()
      ensures files == [] && lines == [] && archive == None
      ensures !compressDisabled && !downloadEnabled
    {
      files := [];
      compressDisabled := false;
      downloadEnabled := false;
      lines := [];
      archive := None;
    }

    /**
     * `handleFiles(list)`: candidates whose type does not start with
     * `audio/` are skipped; an audio file is pushed while fewer than three
     * are queued; the first one that finds the batch full raises the one
     * alert and ends the loop.
     */
    method HandleFiles(list: seq<FileInfo>) returns (alerts: nat)
      requires Valid()
      modifies this
      ensures Valid()
      ensures files == Intake(old(files), list, IsAudio).files
      ensures alerts == if Intake(old(files), list, IsAudio).alerted then 1 else 0
      ensures compressDisabled == old(compressDisabled) && downloadEnabled == old(downloadEnabled)
      ensures lines == old(lines) && archive == old(archive)
    {
      alerts := 0;
      for i := 0 to |list|
        invariant alerts == 0
        invariant Intake(old(files), list, IsAudio) == Intake(files, list[i..], IsAudio)
        invariant Valid()
        invariant compressDisabled == old(compressDisabled) && downloadEnabled == old(downloadEnabled)
        invariant lines == old(lines) && archive == old(archive)
      {
        var f := list[i];
        assert list[i..][1..] == list[i + 1..];
        if !("audio/" <= f.mime) {
          continue;
        }
        if |files| >= 3 {
          alerts := alerts + 1;
          break;
        }
        files := files + [Entry(f, f.size)];
      }
    }

    /** The remove button of the file at `idx`: `files.splice(idx, 1)`. */
    method Remove(idx: nat)
      requires Valid()
      modifies this`files
      ensures Valid()
      ensures files == RemoveAt(old(files), idx)
    {
      RemoveAtKeepsBatchOk(files, idx, IsAudio);
      if idx < |files| {
        files := files[..idx] + files[idx + 1..];
      }
    }

    /** The reset button: empties the batch and the output, hides the ZIP
        download and enables compress. */
    method Reset()
      requires Valid()
      modifies this
      ensures Valid()
      ensures files == [] && lines == [] && !downloadEnabled && !compressDisabled
      ensures archive == old(archive)
    {
      files := [];
      lines := [];
      downloadEnabled := false;
      compressDisabled := false;
    }

    /**
     * A click on the compress button. The browser delivers none while the
     * button is disabled. With nothing queued the handler only alerts.
     * Otherwise it writes one line and one archive entry per queued file,
     * in batch order, under the `_packed.webm` name, offers the archive and
     * enables compress again.
     */
    method ClickCompress() returns (alerted: bool)
      requires Valid()
      modifies this
      ensures Valid()
      ensures files == old(files)
      ensures old(compressDisabled) ==> !alerted && unchanged(this)
      ensures !old(compressDisabled) && old(files) == [] ==> alerted && unchanged(this)
      ensures !old(compressDisabled) && old(files) != [] ==>
                !alerted && !compressDisabled && downloadEnabled &&
                lines == Lines(files, PackedName) &&
                archive == Some(Archive(ArchiveName, ZipEntries(files, PackedName)))
    {
      alerted := false;
      if compressDisabled {
        return;
      }
      if |files| == 0 {
        alerted := true;
        return;
      }
      compressDisabled := true;
      lines := [];
      downloadEnabled := false;
      var zip: seq<ZipEntry> := [];
      for i := 0 to |files|
        invariant files == old(files) && archive == old(archive)
        invariant compressDisabled && !downloadEnabled
        invariant lines == Lines(files[..i], PackedName)
        invariant zip == ZipEntries(files[..i], PackedName)
      {
        var file := files[i].file;
        var blob := file;
        var afterSize := blob.size;
        var outName := ReplaceExtension(file.name, "_packed.webm");
        assert files[..i + 1][..i] == files[..i];
        lines := lines + [Line(file.name, files[i].originalSize, afterSize, outName)];
        zip := zip + [ZipEntry(outName, blob)];
      }
      assert files[..|files|] == files;
      archive := Some(Archive(ArchiveName, zip));
      downloadEnabled := true;
      compressDisabled := false;
    }
  }

  /**
   * What an audio run offers: one line per queued file, in batch order,
   * with the same size after as before, and the archive holding each file,
   * unchanged, under its `_packed.webm` name.
   */
  lemma AudioRunIsPassthrough(files: seq<Entry>)
    requires BatchOk(files, IsAudio)
    ensures |Lines(files, PackedName)| == |files| == |ZipEntries(files, PackedName)|
    ensures forall k :: 0 <= k < |files| ==>
              var line := Lines(files, PackedName)[k];
              line.name == files[k].file.name &&
              line.saveAs == PackedName(files[k].file.name) &&
              line.afterSize == line.originalSize == files[k].file.size &&
              ZipEntries(files, PackedName)[k] == ZipEntry(line.saveAs, files[k].file)
  {
    PassthroughSizes(files, PackedName, IsAudio);
  }
}
