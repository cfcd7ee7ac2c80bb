/**
 * The PDF page (pdf-compression.js): a batch of at most three PDFs, a
 * remove button per file, a reset button, and a compress button that packs
 * every queued file unchanged into one ZIP archive, next to a comparison
 * line and a download button per file.
 */
module PdfTool {
  import opened Media
  import opened Batch

  /** The page takes only candidates whose type is exactly `application/pdf`. */
  predicate IsPdf(f: FileInfo) {
    f.mime == "application/pdf"
  }

  /** Files enter the archive and are saved under their own names. */
  function KeepName(name: string): string {
    name
  }

  /** The name the archive download button saves the ZIP under. */
  const ArchiveName: string := "compressed-pdfs.zip"

  class PdfPage {
    /** The module-level `files` array. */
    var files: seq<Entry>
    /** `compressBtn.disabled`. */
    var compressDisabled: bool
    /** The ZIP download button is shown and enabled. */
    var downloadEnabled: bool
    /** The comparison lines in the output area. */
    var lines: seq<Line>
    /** The archive the ZIP download button saves, once a run has built one. */
    var archive: Option<Archive>

    ghost predicate Valid()
      reads this
    {
      BatchOk(files, IsPdf) && (downloadEnabled ==> archive.Some?)
    }

    /** The page as loaded: nothing queued, compress enabled, no download. */
    constructor ()
      ensures Valid()
      ensures files == [] && lines == [] && archive == None
      ensures !compressDisabled && !downloadEnabled
    {
      files := [];
      compressDisabled := false;
      downloadEnabled := false;
      lines := [];
      archive := None;
    }

    /**
     * `handleFiles(list)`: non-PDF candidates are skipped; a PDF is pushed
     * while fewer than three are queued; the first PDF that finds the batch
     * full raises the one alert and ends the loop.
     */
    method HandleFiles(list: seq<FileInfo>) returns (alerts: nat)
      requires Valid()
      modifies this
      ensures Valid()
      ensures files == Intake(old(files), list, IsPdf).files
      ensures alerts == if Intake(old(files), list, IsPdf).alerted then 1 else 0
      ensures compressDisabled == old(compressDisabled) && downloadEnabled == old(downloadEnabled)
      ensures lines == old(lines) && archive == old(archive)
    {
      alerts := 0;
      for i := 0 to |list|
        invariant alerts == 0
        invariant Intake(old(files), list, IsPdf) == Intake(files, list[i..], IsPdf)
        invariant Valid()
        invariant compressDisabled == old(compressDisabled) && downloadEnabled == old(downloadEnabled)
        invariant lines == old(lines) && archive == old(archive)
      {
        var file := list[i];
        assert list[i..][1..] == list[i + 1..];
        if file.mime != "application/pdf" {
          continue;
        }
        if |files| >= 3 {
          alerts := alerts + 1;
          break;
        }
        files := files + [Entry(file, file.size)];
      }
    }

    /** The remove button of the file at `idx`: `files.splice(idx, 1)`. */
    method Remove(idx: nat)
      requires Valid()
      modifies this`files
      ensures Valid()
      ensures files == RemoveAt(old(files), idx)
    {
      RemoveAtKeepsBatchOk(files, idx, IsPdf);
      if idx < |files| {
        files := files[..idx] + files[idx + 1..];
      }
    }

    /** The reset button: empties the batch and the output, hides the ZIP
        download and enables compress. */
    method Reset()
      requires Valid()
      modifies this
      ensures Valid()
      ensures files == [] && lines == [] && !downloadEnabled && !compressDisabled
      ensures archive == old(archive)
    {
      files := [];
      lines := [];
      downloadEnabled := false;
      compressDisabled := false;
    }

    /**
     * A click on the compress button. The browser delivers none while the
     * button is disabled. With nothing queued the handler only alerts.
     * Otherwise it disables compress (only reset enables it again), writes
     * one line and one archive entry per queued file, in batch order, and
     * offers the archive.
     */
    method ClickCompress() returns (alerted: bool)
      requires Valid()
      modifies this
      ensures Valid()
      ensures files == old(files)
      ensures old(compressDisabled) ==> !alerted && unchanged(this)
      ensures !old(compressDisabled) && old(files) == [] ==> alerted && unchanged(this)
      ensures !old(compressDisabled) && old(files) != [] ==>
                !alerted && compressDisabled && downloadEnabled &&
                lines == Lines(files, KeepName) &&
                archive == Some(Archive(ArchiveName, ZipEntries(files, KeepName)))
    {
      alerted := false;
      if compressDisabled {
        return;
      }
      if |files| == 0 {
        alerted := true;
        return;
      }
      compressDisabled := true;
      lines := [];
      downloadEnabled := false;
      var zip: seq<ZipEntry> := [];
      for i := 0 to |files|
        invariant files == old(files) && archive == old(archive)
        invariant compressDisabled && !downloadEnabled
        invariant lines == Lines(files[..i], KeepName)
        invariant zip == ZipEntries(files[..i], KeepName)
      {
        var file := files[i].file;
        var blob := file;
        var afterSize := blob.size;
        assert files[..i + 1][..i] == files[..i];
        lines := lines + [Line(file.name, files[i].originalSize, afterSize, file.name)];
        zip := zip + [ZipEntry(file.name, blob)];
      }
      assert files[..|files|] == files;
      archive := Some(Archive(ArchiveName, zip));
      downloadEnabled := true;
    }
  }

  /**
   * What a PDF run offers: one line per queued file, in batch order, each
   * under the file's own name with the same size after as before, and the
   * archive holding each file, unchanged, under its own name.
   */
  lemma PdfRunIsPassthrough(files: seq<Entry>)
    requires BatchOk(files, IsPdf)
    ensures |Lines(files, KeepName)| == |files| == |ZipEntries(files, KeepName)|
    ensures forall k :: 0 <= k < |files| ==>
              var line := Lines(files, KeepName)[k];
              line.name == line.saveAs == files[k].file.name &&
              line.afterSize == line.originalSize == files[k].file.size &&
              ZipEntries(files, KeepName)[k] == ZipEntry(files[k].file.name, files[k].file)
  {
    PassthroughSizes(files, KeepName, IsPdf);
  }

  /** A drop into a full PDF batch: a non-PDF changes nothing silently,
      a PDF alerts and changes nothing. */
  lemma PdfFullBatch(files: seq<Entry>, f: FileInfo)
    requires |files| == Capacity
    ensures Intake(files, [f], IsPdf) == IntakeResult(files, IsPdf(f))
  {
    if IsPdf(f) {
      IntakeWhenFull(files, [f], IsPdf, 0);
    } else {
      IntakeIgnoresOthers(files, [f], IsPdf);
    }
  }
}
