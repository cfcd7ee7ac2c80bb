/**
 * The logic the PDF and the audio tool share: the bounded list of queued
 * files (at most three), filled by `handleFiles`, shrunk by the remove
 * buttons, and turned into one comparison line and one archive entry per
 * file by the compress handler.
 */
module Batch {
  import opened Media

  /** An element of the `files` array: `{ file, originalSize }`. */
  datatype Entry = Entry(file: FileInfo, originalSize: nat)

  /** One comparison line of the output: the file's name, its size before
      and after, and the name its own download button saves it under. */
  datatype Line = Line(name: string, originalSize: nat, afterSize: nat, saveAs: string)

  /** One `zip.file(name, blob)` call; the blob is the file itself. */
  datatype ZipEntry = ZipEntry(name: string, blob: FileInfo)

  /** The archive bound to the ZIP download button and the name it is saved under. */
  datatype Archive = Archive(fileName: string, entries: seq<ZipEntry>)

  /** Both tools accept at most three files at once. */
  const Capacity: nat := 3

  /** The record `handleFiles` pushes for an accepted file. */
  function EntryOf(f: FileInfo): Entry {
    Entry(f, f.size)
  }

  /** What a batch of the tool that accepts the files `accept` holds at all times. */
  predicate BatchOk(files: seq<Entry>, accept: FileInfo -> bool) {
    |files| <= Capacity &&
    forall k :: 0 <= k < |files| ==>
      accept(files[k].file) && files[k].originalSize == files[k].file.size
  }

  // ---------------------------------------------------------------------
  // handleFiles
  // ---------------------------------------------------------------------

  datatype IntakeResult = IntakeResult(files: seq<Entry>, alerted: bool)

  /**
   * The `handleFiles` loop over the candidates `list`, step by step: a
   * candidate the tool does not accept is skipped; an accepted one is
   * pushed, unless the batch already holds three, in which case the tool
   * alerts and the rest of the list is dropped.
   */
  function Intake(files: seq<Entry>, list: seq<FileInfo>, accept: FileInfo -> bool): IntakeResult
    decreases list
  {
    if list == [] then IntakeResult(files, false)
    else if !accept(list[0]) then Intake(files, list[1..], accept)
    else if |files| >= Capacity then IntakeResult(files, true)
    else Intake(files + [EntryOf(list[0])], list[1..], accept)
  }

  /** The candidates the tool accepts, in their order. */
  function Matching(list: seq<FileInfo>, accept: FileInfo -> bool): (m: seq<FileInfo>)
    ensures |m| <= |list|
    ensures forall k :: 0 <= k < |m| ==> accept(m[k])
    ensures forall k :: 0 <= k < |list| && accept(list[k]) ==> list[k] in m
  {
    if list == [] then []
    else if accept(list[0]) then [list[0]] + Matching(list[1..], accept)
    else Matching(list[1..], accept)
  }

  /** The filter keeps candidate order: filtering two lists one after the
      other is filtering their concatenation. */
  lemma {:induction false} MatchingAppend(a: seq<FileInfo>, b: seq<FileInfo>, accept: FileInfo -> bool)
    ensures Matching(a + b, accept) == Matching(a, accept) + Matching(b, accept)
  {
    if a == [] {
      assert a + b == b;
    } else {
      assert (a + b)[1..] == a[1..] + b;
      MatchingAppend(a[1..], b, accept);
    }
  }

  /** The entries for `fs`, in order. */
  function Entries(fs: seq<FileInfo>): (es: seq<Entry>)
    ensures |es| == |fs|
    ensures forall k :: 0 <= k < |fs| ==> es[k] == EntryOf(fs[k])
  {
    if fs == [] then [] else [EntryOf(fs[0])] + Entries(fs[1..])
  }

  /** How many more files the batch can take. */
  function Room(files: seq<Entry>): nat {
    if |files| >= Capacity then 0 else Capacity - |files|
  }

  /** The first `n` elements of `s`, or all of them when there are fewer. */
  function Take<T>(s: seq<T>, n: nat): (r: seq<T>)
    ensures |r| <= n
  {
    if |s| <= n then s else s[..n]
  }

  /**
   * `handleFiles` in one formula: it appends the entries of the accepted
   * candidates, in order, as many as there is room for, and it alerts
   * exactly when an accepted candidate found no room.
   */
  lemma {:induction false} IntakeClosedForm(files: seq<Entry>, list: seq<FileInfo>, accept: FileInfo -> bool)
    ensures Intake(files, list, accept) ==
            IntakeResult(files + Entries(Take(Matching(list, accept), Room(files))),
                         |Matching(list, accept)| > Room(files))
    decreases list
  {
    if list == [] {
      assert Take(Matching(list, accept), Room(files)) == [];
    } else if !accept(list[0]) {
      IntakeClosedForm(files, list[1..], accept);
    } else if |files| >= Capacity {
      assert Take(Matching(list, accept), Room(files)) == [];
    } else {
      IntakeClosedForm(files + [EntryOf(list[0])], list[1..], accept);
      PushStep(files, list[0], Matching(list[1..], accept));
    }
  }

  /** One accepted candidate that fits: pushing it, then taking from the rest
      with one place less, is taking from the whole. */
  lemma PushStep(files: seq<Entry>, f: FileInfo, rest: seq<FileInfo>)
    requires |files| < Capacity
    ensures Room(files + [EntryOf(f)]) == Room(files) - 1
    ensures (files + [EntryOf(f)]) + Entries(Take(rest, Room(files) - 1))
            == files + Entries(Take([f] + rest, Room(files)))
  {
    var e := EntryOf(f);
    var n := Room(files);
    TakeCons(f, rest, n);
    assert Entries([f] + Take(rest, n - 1)) == [e] + Entries(Take(rest, n - 1));
  }

  lemma TakeCons<T>(x: T, s: seq<T>, n: nat)
    requires n >= 1
    ensures Take([x] + s, n) == [x] + Take(s, n - 1)
  {
    if |s| > n - 1 {
      assert ([x] + s)[..n] == [x] + s[..n - 1];
    }
  }

  /** The batch never holds more than three files after `handleFiles`,
      and only files the tool accepts, each recording its own size. */
  lemma IntakeKeepsBatchOk(files: seq<Entry>, list: seq<FileInfo>, accept: FileInfo -> bool)
    requires BatchOk(files, accept)
    ensures BatchOk(Intake(files, list, accept).files, accept)
  {
    IntakeClosedForm(files, list, accept);
    var m := Matching(list, accept);
    var added := Entries(Take(m, Room(files)));
    assert Take(m, Room(files)) == m[..|Take(m, Room(files))|];
    assert |files + added| <= Capacity;
    forall k | |files| <= k < |files + added|
      ensures accept((files + added)[k].file)
    {
      assert (files + added)[k] == EntryOf(Take(m, Room(files))[k - |files|]);
    }
  }

  /** Earlier entries are untouched and the accepted candidates follow them
      in candidate order: the result is the old batch followed by the
      first accepted candidates. */
  lemma IntakeAppendsInOrder(files: seq<Entry>, list: seq<FileInfo>, accept: FileInfo -> bool)
    ensures var r := Intake(files, list, accept).files;
            var m := Matching(list, accept);
            |files| <= |r| && r[..|files|] == files &&
            |r| - |files| <= |m| &&
            forall k :: |files| <= k < |r| ==> r[k] == EntryOf(m[k - |files|])
  {
    IntakeClosedForm(files, list, accept);
    var m := Matching(list, accept);
    assert Take(m, Room(files)) == m[..|Take(m, Room(files))|];
  }

  /** A call whose candidates the tool accepts none of changes nothing and
      does not alert, even when the batch is full. */
  lemma IntakeIgnoresOthers(files: seq<Entry>, list: seq<FileInfo>, accept: FileInfo -> bool)
    requires forall k :: 0 <= k < |list| ==> !accept(list[k])
    ensures Intake(files, list, accept) == IntakeResult(files, false)
  {
    IntakeClosedForm(files, list, accept);
    assert Matching(list, accept) == [] by {
      MatchingNoneAccepted(list, accept);
    }
  }

  lemma {:induction false} MatchingNoneAccepted(list: seq<FileInfo>, accept: FileInfo -> bool)
    requires forall k :: 0 <= k < |list| ==> !accept(list[k])
    ensures Matching(list, accept) == []
  {
    if list != [] {
      MatchingNoneAccepted(list[1..], accept);
    }
  }

  /** With a full batch, any accepted candidate in the list makes the call
      alert and leaves the batch as it was. */
  lemma IntakeWhenFull(files: seq<Entry>, list: seq<FileInfo>, accept: FileInfo -> bool, k: nat)
    requires |files| >= Capacity
    requires k < |list| && accept(list[k])
    ensures Intake(files, list, accept) == IntakeResult(files, true)
  {
    IntakeClosedForm(files, list, accept);
    assert list[k] in Matching(list, accept);
  }

  // ---------------------------------------------------------------------
  // remove button: files.splice(idx, 1)
  // ---------------------------------------------------------------------

  /** `s.splice(i, 1)` for an index `i >= 0`: an index past the end removes nothing. */
  function RemoveAt<T>(s: seq<T>, i: nat): seq<T> {
    if i < |s| then s[..i] + s[i + 1..] else s
  }

  /** Removing at a valid index deletes exactly that element and keeps the
      others in their order; any other index leaves the list as it is. */
  lemma RemoveAtDeletesOne<T>(s: seq<T>, i: nat)
    ensures i < |s| ==>
      var r := RemoveAt(s, i);
      |r| == |s| - 1 &&
      (forall k :: 0 <= k < i ==> r[k] == s[k]) &&
      (forall k :: i <= k < |r| ==> r[k] == s[k + 1]) &&
      multiset(r) + multiset{s[i]} == multiset(s)
    ensures i >= |s| ==> RemoveAt(s, i) == s
  {
    if i < |s| {
      assert s == s[..i] + [s[i]] + s[i + 1..];
    }
  }

  lemma RemoveAtKeepsBatchOk(files: seq<Entry>, i: nat, accept: FileInfo -> bool)
    requires BatchOk(files, accept)
    ensures BatchOk(RemoveAt(files, i), accept)
  {
    RemoveAtDeletesOne(files, i);
  }

  // ---------------------------------------------------------------------
  // compress handler: one line and one archive entry per queued file
  // ---------------------------------------------------------------------

  /** The comparison line for one queued file: the blob is the file itself,
      so its size after is the file's size. */
  function LineOf(e: Entry, rename: string -> string): Line {
    Line(e.file.name, e.originalSize, e.file.size, rename(e.file.name))
  }

  /** The lines the compress loop writes for `files`, in batch order. */
  function Lines(files: seq<Entry>, rename: string -> string): (r: seq<Line>)
    ensures |r| == |files|
    ensures forall k :: 0 <= k < |files| ==> r[k] == LineOf(files[k], rename)
  {
    if files == [] then []
    else Lines(files[..|files| - 1], rename) + [LineOf(files[|files| - 1], rename)]
  }

  /** The archive entries the compress loop adds for `files`, in batch order:
      each file under its output name, its bytes unchanged. */
  function ZipEntries(files: seq<Entry>, rename: string -> string): (r: seq<ZipEntry>)
    ensures |r| == |files|
    ensures forall k :: 0 <= k < |files| ==>
              r[k] == ZipEntry(rename(files[k].file.name), files[k].file)
  {
    if files == [] then []
    else ZipEntries(files[..|files| - 1], rename) +
         [ZipEntry(rename(files[|files| - 1].file.name), files[|files| - 1].file)]
  }

  /** The compression is a passthrough: on a batch kept by `handleFiles`,
      every line shows the same size after as before. */
  lemma PassthroughSizes(files: seq<Entry>, rename: string -> string, accept: FileInfo -> bool)
    requires BatchOk(files, accept)
    ensures forall k :: 0 <= k < |files| ==>
              Lines(files, rename)[k].afterSize == Lines(files, rename)[k].originalSize
  {
  }
}
