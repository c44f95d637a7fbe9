/**
 * The archive walker (`zip_information_extraction`, csv-analyzer.py:19-39).
 *
 * An archive is what `zipfile.ZipFile` makes of some bytes: `Corrupt` when
 * the constructor raises `BadZipFile`, otherwise its file name and its
 * entries in central-directory order. The bytes of an entry are not
 * modelled; each entry carries what the two readers make of them (the
 * pandas passes, a nested `ZipFile`) and whether `archive.open` on its name
 * raises `BadZipFile`. As in `zipfile`, a name is looked up as the LAST
 * entry that has it, while `namelist()` lists every entry.
 */
module ArchiveWalker {
  import opened Optional
  import opened Text
  import opened Inspector

  datatype Entry = Entry(
    name: string,
    size: string,            // convert_size(archive.getinfo(name).file_size)
    readable: bool,          // archive.open(name) does not raise BadZipFile
    asTable: TableSource,    // what the inspector's pandas passes make of the bytes
    asArchive: Archive)      // what zipfile.ZipFile makes of the bytes

  datatype Archive = Corrupt | Zip(filename: string, entries: seq<Entry>)

  /** The result built so far, and whether a `BadZipFile` ended the walk. */
  datatype Progress = Progress(reports: seq<Report>, stopped: bool)

  const MacMetadata: string := "__MACOSX"
  const ZipSuffix: string := ".zip"
  const Separator: string := "\\"

  /** `archive.namelist()`. */
  function NameList(entries: seq<Entry>): (names: seq<string>)
    ensures |names| == |entries|
    ensures forall i :: 0 <= i < |entries| ==> names[i] == entries[i].name
  {
    seq(|entries|, i requires 0 <= i < |entries| => entries[i].name)
  }

  /** The entry `archive.open(name)` and `archive.getinfo(name)` use (the last one with that name, by `FindLast`). */
  function Find(entries: seq<Entry>, name: string): (k: nat)
    requires name in NameList(entries)
    ensures k < |entries| && entries[k].name == name
  {
    var last := |entries| - 1;
    if entries[last].name == name then last
    else
      NameBeforeLast(entries, name);
      Find(entries[..last], name)
  }

  /** No entry after the one found has the name looked up. */
  lemma {:induction false} FindLast(entries: seq<Entry>, name: string)
    requires name in NameList(entries)
    ensures forall j :: Find(entries, name) < j < |entries| ==> entries[j].name != name
  {
    var last := |entries| - 1;
    if entries[last].name != name {
      NameBeforeLast(entries, name);
      FindLast(entries[..last], name);
      assert forall j :: 0 <= j < last ==> entries[j] == entries[..last][j];
    }
  }

  /** A listed name that is not the last entry's is listed among the entries before it. */
  lemma NameBeforeLast(entries: seq<Entry>, name: string)
    requires name in NameList(entries) && entries[|entries| - 1].name != name
    ensures name in NameList(entries[..|entries| - 1])
  {
    var i :| 0 <= i < |entries| && NameList(entries)[i] == name;
    assert NameList(entries[..|entries| - 1])[i] == name;
  }

  /** The filter of csv-analyzer.py:26-27: not under `__MACOSX` and ending with `ext`. */
  predicate Picked(name: string, ext: string) {
    !Contains(name, MacMetadata) && EndsWith(name, ext)
  }

  /** `list(filter(lambda name: Picked(name, ext), names))`. */
  function Filter(names: seq<string>, ext: string): (picked: seq<string>)
    ensures |picked| <= |names|
  {
    if names == [] then []
    else (if Picked(names[0], ext) then [names[0]] else []) + Filter(names[1..], ext)
  }

  /** `csv_files` after the `for ext in extension` loop: one filtered name list per extension, in order. */
  function Selected(names: seq<string>, exts: seq<string>): seq<string> {
    if exts == [] then []
    else Selected(names, exts[..|exts| - 1]) + Filter(names, exts[|exts| - 1])
  }

  /** The filter keeps exactly the picked names. */
  lemma {:induction false} FilterMembers(names: seq<string>, ext: string)
    ensures forall n :: n in Filter(names, ext) <==> n in names && Picked(n, ext)
  {
    if names != [] {
      FilterMembers(names[1..], ext);
      assert names == [names[0]] + names[1..];
    }
  }

  /** A name is selected exactly when it is listed and picked for one of the extensions. */
  lemma {:induction false} SelectedMembers(names: seq<string>, exts: seq<string>)
    ensures forall n :: n in Selected(names, exts) <==> n in names && exists e :: e in exts && Picked(n, e)
  {
    if exts != [] {
      var pre, e := exts[..|exts| - 1], exts[|exts| - 1];
      SelectedMembers(names, pre);
      FilterMembers(names, e);
      assert forall x :: x in exts <==> x in pre || x == e;
    }
  }

  /** The entry of a zip archive that a name opens. */
  function Open(a: Archive, name: string): Entry
    requires a.Zip? && name in NameList(a.entries)
  {
    a.entries[Find(a.entries, name)]
  }

  /** The report of one selected entry, with the given origin as its path. */
  function InspectEntry(a: Archive, name: string, origin: string): Report
    requires a.Zip? && name in NameList(a.entries)
  {
    var e := Open(a, name);
    Inspection(e.asTable, origin, name, e.size)
  }

  /** Every name in `names` is in the archive's name list. */
  ghost predicate Listed(a: Archive, names: seq<string>) {
    a.Zip? && forall n :: n in names ==> n in NameList(a.entries)
  }

  /** The `for csv in csv_files` loop over `names`: stops at the first entry that cannot be opened. */
  function FilePhase(a: Archive, names: seq<string>, origin: string): Progress
    requires Listed(a, names)
  {
    if names == [] then Progress([], false)
    else
      var n := names[|names| - 1];
      var before := FilePhase(a, names[..|names| - 1], origin);
      if before.stopped then before
      else if !Open(a, n).readable then Progress(before.reports, true)
      else Progress(before.reports + [InspectEntry(a, n, origin)], false)
  }

  /** The `for zip in zip_files` loop over `names`: the walks of the nested archives, in order. */
  function ZipPhase(a: Archive, names: seq<string>, exts: seq<string>, origin: string): Progress
    requires Listed(a, names)
    decreases a, 0, |names|
  {
    if names == [] then Progress([], false)
    else
      var n := names[|names| - 1];
      var before := ZipPhase(a, names[..|names| - 1], exts, origin);
      if before.stopped then before
      else if !Open(a, n).readable then Progress(before.reports, true)
      else Progress(before.reports + Walk(Open(a, n).asArchive, exts, Some(origin + Separator + n)), false)
  }

  /** The names the entry loop inspects: `csv_files`. */
  function CsvFiles(a: Archive, exts: seq<string>): (csvFiles: seq<string>)
    requires a.Zip?
    ensures Listed(a, csvFiles)
  {
    SelectedMembers(NameList(a.entries), exts);
    Selected(NameList(a.entries), exts)
  }

  /** The names the nested-archive loop walks: `zip_files`. */
  function ZipFiles(a: Archive): (zipFiles: seq<string>)
    requires a.Zip?
    ensures Listed(a, zipFiles)
  {
    FilterMembers(NameList(a.entries), ZipSuffix);
    Filter(NameList(a.entries), ZipSuffix)
  }

  /** The origin reported for the entries of `a`: its file name unless one is given. */
  function Origin(a: Archive, original: Option<string>): string
    requires a.Zip?
  {
    if original.None? then a.filename else original.value
  }

  /** The reports `zip_information_extraction(a, exts, original)` returns. */
  function Walk(a: Archive, exts: seq<string>, original: Option<string>): seq<Report>
    decreases a, 1
  {
    match a
    case Corrupt => []
    case Zip(_, entries) =>
      var origin := Origin(a, original);
      var files := FilePhase(a, CsvFiles(a, exts), origin);
      if files.stopped then files.reports
      else files.reports + ZipPhase(a, ZipFiles(a), exts, origin).reports
  }

  /** Once the file loop has stopped, later names change nothing. */
  lemma {:induction false} FileStopStays(a: Archive, names: seq<string>, origin: string, i: nat)
    requires Listed(a, names) && i <= |names|
    requires FilePhase(a, names[..i], origin).stopped
    ensures FilePhase(a, names, origin) == FilePhase(a, names[..i], origin)
  {
    if i < |names| {
      var pre := names[..|names| - 1];
      assert pre[..i] == names[..i];
      FileStopStays(a, pre, origin, i);
    } else {
      assert names[..i] == names;
    }
  }

  /** Once the nested-archive loop has stopped, later names change nothing. */
  lemma {:induction false} ZipStopStays(a: Archive, names: seq<string>, exts: seq<string>, origin: string, i: nat)
    requires Listed(a, names) && i <= |names|
    requires ZipPhase(a, names[..i], exts, origin).stopped
    ensures ZipPhase(a, names, exts, origin) == ZipPhase(a, names[..i], exts, origin)
  {
    if i < |names| {
      var pre := names[..|names| - 1];
      assert pre[..i] == names[..i];
      ZipStopStays(a, pre, exts, origin, i);
    } else {
      assert names[..i] == names;
    }
  }

  /** The `for ext in extension` loop that builds `csv_files`. */
  method CollectCsvFiles(names: seq<string>, exts: seq<string>) returns (csvFiles: seq<string>)
    ensures csvFiles == Selected(names, exts)
  {
    csvFiles := [];
    for i := 0 to |exts|
      invariant csvFiles == Selected(names, exts[..i])
    {
      assert exts[..i + 1][..i] == exts[..i];
      csvFiles := csvFiles + Filter(names, exts[i]);
    }
    assert exts[..|exts|] == exts;
  }

  /** The `for csv in csv_files` loop, up to the first `BadZipFile`. */
  method InspectFiles(a: Archive, csvFiles: seq<string>, origin: string) returns (p: Progress)
    requires Listed(a, csvFiles)
    ensures p == FilePhase(a, csvFiles, origin)
  {
    var res := [];
    for i := 0 to |csvFiles|
      invariant FilePhase(a, csvFiles[..i], origin) == Progress(res, false)
    {
      assert csvFiles[..i + 1][..i] == csvFiles[..i];
      var entry := a.entries[Find(a.entries, csvFiles[i])];
      if !entry.readable {
        FileStopStays(a, csvFiles, origin, i + 1);
        return Progress(res, true);
      }
      var report := ExtractCsvInformation(entry.asTable, origin, csvFiles[i], entry.size);
      res := res + [report];
    }
    assert csvFiles[..|csvFiles|] == csvFiles;
    p := Progress(res, false);
  }

  /** The `for zip in zip_files` loop, up to the first `BadZipFile`. */
  method WalkNested(a: Archive, zipFiles: seq<string>, exts: seq<string>, origin: string)
    returns (p: Progress)
    requires Listed(a, zipFiles)
    ensures p == ZipPhase(a, zipFiles, exts, origin)
    decreases a, 0
  {
    var res := [];
    for i := 0 to |zipFiles|
      invariant ZipPhase(a, zipFiles[..i], exts, origin) == Progress(res, false)
    {
      assert zipFiles[..i + 1][..i] == zipFiles[..i];
      var entry := a.entries[Find(a.entries, zipFiles[i])];
      if !entry.readable {
        ZipStopStays(a, zipFiles, exts, origin, i + 1);
        return Progress(res, true);
      }
      var nested := ExtractZipInformation(entry.asArchive, exts, Some(origin + Separator + zipFiles[i]));
      res := res + nested;
    }
    assert zipFiles[..|zipFiles|] == zipFiles;
    p := Progress(res, false);
  }

  /** `zip_information_extraction(file, extension, original_file)` */
  method ExtractZipInformation(a: Archive, exts: seq<string>, original: Option<string>)
    returns (res: seq<Report>)
    ensures res == Walk(a, exts, original)
    decreases a, 1
  {
    if a.Corrupt? {
      return [];
    }
    var names := NameList(a.entries);
    var origin := Origin(a, original);
    var csvFiles := CollectCsvFiles(names, exts);
    var zipFiles := Filter(names, ZipSuffix);
    assert csvFiles == CsvFiles(a, exts) && zipFiles == ZipFiles(a);
    var files := InspectFiles(a, csvFiles, origin);
    if files.stopped {
      return files.reports;
    }
    var nested := WalkNested(a, zipFiles, exts, origin);
    res := files.reports + nested.reports;
  }
}
