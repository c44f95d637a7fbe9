/**
 * Properties of the archive walk: which entries are selected and how often,
 * in which order the reports come, which path each one carries, how many
 * there are, and what a `BadZipFile` takes away.
 */
module WalkerLemmas {
  import opened Optional
  import opened Text
  import opened Inspector
  import opened ArchiveWalker

  // ---------------------------------------------------------------------
  // Entry selection

  /** How many of `exts` the name ends with. */
  function Matches(name: string, exts: seq<string>): (count: nat)
    ensures count <= |exts|
    ensures count == 0 <==> forall e :: e in exts ==> !EndsWith(name, e)
  {
    if exts == [] then 0
    else
      var e := exts[|exts| - 1];
      assert forall x :: x in exts <==> x in exts[..|exts| - 1] || x == e;
      Matches(name, exts[..|exts| - 1]) + if EndsWith(name, e) then 1 else 0
  }

  /** Filtering keeps each occurrence of a picked name and drops every other. */
  lemma {:induction false} FilterMultiplicity(names: seq<string>, ext: string, n: string)
    ensures multiset(Filter(names, ext))[n] == if Picked(n, ext) then multiset(names)[n] else 0
  {
    if names != [] {
      var head, rest := names[0], names[1..];
      var kept := if Picked(head, ext) then [head] else [];
      FilterMultiplicity(rest, ext, n);
      assert Filter(names, ext) == kept + Filter(rest, ext);
      ConsCount(names, n);
      AppendCount(kept, Filter(rest, ext), n);
      if head == n {
        assert multiset(kept)[n] == if Picked(n, ext) then 1 else 0;
      } else {
        assert multiset(kept)[n] == 0;
      }
    }
  }

  /** Concatenation is associative. */
  lemma Associative<T>(xs: seq<T>, ys: seq<T>, zs: seq<T>)
    ensures (xs + ys) + zs == xs + (ys + zs)
  {
  }

  /** The occurrences of `x` in a non-empty sequence: in its head, then in its tail. */
  lemma ConsCount<T>(xs: seq<T>, x: T)
    requires xs != []
    ensures multiset(xs)[x] == (if xs[0] == x then 1 else 0) + multiset(xs[1..])[x]
  {
    assert xs == [xs[0]] + xs[1..];
  }

  /** The occurrences of `x` in a concatenation. */
  lemma AppendCount<T>(xs: seq<T>, ys: seq<T>, x: T)
    ensures multiset(xs + ys)[x] == multiset(xs)[x] + multiset(ys)[x]
  {
  }

  /** A name outside `__MACOSX` is selected once per occurrence per extension it ends with;
      a name under `__MACOSX` never. */
  lemma {:induction false} SelectedMultiplicity(names: seq<string>, exts: seq<string>, n: string)
    ensures multiset(Selected(names, exts))[n]
         == if Contains(n, MacMetadata) then 0 else multiset(names)[n] * Matches(n, exts)
  {
    if exts != [] {
      var e, pre := exts[|exts| - 1], exts[..|exts| - 1];
      SelectedMultiplicity(names, pre, n);
      FilterMultiplicity(names, e, n);
      var s1, s2 := Selected(names, pre), Filter(names, e);
      assert Selected(names, exts) == s1 + s2;
      assert multiset(s1 + s2)[n] == multiset(s1)[n] + multiset(s2)[n];
      CountStep(multiset(names)[n], Matches(n, pre), Matches(n, exts), Contains(n, MacMetadata), EndsWith(n, e),
                multiset(s1)[n], multiset(s2)[n]);
    } else {
      assert Selected(names, exts) == [];
      CountStep(multiset(names)[n], 0, 0, Contains(n, MacMetadata), false, 0, 0);
    }
  }

  /** The arithmetic of one more extension: `m * c` occurrences so far, plus `m` when it matches. */
  lemma CountStep(m: nat, c: nat, c': nat, mac: bool, ends: bool, before: nat, added: nat)
    requires before == if mac then 0 else m * c
    requires added == if !mac && ends then m else 0
    requires c' == c + if ends then 1 else 0
    ensures before + added == if mac then 0 else m * c'
  {
    if !mac && ends {
      assert m * c' == m * c + m;
    }
  }

  /** Selection is grouped by extension, in the order of the extensions. */
  lemma {:induction false} SelectedByExtension(names: seq<string>, exts1: seq<string>, exts2: seq<string>)
    ensures Selected(names, exts1 + exts2) == Selected(names, exts1) + Selected(names, exts2)
    decreases |exts2|
  {
    if exts2 == [] {
      assert exts1 + exts2 == exts1;
    } else {
      var pre, e := exts2[..|exts2| - 1], exts2[|exts2| - 1];
      var all := exts1 + exts2;
      assert all[..|all| - 1] == exts1 + pre && all[|all| - 1] == e;
      SelectedByExtension(names, exts1, pre);
      assert Selected(names, all) == Selected(names, exts1 + pre) + Filter(names, e);
      assert Selected(names, exts2) == Selected(names, pre) + Filter(names, e);
      Associative(Selected(names, exts1), Selected(names, pre), Filter(names, e));
    }
  }

  /** Within one extension, names keep the `namelist()` order. */
  lemma {:induction false} FilterKeepsOrder(names1: seq<string>, names2: seq<string>, ext: string)
    ensures Filter(names1 + names2, ext) == Filter(names1, ext) + Filter(names2, ext)
  {
    if names1 == [] {
      assert names1 + names2 == names2;
    } else {
      var head := names1[0];
      var kept := if Picked(head, ext) then [head] else [];
      var rest1, rest2 := Filter(names1[1..], ext), Filter(names2, ext);
      assert (names1 + names2)[0] == head && (names1 + names2)[1..] == names1[1..] + names2;
      FilterKeepsOrder(names1[1..], names2, ext);
      assert Filter(names1 + names2, ext) == kept + (rest1 + rest2);
      assert Filter(names1, ext) == kept + rest1;
      Associative(kept, rest1, rest2);
    }
  }

  // ---------------------------------------------------------------------
  // Where a BadZipFile stops the walk

  /** The index of the first name whose `archive.open` raises `BadZipFile`, or |names|. */
  function FirstUnreadable(a: Archive, names: seq<string>): (k: nat)
    requires Listed(a, names)
    ensures k <= |names|
    ensures forall i :: 0 <= i < k ==> Open(a, names[i]).readable
    ensures k < |names| ==> !Open(a, names[k]).readable
  {
    if names == [] then 0
    else if !Open(a, names[0]).readable then 0
    else
      assert forall i :: 1 <= i < |names| ==> names[i] == names[1..][i - 1];
      1 + FirstUnreadable(a, names[1..])
  }

  /** Concatenation of report lists. */
  function Flatten(parts: seq<seq<Report>>): seq<Report> {
    if parts == [] then [] else Flatten(parts[..|parts| - 1]) + parts[|parts| - 1]
  }

  /** The walks of the nested archives named by `names`, each with its extended origin. */
  ghost function NestedWalks(a: Archive, names: seq<string>, exts: seq<string>, origin: string): seq<seq<Report>>
    requires Listed(a, names)
  {
    if names == [] then []
    else
      var n := names[|names| - 1];
      NestedWalks(a, names[..|names| - 1], exts, origin)
        + [Walk(Open(a, n).asArchive, exts, Some(origin + Separator + n))]
  }

  lemma {:induction false} FlattenAppend(xs: seq<seq<Report>>, ys: seq<seq<Report>>)
    ensures Flatten(xs + ys) == Flatten(xs) + Flatten(ys)
    decreases |ys|
  {
    if ys == [] {
      assert xs + ys == xs;
    } else {
      var pre, last := ys[..|ys| - 1], ys[|ys| - 1];
      assert (xs + ys)[..|xs + ys| - 1] == xs + pre && (xs + ys)[|xs + ys| - 1] == last;
      FlattenAppend(xs, pre);
      assert Flatten(xs + ys) == Flatten(xs) + Flatten(pre) + last;
      Associative(Flatten(xs), Flatten(pre), last);
    }
  }

  lemma {:induction false} NestedWalksAppend(a: Archive, xs: seq<string>, ys: seq<string>, exts: seq<string>, origin: string)
    requires Listed(a, xs) && Listed(a, ys)
    ensures Listed(a, xs + ys)
    ensures NestedWalks(a, xs + ys, exts, origin) == NestedWalks(a, xs, exts, origin) + NestedWalks(a, ys, exts, origin)
    decreases |ys|
  {
    if ys == [] {
      assert xs + ys == xs;
    } else {
      assert (xs + ys)[..|xs + ys| - 1] == xs + ys[..|ys| - 1];
      NestedWalksAppend(a, xs, ys[..|ys| - 1], exts, origin);
    }
  }

  /** The entry loop reports the entries before the first unreadable one, in order,
      and stops exactly when there is an unreadable one. */
  lemma {:induction false} FilePhaseUnfolded(a: Archive, names: seq<string>, origin: string)
    requires Listed(a, names)
    ensures var p := FilePhase(a, names, origin);
      var k := FirstUnreadable(a, names);
      && Listed(a, names[..k])
      && p.reports == Inspected(a, names[..k], origin)
      && (p.stopped <==> k < |names|)
  {
    var k := FirstUnreadable(a, names);
    FilePrefix(a, names, origin, k);
    if k == |names| {
      assert names[..k] == names;
    } else {
      var s := names[..k + 1];
      assert s[..k] == names[..k] && s[k] == names[k];
      assert forall n :: n in s ==> n in names;
      FilePhaseLast(a, s, origin);
      FileStopStays(a, names, origin, k + 1);
    }
  }

  /** The reports of the named entries, in order, each with the given origin. */
  function Inspected(a: Archive, names: seq<string>, origin: string): (reports: seq<Report>)
    requires Listed(a, names)
    ensures |reports| == |names|
  {
    if names == [] then []
    else Inspected(a, names[..|names| - 1], origin) + [InspectEntry(a, names[|names| - 1], origin)]
  }

  /** Each report of named entries is that of one of the names, with the given origin. */
  lemma InspectedOrigin(a: Archive, names: seq<string>, origin: string, r: Report)
    requires Listed(a, names) && r in Inspected(a, names, origin)
    ensures r.file in names && r.path == origin && r == InspectEntry(a, r.file, origin)
  {
    InspectedAt(a, names, origin);
    var i :| 0 <= i < |names| && Inspected(a, names, origin)[i] == r;
    assert r == InspectEntry(a, names[i], origin);
  }

  /** The report at each position is that of the name at that position. */
  lemma {:induction false} InspectedAt(a: Archive, names: seq<string>, origin: string)
    requires Listed(a, names)
    ensures forall i :: 0 <= i < |names| ==> Inspected(a, names, origin)[i] == InspectEntry(a, names[i], origin)
  {
    if names != [] {
      var pre := names[..|names| - 1];
      assert forall n :: n in pre ==> n in names;
      InspectedAt(a, pre, origin);
      assert forall i :: 0 <= i < |pre| ==> names[i] == pre[i];
    }
  }

  /** Over a prefix of readable names, the loop runs to the end and reports each of them. */
  lemma {:induction false} FilePrefix(a: Archive, names: seq<string>, origin: string, k: nat)
    requires Listed(a, names) && k <= |names|
    requires forall i :: 0 <= i < k ==> Open(a, names[i]).readable
    ensures Listed(a, names[..k])
    ensures FilePhase(a, names[..k], origin) == Progress(Inspected(a, names[..k], origin), false)
  {
    assert forall n :: n in names[..k] ==> n in names;
    if k > 0 {
      FilePrefix(a, names, origin, k - 1);
      var s := names[..k];
      assert s[..k - 1] == names[..k - 1] && s[k - 1] == names[k - 1];
      FilePhaseLast(a, s, origin);
    }
  }

  /** The entry loop after one more name. */
  lemma FilePhaseLast(a: Archive, names: seq<string>, origin: string)
    requires Listed(a, names) && names != []
    ensures var pre := names[..|names| - 1];
      var last := names[|names| - 1];
      var p, q := FilePhase(a, names, origin), FilePhase(a, pre, origin);
      && (q.stopped ==> p == q)
      && (!q.stopped && !Open(a, last).readable ==> p == Progress(q.reports, true))
      && (!q.stopped && Open(a, last).readable ==> p == Progress(q.reports + [InspectEntry(a, last, origin)], false))
  {
  }

  /** The nested-archive loop returns the walks of the archives before the first unreadable one. */
  lemma {:induction false} ZipPhaseUnfolded(a: Archive, names: seq<string>, exts: seq<string>, origin: string)
    requires Listed(a, names)
    ensures var k := FirstUnreadable(a, names);
      && Listed(a, names[..k])
      && ZipPhase(a, names, exts, origin).reports == Flatten(NestedWalks(a, names[..k], exts, origin))
      && (ZipPhase(a, names, exts, origin).stopped <==> k < |names|)
  {
    var k := FirstUnreadable(a, names);
    ZipPrefix(a, names, exts, origin, k);
    if k == |names| {
      assert names[..k] == names;
    } else {
      var s := names[..k + 1];
      assert s[..k] == names[..k] && s[k] == names[k];
      assert forall n :: n in s ==> n in names;
      ZipPhaseLast(a, s, exts, origin);
      ZipStopStays(a, names, exts, origin, k + 1);
    }
  }

  /** Over a prefix of readable names, the loop runs to the end and yields their nested walks. */
  lemma {:induction false} ZipPrefix(a: Archive, names: seq<string>, exts: seq<string>, origin: string, k: nat)
    requires Listed(a, names) && k <= |names|
    requires forall i :: 0 <= i < k ==> Open(a, names[i]).readable
    ensures Listed(a, names[..k])
    ensures ZipPhase(a, names[..k], exts, origin) == Progress(Flatten(NestedWalks(a, names[..k], exts, origin)), false)
  {
    assert forall n :: n in names[..k] ==> n in names;
    if k > 0 {
      ZipPrefix(a, names, exts, origin, k - 1);
      var s := names[..k];
      assert s[..k - 1] == names[..k - 1] && s[k - 1] == names[k - 1];
      ZipPhaseLast(a, s, exts, origin);
      var nw := NestedWalks(a, s, exts, origin);
      assert nw[..|nw| - 1] == NestedWalks(a, names[..k - 1], exts, origin);
    }
  }

  /** The nested-archive loop after one more name. */
  lemma ZipPhaseLast(a: Archive, names: seq<string>, exts: seq<string>, origin: string)
    requires Listed(a, names) && names != []
    ensures var pre := names[..|names| - 1];
      var last := names[|names| - 1];
      var p, q := ZipPhase(a, names, exts, origin), ZipPhase(a, pre, exts, origin);
      && (q.stopped ==> p == q)
      && (!q.stopped && !Open(a, last).readable ==> p == Progress(q.reports, true))
      && (!q.stopped && Open(a, last).readable ==>
            p == Progress(q.reports + Walk(Open(a, last).asArchive, exts, Some(origin + Separator + last)), false))
  {
  }

  /** The walk of an archive starts with the reports of its selected entries up to the
      first `BadZipFile`, and is nothing more when there was one. */
  lemma WalkOwnFiles(a: Archive, exts: seq<string>, o: string)
    requires a.Zip?
    ensures var sel := CsvFiles(a, exts);
      var k := FirstUnreadable(a, sel);
      var res := Walk(a, exts, Some(o));
      && k <= |res|
      && (forall i :: 0 <= i < k ==> res[i] == InspectEntry(a, sel[i], o))
      && (k < |sel| ==> |res| == k)
  {
    var sel := CsvFiles(a, exts);
    var k := FirstUnreadable(a, sel);
    var files := FilePhase(a, sel, o);
    FilePhaseUnfolded(a, sel, o);
    WalkParts(a, exts, o);
    var res := Walk(a, exts, Some(o));
    assert res[..k] == files.reports;
    PrefixIndex(res, files.reports, k);
    InspectedPrefix(a, sel, o, k);
  }

  /** The reports of the first `k` names are those of each of them. */
  lemma InspectedPrefix(a: Archive, names: seq<string>, origin: string, k: nat)
    requires Listed(a, names) && k <= |names|
    ensures Listed(a, names[..k])
    ensures forall i :: 0 <= i < k ==> Inspected(a, names[..k], origin)[i] == InspectEntry(a, names[i], origin)
  {
    assert forall n :: n in names[..k] ==> n in names;
    InspectedAt(a, names[..k], origin);
    assert forall i :: 0 <= i < k ==> names[..k][i] == names[i];
  }

  /** A sequence agrees at each index below `k` with its prefix of length `k`. */
  lemma PrefixIndex<T>(xs: seq<T>, ys: seq<T>, k: nat)
    requires k <= |xs| && xs[..k] == ys
    ensures forall i :: 0 <= i < k ==> xs[i] == ys[i]
  {
  }

  /** When no selected entry raised `BadZipFile`, the rest of the walk is the walks of the
      nested archives up to the first that cannot be opened. */
  lemma WalkNestedArchives(a: Archive, exts: seq<string>, o: string)
    requires a.Zip?
    ensures var sel := CsvFiles(a, exts);
      var zs := ZipFiles(a);
      var k := FirstUnreadable(a, sel);
      var res := Walk(a, exts, Some(o));
      k == |sel| ==>
        && k <= |res|
        && Listed(a, zs[..FirstUnreadable(a, zs)])
        && res[k..] == Flatten(NestedWalks(a, zs[..FirstUnreadable(a, zs)], exts, o))
  {
    var sel := CsvFiles(a, exts);
    var k := FirstUnreadable(a, sel);
    if k == |sel| {
      var zs := ZipFiles(a);
      var files := FilePhase(a, sel, o);
      FilePhaseUnfolded(a, sel, o);
      WalkParts(a, exts, o);
      ZipPhaseUnfolded(a, zs, exts, o);
      var res := Walk(a, exts, Some(o));
      assert res == files.reports + ZipPhase(a, zs, exts, o).reports && |files.reports| == k;
      assert res[k..] == ZipPhase(a, zs, exts, o).reports;
    }
  }

  /** An archive `zipfile` cannot open contributes nothing. */
  lemma CorruptArchive(exts: seq<string>, original: Option<string>)
    ensures Walk(Corrupt, exts, original) == []
  {
  }

  /** With no override, the origin is the archive's own file name. */
  lemma DefaultOrigin(a: Archive, exts: seq<string>)
    requires a.Zip?
    ensures Walk(a, exts, None) == Walk(a, exts, Some(a.filename))
  {
  }

  /** A corrupt nested archive adds nothing to the nested walks: those of its siblings,
      before and after it, are all still there, in order. */
  lemma CorruptNestedDropped(a: Archive, names: seq<string>, exts: seq<string>, o: string, j: nat)
    requires Listed(a, names) && j < |names|
    requires Open(a, names[j]).asArchive.Corrupt?
    ensures Listed(a, names[..j]) && Listed(a, names[j + 1..])
    ensures Flatten(NestedWalks(a, names, exts, o))
         == Flatten(NestedWalks(a, names[..j], exts, o)) + Flatten(NestedWalks(a, names[j + 1..], exts, o))
  {
    NestedWalksSplit(a, names, exts, o, j);
    assert NestedWalks(a, [names[j]], exts, o) == [[]];
    FlattenDropEmpty(NestedWalks(a, names[..j], exts, o), NestedWalks(a, names[j + 1..], exts, o));
  }

  /** The nested walks of a list are those before position `j`, at `j`, and after it. */
  lemma NestedWalksSplit(a: Archive, names: seq<string>, exts: seq<string>, o: string, j: nat)
    requires Listed(a, names) && j < |names|
    ensures Listed(a, names[..j]) && Listed(a, [names[j]]) && Listed(a, names[j + 1..])
    ensures NestedWalks(a, names, exts, o)
         == NestedWalks(a, names[..j], exts, o) + NestedWalks(a, [names[j]], exts, o)
          + NestedWalks(a, names[j + 1..], exts, o)
  {
    var before, here, after := names[..j], [names[j]], names[j + 1..];
    assert forall n :: n in before ==> n in names;
    assert forall n :: n in after ==> n in names;
    assert names == before + here + after;
    NestedWalksAppend(a, before, here, exts, o);
    NestedWalksAppend(a, before + here, after, exts, o);
  }

  /** An empty part adds nothing to a concatenation. */
  lemma FlattenDropEmpty(xs: seq<seq<Report>>, ys: seq<seq<Report>>)
    ensures Flatten(xs + [[]] + ys) == Flatten(xs) + Flatten(ys)
  {
    FlattenAppend(xs + [[]], ys);
    assert (xs + [[]])[..|xs|] == xs;
  }

  // ---------------------------------------------------------------------
  // Provenance: which entry each report comes from, and with which path

  /** A path of nested `.zip` entries, each opened without error, starting at `a`. */
  ghost predicate Chain(a: Archive, chain: seq<string>)
    decreases |chain|
  {
    chain == []
    || (a.Zip? && chain[0] in ZipFiles(a) && Open(a, chain[0]).readable
        && Chain(Open(a, chain[0]).asArchive, chain[1..]))
  }

  /** The archive reached by following a chain. */
  ghost function Descend(a: Archive, chain: seq<string>): Archive
    requires Chain(a, chain)
    decreases |chain|
  {
    if chain == [] then a else Descend(Open(a, chain[0]).asArchive, chain[1..])
  }

  /** The origin followed by "\\" and each entry name of the chain in turn. */
  function Nest(origin: string, chain: seq<string>): string
    decreases |chain|
  {
    if chain == [] then origin else Nest(origin + Separator + chain[0], chain[1..])
  }

  /** A nested path starts with its origin, and with the origin and "\\" when it is nested at all. */
  lemma {:induction false} NestExtends(origin: string, chain: seq<string>)
    ensures |origin| <= |Nest(origin, chain)| && Nest(origin, chain)[..|origin|] == origin
    ensures chain != [] ==>
      |origin| + 1 <= |Nest(origin, chain)| && Nest(origin, chain)[..|origin| + 1] == origin + Separator
    decreases |chain|
  {
    if chain != [] {
      var next := origin + Separator + chain[0];
      NestExtends(next, chain[1..]);
      assert next[..|origin|] == origin;
      assert next[..|origin| + 1] == origin + Separator;
    }
  }

  /** A nested path is the origin and the chain's entry names joined with "\\". */
  lemma {:induction false} NestJoin(origin: string, chain: seq<string>)
    ensures Nest(origin, chain) == Join(Separator, [origin] + chain)
    decreases |chain|
  {
    if chain != [] {
      var next := origin + Separator + chain[0];
      NestJoin(next, chain[1..]);
      assert ([origin] + chain)[1..] == chain;
      if |chain| > 1 {
        assert ([next] + chain[1..])[1..] == chain[1..];
        assert next + Separator + Join(Separator, chain[1..])
            == origin + Separator + (chain[0] + Separator + Join(Separator, chain[1..]));
      }
    }
  }

  /** The report of a selected entry of `d` that opened without error. */
  ghost predicate ReportOf(d: Archive, exts: seq<string>, path: string, r: Report) {
    && d.Zip?
    && r.file in CsvFiles(d, exts)
    && Open(d, r.file).readable
    && r.path == path
    && r == InspectEntry(d, r.file, path)
  }

  /** Every report of the nested-archive loop comes from the walk of one of the named archives. */
  lemma {:induction false} ZipPhaseMembers(a: Archive, names: seq<string>, exts: seq<string>, o: string)
    requires Listed(a, names)
    ensures forall r :: r in ZipPhase(a, names, exts, o).reports ==>
      exists n :: n in names && Open(a, n).readable && r in Walk(Open(a, n).asArchive, exts, Some(o + Separator + n))
  {
    if names != [] {
      var pre := names[..|names| - 1];
      ZipPhaseMembers(a, pre, exts, o);
      assert forall n :: n in pre ==> n in names;
    }
  }

  /** `r` is the report of an entry reached through some chain from `a`, with the chain's nested path. */
  ghost predicate Traced(a: Archive, exts: seq<string>, o: string, r: Report) {
    exists chain :: Chain(a, chain) && ReportOf(Descend(a, chain), exts, Nest(o, chain), r)
  }

  /** The walk of a zip archive is its entry loop's reports, then, unless a `BadZipFile`
      stopped that loop, the nested-archive loop's. */
  lemma WalkParts(a: Archive, exts: seq<string>, o: string)
    requires a.Zip?
    ensures var files := FilePhase(a, CsvFiles(a, exts), o);
      Walk(a, exts, Some(o))
        == files.reports + if files.stopped then [] else ZipPhase(a, ZipFiles(a), exts, o).reports
  {
  }

  /** A report of the archive's own entry loop is that of one of its selected entries. */
  lemma DirectProvenance(a: Archive, exts: seq<string>, o: string, r: Report)
    requires a.Zip? && r in FilePhase(a, CsvFiles(a, exts), o).reports
    ensures Traced(a, exts, o, r)
  {
    var sel := CsvFiles(a, exts);
    var files := FilePhase(a, sel, o);
    var k := FirstUnreadable(a, sel);
    FilePhaseUnfolded(a, sel, o);
    InspectedOrigin(a, sel[..k], o, r);
    var j :| 0 <= j < k && sel[..k][j] == r.file;
    assert sel[j] == r.file;
    assert Chain(a, []) && ReportOf(Descend(a, []), exts, Nest(o, []), r);
  }

  /** A chain into a nested archive extends to a chain from its parent. */
  lemma NestedProvenance(a: Archive, exts: seq<string>, o: string, n: string, r: Report)
    requires a.Zip? && n in ZipFiles(a) && Open(a, n).readable
    requires Traced(Open(a, n).asArchive, exts, o + Separator + n, r)
    ensures Traced(a, exts, o, r)
  {
    var child := Open(a, n).asArchive;
    var rest :| Chain(child, rest) && ReportOf(Descend(child, rest), exts, Nest(o + Separator + n, rest), r);
    ReportThroughParent(a, n, rest, exts, o, r);
  }

  /** A report reached through a chain from a nested archive is reached from its parent
      through the chain with the nested entry in front. */
  lemma ReportThroughParent(a: Archive, n: string, rest: seq<string>, exts: seq<string>, o: string, r: Report)
    requires a.Zip? && n in ZipFiles(a) && Open(a, n).readable
    requires Chain(Open(a, n).asArchive, rest)
    requires ReportOf(Descend(Open(a, n).asArchive, rest), exts, Nest(o + Separator + n, rest), r)
    ensures Chain(a, [n] + rest) && ReportOf(Descend(a, [n] + rest), exts, Nest(o, [n] + rest), r)
  {
    ChainCons(a, n, rest, o);
  }

  /** A chain from a readable nested `.zip` entry, with that entry in front, is a chain from the parent. */
  lemma ChainCons(a: Archive, n: string, rest: seq<string>, o: string)
    requires a.Zip? && n in ZipFiles(a) && Open(a, n).readable
    requires Chain(Open(a, n).asArchive, rest)
    ensures Chain(a, [n] + rest)
    ensures Descend(a, [n] + rest) == Descend(Open(a, n).asArchive, rest)
    ensures Nest(o, [n] + rest) == Nest(o + Separator + n, rest)
  {
    var chain := [n] + rest;
    assert chain[0] == n && chain[1..] == rest;
  }

  /** Each report is that of a selected entry of an archive reached through a chain of
      nested `.zip` entries, and its path is the origin followed by "\" and each entry
      name of the chain. */
  lemma {:induction false} Provenance(a: Archive, exts: seq<string>, o: string)
    ensures forall r :: r in Walk(a, exts, Some(o)) ==> Traced(a, exts, o, r)
    decreases a
  {
    if a.Zip? {
      var sel := CsvFiles(a, exts);
      var zs := ZipFiles(a);
      var files := FilePhase(a, sel, o);
      WalkParts(a, exts, o);
      ZipPhaseMembers(a, zs, exts, o);
      forall r | r in Walk(a, exts, Some(o))
        ensures Traced(a, exts, o, r)
      {
        if r in files.reports {
          DirectProvenance(a, exts, o, r);
        } else {
          assert r in ZipPhase(a, zs, exts, o).reports;
          var n :| n in zs && Open(a, n).readable && r in Walk(Open(a, n).asArchive, exts, Some(o + Separator + n));
          Provenance(Open(a, n).asArchive, exts, o + Separator + n);
          NestedProvenance(a, exts, o, n, r);
        }
      }
    }
  }

  /** What a traced report satisfies: its file passes the filter and its path starts with the origin. */
  lemma TracedFacts(a: Archive, exts: seq<string>, o: string, r: Report)
    requires Traced(a, exts, o, r)
    ensures !Contains(r.file, MacMetadata) && (exists e :: e in exts && EndsWith(r.file, e))
    ensures |o| <= |r.path| && r.path[..|o|] == o
  {
    var chain :| Chain(a, chain) && ReportOf(Descend(a, chain), exts, Nest(o, chain), r);
    var d := Descend(a, chain);
    SelectedMembers(NameList(d.entries), exts);
    NestExtends(o, chain);
  }

  /** Every reported file passes the filter: outside `__MACOSX` and ending with one of the
      extensions; and its path starts with the origin. */
  lemma ReportedFiles(a: Archive, exts: seq<string>, o: string)
    ensures forall r :: r in Walk(a, exts, Some(o)) ==>
      && !Contains(r.file, MacMetadata)
      && (exists e :: e in exts && EndsWith(r.file, e))
      && Under(r.path, o)
  {
    Provenance(a, exts, o);
    forall r | r in Walk(a, exts, Some(o))
      ensures !Contains(r.file, MacMetadata) && (exists e :: e in exts && EndsWith(r.file, e))
      ensures Under(r.path, o)
    {
      TracedFacts(a, exts, o, r);
    }
  }

  /** `path` starts with `prefix`. */
  ghost predicate Under(path: string, prefix: string) {
    |prefix| <= |path| && path[..|prefix|] == prefix
  }

  /** A path under `o + "\\" + n` is under `o + "\\"`. */
  lemma UnderShorter(path: string, o: string, n: string)
    requires Under(path, o + Separator + n)
    ensures Under(path, o + Separator)
  {
    assert path[..|o| + 1] == (o + Separator + n)[..|o| + 1];
  }

  /** A report from a nested archive has a path that extends the origin with "\\". */
  lemma NestedUnderOrigin(a: Archive, exts: seq<string>, o: string)
    requires a.Zip?
    ensures forall r :: r in ZipPhase(a, ZipFiles(a), exts, o).reports ==>
      Under(r.path, o + Separator)
  {
    var zs := ZipFiles(a);
    ZipPhaseMembers(a, zs, exts, o);
    forall r | r in ZipPhase(a, zs, exts, o).reports
      ensures Under(r.path, o + Separator)
    {
      var n :| n in zs && Open(a, n).readable && r in Walk(Open(a, n).asArchive, exts, Some(o + Separator + n));
      ReportedFiles(Open(a, n).asArchive, exts, o + Separator + n);
      UnderShorter(r.path, o, n);
    }
  }

  /** The reports of the entry loop all carry the origin as their path. */
  lemma {:induction false} FilePhasePaths(a: Archive, names: seq<string>, o: string)
    requires Listed(a, names)
    ensures forall r :: r in FilePhase(a, names, o).reports ==> r.path == o
  {
    if names != [] {
      FilePhasePaths(a, names[..|names| - 1], o);
    }
  }

  /** The reports of an archive's own entries, whose path is the origin itself, all come
      before those of its nested archives, whose paths extend the origin with "\\". */
  lemma OwnFilesFirst(a: Archive, exts: seq<string>, o: string)
    ensures var res := Walk(a, exts, Some(o));
      && (forall i, j :: 0 <= i < j < |res| && res[j].path == o ==> res[i].path == o)
      && (forall r :: r in res && r.path != o ==> Under(r.path, o + Separator))
  {
    if a.Zip? {
      var sel := CsvFiles(a, exts);
      var zs := ZipFiles(a);
      var files := FilePhase(a, sel, o);
      WalkParts(a, exts, o);
      FilePhasePaths(a, sel, o);
      NestedUnderOrigin(a, exts, o);
      Layered(files.reports, if files.stopped then [] else ZipPhase(a, zs, exts, o).reports, o);
    }
  }

  /** Reports at `o` followed by reports under `o + "\\"`: the former all come first. */
  lemma Layered(own: seq<Report>, nested: seq<Report>, o: string)
    requires forall r :: r in own ==> r.path == o
    requires forall r :: r in nested ==> Under(r.path, o + Separator)
    ensures var res := own + nested;
      && (forall i, j :: 0 <= i < j < |res| && res[j].path == o ==> res[i].path == o)
      && (forall r :: r in res && r.path != o ==> Under(r.path, o + Separator))
  {
    var res := own + nested;
    assert forall i :: 0 <= i < |own| ==> res[i] in own;
    assert forall j :: |own| <= j < |res| ==> res[j] in nested;
  }

  // ---------------------------------------------------------------------
  // How many reports

  /** How many entries the walk selects in the whole tree, when every open succeeds. */
  ghost function PickedCount(a: Archive, exts: seq<string>): nat
    decreases a, 1
  {
    match a
    case Corrupt => 0
    case Zip(_, _) => |CsvFiles(a, exts)| + PickedNested(a, ZipFiles(a), exts)
  }

  /** The selected entries of the nested archives named by `names`. */
  ghost function PickedNested(a: Archive, names: seq<string>, exts: seq<string>): nat
    requires Listed(a, names)
    decreases a, 0, |names|
  {
    if names == [] then 0
    else PickedNested(a, names[..|names| - 1], exts) + PickedCount(Open(a, names[|names| - 1]).asArchive, exts)
  }

  /** Every entry the walk of `a` opens, in `a` and in the nested archives it walks,
      opens without `BadZipFile`. Entries the walk never opens are unconstrained. */
  ghost predicate Sound(a: Archive, exts: seq<string>)
    decreases a, 1
  {
    a.Zip? ==> Readable(a, CsvFiles(a, exts)) && SoundNested(a, ZipFiles(a), exts)
  }

  /** Every named entry opens without `BadZipFile`. */
  ghost predicate Readable(a: Archive, names: seq<string>)
    requires Listed(a, names)
  {
    forall n :: n in names ==> Open(a, n).readable
  }

  /** Every named nested archive opens without `BadZipFile`, and so does everything its walk opens. */
  ghost predicate SoundNested(a: Archive, names: seq<string>, exts: seq<string>)
    requires Listed(a, names)
    decreases a, 0
  {
    forall n :: n in names ==> Open(a, n).readable && Sound(Open(a, n).asArchive, exts)
  }

  /** When every named entry opens, nothing stops a loop over them. */
  lemma ReadableRunsThrough(a: Archive, names: seq<string>)
    requires Listed(a, names) && Readable(a, names)
    ensures FirstUnreadable(a, names) == |names|
  {
  }

  /** Only the entries the walk opens matter: beside a `.csv` entry that opens, a `.txt`
      entry whose `archive.open` would raise leaves the archive sound, with one report. */
  lemma UnopenedEntryIgnored()
    ensures var a := Zip("t.zip", [Entry("a.csv", "0B", true, TableSource(None, None), Corrupt),
                                   Entry("r.txt", "0B", false, TableSource(None, None), Corrupt)]);
      && Sound(a, [".csv"])
      && |Walk(a, [".csv"], None)| == PickedCount(a, [".csv"]) == 1
  {
    var a := Zip("t.zip", [Entry("a.csv", "0B", true, TableSource(None, None), Corrupt),
                           Entry("r.txt", "0B", false, TableSource(None, None), Corrupt)]);
    var names := NameList(a.entries);
    assert names == ["a.csv", "r.txt"];
    assert EndsWith("a.csv", ".csv") && !EndsWith("r.txt", ".csv");
    assert !EndsWith("a.csv", ZipSuffix) && !EndsWith("r.txt", ZipSuffix);
    assert !Contains("a.csv", MacMetadata);
    assert Filter(names, ".csv") == ["a.csv"];
    assert CsvFiles(a, [".csv"]) == ["a.csv"];
    assert ZipFiles(a) == [];
    assert Find(a.entries, "a.csv") == 0;
    WalkCount(a, [".csv"], None);
  }

  /** There are at most as many reports as selected entries in the tree, and exactly as
      many when no entry raises `BadZipFile`. */
  lemma {:induction false} WalkCount(a: Archive, exts: seq<string>, original: Option<string>)
    ensures |Walk(a, exts, original)| <= PickedCount(a, exts)
    ensures Sound(a, exts) ==> |Walk(a, exts, original)| == PickedCount(a, exts)
    decreases a, 1
  {
    if a.Zip? {
      var sel := CsvFiles(a, exts);
      var zs := ZipFiles(a);
      var o := Origin(a, original);
      FilePhaseUnfolded(a, sel, o);
      ZipPhaseCount(a, zs, exts, o);
      if Sound(a, exts) {
        ReadableRunsThrough(a, sel);
      }
    }
  }

  /** The nested-archive loop yields at most the entries selected in the named archives,
      and, when no entry raises `BadZipFile`, runs to the end and yields exactly that many. */
  lemma {:induction false} ZipPhaseCount(a: Archive, names: seq<string>, exts: seq<string>, o: string)
    requires Listed(a, names)
    ensures |ZipPhase(a, names, exts, o).reports| <= PickedNested(a, names, exts)
    ensures SoundNested(a, names, exts) ==>
      !ZipPhase(a, names, exts, o).stopped
      && |ZipPhase(a, names, exts, o).reports| == PickedNested(a, names, exts)
    decreases a, 0, |names|
  {
    if names != [] {
      var pre, n := names[..|names| - 1], names[|names| - 1];
      assert forall m :: m in pre ==> m in names;
      ZipPhaseCount(a, pre, exts, o);
      var idx := Find(a.entries, n);
      WalkCount(a.entries[idx].asArchive, exts, Some(o + Separator + n));
    }
  }
}
