/**
 * The merge tool's `main`: build the catalogue, merge it into every `.xml`
 * target, record a diff for every changed target, write changed targets
 * unless in dry-run mode, report the catalogue identifiers no target used,
 * and in dry-run mode ask once whether to apply, running everything again
 * for real on a yes.
 *
 * The file system is a snapshot of what each run reads, and what a run
 * writes is an effect appended to `log`, in order.
 */
module Controller {
  import opened Wrappers
  import opened Strings
  import opened Dicts
  import opened ItemScanner
  import opened Catalog
  import opened Merge
  import opened StringOrder

  const DiffSuffix: string := ".diff.txt"

  /** What one run of `main` reads: the source listing and the target listing, with contents. */
  datatype Snapshot = Snapshot(sources: seq<ListedFile>, targets: seq<ListedFile>)

  /**
   * A file written under the output directory: `<name>.diff.txt` with the
   * diff of `original` against `modified`, the merged target `<name>`, or
   * MISSING.txt with one identifier per line.
   */
  datatype Effect =
    | WriteDiff(name: string, original: string, modified: string)
    | WriteOutput(name: string, text: string)
    | WriteMissing(ids: seq<string>)

  /** Line 141: the targets whose name ends in ".xml", in listing order. */
  function XmlTargets(fs: seq<ListedFile>): (r: seq<ListedFile>)
    ensures forall f :: f in r <==> f in fs && IsXmlName(f.name)
  {
    if fs == [] then []
    else
      var f := fs[|fs| - 1];
      var rest := XmlTargets(fs[..|fs| - 1]);
      assert fs == fs[..|fs| - 1] + [f];
      if IsXmlName(f.name) then rest + [f] else rest
  }

  /** The filter keeps listing order and repeats: it works file by file. */
  lemma {:induction false} XmlTargetsAppend(a: seq<ListedFile>, b: seq<ListedFile>)
    ensures XmlTargets(a + b) == XmlTargets(a) + XmlTargets(b)
    decreases |b|
  {
    if b == [] {
      assert a + b == a;
    } else {
      var init := b[..|b| - 1];
      var last := b[|b| - 1];
      assert (a + b)[..|a + b| - 1] == a + init;
      assert (a + b)[|a + b| - 1] == last;
      XmlTargetsAppend(a, init);
      SeqAssoc(XmlTargets(a), XmlTargets(init), if IsXmlName(last.name) then [last] else []);
    }
  }

  lemma XmlTargetsOne(f: ListedFile)
    ensures XmlTargets([f]) == if IsXmlName(f.name) then [f] else []
  {
    assert [f][..0] == [];
  }

  /** update_tar_file's triple for one target. */
  function Outcome(f: ListedFile, catalog: map<string, string>, sep: string): TarResult {
    if f.content.None? then TarResult("", "", false) else Merged(f.content.value, catalog, sep)
  }

  /** The identifiers update_tar_file adds to `used_ids` for one target. */
  function TargetIds(f: ListedFile, catalog: map<string, string>): set<string> {
    if f.content.None? then {} else MatchedIds(Scan(f.content.value, true), catalog)
  }

  function UsedIds(tars: seq<ListedFile>, catalog: map<string, string>): set<string> {
    if tars == [] then {}
    else UsedIds(tars[..|tars| - 1], catalog) + TargetIds(tars[|tars| - 1], catalog)
  }

  /** Lines 149-160 for one target. */
  function TargetEffects(f: ListedFile, catalog: map<string, string>, dryRun: bool, sep: string): seq<Effect> {
    var r := Outcome(f, catalog, sep);
    if !r.changed then []
    else [WriteDiff(f.name + DiffSuffix, r.original, r.modified)] + (if dryRun then [] else [WriteOutput(f.name, r.modified)])
  }

  function AllTargetEffects(tars: seq<ListedFile>, catalog: map<string, string>, dryRun: bool, sep: string): seq<Effect> {
    if tars == [] then []
    else AllTargetEffects(tars[..|tars| - 1], catalog, dryRun, sep) + TargetEffects(tars[|tars| - 1], catalog, dryRun, sep)
  }

  /** Lines 165-170: a MISSING report exactly when some catalogue identifier went unused. */
  ghost function MissingEffects(missing: set<string>): seq<Effect> {
    if missing == {} then [] else [WriteMissing(SortedList(missing))]
  }

  /** The catalogue one run builds. */
  function CatalogOf(snap: Snapshot): map<string, string> {
    LastWins(CatalogEntries(snap.sources))
  }

  /** The identifiers one run reports missing. */
  function MissingIds(snap: Snapshot, sep: string): set<string> {
    var catalog := CatalogOf(snap);
    catalog.Keys - UsedIds(XmlTargets(snap.targets), catalog)
  }

  /** Everything one run of `main` writes, in order, before its prompt. */
  ghost function PassEffects(snap: Snapshot, dryRun: bool, sep: string): seq<Effect> {
    AllTargetEffects(XmlTargets(snap.targets), CatalogOf(snap), dryRun, sep) + MissingEffects(MissingIds(snap, sep))
  }

  /** Line 174: the answer confirms when it is "y" once stripped and lower-cased. */
  predicate Affirmative(answer: string) {
    Lower(Strip(answer)) == "y"
  }

  class Tool {
    /** The global DRY_RUN. */
    var dryRun: bool
    /** What has been written so far, in order. */
    var log: seq<Effect>

    constructor (dryRun: bool)
      ensures this.dryRun == dryRun && log == []
    {
      this.dryRun := dryRun;
      log := [];
    }

    /** One run of `main` up to its prompt, on the files as `snap` shows them; `sep` is os.linesep. */
    method Pass(snap: Snapshot, sep: string)
      modifies this
      ensures dryRun == old(dryRun)
      ensures log == old(log) + PassEffects(snap, dryRun, sep)
    {
      var srcItems := ExtractItemsFromSrc(snap.sources);
      var tarFiles := XmlTargets(snap.targets);
      var usedIds := ProcessTargets(tarFiles, srcItems, sep);
      ReportMissing(srcItems.Keys - usedIds);
      SeqAssoc(old(log), AllTargetEffects(tarFiles, srcItems, dryRun, sep), MissingEffects(srcItems.Keys - usedIds));
    }

    /** Lines 143-162: every target in turn, with `used_ids` starting empty. */
    method ProcessTargets(tarFiles: seq<ListedFile>, srcItems: map<string, string>, sep: string)
      returns (usedIds: set<string>)
      modifies this
      ensures dryRun == old(dryRun)
      ensures usedIds == UsedIds(tarFiles, srcItems)
      ensures log == old(log) + AllTargetEffects(tarFiles, srcItems, dryRun, sep)
    {
      usedIds := {};
      var i := 0;
      assert tarFiles[..0] == [];
      while i < |tarFiles|
        invariant i <= |tarFiles|
        invariant dryRun == old(dryRun)
        invariant usedIds == UsedIds(tarFiles[..i], srcItems)
        invariant log == old(log) + AllTargetEffects(tarFiles[..i], srcItems, dryRun, sep)
      {
        usedIds := ProcessTarget(tarFiles[i], srcItems, usedIds, sep);
        AllTargetEffectsSnoc(tarFiles, i, srcItems, dryRun, sep);
        SeqAssoc(old(log), AllTargetEffects(tarFiles[..i], srcItems, dryRun, sep), TargetEffects(tarFiles[i], srcItems, dryRun, sep));
        i := i + 1;
      }
      assert tarFiles[..i] == tarFiles;
    }

    /** Lines 165-170: MISSING.txt with the unused identifiers sorted, when there are any. */
    method ReportMissing(missing: set<string>)
      modifies this
      ensures dryRun == old(dryRun)
      ensures log == old(log) + MissingEffects(missing)
    {
      var missingIds := SortIds(missing);
      if |missingIds| > 0 {
        AscendingUnique(missingIds, SortedList(missing));
        log := log + [WriteMissing(missingIds)];
      }
    }

    /** Lines 144-162: merge one target, then record its diff and, unless in dry-run mode, its new text. */
    method ProcessTarget(f: ListedFile, srcItems: map<string, string>, usedIds: set<string>, sep: string)
      returns (usedAfter: set<string>)
      modifies this
      ensures dryRun == old(dryRun)
      ensures log == old(log) + TargetEffects(f, srcItems, dryRun, sep)
      ensures usedAfter == usedIds + TargetIds(f, srcItems)
    {
      var r;
      r, usedAfter := UpdateTarFile(f.content, srcItems, usedIds, sep);
      TargetEffectsOf(f, srcItems, dryRun, sep, r);
      if r.changed {
        if dryRun {
          log := log + [WriteDiff(f.name + DiffSuffix, r.original, r.modified)];
        } else {
          log := log + [WriteDiff(f.name + DiffSuffix, r.original, r.modified), WriteOutput(f.name, r.modified)];
        }
      }
    }

    /**
     * `main` as started: with DRY_RUN set, a preview run on `first`, the
     * prompt answered with `answer`, and on a yes the apply run on `second`,
     * what the directories hold by then.
     */
    method Session(first: Snapshot, answer: string, second: Snapshot, sep: string)
      modifies this
      ensures old(dryRun) && Affirmative(answer) ==>
        !dryRun && log == old(log) + PassEffects(first, true, sep) + PassEffects(second, false, sep)
      ensures old(dryRun) && !Affirmative(answer) ==>
        dryRun && log == old(log) + PassEffects(first, true, sep)
      ensures !old(dryRun) ==> !dryRun && log == old(log) + PassEffects(first, false, sep)
    {
      Pass(first, sep);
      if dryRun {
        var confirm := Lower(Strip(answer));
        if confirm == "y" {
          dryRun := false;
          Pass(second, sep);
        }
      }
    }
  }

  // ---------------------------------------------------------------------------
  // What a run writes

  /** The prompt accepts exactly "y" and "Y", with any whitespace around. */
  lemma AffirmativeIff(answer: string)
    ensures Affirmative(answer) <==> Strip(answer) == "y" || Strip(answer) == "Y"
  {
    var t := Strip(answer);
    if |t| == 1 {
      assert Lower(t)[0] == LowerChar(t[0]);
      assert Lower(t) == [LowerChar(t[0])];
    }
  }

  lemma {:induction false} AllTargetEffectsDry(tars: seq<ListedFile>, catalog: map<string, string>, sep: string)
    ensures forall e :: e in AllTargetEffects(tars, catalog, true, sep) ==> e.WriteDiff?
  {
    if tars != [] {
      AllTargetEffectsDry(tars[..|tars| - 1], catalog, sep);
    }
  }

  /** A dry run writes no target: only diffs and the MISSING report. */
  lemma DryRunWritesNoOutput(snap: Snapshot, sep: string)
    ensures forall e :: e in PassEffects(snap, true, sep) ==> !e.WriteOutput?
  {
    AllTargetEffectsDry(XmlTargets(snap.targets), CatalogOf(snap), sep);
  }

  lemma TargetEffectsOf(f: ListedFile, catalog: map<string, string>, dryRun: bool, sep: string, r: TarResult)
    requires f.content.None? ==> r == TarResult("", "", false)
    requires f.content.Some? ==> r == Merged(f.content.value, catalog, sep)
    ensures TargetEffects(f, catalog, dryRun, sep) ==
      if !r.changed then []
      else if dryRun then [WriteDiff(f.name + DiffSuffix, r.original, r.modified)]
      else [WriteDiff(f.name + DiffSuffix, r.original, r.modified), WriteOutput(f.name, r.modified)]
  {
    assert r == Outcome(f, catalog, sep);
  }

  lemma AllTargetEffectsSnoc(tars: seq<ListedFile>, i: nat, catalog: map<string, string>, dryRun: bool, sep: string)
    requires i < |tars|
    ensures AllTargetEffects(tars[..i + 1], catalog, dryRun, sep)
      == AllTargetEffects(tars[..i], catalog, dryRun, sep) + TargetEffects(tars[i], catalog, dryRun, sep)
    ensures UsedIds(tars[..i + 1], catalog) == UsedIds(tars[..i], catalog) + TargetIds(tars[i], catalog)
  {
    assert tars[..i + 1][..i] == tars[..i];
  }

  /** The effects of a run over its targets are those of its targets, each in turn. */
  lemma EffectOfTargets(tars: seq<ListedFile>, catalog: map<string, string>, dryRun: bool, sep: string, e: Effect)
    ensures e in AllTargetEffects(tars, catalog, dryRun, sep) <==>
      exists f :: f in tars && e in TargetEffects(f, catalog, dryRun, sep)
  {
    var g := f => TargetEffects(f, catalog, dryRun, sep);
    AllTargetEffectsConcat(tars, catalog, dryRun, sep);
    if e in AllTargetEffects(tars, catalog, dryRun, sep) {
      var f := ConcatFrom(tars, g, e);
      assert e in TargetEffects(f, catalog, dryRun, sep);
    }
    if exists f :: f in tars && e in TargetEffects(f, catalog, dryRun, sep) {
      var f :| f in tars && e in TargetEffects(f, catalog, dryRun, sep);
      assert e in g(f);
      ConcatTo(tars, g, f, e);
    }
  }

  /** The outputs of `g` on the elements of `xs`, one after the other. */
  function Concat<T, E>(xs: seq<T>, g: T -> seq<E>): seq<E> {
    if xs == [] then [] else Concat(xs[..|xs| - 1], g) + g(xs[|xs| - 1])
  }

  lemma {:induction false} AllTargetEffectsConcat(tars: seq<ListedFile>, catalog: map<string, string>, dryRun: bool, sep: string)
    ensures AllTargetEffects(tars, catalog, dryRun, sep) == Concat(tars, f => TargetEffects(f, catalog, dryRun, sep))
  {
    if tars != [] {
      AllTargetEffectsConcat(tars[..|tars| - 1], catalog, dryRun, sep);
    }
  }

  /** An element of a concatenation comes from one of the parts. */
  lemma {:induction false} ConcatFrom<T, E>(xs: seq<T>, g: T -> seq<E>, e: E) returns (x: T)
    requires e in Concat(xs, g)
    ensures x in xs && e in g(x)
  {
    var init := xs[..|xs| - 1];
    var last := xs[|xs| - 1];
    assert xs == init + [last];
    if e in Concat(init, g) {
      x := ConcatFrom(init, g, e);
    } else {
      x := last;
    }
  }

  /** Every element of every part is an element of the concatenation. */
  lemma {:induction false} ConcatTo<T, E>(xs: seq<T>, g: T -> seq<E>, x: T, e: E)
    requires x in xs && e in g(x)
    ensures e in Concat(xs, g)
  {
    var init := xs[..|xs| - 1];
    var last := xs[|xs| - 1];
    assert xs == init + [last];
    if x != last {
      assert x in init;
      ConcatTo(init, g, x, e);
    }
  }

  /** Diffs are written for exactly the readable `.xml` targets that changed, in both kinds of run. */
  lemma DiffIffChanged(snap: Snapshot, dryRun: bool, sep: string, name: string, original: string, modified: string)
    ensures WriteDiff(name, original, modified) in PassEffects(snap, dryRun, sep) <==>
      exists f :: f in snap.targets && IsXmlName(f.name) && name == f.name + DiffSuffix
        && Outcome(f, CatalogOf(snap), sep) == TarResult(original, modified, true)
  {
    var tars := XmlTargets(snap.targets);
    var e := WriteDiff(name, original, modified);
    EffectOfTargets(tars, CatalogOf(snap), dryRun, sep, e);
    assert e !in MissingEffects(MissingIds(snap, sep));
  }

  /** An applying run writes a target only with its merged text, and only when it changed. */
  lemma OutputOnlyWhenChanged(snap: Snapshot, sep: string, name: string, text: string)
    ensures WriteOutput(name, text) in PassEffects(snap, false, sep) <==>
      exists f :: f in snap.targets && IsXmlName(f.name) && f.name == name
        && Outcome(f, CatalogOf(snap), sep).changed && text == Outcome(f, CatalogOf(snap), sep).modified
  {
    var tars := XmlTargets(snap.targets);
    var e := WriteOutput(name, text);
    EffectOfTargets(tars, CatalogOf(snap), false, sep, e);
    assert e !in MissingEffects(MissingIds(snap, sep));
  }

  /** A file carrying `id`: a readable target some block of which carries `id`, known to the catalogue. */
  predicate Carries(f: ListedFile, catalog: map<string, string>, id: string) {
    f.content.Some? && id in MatchedIds(Scan(f.content.value, true), catalog)
  }

  lemma UsedIdsIff(tars: seq<ListedFile>, catalog: map<string, string>, id: string)
    ensures id in UsedIds(tars, catalog) <==> exists f :: f in tars && Carries(f, catalog, id)
  {
    if id in UsedIds(tars, catalog) {
      var f := UsedFrom(tars, catalog, id);
    }
    if exists f :: f in tars && Carries(f, catalog, id) {
      var f :| f in tars && Carries(f, catalog, id);
      UsedTo(tars, catalog, f, id);
    }
  }

  lemma {:induction false} UsedFrom(tars: seq<ListedFile>, catalog: map<string, string>, id: string) returns (f: ListedFile)
    requires id in UsedIds(tars, catalog)
    ensures f in tars && Carries(f, catalog, id)
  {
    assert tars != [];
    var init := tars[..|tars| - 1];
    var last := tars[|tars| - 1];
    assert UsedIds(tars, catalog) == UsedIds(init, catalog) + TargetIds(last, catalog);
    if id in UsedIds(init, catalog) {
      f := UsedFrom(init, catalog, id);
      InInit(tars, f);
    } else {
      f := last;
      assert f == tars[|tars| - 1];
    }
  }

  lemma InInit<T>(xs: seq<T>, x: T)
    requires xs != [] && x in xs[..|xs| - 1]
    ensures x in xs
  {
    var i :| 0 <= i < |xs| - 1 && xs[..|xs| - 1][i] == x;
    assert xs[i] == x;
  }

  lemma {:induction false} UsedTo(tars: seq<ListedFile>, catalog: map<string, string>, f: ListedFile, id: string)
    requires f in tars && Carries(f, catalog, id)
    ensures id in UsedIds(tars, catalog)
  {
    var init := tars[..|tars| - 1];
    var last := tars[|tars| - 1];
    assert UsedIds(tars, catalog) == UsedIds(init, catalog) + TargetIds(last, catalog);
    InitOrLast(tars, f);
    if f != last {
      UsedTo(init, catalog, f, id);
    }
  }

  lemma InitOrLast<T>(xs: seq<T>, x: T)
    requires x in xs
    ensures x == xs[|xs| - 1] || x in xs[..|xs| - 1]
  {
    var i :| 0 <= i < |xs| && xs[i] == x;
    if i < |xs| - 1 {
      assert xs[..|xs| - 1][i] == x;
    }
  }

  /**
   * The MISSING report: written exactly when some catalogue identifier is
   * carried by no block of any readable `.xml` target, listing exactly those
   * identifiers in ascending order.
   */
  lemma MissingReport(snap: Snapshot, dryRun: bool, sep: string, ids: seq<string>)
    ensures WriteMissing(ids) in PassEffects(snap, dryRun, sep) <==>
      ids != [] && StrictlyAscending(ids) && forall id :: id in ids <==> Unmatched(snap, id)
  {
    var catalog := CatalogOf(snap);
    var tars := XmlTargets(snap.targets);
    var missing := MissingIds(snap, sep);
    AllTargetEffectsNoMissing(tars, catalog, dryRun, sep);
    forall id ensures id in missing <==> Unmatched(snap, id) {
      UsedIdsIff(tars, catalog, id);
      if id in catalog && id !in missing {
        var f :| f in tars && Carries(f, catalog, id);
        assert Matching(snap, f, id);
      }
      if exists f :: Matching(snap, f, id) {
        var f :| Matching(snap, f, id);
        assert f in tars && Carries(f, catalog, id);
      }
    }
    if WriteMissing(ids) in PassEffects(snap, dryRun, sep) {
      assert ids == SortedList(missing) && missing != {};
      var x :| x in missing;
      assert x in ids;
    }
    if ids != [] && StrictlyAscending(ids) && forall id :: id in ids <==> Unmatched(snap, id) {
      AscendingUnique(ids, SortedList(missing));
      assert ids[0] in missing;
    }
  }

  /** `f` is a readable `.xml` target of the run and some block of it carries `id`, known to the catalogue. */
  predicate Matching(snap: Snapshot, f: ListedFile, id: string) {
    && f in snap.targets && IsXmlName(f.name) && f.content.Some?
    && id in MatchedIds(Scan(f.content.value, true), CatalogOf(snap))
  }

  /** A catalogue identifier that no readable `.xml` target carries. */
  ghost predicate Unmatched(snap: Snapshot, id: string) {
    id in CatalogOf(snap) && !exists f :: Matching(snap, f, id)
  }

  lemma {:induction false} AllTargetEffectsNoMissing(tars: seq<ListedFile>, catalog: map<string, string>, dryRun: bool, sep: string)
    ensures forall e :: e in AllTargetEffects(tars, catalog, dryRun, sep) ==> !e.WriteMissing?
  {
    if tars != [] {
      var init := AllTargetEffects(tars[..|tars| - 1], catalog, dryRun, sep);
      var last := TargetEffects(tars[|tars| - 1], catalog, dryRun, sep);
      AllTargetEffectsNoMissing(tars[..|tars| - 1], catalog, dryRun, sep);
      TargetEffectsNoMissing(tars[|tars| - 1], catalog, dryRun, sep);
      NoMissingAppend(init, last);
    }
  }

  /** One target writes its diff and possibly its output, never a MISSING report. */
  lemma TargetEffectsNoMissing(f: ListedFile, catalog: map<string, string>, dryRun: bool, sep: string)
    ensures forall e :: e in TargetEffects(f, catalog, dryRun, sep) ==> !e.WriteMissing?
  {
    var r := Outcome(f, catalog, sep);
    TargetEffectsOf(f, catalog, dryRun, sep, r);
  }

  lemma NoMissingAppend(a: seq<Effect>, b: seq<Effect>)
    requires forall e :: e in a ==> !e.WriteMissing?
    requires forall e :: e in b ==> !e.WriteMissing?
    ensures forall e :: e in a + b ==> !e.WriteMissing?
  {
  }
}
