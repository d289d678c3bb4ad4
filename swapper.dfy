/**
 * The text swapper: patch_xml_content rewrites every `<tag>text</tag>`
 * element found by `re.sub(r"<(\S+?)>(.*?)</\1>", ..., flags=re.DOTALL)`
 * whose tag has a replacement that differs from its text; patch_dict
 * collects the replacements from the source files, the last one winning.
 */
module Swapper {
  import opened Wrappers
  import opened Strings
  import opened Dicts
  import opened Formatting

  /** One match of the element pattern: group 1 is the tag, group 2 the text. */
  datatype Element = Element(tag: string, text: string)

  function CloseOf(tag: string): string {
    "</" + tag + ">"
  }

  /** The text an element match spans: `<tag>text</tag>`. */
  function ElementText(e: Element): string {
    "<" + e.tag + ">" + e.text + CloseOf(e.tag)
  }

  predicate NoSpace(s: string) {
    forall i :: 0 <= i < |s| ==> !IsSpace(s[i])
  }

  /**
   * The pattern matches at the start of `s` with a tag of `m` characters:
   * `<`, `m` non-whitespace characters, `>`, and later a closing tag that
   * repeats those characters.
   */
  predicate TagWorks(s: string, m: nat) {
    && 1 <= m && m + 1 < |s| && s[0] == '<'
    && NoSpace(s[1..m + 1]) && s[m + 1] == '>'
    && IndexOf(s, CloseOf(s[1..m + 1]), m + 2).Some?
  }

  /** The match for a working tag length: the text stops at the first closing tag (lazy `.*?`). */
  function ElementOf(s: string, m: nat): Element
    requires TagWorks(s, m)
  {
    var q := IndexOf(s, CloseOf(s[1..m + 1]), m + 2).value;
    IndexOfFound(s, CloseOf(s[1..m + 1]), m + 2, q);
    Element(s[1..m + 1], s[m + 2..q])
  }

  /** The lazy `\S+?` tries tag lengths `n`, `n + 1`, … and keeps the first that works. */
  function TryTag(s: string, n: nat): Option<Element>
    requires 1 <= n
    decreases |s| - n
  {
    if n + 1 >= |s| || IsSpace(s[n]) then None
    else if TagWorks(s, n) then Some(ElementOf(s, n))
    else TryTag(s, n + 1)
  }

  /** The tag length the lazy scan settles on is the least working one from `n` on; none is found exactly when none works. */
  lemma {:induction false} TryTagSpec(s: string, n: nat)
    requires 1 <= n
    decreases |s| - n
    ensures var r := TryTag(s, n);
      && (r.Some? ==> n <= |r.value.tag| && TagWorks(s, |r.value.tag|) && r.value == ElementOf(s, |r.value.tag|))
      && (r.Some? ==> forall m :: n <= m < |r.value.tag| ==> !TagWorks(s, m))
      && (r.None? ==> forall m :: n <= m ==> !TagWorks(s, m))
  {
    if n + 1 < |s| {
      if IsSpace(s[n]) {
        SpaceEndsTags(s, n);
      } else if TagWorks(s, n) {
        ElementOfTag(s, n);
      } else {
        TryTagSpec(s, n + 1);
        TryTagNext(s, n, TryTag(s, n + 1));
      }
    }
  }

  lemma ElementOfTag(s: string, m: nat)
    requires TagWorks(s, m)
    ensures ElementOf(s, m).tag == s[1..m + 1] && |ElementOf(s, m).tag| == m
  {
  }

  /** A tag length that does not work passes the search on to the next length. */
  lemma TryTagNext(s: string, n: nat, r: Option<Element>)
    requires 1 <= n && n + 1 < |s| && !IsSpace(s[n]) && !TagWorks(s, n) && r == TryTag(s, n + 1)
    requires r.Some? ==> n + 1 <= |r.value.tag| && TagWorks(s, |r.value.tag|) && r.value == ElementOf(s, |r.value.tag|)
    requires r.Some? ==> forall m :: n + 1 <= m < |r.value.tag| ==> !TagWorks(s, m)
    requires r.None? ==> forall m :: n + 1 <= m ==> !TagWorks(s, m)
    ensures TryTag(s, n) == r
    ensures r.Some? ==> n <= |r.value.tag| && TagWorks(s, |r.value.tag|) && r.value == ElementOf(s, |r.value.tag|)
    ensures r.Some? ==> forall m :: n <= m < |r.value.tag| ==> !TagWorks(s, m)
    ensures r.None? ==> forall m :: n <= m ==> !TagWorks(s, m)
  {
  }

  /** A whitespace character at `n` ends every tag that would reach it. */
  lemma SpaceEndsTags(s: string, n: nat)
    requires 1 <= n < |s| && IsSpace(s[n])
    ensures forall m :: n <= m ==> !TagWorks(s, m)
  {
    forall m | n <= m ensures !TagWorks(s, m) {
      if m + 1 < |s| {
        assert s[1..m + 1][n - 1] == s[n];
      }
    }
  }

  /**
   * The match of the element pattern at the start of `s`, if any: the one
   * with the shortest working tag.
   */
  function ElementAt(s: string): (r: Option<Element>)
    ensures r.Some? ==> TagWorks(s, |r.value.tag|) && r.value == ElementOf(s, |r.value.tag|)
    ensures r.Some? ==> forall m: nat :: m < |r.value.tag| ==> !TagWorks(s, m)
    ensures r.None? ==> forall m :: !TagWorks(s, m)
    ensures r.Some? ==> ElementText(r.value) <= s
  {
    if s != [] && s[0] == '<' then
      var r := TryTag(s, 1);
      TryTagSpec(s, 1);
      if r.Some? then
        ElementOfFits(s, |r.value.tag|);
        r
      else r
    else None
  }

  /** A match spans `<tag>text</tag>` at the start of `s`, with a non-empty tag without whitespace. */
  lemma ElementOfFits(s: string, m: nat)
    requires TagWorks(s, m)
    ensures ElementText(ElementOf(s, m)) <= s
    ensures ElementOf(s, m).tag != [] && NoSpace(ElementOf(s, m).tag)
    ensures StopsAtFirstClose(ElementOf(s, m))
  {
    ElementOfSpans(s, m);
    ElementOfStops(s, m);
  }

  lemma ElementOfSpans(s: string, m: nat)
    requires TagWorks(s, m)
    ensures ElementText(ElementOf(s, m)) <= s
    ensures ElementOf(s, m).tag != [] && NoSpace(ElementOf(s, m).tag)
  {
    var q := IndexOf(s, CloseOf(s[1..m + 1]), m + 2).value;
    ElementBounds(s, m, q);
    ElementFitsAt(s, m, q);
  }

  lemma ElementOfStops(s: string, m: nat)
    requires TagWorks(s, m)
    ensures StopsAtFirstClose(ElementOf(s, m))
  {
    var q := IndexOf(s, CloseOf(s[1..m + 1]), m + 2).value;
    ElementBounds(s, m, q);
    ElementStopsAt(s, s[1..m + 1], m + 2, q, CloseOf(s[1..m + 1]));
  }

  /** The offsets of a working tag length: the closing tag found at `q`, none before it, and the element cut there. */
  lemma ElementBounds(s: string, m: nat, q: nat)
    requires TagWorks(s, m) && q == IndexOf(s, CloseOf(s[1..m + 1]), m + 2).value
    ensures 1 <= m && m + 2 <= q <= |s| && q + |CloseOf(s[1..m + 1])| <= |s|
    ensures s[0] == '<' && s[m + 1] == '>' && s[q..q + |CloseOf(s[1..m + 1])|] == CloseOf(s[1..m + 1])
    ensures NoSpace(s[1..m + 1])
    ensures ElementOf(s, m) == Element(s[1..m + 1], s[m + 2..q])
  {
    IndexOfFound(s, CloseOf(s[1..m + 1]), m + 2, q);
  }

  /** The text cut at `o` and `q`, `q` being the first closing tag `c` from `o` on, holds no earlier one. */
  lemma ElementStopsAt(s: string, tag: string, o: nat, q: nat, c: string)
    requires c == CloseOf(tag) && IndexOf(s, c, o) == Some(q) && o <= q <= |s|
    ensures StopsAtFirstClose(Element(tag, s[o..q]))
  {
    IndexOfSpec(s, c, o);
    FirstOccurrenceSlice(s, o, q, c);
  }

  /** The element cut at `m` and `q` begins `s`, and its tag is the non-empty, whitespace-free group. */
  lemma ElementFitsAt(s: string, m: nat, q: nat)
    requires 1 <= m && m + 2 <= q <= |s| && q + |CloseOf(s[1..m + 1])| <= |s|
    requires s[0] == '<' && s[m + 1] == '>' && s[q..q + |CloseOf(s[1..m + 1])|] == CloseOf(s[1..m + 1])
    requires NoSpace(s[1..m + 1])
    ensures var e := Element(s[1..m + 1], s[m + 2..q]);
      ElementText(e) <= s && e.tag != [] && NoSpace(e.tag)
  {
    ElementSpans(s, m, q);
  }

  /** The text of the element cut at these offsets is the prefix of `s` up to the end of its closing tag. */
  lemma ElementSpans(s: string, m: nat, q: nat)
    requires 1 <= m && m + 2 <= q <= |s| && q + |CloseOf(s[1..m + 1])| <= |s|
    requires s[0] == '<' && s[m + 1] == '>' && s[q..q + |CloseOf(s[1..m + 1])|] == CloseOf(s[1..m + 1])
    ensures ElementText(Element(s[1..m + 1], s[m + 2..q])) == s[..q + |CloseOf(s[1..m + 1])|]
  {
    var c := CloseOf(s[1..m + 1]);
    assert s[..1] == "<";
    assert s[..m + 1] == s[..1] + s[1..m + 1];
    assert s[..m + 2] == s[..m + 1] + ">";
    assert s[..q] == s[..m + 2] + s[m + 2..q];
    assert s[..q + |c|] == s[..q] + c;
  }

  /** The text of a match holds no earlier closing tag of the same name. */
  predicate StopsAtFirstClose(e: Element) {
    forall j :: 0 <= j < |e.text| ==> !StartsAt(e.text + CloseOf(e.tag), j, CloseOf(e.tag))
  }

  /** `re.sub` walks the text left to right: a match is consumed whole, otherwise one character is kept. */
  datatype Part = Ch(c: char) | Elem(e: Element)

  function Scan(s: string): seq<Part>
    decreases |s|
  {
    if s == [] then []
    else match ElementAt(s)
      case Some(e) => [Elem(e)] + Scan(s[|ElementText(e)|..])
      case None => [Ch(s[0])] + Scan(s[1..])
  }

  function PartText(p: Part): string {
    match p
    case Ch(c) => [c]
    case Elem(e) => ElementText(e)
  }

  function Render(ps: seq<Part>): string {
    if ps == [] then [] else PartText(ps[0]) + Render(ps[1..])
  }

  /** The scan covers the text: its parts spell the input again. */
  lemma {:induction false} ScanRenders(s: string)
    ensures Render(Scan(s)) == s
    decreases |s|
  {
    if s != [] {
      match ElementAt(s)
      case Some(e) => {
        var x := ElementText(e);
        ScanRenders(s[|x|..]);
        RenderCons(Elem(e), Scan(s[|x|..]));
        PrefixThenRest(s, x);
      }
      case None => {
        ScanRenders(s[1..]);
        RenderCons(Ch(s[0]), Scan(s[1..]));
        PrefixThenRest(s, [s[0]]);
      }
    }
  }

  lemma RenderCons(p: Part, ps: seq<Part>)
    ensures Render([p] + ps) == PartText(p) + Render(ps)
  {
    assert ([p] + ps)[1..] == ps;
  }

  lemma PrefixThenRest(s: string, x: string)
    requires x <= s
    ensures s == x + s[|x|..]
  {
  }

  /** How Python renders a replacement value in the f-string: `None` becomes the text "None". */
  function Shown(v: Option<string>): string {
    match v
    case None => "None"
    case Some(t) => t
  }

  /** replace_tag: a new element when the tag has a replacement that differs (`!=`) from the text. */
  function ReplaceTag(e: Element, replacements: map<string, Option<string>>): string {
    if e.tag in replacements && replacements[e.tag] != Some(e.text) then
      ElementText(Element(e.tag, Shown(replacements[e.tag])))
    else ElementText(e)
  }

  function PatchParts(ps: seq<Part>, replacements: map<string, Option<string>>): string {
    if ps == [] then []
    else
      (match ps[0]
       case Ch(c) => [c]
       case Elem(e) => ReplaceTag(e, replacements))
      + PatchParts(ps[1..], replacements)
  }

  /** patch_xml_content. */
  function PatchXmlContent(content: string, replacements: map<string, Option<string>>): string {
    PatchParts(Scan(content), replacements)
  }

  /** The element is left as it is: its tag has no replacement, or the replacement renders as its text. */
  predicate Unchanged(e: Element, replacements: map<string, Option<string>>) {
    e.tag !in replacements || Shown(replacements[e.tag]) == e.text
  }

  lemma ElementTextInjective(tag: string, x: string, y: string)
    requires ElementText(Element(tag, x)) == ElementText(Element(tag, y))
    ensures x == y
  {
    var a := ElementText(Element(tag, x));
    var o := |tag| + 2;
    assert a[o..o + |x|] == x;
    assert ElementText(Element(tag, y))[o..o + |y|] == y;
  }

  /**
   * replace_tag returns the match unchanged exactly when the tag has no
   * replacement or the replacement renders as the current text; otherwise it
   * returns `<tag>new</tag>` with the same tag.
   */
  lemma ReplaceTagRule(e: Element, replacements: map<string, Option<string>>)
    ensures ReplaceTag(e, replacements) == ElementText(e) <==> Unchanged(e, replacements)
    ensures !Unchanged(e, replacements) ==>
      ReplaceTag(e, replacements) == "<" + e.tag + ">" + Shown(replacements[e.tag]) + "</" + e.tag + ">"
  {
    if e.tag in replacements && replacements[e.tag] != Some(e.text) {
      if ReplaceTag(e, replacements) == ElementText(e) {
        ElementTextInjective(e.tag, Shown(replacements[e.tag]), e.text);
      }
    }
  }

  predicate AllUnchanged(ps: seq<Part>, replacements: map<string, Option<string>>) {
    forall i :: 0 <= i < |ps| && ps[i].Elem? ==> Unchanged(ps[i].e, replacements)
  }

  lemma {:induction false} PatchPartsIdentity(ps: seq<Part>, replacements: map<string, Option<string>>)
    requires AllUnchanged(ps, replacements)
    ensures PatchParts(ps, replacements) == Render(ps)
  {
    if ps != [] {
      assert AllUnchanged(ps[1..], replacements) by {
        forall i | 0 <= i < |ps[1..]| && ps[1..][i].Elem? ensures Unchanged(ps[1..][i].e, replacements) {
          assert ps[1..][i] == ps[i + 1];
        }
      }
      PatchPartsIdentity(ps[1..], replacements);
      if ps[0].Elem? {
        ReplaceTagRule(ps[0].e, replacements);
      }
    }
  }

  /** Text outside the matches is copied, so a text none of whose matches needs a change comes back as it was. */
  lemma PatchIdentity(content: string, replacements: map<string, Option<string>>)
    requires AllUnchanged(Scan(content), replacements)
    ensures PatchXmlContent(content, replacements) == content
  {
    PatchPartsIdentity(Scan(content), replacements);
    ScanRenders(content);
  }

  /** With an empty replacement map the patch is the identity. */
  lemma PatchEmpty(content: string)
    ensures PatchXmlContent(content, map[]) == content
  {
    PatchIdentity(content, map[]);
  }

  /**
   * Matches do not overlap: a matched element is handled as one piece, so an
   * element nested in its text is never patched on its own; when its tag has
   * no replacement it is copied with everything inside it.
   */
  lemma PatchAtElement(s: string, replacements: map<string, Option<string>>)
    requires ElementAt(s).Some?
    ensures var e := ElementAt(s).value;
      PatchXmlContent(s, replacements) == ReplaceTag(e, replacements) + PatchXmlContent(s[|ElementText(e)|..], replacements)
    ensures var e := ElementAt(s).value;
      e.tag !in replacements ==> ElementText(e) <= PatchXmlContent(s, replacements)
  {
  }

  /** Where no match starts, the character is copied and the scan moves on by one. */
  lemma PatchOutside(s: string, replacements: map<string, Option<string>>)
    requires s != [] && ElementAt(s).None?
    ensures PatchXmlContent(s, replacements) == [s[0]] + PatchXmlContent(s[1..], replacements)
  {
  }

  /**
   * A tag name holds no whitespace: when a whitespace character comes after
   * `<` before any `>` (an opening tag with attributes), no match starts there.
   */
  lemma AttributedTagNeverMatches(s: string, k: nat)
    requires s != [] && s[0] == '<'
    requires 1 <= k < |s| && IsSpace(s[k])
    requires forall i :: 1 <= i < k ==> s[i] != '>'
    ensures ElementAt(s).None?
  {
    forall m: nat ensures !TagWorks(s, m) {
      if 1 <= m && m + 1 < |s| && k <= m {
        assert s[1..m + 1][k - 1] == s[k];
      }
    }
  }

  /** A source file of the swapper: its name and the (tag, text) pairs of its root's children. */
  datatype SourceFile = SourceFile(name: string, children: seq<(string, Option<string>)>)

  /** `src_file.lower().endswith('.xml')`. */
  predicate IsXmlFile(name: string) {
    EndsWith(Lower(name), ".xml")
  }

  /** The assignments the patch_dict loop makes, in order: the children of every `.xml` source file. */
  function PatchEntries(files: seq<SourceFile>): seq<(string, Option<string>)> {
    if files == [] then []
    else
      var f := files[|files| - 1];
      PatchEntries(files[..|files| - 1]) + (if IsXmlFile(f.name) then f.children else [])
  }

  /** The patch_dict loop: `patch_dict.update({elem.tag: elem.text for elem in root})` per `.xml` file. */
  method BuildPatchDict(files: seq<SourceFile>) returns (patch: map<string, Option<string>>)
    ensures patch == LastWins(PatchEntries(files))
  {
    patch := map[];
    var i := 0;
    while i < |files|
      invariant i <= |files|
      invariant patch == LastWins(PatchEntries(files[..i]))
    {
      var f := files[i];
      assert files[..i + 1][..i] == files[..i] && files[..i + 1][i] == f;
      if IsXmlFile(f.name) {
        assert PatchEntries(files[..i + 1]) == PatchEntries(files[..i]) + f.children;
        LastWinsAppend(PatchEntries(files[..i]), f.children);
        patch := patch + LastWins(f.children);
      } else {
        assert PatchEntries(files[..i + 1]) == PatchEntries(files[..i]) + [];
        assert PatchEntries(files[..i]) + [] == PatchEntries(files[..i]);
      }
      i := i + 1;
    }
    assert files[..i] == files;
  }

  /**
   * The patch dictionary has a tag exactly when some child of an `.xml`
   * source file has it, and keeps the text of the last such child.
   */
  lemma PatchDictLastWins(files: seq<SourceFile>, i: nat)
    requires i < |PatchEntries(files)|
    requires forall j :: i < j < |PatchEntries(files)| ==> PatchEntries(files)[j].0 != PatchEntries(files)[i].0
    ensures PatchEntries(files)[i].0 in LastWins(PatchEntries(files))
    ensures LastWins(PatchEntries(files))[PatchEntries(files)[i].0] == PatchEntries(files)[i].1
  {
    LastWinsValue(PatchEntries(files), i);
  }

  lemma PatchDictKeys(files: seq<SourceFile>, tag: string)
    ensures tag in LastWins(PatchEntries(files)) <==> exists i :: 0 <= i < |PatchEntries(files)| && PatchEntries(files)[i].0 == tag
  {
    LastWinsKeys(PatchEntries(files), tag);
  }

  /** Lines 78-80 for one target: the target normalised, patched, normalised again. */
  datatype Swap = Swap(originalNormalized: string, modifiedNormalized: string)

  function SwapTarget(content: string, patch: map<string, Option<string>>): (r: Swap)
    ensures NormalizeFormatting(r.originalNormalized) == r.originalNormalized
    ensures NormalizeFormatting(r.modifiedNormalized) == r.modifiedNormalized
  {
    NormalizeFormattingIdempotent(content);
    var m := PatchXmlContent(NormalizeFormatting(content), patch);
    NormalizeFormattingIdempotent(m);
    Swap(NormalizeFormatting(content), NormalizeFormatting(m))
  }

  /** With nothing to patch, the target is reported unchanged (no diff). */
  lemma SwapEmptyPatch(content: string)
    ensures SwapTarget(content, map[]).modifiedNormalized == SwapTarget(content, map[]).originalNormalized
  {
    PatchEmpty(NormalizeFormatting(content));
    NormalizeFormattingIdempotent(content);
  }

  const DiffSuffix := ".diff.txt"

  /** What process_all_files writes for one `.xml` target. */
  datatype Write = SaveOutput(name: string, text: string) | SaveDiff(name: string, original: string, modified: string)

  /**
   * The writes for one target: with preview on, nothing unless the answer,
   * lower-cased, is "y"; then the output file, and a diff only when the
   * normalised texts differ.
   */
  function TargetWrites(name: string, content: string, patch: map<string, Option<string>>, preview: bool, answer: string): seq<Write> {
    var r := SwapTarget(content, patch);
    if preview && Lower(answer) != "y" then []
    else
      [SaveOutput(name, r.modifiedNormalized)]
      + (if r.originalNormalized != r.modifiedNormalized then [SaveDiff(name + DiffSuffix, r.originalNormalized, r.modifiedNormalized)] else [])
  }

  lemma TargetWritesRule(name: string, content: string, patch: map<string, Option<string>>, preview: bool, answer: string)
    ensures var w := TargetWrites(name, content, patch, preview, answer);
      var r := SwapTarget(content, patch);
      && (preview && Lower(answer) != "y" ==> w == [])
      && (!preview || Lower(answer) == "y" ==> SaveOutput(name, r.modifiedNormalized) in w)
      && (forall d :: d in w && d.SaveDiff? ==> d == SaveDiff(name + DiffSuffix, r.originalNormalized, r.modifiedNormalized) && d.original != d.modified)
      && ((!preview || Lower(answer) == "y") && r.originalNormalized != r.modifiedNormalized ==>
            w == [SaveOutput(name, r.modifiedNormalized), SaveDiff(name + DiffSuffix, r.originalNormalized, r.modifiedNormalized)])
      && ((!preview || Lower(answer) == "y") && r.originalNormalized == r.modifiedNormalized ==>
            w == [SaveOutput(name, r.modifiedNormalized)])
  {
    var r := SwapTarget(content, patch);
    WritesRule(name, r, preview, answer, TargetWrites(name, content, patch, preview, answer));
  }

  /** The writes for one target, given its two normalised texts. */
  lemma WritesRule(name: string, r: Swap, preview: bool, answer: string, w: seq<Write>)
    requires w == if preview && Lower(answer) != "y" then [] else
      [SaveOutput(name, r.modifiedNormalized)]
      + (if r.originalNormalized != r.modifiedNormalized then [SaveDiff(name + DiffSuffix, r.originalNormalized, r.modifiedNormalized)] else [])
    ensures && (preview && Lower(answer) != "y" ==> w == [])
      && (!preview || Lower(answer) == "y" ==> SaveOutput(name, r.modifiedNormalized) in w)
      && (forall d :: d in w && d.SaveDiff? ==> d == SaveDiff(name + DiffSuffix, r.originalNormalized, r.modifiedNormalized) && d.original != d.modified)
      && ((!preview || Lower(answer) == "y") && r.originalNormalized != r.modifiedNormalized ==>
            w == [SaveOutput(name, r.modifiedNormalized), SaveDiff(name + DiffSuffix, r.originalNormalized, r.modifiedNormalized)])
      && ((!preview || Lower(answer) == "y") && r.originalNormalized == r.modifiedNormalized ==>
            w == [SaveOutput(name, r.modifiedNormalized)])
  {
  }
}
