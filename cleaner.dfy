/**
 * The language-file cleaner: it walks the comments and `<Item>` elements of
 * every source file, files each identified Item under
 * `subfolder_stem -> category`, keeps the first occurrence of each identifier
 * per category, records identifiers that lack a name or a description, and
 * writes the organised language file.
 */
module Cleaner {
  import opened Wrappers
  import opened Strings
  import opened StringOrder

  /** What `tree.iter()` yields, as far as the cleaner looks at it. */
  datatype Event =
    | Comment(text: string)
    | ItemElem(identifier: Option<string>)
    | OtherElem

  /** `s.startswith(prefix)`. */
  predicate StartsWith(s: string, prefix: string) {
    |prefix| <= |s| && s[..|prefix|] == prefix
  }

  /** A comment that sets the category: stripped, non-empty and not starting with "+++". */
  predicate IsHeading(e: Event) {
    e.Comment? && Strip(e.text) != [] && !StartsWith(Strip(e.text), "+++")
  }

  /** `current_category` after the events seen so far. */
  function CategoryAfter(events: seq<Event>): Option<string>
  {
    if events == [] then None
    else
      var e := events[|events| - 1];
      if IsHeading(e) then Some(Strip(e.text)) else CategoryAfter(events[..|events| - 1])
  }

  /** `if not ident: continue`: an Item without the attribute, or with an empty one, is skipped. */
  predicate Identified(e: Event) {
    e.ItemElem? && e.identifier.Some? && e.identifier.value != []
  }

  /** The `(current_category, ident)` pairs collected from the events, in document order. */
  function ItemsOf(events: seq<Event>): seq<(Option<string>, string)>
  {
    if events == [] then []
    else
      var init := events[..|events| - 1];
      var e := events[|events| - 1];
      if Identified(e) then ItemsOf(init) + [(CategoryAfter(init), e.identifier.value)]
      else ItemsOf(init)
  }

  /** The identifiers of `items` without an entry in `lang`, in order and with repetitions. */
  function MissingIn(items: seq<(Option<string>, string)>, lang: map<string, string>): seq<string>
  {
    if items == [] then []
    else
      var id := items[|items| - 1].1;
      MissingIn(items[..|items| - 1], lang) + (if id !in lang then [id] else [])
  }

  lemma CategorySnoc(events: seq<Event>, e: Event)
    ensures CategoryAfter(events + [e]) == if IsHeading(e) then Some(Strip(e.text)) else CategoryAfter(events)
  {
    assert (events + [e])[..|events|] == events;
  }

  lemma ItemsSnoc(events: seq<Event>, e: Event)
    ensures ItemsOf(events + [e]) ==
      if Identified(e) then ItemsOf(events) + [(CategoryAfter(events), e.identifier.value)] else ItemsOf(events)
  {
    assert (events + [e])[..|events|] == events;
  }

  /** One more event of a file: how the category and the items move on. */
  lemma FoldStep(events: seq<Event>, i: nat)
    requires i < |events|
    ensures var e := events[i];
      && CategoryAfter(events[..i + 1]) == (if IsHeading(e) then Some(Strip(e.text)) else CategoryAfter(events[..i]))
      && ItemsOf(events[..i + 1]) ==
        if Identified(e) then ItemsOf(events[..i]) + [(CategoryAfter(events[..i]), e.identifier.value)] else ItemsOf(events[..i])
  {
    assert events[..i + 1] == events[..i] + [events[i]];
    CategorySnoc(events[..i], events[i]);
    ItemsSnoc(events[..i], events[i]);
  }

  lemma MissingSnoc(items: seq<(Option<string>, string)>, item: (Option<string>, string), lang: map<string, string>)
    ensures MissingIn(items + [item], lang) == MissingIn(items, lang) + (if item.1 !in lang then [item.1] else [])
  {
    assert (items + [item])[..|items|] == items;
  }

  /** `MissingSnoc` behind what the list already held. */
  lemma MissingSnocAfter(m0: seq<string>, items: seq<(Option<string>, string)>, item: (Option<string>, string), lang: map<string, string>)
    ensures m0 + MissingIn(items + [item], lang) ==
      if item.1 !in lang then m0 + MissingIn(items, lang) + [item.1] else m0 + MissingIn(items, lang)
  {
    MissingSnoc(items, item, lang);
    SeqAssoc(m0, MissingIn(items, lang), [item.1]);
    EmptySuffix(MissingIn(items, lang));
  }

  /**
   * The category is the stripped text of the last heading comment, and stays
   * `None` while there has been none.
   */
  lemma CategoryIsLastHeading(events: seq<Event>)
    ensures CategoryAfter(events).None? <==> forall i :: 0 <= i < |events| ==> !IsHeading(events[i])
    ensures CategoryAfter(events).Some? ==> exists i ::
      && 0 <= i < |events| && IsHeading(events[i]) && CategoryAfter(events) == Some(Strip(events[i].text))
      && forall j :: i < j < |events| ==> !IsHeading(events[j])
  {
    CategoryNoneIff(events);
    if CategoryAfter(events).Some? {
      var i := LastHeading(events);
    }
  }

  lemma {:induction false} CategoryNoneIff(events: seq<Event>)
    ensures CategoryAfter(events).None? <==> forall i :: 0 <= i < |events| ==> !IsHeading(events[i])
  {
    if events != [] {
      var init := events[..|events| - 1];
      CategoryNoneIff(init);
      assert forall i :: 0 <= i < |init| ==> init[i] == events[i];
    }
  }

  /** The position of the heading that set the current category. */
  lemma {:induction false} LastHeading(events: seq<Event>) returns (i: nat)
    requires CategoryAfter(events).Some?
    ensures i < |events| && IsHeading(events[i]) && CategoryAfter(events) == Some(Strip(events[i].text))
    ensures forall j :: i < j < |events| ==> !IsHeading(events[j])
  {
    var n := |events| - 1;
    if IsHeading(events[n]) {
      i := n;
    } else {
      var init := events[..n];
      i := LastHeading(init);
      assert init[i] == events[i];
      assert forall j :: i < j < n ==> init[j] == events[j];
    }
  }

  /**
   * A pair is collected exactly for an identified Item, together with the
   * category in force just before it.
   */
  lemma {:induction false} ItemsOfMembers(events: seq<Event>, c: Option<string>, id: string)
    ensures (c, id) in ItemsOf(events) <==> exists i ::
      0 <= i < |events| && Identified(events[i]) && events[i].identifier.value == id && c == CategoryAfter(events[..i])
  {
    if events != [] {
      var init := events[..|events| - 1];
      var e := events[|events| - 1];
      ItemsOfMembers(init, c, id);
      assert forall i :: 0 <= i < |init| ==> init[i] == events[i] && init[..i] == events[..i];
      assert events[..|events| - 1] == init;
    }
  }

  /** An identifier is recorded as missing exactly when an item carries it and `lang` has no entry for it. */
  lemma {:induction false} MissingInMembers(items: seq<(Option<string>, string)>, lang: map<string, string>, id: string)
    ensures id in MissingIn(items, lang) <==> id !in lang && exists i :: 0 <= i < |items| && items[i].1 == id
  {
    if items != [] {
      var init := items[..|items| - 1];
      MissingInMembers(init, lang, id);
      assert forall i :: 0 <= i < |init| ==> init[i] == items[i];
    }
  }

  /** One entry per item without an entry in `lang`: the list grows by one for each such item. */
  lemma {:induction false} MissingInCount(items: seq<(Option<string>, string)>, lang: map<string, string>)
    ensures |MissingIn(items, lang)| == |set i | 0 <= i < |items| && items[i].1 !in lang|
  {
    if items != [] {
      var n := |items| - 1;
      var init := items[..n];
      MissingInCount(init, lang);
      var a := set i | 0 <= i < |init| && init[i].1 !in lang;
      var b := set i | 0 <= i < |items| && items[i].1 !in lang;
      assert forall i :: 0 <= i < n ==> init[i] == items[i];
      if items[n].1 !in lang {
        assert b == a + {n};
      } else {
        assert b == a;
      }
    }
  }

  /** `os.path.splitext(name)[0]` for a name without directory separators. */
  function Stem(name: string): (r: string)
    ensures r <= name
  {
    match LastDot(name)
    case None => name
    case Some(d) => if exists j :: 0 <= j < d && name[j] != '.' then name[..d] else name
  }

  /** Index of the last '.' in `s`. */
  function LastDot(s: string): (r: Option<nat>)
    ensures r.Some? ==> r.value < |s| && s[r.value] == '.' && forall j :: r.value < j < |s| ==> s[j] != '.'
    ensures r.None? ==> forall j :: 0 <= j < |s| ==> s[j] != '.'
  {
    if s == [] then None
    else if s[|s| - 1] == '.' then Some(|s| - 1)
    else LastDot(s[..|s| - 1])
  }

  /** A `.xml` name with something other than dots before the extension loses exactly ".xml". */
  lemma StemOfXml(name: string)
    requires EndsWith(name, ".xml")
    requires exists j :: 0 <= j < |name| - 4 && name[j] != '.'
    ensures Stem(name) == name[..|name| - 4]
  {
    var d := |name| - 4;
    assert name[d..] == ".xml";
    assert name[d] == '.';
    assert forall j :: d < j < |name| ==> name[j] != '.' by {
      forall j | d < j < |name| ensures name[j] != '.' {
        assert name[j] == name[d..][j - d];
      }
    }
    assert LastDot(name) == Some(d);
  }

  /** `f"{subfolder}_{os.path.splitext(filename)[0]}"`. */
  function GroupKey(subfolder: string, filename: string): string {
    subfolder + "_" + Stem(filename)
  }

  /** `category or "Uncategorized"`. */
  function CategoryName(category: Option<string>): (r: string)
    ensures r != []
    ensures category.None? ==> r == "Uncategorized"
    ensures category.Some? && category.value != [] ==> r == category.value
  {
    if category.None? || category.value == [] then "Uncategorized" else category.value
  }

  /** One organised entry: `(ident, lang_names.get(ident), lang_descs.get(ident))`. */
  datatype Entry = Entry(ident: string, name: Option<string>, desc: Option<string>)

  /** A category list of one group. */
  datatype Category = Category(name: string, entries: seq<Entry>)

  /** A group of `organized`, in insertion order of its categories. */
  datatype Group = Group(key: string, categories: seq<Category>)

  function Get(lang: map<string, string>, id: string): Option<string> {
    if id in lang then Some(lang[id]) else None
  }

  function Idents(es: seq<Entry>): (r: seq<string>)
    ensures |r| == |es| && forall i :: 0 <= i < |es| ==> r[i] == es[i].ident
  {
    seq(|es|, i requires 0 <= i < |es| => es[i].ident)
  }

  /** `if ident not in [i[0] for i in cat_group]: cat_group.append(entry)`. */
  function AddToEntries(es: seq<Entry>, e: Entry): seq<Entry> {
    if e.ident in Idents(es) then es else es + [e]
  }

  /** `folder_group.setdefault(name, [])` followed by the guarded append. */
  function AddToCategories(cs: seq<Category>, name: string, e: Entry): seq<Category>
  {
    if cs == [] then [Category(name, [e])]
    else if cs[0].name == name then [Category(name, AddToEntries(cs[0].entries, e))] + cs[1..]
    else [cs[0]] + AddToCategories(cs[1..], name, e)
  }

  /** `organized.setdefault(key, {})` followed by the category update. */
  function AddEntry(gs: seq<Group>, key: string, name: string, e: Entry): seq<Group>
  {
    if gs == [] then [Group(key, [Category(name, [e])])]
    else if gs[0].key == key then [Group(key, AddToCategories(gs[0].categories, name, e))] + gs[1..]
    else [gs[0]] + AddEntry(gs[1..], key, name, e)
  }

  /** The list of one category of one group, empty when absent. */
  function CategoryOf(cs: seq<Category>, name: string): seq<Entry> {
    if cs == [] then []
    else if cs[0].name == name then cs[0].entries
    else CategoryOf(cs[1..], name)
  }

  function CategoriesOf(gs: seq<Group>, key: string): seq<Category> {
    if gs == [] then []
    else if gs[0].key == key then gs[0].categories
    else CategoriesOf(gs[1..], key)
  }

  function Keys(gs: seq<Group>): (r: seq<string>)
    ensures |r| == |gs| && forall i :: 0 <= i < |gs| ==> r[i] == gs[i].key
  {
    seq(|gs|, i requires 0 <= i < |gs| => gs[i].key)
  }

  function Names(cs: seq<Category>): (r: seq<string>)
    ensures |r| == |cs| && forall i :: 0 <= i < |cs| ==> r[i] == cs[i].name
  {
    seq(|cs|, i requires 0 <= i < |cs| => cs[i].name)
  }

  lemma AddToCategoriesLookup(cs: seq<Category>, name: string, e: Entry, n: string)
    ensures CategoryOf(AddToCategories(cs, name, e), n) ==
      if n == name then AddToEntries(CategoryOf(cs, name), e) else CategoryOf(cs, n)
  {
    if cs != [] && cs[0].name != name {
      AddToCategoriesLookup(cs[1..], name, e, n);
    }
  }

  lemma AddEntryLookup(gs: seq<Group>, key: string, name: string, e: Entry, k: string, n: string)
    ensures CategoryOf(CategoriesOf(AddEntry(gs, key, name, e), k), n) ==
      if k == key && n == name then AddToEntries(CategoryOf(CategoriesOf(gs, key), name), e)
      else CategoryOf(CategoriesOf(gs, k), n)
  {
    if gs == [] {
    } else if gs[0].key == key {
      AddToCategoriesLookup(gs[0].categories, name, e, n);
    } else {
      AddEntryLookup(gs[1..], key, name, e, k, n);
    }
  }

  lemma {:induction false} AddEntryKeys(gs: seq<Group>, key: string, name: string, e: Entry)
    ensures Keys(AddEntry(gs, key, name, e)) == if key in Keys(gs) then Keys(gs) else Keys(gs) + [key]
  {
    if gs == [] {
      KeysCons(Group(key, [Category(name, [e])]), []);
      EmptyPrefix([key]);
    } else {
      var g, rest := gs[0], gs[1..];
      GroupsCons(gs);
      KeysCons(g, rest);
      if g.key == key {
        KeysCons(Group(key, AddToCategories(g.categories, name, e)), rest);
        assert Keys(gs)[0] == key;
      } else {
        AddEntryKeys(rest, key, name, e);
        KeysCons(g, AddEntry(rest, key, name, e));
        AddEntryKeysOther(g.key, Keys(rest), key, Keys(AddEntry(rest, key, name, e)));
      }
    }
  }

  lemma GroupsCons(gs: seq<Group>)
    requires gs != []
    ensures gs == [gs[0]] + gs[1..]
  {
  }

  lemma KeysCons(g: Group, gs: seq<Group>)
    ensures Keys([g] + gs) == [g.key] + Keys(gs)
  {
  }

  /** The recursive step of `AddEntryKeys`, behind a first group of another key. */
  lemma AddEntryKeysOther(k: string, ks: seq<string>, key: string, ks': seq<string>)
    requires k != key && ks' == if key in ks then ks else ks + [key]
    ensures [k] + ks' == if key in [k] + ks then [k] + ks else [k] + ks + [key]
  {
    assert key in [k] + ks <==> key in ks;
    SeqAssoc([k], ks, [key]);
  }

  /** Each value once, in order of first occurrence. */
  function Dedup(xs: seq<string>): seq<string>
  {
    if xs == [] then []
    else
      var d := Dedup(xs[..|xs| - 1]);
      var x := xs[|xs| - 1];
      if x in d then d else d + [x]
  }

  lemma DedupSnoc(xs: seq<string>, x: string)
    ensures Dedup(xs + [x]) == if x in Dedup(xs) then Dedup(xs) else Dedup(xs) + [x]
  {
    assert (xs + [x])[..|xs|] == xs;
  }

  lemma {:induction false} DedupMembers(xs: seq<string>)
    ensures forall x :: x in Dedup(xs) <==> x in xs
  {
    if xs != [] {
      var init := xs[..|xs| - 1];
      DedupMembers(init);
      assert xs == init + [xs[|xs| - 1]];
    }
  }

  predicate Distinct(xs: seq<string>) {
    forall i, j :: 0 <= i < j < |xs| ==> xs[i] != xs[j]
  }

  lemma {:induction false} DedupDistinct(xs: seq<string>)
    ensures Distinct(Dedup(xs))
  {
    if xs != [] {
      DedupDistinct(xs[..|xs| - 1]);
    }
  }

  /** One call of the grouping loop: file `ident` under group `key`, category `category`. */
  datatype Addition = Addition(key: string, category: Option<string>, ident: string)

  /** `organized` after the additions, made in order with the given name and description maps. */
  function AddAll(gs: seq<Group>, adds: seq<Addition>, names: map<string, string>, descs: map<string, string>): seq<Group>
  {
    if adds == [] then gs
    else
      var a := adds[|adds| - 1];
      AddEntry(AddAll(gs, adds[..|adds| - 1], names, descs), a.key, CategoryName(a.category), Entry(a.ident, Get(names, a.ident), Get(descs, a.ident)))
  }

  lemma AddAllSnoc(gs: seq<Group>, adds: seq<Addition>, a: Addition, names: map<string, string>, descs: map<string, string>)
    ensures AddAll(gs, adds + [a], names, descs) ==
      AddEntry(AddAll(gs, adds, names, descs), a.key, CategoryName(a.category), Entry(a.ident, Get(names, a.ident), Get(descs, a.ident)))
  {
    assert (adds + [a])[..|adds|] == adds;
  }

  lemma {:induction false} AddAllAppend(gs: seq<Group>, a: seq<Addition>, b: seq<Addition>, names: map<string, string>, descs: map<string, string>)
    ensures AddAll(gs, a + b, names, descs) == AddAll(AddAll(gs, a, names, descs), b, names, descs)
    decreases |b|
  {
    if b == [] {
      assert a + b == a;
    } else {
      var init := b[..|b| - 1];
      var last := b[|b| - 1];
      assert a + b == (a + init) + [last];
      assert b == init + [last];
      AddAllSnoc(gs, a + init, last, names, descs);
      AddAllSnoc(AddAll(gs, a, names, descs), init, last, names, descs);
      AddAllAppend(gs, a, init, names, descs);
    }
  }

  /** The identifiers of the additions made to one (group, category) list, in order. */
  function IdentsFor(adds: seq<Addition>, key: string, name: string): seq<string>
  {
    if adds == [] then []
    else
      var a := adds[|adds| - 1];
      IdentsFor(adds[..|adds| - 1], key, name) + (if a.key == key && CategoryName(a.category) == name then [a.ident] else [])
  }

  function KeysOf(adds: seq<Addition>): (r: seq<string>)
    ensures |r| == |adds| && forall i :: 0 <= i < |adds| ==> r[i] == adds[i].key
  {
    seq(|adds|, i requires 0 <= i < |adds| => adds[i].key)
  }

  /**
   * Grouping from scratch: each (group, category) list holds the identifiers
   * filed under it, each once, in order of first occurrence.
   */
  lemma {:induction false} GroupedIdents(adds: seq<Addition>, names: map<string, string>, descs: map<string, string>, key: string, name: string)
    ensures Idents(CategoryOf(CategoriesOf(AddAll([], adds, names, descs), key), name)) == Dedup(IdentsFor(adds, key, name))
  {
    if adds != [] {
      var init := adds[..|adds| - 1];
      var a := adds[|adds| - 1];
      var before := AddAll([], init, names, descs);
      var e := Entry(a.ident, Get(names, a.ident), Get(descs, a.ident));
      GroupedIdents(init, names, descs, key, name);
      AddEntryLookup(before, a.key, CategoryName(a.category), e, key, name);
      if a.key == key && CategoryName(a.category) == name {
        DedupSnoc(IdentsFor(init, key, name), a.ident);
        var es := CategoryOf(CategoriesOf(before, key), name);
        if a.ident !in Idents(es) {
          assert Idents(es + [e]) == Idents(es) + [a.ident];
        }
      } else {
        assert IdentsFor(adds, key, name) == IdentsFor(init, key, name) + [];
        assert IdentsFor(init, key, name) + [] == IdentsFor(init, key, name);
      }
    }
  }

  /** Every entry carries `lang_names.get` and `lang_descs.get` of its identifier. */
  predicate LookedUp(es: seq<Entry>, names: map<string, string>, descs: map<string, string>) {
    forall i :: 0 <= i < |es| ==> es[i] == Entry(es[i].ident, Get(names, es[i].ident), Get(descs, es[i].ident))
  }

  /** The entries the grouping loop builds for the identifiers `d`, in that order. */
  function EntriesOf(d: seq<string>, names: map<string, string>, descs: map<string, string>): (r: seq<Entry>)
    ensures |r| == |d| && forall i :: 0 <= i < |d| ==> r[i] == Entry(d[i], Get(names, d[i]), Get(descs, d[i]))
  {
    seq(|d|, i requires 0 <= i < |d| => Entry(d[i], Get(names, d[i]), Get(descs, d[i])))
  }

  lemma LookedUpIsEntriesOf(es: seq<Entry>, names: map<string, string>, descs: map<string, string>)
    requires LookedUp(es, names, descs)
    ensures es == EntriesOf(Idents(es), names, descs)
  {
  }

  lemma LookedUpAdd(es: seq<Entry>, e: Entry, names: map<string, string>, descs: map<string, string>)
    requires LookedUp(es, names, descs) && e == Entry(e.ident, Get(names, e.ident), Get(descs, e.ident))
    ensures LookedUp(AddToEntries(es, e), names, descs)
  {
  }

  /** Grouping from scratch only files entries built from the two maps. */
  lemma {:induction false} GroupedLookedUp(adds: seq<Addition>, names: map<string, string>, descs: map<string, string>, key: string, name: string)
    ensures LookedUp(CategoryOf(CategoriesOf(AddAll([], adds, names, descs), key), name), names, descs)
  {
    if adds != [] {
      var init := adds[..|adds| - 1];
      var a := adds[|adds| - 1];
      var before := AddAll([], init, names, descs);
      var e := Entry(a.ident, Get(names, a.ident), Get(descs, a.ident));
      GroupedLookedUp(init, names, descs, key, name);
      AddEntryLookup(before, a.key, CategoryName(a.category), e, key, name);
      if a.key == key && CategoryName(a.category) == name {
        LookedUpAdd(CategoryOf(CategoriesOf(before, key), name), e, names, descs);
      }
    }
  }

  /**
   * Grouping from scratch: each (group, category) list holds, for each
   * identifier filed under it once in order of first occurrence, the entry
   * `(ident, lang_names.get(ident), lang_descs.get(ident))`.
   */
  lemma GroupedEntries(adds: seq<Addition>, names: map<string, string>, descs: map<string, string>, key: string, name: string)
    ensures CategoryOf(CategoriesOf(AddAll([], adds, names, descs), key), name) ==
      EntriesOf(Dedup(IdentsFor(adds, key, name)), names, descs)
  {
    var es := CategoryOf(CategoriesOf(AddAll([], adds, names, descs), key), name);
    GroupedLookedUp(adds, names, descs, key, name);
    LookedUpIsEntriesOf(es, names, descs);
    GroupedIdents(adds, names, descs, key, name);
  }

  lemma KeysOfSnoc(adds: seq<Addition>)
    requires adds != []
    ensures KeysOf(adds) == KeysOf(adds[..|adds| - 1]) + [adds[|adds| - 1].key]
  {
  }

  /** The groups appear in order of their first item, each once. */
  lemma {:induction false} GroupedKeys(adds: seq<Addition>, names: map<string, string>, descs: map<string, string>)
    ensures Keys(AddAll([], adds, names, descs)) == Dedup(KeysOf(adds))
  {
    if adds != [] {
      var init := adds[..|adds| - 1];
      var a := adds[|adds| - 1];
      GroupedKeys(init, names, descs);
      AddEntryKeys(AddAll([], init, names, descs), a.key, CategoryName(a.category), Entry(a.ident, Get(names, a.ident), Get(descs, a.ident)));
      KeysOfSnoc(adds);
      DedupSnoc(KeysOf(init), a.key);
    }
  }

  // ---- Output (lines 73-84) ----

  const Declaration := "<?xml version=\"1.0\" encoding=\"utf-8\"?>"
  const RootOpen := "<infotexts language=\"English\">"
  const RootClose := "</infotexts>"

  /** A name or a description is written only when present and non-empty (`if name:`). */
  predicate Present(v: Option<string>) {
    v.Some? && v.value != []
  }

  function NameLine(ident: string, name: string): string {
    "            <entityname." + ident + ">" + name + "</entityname." + ident + ">"
  }

  function DescLine(ident: string, desc: string): string {
    "            <entitydescription." + ident + ">" + desc + "</entitydescription." + ident + ">"
  }

  function EntryLines(e: Entry): seq<string> {
    (if Present(e.name) then [NameLine(e.ident, e.name.value)] else [])
    + (if Present(e.desc) then [DescLine(e.ident, e.desc.value)] else [])
  }

  function EntriesLines(es: seq<Entry>): seq<string> {
    if es == [] then [] else EntryLines(es[0]) + EntriesLines(es[1..])
  }

  function CategoriesLines(cs: seq<Category>): seq<string> {
    if cs == [] then []
    else ["        <!--" + cs[0].name + "-->"] + EntriesLines(cs[0].entries) + CategoriesLines(cs[1..])
  }

  function GroupsLines(gs: seq<Group>): seq<string> {
    if gs == [] then []
    else ["    <!--" + gs[0].key + "-->"] + CategoriesLines(gs[0].categories) + GroupsLines(gs[1..])
  }

  /** The lines written to the organised language file, each followed by "\n". */
  function OutputLines(gs: seq<Group>): seq<string> {
    [Declaration, RootOpen] + GroupsLines(gs) + [RootClose]
  }

  function Unlines(lines: seq<string>): string {
    if lines == [] then [] else lines[0] + "\n" + Unlines(lines[1..])
  }

  /** The file starts with the declaration and the root element and ends with its closing tag. */
  lemma OutputFrame(gs: seq<Group>)
    ensures StartsWith(Unlines(OutputLines(gs)), Declaration + "\n" + RootOpen + "\n")
    ensures EndsWith(Unlines(OutputLines(gs)), RootClose + "\n")
  {
    var ls := OutputLines(gs);
    UnlinesAppend([Declaration, RootOpen], GroupsLines(gs) + [RootClose]);
    UnlinesAppend(GroupsLines(gs), [RootClose]);
    assert Unlines([Declaration, RootOpen]) == Declaration + "\n" + RootOpen + "\n";
    assert ls == [Declaration, RootOpen] + (GroupsLines(gs) + [RootClose]);
    var body := Unlines(GroupsLines(gs));
    assert Unlines(ls) == (Declaration + "\n" + RootOpen + "\n") + (body + (RootClose + "\n"));
  }

  lemma {:induction false} UnlinesAppend(a: seq<string>, b: seq<string>)
    ensures Unlines(a + b) == Unlines(a) + Unlines(b)
  {
    if a != [] {
      assert (a + b)[1..] == a[1..] + b;
      UnlinesAppend(a[1..], b);
    } else {
      assert a + b == b;
    }
  }

  /** An entry writes its name line exactly when the name is non-empty, and likewise its description line. */
  lemma EntryLinesRule(e: Entry)
    ensures Present(e.name) ==> NameLine(e.ident, e.name.value) in EntryLines(e)
    ensures Present(e.desc) ==> DescLine(e.ident, e.desc.value) in EntryLines(e)
    ensures |EntryLines(e)| == (if Present(e.name) then 1 else 0) + (if Present(e.desc) then 1 else 0)
    ensures forall l :: l in EntryLines(e) ==>
      (Present(e.name) && l == NameLine(e.ident, e.name.value)) || (Present(e.desc) && l == DescLine(e.ident, e.desc.value))
  {
  }

  /** Every entry of every category of every group has its lines in the file. */
  lemma EntryWritten(gs: seq<Group>, g: Group, c: Category, e: Entry, l: string)
    requires g in gs && c in g.categories && e in c.entries && l in EntryLines(e)
    ensures l in OutputLines(gs)
  {
    EntryInEntries(c.entries, e, l);
    CategoryInCategories(g.categories, c, l);
    GroupInGroups(gs, g, l);
  }

  lemma {:induction false} EntryInEntries(es: seq<Entry>, e: Entry, l: string)
    requires e in es && l in EntryLines(e)
    ensures l in EntriesLines(es)
  {
    if es[0] != e {
      EntryInEntries(es[1..], e, l);
    }
  }

  lemma {:induction false} CategoryInCategories(cs: seq<Category>, c: Category, l: string)
    requires c in cs && l in EntriesLines(c.entries)
    ensures l in CategoriesLines(cs)
  {
    if cs[0] != c {
      CategoryInCategories(cs[1..], c, l);
    }
  }

  lemma {:induction false} GroupInGroups(gs: seq<Group>, g: Group, l: string)
    requires g in gs && l in CategoriesLines(g.categories)
    ensures l in GroupsLines(gs)
  {
    if gs[0] != g {
      GroupInGroups(gs[1..], g, l);
    }
  }

  /** The identifiers of a grouping always appear once per list, and the groups once each. */
  lemma GroupingDistinct(adds: seq<Addition>, names: map<string, string>, descs: map<string, string>, key: string, name: string)
    ensures Distinct(Idents(CategoryOf(CategoriesOf(AddAll([], adds, names, descs), key), name)))
    ensures Distinct(Keys(AddAll([], adds, names, descs)))
  {
    GroupedIdents(adds, names, descs, key, name);
    DedupDistinct(IdentsFor(adds, key, name));
    GroupedKeys(adds, names, descs);
    DedupDistinct(KeysOf(adds));
  }

  lemma {:induction false} MissingAppend(a: seq<(Option<string>, string)>, b: seq<(Option<string>, string)>, lang: map<string, string>)
    ensures MissingIn(a + b, lang) == MissingIn(a, lang) + MissingIn(b, lang)
    decreases |b|
  {
    if b == [] {
      assert a + b == a;
    } else {
      var init := b[..|b| - 1];
      var last := b[|b| - 1];
      assert a + b == (a + init) + [last];
      assert b == init + [last];
      MissingSnoc(a + init, last, lang);
      MissingSnoc(init, last, lang);
      MissingAppend(a, init, lang);
    }
  }

  // ---- The walk over the source folders (lines 53-68) ----

  /** A listed file of a sub-folder with its parse; `None` when parsing failed (collect_items_from_file returns `[]`). */
  datatype SourceFile = SourceFile(filename: string, events: Option<seq<Event>>)

  /** An entry of the source root: its name, whether it is a directory, and its listed files. */
  datatype Folder = Folder(name: string, isDir: bool, files: seq<SourceFile>)

  function FileItems(f: SourceFile): seq<(Option<string>, string)> {
    if f.events.None? then [] else ItemsOf(f.events.value)
  }

  function AdditionsOf(key: string, items: seq<(Option<string>, string)>): (r: seq<Addition>)
    ensures |r| == |items| && forall i :: 0 <= i < |items| ==> r[i] == Addition(key, items[i].0, items[i].1)
  {
    seq(|items|, i requires 0 <= i < |items| => Addition(key, items[i].0, items[i].1))
  }

  lemma AdditionsSnoc(key: string, items: seq<(Option<string>, string)>, j: nat)
    requires j < |items|
    ensures AdditionsOf(key, items[..j + 1]) == AdditionsOf(key, items[..j]) + [Addition(key, items[j].0, items[j].1)]
  {
  }

  /** `filename.endswith(".xml")`. */
  predicate Visited(f: SourceFile) {
    EndsWith(f.filename, ".xml")
  }

  /** The items a listed file contributes: none unless its name ends in ".xml". */
  function VisitedItems(f: SourceFile): seq<(Option<string>, string)> {
    if Visited(f) then FileItems(f) else []
  }

  /** The grouping calls a listed file of `subfolder` makes. */
  function VisitedAdds(subfolder: string, f: SourceFile): seq<Addition> {
    if Visited(f) then AdditionsOf(GroupKey(subfolder, f.filename), FileItems(f)) else []
  }

  /** The items collected from the visited files of a list, in order. */
  function FilesItems(files: seq<SourceFile>): seq<(Option<string>, string)> {
    if files == [] then []
    else FilesItems(files[..|files| - 1]) + VisitedItems(files[|files| - 1])
  }

  /** The grouping calls made for the visited files of a sub-folder, in order. */
  function FilesAdds(subfolder: string, files: seq<SourceFile>): seq<Addition> {
    if files == [] then []
    else FilesAdds(subfolder, files[..|files| - 1]) + VisitedAdds(subfolder, files[|files| - 1])
  }

  /** The items a root entry contributes: none unless it is a directory. */
  function FolderItems(d: Folder): seq<(Option<string>, string)> {
    if d.isDir then FilesItems(d.files) else []
  }

  function FolderAdds(d: Folder): seq<Addition> {
    if d.isDir then FilesAdds(d.name, d.files) else []
  }

  function ListingItems(listing: seq<Folder>): seq<(Option<string>, string)> {
    if listing == [] then []
    else ListingItems(listing[..|listing| - 1]) + FolderItems(listing[|listing| - 1])
  }

  function ListingAdds(listing: seq<Folder>): seq<Addition> {
    if listing == [] then []
    else ListingAdds(listing[..|listing| - 1]) + FolderAdds(listing[|listing| - 1])
  }

  lemma FilesSnoc(subfolder: string, files: seq<SourceFile>, i: nat)
    requires i < |files|
    ensures FilesItems(files[..i + 1]) == FilesItems(files[..i]) + VisitedItems(files[i])
    ensures FilesAdds(subfolder, files[..i + 1]) == FilesAdds(subfolder, files[..i]) + VisitedAdds(subfolder, files[i])
  {
    assert files[..i + 1][..i] == files[..i];
  }

  lemma ListingSnoc(listing: seq<Folder>, i: nat)
    requires i < |listing|
    ensures ListingItems(listing[..i + 1]) == ListingItems(listing[..i]) + FolderItems(listing[i])
    ensures ListingAdds(listing[..i + 1]) == ListingAdds(listing[..i]) + FolderAdds(listing[i])
  {
    assert listing[..i + 1][..i] == listing[..i];
  }

  /** Every grouping call of a sub-folder files an item of one of its visited files under `subfolder_stem`. */
  lemma {:induction false} FilesAddsFrom(subfolder: string, files: seq<SourceFile>, a: Addition)
    requires a in FilesAdds(subfolder, files)
    ensures exists f :: f in files && Visited(f) && a.key == GroupKey(subfolder, f.filename) && (a.category, a.ident) in FileItems(f)
  {
    var init := files[..|files| - 1];
    var f := files[|files| - 1];
    if a in FilesAdds(subfolder, init) {
      FilesAddsFrom(subfolder, init, a);
      var g :| g in init && Visited(g) && a.key == GroupKey(subfolder, g.filename) && (a.category, a.ident) in FileItems(g);
      assert g in files;
    } else {
      assert a in VisitedAdds(subfolder, f);
      var items := FileItems(f);
      var k :| 0 <= k < |items| && AdditionsOf(GroupKey(subfolder, f.filename), items)[k] == a;
      assert items[k] == (a.category, a.ident);
      assert f in files;
    }
  }

  /** Two stretches of the walk, one after the other, group like the walk over both. */
  lemma ComposeAdds(gs0: seq<Group>, gs1: seq<Group>, gs2: seq<Group>, a: seq<Addition>, b: seq<Addition>,
                    names: map<string, string>, descs: map<string, string>)
    requires gs1 == AddAll(gs0, a, names, descs) && gs2 == AddAll(gs1, b, names, descs)
    ensures gs2 == AddAll(gs0, a + b, names, descs)
  {
    AddAllAppend(gs0, a, b, names, descs);
  }

  /** Two stretches of the walk, one after the other, record the missing identifiers of both. */
  lemma ComposeMissing(m0: seq<string>, m1: seq<string>, m2: seq<string>,
                       x: seq<(Option<string>, string)>, y: seq<(Option<string>, string)>, lang: map<string, string>)
    requires m1 == m0 + MissingIn(x, lang) && m2 == m1 + MissingIn(y, lang)
    ensures m2 == m0 + MissingIn(x + y, lang)
  {
    MissingAppend(x, y, lang);
    SeqAssoc(m0, MissingIn(x, lang), MissingIn(y, lang));
  }

  /** What the run prints at the end: the sorted, de-duplicated missing identifiers, or the all-clear. */
  datatype Report = AllPresent | MissingEntries(names: seq<string>, descs: seq<string>)

  /** The cleaner's state: the language maps it reads and the lists and grouping it builds in place. */
  class Organizer {
    const langNames: map<string, string>
    const langDescs: map<string, string>
    var missingNames: seq<string>
    var missingDescs: seq<string>
    var organized: seq<Group>

    constructor(langNames: map<string, string>, langDescs: map<string, string>)
      ensures this.langNames == langNames && this.langDescs == langDescs
      ensures missingNames == [] && missingDescs == [] && organized == []
    {
      this.langNames := langNames;
      this.langDescs := langDescs;
      missingNames := [];
      missingDescs := [];
      organized := [];
    }

    /** collect_items_from_file over the parsed events of one file. */
    method CollectItemsFromFile(events: Option<seq<Event>>) returns (items: seq<(Option<string>, string)>)
      modifies this
      ensures items == (if events.None? then [] else ItemsOf(events.value))
      ensures missingNames == old(missingNames) + MissingIn(items, langNames)
      ensures missingDescs == old(missingDescs) + MissingIn(items, langDescs)
      ensures organized == old(organized)
    {
      items := [];
      if events.None? {
        return;
      }
      var evs := events.value;
      var category: Option<string> := None;
      var i := 0;
      while i < |evs|
        invariant i <= |evs|
        invariant category == CategoryAfter(evs[..i])
        invariant items == ItemsOf(evs[..i])
        invariant missingNames == old(missingNames) + MissingIn(items, langNames)
        invariant missingDescs == old(missingDescs) + MissingIn(items, langDescs)
        invariant organized == old(organized)
      {
        var e := evs[i];
        FoldStep(evs, i);
        match e {
          case Comment(text) => {
            var content := Strip(text);
            if !StartsWith(content, "+++") && content != [] {
              category := Some(content);
            }
          }
          case ItemElem(ident) => {
            if ident.Some? && ident.value != [] {
              var id := ident.value;
              MissingSnocAfter(old(missingNames), items, (category, id), langNames);
              MissingSnocAfter(old(missingDescs), items, (category, id), langDescs);
              if id !in langNames {
                missingNames := missingNames + [id];
              }
              if id !in langDescs {
                missingDescs := missingDescs + [id];
              }
              items := items + [(category, id)];
            }
          }
          case OtherElem => {
          }
        }
        i := i + 1;
      }
      assert evs[..i] == evs;
    }

    /** One step of the grouping loop: setdefault the group and the category, append unless present. */
    method AddItem(key: string, category: Option<string>, ident: string)
      modifies this
      ensures organized == AddEntry(old(organized), key, CategoryName(category), Entry(ident, Get(langNames, ident), Get(langDescs, ident)))
      ensures missingNames == old(missingNames) && missingDescs == old(missingDescs)
    {
      organized := AddEntry(organized, key, CategoryName(category), Entry(ident, Get(langNames, ident), Get(langDescs, ident)));
    }

    /** One visited file: collect its items and file them under `subfolder_stem`. */
    method ProcessFile(subfolder: string, f: SourceFile)
      modifies this
      ensures organized == AddAll(old(organized), AdditionsOf(GroupKey(subfolder, f.filename), FileItems(f)), langNames, langDescs)
      ensures missingNames == old(missingNames) + MissingIn(FileItems(f), langNames)
      ensures missingDescs == old(missingDescs) + MissingIn(FileItems(f), langDescs)
    {
      var items := CollectItemsFromFile(f.events);
      var key := GroupKey(subfolder, f.filename);
      var start := organized;
      var j := 0;
      while j < |items|
        invariant j <= |items|
        invariant organized == AddAll(start, AdditionsOf(key, items[..j]), langNames, langDescs)
        invariant missingNames == old(missingNames) + MissingIn(items, langNames)
        invariant missingDescs == old(missingDescs) + MissingIn(items, langDescs)
      {
        var (category, ident) := items[j];
        AdditionsSnoc(key, items, j);
        AddAllSnoc(start, AdditionsOf(key, items[..j]), Addition(key, category, ident), langNames, langDescs);
        AddItem(key, category, ident);
        j := j + 1;
      }
      assert items[..j] == items;
    }

    /** A listed file of a sub-folder: processed when its name ends in ".xml", skipped otherwise. */
    method VisitFile(subfolder: string, f: SourceFile)
      modifies this
      ensures organized == AddAll(old(organized), VisitedAdds(subfolder, f), langNames, langDescs)
      ensures missingNames == old(missingNames) + MissingIn(VisitedItems(f), langNames)
      ensures missingDescs == old(missingDescs) + MissingIn(VisitedItems(f), langDescs)
    {
      if Visited(f) {
        ProcessFile(subfolder, f);
      } else {
        assert organized == AddAll(organized, [], langNames, langDescs);
        assert missingNames == missingNames + MissingIn([], langNames);
        assert missingDescs == missingDescs + MissingIn([], langDescs);
      }
    }

    /** The files of one sub-folder, in listing order. */
    method ProcessFolder(subfolder: string, files: seq<SourceFile>)
      modifies this
      ensures organized == AddAll(old(organized), FilesAdds(subfolder, files), langNames, langDescs)
      ensures missingNames == old(missingNames) + MissingIn(FilesItems(files), langNames)
      ensures missingDescs == old(missingDescs) + MissingIn(FilesItems(files), langDescs)
    {
      var i := 0;
      while i < |files|
        invariant i <= |files|
        invariant organized == AddAll(old(organized), FilesAdds(subfolder, files[..i]), langNames, langDescs)
        invariant missingNames == old(missingNames) + MissingIn(FilesItems(files[..i]), langNames)
        invariant missingDescs == old(missingDescs) + MissingIn(FilesItems(files[..i]), langDescs)
      {
        FilesSnoc(subfolder, files, i);
        ghost var gs, mn, md := organized, missingNames, missingDescs;
        VisitFile(subfolder, files[i]);
        ComposeAdds(old(organized), gs, organized, FilesAdds(subfolder, files[..i]), VisitedAdds(subfolder, files[i]), langNames, langDescs);
        ComposeMissing(old(missingNames), mn, missingNames, FilesItems(files[..i]), VisitedItems(files[i]), langNames);
        ComposeMissing(old(missingDescs), md, missingDescs, FilesItems(files[..i]), VisitedItems(files[i]), langDescs);
        i := i + 1;
      }
      assert files[..i] == files;
    }

    /** A root entry: its files are walked when it is a directory. */
    method VisitFolder(d: Folder)
      modifies this
      ensures organized == AddAll(old(organized), FolderAdds(d), langNames, langDescs)
      ensures missingNames == old(missingNames) + MissingIn(FolderItems(d), langNames)
      ensures missingDescs == old(missingDescs) + MissingIn(FolderItems(d), langDescs)
    {
      if d.isDir {
        ProcessFolder(d.name, d.files);
      } else {
        assert organized == AddAll(organized, [], langNames, langDescs);
        assert missingNames == missingNames + MissingIn([], langNames);
        assert missingDescs == missingDescs + MissingIn([], langDescs);
      }
    }

    /** The walk over the source root, in listing order. */
    method Organize(listing: seq<Folder>)
      modifies this
      ensures organized == AddAll(old(organized), ListingAdds(listing), langNames, langDescs)
      ensures missingNames == old(missingNames) + MissingIn(ListingItems(listing), langNames)
      ensures missingDescs == old(missingDescs) + MissingIn(ListingItems(listing), langDescs)
    {
      var i := 0;
      while i < |listing|
        invariant i <= |listing|
        invariant organized == AddAll(old(organized), ListingAdds(listing[..i]), langNames, langDescs)
        invariant missingNames == old(missingNames) + MissingIn(ListingItems(listing[..i]), langNames)
        invariant missingDescs == old(missingDescs) + MissingIn(ListingItems(listing[..i]), langDescs)
      {
        ListingSnoc(listing, i);
        ghost var gs, mn, md := organized, missingNames, missingDescs;
        VisitFolder(listing[i]);
        ComposeAdds(old(organized), gs, organized, ListingAdds(listing[..i]), FolderAdds(listing[i]), langNames, langDescs);
        ComposeMissing(old(missingNames), mn, missingNames, ListingItems(listing[..i]), FolderItems(listing[i]), langNames);
        ComposeMissing(old(missingDescs), md, missingDescs, ListingItems(listing[..i]), FolderItems(listing[i]), langDescs);
        i := i + 1;
      }
      assert listing[..i] == listing;
    }

    /** The lines of the organised language file. */
    function Output(): (lines: seq<string>)
      reads this
      ensures |lines| >= 3 && lines[0] == Declaration && lines[1] == RootOpen && lines[|lines| - 1] == RootClose
    {
      OutputLines(organized)
    }

    /**
     * The closing warnings: each missing identifier once, in sorted order,
     * or the all-clear when both lists are empty.
     */
    method Warnings() returns (r: Report)
      ensures r == AllPresent <==> missingNames == [] && missingDescs == []
      ensures r.MissingEntries? ==> StrictlyAscending(r.names) && forall x :: x in r.names <==> x in missingNames
      ensures r.MissingEntries? ==> StrictlyAscending(r.descs) && forall x :: x in r.descs <==> x in missingDescs
    {
      if missingNames != [] || missingDescs != [] {
        var names := SortIds(set x | x in missingNames);
        var descs := SortIds(set x | x in missingDescs);
        r := MissingEntries(names, descs);
      } else {
        r := AllPresent;
      }
    }
  }
}
