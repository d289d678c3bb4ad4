/**
 * Building the catalogue of source items (extract_items_from_src): every
 * `<Item>` block of every readable `.xml` source file whose opening tag
 * carries an identifier contributes `identifier -> cleaned inner text`, and
 * a later block with the same identifier overwrites an earlier one.
 */
module Catalog {
  import opened Wrappers
  import opened Strings
  import opened Dicts
  import opened ItemScanner

  /** One entry of a directory listing with the text read from it; `content` is `None` when reading it failed. */
  datatype ListedFile = ListedFile(name: string, content: Option<string>)

  /** `fname.endswith(".xml")`, case-sensitive. */
  predicate IsXmlName(name: string) {
    EndsWith(name, ".xml")
  }

  /** The inner text of a block as the catalogue stores it: components cut out, then stripped. */
  function CleanInner(inner: string): (r: string)
    ensures r != [] ==> !IsSpace(r[0]) && !IsSpace(r[|r| - 1])
  {
    Strip(RemoveComponents(inner))
  }

  /** The assignments `items[ident] = cleaned_inner` made for a sequence of blocks, in order. */
  function BlockEntries(bs: seq<ItemBlock>): seq<(string, string)>
  {
    if bs == [] then []
    else
      var b := bs[|bs| - 1];
      var rest := BlockEntries(bs[..|bs| - 1]);
      match FindIdentifier(b.attrs)
      case None => rest
      case Some(id) => rest + [(id, CleanInner(b.inner))]
  }

  /** The blocks `finditer` yields on a whole file. */
  function FileBlocks(content: string): seq<ItemBlock> {
    Blocks(Scan(content, true))
  }

  /** The assignments made for one source file: none unless it is a readable `.xml` file. */
  function FileEntries(f: ListedFile): seq<(string, string)> {
    if !IsXmlName(f.name) || f.content.None? then []
    else BlockEntries(FileBlocks(f.content.value))
  }

  /** The assignments made for a directory listing, in order. */
  function CatalogEntries(files: seq<ListedFile>): seq<(string, string)>
  {
    if files == [] then []
    else CatalogEntries(files[..|files| - 1]) + FileEntries(files[|files| - 1])
  }

  /** extract_items_from_src over a listing whose contents have already been read. */
  method ExtractItemsFromSrc(files: seq<ListedFile>) returns (items: map<string, string>)
    ensures items == LastWins(CatalogEntries(files))
  {
    items := map[];
    var i := 0;
    while i < |files|
      invariant i <= |files|
      invariant items == LastWins(CatalogEntries(files[..i]))
    {
      var f := files[i];
      CatalogEntriesSnoc(files, i);
      if IsXmlName(f.name) && f.content.Some? {
        items := AssignBlocks(items, FileBlocks(f.content.value));
        assert FileEntries(f) == BlockEntries(FileBlocks(f.content.value));
        LastWinsAppend(CatalogEntries(files[..i]), FileEntries(f));
        assert items == LastWins(CatalogEntries(files[..i]) + FileEntries(f));
      } else {
        assert FileEntries(f) == [];
        assert CatalogEntries(files[..i]) + FileEntries(f) == CatalogEntries(files[..i]);
      }
      i := i + 1;
    }
    assert files[..i] == files;
  }

  /** The loop over `finditer` of one file: assign every block that carries an identifier. */
  method AssignBlocks(items: map<string, string>, bs: seq<ItemBlock>) returns (r: map<string, string>)
    ensures r == items + LastWins(BlockEntries(bs))
  {
    r := items;
    var j := 0;
    while j < |bs|
      invariant j <= |bs|
      invariant r == items + LastWins(BlockEntries(bs[..j]))
    {
      var b := bs[j];
      BlockEntriesSnoc(bs, j);
      var ident := FindIdentifier(b.attrs);
      if ident.Some? {
        LastWinsSnoc(BlockEntries(bs[..j]), ident.value, CleanInner(b.inner));
        UnionUpdate(items, LastWins(BlockEntries(bs[..j])), ident.value, CleanInner(b.inner));
        r := r[ident.value := CleanInner(b.inner)];
      }
      j := j + 1;
    }
    assert bs[..j] == bs;
  }

  lemma CatalogEntriesSnoc(files: seq<ListedFile>, i: nat)
    requires i < |files|
    ensures CatalogEntries(files[..i + 1]) == CatalogEntries(files[..i]) + FileEntries(files[i])
  {
    assert files[..i + 1][..i] == files[..i];
  }

  lemma BlockEntriesSnoc(bs: seq<ItemBlock>, j: nat)
    requires j < |bs|
    ensures BlockEntries(bs[..j + 1]) == match FindIdentifier(bs[j].attrs)
      case None => BlockEntries(bs[..j])
      case Some(id) => BlockEntries(bs[..j]) + [(id, CleanInner(bs[j].inner))]
  {
    assert bs[..j + 1][..j] == bs[..j];
  }

  /** Each assignment for a block list comes from one of its blocks with that identifier. */
  lemma {:induction false} BlockEntriesFrom(bs: seq<ItemBlock>, e: (string, string))
    requires e in BlockEntries(bs)
    ensures exists b :: b in bs && FindIdentifier(b.attrs) == Some(e.0) && e.1 == CleanInner(b.inner)
  {
    var b := bs[|bs| - 1];
    var init := bs[..|bs| - 1];
    if e in BlockEntries(init) {
      BlockEntriesFrom(init, e);
      var b' :| b' in init && FindIdentifier(b'.attrs) == Some(e.0) && e.1 == CleanInner(b'.inner);
      assert b' in bs;
    } else {
      assert b in bs;
    }
  }

  /** Every block with an identifier makes an assignment. */
  lemma {:induction false} BlockEntriesCover(bs: seq<ItemBlock>, k: nat)
    requires k < |bs| && FindIdentifier(bs[k].attrs).Some?
    ensures (FindIdentifier(bs[k].attrs).value, CleanInner(bs[k].inner)) in BlockEntries(bs)
  {
    var init := bs[..|bs| - 1];
    if k < |bs| - 1 {
      assert init[k] == bs[k];
      BlockEntriesCover(init, k);
    }
  }

  /** Each assignment of a listing comes from a readable `.xml` file. */
  lemma {:induction false} CatalogEntriesFrom(files: seq<ListedFile>, e: (string, string))
    requires e in CatalogEntries(files)
    ensures exists f :: f in files && IsXmlName(f.name) && f.content.Some? && e in FileEntries(f)
  {
    var f := files[|files| - 1];
    var init := files[..|files| - 1];
    if e in CatalogEntries(init) {
      CatalogEntriesFrom(init, e);
      var f' :| f' in init && IsXmlName(f'.name) && f'.content.Some? && e in FileEntries(f');
      assert f' in files;
    } else {
      assert e in FileEntries(f);
      assert f in files;
    }
  }

  /** Every assignment of a file ends up in the listing's assignments. */
  lemma {:induction false} CatalogEntriesCover(files: seq<ListedFile>, k: nat, e: (string, string))
    requires k < |files| && e in FileEntries(files[k])
    ensures e in CatalogEntries(files)
  {
    var init := files[..|files| - 1];
    if k < |files| - 1 {
      assert init[k] == files[k];
      CatalogEntriesCover(init, k, e);
    }
  }

  /** `f` is a readable `.xml` file of the listing and `b` one of its blocks, carrying `id`. */
  predicate HasBlockWith(files: seq<ListedFile>, f: ListedFile, b: ItemBlock, id: string) {
    && f in files && IsXmlName(f.name) && f.content.Some?
    && b in FileBlocks(f.content.value) && FindIdentifier(b.attrs) == Some(id)
  }

  /** An assignment of the listing comes from a block of a readable `.xml` file carrying its identifier. */
  lemma EntrySource(files: seq<ListedFile>, e: (string, string))
    requires e in CatalogEntries(files)
    ensures exists f, b :: HasBlockWith(files, f, b, e.0) && e.1 == CleanInner(b.inner)
  {
    CatalogEntriesFrom(files, e);
    var f :| f in files && IsXmlName(f.name) && f.content.Some? && e in FileEntries(f);
    var bs := FileBlocks(f.content.value);
    assert e in BlockEntries(bs);
    BlockEntriesFrom(bs, e);
    var b :| b in bs && FindIdentifier(b.attrs) == Some(e.0) && e.1 == CleanInner(b.inner);
    assert HasBlockWith(files, f, b, e.0);
  }

  /** Every block of a readable `.xml` file that carries an identifier makes an assignment of the listing. */
  lemma EntryOfBlock(files: seq<ListedFile>, f: ListedFile, b: ItemBlock, id: string)
    requires HasBlockWith(files, f, b, id)
    ensures (id, CleanInner(b.inner)) in CatalogEntries(files)
  {
    var bs := FileBlocks(f.content.value);
    var k :| 0 <= k < |bs| && bs[k] == b;
    BlockEntriesCover(bs, k);
    assert (id, CleanInner(b.inner)) in FileEntries(f);
    var fi :| 0 <= fi < |files| && files[fi] == f;
    CatalogEntriesCover(files, fi, (id, CleanInner(b.inner)));
  }

  /**
   * The catalogue holds an identifier exactly when some readable `.xml` file
   * has a block whose opening tag carries it.
   */
  lemma CatalogKeys(files: seq<ListedFile>, id: string)
    ensures id in LastWins(CatalogEntries(files)) <==> exists f, b :: HasBlockWith(files, f, b, id)
  {
    var es := CatalogEntries(files);
    LastWinsKeys(es, id);
    if id in LastWins(es) {
      var i :| 0 <= i < |es| && es[i].0 == id;
      EntrySource(files, es[i]);
    }
    if exists f, b :: HasBlockWith(files, f, b, id) {
      var f, b :| HasBlockWith(files, f, b, id);
      EntryOfBlock(files, f, b, id);
      var i :| 0 <= i < |es| && es[i] == (id, CleanInner(b.inner));
    }
  }

  /** Every catalogue value is the cleaned inner text of a block carrying its identifier. */
  lemma CatalogValues(files: seq<ListedFile>, id: string)
    requires id in LastWins(CatalogEntries(files))
    ensures exists f, b :: HasBlockWith(files, f, b, id) && LastWins(CatalogEntries(files))[id] == CleanInner(b.inner)
  {
    var es := CatalogEntries(files);
    LastWinsKeys(es, id);
    LastOccurrence(es, id);
    var i :| 0 <= i < |es| && es[i].0 == id && forall j :: i < j < |es| ==> es[j].0 != id;
    LastWinsValue(es, i);
    EntrySource(files, es[i]);
  }
}
