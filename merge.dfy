/**
 * Merging the catalogue into one target document (update_tar_file and its
 * replacer): every `<Item>` block whose identifier the catalogue knows and
 * whose inner text differs from the catalogue's up to whitespace gets the
 * catalogue's text, re-indented one tab deeper than its opening tag; then
 * the whole document gets LF line endings and its blank lines emptied.
 */
module Merge {
  import opened Wrappers
  import opened Strings
  import opened Lines
  import opened Whitespace
  import opened ItemScanner

  /** The block's identifier, when its opening tag carries one the catalogue knows. */
  function KnownId(b: ItemBlock, catalog: map<string, string>): (r: Option<string>)
    ensures r.Some? ==> r.value in catalog && FindIdentifier(b.attrs) == r
    ensures r.None? ==> FindIdentifier(b.attrs).None? || FindIdentifier(b.attrs).value !in catalog
  {
    match FindIdentifier(b.attrs)
    case None => None
    case Some(id) => if id in catalog then Some(id) else None
  }

  /** The comparison of line 105: equal after normalize_whitespace. */
  predicate InSync(inner: string, src: string) {
    NormalizeWhitespace(inner) == NormalizeWhitespace(src)
  }

  /** The inner text of a rewritten block: line separator, re-indented catalogue text, separator, the tag's indent. */
  function ReplacedInner(b: ItemBlock, src: string, sep: string): string {
    sep + Reindent(src, b.indent + "\t") + sep + b.indent
  }

  /** The rewritten block: same indent and opening tag, new inner text. */
  function NewBlock(b: ItemBlock, src: string, sep: string): ItemBlock {
    ItemBlock(b.indent, b.attrs, ReplacedInner(b, src, sep))
  }

  /** What the replacer returns for one match; `sep` is the platform's line separator. */
  function Replacement(b: ItemBlock, catalog: map<string, string>, sep: string): string {
    match KnownId(b, catalog)
    case None => BlockText(b)
    case Some(id) =>
      if InSync(b.inner, catalog[id]) then BlockText(b)
      else BlockText(NewBlock(b, catalog[id], sep))
  }

  /** The identifiers the replacer adds to `used_ids` for one match: known ones, in sync or not. */
  function IdsOf(b: ItemBlock, catalog: map<string, string>): set<string> {
    match KnownId(b, catalog)
    case None => {}
    case Some(id) => {id}
  }

  /** The text of one piece after substitution. */
  function PieceOut(p: Piece, catalog: map<string, string>, sep: string): string {
    match p
    case Lit(c) => [c]
    case Block(b) => Replacement(b, catalog, sep)
  }

  /** `ITEM_BLOCK_REGEX.sub(replacer, original)` on the scanned pieces. */
  function Substitute(ps: seq<Piece>, catalog: map<string, string>, sep: string): string {
    if ps == [] then ""
    else Substitute(ps[..|ps| - 1], catalog, sep) + PieceOut(ps[|ps| - 1], catalog, sep)
  }

  /** The identifiers the replacer records over a whole document. */
  function MatchedIds(ps: seq<Piece>, catalog: map<string, string>): set<string> {
    if ps == [] then {}
    else
      var last := ps[|ps| - 1];
      MatchedIds(ps[..|ps| - 1], catalog) + (if last.Block? then IdsOf(last.block, catalog) else {})
  }

  /** Lines 118-119: "\r\n" and then "\r" become "\n", then every line is re-indented with "". */
  function PostProcess(m: string): string {
    Reindent(ToLF(m), "")
  }

  /** The triple update_tar_file returns. */
  datatype TarResult = TarResult(original: string, modified: string, changed: bool)

  /** update_tar_file on a document that was read. */
  function Merged(original: string, catalog: map<string, string>, sep: string): TarResult {
    var modified := PostProcess(Substitute(Scan(original, true), catalog, sep));
    TarResult(original, modified, NormalizeWhitespace(original) != NormalizeWhitespace(modified))
  }

  /**
   * The replacer as the code runs it, with its early returns and its update
   * of `used_ids`; `Replacement` and `IdsOf` are its specification.
   */
  method Replacer(b: ItemBlock, catalog: map<string, string>, used: set<string>, sep: string)
    returns (text: string, usedAfter: set<string>)
    ensures text == Replacement(b, catalog, sep)
    ensures usedAfter == used + IdsOf(b, catalog)
  {
    usedAfter := used;
    var idMatch := FindIdentifier(b.attrs);
    if idMatch.None? {
      return BlockText(b), usedAfter;
    }
    var ident := idMatch.value;
    if ident !in catalog {
      return BlockText(b), usedAfter;
    }
    usedAfter := usedAfter + {ident};
    var srcInner := catalog[ident];
    if NormalizeWhitespace(b.inner) == NormalizeWhitespace(srcInner) {
      return BlockText(b), usedAfter;
    }
    var newIndent := b.indent + "\t";
    var newInner := Reindent(srcInner, newIndent);
    text := b.indent + OpenTag + b.attrs + ">" + sep + newInner + sep + b.indent + CloseTag;
    NewBlockTextIs(b, srcInner, sep);
  }

  /** The f-string of line 112 is the text of the rewritten block. */
  lemma NewBlockTextIs(b: ItemBlock, src: string, sep: string)
    ensures BlockText(NewBlock(b, src, sep))
      == b.indent + OpenTag + b.attrs + ">" + sep + Reindent(src, b.indent + "\t") + sep + b.indent + CloseTag
  {
  }

  /**
   * update_tar_file as the code runs it: `read` is the document's text, or
   * `None` when reading it failed; `used` is `used_ids` on entry. `Merged` and
   * `MatchedIds` are its specification; the method carries the `used_ids` update.
   */
  method UpdateTarFile(read: Option<string>, catalog: map<string, string>, used: set<string>, sep: string)
    returns (r: TarResult, usedAfter: set<string>)
    ensures read.None? ==> r == TarResult("", "", false) && usedAfter == used
    ensures read.Some? ==> r == Merged(read.value, catalog, sep)
    ensures read.Some? ==> usedAfter == used + MatchedIds(Scan(read.value, true), catalog)
  {
    if read.None? {
      return TarResult("", "", false), used;
    }
    var original := read.value;
    var out;
    out, usedAfter := SubstituteAll(Scan(original, true), catalog, used, sep);
    var modified := ToLF(out);
    modified := Reindent(modified, "");
    var changed := NormalizeWhitespace(original) != NormalizeWhitespace(modified);
    r := TarResult(original, modified, changed);
  }

  /** `ITEM_BLOCK_REGEX.sub(replacer, ...)`: the replacer called on every match in order. */
  method SubstituteAll(ps: seq<Piece>, catalog: map<string, string>, used: set<string>, sep: string)
    returns (out: string, usedAfter: set<string>)
    ensures out == Substitute(ps, catalog, sep)
    ensures usedAfter == used + MatchedIds(ps, catalog)
  {
    out := "";
    usedAfter := used;
    var i := 0;
    while i < |ps|
      invariant i <= |ps|
      invariant out == Substitute(ps[..i], catalog, sep)
      invariant usedAfter == used + MatchedIds(ps[..i], catalog)
    {
      assert ps[..i + 1][..i] == ps[..i];
      match ps[i] {
        case Lit(c) =>
          out := out + [c];
        case Block(b) =>
          var text;
          text, usedAfter := Replacer(b, catalog, usedAfter, sep);
          out := out + text;
      }
      i := i + 1;
    }
    assert ps[..i] == ps;
  }

  // ---------------------------------------------------------------------------
  // Which blocks change

  /** The rewritten inner text has the catalogue text's words, so it is in sync with it. */
  lemma NewInnerInSync(b: ItemBlock, src: string, sep: string)
    requires AllSpace(sep) && IsIndent(b.indent)
    ensures InSync(ReplacedInner(b, src, sep), src)
  {
    var ind := b.indent + "\t";
    var r := Reindent(src, ind);
    assert AllSpace(ind) by {
      assert forall i :: 0 <= i < |ind| ==> IsSpace(ind[i]) by {
        forall i | 0 <= i < |ind| ensures IsSpace(ind[i]) {
          if i < |b.indent| { assert ind[i] == b.indent[i]; }
        }
      }
    }
    assert AllSpace(b.indent) by {
      forall i | 0 <= i < |b.indent| ensures IsSpace(b.indent[i]) {
        assert IsIndentChar(b.indent[i]);
      }
    }
    ReindentKeepsWords(src, ind);
    AllSpaceAppend(sep, b.indent);
    WordsSpacePrefix(sep, r + (sep + b.indent));
    WordsSpaceSuffix(r, sep + b.indent);
    assert ReplacedInner(b, src, sep) == sep + (r + (sep + b.indent));
    SameNormalForm(ReplacedInner(b, src, sep), src);
  }

  lemma AllSpaceAppend(a: string, b: string)
    requires AllSpace(a) && AllSpace(b)
    ensures AllSpace(a + b)
  {
    forall i | 0 <= i < |a + b| ensures IsSpace((a + b)[i]) {
      if i < |a| { assert (a + b)[i] == a[i]; } else { assert (a + b)[i] == b[i - |a|]; }
    }
  }

  /** Two blocks with the same indent and opening tag and the same text have the same inner text. */
  lemma BlockTextInjective(b: ItemBlock, c: ItemBlock)
    requires b.indent == c.indent && b.attrs == c.attrs && BlockText(b) == BlockText(c)
    ensures b == c
  {
    var p := b.indent + OpenTag + b.attrs + ">";
    assert BlockText(b) == p + b.inner + CloseTag;
    assert BlockText(c) == p + c.inner + CloseTag;
    assert b.inner == BlockText(b)[|p|..|BlockText(b)| - |CloseTag|];
    assert c.inner == BlockText(c)[|p|..|BlockText(c)| - |CloseTag|];
  }

  /**
   * A block's text changes exactly when its opening tag carries an
   * identifier the catalogue knows and its inner text differs from the
   * catalogue's up to whitespace.
   */
  lemma ReplacementChangesIff(b: ItemBlock, catalog: map<string, string>, sep: string)
    requires WellFormed(b) && AllSpace(sep)
    ensures Replacement(b, catalog, sep) != BlockText(b) <==>
      KnownId(b, catalog).Some? && !InSync(b.inner, catalog[KnownId(b, catalog).value])
  {
    if KnownId(b, catalog).Some? {
      var src := catalog[KnownId(b, catalog).value];
      if !InSync(b.inner, src) && BlockText(NewBlock(b, src, sep)) == BlockText(b) {
        BlockTextInjective(NewBlock(b, src, sep), b);
        NewInnerInSync(b, src, sep);
      }
    }
  }

  // ---------------------------------------------------------------------------
  // A rewritten block is stable

  /** Re-indenting a text without "</Item>" by spaces and tabs creates none. */
  lemma AbsentReindent(src: string, ind: string)
    requires IsIndent(ind) && Absent(src, CloseTag)
    ensures Absent(Reindent(src, ind), CloseTag)
  {
    var lines := SplitLines(src);
    var rs := ReindentLines(lines, ind);
    AbsentSplitLines(src, CloseTag);
    forall i | 0 <= i < |rs| ensures Absent(rs[i], CloseTag) {
      if !IsBlank(lines[i]) {
        assert CloseTag[0] !in ind by {
          assert forall k :: 0 <= k < |ind| ==> IsIndentChar(ind[k]);
        }
        AbsentBehind(ind, lines[i], CloseTag);
      }
    }
    AbsentJoinNl(rs, CloseTag);
  }

  /** Whitespace never occurs in "</Item>". */
  lemma SpaceNotInCloseTag(c: char)
    requires IsSpace(c)
    ensures forall k :: 0 <= k < |CloseTag| ==> CloseTag[k] != c
  {
  }

  /** An occurrence of `pat` at `j` is ruled out by one mismatching character. */
  lemma MismatchAt(y: string, j: nat, pat: string, p: nat)
    requires j <= p < j + |pat| && p < |y| && y[p] != pat[p - j]
    ensures !StartsAt(y, j, pat)
  {
    if j + |pat| <= |y| {
      assert y[j..j + |pat|][p - j] == y[p];
    }
  }

  /** Text framed by whitespace, with no "</Item>" inside, ends the lazy inner group only at its end. */
  lemma StopsAtEndOfFramed(pre: string, mid: string, post: string)
    requires AllSpace(pre) && AllSpace(post) && Absent(mid, CloseTag)
    ensures StopsAtEnd(pre + mid + post)
  {
    var x := pre + mid + post;
    var y := x + CloseTag;
    forall j | 0 <= j < |x| ensures !StartsAt(y, j, CloseTag) {
      if j < |pre| {
        assert y[j] == pre[j];
        SpaceNotInCloseTag(y[j]);
        MismatchAt(y, j, CloseTag, j);
      } else if j >= |pre| + |mid| {
        assert y[j] == post[j - |pre| - |mid|];
        SpaceNotInCloseTag(y[j]);
        MismatchAt(y, j, CloseTag, j);
      } else if j + |CloseTag| <= |pre| + |mid| {
        assert y[|pre|..|pre| + |mid|] == mid;
        SliceStartsAt(y, |pre|, mid, j - |pre|, CloseTag);
      } else {
        var p := |pre| + |mid|;
        if p < |x| {
          assert y[p] == post[0];
          SpaceNotInCloseTag(y[p]);
        } else {
          assert y[p] == CloseTag[0];
          assert forall k :: 1 <= k < |CloseTag| ==> CloseTag[k] != CloseTag[0];
        }
        MismatchAt(y, j, CloseTag, p);
      }
    }
  }

  /**
   * Block-level idempotence: a block the merge rewrote is matched again,
   * whole, by the block pattern, and a second merge with the same catalogue
   * entry leaves it as it is.
   */
  lemma ReplacedBlockIsStable(b: ItemBlock, catalog: map<string, string>, sep: string)
    requires WellFormed(b) && AllSpace(sep) && KnownId(b, catalog).Some?
    requires Absent(catalog[KnownId(b, catalog).value], CloseTag)
    ensures var nb := NewBlock(b, catalog[KnownId(b, catalog).value], sep);
      && MatchAt(BlockText(nb)) == Some(nb)
      && Replacement(nb, catalog, sep) == BlockText(nb)
  {
    var src := catalog[KnownId(b, catalog).value];
    var nb := NewBlock(b, src, sep);
    NewBlockWellFormed(b, src, sep);
    MatchAtComplete(BlockText(nb), nb);
    NewInnerInSync(b, src, sep);
  }

  /** The rewritten block keeps to the block pattern: a tab deeper indent, the old attributes, a framed inner part without "</Item>". */
  lemma NewBlockWellFormed(b: ItemBlock, src: string, sep: string)
    requires WellFormed(b) && AllSpace(sep) && Absent(src, CloseTag)
    ensures WellFormed(NewBlock(b, src, sep))
  {
    var nb := NewBlock(b, src, sep);
    var ind := b.indent + "\t";
    assert IsIndent(ind) by {
      forall i | 0 <= i < |ind| ensures IsIndentChar(ind[i]) {
        if i < |b.indent| { assert ind[i] == b.indent[i]; }
      }
    }
    assert AllSpace(b.indent) by {
      forall i | 0 <= i < |b.indent| ensures IsSpace(b.indent[i]) {
        assert IsIndentChar(b.indent[i]);
      }
    }
    AbsentReindent(src, ind);
    AllSpaceAppend(sep, b.indent);
    assert nb.inner == sep + Reindent(src, ind) + (sep + b.indent);
    StopsAtEndOfFramed(sep, Reindent(src, ind), sep + b.indent);
  }

  // ---------------------------------------------------------------------------
  // Recorded identifiers

  /** Some matched block among `ps` carries identifier `id`. */
  ghost predicate Carried(ps: seq<Piece>, id: string) {
    exists b :: Block(b) in ps && FindIdentifier(b.attrs) == Some(id)
  }

  /** An identifier is recorded exactly when the catalogue knows it and some matched block carries it. */
  lemma {:induction false} MatchedIdsIff(ps: seq<Piece>, catalog: map<string, string>, id: string)
    ensures id in MatchedIds(ps, catalog) <==> id in catalog && Carried(ps, id)
  {
    if ps != [] {
      var init := ps[..|ps| - 1];
      var last := ps[|ps| - 1];
      MatchedIdsIff(init, catalog, id);
      PiecesSnoc(ps);
      CarriedSnoc(init, last, id);
    }
  }

  lemma PiecesSnoc(ps: seq<Piece>)
    requires ps != []
    ensures ps == ps[..|ps| - 1] + [ps[|ps| - 1]]
  {
  }

  lemma CarriedSnoc(init: seq<Piece>, last: Piece, id: string)
    ensures Carried(init + [last], id) <==>
      Carried(init, id) || (last.Block? && FindIdentifier(last.block.attrs) == Some(id))
  {
    var ps := init + [last];
    if Carried(ps, id) {
      var b :| Block(b) in ps && FindIdentifier(b.attrs) == Some(id);
      if Block(b) != last {
        assert Block(b) in init;
      }
    }
    if Carried(init, id) {
      var b :| Block(b) in init && FindIdentifier(b.attrs) == Some(id);
      assert Block(b) in ps;
    }
    if last.Block? {
      assert Block(last.block) in ps;
    }
  }

  /** `used_ids` only ever gains catalogue keys. */
  lemma MatchedIdsInCatalog(ps: seq<Piece>, catalog: map<string, string>)
    ensures MatchedIds(ps, catalog) <= catalog.Keys
  {
    forall id | id in MatchedIds(ps, catalog) ensures id in catalog {
      MatchedIdsIff(ps, catalog, id);
    }
  }

  // ---------------------------------------------------------------------------
  // The change flag

  /** The post-processing keeps the normal form of the text. */
  lemma PostProcessKeepsNormalForm(m: string)
    ensures NormalizeWhitespace(PostProcess(m)) == NormalizeWhitespace(m)
  {
    WordsOfToLF(m);
    ReindentKeepsWords(ToLF(m), "");
    SameNormalForm(ToLF(m), m);
  }

  /** So `changed` depends on the substituted text only: post-processing never marks a document changed by itself. */
  lemma ChangedIffSubstitutionDiffers(original: string, catalog: map<string, string>, sep: string)
    ensures Merged(original, catalog, sep).changed <==>
      NormalizeWhitespace(original) != NormalizeWhitespace(Substitute(Scan(original, true), catalog, sep))
  {
    PostProcessKeepsNormalForm(Substitute(Scan(original, true), catalog, sep));
  }

  lemma RenderSnoc(ps: seq<Piece>, p: Piece)
    ensures Render(ps + [p]) == Render(ps) + PieceText(p)
  {
    RenderAppend(ps, [p]);
    assert Render([p]) == PieceText(p) + Render([]);
  }

  /** The replacer returns every matched block as it found it. */
  predicate NoneRewritten(ps: seq<Piece>, catalog: map<string, string>, sep: string) {
    forall k :: 0 <= k < |ps| && ps[k].Block? ==> Replacement(ps[k].block, catalog, sep) == BlockText(ps[k].block)
  }

  /** Where no block is rewritten, the substitution gives back the text of the pieces. */
  lemma {:induction false} SubstituteIdentity(ps: seq<Piece>, catalog: map<string, string>, sep: string)
    requires NoneRewritten(ps, catalog, sep)
    ensures Substitute(ps, catalog, sep) == Render(ps)
  {
    if ps != [] {
      var init := ps[..|ps| - 1];
      var last := ps[|ps| - 1];
      assert forall k :: 0 <= k < |init| ==> init[k] == ps[k];
      SubstituteIdentity(init, catalog, sep);
      assert ps == init + [last];
      RenderSnoc(init, last);
    }
  }

  /** The substitution works piece by piece: the output of a concatenation is the concatenation of the outputs. */
  lemma {:induction false} SubstituteAppend(a: seq<Piece>, b: seq<Piece>, catalog: map<string, string>, sep: string)
    ensures Substitute(a + b, catalog, sep) == Substitute(a, catalog, sep) + Substitute(b, catalog, sep)
    decreases |b|
  {
    if b == [] {
      assert a + b == a;
    } else {
      var init, last := b[..|b| - 1], b[|b| - 1];
      assert b == init + [last];
      assert a + b == (a + init) + [last];
      SubstituteAppend(a, init, catalog, sep);
      SubstituteAppendStep(a, init, last, catalog, sep);
    }
  }

  lemma SubstituteAppendStep(a: seq<Piece>, b: seq<Piece>, p: Piece, catalog: map<string, string>, sep: string)
    requires Substitute(a + b, catalog, sep) == Substitute(a, catalog, sep) + Substitute(b, catalog, sep)
    ensures Substitute((a + b) + [p], catalog, sep) == Substitute(a, catalog, sep) + Substitute(b + [p], catalog, sep)
  {
    var x, y, z := Substitute(a, catalog, sep), Substitute(b, catalog, sep), PieceOut(p, catalog, sep);
    SubstituteSnoc(a + b, p, catalog, sep);
    SubstituteSnoc(b, p, catalog, sep);
    SeqAssoc(x, y, z);
  }

  lemma SubstituteSnoc(ps: seq<Piece>, p: Piece, catalog: map<string, string>, sep: string)
    ensures Substitute(ps + [p], catalog, sep) == Substitute(ps, catalog, sep) + PieceOut(p, catalog, sep)
  {
    assert (ps + [p])[..|ps|] == ps;
  }

  /** Text outside the matched blocks comes through byte for byte, wherever it stands. */
  lemma OutsideBlocksCopied(pre: seq<Piece>, c: char, post: seq<Piece>, catalog: map<string, string>, sep: string)
    ensures Substitute(pre + [Lit(c)] + post, catalog, sep) ==
      Substitute(pre, catalog, sep) + [c] + Substitute(post, catalog, sep)
  {
    SubstituteAppend(pre + [Lit(c)], post, catalog, sep);
    SubstituteAppend(pre, [Lit(c)], catalog, sep);
    assert Substitute([Lit(c)], catalog, sep) == Substitute([], catalog, sep) + [c];
  }

  /** A document in which no block gets rewritten is not changed, and its text comes back as it was before post-processing. */
  lemma NothingReplacedNotChanged(original: string, catalog: map<string, string>, sep: string)
    requires NoneRewritten(Scan(original, true), catalog, sep)
    ensures Substitute(Scan(original, true), catalog, sep) == original
    ensures !Merged(original, catalog, sep).changed
  {
    var ps := Scan(original, true);
    assert Render(ps) == original;
    SubstituteIdentity(ps, catalog, sep);
    ChangedIffSubstitutionDiffers(original, catalog, sep);
  }

  /** With an empty catalogue nothing is rewritten, nothing recorded, and no document is changed. */
  lemma EmptyCatalogChangesNothing(original: string, sep: string)
    ensures Substitute(Scan(original, true), map[], sep) == original
    ensures !Merged(original, map[], sep).changed
    ensures MatchedIds(Scan(original, true), map[]) == {}
  {
    NothingReplacedNotChanged(original, map[], sep);
    MatchedIdsInCatalog(Scan(original, true), map[]);
  }
}
