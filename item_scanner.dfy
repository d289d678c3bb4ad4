/**
 * The three patterns of the merge tool, as left-to-right scanners.
 *
 *   ITEM_BLOCK_REGEX         ^(?P<indent>[ \t]*)<Item(?P<attrs>[^>]*)>(?P<inner>.*?)</Item>   (MULTILINE, DOTALL)
 *   IDENTIFIER_REGEX         identifier="([^"]+)"
 *   REMOVE_COMPONENTS_REGEX  <(?:Fabricate|Deconstruct)\b.*?</(?:Fabricate|Deconstruct)>   (DOTALL)
 *
 * For these patterns backtracking never helps: `[ \t]*` must end at the `<`,
 * `[^>]*` must end at the `>`, and `[^"]+` at the closing quote, so each
 * greedy group is the maximal run; a lazy `.*?` stops at the first
 * occurrence of what follows it. `finditer`/`sub` try every position from
 * left to right and resume after each match, so matches never overlap.
 */
module ItemScanner {
  import opened Wrappers
  import opened Strings

  const OpenTag: string := "<Item"
  const CloseTag: string := "</Item>"

  /** One match of ITEM_BLOCK_REGEX: its three named groups. */
  datatype ItemBlock = ItemBlock(indent: string, attrs: string, inner: string)

  /** `match.group(0)`. */
  function BlockText(b: ItemBlock): string {
    b.indent + OpenTag + b.attrs + ">" + b.inner + CloseTag
  }

  predicate IsIndentChar(c: char) {
    c == ' ' || c == '\t'
  }

  predicate IsIndent(s: string) {
    forall i :: 0 <= i < |s| ==> IsIndentChar(s[i])
  }

  /** No `</Item>` starts inside `inner`, even one running into the closing tag: the lazy group stops at its end. */
  predicate StopsAtEnd(inner: string) {
    forall j :: 0 <= j < |inner| ==> !StartsAt(inner + CloseTag, j, CloseTag)
  }

  /** What the pattern demands of its groups. */
  predicate WellFormed(b: ItemBlock) {
    IsIndent(b.indent) && '>' !in b.attrs && StopsAtEnd(b.inner)
  }

  /** Length of the leading run of ' ' and '\t', the greedy `[ \t]*`. */
  function IndentLength(s: string): (n: nat)
    ensures n <= |s|
  {
    if s == [] || !IsIndentChar(s[0]) then 0 else 1 + IndentLength(s[1..])
  }

  /** The run is made of spaces and tabs and is maximal. */
  lemma {:induction false} IndentLengthSpec(s: string)
    ensures var n := IndentLength(s);
      && (forall i :: 0 <= i < n ==> IsIndentChar(s[i]))
      && (n < |s| ==> !IsIndentChar(s[n]))
  {
    if s != [] && IsIndentChar(s[0]) {
      IndentLengthSpec(s[1..]);
      forall i | 1 <= i < IndentLength(s) ensures IsIndentChar(s[i]) {
        assert s[i] == s[1..][i - 1];
      }
      if IndentLength(s) < |s| {
        assert s[IndentLength(s)] == s[1..][IndentLength(s) - 1];
      }
    }
  }

  /** Where the greedy `[^>]*` started at `from` ends: the first '>' at or after `from`, or |s|. */
  function AttrsEnd(s: string, from: nat): (n: nat)
    requires from <= |s|
    decreases |s| - from
    ensures from <= n <= |s|
  {
    if from == |s| || s[from] == '>' then from else AttrsEnd(s, from + 1)
  }

  /** The attributes hold no '>', and a '>' follows them unless the text ends. */
  lemma {:induction false} AttrsEndSpec(s: string, from: nat)
    requires from <= |s|
    decreases |s| - from
    ensures var n := AttrsEnd(s, from);
      && (forall i :: from <= i < n ==> s[i] != '>')
      && (n < |s| ==> s[n] == '>')
  {
    if from < |s| && s[from] != '>' {
      AttrsEndSpec(s, from + 1);
    }
  }

  /** ITEM_BLOCK_REGEX tried at the start of `s` (the `^` anchor is checked by `Scan`). */
  function MatchAt(s: string): Option<ItemBlock> {
    var i := IndentLength(s);
    if !StartsAt(s, i, OpenTag) then None
    else
      var a := i + |OpenTag|;
      var gt := AttrsEnd(s, a);
      if gt == |s| then None
      else
        match IndexOf(s, CloseTag, gt + 1)
        case None => None
        case Some(c) =>
          IndexOfFound(s, CloseTag, gt + 1, c);
          Some(ItemBlock(s[..i], s[a..gt], s[gt + 1..c]))
  }

  /** A match found at the start of `s` is a well-formed block whose text begins `s`. */
  lemma MatchAtSound(s: string)
    requires MatchAt(s).Some?
    ensures WellFormed(MatchAt(s).value) && BlockText(MatchAt(s).value) <= s
  {
    var i := IndentLength(s);
    var a := i + |OpenTag|;
    var gt := AttrsEnd(s, a);
    var c := IndexOf(s, CloseTag, gt + 1).value;
    MatchedFacts(s, i, gt, c);
    MatchAtGroups(s, i, gt, c, ItemBlock(s[..i], s[i + |OpenTag|..gt], s[gt + 1..c]));
    MatchedBlock(s, i, gt, c);
  }

  /** The offsets `MatchAt` reads off, with what the greedy and lazy searches promise about them. */
  lemma MatchedFacts(s: string, i: nat, gt: nat, c: nat)
    requires i == IndentLength(s) && StartsAt(s, i, OpenTag)
    requires gt == AttrsEnd(s, i + |OpenTag|) && gt < |s|
    requires IndexOf(s, CloseTag, gt + 1) == Some(c)
    ensures i + |OpenTag| <= gt < c && c + |CloseTag| <= |s|
    ensures (forall j :: 0 <= j < i ==> IsIndentChar(s[j])) && s[i..i + |OpenTag|] == OpenTag
    ensures (forall j :: i + |OpenTag| <= j < gt ==> s[j] != '>') && s[gt] == '>'
    ensures s[c..c + |CloseTag|] == CloseTag && forall k :: gt + 1 <= k < c ==> !StartsAt(s, k, CloseTag)
  {
    IndentLengthSpec(s);
    AttrsEndSpec(s, i + |OpenTag|);
    IndexOfSpec(s, CloseTag, gt + 1);
  }

  /** The groups cut at these offsets, which satisfy what the pattern demands of them, form a well-formed block whose text begins `s`. */
  lemma MatchedBlock(s: string, i: nat, gt: nat, c: nat)
    requires i + |OpenTag| <= gt < c && c + |CloseTag| <= |s|
    requires (forall j :: 0 <= j < i ==> IsIndentChar(s[j])) && s[i..i + |OpenTag|] == OpenTag
    requires (forall j :: i + |OpenTag| <= j < gt ==> s[j] != '>') && s[gt] == '>'
    requires s[c..c + |CloseTag|] == CloseTag && forall k :: gt + 1 <= k < c ==> !StartsAt(s, k, CloseTag)
    ensures var b := ItemBlock(s[..i], s[i + |OpenTag|..gt], s[gt + 1..c]);
      WellFormed(b) && BlockText(b) <= s
  {
    var a := i + |OpenTag|;
    var b := ItemBlock(s[..i], s[a..gt], s[gt + 1..c]);
    forall j | 0 <= j < i ensures IsIndentChar(b.indent[j]) {
      assert b.indent[j] == s[j];
    }
    forall j | 0 <= j < gt - a ensures b.attrs[j] != '>' {
      assert b.attrs[j] == s[a + j];
    }
    InnerStopsAtEnd(s, gt + 1, c);
    PrefixIsBlock(s, i, gt, c);
  }

  /** The text between `o` and the first "</Item>" from `o` on stops at its end. */
  lemma InnerStopsAtEnd(s: string, o: nat, c: nat)
    requires o <= c && c + |CloseTag| <= |s| && s[c..c + |CloseTag|] == CloseTag
    requires forall k :: o <= k < c ==> !StartsAt(s, k, CloseTag)
    ensures StopsAtEnd(s[o..c])
  {
    FirstOccurrenceSlice(s, o, c, CloseTag);
  }

  /** The text of the groups cut at these offsets is the prefix of `s` up to the end of the closing tag. */
  lemma PrefixIsBlock(s: string, i: nat, gt: nat, c: nat)
    requires i + |OpenTag| <= gt < c && c + |CloseTag| <= |s|
    requires s[i..i + |OpenTag|] == OpenTag && s[gt] == '>' && s[c..c + |CloseTag|] == CloseTag
    ensures BlockText(ItemBlock(s[..i], s[i + |OpenTag|..gt], s[gt + 1..c])) == s[..c + |CloseTag|]
  {
    var a := i + |OpenTag|;
    assert s[..a] == s[..i] + s[i..a];
    assert s[..gt] == s[..a] + s[a..gt];
    assert s[..gt + 1] == s[..gt] + [s[gt]];
    assert s[..c] == s[..gt + 1] + s[gt + 1..c];
    assert s[..c + |CloseTag|] == s[..c] + s[c..c + |CloseTag|];
  }

  lemma {:induction false} IndentLengthIs(s: string, n: nat)
    requires n < |s| && (forall i :: 0 <= i < n ==> IsIndentChar(s[i])) && !IsIndentChar(s[n])
    ensures IndentLength(s) == n
  {
    if n > 0 {
      IndentLengthIs(s[1..], n - 1);
    }
  }

  lemma {:induction false} AttrsEndIs(s: string, from: nat, n: nat)
    requires from <= n < |s| && (forall i :: from <= i < n ==> s[i] != '>') && s[n] == '>'
    ensures AttrsEnd(s, from) == n
    decreases n - from
  {
    if from < n {
      AttrsEndIs(s, from + 1, n);
    }
  }

  /** Every well-formed block at the start of `s` is exactly what the pattern matches there. */
  lemma MatchAtComplete(s: string, b: ItemBlock)
    requires WellFormed(b) && BlockText(b) <= s
    ensures MatchAt(s) == Some(b)
  {
    assert s[..|BlockText(b)|] == BlockText(b);
    BlockAtStart(s, b);
    MatchAtParts(s, b);
  }

  /** The groups of `b` stand, one after the other, at the start of `s`. */
  predicate PartsAt(s: string, b: ItemBlock) {
    var i := |b.indent|;
    var a := i + |OpenTag|;
    var gt := a + |b.attrs|;
    var c := gt + 1 + |b.inner|;
    && c + |CloseTag| <= |s|
    && s[..i] == b.indent && s[i..a] == OpenTag && s[a..gt] == b.attrs && s[gt] == '>'
    && s[gt + 1..c + |CloseTag|] == b.inner + CloseTag
  }

  /** `MatchAtComplete`, with the block's groups given one by one. */
  lemma MatchAtParts(s: string, b: ItemBlock)
    requires WellFormed(b) && PartsAt(s, b)
    ensures MatchAt(s) == Some(b)
  {
    var i := |b.indent|;
    var gt := i + |OpenTag| + |b.attrs|;
    var c := gt + 1 + |b.inner|;
    HeadBoundaries(s, b, i, gt);
    TailBoundaries(s, b, i, gt, c);
    MatchAtGroups(s, i, gt, c, b);
  }

  /** Where the greedy groups of the pattern end, for a block standing at the start of `s`. */
  lemma HeadBoundaries(s: string, b: ItemBlock, i: nat, gt: nat)
    requires i == |b.indent| && gt == i + |OpenTag| + |b.attrs|
    requires IsIndent(b.indent) && '>' !in b.attrs && PartsAt(s, b)
    ensures i == IndentLength(s) && StartsAt(s, i, OpenTag) && gt == AttrsEnd(s, i + |OpenTag|)
  {
    IndentEndsAtTag(s, b.indent);
    AttrsEndAtGt(s, i + |OpenTag|, b.attrs, gt);
  }

  /** Where the lazy group of the pattern ends, and the groups read off there, for a block standing at the start of `s`. */
  lemma TailBoundaries(s: string, b: ItemBlock, i: nat, gt: nat, c: nat)
    requires i == |b.indent| && gt == i + |OpenTag| + |b.attrs| && c == gt + 1 + |b.inner|
    requires StopsAtEnd(b.inner) && PartsAt(s, b)
    ensures gt < c <= |s| && IndexOf(s, CloseTag, gt + 1) == Some(c)
    ensures ItemBlock(s[..i], s[i + |OpenTag|..gt], s[gt + 1..c]) == b
  {
    CloseFoundAfterInner(s, gt + 1, b.inner, c);
    GroupsAreBlock(s, b);
  }

  /** An indent followed by "<Item" is exactly the greedy `[ \t]*`. */
  lemma IndentEndsAtTag(s: string, ind: string)
    requires IsIndent(ind) && |ind| + |OpenTag| <= |s|
    requires s[..|ind|] == ind && s[|ind|..|ind| + |OpenTag|] == OpenTag
    ensures IndentLength(s) == |ind| && StartsAt(s, |ind|, OpenTag)
  {
    var i := |ind|;
    forall j | 0 <= j < i ensures IsIndentChar(s[j]) {
      assert s[j] == ind[j];
    }
    assert s[i] == s[i..i + |OpenTag|][0] == '<';
    IndentLengthIs(s, i);
  }

  /** Attributes without '>' followed by '>' are exactly the greedy `[^>]*`. */
  lemma AttrsEndAtGt(s: string, a: nat, attrs: string, gt: nat)
    requires gt == a + |attrs|
    requires '>' !in attrs && gt < |s| && s[a..gt] == attrs && s[gt] == '>'
    ensures AttrsEnd(s, a) == gt
  {
    forall j | a <= j < gt ensures s[j] != '>' {
      assert s[j] == attrs[j - a];
    }
    AttrsEndIs(s, a, gt);
  }

  /** The groups read off at the block's own offsets are the block. */
  lemma GroupsAreBlock(s: string, b: ItemBlock)
    requires PartsAt(s, b)
    ensures var i := |b.indent|;
      var gt := i + |OpenTag| + |b.attrs|;
      ItemBlock(s[..i], s[i + |OpenTag|..gt], s[gt + 1..gt + 1 + |b.inner|]) == b
  {
    var gt := |b.indent| + |OpenTag| + |b.attrs|;
    var c := gt + 1 + |b.inner|;
    HeadOfSlice(s, gt + 1, c + |CloseTag|, |b.inner|);
    assert (b.inner + CloseTag)[..|b.inner|] == b.inner;
  }

  /** Once the three group boundaries are known, `MatchAt` returns the groups between them. */
  lemma MatchAtGroups(s: string, i: nat, gt: nat, c: nat, b: ItemBlock)
    requires i == IndentLength(s) && StartsAt(s, i, OpenTag)
    requires gt == AttrsEnd(s, i + |OpenTag|) && gt < c <= |s|
    requires IndexOf(s, CloseTag, gt + 1) == Some(c)
    requires ItemBlock(s[..i], s[i + |OpenTag|..gt], s[gt + 1..c]) == b
    ensures MatchAt(s) == Some(b)
  {
  }

  /** The groups of a block whose text begins `s`, read off `s`. */
  lemma BlockAtStart(s: string, b: ItemBlock)
    requires |BlockText(b)| <= |s| && s[..|BlockText(b)|] == BlockText(b)
    ensures PartsAt(s, b)
  {
    var t := BlockText(b);
    BlockTextParts(b);
    var i := |b.indent|;
    var a := i + |OpenTag|;
    var gt := a + |b.attrs|;
    var c := gt + 1 + |b.inner|;
    SliceOfHead(s, |t|, 0, i);
    SliceOfHead(s, |t|, i, a);
    SliceOfHead(s, |t|, a, gt);
    SliceOfHead(s, |t|, gt + 1, gt + 1);
    assert s[gt] == t[gt];
  }

  /** Where each group of a block sits inside its text. */
  lemma BlockTextParts(b: ItemBlock)
    ensures var t := BlockText(b);
      var i := |b.indent|;
      var a := i + |OpenTag|;
      var gt := a + |b.attrs|;
      && |t| == gt + 1 + |b.inner| + |CloseTag|
      && t[..i] == b.indent && t[i..a] == OpenTag && t[a..gt] == b.attrs && t[gt] == '>'
      && t[gt + 1..] == b.inner + CloseTag
  {
    var t := BlockText(b);
    var i := |b.indent|;
    var a := i + |OpenTag|;
    var gt := a + |b.attrs|;
    var p1 := b.indent + OpenTag;
    var p2 := p1 + b.attrs;
    var p3 := p2 + ">";
    assert t == p3 + (b.inner + CloseTag);
    assert t[..gt + 1] == p3;
    assert p3[..gt] == p2;
    assert p2[..a] == p1;
  }

  /** When `inner + "</Item>"` stands at `o` and the inner part stops at its end, the close search from `o` stops right after it. */
  lemma CloseFoundAfterInner(s: string, o: nat, inner: string, c: nat)
    requires c == o + |inner|
    requires StopsAtEnd(inner)
    requires c + |CloseTag| <= |s| && s[o..c + |CloseTag|] == inner + CloseTag
    ensures IndexOf(s, CloseTag, o) == Some(c)
  {
    var x := inner + CloseTag;
    forall j | o <= j < c ensures !StartsAt(s, j, CloseTag) {
      SliceStartsAt(s, o, x, j - o, CloseTag);
    }
    assert s[c..c + |CloseTag|] == x[|inner|..];
    IndexOfIs(s, CloseTag, o, c);
  }

  // ---------------------------------------------------------------------------
  // finditer / sub over a whole document

  /** A document as the scanner sees it: single characters outside matches, and matched blocks. */
  datatype Piece = Lit(c: char) | Block(block: ItemBlock)

  function PieceText(p: Piece): string {
    match p
    case Lit(c) => [c]
    case Block(b) => BlockText(b)
  }

  function Render(ps: seq<Piece>): string {
    if ps == [] then [] else PieceText(ps[0]) + Render(ps[1..])
  }

  /**
   * Scan `s` from left to right; `bol` says whether `^` holds at its start.
   * `^` in MULTILINE mode holds at the start of the text and right after a
   * "\n"; after a match it never holds, since a match ends in '>'.
   */
  function Scan(s: string, bol: bool): (ps: seq<Piece>)
    decreases |s|
    ensures Render(ps) == s
    ensures forall k :: 0 <= k < |ps| && ps[k].Block? ==> WellFormed(ps[k].block)
    ensures forall k :: 0 <= k < |ps| && ps[k].Block? ==> (k == 0 && bol) || (k > 0 && ps[k - 1] == Lit('\n'))
  {
    if s == [] then []
    else if bol && MatchAt(s).Some? then
      var b := MatchAt(s).value;
      MatchAtSound(s);
      var rest := Scan(s[|BlockText(b)|..], false);
      assert s == BlockText(b) + s[|BlockText(b)|..];
      assert ([Block(b)] + rest)[1..] == rest;
      [Block(b)] + rest
    else
      var rest := Scan(s[1..], s[0] == '\n');
      assert ([Lit(s[0])] + rest)[1..] == rest;
      [Lit(s[0])] + rest
  }

  /** The blocks of a whole document, as `ITEM_BLOCK_REGEX.finditer(content)` yields them. */
  function Blocks(ps: seq<Piece>): (bs: seq<ItemBlock>)
    ensures forall b :: b in bs ==> Block(b) in ps
  {
    if ps == [] then []
    else
      var rest := Blocks(ps[..|ps| - 1]);
      match ps[|ps| - 1]
      case Lit(_) => rest
      case Block(b) => rest + [b]
  }

  lemma {:induction false} RenderAppend(a: seq<Piece>, b: seq<Piece>)
    ensures Render(a + b) == Render(a) + Render(b)
  {
    if a == [] {
      assert a + b == b;
    } else {
      assert (a + b)[0] == a[0];
      assert (a + b)[1..] == a[1..] + b;
      RenderAppend(a[1..], b);
    }
  }

  // ---------------------------------------------------------------------------
  // IDENTIFIER_REGEX.search(attrs)

  const IdPrefix: string := "identifier=\""

  /** Length of the leading run without '"', the greedy `[^"]+` before its closing quote. */
  function QuoteFreeLength(s: string): (n: nat)
    ensures n <= |s| && forall i :: 0 <= i < n ==> s[i] != '"'
    ensures n < |s| ==> s[n] == '"'
  {
    if s == [] || s[0] == '"' then 0 else 1 + QuoteFreeLength(s[1..])
  }

  /** The identifier the pattern captures when tried at position `p`, if it matches there. */
  function IdentAt(a: string, p: nat): Option<string>
  {
    if !StartsAt(a, p, IdPrefix) then None
    else
      var q := p + |IdPrefix|;
      var n := QuoteFreeLength(a[q..]);
      if n == 0 || q + n == |a| then None else Some(a[q..q + n])
  }

  /** The pattern matches at `p` capturing `v` exactly when `identifier="v"` stands there with `v` non-empty and quote-free. */
  lemma IdentAtIff(a: string, p: nat, v: string)
    ensures IdentAt(a, p) == Some(v) <==> v != "" && '"' !in v && StartsAt(a, p, IdPrefix + v + "\"")
  {
    if v != "" && '"' !in v && StartsAt(a, p, IdPrefix + v + "\"") {
      IdentTokenMatches(a, p, v);
    }
    if IdentAt(a, p) == Some(v) {
      IdentMatchIsToken(a, p);
    }
  }

  /** `identifier="v"` with a non-empty quote-free `v` is a match capturing `v`. */
  lemma IdentTokenMatches(a: string, p: nat, v: string)
    requires v != "" && '"' !in v && StartsAt(a, p, IdPrefix + v + "\"")
    ensures IdentAt(a, p) == Some(v)
  {
    var q := p + |IdPrefix|;
    var tok := IdPrefix + v + "\"";
    var x := a[p..p + |tok|];
    assert x == tok;
    assert a[p..q] == x[..|IdPrefix|] == IdPrefix;
    var t := a[q..];
    forall j | 0 <= j < |v| ensures t[j] != '"' {
      assert t[j] == x[|IdPrefix| + j] == v[j];
    }
    assert t[|v|] == x[|IdPrefix| + |v|] == '"';
    QuoteFreeLengthIs(t, |v|);
    assert a[q..q + |v|] == x[|IdPrefix|..|IdPrefix| + |v|] == v;
  }

  /** A match captures a non-empty quote-free `v` standing as `identifier="v"`. */
  lemma IdentMatchIsToken(a: string, p: nat)
    requires IdentAt(a, p).Some?
    ensures var v := IdentAt(a, p).value;
      v != "" && '"' !in v && StartsAt(a, p, IdPrefix + v + "\"")
  {
    var q := p + |IdPrefix|;
    var t := a[q..];
    var n := QuoteFreeLength(t);
    var v := a[q..q + n];
    forall j | 0 <= j < n ensures v[j] != '"' {
      assert v[j] == t[j];
    }
    assert a[q + n] == t[n] == '"';
    assert a[p..q + n + 1] == a[p..q] + v + [a[q + n]];
  }

  lemma {:induction false} QuoteFreeLengthIs(s: string, n: nat)
    requires n < |s| && (forall i :: 0 <= i < n ==> s[i] != '"') && s[n] == '"'
    ensures QuoteFreeLength(s) == n
  {
    if n > 0 {
      QuoteFreeLengthIs(s[1..], n - 1);
    }
  }

  function FirstIdentFrom(a: string, from: nat): (r: Option<nat>)
    decreases |a| + 1 - from
    ensures r.Some? ==> from <= r.value && IdentAt(a, r.value).Some?
    ensures r.Some? ==> forall q :: from <= q < r.value ==> IdentAt(a, q).None?
    ensures r.None? ==> forall q :: from <= q ==> IdentAt(a, q).None?
  {
    if from > |a| then None
    else if IdentAt(a, from).Some? then Some(from)
    else FirstIdentFrom(a, from + 1)
  }

  /** `IDENTIFIER_REGEX.search(attrs)`, giving group 1: the leftmost position where the pattern matches. */
  function FindIdentifier(attrs: string): (r: Option<string>)
    ensures r.Some? ==> r.value != "" && '"' !in r.value
    ensures r.Some? ==> exists p: nat :: IdentAt(attrs, p) == r && forall q :: 0 <= q < p ==> IdentAt(attrs, q).None?
    ensures r.None? ==> forall p :: IdentAt(attrs, p).None?
  {
    match FirstIdentFrom(attrs, 0)
    case None => None
    case Some(p) =>
      var v := IdentAt(attrs, p).value;
      IdentAtIff(attrs, p, v);
      Some(v)
  }

  // ---------------------------------------------------------------------------
  // REMOVE_COMPONENTS_REGEX.sub('', inner)

  /** `\w` for the `\b` test, on ASCII. */
  predicate IsWordChar(c: char) {
    ('a' <= c <= 'z') || ('A' <= c <= 'Z') || ('0' <= c <= '9') || c == '_'
  }

  /** Length of `<Fabricate` or `<Deconstruct` at the start of `s`, 0 if neither. */
  function ComponentNameLength(s: string): (n: nat)
    ensures n == 0 || n == 10 || n == 12
    ensures n <= |s|
  {
    if "<Fabricate" <= s then 10 else if "<Deconstruct" <= s then 12 else 0
  }

  predicate ClosesAt(s: string, q: nat) {
    StartsAt(s, q, "</Fabricate>") || StartsAt(s, q, "</Deconstruct>")
  }

  function CloseLength(s: string, q: nat): nat
    requires ClosesAt(s, q)
  {
    if StartsAt(s, q, "</Fabricate>") then 12 else 14
  }

  function FirstClose(s: string, from: nat): Option<nat>
    decreases |s| + 1 - from
  {
    if from > |s| then None
    else if ClosesAt(s, from) then Some(from)
    else FirstClose(s, from + 1)
  }

  /** What `FirstClose` finds is a closing tag at or after `from` with none between; when it finds nothing there is none. */
  lemma {:induction false} FirstCloseSpec(s: string, from: nat)
    decreases |s| + 1 - from
    ensures var r := FirstClose(s, from);
      && (r.Some? ==> from <= r.value && ClosesAt(s, r.value))
      && (r.Some? ==> forall k :: from <= k < r.value ==> !ClosesAt(s, k))
      && (r.None? ==> forall k :: from <= k ==> !ClosesAt(s, k))
  {
    if from <= |s| && !ClosesAt(s, from) {
      FirstCloseSpec(s, from + 1);
    }
  }

  /** `s[..m]` is a component span: opening name, word boundary, then up to the first closing tag of either name. */
  ghost predicate ComponentSpan(s: string, m: nat) {
    var n := ComponentNameLength(s);
    && n > 0
    && (n == |s| || !IsWordChar(s[n]))
    && exists q :: n <= q && ClosesAt(s, q) && m == q + CloseLength(s, q) && forall k :: n <= k < q ==> !ClosesAt(s, k)
  }

  /** REMOVE_COMPONENTS_REGEX tried at the start of `s`: the length of its match. */
  function ComponentAt(s: string): (r: Option<nat>)
    ensures r.Some? ==> 0 < r.value <= |s| && ComponentSpan(s, r.value)
  {
    var n := ComponentNameLength(s);
    if n == 0 || (n < |s| && IsWordChar(s[n])) then None
    else
      match FirstClose(s, n)
      case None => None
      case Some(q) =>
        FirstCloseSpec(s, n);
        Some(q + CloseLength(s, q))
  }

  /** A component span at the start of `s` is exactly what the pattern matches there. */
  lemma ComponentAtComplete(s: string, m: nat)
    requires ComponentSpan(s, m)
    ensures ComponentAt(s) == Some(m)
  {
    var n := ComponentNameLength(s);
    var q :| n <= q && ClosesAt(s, q) && m == q + CloseLength(s, q) && forall k :: n <= k < q ==> !ClosesAt(s, k);
    FirstCloseIs(s, n, q);
    ComponentAtIs(s, n, q);
  }

  lemma ComponentAtIs(s: string, n: nat, q: nat)
    requires n == ComponentNameLength(s) && n > 0 && (n == |s| || !IsWordChar(s[n]))
    requires ClosesAt(s, q) && FirstClose(s, n) == Some(q)
    ensures ComponentAt(s) == Some(q + CloseLength(s, q))
  {
  }

  lemma {:induction false} FirstCloseIs(s: string, from: nat, q: nat)
    requires from <= q && ClosesAt(s, q)
    requires forall k :: from <= k < q ==> !ClosesAt(s, k)
    ensures FirstClose(s, from) == Some(q)
    decreases q - from
  {
    if from < q {
      FirstCloseIs(s, from + 1, q);
    }
  }

  /** `REMOVE_COMPONENTS_REGEX.sub('', s)`. */
  function RemoveComponents(s: string): (r: string)
    decreases |s|
    ensures |r| <= |s|
  {
    if s == [] then []
    else
      match ComponentAt(s)
      case Some(m) => RemoveComponents(s[m..])
      case None => [s[0]] + RemoveComponents(s[1..])
  }

  /** Text in which no component span starts before `b` is kept as it is. */
  lemma {:induction false} RemoveComponentsKeeps(a: string, b: string)
    requires forall k, m :: 0 <= k < |a| ==> !ComponentSpan((a + b)[k..], m)
    ensures RemoveComponents(a + b) == a + RemoveComponents(b)
    decreases |a|
  {
    if a == [] {
      assert a + b == b;
    } else {
      var s := a + b;
      NoSpanShift(a, b);
      NoSpanNoMatch(s);
      RemoveComponentsKeepsHead(s);
      RemoveComponentsKeeps(a[1..], b);
      KeptHead(a, b, RemoveComponents(b));
    }
  }

  lemma NoSpanShift(a: string, b: string)
    requires a != [] && forall k, m :: 0 <= k < |a| ==> !ComponentSpan((a + b)[k..], m)
    ensures forall m :: !ComponentSpan(a + b, m)
    ensures (a + b)[1..] == a[1..] + b
    ensures forall k, m :: 0 <= k < |a[1..]| ==> !ComponentSpan((a[1..] + b)[k..], m)
  {
    var s := a + b;
    assert s[0..] == s;
    forall m ensures !ComponentSpan(s, m) {
      assert !ComponentSpan(s[0..], m);
    }
    forall k, m | 0 <= k < |a[1..]| ensures !ComponentSpan((a[1..] + b)[k..], m) {
      assert (a[1..] + b)[k..] == s[k + 1..];
    }
  }

  lemma NoSpanNoMatch(s: string)
    requires forall m :: !ComponentSpan(s, m)
    ensures ComponentAt(s).None?
  {
  }

  lemma RemoveComponentsKeepsHead(s: string)
    requires s != [] && ComponentAt(s).None?
    ensures RemoveComponents(s) == [s[0]] + RemoveComponents(s[1..])
  {
  }

  lemma KeptHead(a: string, b: string, r: string)
    requires a != []
    ensures [(a + b)[0]] + (a[1..] + r) == a + r
  {
    assert a == [a[0]] + a[1..];
  }

  /** A component span at the start is dropped whole. */
  lemma RemoveComponentsDrops(c: string, b: string)
    requires ComponentSpan(c + b, |c|)
    ensures RemoveComponents(c + b) == RemoveComponents(b)
  {
    ComponentAtComplete(c + b, |c|);
    assert (c + b)[|c|..] == b;
  }

  /**
   * `sub('', s)` scans left to right: the characters before the leftmost
   * component span are kept, the span is dropped, and the scan goes on after it.
   */
  lemma RemoveComponentsStep(a: string, c: string, b: string)
    requires forall k, m :: 0 <= k < |a| ==> !ComponentSpan((a + c + b)[k..], m)
    requires ComponentSpan(c + b, |c|)
    ensures RemoveComponents(a + c + b) == a + RemoveComponents(b)
  {
    assert a + c + b == a + (c + b);
    RemoveComponentsKeeps(a, c + b);
    RemoveComponentsDrops(c, b);
  }

  /** Text in which no component span starts comes back unchanged. */
  lemma RemoveComponentsNone(s: string)
    requires forall k, m :: 0 <= k < |s| ==> !ComponentSpan(s[k..], m)
    ensures RemoveComponents(s) == s
  {
    assert s + [] == s;
    RemoveComponentsKeeps(s, []);
  }

  /** Where no `<Fabricate` or `<Deconstruct` starts, nothing is removed. */
  lemma {:induction false} RemoveComponentsNoOpening(s: string)
    requires forall k :: 0 <= k <= |s| ==> ComponentNameLength(s[k..]) == 0
    ensures RemoveComponents(s) == s
    decreases |s|
  {
    if s != [] {
      assert ComponentNameLength(s[0..]) == 0;
      assert s[0..] == s;
      forall k | 0 <= k <= |s[1..]| ensures ComponentNameLength(s[1..][k..]) == 0 {
        assert s[1..][k..] == s[k + 1..];
      }
      RemoveComponentsNoOpening(s[1..]);
    }
  }
}
