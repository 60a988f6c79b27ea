/**
  Turning the parser's line/column anchors into absolute spans, and the list
  of elements the selector works on: the root object followed by every tag.
*/
module Indexer {
  import opened Wrappers
  import opened PySeq
  import opened Markup

  /** What the parser hands over: its root object and every tag in document order. */
  datatype Soup = Soup(root: Tag, tags: seq<Tag>)

  /** Every name the parser handed over, on the root, the tags and their ancestors, is a tag name. */
  predicate WellNamed(soup: Soup) {
    NamedTag(soup.root) && forall k :: 0 <= k < |soup.tags| ==> NamedTag(soup.tags[k])
  }

  /** The sum of `len(line) + 1` over `lines`. */
  function LinesOffset(lines: seq<string>): (r: nat) {
    if lines == [] then 0 else LinesOffset(lines[..|lines| - 1]) + |lines[|lines| - 1]| + 1
  }

  /** The span `_get_tag_position` computes for `tag` inside `document`. */
  function TagPositionOf(document: string, tag: Tag): (p: Position) {
    if tag.sourceline.None? || tag.sourcepos.None? then Position(0, |document|)
    else
      var start := LinesOffset(Slice(SplitLines(document), 0, tag.sourceline.value - 1)) + tag.sourcepos.value;
      Position(start, start + |tag.text|)
  }

  /** The loop of `_get_tag_position`, accumulating line lengths one line at a time. */
  method TagPosition(document: string, tag: Tag) returns (p: Position)
    ensures p == TagPositionOf(document, tag)
  {
    if tag.sourceline.None? || tag.sourcepos.None? {
      return Position(0, |document|);
    }
    var lines := SplitLines(document);
    var before := Slice(lines, 0, tag.sourceline.value - 1);
    var position := 0;
    for i := 0 to |before|
      invariant position == LinesOffset(before[..i])
    {
      LinesOffsetSnoc(before, i);
      position := position + |before[i]| + 1;
    }
    assert before[..|before|] == before;
    position := position + tag.sourcepos.value;
    p := Position(position, position + |tag.text|);
  }

  lemma LinesOffsetSnoc(lines: seq<string>, i: nat)
    requires i < |lines|
    ensures LinesOffset(lines[..i + 1]) == LinesOffset(lines[..i]) + |lines[i]| + 1
  {
    assert lines[..i + 1][..i] == lines[..i];
  }

  lemma {:induction false} LinesOffsetCons(x: string, ys: seq<string>)
    ensures LinesOffset([x] + ys) == |x| + 1 + LinesOffset(ys)
    decreases |ys|
  {
    if ys != [] {
      var zs := [x] + ys;
      assert zs[..|zs| - 1] == [x] + ys[..|ys| - 1];
      LinesOffsetCons(x, ys[..|ys| - 1]);
    } else {
      assert ([x] + ys)[..0] == [];
    }
  }

  /**
    A line begins at `off` in `s` after exactly `k` line breaks: at the very
    start when `k` is 0, and otherwise just after the last of them.
  */
  predicate LineBeginsAt(s: string, off: int, k: nat) {
    && 0 <= off <= |s|
    && NewlineCount(s[..off]) == k
    && (if k == 0 then off == 0 else off > 0 && s[off - 1] == '\n')
  }

  /** `line` of `s` begins at `off` after `k` line breaks and is followed by one when `more` holds. */
  predicate LineAt(s: string, off: int, line: string, more: bool, k: nat) {
    && LineBeginsAt(s, off, k)
    && off + |line| <= |s|
    && s[off..off + |line|] == line
    && (more ==> off + |line| < |s| && s[off + |line|] == '\n')
  }

  lemma LineAtShift(s: string, i: nat, off: int, o: int, line: string, more: bool, k: nat)
    requires i < |s| && s[i] == '\n' && NewlineCount(s[..i]) == 0
    requires LineAt(s[i + 1..], off, line, more, k) && o == i + 1 + off
    ensures LineAt(s, o, line, more, k + 1)
  {
    var t := s[i + 1..];
    assert s[o..o + |line|] == t[off..off + |line|];
    if off > 0 {
      assert s[o - 1] == t[off - 1];
    } else {
      assert o - 1 == i;
    }
    assert s[o - 1] == '\n';
    NewlinesAcross(s, i, off);
  }

  /** Counting line breaks across the break at `i`. */
  lemma NewlinesAcross(s: string, i: nat, off: nat)
    requires i < |s| && s[i] == '\n' && i + 1 + off <= |s|
    ensures NewlineCount(s[..i + 1 + off]) == NewlineCount(s[..i]) + 1 + NewlineCount(s[i + 1..][..off])
  {
    assert s[..i + 1 + off] == s[..i] + [s[i]] + s[i + 1..][..off];
  }

  /**
    The offset of line `k` (0-based) of `s.split("\n")`: the line starts
    there, is followed by a line break unless it is the last, exactly `k`
    line breaks precede it, and the character before it is a line break.
  */
  lemma {:induction false} LineStart(s: string, k: nat)
    requires k < |SplitLines(s)|
    ensures LineAt(s, LinesOffset(SplitLines(s)[..k]), SplitLines(s)[k], k + 1 < |SplitLines(s)|, k)
    decreases |s|
  {
    if k == 0 {
      FirstLineAt(s);
    } else {
      var i := FirstNewline(s).value;
      var t, j := s[i + 1..], k - 1;
      var lines, rest := SplitLines(s), SplitLines(t);
      assert lines == [s[..i]] + rest;
      LineStart(t, j);
      LineStartStep(s, i, j, k, lines, rest);
    }
  }

  /** The first line starts at offset 0 and ends at the first line break, if any. */
  lemma FirstLineAt(s: string)
    ensures LineAt(s, LinesOffset(SplitLines(s)[..0]), SplitLines(s)[0], 1 < |SplitLines(s)|, 0)
  {
    var lines := SplitLines(s);
    assert lines[..0] == [];
    assert s[..0] == [];
    match FirstNewline(s)
    case None =>
      assert lines == [s];
    case Some(i) =>
      assert lines == [s[..i]] + SplitLines(s[i + 1..]);
  }

  lemma LineStartStep(s: string, i: nat, j: nat, k: nat, lines: seq<string>, rest: seq<string>)
    requires i < |s| && s[i] == '\n' && NewlineCount(s[..i]) == 0
    requires k == j + 1 && k < |lines| && lines == [s[..i]] + rest
    requires LineAt(s[i + 1..], LinesOffset(rest[..j]), rest[j], j + 1 < |rest|, j)
    ensures LineAt(s, LinesOffset(lines[..k]), lines[k], k + 1 < |lines|, k)
  {
    assert lines[..k] == [s[..i]] + rest[..j];
    LinesOffsetCons(s[..i], rest[..j]);
    assert lines[k] == rest[j];
    assert (k + 1 < |lines|) == (j + 1 < |rest|);
    LineAtShift(s, i, LinesOffset(rest[..j]), LinesOffset(lines[..k]), lines[k], k + 1 < |lines|, j);
  }

  /**
    A tag anchored on line `l`, column `c` starts `c` characters after the
    `(l-1)`-th line break of the document and is as long as its serialised form.
  */
  lemma AnchoredPosition(document: string, tag: Tag)
    requires tag.sourceline.Some? && tag.sourcepos.Some?
    requires 1 <= tag.sourceline.value <= |SplitLines(document)|
    ensures LineBeginsAt(document, LineBegin(document, tag), tag.sourceline.value - 1)
    ensures TagPositionOf(document, tag).Length() == |tag.text|
  {
    var k := tag.sourceline.value - 1;
    assert LineBegin(document, tag) == LinesOffset(Slice(SplitLines(document), 0, k));
    LineOffset(document, k);
  }

  /** Where the line of an anchored tag begins: its span's start minus its column. */
  function LineBegin(document: string, tag: Tag): (offset: int)
    requires tag.sourcepos.Some?
  {
    TagPositionOf(document, tag).start - tag.sourcepos.value
  }

  /** The offset of line `k` lies in `s`, with `k` line breaks before it, the last just before it. */
  lemma LineOffset(s: string, k: nat)
    requires k < |SplitLines(s)|
    ensures LineBeginsAt(s, LinesOffset(Slice(SplitLines(s), 0, k)), k)
  {
    var lines := SplitLines(s);
    SliceTo(lines, k);
    assert LinesOffset(Slice(lines, 0, k)) == LinesOffset(lines[..k]);
    LineStart(s, k);
  }

  /** A tag without an anchor, the root among them, spans the whole document. */
  lemma UnanchoredSpansDocument(document: string, tag: Tag)
    requires tag.sourceline.None? || tag.sourcepos.None?
    ensures TagPositionOf(document, tag) == Position(0, |document|)
  {
  }

  /** `_get_all_elements`: the root object first, then every tag, each with its span in `str(soup)`. */
  function AllElements(soup: Soup): (es: seq<Element>)
    ensures |es| == |soup.tags| + 1
    ensures es[0].tag == soup.root
    ensures forall k :: 0 <= k < |soup.tags| ==> es[k + 1].tag == soup.tags[k]
  {
    var all := [soup.root] + soup.tags;
    seq(|all|, k requires 0 <= k < |all| => Element(all[k], TagPositionOf(soup.root.text, all[k])))
  }

  /** Every element's span is the one `_get_tag_position` gives it in `str(soup)`. */
  lemma ElementPositions(soup: Soup, k: int)
    requires 0 <= k < |AllElements(soup)|
    ensures AllElements(soup)[k].position == TagPositionOf(soup.root.text, AllElements(soup)[k].tag)
  {
  }

  /** The elements of a well-named soup carry well-formed names. */
  lemma NamedElements(soup: Soup, k: int)
    requires WellNamed(soup) && 0 <= k < |AllElements(soup)|
    ensures NamedTag(AllElements(soup)[k].tag)
  {
    if k > 0 {
      assert AllElements(soup)[k].tag == soup.tags[k - 1];
    }
  }
}
