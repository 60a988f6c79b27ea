/**
  `Element.split`: close the element and its parents at the end of a window,
  cut the window so the closing tags fit, drop a truncated trailing tag, and
  reopen the tags at the start of the continuation.
*/
module Splitter {
  import opened Wrappers
  import opened PySeq
  import opened Markup

  /**
    A match of the regular expression `\<[^\>]+$` starts at `i`: a `<` with
    at least one character after it and no `>` anywhere after it.
  */
  predicate IsBrokenTagAt(s: string, i: int) {
    0 <= i < |s| - 1 && s[i] == '<' && NoCloseFrom(s, i + 1)
  }

  /** No `>` at or after `j`. */
  predicate NoCloseFrom(s: string, j: nat)
    decreases |s| - j
  {
    j >= |s| || (s[j] != '>' && NoCloseFrom(s, j + 1))
  }

  lemma {:induction false} NoCloseFromIff(s: string, j: nat)
    ensures NoCloseFrom(s, j) <==> forall m :: j <= m < |s| ==> s[m] != '>'
    decreases |s| - j
  {
    if j < |s| {
      NoCloseFromIff(s, j + 1);
    }
  }

  /** The leftmost match at or after `i`, as `re.search` scans for it. */
  function BrokenTagFrom(s: string, i: nat): (r: Option<nat>)
    requires i <= |s|
    ensures r.Some? ==> i <= r.value < |s|
    decreases |s| - i
  {
    if i == |s| then None
    else if IsBrokenTagAt(s, i) then Some(i)
    else BrokenTagFrom(s, i + 1)
  }

  /** What `BrokenTagFrom` finds is a match, and no match lies between `i` and it. */
  lemma {:induction false} BrokenTagFromLeftmost(s: string, i: nat)
    requires i <= |s|
    ensures BrokenTagFrom(s, i).Some? ==> IsBrokenTagAt(s, BrokenTagFrom(s, i).value)
    ensures BrokenTagFrom(s, i).Some? ==> forall j :: i <= j < BrokenTagFrom(s, i).value ==> !IsBrokenTagAt(s, j)
    ensures BrokenTagFrom(s, i).None? ==> forall j :: i <= j < |s| ==> !IsBrokenTagAt(s, j)
    decreases |s| - i
  {
    if i < |s| && !IsBrokenTagAt(s, i) {
      BrokenTagFromLeftmost(s, i + 1);
    }
  }

  /** Cutting `s` just before a match leaves nothing that matches again. */
  lemma PrefixBeforeMatchIsClean(s: string, i: nat)
    requires IsBrokenTagAt(s, i)
    requires forall j :: 0 <= j < i ==> !IsBrokenTagAt(s, j)
    ensures forall j :: 0 <= j < i ==> !IsBrokenTagAt(s[..i], j)
  {
    forall j | 0 <= j < i
      ensures !IsBrokenTagAt(s[..i], j)
    {
      PrefixKeepsClose(s, i, j);
    }
  }

  /** A `<` before a match that is not itself a match has its `>` before the match. */
  lemma PrefixKeepsClose(s: string, i: nat, j: nat)
    requires IsBrokenTagAt(s, i) && j < i && !IsBrokenTagAt(s, j)
    ensures !IsBrokenTagAt(s[..i], j)
  {
    var t := s[..i];
    if j < |t| - 1 && t[j] == '<' {
      NoCloseFromIff(s, j + 1);
      NoCloseFromIff(s, i + 1);
      NoCloseFromIff(t, j + 1);
      var m :| j + 1 <= m < |s| && s[m] == '>';
      assert m < i;
      assert t[m] == '>';
    }
  }

  /** `head[:match.start()]` when the pattern matches, `head` otherwise: always a prefix of `s`. */
  function TrimBrokenTag(s: string): (r: string)
    ensures |r| <= |s| && r == s[..|r|]
  {
    match BrokenTagFrom(s, 0)
    case Some(i) => s[..i]
    case None => s
  }

  /** No unterminated tag is left anywhere in `s`. */
  ghost predicate Clean(s: string) {
    forall j :: 0 <= j < |s| ==> !IsBrokenTagAt(s, j)
  }

  /**
    The trimmed text holds no unterminated tag, and differs from `s` only
    when it stops right before the leftmost one; a clean text is kept whole.
  */
  lemma TrimBrokenTagClean(s: string)
    ensures Clean(TrimBrokenTag(s))
    ensures var r := TrimBrokenTag(s);
      |r| < |s| ==> IsBrokenTagAt(s, |r|) && forall j :: 0 <= j < |r| ==> !IsBrokenTagAt(s, j)
    ensures Clean(s) ==> TrimBrokenTag(s) == s
  {
    BrokenTagFromLeftmost(s, 0);
    match BrokenTagFrom(s, 0)
    case Some(i) =>
      PrefixBeforeMatchIsClean(s, i);
    case None =>
  }

  /** Trimming twice trims nothing more. */
  lemma TrimIdempotent(s: string)
    ensures TrimBrokenTag(TrimBrokenTag(s)) == TrimBrokenTag(s)
  {
    TrimBrokenTagClean(s);
    TrimBrokenTagClean(TrimBrokenTag(s));
  }

  /** A lone `<` at the very end is not a match, so it is kept. */
  lemma TrailingAngleKept(s: string)
    requires Clean(s)
    requires s == "" || s[|s| - 1] != '<'
    ensures TrimBrokenTag(s + "<") == s + "<"
  {
    var t := s + "<";
    forall j | 0 <= j < |t| && IsBrokenTagAt(t, j)
      ensures false
    {
      NoCloseFromIff(t, j + 1);
      NoCloseFromIff(s, j + 1);
      assert IsBrokenTagAt(s, j) by {
        forall m | j < m < |s|
          ensures s[m] != '>'
        {
          assert s[m] == t[m];
        }
      }
    }
    TrimBrokenTagClean(t);
  }

  /** The tags closed at the cut: the element's own (not for the document), then each parent outwards. */
  function ClosingTags(e: Element): (tags: string) {
    if e.tag.name != DOCUMENT_NAME then "</" + e.tag.name + ">" + ClosingTagsOf(e.Parents())
    else ClosingTagsOf(e.Parents())
  }

  /** The tags reopened after the cut: each parent innermost first, then the element's own. */
  function OpeningTags(e: Element): (tags: string) {
    if e.tag.name != DOCUMENT_NAME then OpeningTagsOf(e.Parents()) + "<" + e.tag.name + ">"
    else OpeningTagsOf(e.Parents())
  }

  /** The number of tags a cut through `e` closes and reopens. */
  function TagCount(e: Element): (n: nat) {
    |e.Parents()| + if e.IsDocument() then 0 else 1
  }

  /** Each closing tag is one character longer than the matching opening tag. */
  lemma TagsBalance(e: Element)
    ensures |ClosingTags(e)| == |OpeningTags(e)| + TagCount(e)
  {
    ClosingBudgetIsLength(e.Parents());
  }

  /** There are no tags to close or reopen exactly when the element is the document and has no parents. */
  lemma NoTagsIff(e: Element)
    ensures ClosingTags(e) == "" <==> e.IsDocument() && e.Parents() == []
    ensures OpeningTags(e) == "" <==> e.IsDocument() && e.Parents() == []
  {
    ClosingBudgetIsLength(e.Parents());
  }

  /** The tags a cut closes are nothing but closing tags, when the parser's names are well formed. */
  lemma ClosingTagsAreNamed(e: Element)
    requires NamedTag(e.tag)
    ensures ClosingTagsOnly(ClosingTags(e))
  {
    var ps := e.Parents();
    ParentsExcludeRoot(e);
    assert NamedAncestors(ps) by {
      forall k | 0 <= k < |ps| ensures TagName(ps[k].name) {
        assert ps[k] == e.tag.ancestors[k];
      }
    }
    if e.tag.name != DOCUMENT_NAME {
      var own := [Ancestor(e.tag.name, "")] + ps;
      assert own[1..] == ps;
      assert ClosingTagsOf(own) == ClosingTags(e);
      assert NamedAncestors(own) by {
        forall k | 0 <= k < |own| ensures TagName(own[k].name) {
          if k > 0 {
            assert own[k] == ps[k - 1];
          }
        }
      }
    }
  }

  /** An `<i>` inside a `<strong>` inside a `<div>` of the document. */
  function NestedItalic(): (e: Element) {
    Element(Tag("i", [Ancestor("strong", ""), Ancestor("div", ""), Ancestor(DOCUMENT_NAME, "")], None, None, ""),
            Position(0, 0))
  }

  /** Opening tags are not the mirror of the closing ones. */
  lemma TagOrderExample()
    ensures ClosingTags(NestedItalic()) == "</i>" + "</strong>" + "</div>"
    ensures OpeningTags(NestedItalic()) == "<strong>" + "<div>" + "<i>"
  {
    var strong, div := Ancestor("strong", ""), Ancestor("div", "");
    assert NestedItalic().Parents() == [strong, div];
    TagsOfPair(strong, div);
    assert "</" + "i" + ">" == "</i>";
    assert "</" + "strong" + ">" == "</strong>";
    assert "</" + "div" + ">" == "</div>";
    assert "<" + "i" + ">" == "<i>";
    assert "<" + "strong" + ">" == "<strong>";
    assert "<" + "div" + ">" == "<div>";
  }

  lemma TagsOfPair(a: Ancestor, b: Ancestor)
    ensures ClosingTagsOf([a, b]) == "</" + a.name + ">" + ("</" + b.name + ">")
    ensures OpeningTagsOf([a, b]) == "<" + a.name + ">" + ("<" + b.name + ">")
  {
    assert [a, b][1..] == [b];
    assert [b][1..] == [];
    assert ClosingTagsOf([b]) == "</" + b.name + ">" + "";
    assert OpeningTagsOf([b]) == "<" + b.name + ">" + "";
  }

  /** `source[:-(len(closing_tags)+1)] if closing_tags else source`. */
  function Reserved(source: string, closing: string): (kept: string) {
    if closing != "" then Slice(source, 0, -(|closing| + 1)) else source
  }

  /** `str(self.document)[area.start:area.end]`. */
  function Window(e: Element, area: Position): (w: string) {
    Slice(e.Document(), area.start, area.end)
  }

  /** What the head holds before its closing tags: the window, shortened to make room for them, then trimmed. */
  function HeadContent(e: Element, area: Position): (content: string) {
    TrimBrokenTag(Reserved(Window(e, area), ClosingTags(e)))
  }

  /** The head and the tail `e.split(area)` returns. */
  function SplitResult(e: Element, area: Position): (r: (string, string)) {
    var closing, opening := ClosingTags(e), OpeningTags(e);
    var doc := e.Document();
    var head := HeadContent(e, area) + closing;
    (head, opening + Slice(doc, area.start + |head| - |opening|, |doc|))
  }

  /** `Element.split`, reassigning the tag strings and the head step by step as the source does. */
  method Split(e: Element, area: Position) returns (head: string, tail: string)
    ensures (head, tail) == SplitResult(e, area)
  {
    var closingTags := ClosingTagsOf(e.Parents());
    var openingTags := OpeningTagsOf(e.Parents());
    if e.tag.name != DOCUMENT_NAME {
      closingTags := "</" + e.tag.name + ">" + closingTags;
      openingTags := openingTags + "<" + e.tag.name + ">";
    }
    assert closingTags == ClosingTags(e) && openingTags == OpeningTags(e);
    var document := e.Document();
    var source := Slice(document, area.start, area.end);
    assert source == Window(e, area);
    head := if closingTags != "" then Slice(source, 0, -(|closingTags| + 1)) else source;
    assert head == Reserved(source, closingTags);
    var brokenTag := BrokenTagFrom(head, 0);
    if brokenTag.Some? {
      head := head[..brokenTag.value];
    }
    assert head == HeadContent(e, area);
    head := head + closingTags;
    tail := openingTags + Slice(document, area.start + |head| - |openingTags|, |document|);
  }

  /**
    The head is its content followed by the closing tags, and the tail starts
    with the opening tags; the content is a prefix of the window's text.
  */
  lemma SplitShape(e: Element, area: Position)
    ensures SplitResult(e, area).0[..|HeadContent(e, area)|] == HeadContent(e, area)
    ensures SplitResult(e, area).0[|HeadContent(e, area)|..] == ClosingTags(e)
    ensures |SplitResult(e, area).1| >= |OpeningTags(e)|
    ensures SplitResult(e, area).1[..|OpeningTags(e)|] == OpeningTags(e)
    ensures |HeadContent(e, area)| <= |Window(e, area)|
    ensures HeadContent(e, area) == Window(e, area)[..|HeadContent(e, area)|]
  {
    var window := Window(e, area);
    var closing, opening := ClosingTags(e), OpeningTags(e);
    var reserved := Reserved(window, closing);
    if closing != "" {
      SliceDropLast(window, |closing| + 1);
    }
    assert |reserved| <= |window| && reserved == window[..|reserved|];
    var content := TrimBrokenTag(reserved);
    assert content == window[..|content|];
    var head := content + closing;
    assert head[..|content|] == content && head[|content|..] == closing;
    var tail := SplitResult(e, area).1;
    assert tail[..|opening|] == opening;
  }

  /** What the head holds before its closing tags has no unterminated tag left in it. */
  lemma HeadContentClean(e: Element, area: Position)
    ensures Clean(HeadContent(e, area))
  {
    TrimBrokenTagClean(Reserved(Window(e, area), ClosingTags(e)));
  }

  /**
    The length of the head against the window: with nothing to close it is
    no longer than the window; otherwise it is shorter than the window, or,
    when the window cannot hold the closing tags and one more character, it
    is the closing tags alone.
  */
  lemma HeadLength(e: Element, area: Position)
    ensures ClosingTags(e) == "" ==> |SplitResult(e, area).0| <= |Window(e, area)|
    ensures ClosingTags(e) != "" && |Window(e, area)| >= |ClosingTags(e)| + 1 ==>
      |SplitResult(e, area).0| <= |Window(e, area)| - 1
    ensures ClosingTags(e) != "" && |Window(e, area)| < |ClosingTags(e)| + 1 ==>
      SplitResult(e, area).0 == ClosingTags(e)
  {
    var closing := ClosingTags(e);
    if closing != "" {
      SliceDropLast(Window(e, area), |closing| + 1);
    }
  }

  /** The end of the head's content in the document, plus the number of tags closed. */
  function ResumeAt(e: Element, area: Position): (resume: int) {
    area.start + |HeadContent(e, area)| + TagCount(e)
  }

  /**
    Where the tail resumes: `len(head) - len(opening_tags)` past the window's
    start is never before the start, and it lies `TagCount(e)` characters
    beyond the end of the head's content.
  */
  lemma TailResume(e: Element, area: Position)
    ensures area.start + |SplitResult(e, area).0| - |OpeningTags(e)| == ResumeAt(e, area)
    ensures ResumeAt(e, area) >= area.start
    ensures SplitResult(e, area).1 == OpeningTags(e) + Slice(e.Document(), ResumeAt(e, area), |e.Document()|)
  {
    TagsBalance(e);
  }

  /**
    The characters between the end of the head's content and the point where
    the tail resumes, `TagCount(e)` of them, appear in neither fragment: the
    content, those characters and the tail's text give the document from the
    window's start on.
  */
  lemma TailSkipsTagCount(e: Element, area: Position)
    requires 0 <= area.start && ResumeAt(e, area) <= |e.Document()|
    ensures Rejoins(e.Document(), area.start, HeadContent(e, area), ResumeAt(e, area), SplitResult(e, area).1[|OpeningTags(e)|..])
  {
    TailText(e, area);
    ContentInDocument(e, area);
    Reassemble(e.Document(), area.start, HeadContent(e, area), ResumeAt(e, area), SplitResult(e, area).1[|OpeningTags(e)|..]);
  }

  /**
    `content`, the characters of `doc` from its end up to `resume`, and then
    `rest` give `doc` from `start` on.
  */
  predicate Rejoins(doc: string, start: int, content: string, resume: int, rest: string) {
    && 0 <= start && start + |content| <= resume <= |doc|
    && content + doc[start + |content|..resume] + rest == doc[start..]
  }

  /** `TailSkipsTagCount` over plain strings. */
  lemma Reassemble(doc: string, start: int, content: string, resume: int, rest: string)
    requires 0 <= start && start + |content| <= resume <= |doc|
    requires content == doc[start..start + |content|]
    requires rest == doc[resume..]
    ensures Rejoins(doc, start, content, resume, rest)
  {
    Split3(doc, start, start + |content|, resume);
  }

  /** Past the opening tags, the tail is the document's text from `ResumeAt(e, area)` on. */
  lemma TailText(e: Element, area: Position)
    requires 0 <= area.start && ResumeAt(e, area) <= |e.Document()|
    ensures |SplitResult(e, area).1| >= |OpeningTags(e)|
    ensures SplitResult(e, area).1[|OpeningTags(e)|..] == e.Document()[ResumeAt(e, area)..]
  {
    TailResume(e, area);
    SliceFrom(e.Document(), ResumeAt(e, area));
    DropPrefix(OpeningTags(e), e.Document()[ResumeAt(e, area)..]);
  }

  /** The head's content is the document's text from the window's start on. */
  lemma ContentInDocument(e: Element, area: Position)
    requires 0 <= area.start && area.start + |HeadContent(e, area)| <= |e.Document()|
    ensures HeadContent(e, area) == e.Document()[area.start..area.start + |HeadContent(e, area)|]
  {
    SplitShape(e, area);
    WindowPrefix(e.Document(), area.start, area.end, |HeadContent(e, area)|);
  }

  /** A prefix of the window `doc[start:end]` is the text of `doc` from `start` on. */
  lemma WindowPrefix(doc: string, start: int, end: int, n: int)
    requires 0 <= start && 0 <= n <= |Slice(doc, start, end)|
    ensures start + n <= |doc| ==> Slice(doc, start, end)[..n] == doc[start..start + n]
  {
  }

  lemma DropPrefix(a: string, b: string)
    ensures (a + b)[|a|..] == b
  {
  }

  lemma Split3(s: string, i: int, j: int, k: int)
    requires 0 <= i <= j <= k <= |s|
    ensures s[i..] == s[i..j] + s[j..k] + s[k..]
  {
  }

  /**
    With no tags to close (the document itself), the head and the tail put
    back together give exactly the text from the window's start on.
  */
  lemma DocumentSplitReassembles(e: Element, area: Position)
    requires e.IsDocument() && e.Parents() == []
    requires 0 <= area.start
    ensures SplitResult(e, area).0 + SplitResult(e, area).1 == Slice(e.Document(), area.start, |e.Document()|)
  {
    var doc := e.Document();
    TagsBalance(e);
    SplitShape(e, area);
    TailResume(e, area);
    SliceFrom(doc, area.start);
    if ResumeAt(e, area) <= |doc| {
      TailSkipsTagCount(e, area);
    }
  }
}
