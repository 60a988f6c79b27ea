/**
  The values the splitter works on: spans of serialised text, parsed tags
  with their ancestor chains, and the `Element` wrapper that pairs a tag with
  its span and decides whether a cut through it is allowed.
*/
module Markup {
  import opened Wrappers
  import opened PySeq

  /** Name the parser gives its root object, the whole document. */
  const DOCUMENT_NAME: string := "[document]"

  /** Tags that may be closed at a cut and reopened in the next fragment. */
  const SPLITTABLE_TAGS: set<string> := {"p", "b", "strong", "i", "ul", "ol", "div", "span"}

  /** A span `[start, end)` of the serialised text. */
  datatype Position = Position(start: int, end: int) {

    /** Spelled `lenght` in the source. */
    function Length(): (r: int) {
      end - start
    }

    /** Strict containment: neither endpoint is inside. */
    predicate Contains(other: int) {
      other > start && other < end
    }
  }

  /** Both endpoints are excluded, so a span containing a point is at least two long. */
  lemma ContainsIsStrict(p: Position, c: int)
    ensures !p.Contains(p.start) && !p.Contains(p.end)
    ensures p.Contains(c) <==> p.start < c < p.end
    ensures p.Contains(c) ==> p.Length() >= 2
  {
  }

  /** An ancestor as the splitter sees it: its name and its own serialised form. */
  datatype Ancestor = Ancestor(name: string, text: string)

  /**
    A parsed tag, or the parser's root object. `ancestors` runs from the
    immediate parent up to the root; `sourceline` (1-based) and `sourcepos`
    (0-based column) are the parser's anchor, absent for the root; `text` is
    the tag's own serialised form, its opening tag, contents and closing tag.
  */
  datatype Tag = Tag(
    name: string,
    ancestors: seq<Ancestor>,
    sourceline: Option<int>,
    sourcepos: Option<int>,
    text: string)

  /** A tag together with its absolute span in the serialised document. */
  datatype Element = Element(tag: Tag, position: Position) {

    predicate IsDocument() {
      tag.name == DOCUMENT_NAME
    }

    /** The ancestor chain without its last member, the root. */
    function Parents(): (ps: seq<Ancestor>) {
      Slice(tag.ancestors, 0, -1)
    }

    /** The text the split slices: the serialised immediate parent, or the tag itself when it has none. */
    function Document(): (text: string) {
      if |tag.ancestors| > 0 then tag.ancestors[0].text else tag.text
    }

    /** May a fragment end at `cursor` inside this element? */
    predicate Splittable(cursor: int) {
      if IsDocument() then true
      else
        && tag.name in SPLITTABLE_TAGS
        && cursor > position.start + ClosingBudget(Parents())
        && AllSplittable(Parents())
    }
  }

  predicate AllSplittable(ps: seq<Ancestor>) {
    forall k :: 0 <= k < |ps| ==> ps[k].name in SPLITTABLE_TAGS
  }

  /** The sum of `len("</name>")` over `ps`, as the splittability test computes it. */
  function ClosingBudget(ps: seq<Ancestor>): (r: int) {
    if ps == [] then 0 else |"</" + ps[0].name + ">"| + ClosingBudget(ps[1..])
  }

  /** `"".join(f"</{p.name}>" for p in ps)`. */
  function ClosingTagsOf(ps: seq<Ancestor>): (tags: string) {
    if ps == [] then "" else "</" + ps[0].name + ">" + ClosingTagsOf(ps[1..])
  }

  /** `"".join(f"<{p.name}>" for p in ps)`: the same order as the closing tags. */
  function OpeningTagsOf(ps: seq<Ancestor>): (tags: string) {
    if ps == [] then "" else "<" + ps[0].name + ">" + OpeningTagsOf(ps[1..])
  }

  /** The parents are the ancestors minus the root, and the root has none. */
  lemma ParentsExcludeRoot(e: Element)
    ensures |e.tag.ancestors| > 0 ==> e.Parents() == e.tag.ancestors[..|e.tag.ancestors| - 1]
    ensures |e.tag.ancestors| <= 1 ==> e.Parents() == []
  {
  }

  /**
    The text a split slices is the serialised immediate parent: the first of
    the parents for a nested tag, the root for a tag directly below it, and
    the tag's own text for the root itself.
  */
  lemma DocumentIsImmediateParent(e: Element)
    ensures e.Parents() != [] ==> e.Document() == e.Parents()[0].text
    ensures |e.tag.ancestors| == 1 ==> e.Parents() == [] && e.Document() == e.tag.ancestors[0].text
    ensures e.tag.ancestors == [] ==> e.Document() == e.tag.text
  {
    ParentsExcludeRoot(e);
  }

  /**
    The budget the splittability test reserves is exactly the length of the
    closing tags the split emits for the same ancestors, and each closing tag
    is one character longer than its opening tag.
  */
  lemma {:induction false} ClosingBudgetIsLength(ps: seq<Ancestor>)
    ensures ClosingBudget(ps) == |ClosingTagsOf(ps)|
    ensures |ClosingTagsOf(ps)| == |OpeningTagsOf(ps)| + |ps|
    ensures ClosingTagsOf(ps) == "" <==> ps == []
    ensures OpeningTagsOf(ps) == "" <==> ps == []
  {
    if ps != [] {
      ClosingBudgetIsLength(ps[1..]);
    }
  }

  /** The characters that end a tag name in html.parser: whitespace, NUL, `/` and `>`. */
  const NAME_STOPS: set<char> := {' ', '\t', '\n', '\r', '\U{000C}', '\0', '/', '>'}

  /** A name the parser can give a tag: non-empty, and none of its characters ends a name. */
  predicate TagName(n: string) {
    n != "" && forall k :: 0 <= k < |n| ==> n[k] !in NAME_STOPS
  }

  predicate NamedAncestors(ps: seq<Ancestor>) {
    forall k :: 0 <= k < |ps| ==> TagName(ps[k].name)
  }

  /** A tag whose own name and every ancestor's name are names the parser can give. */
  predicate NamedTag(t: Tag) {
    TagName(t.name) && NamedAncestors(t.ancestors)
  }

  /** Nothing but the closing tags of a chain of well-formed names. */
  ghost predicate ClosingTagsOnly(f: string) {
    exists ps :: NamedAncestors(ps) && f == ClosingTagsOf(ps)
  }

  /**
    Closing tags of well-formed names carry no text: the string is empty or
    runs from a `<` to a `>`, and every `>` but the last is followed by a `<`,
    so no character lies between two tags.
  */
  lemma {:induction false} ClosingTagsHoldNoText(ps: seq<Ancestor>)
    requires NamedAncestors(ps)
    ensures ClosingTagsOf(ps) != "" ==> ClosingTagsOf(ps)[0] == '<' && ClosingTagsOf(ps)[|ClosingTagsOf(ps)| - 1] == '>'
    ensures forall k :: 0 <= k < |ClosingTagsOf(ps)| - 1 && ClosingTagsOf(ps)[k] == '>' ==>
      ClosingTagsOf(ps)[k + 1] == '<'
  {
    if ps != [] {
      var n, rest := ps[0].name, ClosingTagsOf(ps[1..]);
      assert NamedAncestors(ps[1..]) by {
        forall k | 0 <= k < |ps[1..]| ensures TagName(ps[1..][k].name) {
          assert ps[1..][k] == ps[k + 1];
        }
      }
      ClosingTagsHoldNoText(ps[1..]);
      ClosingBudgetIsLength(ps[1..]);
      var f := ClosingTagsOf(ps);
      assert f == "</" + n + ">" + rest;
      forall k | 0 <= k < |f|
        ensures f[k] == '>' && k < |f| - 1 ==> f[k + 1] == '<'
      {
        if k < |n| + 2 {
          if k >= 2 {
            assert f[k] == n[k - 2];
            assert n[k - 2] !in NAME_STOPS;
          }
        } else if k > |n| + 2 {
          var j := k - |n| - 3;
          assert f[k] == rest[j];
          if j + 1 < |rest| {
            assert f[k + 1] == rest[j + 1];
          }
        }
      }
    }
  }

  /**
    The document is always splittable; any other element is splittable at
    `cursor` iff its name and every parent's name are whitelisted and the
    cursor lies beyond its start plus the length of its parents' closing tags.
  */
  lemma SplittableIff(e: Element, cursor: int)
    ensures e.IsDocument() ==> e.Splittable(cursor)
    ensures !e.IsDocument() ==>
      (e.Splittable(cursor) <==>
        && e.tag.name in SPLITTABLE_TAGS
        && (forall k :: 0 <= k < |e.Parents()| ==> e.Parents()[k].name in SPLITTABLE_TAGS)
        && cursor > e.position.start + |ClosingTagsOf(e.Parents())|)
  {
    ClosingBudgetIsLength(e.Parents());
  }

  /** Below an opaque (non-whitelisted) parent nothing but the document is ever splittable. */
  lemma OpaqueParentBlocks(e: Element, k: int, cursor: int)
    requires !e.IsDocument()
    requires 0 <= k < |e.Parents()| && e.Parents()[k].name !in SPLITTABLE_TAGS
    ensures !e.Splittable(cursor)
  {
  }

  /** Moving the cursor further right never makes an element unsplittable. */
  lemma SplittableMonotone(e: Element, cursor: int, later: int)
    requires cursor <= later && e.Splittable(cursor)
    ensures e.Splittable(later)
  {
  }
}
