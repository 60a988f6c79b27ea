/**
  Choosing the element to cut through: the innermost (shortest) element that
  contains the cursor and is splittable there, unless it is the whole
  document and one opaque tag wraps everything.
*/
module Selector {
  import opened Wrappers
  import opened PySeq
  import opened Markup
  import opened Indexer

  /** The filter of `_get_element_under_cursor`. */
  predicate Qualifies(e: Element, cursor: int) {
    e.position.Contains(cursor) && e.Splittable(cursor)
  }

  /** Element `i` is what Python's `min(filtered, key=length)` picks: a shortest qualifying element, the first on ties. */
  ghost predicate IsClosest(es: seq<Element>, cursor: int, i: int) {
    && 0 <= i < |es|
    && Qualifies(es[i], cursor)
    && (forall j :: 0 <= j < |es| && Qualifies(es[j], cursor) ==> es[i].position.Length() <= es[j].position.Length())
    && (forall j :: 0 <= j < i && Qualifies(es[j], cursor) ==> es[i].position.Length() < es[j].position.Length())
  }

  /** Element `i` is what Python's `max(elements, key=end)` picks: the first with the largest end. */
  ghost predicate IsFirstMaxEnd(es: seq<Element>, i: int) {
    && 0 <= i < |es|
    && (forall j :: 0 <= j < |es| ==> es[j].position.end <= es[i].position.end)
    && (forall j :: 0 <= j < i ==> es[j].position.end < es[i].position.end)
  }

  /** The veto's condition on the list: element 1 is opaque and is the first to reach the largest end. */
  ghost predicate WrappedByOpaque(es: seq<Element>) {
    |es| > 1 && es[1].tag.name !in SPLITTABLE_TAGS && IsFirstMaxEnd(es, 1)
  }

  /** `min(filtered, key=lambda e: e.position.lenght)`, over the qualifying elements of `es`. */
  function Closest(es: seq<Element>, cursor: int): (r: Option<nat>)
    ensures r.None? <==> forall j :: 0 <= j < |es| ==> !Qualifies(es[j], cursor)
    ensures r.Some? ==> IsClosest(es, cursor, r.value)
    decreases |es|
  {
    if es == [] then None
    else
      var last := |es| - 1;
      var c := Closest(es[..last], cursor);
      assert forall j :: 0 <= j < last ==> es[..last][j] == es[j];
      if !Qualifies(es[last], cursor) then c
      else if c.None? || es[last].position.Length() < es[c.value].position.Length() then Some(last)
      else c
  }

  /** `max(es, key=lambda e: e.position.end)`. */
  function FirstMaxEnd(es: seq<Element>): (r: nat)
    requires |es| > 0
    ensures IsFirstMaxEnd(es, r)
    decreases |es|
  {
    if |es| == 1 then 0
    else
      var last := |es| - 1;
      var m := FirstMaxEnd(es[..last]);
      assert forall j :: 0 <= j < last ==> es[..last][j] == es[j];
      if es[last].position.end > es[m].position.end then last else m
  }

  lemma ClosestUnique(es: seq<Element>, cursor: int, a: int, b: int)
    requires IsClosest(es, cursor, a) && IsClosest(es, cursor, b)
    ensures a == b
  {
  }

  lemma FirstMaxEndUnique(es: seq<Element>, a: int, b: int)
    requires IsFirstMaxEnd(es, a) && IsFirstMaxEnd(es, b)
    ensures a == b
  {
    assert es[a].position.end == es[b].position.end;
  }

  lemma FirstMaxEndIsOne(es: seq<Element>)
    ensures |es| > 1 ==> (FirstMaxEnd(es) == 1 <==> IsFirstMaxEnd(es, 1))
  {
    if |es| > 1 && IsFirstMaxEnd(es, 1) {
      FirstMaxEndUnique(es, FirstMaxEnd(es), 1);
    }
  }

  /** `_get_element_under_cursor`, returning the index of the chosen element. */
  function UnderCursor(es: seq<Element>, cursor: int): (r: Option<nat>)
    ensures r.Some? ==> IsClosest(es, cursor, r.value) && !(es[r.value].IsDocument() && WrappedByOpaque(es))
    ensures r.None? ==>
      || (forall j :: 0 <= j < |es| ==> !Qualifies(es[j], cursor))
      || (WrappedByOpaque(es) && exists i :: IsClosest(es, cursor, i) && es[i].IsDocument())
  {
    FirstMaxEndIsOne(es);
    var c := Closest(es, cursor);
    if c.Some? && es[c.value].IsDocument() && |es| > 1 && es[1].tag.name !in SPLITTABLE_TAGS
       && FirstMaxEnd(es) == 1
    then None
    else c
  }

  /**
    The selector's answer in full: whenever some element qualifies, the
    shortest first one is returned, except that the document is vetoed when
    an opaque tag wraps the whole list.
  */
  lemma UnderCursorExact(es: seq<Element>, cursor: int, i: int)
    requires IsClosest(es, cursor, i)
    ensures UnderCursor(es, cursor) == if es[i].IsDocument() && WrappedByOpaque(es) then None else Some(i)
  {
    var r := UnderCursor(es, cursor);
    if r.Some? {
      ClosestUnique(es, cursor, i, r.value);
    } else {
      assert Qualifies(es[i], cursor);
      var k :| IsClosest(es, cursor, k) && es[k].IsDocument();
      ClosestUnique(es, cursor, i, k);
    }
  }

  /** With nothing qualifying there is no cut point. */
  lemma NothingQualifies(es: seq<Element>, cursor: int)
    requires forall j :: 0 <= j < |es| ==> !Qualifies(es[j], cursor)
    ensures UnderCursor(es, cursor) == None
  {
  }

  /**
    When the first tag of the document starts at line 1, column 0 and is as
    long as the document, it ends where the root ends; the root then comes
    first among the elements with the largest end, so the veto does not apply.
  */
  lemma VetoMissesFlushWrapper(soup: Soup)
    requires soup.root.sourceline.None? && |soup.tags| > 0
    requires soup.tags[0].sourceline == Some(1) && soup.tags[0].sourcepos == Some(0)
    requires |soup.tags[0].text| == |soup.root.text|
    ensures !WrappedByOpaque(AllElements(soup))
  {
    var es := AllElements(soup);
    ElementPositions(soup, 0);
    ElementPositions(soup, 1);
    assert Slice(SplitLines(soup.root.text), 0, 0) == [];
    assert es[0].position.end == es[1].position.end;
  }
}
