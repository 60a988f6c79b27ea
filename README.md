# msg_split in Dafny

A model of `msg_split.py`, a splitter that cuts an HTML message into
fragments of at most `max_len` characters. Where a cut falls inside markup,
the splitter closes the open tags at the end of the fragment and reopens
them at the start of the next one. The model follows the code module by
module:

- `Wrappers`: the `Option` type.
- `PySeq`: Python slicing (`s[a:b]` clamps its bounds and counts negative
  bounds from the end) and `str.split("\n")`.
- `Markup`: the `Position` span, the `SPLITTABLE_TAGS` whitelist, parsed tags
  with their ancestor chains, and `Element` with `parents`, `document` and
  `splittable`.
- `Indexer`: `_get_tag_position` (a loop over lines, proved against its
  closed form) and `_get_all_elements`.
- `Selector`: `_get_element_under_cursor`, the shortest qualifying element
  with the veto against a document wrapped in one opaque tag.
- `Splitter`: `Element.split`. That covers the closing and opening tag
  strings, the room reserved for the closing tags, the trim of a truncated
  trailing tag (an explicit scan with the meaning of `\<[^\>]+$`), and the
  head and tail slices. It is a method that reassigns its strings step by
  step, proved equal to a specification function.
- `Driver`: `split_msg`. It is a `while` loop over the remainder that
  reparses, selects, splits and collects fragments. It is proved equal to a
  recursive definition bounded by fuel.

The parser is a parameter `parse: string -> Soup`. A `Soup` is the root
object and the list of its tags in document order. Each `Tag` carries:

- its name;
- its ancestors, innermost first, each with a name and a serialised text;
- its optional line and column anchor;
- its own serialised text.

The root's text is `str(soup)`.

### Where the code departs from what its names and docstrings suggest

The model follows the code in each of these cases, and a lemma states the
behaviour.

- For a nested tag, `Element.document` is the immediate parent,
  `parents[0]`, and not the root; only for a tag directly below the root is
  it the root (`Markup.DocumentIsImmediateParent`). A cut through a nested
  element therefore slices the parent's own text with a window placed at
  offset 0.
- The opening tags list the parents innermost first and then the element's
  own tag. This is the same order as the closing tags, not their mirror
  (`Splitter.TagOrderExample`).
- The tail resumes at `len(head) - len(opening_tags)`. That is the end of
  the head's content plus one character for every tag closed. At a cut
  through anything but the bare document, that many characters of the text
  appear in neither fragment (`Splitter.TailSkipsTagCount`). The same
  arithmetic shows the resume index is never before the window's start, so
  Python's negative-index case cannot arise (`Splitter.TailResume`).
- The room reserved for the closing tags is one character more than their
  length. When the window cannot hold that much, the head is the closing
  tags alone. A fragment can then be longer than `max_len`, but only as
  the closing tags of the element cut (`Splitter.HeadLength`,
  `Driver.StepFragmentBound`, `Driver.FragmentsBounded`).
- A turn can make the remainder longer than it was: the tail reopens every
  tag closed, and the head may have consumed only a character or two of
  text (`Driver.RemainderCanGrow`). Nothing in the code bounds the number of
  turns.
- The veto compares `max(elements, key=end)` with `elements[1]`. Python's
  `max` returns the first maximum. A first tag that starts at line 1,
  column 0 and is as long as the document ends where the root ends. The
  root then is that first maximum, and the veto does not apply
  (`Selector.VetoMissesFlushWrapper`). When, in addition, no tag qualifies
  at the cursor, the turn cuts through the root instead of raising "Cannot
  split message" (`Driver.FlushWrapperIsCut`). `test_unsplittable`
  (tests/test_split.py:28-31) expects the error for a message wrapped in
  `<a href="">`. If the parser anchors that `<a>` at line 1, column 0 with a
  serialisation as long as `str(soup)`, the lemma's conditions hold: `a` is
  not whitelisted, so no tag below it qualifies (`Markup.OpaqueParentBlocks`),
  and `a` itself does not either. The model then predicts a cut where the
  test expects the error. This is not executed; it depends on the parser's
  anchors, which this model does not fix.

## Model

| member | source | states |
|---|---|---|
| Markup.ContainsIsStrict | msg_split.py:22-27 | `contains(c)` holds exactly when `start < c < end`; neither endpoint is contained; a span that contains a point is at least 2 long |
| Markup.ClosingTagsHoldNoText | msg_split.py:66 | closing tags of well-formed names are empty, or begin with `<`, end with `>` and hold a `<` right after every inner `>`, so no text lies between them |
| Markup.DocumentIsImmediateParent | msg_split.py:42-45 | `Element.document`, the text a split slices, is the serialisation of the immediate parent `parents[0]` for a nested tag, of the root for a tag directly below it, and the tag's own text for the root itself |
| Markup.ParentsExcludeRoot | msg_split.py:38-40 | the parents are the ancestor chain without its last member (the root), and a tag with at most one ancestor has none |
| Markup.ClosingBudgetIsLength | msg_split.py:53-67 | the budget `sum(len(f"</{p.name}>"))` the splittability test reserves equals the length of the parents' closing tags; the closing tags are longer than the opening ones by one character per parent; either string is empty iff there are no parents |
| Markup.SplittableIff | msg_split.py:47-59 | the document is always splittable; any other element is splittable iff its name and every parent's name are whitelisted and the cursor lies beyond its start plus the length of its parents' closing tags |
| Markup.OpaqueParentBlocks | msg_split.py:58 | an element below a non-whitelisted parent is never splittable, at any cursor |
| Markup.SplittableMonotone | msg_split.py:53-56 | an element splittable at some cursor stays splittable at every later cursor |
| PySeq.SliceIndex | msg_split.py:71 | Python's normalised slice bound always lies within the sequence |
| PySeq.SliceFrom | msg_split.py:79 | `s[a:]` with `a >= 0` is the suffix from `a`, or empty past the end |
| PySeq.SliceTo | msg_split.py:71 | `s[:b]` with `b >= 0` is the prefix of length `b`, or all of `s` when `b` exceeds its length |
| PySeq.SliceDropLast | msg_split.py:72 | `s[:-m]` drops the last `m` elements, and is empty when `m` exceeds the length |
| PySeq.FirstNewline | msg_split.py:155 | the index found holds the first line break of the text; none is found only in a text without line breaks |
| PySeq.SplitLines | msg_split.py:155 | `split("\n")` gives one more piece than there are line breaks |
| PySeq.SplitLinesRoundTrip | msg_split.py:155 | joining the pieces of `split("\n")` with line breaks gives back the text, and no piece contains a line break |
| Indexer.TagPosition | msg_split.py:149-160 | the accumulating loop of `_get_tag_position` computes the closed form `TagPositionOf`: the whole document without an anchor, else the sum of `len(line)+1` over the lines before the tag's line plus its column, with the serialised length as the span's length |
| Indexer.UnanchoredSpansDocument | msg_split.py:153-154 | a tag without a line or column anchor spans `[0, len(document))` |
| Indexer.LineStart | msg_split.py:155-158 | line `k` of `split("\n")` starts at the sum of the lengths plus one of the lines before it; exactly `k` line breaks precede it, the last one just before it; a line break follows it unless it is the last line |
| Indexer.LineOffset | msg_split.py:155-158 | the offset the loop reaches after `k` lines lies in the document, after exactly `k` line breaks, the last one just before it |
| Indexer.AnchoredPosition | msg_split.py:155-160 | for a tag anchored on line `l`, the span's start minus its column lies just after the `(l-1)`-th line break; the span is as long as the tag's serialised form |
| Indexer.AllElements | msg_split.py:114-121 | the element list is the root object followed by every tag, one element each, in order |
| Selector.Closest | msg_split.py:131-136 | there is no choice exactly when no element both contains the cursor and is splittable there; otherwise the choice qualifies, is no longer than any qualifying element, and is strictly shorter than every qualifying element before it (Python's `min` takes the first on ties) |
| Selector.ClosestUnique | msg_split.py:136 | at most one element meets the `min` condition |
| Selector.FirstMaxEnd | msg_split.py:143 | the index returned has the largest end, and every element before it ends strictly earlier (Python's `max` takes the first on ties) |
| Selector.FirstMaxEndUnique | msg_split.py:143 | at most one index meets the `max` condition |
| Selector.FirstMaxEndIsOne | msg_split.py:143 | `max(...)` is element 1 exactly when element 1 is the first to reach the largest end |
| Selector.UnderCursor | msg_split.py:124-146 | a returned element is the `min` choice and is not a vetoed document; `None` means nothing qualifies, or the choice was the document and element 1 is an opaque tag that is first to reach the largest end |
| Selector.UnderCursorExact | msg_split.py:131-146 | whenever some element qualifies, the `min` choice is returned unless it is the document and the veto's condition holds, in which case `None` is |
| Selector.NothingQualifies | msg_split.py:131-135 | with no qualifying element the selector returns `None` |
| Selector.VetoMissesFlushWrapper | msg_split.py:139-145 | when the first tag starts at line 1, column 0 and is as long as the document, the veto's condition is false |
| Splitter.NoCloseFromIff | msg_split.py:73 | the scan for "no `>` from here on" agrees with its quantified meaning |
| Splitter.BrokenTagFrom | msg_split.py:73 | the scan for `\<[^\>]+$` reports a position inside the text |
| Splitter.BrokenTagFromLeftmost | msg_split.py:73 | the position reported is a match, and no match lies before it; no report means no match at all, as `re.search` finds the leftmost match |
| Splitter.TrimBrokenTag | msg_split.py:73-75 | the trimmed head is a prefix of the head |
| Splitter.TrimBrokenTagClean | msg_split.py:73-75 | no unterminated `<` is left after the trim; the head is shortened only to stop right before the leftmost unterminated `<`; a head without one is kept whole |
| Splitter.TrimIdempotent | msg_split.py:73-75 | trimming a trimmed head changes nothing |
| Splitter.TrailingAngleKept | msg_split.py:73 | a lone `<` at the very end does not match `\<[^\>]+$`, so it is kept |
| Splitter.TagsBalance | msg_split.py:66-70 | the closing tags are longer than the opening tags by one character per tag closed |
| Splitter.NoTagsIff | msg_split.py:66-70 | either tag string is empty exactly when the element is the document and has no parents |
| Splitter.ClosingTagsAreNamed | msg_split.py:66-69 | the tags a cut through a well-named element closes are closing tags of well-formed names and nothing else |
| Splitter.TagsOfPair | msg_split.py:66-67 | for two parents, both tag strings list them in the same order, innermost first |
| Splitter.TagOrderExample | msg_split.py:66-70 | for `<i>` in `<strong>` in `<div>`, the closing tags are `</i></strong></div>`, but the opening tags are `<strong><div><i>` |
| Splitter.Split | msg_split.py:61-81 | the step-by-step reassignments of `closing_tags`, `opening_tags` and `head` give the specification's head and tail |
| Splitter.SplitShape | msg_split.py:72-80 | the head is its content followed by the closing tags; the tail starts with the opening tags; the content is a prefix of the window |
| Splitter.HeadContentClean | msg_split.py:72-75 | the head's content holds no unterminated tag |
| Splitter.HeadLength | msg_split.py:71-76 | with nothing to close, the head is no longer than the window; a window that holds the closing tags and one character more gives a head strictly shorter than the window; otherwise the head is exactly the closing tags |
| Splitter.TailResume | msg_split.py:77-80 | the tail resumes at the end of the head's content plus one character per tag closed, never before the window's start, and is the opening tags followed by the document from there |
| Splitter.TailText | msg_split.py:77-80 | past the opening tags, the tail is the document's text from the resume point on |
| Splitter.ContentInDocument | msg_split.py:71-75 | the head's content is the document's text from the window's start on |
| Splitter.TailSkipsTagCount | msg_split.py:72-80 | the head's content, then the characters up to the resume point, then the tail's text give the whole document from the window's start: exactly those characters, one per tag closed, are in neither fragment |
| Splitter.DocumentSplitReassembles | msg_split.py:66-81 | for the document with no parents, head plus tail is exactly the document's text from the window's start on |
| Driver.TakeTurn | msg_split.py:97-109 | one pass of the loop body computes the turn function of the model |
| Driver.Drain | msg_split.py:95-111 | the `while raw:` loop yields the fragments and ends with the outcome of the recursive loop over the remainder |
| Driver.SplitMsg | msg_split.py:84-111 | `split_msg`, whose `max_len` defaults to `MAX_LEN` (4096), yields what `Messages` describes; a non-positive `max_len` raises before anything is yielded; an empty source yields nothing |
| Driver.LoopCut | msg_split.py:109-111 | a turn that cuts yields the head and continues with the loop on the tail |
| Driver.InvalidMaxLenRaises | msg_split.py:92-93 | `max_len <= 0` raises "Invalid max_len" with no fragment |
| Driver.EmptyMessageYieldsNothing | msg_split.py:95-96 | an empty message yields zero fragments and ends normally |
| Driver.ShortMessageYieldsItself | msg_split.py:100-104 | a remainder shorter than `max_len` whose elements all end within it is yielded unchanged as the last fragment, as a case of `NoCutPoint` |
| Driver.NoCutPoint | msg_split.py:100-108 | with no cut point, a remainder shorter than `max_len` is yielded whole and ends the loop; a longer one whose soup has no tags is cut through its root and the loop goes on with the tail; a longer one with tags raises "Cannot split message" with no fragment |
| Driver.FlushWrapperIsCut | msg_split.py:99-109 | a remainder longer than `max_len` whose first tag starts at line 1, column 0 and is as long as the document, with no tag qualifying, is cut through the root rather than raising |
| Driver.StepFragmentBound | msg_split.py:99-110 | a last fragment is shorter than `max_len`; a head is at most `max_len` long or is exactly the closing tags of the element the turn cut, the selector's choice or, when it has none, the root |
| Driver.StepFits | msg_split.py:99-110 | with well-formed tag names, every fragment of a turn is at most `max_len` long or is nothing but closing tags |
| Driver.LoopFragmentsFit | msg_split.py:96-111 | a loop whose every turn obeys the bound yields only fragments that obey it |
| Driver.FragmentsBounded | msg_split.py:88-90 | with a parser whose tag names are well formed, every fragment `split_msg` yields is at most `max_len` long, unless it is nothing but closing tags |
| Driver.RemainderCanGrow | msg_split.py:96-111 | for `<b><i>`, thirteen `x`, `</i></b>` parsed as `b` holding `i`, one turn at `max_len` 10 cuts through `i` and leaves a tail longer than the remainder |
| Driver.GrowingExample | msg_split.py:96-111 | the same growth for the concrete 27-character text |
| Driver.ChunksReassemble | msg_split.py:88-90 | the chunks of a text join back into it; each is non-empty and at most `n` long; there are `ceil(len/n)` of them |
| Driver.NoAngleNoTrim | msg_split.py:73-75 | text without `<` is never trimmed |
| Driver.PlainElements | msg_split.py:114-121 | the element list of plain text is its root alone, spanning the whole text |
| Driver.PlainSplit | msg_split.py:66-81 | cutting plain text through its root at `max_len` gives its first `max_len` characters and the rest |
| Driver.PlainStep | msg_split.py:97-109 | one turn on plain text yields it whole when shorter than `max_len`, and otherwise cuts it at `max_len` |
| Driver.PlainTextChunks | msg_split.py:96-111 | plain text, given enough turns, comes out as consecutive `max_len`-character chunks, and nothing is raised |
| Driver.PlainLoop | msg_split.py:96-111 | the loop over plain text yields the chunks for any turn that behaves as a turn on such text |
| Driver.JustTextYieldsEight | tests/test_split.py:17-20 | 1024 characters without markup, cut at 128, come out as exactly eight fragments and end normally |

## Left out

- main.py, the command-line wrapper, is not part of this model. It only
  reads a file and prints the fragments with colours.
- BeautifulSoup is a parameter. Parsing (`_bs4.BeautifulSoup(raw, ...)`,
  `soup.find_all()`) is a parameter `parse: string -> Soup`, and `str(tag)`
  is the `text` each tag and ancestor carries. The model does not relate
  that text to `raw` or to the ancestors' texts. It also does not state the
  parser's nesting invariants.
- Driver.FragmentsBounded: assumes the parser's tag names are well formed
  (`Indexer.WellNamed`: non-empty, with no whitespace, NUL, `/` or `>`, the
  characters at which html.parser ends a name). Without it the exception
  would admit any `</...>` text.
- `PlainParse` is a modelling assumption: plain text (`Driver.PlainText`:
  no `<`, and no `>` or `&`, which the serialiser would escape) parses to a
  root with no tags whose serialisation is the text itself. Outside that
  domain `str(soup)` can differ from the input, and the plain-text lemmas
  say nothing about it. `Driver.PlainTextChunks` and
  `Driver.JustTextYieldsEight` rely on it.
- tests/test_split.py:23-27 (`test_splittable`): its outcome depends on
  what the parser makes of the input, which is not part of this model.
  `test_unsplittable` is discussed above, with `Driver.FlushWrapperIsCut`.
- The regular-expression engine is not modelled. `\<[^\>]+$` is replaced by
  an explicit leftmost scan with the same meaning.
- Generator laziness is not modelled. `split_msg` collects every fragment
  it would yield, so a consumer that stops early is not covered.
- Driver.SplitMsg: runs at most `fuel` turns and then reports `OutOfFuel`.
  The code has no bound, and its remainder need not shrink: one turn can
  lengthen it (`Driver.RemainderCanGrow`). Whether the code always ends is
  not shown.
- Selector.FirstMaxEnd: `max(...) == elements[1]` uses the equality of
  dataclasses holding parser objects. The model replaces it with "index 1
  is the first maximum". Python's veto also fires when `max` returns a
  later element equal to `elements[1]` in name, attributes, contents and
  span; the model's veto does not.
- Bytes and encodings are out of scope. Text is a sequence of characters;
  lengths count characters, as Python's `len` on `str` does.
