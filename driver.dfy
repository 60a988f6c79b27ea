/**
  `split_msg`: the loop that reparses what is left, picks a cut point, emits
  the head and continues with the tail, until nothing is left, the remainder
  fits, or the remainder cannot be cut.
*/
module Driver {
  import opened Wrappers
  import opened PySeq
  import opened Markup
  import opened Indexer
  import opened Selector
  import opened Splitter

  /** The default fragment length of `split_msg`. */
  const MAX_LEN: int := 4096

  /** The two `ValueError`s the generator raises. */
  datatype Failure = InvalidMaxLen | CannotSplit

  /** How the generator ends; `OutOfFuel` is the model's iteration bound running out. */
  datatype Outcome = Done | Raised(failure: Failure) | OutOfFuel

  /** The fragments yielded, in order, and how the generator ended. */
  datatype Run = Run(fragments: seq<string>, outcome: Outcome)

  /** One turn of the loop: yield the remainder and stop, yield a head and go on with a tail, or raise. */
  datatype StepResult = Last(fragment: string) | Cut(head: string, tail: string) | Stuck

  /** One turn of the loop on the remainder `raw`, which the parser turned into `soup`. */
  function Step(raw: string, maxLen: int, soup: Soup): (r: StepResult) {
    var elements := AllElements(soup);
    var area := Position(0, maxLen);
    match UnderCursor(elements, maxLen)
    case Some(i) =>
      var (head, tail) := SplitResult(elements[i], area);
      Cut(head, tail)
    case None =>
      if |raw| < maxLen then Last(raw)
      else if |elements| == 1 then
        var (head, tail) := SplitResult(elements[0], area);
        Cut(head, tail)
      else Stuck
  }

  /**
    The `while raw:` loop, run for at most `fuel` turns; `turn` is one pass
    of its body on the current remainder.
  */
  function Loop(raw: string, turn: string -> StepResult, fuel: nat): (r: Run)
    decreases fuel
  {
    if raw == "" then Run([], Done)
    else if fuel == 0 then Run([], OutOfFuel)
    else
      match turn(raw)
      case Last(fragment) => Run([fragment], Done)
      case Cut(head, tail) =>
        var rest := Loop(tail, turn, fuel - 1);
        Run([head] + rest.fragments, rest.outcome)
      case Stuck => Run([], Raised(CannotSplit))
  }

  /** The body of the loop: parse the remainder, then take one step. */
  function Turn(maxLen: int, parse: string -> Soup): (turn: string -> StepResult) {
    raw => Step(raw, maxLen, parse(raw))
  }

  /** Everything `split_msg(source, maxLen)` yields before it stops, raises or runs out of fuel. */
  function Messages(source: string, maxLen: int, parse: string -> Soup, fuel: nat): (r: Run) {
    if maxLen <= 0 then Run([], Raised(InvalidMaxLen))
    else Loop(source, Turn(maxLen, parse), fuel)
  }

  /** `turn` does on every remainder what one pass of the loop body does. */
  ghost predicate IsTurn(turn: string -> StepResult, maxLen: int, parse: string -> Soup) {
    forall r {:trigger parse(r)} :: turn(r) == Step(r, maxLen, parse(r))
  }

  /**
    One pass of the loop body, as the code runs it: parse, select, split.
    `turn` is that pass as a function, `Turn(maxLen, parse)` in `SplitMsg`.
  */
  method TakeTurn(raw: string, maxLen: int, parse: string -> Soup, ghost turn: string -> StepResult)
    returns (r: StepResult)
    requires IsTurn(turn, maxLen, parse)
    ensures r == turn(raw)
  {
    var soup := parse(raw);
    var elements := AllElements(soup);
    var chosen := UnderCursor(elements, maxLen);
    var element: Element;
    if chosen.Some? {
      element := elements[chosen.value];
    } else if |raw| < maxLen {
      return Last(raw);
    } else if |elements| == 1 {
      element := elements[0];
    } else {
      return Stuck;
    }
    var head, tail := Split(element, Position(0, maxLen));
    r := Cut(head, tail);
  }

  /** A turn that yields a head continues with the loop on the tail. */
  lemma LoopCut(raw: string, turn: string -> StepResult, fuel: nat, head: string, tail: string)
    requires raw != "" && fuel > 0 && turn(raw) == Cut(head, tail)
    ensures Loop(raw, turn, fuel)
      == Run([head] + Loop(tail, turn, fuel - 1).fragments, Loop(tail, turn, fuel - 1).outcome)
  {
  }

  /**
    `split_msg` as a loop over the remainder, collecting the fragments it
    would yield. `parse` stands for the markup parser; `fuel` bounds the turns.
  */
  method SplitMsg(source: string, parse: string -> Soup, fuel: nat, maxLen: int := MAX_LEN)
    returns (fragments: seq<string>, outcome: Outcome)
    ensures Run(fragments, outcome) == Messages(source, maxLen, parse, fuel)
    ensures maxLen <= 0 ==> fragments == [] && outcome == Raised(InvalidMaxLen)
    ensures maxLen > 0 && source == "" ==> fragments == [] && outcome == Done
  {
    if maxLen <= 0 {
      return [], Raised(InvalidMaxLen);
    }
    fragments, outcome := Drain(source, maxLen, parse, fuel, Turn(maxLen, parse));
  }

  /** The `while raw:` loop of `split_msg`, for a `turn` that is its body. */
  method Drain(source: string, maxLen: int, parse: string -> Soup, fuel: nat, ghost turn: string -> StepResult)
    returns (fragments: seq<string>, outcome: Outcome)
    requires IsTurn(turn, maxLen, parse)
    ensures Run(fragments, outcome) == Loop(source, turn, fuel)
  {
    fragments := [];
    var raw := source;
    var left := fuel;
    while raw != ""
      invariant Loop(source, turn, fuel)
        == Run(fragments + Loop(raw, turn, left).fragments, Loop(raw, turn, left).outcome)
      decreases left
    {
      if left == 0 {
        return fragments, OutOfFuel;
      }
      var step := TakeTurn(raw, maxLen, parse, turn);
      match step
      case Last(fragment) =>
        return fragments + [fragment], Done;
      case Stuck =>
        return fragments, Raised(CannotSplit);
      case Cut(head, tail) =>
        LoopCut(raw, turn, left, head, tail);
        ghost var rest := Loop(tail, turn, left - 1);
        assert fragments + ([head] + rest.fragments) == (fragments + [head]) + rest.fragments;
        fragments := fragments + [head];
        raw := tail;
        left := left - 1;
    }
    outcome := Done;
  }

  /** A non-positive `max_len` raises before anything is yielded. */
  lemma InvalidMaxLenRaises(source: string, maxLen: int, parse: string -> Soup, fuel: nat)
    requires maxLen <= 0
    ensures Messages(source, maxLen, parse, fuel) == Run([], Raised(InvalidMaxLen))
  {
  }

  /** An empty message yields no fragment at all. */
  lemma EmptyMessageYieldsNothing(maxLen: int, parse: string -> Soup, fuel: nat)
    requires maxLen > 0
    ensures Messages("", maxLen, parse, fuel) == Run([], Done)
  {
  }

  /**
    With no cut point, a remainder shorter than `max_len` is yielded unchanged
    as the last fragment; a longer one is cut through the root when the soup
    has no tags, and raises "Cannot split message" when it has some.
  */
  lemma NoCutPoint(raw: string, maxLen: int, parse: string -> Soup, fuel: nat)
    requires maxLen > 0 && raw != "" && fuel > 0
    requires UnderCursor(AllElements(parse(raw)), maxLen).None?
    ensures |raw| < maxLen ==> Messages(raw, maxLen, parse, fuel) == Run([raw], Done)
    ensures |raw| >= maxLen && parse(raw).tags == [] ==>
      var (head, tail) := SplitResult(AllElements(parse(raw))[0], Position(0, maxLen));
      var rest := Loop(tail, Turn(maxLen, parse), fuel - 1);
      Messages(raw, maxLen, parse, fuel) == Run([head] + rest.fragments, rest.outcome)
    ensures |raw| >= maxLen && parse(raw).tags != [] ==> Messages(raw, maxLen, parse, fuel) == Run([], Raised(CannotSplit))
  {
    assert Turn(maxLen, parse)(raw) == Step(raw, maxLen, parse(raw));
  }

  /**
    A message shorter than `max_len` whose elements all end within it has no
    cut point, so it is yielded unchanged, as the only fragment.
  */
  lemma ShortMessageYieldsItself(raw: string, maxLen: int, parse: string -> Soup, fuel: nat)
    requires raw != "" && |raw| < maxLen && fuel > 0
    requires forall k :: 0 <= k < |AllElements(parse(raw))| ==> AllElements(parse(raw))[k].position.end <= |raw|
    ensures Messages(raw, maxLen, parse, fuel) == Run([raw], Done)
  {
    NothingQualifies(AllElements(parse(raw)), maxLen);
    NoCutPoint(raw, maxLen, parse, fuel);
  }

  /**
    A remainder longer than `max_len` whose first tag starts at line 1,
    column 0 and is as long as the document, with no tag qualifying at the
    cursor: the root is chosen, the veto does not apply, and the turn cuts
    through the root instead of raising "Cannot split message".
  */
  lemma FlushWrapperIsCut(raw: string, maxLen: int, soup: Soup)
    requires soup.root.name == DOCUMENT_NAME && soup.root.sourceline.None? && |soup.tags| > 0
    requires soup.tags[0].sourceline == Some(1) && soup.tags[0].sourcepos == Some(0)
    requires |soup.tags[0].text| == |soup.root.text|
    requires 0 < maxLen < |soup.root.text|
    requires forall j :: 0 < j < |AllElements(soup)| ==> !Qualifies(AllElements(soup)[j], maxLen)
    ensures Step(raw, maxLen, soup) == Cut(SplitResult(AllElements(soup)[0], Position(0, maxLen)).0,
                                           SplitResult(AllElements(soup)[0], Position(0, maxLen)).1)
  {
    var es := AllElements(soup);
    ElementPositions(soup, 0);
    assert Qualifies(es[0], maxLen);
    assert IsClosest(es, maxLen, 0);
    VetoMissesFlushWrapper(soup);
    UnderCursorExact(es, maxLen, 0);
  }

  /**
    What the parser makes of `<b><i>`, thirteen `x`, `</i></b>`, serialised
    as `raw`: a `b` at line 1, column 0 holding an `i` at column 3 whose
    serialisation is `inner`.
  */
  function NestedSoup(raw: string, inner: string): (soup: Soup) {
    var root := Ancestor(DOCUMENT_NAME, raw);
    Soup(Tag(DOCUMENT_NAME, [], None, None, raw),
         [Tag("b", [root], Some(1), Some(0), raw),
          Tag("i", [Ancestor("b", raw), root], Some(1), Some(3), inner)])
  }

  /** The spans of `NestedSoup`: the root and the `b` cover all 27 characters, the `i` covers `[3, 23)`. */
  lemma NestedPositions(raw: string, inner: string)
    requires |raw| == 27 && |inner| == 20
    ensures AllElements(NestedSoup(raw, inner)) == [
      Element(NestedSoup(raw, inner).root, Position(0, 27)),
      Element(NestedSoup(raw, inner).tags[0], Position(0, 27)),
      Element(NestedSoup(raw, inner).tags[1], Position(3, 23))]
  {
    var soup := NestedSoup(raw, inner);
    SliceTo(SplitLines(raw), 0);
    ElementPositions(soup, 0);
    ElementPositions(soup, 1);
    ElementPositions(soup, 2);
  }

  /** At cursor 10 the selector picks the `i` of `NestedSoup`. */
  lemma NestedChoice(raw: string, inner: string)
    requires |raw| == 27 && |inner| == 20
    ensures UnderCursor(AllElements(NestedSoup(raw, inner)), 10) == Some(2)
  {
    var soup := NestedSoup(raw, inner);
    var es := AllElements(soup);
    NestedPositions(raw, inner);
    var i := es[2];
    ParentsExcludeRoot(i);
    assert i.Parents() == [Ancestor("b", raw)];
    assert "i" in SPLITTABLE_TAGS && "b" in SPLITTABLE_TAGS;
    assert ClosingBudget(i.Parents()) == |"</" + "b" + ">"|;
    assert Qualifies(i, 10);
    assert es[0].position.Length() == 27 && es[1].position.Length() == 27;
    assert IsClosest(es, 10, 2);
    UnderCursorExact(es, 10, 2);
  }

  /** A cut at 10 through a tag closing 8 and reopening 6 characters of tags resumes at most 3 characters in. */
  lemma NestedTail(e: Element)
    requires |e.Document()| == 27 && |ClosingTags(e)| == 8 && |OpeningTags(e)| == 6 && TagCount(e) == 2
    ensures |SplitResult(e, Position(0, 10)).1| > |e.Document()|
  {
    var area := Position(0, 10);
    SliceTo(e.Document(), 10);
    SliceDropLast(Window(e, area), 9);
    assert |HeadContent(e, area)| <= 1;
    TailResume(e, area);
    SliceFrom(e.Document(), ResumeAt(e, area));
  }

  /**
    One turn can lengthen the remainder: at `max_len` 10 the turn cuts
    through the `i`, the head keeps at most one character of text, and the
    tail, reopening `<b><i>` and resuming at most three characters in, is
    longer than the remainder it came from.
  */
  lemma RemainderCanGrow(raw: string, inner: string)
    requires |raw| == 27 && |inner| == 20
    ensures Step(raw, 10, NestedSoup(raw, inner)).Cut?
    ensures |Step(raw, 10, NestedSoup(raw, inner)).tail| > |raw|
  {
    var es := AllElements(NestedSoup(raw, inner));
    NestedPositions(raw, inner);
    NestedChoice(raw, inner);
    var i := es[2];
    ParentsExcludeRoot(i);
    assert i.Parents() == [Ancestor("b", raw)];
    ClosingBudgetIsLength(i.Parents());
    assert ClosingTagsOf(i.Parents()) == "</" + "b" + ">" + "";
    assert OpeningTagsOf(i.Parents()) == "<" + "b" + ">" + "";
    NestedTail(i);
  }

  /** The growing remainder of `RemainderCanGrow`, spelled out. */
  lemma GrowingExample()
    ensures var raw := "<b><i>" + "xxxxxxxxxxxxx" + "</i></b>";
      |Step(raw, 10, NestedSoup(raw, "<i>" + "xxxxxxxxxxxxx" + "</i>")).tail| > |raw|
  {
    RemainderCanGrow("<b><i>" + "xxxxxxxxxxxxx" + "</i></b>", "<i>" + "xxxxxxxxxxxxx" + "</i>");
  }

  /**
    Every turn yields at most `max_len` characters, except a head that is
    nothing but the closing tags of the element the turn cut through (the
    selector's choice, or the root when it has none), because the window
    could not hold them and one more character.
  */
  lemma StepFragmentBound(raw: string, maxLen: int, soup: Soup)
    requires maxLen > 0
    ensures Step(raw, maxLen, soup).Last? ==> |Step(raw, maxLen, soup).fragment| < maxLen
    ensures Step(raw, maxLen, soup).Cut? && UnderCursor(AllElements(soup), maxLen).Some? ==>
      || |Step(raw, maxLen, soup).head| <= maxLen
      || Step(raw, maxLen, soup).head == ClosingTags(AllElements(soup)[UnderCursor(AllElements(soup), maxLen).value])
    ensures Step(raw, maxLen, soup).Cut? && UnderCursor(AllElements(soup), maxLen).None? ==>
      |Step(raw, maxLen, soup).head| <= maxLen || Step(raw, maxLen, soup).head == ClosingTags(AllElements(soup)[0])
  {
    var elements := AllElements(soup);
    var area := Position(0, maxLen);
    var chosen := UnderCursor(elements, maxLen);
    if chosen.Some? || (|raw| >= maxLen && |elements| == 1) {
      var e := if chosen.Some? then elements[chosen.value] else elements[0];
      HeadLength(e, area);
      assert |Window(e, area)| <= maxLen;
    }
  }

  /** With well-formed names, a turn's over-long head is closing tags and nothing else. */
  lemma StepFits(raw: string, maxLen: int, soup: Soup)
    requires maxLen > 0 && WellNamed(soup)
    ensures TurnFits(Step(raw, maxLen, soup), maxLen)
  {
    var elements := AllElements(soup);
    var chosen := UnderCursor(elements, maxLen);
    StepFragmentBound(raw, maxLen, soup);
    var i := if chosen.Some? then chosen.value else 0;
    NamedElements(soup, i);
    ClosingTagsAreNamed(elements[i]);
  }

  /** The bound `StepFits` gives one fragment. */
  ghost predicate Fits(f: string, maxLen: int) {
    |f| <= maxLen || ClosingTagsOnly(f)
  }

  /** Every turn's fragments obey the bound. */
  ghost predicate TurnFits(step: StepResult, maxLen: int) {
    && (step.Last? ==> Fits(step.fragment, maxLen))
    && (step.Cut? ==> Fits(step.head, maxLen))
  }

  ghost predicate AllFit(fs: seq<string>, maxLen: int) {
    forall k :: 0 <= k < |fs| ==> Fits(fs[k], maxLen)
  }

  lemma AllFitCons(f: string, fs: seq<string>, maxLen: int)
    requires Fits(f, maxLen) && AllFit(fs, maxLen)
    ensures AllFit([f] + fs, maxLen)
  {
    var gs := [f] + fs;
    forall k | 0 <= k < |gs|
      ensures Fits(gs[k], maxLen)
    {
      if k > 0 {
        assert gs[k] == fs[k - 1];
      }
    }
  }

  /** A loop whose every turn obeys the bound yields only fragments that obey it. */
  lemma {:induction false} LoopFragmentsFit(raw: string, turn: string -> StepResult, maxLen: int, fuel: nat)
    requires forall r :: TurnFits(turn(r), maxLen)
    ensures AllFit(Loop(raw, turn, fuel).fragments, maxLen)
    decreases fuel
  {
    if raw != "" && fuel > 0 {
      var step := turn(raw);
      assert TurnFits(step, maxLen);
      match step
      case Last(f) =>
        assert Loop(raw, turn, fuel).fragments == [f];
      case Stuck =>
      case Cut(head, tail) =>
        LoopFragmentsFit(tail, turn, maxLen, fuel - 1);
        AllFitCons(head, Loop(tail, turn, fuel - 1).fragments, maxLen);
    }
  }

  /**
    Every fragment `split_msg` yields is at most `max_len` long, unless it is
    a head made of nothing but closing tags, provided the parser's names are
    well formed.
  */
  lemma FragmentsBounded(source: string, maxLen: int, parse: string -> Soup, fuel: nat)
    requires forall r :: WellNamed(parse(r))
    ensures AllFit(Messages(source, maxLen, parse, fuel).fragments, maxLen)
  {
    if maxLen > 0 {
      var turn := Turn(maxLen, parse);
      forall r
        ensures TurnFits(turn(r), maxLen)
      {
        StepFits(r, maxLen, parse(r));
      }
      LoopFragmentsFit(source, turn, maxLen, fuel);
    }
  }

  /**
    Text the serialiser writes back unchanged and the parser finds no tag in:
    no `<`, and none of the characters `&` and `>` that it escapes.
  */
  predicate PlainText(s: string) {
    '<' !in s && '>' !in s && '&' !in s
  }

  /** What the parser makes of plain text: a root holding the text itself and no tags. */
  function PlainParse(s: string): (soup: Soup) {
    Soup(Tag(DOCUMENT_NAME, [], None, None, s), [])
  }

  /** `s` cut into consecutive pieces of `n` characters, the last possibly shorter. */
  function Chunks(s: string, n: int): (chunks: seq<string>)
    requires n > 0
    decreases |s|
  {
    if s == "" then []
    else if |s| <= n then [s]
    else [s[..n]] + Chunks(s[n..], n)
  }

  /** The fragments joined back together. */
  function Concat(fs: seq<string>): (joined: string) {
    if fs == [] then "" else fs[0] + Concat(fs[1..])
  }

  /**
    The chunks of `s` put back together give `s`; each is non-empty and at
    most `n` long, and there are ceil(|s| / n) of them: the least count whose
    multiple of `n` reaches `|s|`.
  */
  lemma {:induction false} ChunksReassemble(s: string, n: int)
    requires n > 0
    ensures Concat(Chunks(s, n)) == s
    ensures forall k :: 0 <= k < |Chunks(s, n)| ==> 0 < |Chunks(s, n)[k]| <= n
    ensures |s| <= |Chunks(s, n)| * n < |s| + n
    decreases |s|
  {
    if s != "" && |s| > n {
      var rest := Chunks(s[n..], n);
      ChunksReassemble(s[n..], n);
      assert Chunks(s, n) == [s[..n]] + rest;
      assert s == s[..n] + s[n..];
      assert (|rest| + 1) * n == |rest| * n + n;
      ChunksStep(s[..n], rest, n);
    }
  }

  lemma ChunksStep(first: string, rest: seq<string>, n: int)
    requires 0 < |first| <= n
    requires forall k :: 0 <= k < |rest| ==> 0 < |rest[k]| <= n
    ensures forall k :: 0 <= k < |[first] + rest| ==> 0 < |([first] + rest)[k]| <= n
  {
    var cs := [first] + rest;
    forall k | 0 <= k < |cs|
      ensures 0 < |cs[k]| <= n
    {
      if k > 0 {
        assert cs[k] == rest[k - 1];
      }
    }
  }

  /**
    One turn on plain text: the whole text if it is shorter than
    `max_len`, else its first `max_len` characters and the rest.
  */
  function PlainTurn(r: string, maxLen: int): (step: StepResult)
    requires maxLen > 0
  {
    if |r| < maxLen then Last(r) else Cut(r[..maxLen], r[maxLen..])
  }

  /** Text without `<` is never trimmed. */
  lemma NoAngleNoTrim(s: string)
    requires '<' !in s
    ensures TrimBrokenTag(s) == s
  {
    forall j | 0 <= j < |s|
      ensures !IsBrokenTagAt(s, j)
    {
      assert s[j] in s;
    }
    TrimBrokenTagClean(s);
  }

  /** The root of plain text spans all of it, and there is nothing else. */
  lemma PlainElements(s: string)
    ensures AllElements(PlainParse(s)) == [Element(PlainParse(s).root, Position(0, |s|))]
  {
    ElementPositions(PlainParse(s), 0);
  }

  /** Cutting the root of plain text at `max_len` cuts the text there. */
  lemma PlainSplit(s: string, maxLen: int)
    requires PlainText(s) && maxLen > 0
    ensures var root := Element(PlainParse(s).root, Position(0, |s|));
      SplitResult(root, Position(0, maxLen))
        == if |s| <= maxLen then (s, "") else (s[..maxLen], s[maxLen..])
  {
    var root := Element(PlainParse(s).root, Position(0, |s|));
    assert root.Parents() == [];
    assert ClosingTags(root) == "" && OpeningTags(root) == "";
    var window := Slice(s, 0, maxLen);
    SliceTo(s, maxLen);
    assert forall c :: c in window ==> c in s;
    NoAngleNoTrim(window);
    assert Reserved(window, "") == window;
    SliceFrom(s, |window|);
    var (head, tail) := SplitResult(root, Position(0, maxLen));
    assert head == window;
    assert tail == s[|window|..];
    if |s| <= maxLen {
      assert window == s;
    }
  }

  /** One turn on plain text: yield it if shorter than `max_len`, otherwise cut it at `max_len`. */
  lemma PlainStep(s: string, maxLen: int)
    requires s != "" && PlainText(s) && maxLen > 0
    ensures Step(s, maxLen, PlainParse(s)) == PlainTurn(s, maxLen)
  {
    var elements := AllElements(PlainParse(s));
    PlainElements(s);
    PlainSplit(s, maxLen);
    if |s| > maxLen {
      assert Qualifies(elements[0], maxLen);
      assert Closest(elements, maxLen) == Some(0);
    } else {
      NothingQualifies(elements, maxLen);
    }
  }

  lemma PlainTextSuffix(s: string, k: int)
    requires PlainText(s) && 0 <= k <= |s|
    ensures PlainText(s[k..])
  {
    assert forall c :: c in s[k..] ==> c in s;
  }

  /**
    Plain text, given enough turns, comes out as consecutive pieces
    of `max_len` characters and nothing is raised; with `ChunksReassemble`
    the fragments join back into the text, each at most `max_len` long.
  */
  lemma PlainTextChunks(s: string, maxLen: int, fuel: nat)
    requires PlainText(s) && maxLen > 0 && fuel >= |s|
    ensures Messages(s, maxLen, PlainParse, fuel) == Run(Chunks(s, maxLen), Done)
  {
    var turn := Turn(maxLen, PlainParse);
    forall r: string | r != "" && PlainText(r)
      ensures turn(r) == PlainTurn(r, maxLen)
    {
      PlainStep(r, maxLen);
    }
    PlainLoop(s, maxLen, turn, fuel);
  }

  /** 1024 characters of plain text, cut at 128, come out as eight fragments. */
  lemma JustTextYieldsEight(s: string, fuel: nat)
    requires |s| == 1024 && PlainText(s) && fuel >= |s|
    ensures Messages(s, 128, PlainParse, fuel).outcome == Done
    ensures |Messages(s, 128, PlainParse, fuel).fragments| == 8
  {
    PlainTextChunks(s, 128, fuel);
    ChunksReassemble(s, 128);
  }

  lemma {:induction false} PlainLoop(s: string, maxLen: int, turn: string -> StepResult, fuel: nat)
    requires PlainText(s) && maxLen > 0 && fuel >= |s|
    requires forall r: string | r != "" && PlainText(r) :: turn(r) == PlainTurn(r, maxLen)
    ensures Loop(s, turn, fuel) == Run(Chunks(s, maxLen), Done)
    decreases |s|
  {
    if s == "" {
    } else if |s| < maxLen {
      assert turn(s) == Last(s);
    } else {
      var tail := s[maxLen..];
      assert turn(s) == Cut(s[..maxLen], tail);
      PlainTextSuffix(s, maxLen);
      PlainLoop(tail, maxLen, turn, fuel - 1);
      LoopCut(s, turn, fuel, s[..maxLen], tail);
      if |s| == maxLen {
        assert s[..maxLen] == s && tail == "";
      } else {
        assert Chunks(s, maxLen) == [s[..maxLen]] + Chunks(tail, maxLen);
      }
    }
  }
}
