/**
 * The text processing behind the recipe detail dialog: the difficulty badge, the ingredient
 * list built from the twenty numbered slots, the YouTube video id, and the numbered
 * instruction steps.
 */
module RecipeModal {
  import opened Options
  import opened Text
  import opened MealDb

  // ---------------------------------------------------------------------------
  // Pieces that survive `.filter(step => step.trim().length > 0)`.

  /** The pieces whose trimmed form is non-empty, in order (`Trim` is empty exactly for
      blank strings). */
  function NonBlank(pieces: seq<string>): (r: seq<string>)
    ensures |r| <= |pieces|
    decreases |pieces|
  {
    if pieces == [] then []
    else (if Blank(pieces[0]) then [] else [pieces[0]]) + NonBlank(pieces[1..])
  }

  /** The filter keeps exactly the non-blank pieces. */
  lemma {:induction false} NonBlankMembers(pieces: seq<string>)
    ensures forall p | p in NonBlank(pieces) :: p in pieces && !Blank(p)
    ensures forall p | p in pieces && !Blank(p) :: p in NonBlank(pieces)
    decreases |pieces|
  {
    if pieces != [] {
      NonBlankMembers(pieces[1..]);
      assert forall p | p in pieces[1..] :: p in pieces;
      assert forall p | p in pieces :: p == pieces[0] || p in pieces[1..];
    }
  }

  /** The filter works piece by piece: filtering a concatenation is concatenating the
      filtered halves, so order and every repeated copy are kept. */
  lemma {:induction false} NonBlankAppend(a: seq<string>, b: seq<string>)
    ensures NonBlank(a + b) == NonBlank(a) + NonBlank(b)
    decreases |a|
  {
    if a == [] {
      assert a + b == b;
    } else {
      var c := a + b;
      assert c != [] && c[0] == a[0] && c[1..] == a[1..] + b;
      var h := if Blank(a[0]) then [] else [a[0]];
      assert NonBlank(c) == h + NonBlank(a[1..] + b);
      assert NonBlank(a) == h + NonBlank(a[1..]);
      NonBlankAppend(a[1..], b);
      ConcatAssoc(h, NonBlank(a[1..]), NonBlank(b));
    }
  }

  /** A single piece survives exactly when it is not blank. */
  lemma NonBlankSingle(p: string)
    ensures NonBlank([p]) == (if Blank(p) then [] else [p])
  {
  }

  lemma NonBlankCons(p: string, rest: seq<string>)
    ensures |NonBlank([p] + rest)| == (if Blank(p) then 0 else 1) + |NonBlank(rest)|
  {
    assert ([p] + rest)[1..] == rest;
  }

  // ---------------------------------------------------------------------------
  // Difficulty.

  const EasyBadge := Badge("Easy", "bg-green-500")
  const MediumBadge := Badge("Medium", "bg-yellow-500")
  const HardBadge := Badge("Hard", "bg-red-500")

  datatype Badge = Badge(level: string, color: string)

  /** How many steps the badge counts: the non-blank pieces of a split on `\r\n` alone. */
  function StepCount(instructions: string): nat {
    |NonBlank(Split(instructions, "\r\n"))|
  }

  /** The badge for a step count. */
  function BadgeFor(steps: nat): (b: Badge)
    ensures b == EasyBadge <==> steps <= 5
    ensures b == MediumBadge <==> 5 < steps <= 8
    ensures b == HardBadge <==> 8 < steps
  {
    if steps <= 5 then EasyBadge else if steps <= 8 then MediumBadge else HardBadge
  }

  /** `getDifficulty(instructions)`. */
  function GetDifficulty(instructions: string): (b: Badge)
    ensures b in {EasyBadge, MediumBadge, HardBadge}
    ensures b == EasyBadge <==> StepCount(instructions) <= 5
    ensures b == HardBadge <==> StepCount(instructions) > 8
  {
    BadgeFor(StepCount(instructions))
  }

  /** The badges in order of difficulty. */
  function Rank(b: Badge): nat {
    if b == EasyBadge then 0 else if b == MediumBadge then 1 else 2
  }

  /** More counted steps never give an easier badge. */
  lemma DifficultyMonotone(a: string, b: string)
    requires StepCount(a) <= StepCount(b)
    ensures Rank(GetDifficulty(a)) <= Rank(GetDifficulty(b))
  {
  }

  /** Instructions without a `\r\n` count as at most one step, so they are always Easy, even
      when they hold many `\n`-separated lines. */
  lemma NoCrlfIsEasy(instructions: string)
    requires !Contains(instructions, "\r\n")
    ensures StepCount(instructions) <= 1
    ensures GetDifficulty(instructions) == EasyBadge
  {
    SplitSingle(instructions, "\r\n");
  }

  // ---------------------------------------------------------------------------
  // Ingredients.

  const SlotCount: nat := 20

  /** An entry of the ingredient list, with the values exactly as stored (not trimmed). */
  datatype Ingredient = Ingredient(ingredient: string, measure: string)

  /** Slot `i` (zero-based) of a meal; a slot the record lacks reads as absent. */
  function SlotAt(m: Meal, i: nat): Slot {
    if i < |m.slots| then m.slots[i] else Slot(None, None)
  }

  /** `v && v.trim()`: present and not just white space (`Trim` is empty exactly for blank
      strings). */
  predicate Filled(v: Option<string>) {
    v.Some? && !Blank(v.value)
  }

  predicate Kept(m: Meal, i: nat) {
    Filled(SlotAt(m, i).ingredient) && Filled(SlotAt(m, i).measure)
  }

  /** The entry a kept slot contributes. */
  function Entry(m: Meal, i: nat): Ingredient
    requires Kept(m, i)
  {
    Ingredient(SlotAt(m, i).ingredient.value, SlotAt(m, i).measure.value)
  }

  /** The `ingredients` list: slots 1 to 20 in order, each kept exactly when both its
      ingredient and its measure are filled. `positions` are the zero-based slot numbers the
      entries came from. */
  method Ingredients(m: Meal) returns (items: seq<Ingredient>, positions: seq<nat>)
    ensures |items| == |positions| <= SlotCount
    ensures forall k, l | 0 <= k < l < |positions| :: positions[k] < positions[l]
    ensures forall k | 0 <= k < |positions| :: positions[k] < SlotCount && Kept(m, positions[k])
    ensures forall i | 0 <= i < SlotCount :: Kept(m, i) <==> i in positions
    ensures forall k | 0 <= k < |items| :: items[k] == Entry(m, positions[k])
  {
    items, positions := [], [];
    var i := 0;
    while i < SlotCount
      invariant 0 <= i <= SlotCount
      invariant |items| == |positions| <= i
      invariant forall k, l | 0 <= k < l < |positions| :: positions[k] < positions[l]
      invariant forall k | 0 <= k < |positions| :: positions[k] < i && Kept(m, positions[k])
      invariant forall j | 0 <= j < i :: Kept(m, j) <==> j in positions
      invariant forall k | 0 <= k < |items| :: items[k] == Entry(m, positions[k])
    {
      var slot := SlotAt(m, i);
      if Filled(slot.ingredient) && Filled(slot.measure) {
        items := items + [Ingredient(slot.ingredient.value, slot.measure.value)];
        positions := positions + [i];
      }
      i := i + 1;
    }
  }

  // ---------------------------------------------------------------------------
  // YouTube.

  const EmbedBase := "https://www.youtube.com/embed/"

  /** `strYoutube?.split('v=')[1]`: `None` when the link is absent or has no `v=`. */
  function YoutubeId(strYoutube: Option<string>): (r: Option<string>)
    ensures r.Some? <==> strYoutube.Some? && Contains(strYoutube.value, "v=")
    ensures r.Some? ==> !Contains(r.value, "v=")
  {
    match strYoutube
    case None => None
    case Some(url) =>
      var pieces := Split(url, "v=");
      SplitSingle(url, "v=");
      SplitPiecesFree(url, "v=");
      if |pieces| >= 2 then (assert pieces[1] in pieces; Some(pieces[1])) else None
  }

  /** The id is the text right after the first `v=`, up to the next `v=` or the end. */
  lemma YoutubeIdAfterFirst(a: string, b: string)
    requires forall k: nat | k < |a| :: !OccursAt(a + "v=", "v=", k)
    ensures var id := Split(b, "v=")[0];
      && YoutubeId(Some(a + "v=" + b)) == Some(id)
      && StartsWith(b, id) && !Contains(id, "v=")
      && (id == b || StartsWith(b, id + "v="))
      && (!Contains(b, "v=") ==> id == b)
  {
    var url := a + "v=" + b;
    forall k: nat | k < |a|
      ensures !OccursAt(url, "v=", k)
    {
      assert url[..|a| + 2] == a + "v=";
      OccursFromPrefix(url, a + "v=", "v=", k);
    }
    SplitAt(a, "v=", b);
    SplitFirst(b, "v=");
  }

  /** The video frame's address, when the frame is shown at all: only for a non-empty id. */
  function EmbedUrl(strYoutube: Option<string>): (r: Option<string>)
    ensures r.Some? <==> YoutubeId(strYoutube).Some? && YoutubeId(strYoutube).value != ""
    ensures r.Some? ==> StartsWith(r.value, EmbedBase) && r.value[|EmbedBase|..] == YoutubeId(strYoutube).value
  {
    match YoutubeId(strYoutube)
    case Some(id) => if id != "" then Some(EmbedBase + id) else None
    case None => None
  }

  // ---------------------------------------------------------------------------
  // Instruction steps.

  /** A displayed step: its 1-based number and its trimmed text. */
  datatype Step = Step(number: nat, text: string)

  /** `step.trim()` for a line that is free of breaks and not blank. */
  function StepText(line: string): (t: string)
    requires NoBreaks(line) && !Blank(line)
    ensures t != [] && NoBreaks(t)
    ensures !IsSpace(t[0]) && !IsSpace(t[|t| - 1])
    ensures exists i, j | 0 <= i <= j <= |line| ::
      t == line[i..j] && Blank(line[..i]) && Blank(line[j..])
  {
    TrimNoBreaks(line);
    Trim(line)
  }

  /** The numbered list on the instructions tab. */
  function DisplayedSteps(instructions: string): (r: seq<Step>)
    ensures |r| == |NonBlank(SplitLines(instructions))|
    ensures forall k | 0 <= k < |r| :: r[k].number == k + 1
    ensures forall k | 0 <= k < |r| ::
      && r[k].text != []
      && NoBreaks(r[k].text)
      && !IsSpace(r[k].text[0]) && !IsSpace(r[k].text[|r[k].text| - 1])
    ensures forall k | 0 <= k < |r| :: r[k].text == Trim(NonBlank(SplitLines(instructions))[k])
  {
    var lines := NonBlank(SplitLines(instructions));
    ShownLines(instructions);
    Numbered(lines)
  }

  /** The lines that survive the filter are non-blank and free of breaks. */
  lemma ShownLines(instructions: string)
    ensures forall p | p in NonBlank(SplitLines(instructions)) :: NoBreaks(p) && !Blank(p)
  {
    SplitLinesNoBreaks(instructions);
    NonBlankMembers(SplitLines(instructions));
  }

  /** `.map((step, index) => ...)`: step `k` is numbered `k + 1` and shows `lines[k]`
      trimmed. */
  function Numbered(lines: seq<string>): (r: seq<Step>)
    requires forall p | p in lines :: NoBreaks(p) && !Blank(p)
    ensures |r| == |lines|
    ensures forall k | 0 <= k < |r| :: r[k] == Step(k + 1, StepText(lines[k]))
  {
    seq(|lines|, k requires 0 <= k < |lines| => Step(k + 1, StepText(lines[k])))
  }

  /** The badge never counts more steps than the list shows: the `\r\n` split only cuts where
      the line split cuts too. */
  lemma StepCountBound(instructions: string)
    ensures StepCount(instructions) <= |DisplayedSteps(instructions)|
  {
    var a := Split(instructions, "\r\n");
    var b := SplitLines(instructions);
    CountBound(instructions);
    NonBlankCons(a[0], a[1..]);
    NonBlankCons(b[0], b[1..]);
    assert [a[0]] + a[1..] == a && [b[0]] + b[1..] == b;
  }

  /** The invariant behind `StepCountBound`. Past its first piece, the `\r\n` split keeps no
      more non-blank pieces than the line split does past its own first piece, and one fewer
      when its first piece is non-blank but the line split's is blank (that non-blank text
      then sits in a later line). */
  predicate CountBoundHolds(s: string) {
    var a := Split(s, "\r\n");
    var b := SplitLines(s);
    |NonBlank(a[1..])| + (if !Blank(a[0]) && Blank(b[0]) then 1 else 0) <= |NonBlank(b[1..])|
  }

  lemma {:induction false} CountBound(s: string)
    ensures CountBoundHolds(s)
    decreases |s|
  {
    if s == [] {
    } else if StartsWith(s, "\r\n") {
      CountBound(s[2..]);
      CountBoundCrlf(s);
    } else if IsBreak(s[0]) {
      CountBound(s[1..]);
      CountBoundBreak(s);
    } else {
      CountBound(s[1..]);
      CountBoundChar(s);
    }
  }

  /** A leading `\r\n` starts a new piece in both splits. */
  lemma CountBoundCrlf(s: string)
    requires StartsWith(s, "\r\n") && CountBoundHolds(s[2..])
    ensures CountBoundHolds(s)
  {
    var a' := Split(s[2..], "\r\n");
    var b' := SplitLines(s[2..]);
    assert Split(s, "\r\n") == [""] + a' && SplitLines(s) == [""] + b';
    assert ([""] + a')[1..] == a' && ([""] + b')[1..] == b';
    NonBlankCons(a'[0], a'[1..]);
    NonBlankCons(b'[0], b'[1..]);
    assert [a'[0]] + a'[1..] == a' && [b'[0]] + b'[1..] == b';
  }

  /** A lone `\n` or `\r` starts a new line but stays inside the `\r\n` piece. */
  lemma CountBoundBreak(s: string)
    requires s != [] && !StartsWith(s, "\r\n") && IsBreak(s[0]) && CountBoundHolds(s[1..])
    ensures CountBoundHolds(s)
  {
    var a' := Split(s[1..], "\r\n");
    var b' := SplitLines(s[1..]);
    assert Split(s, "\r\n") == [[s[0]] + a'[0]] + a'[1..];
    assert SplitLines(s) == [""] + b';
    BlankCons(s[0], a'[0]);
    assert ([""] + b')[1..] == b';
    NonBlankCons(b'[0], b'[1..]);
    assert [b'[0]] + b'[1..] == b';
  }

  /** Any other character extends the first piece of both splits. */
  lemma CountBoundChar(s: string)
    requires s != [] && !IsBreak(s[0]) && CountBoundHolds(s[1..])
    ensures CountBoundHolds(s)
  {
    var a' := Split(s[1..], "\r\n");
    var b' := SplitLines(s[1..]);
    assert Split(s, "\r\n") == [[s[0]] + a'[0]] + a'[1..];
    assert SplitLines(s) == [[s[0]] + b'[0]] + b'[1..];
    BlankCons(s[0], a'[0]);
    BlankCons(s[0], b'[0]);
  }

  lemma BlankCons(c: char, s: string)
    ensures Blank([c] + s) <==> IsSpace(c) && Blank(s)
  {
    var t := [c] + s;
    BlankSplit(t, 1);
    assert t[..1] == [c] && t[1..] == s;
    assert Blank([c]) <==> IsSpace([c][0]);
  }
}
