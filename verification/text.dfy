/**
 * The JavaScript string primitives the application relies on: `trim`, `startsWith`,
 * `split` with a literal separator, and `split(/\r\n|\n|\r/)`.
 *
 * Both splits are written as the left-to-right scan the JavaScript engine performs: at each
 * position either a separator matches (and a new piece starts after it) or the character
 * joins the current piece.
 */
module Text {

  /** The code points ECMAScript's `String.prototype.trim` strips: the WhiteSpace production
      (TAB, VT, FF, ZWNBSP and every Space_Separator code point) and the LineTerminator
      production (LF, CR, LS, PS). */
  predicate IsSpace(c: char) {
    || c == '\t' || c == '\U{000B}' || c == '\U{000C}' || c == '\U{FEFF}'
    || c == ' ' || c == '\U{00A0}' || c == '\U{1680}' || ('\U{2000}' <= c <= '\U{200A}')
    || c == '\U{202F}' || c == '\U{205F}' || c == '\U{3000}'
    || c == '\n' || c == '\r' || c == '\U{2028}' || c == '\U{2029}'
  }

  /** Every character of `s` is white space (the empty string included). */
  predicate Blank(s: string) {
    forall i | 0 <= i < |s| :: IsSpace(s[i])
  }

  function TrimStart(s: string): (r: string)
    ensures |r| <= |s| && r == s[|s| - |r|..]
    ensures Blank(s[..|s| - |r|])
    ensures r == [] || !IsSpace(r[0])
    decreases |s|
  {
    if s != [] && IsSpace(s[0]) then TrimStart(s[1..]) else s
  }

  function TrimEnd(s: string): (r: string)
    ensures |r| <= |s| && r == s[..|r|]
    ensures Blank(s[|r|..])
    ensures r == [] || !IsSpace(r[|r| - 1])
    decreases |s|
  {
    if s != [] && IsSpace(s[|s| - 1]) then
      var r := TrimEnd(s[..|s| - 1]);
      assert s[|r|..] == s[..|s| - 1][|r|..] + [s[|s| - 1]];
      r
    else s
  }

  /** A string is blank exactly when both halves of any cut of it are blank. */
  lemma BlankSplit(s: string, n: nat)
    requires n <= |s|
    ensures Blank(s) <==> Blank(s[..n]) && Blank(s[n..])
  {
    if Blank(s[..n]) && Blank(s[n..]) {
      forall i | 0 <= i < |s|
        ensures IsSpace(s[i])
      {
        if i < n {
          assert s[i] == s[..n][i];
        } else {
          assert s[i] == s[n..][i - n];
        }
      }
    }
    if Blank(s) {
      assert forall i | 0 <= i < n :: s[..n][i] == s[i];
      assert forall i | 0 <= i < |s| - n :: s[n..][i] == s[i + n];
    }
  }

  /** `s.trim()`: what is left after dropping white space at both ends. */
  function Trim(s: string): (r: string)
    ensures r == [] <==> Blank(s)
    ensures r == [] || (!IsSpace(r[0]) && !IsSpace(r[|r| - 1]))
    ensures exists i, j | 0 <= i <= j <= |s| ::
      && r == s[i..j] && Blank(s[..i]) && Blank(s[j..])
      && (i == j || (!IsSpace(s[i]) && !IsSpace(s[j - 1])))
  {
    var t := TrimStart(s);
    BlankSplit(s, |s| - |t|);
    var r := TrimEnd(t);
    TrimCut(s, t, r);
    r
  }

  /** Dropping the blank head and then the blank tail cuts `s` at two points. */
  lemma TrimCut(s: string, t: string, r: string)
    requires |t| <= |s| && t == s[|s| - |t|..] && Blank(s[..|s| - |t|]) && (t == [] || !IsSpace(t[0]))
    requires |r| <= |t| && r == t[..|r|] && Blank(t[|r|..]) && (r == [] || !IsSpace(r[|r| - 1]))
    ensures exists i, j | 0 <= i <= j <= |s| ::
      && r == s[i..j] && Blank(s[..i]) && Blank(s[j..])
      && (i == j || (!IsSpace(s[i]) && !IsSpace(s[j - 1])))
  {
    var i := |s| - |t|;
    var j := i + |r|;
    assert r == s[i..j];
    assert t[|r|..] == s[j..];
    assert r != [] ==> r[0] == t[0] == s[i] && r[|r| - 1] == s[j - 1];
  }

  /** The partner of `Trim`: any cut of `s` into a blank head, a middle that neither starts
      nor ends with white space, and a blank tail has that middle as its trimmed form. */
  lemma TrimCharacterised(s: string, i: nat, j: nat)
    requires i <= j <= |s|
    requires Blank(s[..i]) && Blank(s[j..])
    requires i == j || (!IsSpace(s[i]) && !IsSpace(s[j - 1]))
    ensures Trim(s) == s[i..j]
  {
    if i == j {
      BlankSplit(s, i);
      assert s[i..] == s[j..];
    } else {
      var r := Trim(s);
      var a, b :| 0 <= a <= b <= |s| && r == s[a..b] && Blank(s[..a]) && Blank(s[b..])
        && (a == b || (!IsSpace(s[a]) && !IsSpace(s[b - 1])));
      assert a < b;
      assert a == i by {
        if a < i {
          BlankAt(s, i, a);
        } else if i < a {
          BlankAt(s, a, i);
        }
      }
      assert b == j;
    }
  }

  /** Every character before a blank prefix's end is white space. */
  lemma BlankAt(s: string, n: nat, k: nat)
    requires k < n <= |s| && Blank(s[..n])
    ensures IsSpace(s[k])
  {
    assert s[..n][k] == s[k];
  }

  /** Trimming a string free of line terminators leaves it free of them. */
  lemma TrimNoBreaks(s: string)
    requires NoBreaks(s)
    ensures NoBreaks(Trim(s))
  {
    var t := TrimStart(s);
    NoBreaksSlice(s, |s| - |t|, |s|);
    var u := TrimEnd(t);
    NoBreaksSlice(t, 0, |u|);
  }

  lemma NoBreaksSlice(s: string, i: nat, j: nat)
    requires i <= j <= |s| && NoBreaks(s)
    ensures NoBreaks(s[i..j])
  {
    forall k | 0 <= k < j - i
      ensures !IsBreak(s[i..j][k])
    {
      assert s[i..j][k] == s[i + k];
    }
  }

  /** `s.startsWith(p)`. */
  predicate StartsWith(s: string, p: string) {
    |p| <= |s| && s[..|p|] == p
  }

  /** `sep` occurs in `s` starting at index `k`. */
  predicate OccursAt(s: string, sep: string, k: nat) {
    k + |sep| <= |s| && s[k..k + |sep|] == sep
  }

  /** `s.includes(sep)`. */
  predicate Contains(s: string, sep: string) {
    exists k: nat | k <= |s| :: OccursAt(s, sep, k)
  }

  /** `s` has no occurrence of the character `c`. */
  predicate Lacks(s: string, c: char) {
    forall i | 0 <= i < |s| :: s[i] != c
  }

  /** A string lacking the first character of `sep` cannot contain `sep`. */
  /** A character missing from both halves is missing from their concatenation. */
  lemma LacksConcat(a: string, b: string, c: char)
    requires Lacks(a, c) && Lacks(b, c)
    ensures Lacks(a + b, c)
  {
    forall i | 0 <= i < |a + b|
      ensures (a + b)[i] != c
    {
      if i >= |a| {
        assert (a + b)[i] == b[i - |a|];
      }
    }
  }

  lemma LacksNoContains(s: string, sep: string)
    requires |sep| > 0 && Lacks(s, sep[0])
    ensures !Contains(s, sep)
  {
  }

  /** A string lacking a character is split by any separator starting with it into itself. */
  lemma SplitLacking(s: string, sep: string)
    requires |sep| > 0 && Lacks(s, sep[0])
    ensures Split(s, sep) == [s]
  {
    LacksNoContains(s, sep);
    SplitSingle(s, sep);
  }

  /** In `a + sep + b`, `sep` cannot start inside `a` when `a` lacks its first character. */
  lemma LacksNoEarlyOccurrence(a: string, sep: string, b: string)
    requires |sep| > 0 && Lacks(a, sep[0])
    ensures forall k: nat | k < |a| :: !OccursAt(a + sep + b, sep, k)
  {
    forall k: nat | k < |a|
      ensures !OccursAt(a + sep + b, sep, k)
    {
      assert (a + sep + b)[k] == a[k];
    }
  }

  /** `s.split(sep)` for a non-empty literal separator: the pieces between the leftmost
      non-overlapping occurrences of `sep`. */
  function Split(s: string, sep: string): (r: seq<string>)
    requires |sep| > 0
    ensures |r| >= 1
    decreases |s|
  {
    if s == [] then [""]
    else if StartsWith(s, sep) then [""] + Split(s[|sep|..], sep)
    else
      var rest := Split(s[1..], sep);
      [[s[0]] + rest[0]] + rest[1..]
  }

  /** `pieces.join(sep)`. */
  function Join(pieces: seq<string>, sep: string): string
    requires |pieces| >= 1
  {
    if |pieces| == 1 then pieces[0] else pieces[0] + sep + Join(pieces[1..], sep)
  }

  /** Joining after growing the first piece grows the joined text by the same prefix. */
  lemma JoinGrowFirst(c: char, pieces: seq<string>, sep: string)
    requires |pieces| >= 1
    ensures Join([[c] + pieces[0]] + pieces[1..], sep) == [c] + Join(pieces, sep)
  {
    var grown := [[c] + pieces[0]] + pieces[1..];
    assert grown[1..] == pieces[1..];
  }

  /** Splitting loses nothing: joining the pieces with the separator gives the input back. */
  lemma {:induction false} SplitJoin(s: string, sep: string)
    requires |sep| > 0
    ensures Join(Split(s, sep), sep) == s
    decreases |s|
  {
    if s == [] {
    } else if StartsWith(s, sep) {
      SplitJoin(s[|sep|..], sep);
      var r := Split(s[|sep|..], sep);
      assert ([""] + r)[1..] == r;
      calc {
        Join([""] + r, sep);
        "" + sep + Join(r, sep);
        s[..|sep|] + s[|sep|..];
        s;
      }
    } else {
      SplitJoin(s[1..], sep);
      JoinGrowFirst(s[0], Split(s[1..], sep), sep);
      assert s == [s[0]] + s[1..];
    }
  }

  /** The first piece of a split is a prefix of the input. */
  lemma {:induction false} SplitFirstIsPrefix(s: string, sep: string)
    requires |sep| > 0
    ensures StartsWith(s, Split(s, sep)[0])
    decreases |s|
  {
    if s != [] && !StartsWith(s, sep) {
      SplitFirstIsPrefix(s[1..], sep);
      var f := Split(s[1..], sep)[0];
      assert Split(s, sep)[0] == [s[0]] + f;
      assert s[..1 + |f|] == [s[0]] + s[1..][..|f|];
    }
  }

  /** An occurrence in `s[1..]` is an occurrence in `s` one position later, and back. */
  lemma OccursShift(s: string, sep: string, k: nat)
    requires |s| >= 1
    ensures OccursAt(s[1..], sep, k) <==> OccursAt(s, sep, k + 1)
  {
    if k + |sep| <= |s[1..]| {
      assert s[1..][k..k + |sep|] == s[k + 1..k + 1 + |sep|];
    }
  }

  /** An occurrence inside a prefix is an occurrence in the whole string. */
  lemma OccursInPrefix(s: string, p: string, sep: string, k: nat)
    requires StartsWith(s, p) && OccursAt(p, sep, k)
    ensures OccursAt(s, sep, k)
  {
    assert p[k..k + |sep|] == s[k..k + |sep|];
  }

  /** No piece of a split contains the separator. */
  lemma {:induction false} SplitPiecesFree(s: string, sep: string)
    requires |sep| > 0
    ensures forall p | p in Split(s, sep) :: !Contains(p, sep)
    decreases |s|
  {
    if s == [] {
      assert !OccursAt("", sep, 0);
    } else if StartsWith(s, sep) {
      SplitPiecesFree(s[|sep|..], sep);
      assert !OccursAt("", sep, 0);
    } else {
      SplitPiecesFree(s[1..], sep);
      var rest := Split(s[1..], sep);
      var first := [s[0]] + rest[0];
      SplitFirstIsPrefix(s[1..], sep);
      assert StartsWith(s, first);
      assert !OccursAt(s, sep, 0);
      assert rest[0] in rest && !Contains(rest[0], sep);
      forall k: nat | k <= |first| && OccursAt(first, sep, k)
        ensures false
      {
        if k == 0 {
          OccursInPrefix(s, first, sep, 0);
        } else {
          assert first[1..] == rest[0];
          OccursShift(first, sep, k - 1);
        }
      }
      assert forall p | p in rest[1..] :: p in rest;
    }
  }

  /** There is more than one piece exactly when the separator occurs. */
  lemma {:induction false} SplitSingle(s: string, sep: string)
    requires |sep| > 0
    ensures |Split(s, sep)| == 1 <==> !Contains(s, sep)
    ensures |Split(s, sep)| == 1 ==> Split(s, sep) == [s]
    decreases |s|
  {
    if s == [] {
      assert !OccursAt(s, sep, 0);
    } else if StartsWith(s, sep) {
      assert OccursAt(s, sep, 0);
    } else {
      SplitSingle(s[1..], sep);
      if Contains(s, sep) {
        var k: nat :| k <= |s| && OccursAt(s, sep, k);
        assert k != 0;
        OccursShift(s, sep, k - 1);
      }
      if Contains(s[1..], sep) {
        var k: nat :| k <= |s[1..]| && OccursAt(s[1..], sep, k);
        OccursShift(s, sep, k);
      }
      if |Split(s, sep)| == 1 {
        assert s == [s[0]] + s[1..];
      }
    }
  }

  /** When `sep` first occurs right after `a`, the split's first piece is `a` and the rest is
      the split of what follows the separator. */
  lemma {:induction false} SplitAt(a: string, sep: string, b: string)
    requires |sep| > 0
    requires forall k: nat | k < |a| :: !OccursAt(a + sep + b, sep, k)
    ensures Split(a + sep + b, sep) == [a] + Split(b, sep)
    decreases |a|
  {
    var s := a + sep + b;
    if a == [] {
      assert s == sep + b && s[..|sep|] == sep && s[|sep|..] == b;
    } else {
      assert !OccursAt(s, sep, 0);
      assert s[1..] == a[1..] + sep + b;
      forall k: nat | k < |a[1..]|
        ensures !OccursAt(a[1..] + sep + b, sep, k)
      {
        OccursShift(s, sep, k);
      }
      SplitAt(a[1..], sep, b);
      assert [a[0]] + a[1..] == a;
    }
  }

  /** `s.split(sep)[0]` runs up to the first `sep`, or is all of `s` when there is none. */
  lemma SplitFirst(s: string, sep: string)
    requires |sep| > 0
    ensures var f := Split(s, sep)[0];
      && StartsWith(s, f)
      && !Contains(f, sep)
      && (f == s || StartsWith(s, f + sep))
      && (f == s <==> !Contains(s, sep))
  {
    var pieces := Split(s, sep);
    SplitFirstIsPrefix(s, sep);
    SplitPiecesFree(s, sep);
    assert pieces[0] in pieces;
    SplitSingle(s, sep);
    SplitJoin(s, sep);
    if |pieces| > 1 {
      assert s == pieces[0] + sep + Join(pieces[1..], sep);
      assert s[..|pieces[0]| + |sep|] == pieces[0] + sep;
    }
  }

  /** Occurrences that end within a prefix are the prefix's own. */
  lemma OccursFromPrefix(s: string, p: string, sep: string, k: nat)
    requires StartsWith(s, p) && k + |sep| <= |p|
    ensures OccursAt(s, sep, k) <==> OccursAt(p, sep, k)
  {
    assert p == s[..|p|];
    assert forall i | 0 <= i < |p| :: s[i] == p[i];
    assert s[k..k + |sep|] == p[k..k + |sep|];
  }

  /** A line terminator recognised by `/\r\n|\n|\r/`. */
  predicate IsBreak(c: char) {
    c == '\r' || c == '\n'
  }

  /** A string free of line terminators. */
  predicate NoBreaks(s: string) {
    forall k | 0 <= k < |s| :: !IsBreak(s[k])
  }

  /** `s.split(/\r\n|\n|\r/)`: the alternation prefers `\r\n` over a lone `\r`. */
  function SplitLines(s: string): (r: seq<string>)
    ensures |r| >= 1
    decreases |s|
  {
    if s == [] then [""]
    else if StartsWith(s, "\r\n") then [""] + SplitLines(s[2..])
    else if IsBreak(s[0]) then [""] + SplitLines(s[1..])
    else
      var rest := SplitLines(s[1..]);
      [[s[0]] + rest[0]] + rest[1..]
  }

  /** No line of a line split holds a line terminator. */
  lemma {:induction false} SplitLinesNoBreaks(s: string)
    ensures forall p | p in SplitLines(s) :: NoBreaks(p)
    decreases |s|
  {
    if s == [] {
    } else if StartsWith(s, "\r\n") {
      SplitLinesNoBreaks(s[2..]);
    } else if IsBreak(s[0]) {
      SplitLinesNoBreaks(s[1..]);
    } else {
      SplitLinesNoBreaks(s[1..]);
      var rest := SplitLines(s[1..]);
      assert rest[0] in rest;
      assert forall p | p in rest[1..] :: p in rest;
    }
  }

  /** The characters of `s` that are not line terminators, in order. */
  function RemoveBreaks(s: string): string {
    if s == [] then [] else (if IsBreak(s[0]) then [] else [s[0]]) + RemoveBreaks(s[1..])
  }

  function Concat(pieces: seq<string>): string {
    if pieces == [] then [] else pieces[0] + Concat(pieces[1..])
  }

  /** Regrouping a concatenation, stated on its own so that the proofs using it do not
      reason about sequence equality in their larger context. */
  lemma ConcatAssoc<T>(a: seq<T>, b: seq<T>, c: seq<T>)
    ensures (a + b) + c == a + (b + c)
  {
  }

  lemma ConcatCons(x: string, rest: seq<string>)
    ensures Concat([x] + rest) == x + Concat(rest)
  {
    assert ([x] + rest)[1..] == rest;
  }

  /** A character that is not a line terminator survives `RemoveBreaks`; a terminator of
      length `n` at the front disappears. */
  lemma RemoveBreaksFront(s: string, n: nat)
    requires 1 <= n <= |s| && n <= 2
    requires forall k | 0 <= k < n :: IsBreak(s[k])
    ensures RemoveBreaks(s) == RemoveBreaks(s[n..])
  {
    if n == 2 {
      assert s[1..][0] == s[1] && s[1..][1..] == s[2..];
    }
  }

  /** The step of `SplitLinesConcat` for a leading `\r\n`. */
  lemma ConcatCrlf(s: string)
    requires StartsWith(s, "\r\n")
    requires Concat(SplitLines(s[2..])) == RemoveBreaks(s[2..])
    ensures Concat(SplitLines(s)) == RemoveBreaks(s)
  {
    ConcatCons("", SplitLines(s[2..]));
    RemoveBreaksFront(s, 2);
  }

  /** The step of `SplitLinesConcat` for a lone leading line terminator. */
  lemma ConcatBreak(s: string)
    requires s != [] && !StartsWith(s, "\r\n") && IsBreak(s[0])
    requires Concat(SplitLines(s[1..])) == RemoveBreaks(s[1..])
    ensures Concat(SplitLines(s)) == RemoveBreaks(s)
  {
    ConcatCons("", SplitLines(s[1..]));
    RemoveBreaksFront(s, 1);
  }

  /** The step of `SplitLinesConcat` for a leading character that joins the first line. */
  lemma ConcatChar(s: string)
    requires s != [] && !IsBreak(s[0])
    requires Concat(SplitLines(s[1..])) == RemoveBreaks(s[1..])
    ensures Concat(SplitLines(s)) == RemoveBreaks(s)
  {
    assert !StartsWith(s, "\r\n") by {
      if |s| >= 2 {
        assert s[..2][0] == s[0];
      }
    }
    var rest := SplitLines(s[1..]);
    assert SplitLines(s) == [[s[0]] + rest[0]] + rest[1..];
    assert RemoveBreaks(s) == [s[0]] + RemoveBreaks(s[1..]);
    ConcatCons([s[0]] + rest[0], rest[1..]);
    assert [rest[0]] + rest[1..] == rest;
    ConcatCons(rest[0], rest[1..]);
    var tail := Concat(rest[1..]);
    assert Concat(SplitLines(s)) == ([s[0]] + rest[0]) + tail;
    ConcatAssoc([s[0]], rest[0], tail);
    assert [s[0]] + (rest[0] + tail) == [s[0]] + Concat(rest);
    assert [s[0]] + Concat(rest) == RemoveBreaks(s);
  }

  /** The lines of a line split, run together, are the input with its line terminators
      taken out. */
  lemma {:induction false} SplitLinesConcat(s: string)
    ensures Concat(SplitLines(s)) == RemoveBreaks(s)
    decreases |s|
  {
    if s == [] {
      ConcatCons("", []);
    } else if StartsWith(s, "\r\n") {
      SplitLinesConcat(s[2..]);
      ConcatCrlf(s);
    } else if IsBreak(s[0]) {
      SplitLinesConcat(s[1..]);
      ConcatBreak(s);
    } else {
      SplitLinesConcat(s[1..]);
      ConcatChar(s);
    }
  }

  /** The line terminators `SplitLines` cuts at, in order. */
  function LineBreaks(s: string): seq<string>
    decreases |s|
  {
    if s == [] then []
    else if StartsWith(s, "\r\n") then ["\r\n"] + LineBreaks(s[2..])
    else if IsBreak(s[0]) then [[s[0]]] + LineBreaks(s[1..])
    else LineBreaks(s[1..])
  }

  /** Lines interleaved with the terminators between them. */
  function Rejoin(lines: seq<string>, breaks: seq<string>): string
    requires |lines| == |breaks| + 1
    decreases |breaks|
  {
    if breaks == [] then lines[0]
    else lines[0] + breaks[0] + Rejoin(lines[1..], breaks[1..])
  }

  /** Prefixing the first line prefixes the rejoined text. */
  lemma RejoinCons(c: char, lines: seq<string>, breaks: seq<string>)
    requires |lines| == |breaks| + 1
    ensures Rejoin([[c] + lines[0]] + lines[1..], breaks) == [c] + Rejoin(lines, breaks)
  {
    var l := [[c] + lines[0]] + lines[1..];
    assert l[0] == [c] + lines[0] && l[1..] == lines[1..];
    if breaks != [] {
      var tail := Rejoin(lines[1..], breaks[1..]);
      assert Rejoin(l, breaks) == l[0] + breaks[0] + tail;
      assert Rejoin(lines, breaks) == lines[0] + breaks[0] + tail;
      PrependAssoc(c, lines[0], breaks[0], tail);
    }
  }

  /** Regrouping after prefixing a character, isolated like `ConcatAssoc`. */
  lemma PrependAssoc(c: char, a: string, b: string, t: string)
    ensures ([c] + a) + b + t == [c] + (a + b + t)
  {
  }

  /** The partner of `SplitLines`: one more line than terminators, and the lines put back
      together with the terminators between them give back the input. */
  lemma {:induction false} SplitLinesRejoin(s: string)
    ensures |SplitLines(s)| == |LineBreaks(s)| + 1
    ensures Rejoin(SplitLines(s), LineBreaks(s)) == s
    decreases |s|
  {
    if s == [] {
    } else if StartsWith(s, "\r\n") {
      SplitLinesRejoin(s[2..]);
      var l := [""] + SplitLines(s[2..]);
      var b := ["\r\n"] + LineBreaks(s[2..]);
      assert l[1..] == SplitLines(s[2..]) && b[1..] == LineBreaks(s[2..]);
      assert s == "\r\n" + s[2..];
    } else if IsBreak(s[0]) {
      SplitLinesRejoin(s[1..]);
      var l := [""] + SplitLines(s[1..]);
      var b := [[s[0]]] + LineBreaks(s[1..]);
      assert l[1..] == SplitLines(s[1..]) && b[1..] == LineBreaks(s[1..]);
      assert s == [s[0]] + s[1..];
    } else {
      assert !StartsWith(s, "\r\n") by {
        if |s| >= 2 {
          assert s[..2][0] == s[0];
        }
      }
      SplitLinesRejoin(s[1..]);
      RejoinCons(s[0], SplitLines(s[1..]), LineBreaks(s[1..]));
      assert s == [s[0]] + s[1..];
    }
  }
}
