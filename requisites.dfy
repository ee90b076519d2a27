/**
  The requisite splitter of a course-information page: the text of the
  second description block is split into its "Pre-or Corequisite(s):",
  "Prerequisite(s):" and "Corequisite(s):" clauses, each found by its own
  regular expression (scraper/src/academicCalendar.ts:188-222, copied in
  scraper/src/main.ts:270-304).

  Each pattern has the shape `Label\s+(.+?)(?:Stop1|Stop2|$)`, the
  corequisite one behind the negative lookbehind `(?<!Pre-or\s+)`. The
  model follows the backtracking of a JavaScript regular expression for
  this shape: the leftmost start wins; at a start, the widest whitespace run
  is tried first and narrowed one character at a time; for each width the
  lazy capture is extended one character at a time (never across a line
  terminator, which `.` does not match) until a stop label or the end of
  the text follows it. The search is proved against an independent
  description of what a match is and which match is preferred.
 */
module Requisites {
  import opened Results
  import opened Chars

  /** One requisite pattern: its label, the labels that end its capture, and whether the `Pre-or` lookbehind guards it. */
  datatype Clause = Clause(labelText: string, stops: seq<string>, guarded: bool)

  const PreOrCorequisitesLabel := "Pre-or Corequisite(s):"
  const PrerequisitesLabel := "Prerequisite(s):"
  const CorequisitesLabel := "Corequisite(s):"

  /** `/Prerequisite\(s\):\s+(.+?)(?:Pre-or Corequisite\(s\):|Corequisite\(s\):|$)/g` */
  const PrerequisitesClause := Clause(PrerequisitesLabel, [PreOrCorequisitesLabel, CorequisitesLabel], false)

  /** `/(?<!Pre-or\s+)Corequisite\(s\):\s+(.+?)(?:Pre-or Corequisite\(s\):|Prerequisite\(s\):|$)/g` */
  const CorequisitesClause := Clause(CorequisitesLabel, [PreOrCorequisitesLabel, PrerequisitesLabel], true)

  /** `/Pre-or Corequisite\(s\):\s+(.+?)(?:Corequisite\(s\):|Prerequisite\(s\):|$)/g` */
  const PreOrCorequisitesClause := Clause(PreOrCorequisitesLabel, [CorequisitesLabel, PrerequisitesLabel], false)

  /** `(?:Stop1|Stop2|$)` matches at `e`: a stop label starts there, or `e` is the end of the text. */
  predicate StopAt(t: string, e: nat, stops: seq<string>) {
    e == |t| || exists k :: 0 <= k < |stops| && LiteralAt(t, e, stops[k])
  }

  /** `(?<!Pre-or\s+)` fails at `i`: "Pre-or" and at least one whitespace character end right at `i`. */
  predicate PrecededByPreOr(t: string, i: nat) {
    exists p :: 6 <= p < i <= |t| && LiteralAt(t, p - 6, "Pre-or") && AllSpace(t, p, i)
  }

  /** The pattern can start at `i`: the label is there and the lookbehind, if any, does not object. */
  predicate ClauseHead(t: string, cl: Clause, i: nat) {
    LiteralAt(t, i, cl.labelText) && !(cl.guarded && PrecededByPreOr(t, i))
  }

  /** `(.+?)` followed by the stop group can capture `t[c..e]`. */
  predicate Capture(t: string, c: nat, e: nat, stops: seq<string>) {
    c < e <= |t| && NoLineTerminator(t, c, e) && StopAt(t, e, stops)
  }

  /** The pattern matches at `i` with capture `t[c..e]`: label, whitespace `t[i + |label|..c]`, capture, stop. */
  predicate IsMatch(t: string, cl: Clause, i: nat, c: nat, e: nat) {
    && ClauseHead(t, cl, i)
    && i + |cl.labelText| < c <= |t|
    && AllSpace(t, i + |cl.labelText|, c)
    && Capture(t, c, e, cl.stops)
  }

  /** A captured span, `t[c..e]`. */
  datatype Span = Span(c: nat, e: nat)

  /**
    The lazy `(.+?)` from `c`, at its attempt to end at `e`: the first end
    that the stop group accepts, unless a line terminator comes first.
   */
  function LazyEnd(t: string, c: nat, e: nat, stops: seq<string>): (r: Option<nat>)
    requires c < e <= |t| + 1
    requires NoLineTerminator(t, c, e - 1)
    requires forall e' :: c < e' < e ==> !Capture(t, c, e', stops)
    ensures r.Some? ==> Capture(t, c, r.value, stops)
    ensures r.Some? ==> forall e' :: Capture(t, c, e', stops) ==> r.value <= e'
    ensures r.None? ==> forall e' :: !Capture(t, c, e', stops)
    decreases |t| + 1 - e
  {
    if e > |t| then None
    else if IsLineTerminator(t[e - 1]) then
      assert forall e' :: e <= e' <= |t| ==> !NoLineTerminator(t, c, e');
      None
    else if StopAt(t, e, stops) then Some(e)
    else LazyEnd(t, c, e + 1, stops)
  }

  /**
    The greedy `\s+` after the label at `a`, at its attempt to take `w`
    characters, and every narrower width after it.
   */
  function TryWidths(t: string, cl: Clause, i: nat, w: nat): (r: Option<Span>)
    requires ClauseHead(t, cl, i)
    requires var a := i + |cl.labelText|; a + w <= |t| && AllSpace(t, a, a + w)
    requires forall c: nat, e: nat :: i + |cl.labelText| + w < c && IsMatch(t, cl, i, c, e) ==> false
    ensures r.Some? ==> IsMatch(t, cl, i, r.value.c, r.value.e)
    ensures r.Some? ==> forall c: nat, e: nat :: IsMatch(t, cl, i, c, e) ==> c < r.value.c || (c == r.value.c && r.value.e <= e)
    ensures r.None? ==> forall c: nat, e: nat :: !IsMatch(t, cl, i, c, e)
    decreases w
  {
    var a := i + |cl.labelText|;
    if w == 0 then None
    else match LazyEnd(t, a + w, a + w + 1, cl.stops)
      case Some(e) => Some(Span(a + w, e))
      case None =>
        assert AllSpace(t, a, a + w - 1);
        TryWidths(t, cl, i, w - 1)
  }

  /** The attempt of the pattern at position `i`, and the capture it makes if it matches there. */
  function ClauseMatchAt(t: string, cl: Clause, i: nat): (r: Option<Span>)
    requires i <= |t|
    ensures r.Some? ==> IsMatch(t, cl, i, r.value.c, r.value.e)
    ensures r.Some? ==> forall c: nat, e: nat :: IsMatch(t, cl, i, c, e) ==> c < r.value.c || (c == r.value.c && r.value.e <= e)
    ensures r.None? ==> forall c: nat, e: nat :: !IsMatch(t, cl, i, c, e)
  {
    if !ClauseHead(t, cl, i) then None
    else
      var a := i + |cl.labelText|;
      var b := RunEnd(t, a, Space);
      TryWidths(t, cl, i, b - a)
  }

  /** Where the leftmost match starts: no match starts before it, and if none starts there, it is the end of the text. */
  function FirstMatchPosition(t: string, cl: Clause, i: nat): (j: nat)
    requires i <= |t|
    ensures i <= j <= |t|
    ensures forall k :: i <= k < j ==> ClauseMatchAt(t, cl, k).None?
    ensures ClauseMatchAt(t, cl, j).None? ==> j == |t|
    decreases |t| - i
  {
    if i == |t| || ClauseMatchAt(t, cl, i).Some? then i else FirstMatchPosition(t, cl, i + 1)
  }

  /** `Array.from(text.matchAll(pattern))[0]`: the first match, as its capture span. */
  function FirstMatch(t: string, cl: Clause): Option<Span> {
    ClauseMatchAt(t, cl, FirstMatchPosition(t, cl, 0))
  }

  /** `getMatch`: the trimmed capture of the first match, or `null`. */
  function GetMatch(t: string, cl: Clause): Option<string> {
    match FirstMatch(t, cl)
    case None => None
    case Some(span) => Some(Trim(t[span.c..span.e]))
  }

  /**
    What `getMatch` returns, stated without the search: `null` exactly when
    the pattern matches nowhere; otherwise the trimmed capture of a match
    that starts no later than any other, whose whitespace run is the widest
    among the matches at that start, and whose capture is the shortest for
    that width.
   */
  lemma GetMatchSpec(t: string, cl: Clause)
    ensures GetMatch(t, cl).None? <==> forall i: nat, c: nat, e: nat :: !IsMatch(t, cl, i, c, e)
    ensures GetMatch(t, cl).Some? ==>
      exists i: nat, c: nat, e: nat ::
        && IsMatch(t, cl, i, c, e)
        && GetMatch(t, cl).value == Trim(t[c..e])
        && (forall i': nat, c': nat, e': nat :: IsMatch(t, cl, i', c', e') ==> i <= i')
        && (forall c': nat, e': nat :: IsMatch(t, cl, i, c', e') ==> c' < c || (c' == c && e <= e'))
  {
    var j := FirstMatchPosition(t, cl, 0);
    if FirstMatch(t, cl).None? {
      forall i: nat, c: nat, e: nat | i <= |t| ensures !IsMatch(t, cl, i, c, e) {
        assert ClauseMatchAt(t, cl, i).None?;
      }
    } else {
      var span := FirstMatch(t, cl).value;
      forall i': nat, c': nat, e': nat | IsMatch(t, cl, i', c', e') ensures j <= i' {
        assert ClauseMatchAt(t, cl, i').Some?;
      }
      assert IsMatch(t, cl, j, span.c, span.e);
    }
  }

  /**
    Without line terminators in the text, the pattern matches exactly when
    its label (not behind "Pre-or" and whitespace, for the guarded one)
    occurs followed by whitespace and at least one more character.
   */
  lemma MatchWithoutLineTerminators(t: string, cl: Clause)
    requires NoLineTerminator(t, 0, |t|)
    ensures GetMatch(t, cl).Some? <==>
      exists i: nat :: ClauseHead(t, cl, i) && i + |cl.labelText| + 1 < |t| && IsSpace(t[i + |cl.labelText|])
  {
    GetMatchSpec(t, cl);
    if exists i: nat :: ClauseHead(t, cl, i) && i + |cl.labelText| + 1 < |t| && IsSpace(t[i + |cl.labelText|]) {
      var i: nat :| ClauseHead(t, cl, i) && i + |cl.labelText| + 1 < |t| && IsSpace(t[i + |cl.labelText|]);
      MatchToEnd(t, cl, i);
    }
    if GetMatch(t, cl).Some? {
      var i: nat, c: nat, e: nat :| IsMatch(t, cl, i, c, e);
      MatchHasSpaceAfterLabel(t, cl, i, c, e);
    }
  }

  /** Without line terminators, a label and one whitespace character let the capture run to the end of the text. */
  lemma MatchToEnd(t: string, cl: Clause, i: nat)
    requires NoLineTerminator(t, 0, |t|)
    requires ClauseHead(t, cl, i) && i + |cl.labelText| + 1 < |t| && IsSpace(t[i + |cl.labelText|])
    ensures IsMatch(t, cl, i, i + |cl.labelText| + 1, |t|)
  {
    var a := i + |cl.labelText|;
    assert AllSpace(t, a, a + 1);
    assert NoLineTerminator(t, a + 1, |t|);
    assert StopAt(t, |t|, cl.stops);
  }

  /** Every match has a whitespace character right after its label and a character after that. */
  lemma MatchHasSpaceAfterLabel(t: string, cl: Clause, i: nat, c: nat, e: nat)
    requires IsMatch(t, cl, i, c, e)
    ensures i + |cl.labelText| + 1 < |t| && IsSpace(t[i + |cl.labelText|])
  {
    assert AllSpace(t, i + |cl.labelText|, c);
  }

  /**
    `replace(/(?:\r?\n)/g, "")`: every "\r\n" and every other "\n" is
    removed; a "\r" that is not followed by "\n" stays.
   */
  function RemoveNewlines(s: string): (r: string)
    ensures |r| <= |s|
    ensures forall k :: 0 <= k < |r| ==> r[k] != '\n'
    decreases |s|
  {
    if s == [] then []
    else if s[0] == '\n' then RemoveNewlines(s[1..])
    else if |s| >= 2 && s[0] == '\r' && s[1] == '\n' then RemoveNewlines(s[2..])
    else [s[0]] + RemoveNewlines(s[1..])
  }

  /** Only line breaks are removed: text without "\n" is unchanged. */
  lemma {:induction false} RemoveNewlinesKeepsOtherText(s: string)
    requires forall k :: 0 <= k < |s| ==> s[k] != '\n'
    ensures RemoveNewlines(s) == s
  {
    if s != [] {
      RemoveNewlinesKeepsOtherText(s[1..]);
    }
  }

  /**
    Removal works piece by piece: the text splits anywhere except inside a
    "\r\n" pair, and then each piece loses its own line breaks.
   */
  lemma {:induction false} RemoveNewlinesAppend(a: string, b: string)
    requires a == [] || b == [] || a[|a| - 1] != '\r' || b[0] != '\n'
    ensures RemoveNewlines(a + b) == RemoveNewlines(a) + RemoveNewlines(b)
    decreases |a|
  {
    if a == [] {
      assert a + b == b;
    } else {
      var k := NewlineWidth(a);
      assert a[k..] != [] ==> a[k..][|a[k..]| - 1] == a[|a| - 1];
      RemoveNewlinesAppend(a[k..], b);
      RemoveNewlinesAppendStep(a, b);
    }
  }

  /** The step of `RemoveNewlinesAppend`: the first character or line break of `a` is handled alike in `a + b`. */
  lemma RemoveNewlinesAppendStep(a: string, b: string)
    requires a != [] && (b == [] || a[|a| - 1] != '\r' || b[0] != '\n')
    requires RemoveNewlines(a[NewlineWidth(a)..] + b) == RemoveNewlines(a[NewlineWidth(a)..]) + RemoveNewlines(b)
    ensures RemoveNewlines(a + b) == RemoveNewlines(a) + RemoveNewlines(b)
  {
    var ab := a + b;
    var k := NewlineWidth(a);
    assert k <= |a|;
    assert ab[0] == a[0];
    if |a| >= 2 {
      assert ab[1] == a[1];
    } else if b != [] {
      assert ab[1] == b[0];
    }
    assert NewlineWidth(ab) == k && NewlineKept(ab) == NewlineKept(a);
    DropOfAppend(a, b, k);
    RemoveNewlinesHead(a);
    RemoveNewlinesHead(ab);
    AppendAssociative(NewlineKept(a), RemoveNewlines(a[k..]), RemoveNewlines(b));
  }

  lemma DropOfAppend(a: string, b: string, k: nat)
    requires k <= |a|
    ensures (a + b)[k..] == a[k..] + b
  {
  }

  lemma AppendAssociative(x: string, y: string, z: string)
    ensures x + (y + z) == (x + y) + z
  {
  }

  /** The length of the `\r?\n` at the start of `s`, or 1 when `s` starts with any other character. */
  function NewlineWidth(s: string): nat
    requires s != []
  {
    if |s| >= 2 && s[0] == '\r' && s[1] == '\n' then 2 else 1
  }

  /** What the removal keeps of the first `NewlineWidth(s)` characters: nothing of a `\r?\n`, otherwise the first character. */
  function NewlineKept(s: string): string
    requires s != []
  {
    if s[0] == '\n' || NewlineWidth(s) == 2 then [] else [s[0]]
  }

  /** One step of the removal: a leading `\r?\n` goes, any other first character stays. */
  lemma RemoveNewlinesHead(s: string)
    requires s != []
    ensures NewlineWidth(s) <= |s|
    ensures RemoveNewlines(s) == NewlineKept(s) + RemoveNewlines(s[NewlineWidth(s)..])
  {
  }

  /** A "\r\n" is removed as a whole, whatever precedes it. */
  lemma RemoveCrLf(a: string, b: string)
    ensures RemoveNewlines(a + "\r\n" + b) == RemoveNewlines(a) + RemoveNewlines(b)
  {
    assert a + "\r\n" + b == a + ("\r\n" + b);
    RemoveNewlinesAppend(a, "\r\n" + b);
    assert ("\r\n" + b)[2..] == b;
  }

  /** A "\n" is removed; when a "\r" precedes it, the pair is removed as a whole instead (`RemoveCrLf`). */
  lemma RemoveLf(a: string, b: string)
    requires a == [] || a[|a| - 1] != '\r'
    ensures RemoveNewlines(a + "\n" + b) == RemoveNewlines(a) + RemoveNewlines(b)
  {
    assert a + "\n" + b == a + ("\n" + b);
    RemoveNewlinesAppend(a, "\n" + b);
    assert ("\n" + b)[1..] == b;
  }

  /**
    A "\r" that no "\n" follows is kept, so it still ends the lazy `.+?`
    of the requisite patterns.
   */
  lemma KeepLoneCr(a: string, b: string)
    requires b == [] || b[0] != '\n'
    ensures RemoveNewlines(a + "\r" + b) == RemoveNewlines(a) + "\r" + RemoveNewlines(b)
  {
    assert a + "\r" + b == a + ("\r" + b);
    RemoveNewlinesAppend(a, "\r" + b);
    assert ("\r" + b)[1..] == b;
  }

  /** The three fields of `extractRequisiteInformation`. */
  datatype Requisites = Requisites(
    preOrCorequisites: Option<string>,
    prerequisites: Option<string>,
    corequisites: Option<string>)

  /**
    `extractRequisiteInformation` (scraper/src/academicCalendar.ts:193-221,
    scraper/src/main.ts:275-303): all three fields `null` when the text is
    `null` or empty, and otherwise each field from its own pattern.
   */
  function ExtractRequisiteInformation(text: Option<string>): (r: Requisites)
    ensures r.preOrCorequisites.None? <==>
      text.None? || text.value == "" || forall i: nat, c: nat, e: nat :: !IsMatch(text.value, PreOrCorequisitesClause, i, c, e)
    ensures r.prerequisites.None? <==>
      text.None? || text.value == "" || forall i: nat, c: nat, e: nat :: !IsMatch(text.value, PrerequisitesClause, i, c, e)
    ensures r.corequisites.None? <==>
      text.None? || text.value == "" || forall i: nat, c: nat, e: nat :: !IsMatch(text.value, CorequisitesClause, i, c, e)
  {
    if text.None? || text.value == "" then Requisites(None, None, None)
    else
      GetMatchSpec(text.value, PreOrCorequisitesClause);
      GetMatchSpec(text.value, PrerequisitesClause);
      GetMatchSpec(text.value, CorequisitesClause);
      Requisites(GetMatch(text.value, PreOrCorequisitesClause),
                 GetMatch(text.value, PrerequisitesClause),
                 GetMatch(text.value, CorequisitesClause))
  }

  /** A pattern whose head occurs nowhere gives `null`. */
  lemma NoHeadNoMatch(t: string, cl: Clause)
    requires forall i: nat :: i <= |t| ==> !ClauseHead(t, cl, i)
    ensures GetMatch(t, cl).None?
  {
    GetMatchSpec(t, cl);
  }

  lemma LiteralAtFirstAndFourth(t: string, i: nat, lit: string)
    requires |lit| > 3
    ensures LiteralAt(t, i, lit) ==> t[i] == lit[0] && t[i + 3] == lit[3]
  {
    if LiteralAt(t, i, lit) {
      assert t[i..i + |lit|][0] == t[i];
      assert t[i..i + |lit|][3] == t[i + 3];
    }
  }

  lemma PreOrExampleMatch(t: string)
    requires t == "Pre-or Corequisite(s): Q"
    ensures ClauseMatchAt(t, PreOrCorequisitesClause, 0) == Some(Span(23, 24))
  {
    assert LiteralAt(t, 0, PreOrCorequisitesLabel);
    RunEndAt(t, 22, 23, Space);
    assert LazyEnd(t, 23, 24, PreOrCorequisitesClause.stops) == Some(24);
  }

  lemma TrimOfNonSpace(q: string)
    requires |q| == 1 && !IsSpace(q[0])
    ensures Trim(q) == q
  {
    RunEndAt(q, 0, 0, Space);
    assert RunStart(q, 1, Space, 0) == 1;
  }

  lemma PreOrExampleCapture(t: string)
    requires t == "Pre-or Corequisite(s): Q"
    ensures GetMatch(t, PreOrCorequisitesClause) == Some("Q")
  {
    PreOrExampleMatch(t);
    assert FirstMatchPosition(t, PreOrCorequisitesClause, 0) == 0;
    assert t[23..24] == "Q";
    TrimOfNonSpace("Q");
  }

  lemma PreOrExampleNoPrerequisites(t: string)
    requires t == "Pre-or Corequisite(s): Q"
    ensures GetMatch(t, PrerequisitesClause).None?
  {
    forall i: nat | i <= |t| ensures !ClauseHead(t, PrerequisitesClause, i) {
      LiteralAtFirstAndFourth(t, i, PrerequisitesLabel);
      if i + |PrerequisitesLabel| <= |t| {
        assert i <= 8;
        assert t[i] != 'P' || t[i + 3] != 'r';
      }
    }
    NoHeadNoMatch(t, PrerequisitesClause);
  }

  lemma PreOrExampleGuard(t: string)
    requires t == "Pre-or Corequisite(s): Q"
    ensures PrecededByPreOr(t, 7)
  {
    assert t[0..6] == "Pre-or";
    assert LiteralAt(t, 0, "Pre-or") && AllSpace(t, 6, 7);
  }

  lemma PreOrExampleNoCorequisitesAt(t: string, i: nat)
    requires t == "Pre-or Corequisite(s): Q"
    requires i <= |t| && i != 7
    ensures !LiteralAt(t, i, CorequisitesLabel)
  {
    LiteralAtFirstAndFourth(t, i, CorequisitesLabel);
  }

  lemma PreOrExampleNoCorequisites(t: string)
    requires t == "Pre-or Corequisite(s): Q"
    ensures GetMatch(t, CorequisitesClause).None?
  {
    PreOrExampleGuard(t);
    forall i: nat | i <= |t| ensures !ClauseHead(t, CorequisitesClause, i) {
      if i != 7 {
        PreOrExampleNoCorequisitesAt(t, i);
      }
    }
    NoHeadNoMatch(t, CorequisitesClause);
  }

  /**
    "Pre-or Corequisite(s): Q": the pre-or-corequisite clause is "Q", and the
    "Corequisite(s):" inside its label is not taken as a corequisite clause.
   */
  lemma PreOrExample(t: string)
    requires t == "Pre-or Corequisite(s): Q"
    ensures ExtractRequisiteInformation(Some(t)) == Requisites(Some("Q"), None, None)
  {
    PreOrExampleCapture(t);
    PreOrExampleNoPrerequisites(t);
    PreOrExampleNoCorequisites(t);
  }

  lemma {:induction false} SkipPositions(t: string, cl: Clause, i: nat, j: nat)
    requires i <= j <= |t|
    requires forall k :: i <= k < j ==> !ClauseHead(t, cl, k)
    ensures FirstMatchPosition(t, cl, i) == FirstMatchPosition(t, cl, j)
    decreases j - i
  {
    if i < j {
      SkipPositions(t, cl, i + 1, j);
    }
  }

  lemma TwoClausesStops(t: string)
    requires t == "Prerequisite(s): A Corequisite(s): B"
    ensures !StopAt(t, 18, PrerequisitesClause.stops)
    ensures StopAt(t, 19, PrerequisitesClause.stops)
  {
    NoStopAtSpace(t);
    StopAtCorequisites(t);
  }

  lemma NoStopAtSpace(t: string)
    requires t == "Prerequisite(s): A Corequisite(s): B"
    ensures !StopAt(t, 18, PrerequisitesClause.stops)
  {
    LiteralAtFirstAndFourth(t, 18, PreOrCorequisitesLabel);
    LiteralAtFirstAndFourth(t, 18, CorequisitesLabel);
    assert t[18] == ' ';
  }

  lemma StopAtCorequisites(t: string)
    requires t == "Prerequisite(s): A Corequisite(s): B"
    ensures StopAt(t, 19, PrerequisitesClause.stops)
  {
    assert t[19..34] == CorequisitesLabel;
    assert LiteralAt(t, 19, PrerequisitesClause.stops[1]);
  }

  lemma TwoClausesPrerequisitesSpan(t: string)
    requires t == "Prerequisite(s): A Corequisite(s): B"
    ensures ClauseMatchAt(t, PrerequisitesClause, 0) == Some(Span(17, 19))
  {
    assert LiteralAt(t, 0, PrerequisitesLabel);
    RunEndAt(t, 16, 17, Space);
    TwoClausesStops(t);
    TwoClausesCharacters(t);
    LazyEndAfterTwo(t, 17, PrerequisitesClause.stops);
    PrerequisitesAttempt(t, 17, 19);
  }

  /** A label at the start, one space, and a first lazy end at `e` give the attempt at 0. */
  lemma PrerequisitesAttempt(t: string, c: nat, e: nat)
    requires c == |PrerequisitesLabel| + 1 <= |t| && LiteralAt(t, 0, PrerequisitesLabel)
    requires RunEnd(t, c - 1, Space) == c
    requires LazyEnd(t, c, c + 1, PrerequisitesClause.stops) == Some(e)
    ensures ClauseMatchAt(t, PrerequisitesClause, 0) == Some(Span(c, e))
  {
  }

  lemma TwoClausesCharacters(t: string)
    requires t == "Prerequisite(s): A Corequisite(s): B"
    ensures !IsLineTerminator(t[17]) && !IsLineTerminator(t[18])
  {
  }

  /** A lazy capture whose first one-character attempt fails and whose second succeeds ends two characters in. */
  lemma LazyEndAfterTwo(t: string, c: nat, stops: seq<string>)
    requires c + 2 <= |t|
    requires !IsLineTerminator(t[c]) && !IsLineTerminator(t[c + 1])
    requires !StopAt(t, c + 1, stops) && StopAt(t, c + 2, stops)
    ensures LazyEnd(t, c, c + 1, stops) == Some(c + 2)
  {
    assert !Capture(t, c, c + 1, stops);
    assert LazyEnd(t, c, c + 2, stops) == Some(c + 2);
  }

  lemma TrimOfLetterAndSpace(u: string)
    requires u == "A "
    ensures Trim(u) == "A"
  {
    RunEndAt(u, 0, 0, Space);
    assert RunStart(u, 2, Space, 0) == 1;
    assert u[0..1] == "A";
  }

  lemma TwoClausesPrerequisites(t: string)
    requires t == "Prerequisite(s): A Corequisite(s): B"
    ensures GetMatch(t, PrerequisitesClause) == Some("A")
  {
    TwoClausesPrerequisitesSpan(t);
    assert FirstMatchPosition(t, PrerequisitesClause, 0) == 0;
    assert t[17..19] == "A ";
    TrimOfLetterAndSpace(t[17..19]);
  }

  lemma TwoClausesNotGuarded(t: string)
    requires t == "Prerequisite(s): A Corequisite(s): B"
    ensures !PrecededByPreOr(t, 19)
  {
    forall p: nat | 6 <= p < 19 && AllSpace(t, p, 19) ensures !LiteralAt(t, p - 6, "Pre-or") {
      assert !IsSpace(t[17]);
      assert p == 18;
      LiteralAtFirstAndFourth(t, 12, "Pre-or");
    }
  }

  lemma TwoClausesNoCorequisitesBefore(t: string, i: nat)
    requires t == "Prerequisite(s): A Corequisite(s): B"
    requires i < 19
    ensures !LiteralAt(t, i, CorequisitesLabel)
  {
    LiteralAtFirstAndFourth(t, i, CorequisitesLabel);
  }

  lemma TwoClausesCorequisites(t: string)
    requires t == "Prerequisite(s): A Corequisite(s): B"
    ensures GetMatch(t, CorequisitesClause) == Some("B")
  {
    TwoClausesNotGuarded(t);
    forall k | 0 <= k < 19 ensures !ClauseHead(t, CorequisitesClause, k) {
      TwoClausesNoCorequisitesBefore(t, k);
    }
    SkipPositions(t, CorequisitesClause, 0, 19);
    TwoClausesCorequisitesMatch(t);
    assert FirstMatchPosition(t, CorequisitesClause, 19) == 19;
    assert t[35..36] == "B";
    TrimOfNonSpace("B");
  }

  lemma TwoClausesCorequisitesMatch(t: string)
    requires t == "Prerequisite(s): A Corequisite(s): B"
    ensures ClauseMatchAt(t, CorequisitesClause, 19) == Some(Span(35, 36))
  {
    assert LiteralAt(t, 19, CorequisitesLabel);
    TwoClausesNotGuarded(t);
    RunEndAt(t, 34, 35, Space);
    assert LazyEnd(t, 35, 36, CorequisitesClause.stops) == Some(36);
  }

  lemma TwoClausesNoPreOrAt(t: string, i: nat)
    requires t == "Prerequisite(s): A Corequisite(s): B"
    requires i <= |t|
    ensures !LiteralAt(t, i, PreOrCorequisitesLabel)
  {
    LiteralAtFirstAndFourth(t, i, PreOrCorequisitesLabel);
  }

  /**
    "Prerequisite(s): A Corequisite(s): B": the prerequisite capture stops
    lazily at the next label and is trimmed to "A"; the corequisite clause is
    "B"; there is no pre-or-corequisite clause.
   */
  lemma TwoClausesExample(t: string)
    requires t == "Prerequisite(s): A Corequisite(s): B"
    ensures ExtractRequisiteInformation(Some(t)) == Requisites(None, Some("A"), Some("B"))
  {
    TwoClausesPrerequisites(t);
    TwoClausesCorequisites(t);
    forall i: nat | i <= |t| ensures !ClauseHead(t, PreOrCorequisitesClause, i) {
      TwoClausesNoPreOrAt(t, i);
    }
    NoHeadNoMatch(t, PreOrCorequisitesClause);
  }
}
