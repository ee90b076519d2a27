/**
  The label readers of a course-information page: the "bolded" label text
  of a block, the "small label" text of an `h5` (weight, breadth, subject
  code), and the breadth category letter
  (scraper/src/academicCalendar.ts:181-186, 224-253, copied in
  scraper/src/main.ts:263-268, 306-335).
 */
module Labels {
  import opened Results
  import opened Chars
  import opened Dom

  /**
    `getBoldedInformationLabelText`: `null` for a missing or empty selection,
    otherwise the trimmed text of the whole selection — the selection's text
    with only its leading and trailing whitespace removed.
   */
  function BoldedText(selection: Option<Selection>): (r: Option<string>)
    ensures r.None? <==> selection.None? || |selection.value| == 0
    ensures r.Some? ==> TrimmedFrom(r.value, TextOfAll(selection.value))
  {
    if selection.Some? && |selection.value| > 0 then Some(Trim(TextOfAll(selection.value))) else None
  }

  /** `r` is `s` without its leading and trailing whitespace: a middle slice of `s` between two whitespace runs. */
  predicate TrimmedFrom(r: string, s: string) {
    && (r == [] || (!IsSpace(r[0]) && !IsSpace(r[|r| - 1])))
    && exists a :: 0 <= a <= |s| - |r| && r == s[a..a + |r|] && AllSpace(s, 0, a) && AllSpace(s, a + |r|, |s|)
  }

  /**
    `getSmallLabelText`: `null` for an empty selection; it throws when the
    first selected node has fewer than two child nodes, or when its second
    child is not a text node; otherwise it returns that text's trimmed data.
   */
  function SmallLabelText(selection: Selection): (r: Result<Option<string>>)
    ensures r == Ok(None) <==> |selection| == 0
    ensures r == Err(SmallLabelTooFewChildren) <==> |selection| > 0 && |ChildNodes(selection[0])| < 2
    ensures r == Err(SmallLabelNotText) <==> |selection| > 0 && |ChildNodes(selection[0])| >= 2 && !ChildNodes(selection[0])[1].Text?
    ensures r.Ok? && r.value.Some? ==>
      |selection| > 0 && |ChildNodes(selection[0])| >= 2 && ChildNodes(selection[0])[1].Text?
      && r.value.value == Trim(ChildNodes(selection[0])[1].data)
  {
    if |selection| == 0 then Ok(None)
    else
      var header := selection[0];
      var children := ChildNodes(header);
      if |children| < 2 then Err(SmallLabelTooFewChildren)
      else
        var secondChild := children[1];
        if !secondChild.Text? then Err(SmallLabelNotText)
        else Ok(Some(Trim(secondChild.data)))
  }

  const CategoryWord := "Category"

  /** A letter `[ABC]` matches under the `i` flag: A, B, C, a, b or c. */
  predicate IsCategoryLetter(c: char) {
    ToUpper(c) == 'A' || ToUpper(c) == 'B' || ToUpper(c) == 'C'
  }

  /**
    The attempt of `/Category\s+([ABC])/gi` at position `i`: "Category" in
    any letter case, a whitespace run, and a category letter right after the
    run (a shorter run would leave a whitespace character where the letter
    must be, so only the whole run can succeed). The captured letter is
    returned as written.
   */
  function CategoryAt(t: string, i: nat): Option<char>
    requires i <= |t|
  {
    if !LiteralAtIgnoringCase(t, i, CategoryWord) then None
    else
      var a := i + |CategoryWord|;
      var b := RunEnd(t, a, Space);
      if a < b < |t| && IsCategoryLetter(t[b]) then Some(t[b]) else None
  }

  /** The pattern matches at `i` capturing `letter`, as a relation: word, non-empty whitespace, letter. */
  predicate IsCategoryMatch(t: string, i: nat, b: nat, letter: char) {
    && LiteralAtIgnoringCase(t, i, CategoryWord)
    && i + |CategoryWord| < b < |t|
    && AllSpace(t, i + |CategoryWord|, b)
    && IsCategoryLetter(t[b])
    && letter == t[b]
  }

  /** A match at `i` takes the whole whitespace run, so it is the one the attempt at `i` finds. */
  lemma CategoryMatchDetermined(t: string, i: nat, b: nat, letter: char)
    requires IsCategoryMatch(t, i, b, letter)
    ensures CategoryAt(t, i) == Some(letter)
  {
    var e := RunEnd(t, i + |CategoryWord|, Space);
    assert !IsSpace(t[b]);
    assert b <= e;
  }

  /** The attempt at `i` succeeds exactly when some whitespace run there is followed by a category letter. */
  lemma CategoryAtSpec(t: string, i: nat)
    requires i <= |t|
    ensures CategoryAt(t, i).Some? ==> exists b :: IsCategoryMatch(t, i, b, CategoryAt(t, i).value)
    ensures forall b: nat, letter :: IsCategoryMatch(t, i, b, letter) ==> CategoryAt(t, i) == Some(letter)
  {
    if CategoryAt(t, i).Some? {
      var b := RunEnd(t, i + |CategoryWord|, Space);
      assert IsCategoryMatch(t, i, b, t[b]);
    }
    forall b: nat, letter | IsCategoryMatch(t, i, b, letter) ensures CategoryAt(t, i) == Some(letter) {
      CategoryMatchDetermined(t, i, b, letter);
    }
  }

  /** Where the leftmost match starts: none before it, and when none there either, it is the end of the text. */
  function FirstCategoryPosition(t: string, i: nat): (j: nat)
    requires i <= |t|
    ensures i <= j <= |t|
    ensures forall k :: i <= k < j ==> CategoryAt(t, k).None?
    ensures CategoryAt(t, j).None? ==> j == |t|
    decreases |t| - i
  {
    if i == |t| || CategoryAt(t, i).Some? then i
    else
      FirstCategoryPosition(t, i + 1)
  }

  /**
    `extractBreadthCategoryLetter`: `null` for `null` or "" input; it throws
    when the text has no "Category X"; otherwise the letter of the leftmost
    match, in the case it is written in.
   */
  function BreadthCategoryLetter(categoryTextInput: Option<string>): (r: Result<Option<string>>)
    ensures categoryTextInput.None? || categoryTextInput.value == "" ==> r == Ok(None)
    ensures r.Err? ==> r.error == BreadthPatternMismatch
    ensures r.Ok? && r.value.Some? ==> |r.value.value| == 1 && IsCategoryLetter(r.value.value[0])
  {
    if categoryTextInput.None? || categoryTextInput.value == "" then Ok(None)
    else
      var t := categoryTextInput.value;
      match CategoryAt(t, FirstCategoryPosition(t, 0))
      case None => Err(BreadthPatternMismatch)
      case Some(letter) => Ok(Some([letter]))
  }

  /**
    The breadth extractor throws exactly when no position of a non-empty text
    starts "Category", whitespace and a category letter; otherwise the letter
    comes from a match that no other match precedes.
   */
  lemma BreadthSpec(t: string)
    requires t != ""
    ensures BreadthCategoryLetter(Some(t)).Err? <==> forall i: nat, b: nat, letter :: !IsCategoryMatch(t, i, b, letter)
    ensures BreadthCategoryLetter(Some(t)).Ok? ==>
      exists i: nat, b: nat ::
        && IsCategoryMatch(t, i, b, BreadthCategoryLetter(Some(t)).value.value[0])
        && forall i': nat, b': nat, letter :: IsCategoryMatch(t, i', b', letter) ==> i <= i'
  {
    var j := FirstCategoryPosition(t, 0);
    CategoryAtSpec(t, j);
    forall i: nat, b: nat, letter | IsCategoryMatch(t, i, b, letter) ensures j <= i && CategoryAt(t, j).Some? {
      CategoryAtSpec(t, i);
    }
  }

  lemma BreadthExampleMatch(t: string)
    requires t == "category b"
    ensures CategoryAt(t, 0) == Some('b')
  {
    assert LiteralAtIgnoringCase(t, 0, CategoryWord);
    RunEndAt(t, 8, 9, Space);
  }

  /** "category b" gives "b": the `i` flag lets the lowercase word and letter match, and the letter keeps its case. */
  lemma BreadthExampleLowercase(t: string)
    requires t == "category b"
    ensures BreadthCategoryLetter(Some(t)) == Ok(Some("b"))
  {
    BreadthExampleMatch(t);
    assert FirstCategoryPosition(t, 0) == 0;
  }

  lemma NoCategoryLetterAt(t: string, i: nat)
    requires t == "Category D" && i <= |t|
    ensures CategoryAt(t, i).None?
  {
    if i == 0 {
      RunEndAt(t, 8, 9, Space);
    } else {
      assert i + 8 > |t| || !SameIgnoringCase(t[i], 'C');
    }
  }

  /** "Category D" throws: D is not a breadth category. */
  lemma BreadthExampleMismatch(t: string)
    requires t == "Category D"
    ensures BreadthCategoryLetter(Some(t)) == Err(BreadthPatternMismatch)
  {
    forall i: nat | i <= |t| ensures CategoryAt(t, i).None? {
      NoCategoryLetterAt(t, i);
    }
  }
}
