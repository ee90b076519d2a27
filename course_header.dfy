/**
  The course header of a course-information page (the `h2`, e.g.
  "Calculus 1000A/B" or "CALC 1000A/B"): the leftmost match of
  `\w+\s+(\d+)((?:[A-Z]\/?)+)?` gives the course number and the suffix
  group, and `extractSuffixesFromListInHeader` lists the suffix letters.
  scraper/src/academicCalendar.ts:150-179, copied in scraper/src/main.ts:232-261.

  Backtracking cannot change this match: `\w`, `\s` and `\d`-after-`\s` are
  disjoint, so each greedy run either stops at its maximal end or the
  attempt at this start fails, and the optional group at the end of the
  pattern is taken as far as it goes.
 */
module CourseHeader {
  import opened Results
  import opened Chars

  /** The two capture groups of a match: the number, and the suffix group ("" when it did not take part). */
  datatype NameWithCode = NameWithCode(number: string, suffixGroup: string)

  predicate AllDigits(s: string) {
    forall k :: 0 <= k < |s| ==> IsDigit(s[k])
  }

  /**
    A string `(?:[A-Z]\/?)+` can match entirely: it starts with a capital,
    and every slash follows a capital.
   */
  predicate IsSuffixGroup(g: string) {
    && |g| > 0
    && IsUpper(g[0])
    && (forall k :: 0 <= k < |g| ==> IsUpper(g[k]) || g[k] == '/')
    && (forall k :: 0 < k < |g| && g[k] == '/' ==> IsUpper(g[k - 1]))
  }

  /** Where the greedy `(?:[A-Z]\/?)+` loop that starts at `p` stops (`p` itself when no capital is there). */
  function SuffixGroupEnd(s: string, p: nat): (q: nat)
    requires p <= |s|
    ensures p <= q <= |s|
    ensures q > p ==> IsSuffixGroup(s[p..q])
    ensures q == |s| || !IsUpper(s[q])
    ensures q == p <==> p == |s| || !IsUpper(s[p])
    decreases |s| - p
  {
    if p < |s| && IsUpper(s[p]) then
      var p' := if p + 1 < |s| && s[p + 1] == '/' then p + 2 else p + 1;
      var q := SuffixGroupEnd(s, p');
      assert q > p' ==> IsSuffixGroup(s[p'..q]);
      assert s[p..q][p' - p..] == s[p'..q];
      q
    else p
  }

  /** The attempt of the pattern at position `i`, if it matches there. */
  function NameWithCodeAt(s: string, i: nat): (r: Option<NameWithCode>)
    requires i <= |s|
  {
    if i == |s| || !IsWordChar(s[i]) then None
    else
      var e := RunEnd(s, i, Word);
      if e == |s| || !IsSpace(s[e]) then None
      else
        var f := RunEnd(s, e, Space);
        if f == |s| || !IsDigit(s[f]) then None
        else
          var g := RunEnd(s, f, Digit);
          var h := SuffixGroupEnd(s, g);
          Some(NameWithCode(s[f..g], s[g..h]))
  }

  /**
    The pattern matches `s[i..h]` with the word run `s[i..e]`, the
    whitespace run `s[e..f]`, the number `s[f..g]` and the suffix group
    `s[g..h]`, empty when the optional group does not take part. Nothing
    here asks a run to be maximal: this is any way the pattern can match.
   */
  predicate IsNameWithCodeMatch(s: string, i: nat, e: nat, f: nat, g: nat, h: nat) {
    && i < e < f < g <= h <= |s|
    && AllIn(s, i, e, Word) && AllIn(s, e, f, Space) && AllIn(s, f, g, Digit)
    && (h == g || IsSuffixGroup(s[g..h]))
  }

  /** No slash list starting at `p` reaches past the end of the greedy group loop. */
  lemma {:induction false} SuffixGroupMaximal(s: string, p: nat, h: nat)
    requires p < h <= |s| && IsSuffixGroup(s[p..h])
    ensures h <= SuffixGroupEnd(s, p)
    decreases h - p
  {
    assert IsUpper(s[p..h][0]);
    var p' := if p + 1 < |s| && s[p + 1] == '/' then p + 2 else p + 1;
    if p' < h {
      var g := s[p..h];
      var g' := s[p'..h];
      var d := p' - p;
      assert forall k :: 0 <= k < |g'| ==> g'[k] == g[k + d];
      SlashFollowedByCapital(g);
      assert g[d - 1] == '/' || g[d] != '/';
      assert IsUpper(g'[0]);
      assert IsSuffixGroup(g');
      SuffixGroupMaximal(s, p', h);
    }
  }

  /** Inside a slash list every slash that is not last is followed by a capital. */
  lemma SlashFollowedByCapital(g: string)
    requires IsSuffixGroup(g)
    ensures forall k :: 0 < k < |g| && g[k - 1] == '/' ==> IsUpper(g[k])
  {
  }

  /**
    The attempt at `i` succeeds exactly when the pattern can match at `i`,
    and then it takes the match JavaScript prefers there: the word and
    whitespace runs are the only ones possible, the digit run is the
    longest, and the suffix group the longest after it.
   */
  lemma NameWithCodeAtSpec(s: string, i: nat)
    requires i <= |s|
    ensures NameWithCodeAt(s, i).Some? <==> exists e: nat, f: nat, g: nat, h: nat :: IsNameWithCodeMatch(s, i, e, f, g, h)
    ensures NameWithCodeAt(s, i).Some? ==>
      var e := RunEnd(s, i, Word); var f := RunEnd(s, e, Space);
      var g := RunEnd(s, f, Digit); var h := SuffixGroupEnd(s, g);
      && IsNameWithCodeMatch(s, i, e, f, g, h)
      && NameWithCodeAt(s, i).value == NameWithCode(s[f..g], s[g..h])
      && forall e': nat, f': nat, g': nat, h': nat :: IsNameWithCodeMatch(s, i, e', f', g', h') ==> e' == e && f' == f && g' <= g && h' <= h
  {
    forall e': nat, f': nat, g': nat, h': nat | IsNameWithCodeMatch(s, i, e', f', g', h')
      ensures NameWithCodeAt(s, i).Some?
      ensures var e := RunEnd(s, i, Word); var f := RunEnd(s, e, Space);
        var g := RunEnd(s, f, Digit);
        e' == e && f' == f && g' <= g && h' <= SuffixGroupEnd(s, g)
    {
      NameWithCodeMatchDetermined(s, i, e', f', g', h');
    }
    if NameWithCodeAt(s, i).Some? {
      var e := RunEnd(s, i, Word);
      var f := RunEnd(s, e, Space);
      var g := RunEnd(s, f, Digit);
      assert IsNameWithCodeMatch(s, i, e, f, g, SuffixGroupEnd(s, g));
    }
  }

  /** The number of a successful attempt is a non-empty run of digits. */
  lemma NumberIsDigitRun(s: string, i: nat)
    requires i <= |s| && NameWithCodeAt(s, i).Some?
    ensures |NameWithCodeAt(s, i).value.number| > 0 && AllDigits(NameWithCodeAt(s, i).value.number)
  {
    var f := RunEnd(s, RunEnd(s, i, Word), Space);
    var g := RunEnd(s, f, Digit);
    assert NameWithCodeAt(s, i).value.number == s[f..g];
    assert forall k :: 0 <= k < g - f ==> s[f..g][k] == s[f + k];
  }

  /** A match at `i` fixes the word and whitespace runs, and neither its digit run nor its suffix group is longer than the greedy ones. */
  lemma NameWithCodeMatchDetermined(s: string, i: nat, e: nat, f: nat, g: nat, h: nat)
    requires IsNameWithCodeMatch(s, i, e, f, g, h)
    ensures NameWithCodeAt(s, i).Some?
    ensures RunEnd(s, i, Word) == e && RunEnd(s, e, Space) == f
    ensures g <= RunEnd(s, f, Digit) && h <= SuffixGroupEnd(s, RunEnd(s, f, Digit))
  {
    assert IsSpace(s[e]) && IsDigit(s[f]);
    assert !IsWordChar(s[e]) && !IsSpace(s[f]);
    RunEndAt(s, i, e, Word);
    RunEndAt(s, e, f, Space);
    var g0 := RunEnd(s, f, Digit);
    assert h > g ==> IsUpper(s[g..h][0]);
    if h > g && g == g0 {
      SuffixGroupMaximal(s, g, h);
    }
  }

  /**
    Where the leftmost match at or after `i` starts: no match starts between
    `i` and there, and when there is no match there either, it is |s| and
    the pattern matches nowhere from `i` on.
   */
  function FirstMatchPosition(s: string, i: nat): (j: nat)
    requires i <= |s|
    ensures i <= j <= |s|
    ensures forall k :: i <= k < j ==> NameWithCodeAt(s, k).None?
    ensures NameWithCodeAt(s, j).None? ==> j == |s|
    decreases |s| - i
  {
    if i == |s| || NameWithCodeAt(s, i).Some? then i else FirstMatchPosition(s, i + 1)
  }

  /** `matchAll(normalNameWithCodePattern)[0]`: the leftmost match in the header text. */
  /** When the attempt at `i` succeeds, the leftmost match from `i` on starts at `i`. */
  lemma FirstMatchAtAttempt(s: string, i: nat)
    requires i <= |s| && NameWithCodeAt(s, i).Some?
    ensures FirstMatchPosition(s, i) == i
  {
  }

  function FirstNameWithCode(s: string): Option<NameWithCode> {
    NameWithCodeAt(s, FirstMatchPosition(s, 0))
  }

  /**
    The header match, stated without the search: there is none exactly when
    the pattern matches nowhere in `s`; otherwise its groups are those of the
    match JavaScript reports, which starts before or with every other match
    and, among the matches at its start, has the longest number and the
    longest suffix group.
   */
  lemma FirstNameWithCodeSpec(s: string)
    ensures FirstNameWithCode(s).None? <==> forall i: nat, e: nat, f: nat, g: nat, h: nat :: !IsNameWithCodeMatch(s, i, e, f, g, h)
    ensures FirstNameWithCode(s).Some? ==>
      exists i: nat, e: nat, f: nat, g: nat, h: nat ::
        && IsNameWithCodeMatch(s, i, e, f, g, h)
        && FirstNameWithCode(s).value == NameWithCode(s[f..g], s[g..h])
        && (g == |s| || !IsDigit(s[g]))
        && h == SuffixGroupEnd(s, g)
        && forall i': nat, e': nat, f': nat, g': nat, h': nat :: IsNameWithCodeMatch(s, i', e', f', g', h') ==>
             i <= i' && (i' == i ==> g' <= g && h' <= h)
  {
    var j := FirstMatchPosition(s, 0);
    forall i: nat, e: nat, f: nat, g: nat, h: nat | IsNameWithCodeMatch(s, i, e, f, g, h)
      ensures j <= i && NameWithCodeAt(s, j).Some?
    {
      NameWithCodeMatchDetermined(s, i, e, f, g, h);
    }
    NameWithCodeAtSpec(s, j);
  }

  /** A header text without a digit has no course code, so parsing it throws `HeaderPatternMismatch`. */
  lemma NoDigitNoMatch(s: string)
    requires forall k :: 0 <= k < |s| ==> !IsDigit(s[k])
    ensures FirstNameWithCode(s).None?
  {
    forall i: nat, e: nat, f: nat, g: nat, h: nat
      ensures !IsNameWithCodeMatch(s, i, e, f, g, h)
    {
      if f < |s| {
        assert !IsDigit(s[f]);
      }
    }
    FirstNameWithCodeSpec(s);
  }

  /**
    Every text made of a word, whitespace and digits has a course code: the
    number is all of the digits, and there is no suffix group.
   */
  lemma WordSpaceDigitsMatch(w: string, sp: string, d: string)
    requires |w| > 0 && |sp| > 0 && |d| > 0
    requires forall k :: 0 <= k < |w| ==> IsWordChar(w[k])
    requires forall k :: 0 <= k < |sp| ==> IsSpace(sp[k])
    requires AllDigits(d)
    ensures FirstNameWithCode(w + sp + d) == Some(NameWithCode(d, ""))
  {
    var s := w + sp + d;
    var f := |w| + |sp|;
    assert forall k :: 0 <= k < |w| ==> s[k] == w[k];
    assert forall k :: |w| <= k < f ==> s[k] == sp[k - |w|];
    assert forall k :: f <= k < |s| ==> s[k] == d[k - f];
    assert IsNameWithCodeMatch(s, 0, |w|, f, |s|, |s|);
    NameWithCodeMatchDetermined(s, 0, |w|, f, |s|, |s|);
    FirstMatchAtAttempt(s, 0);
    assert RunEnd(s, f, Digit) == |s| && SuffixGroupEnd(s, |s|) == |s|;
    assert s[f..|s|] == d by {
      assert forall k :: 0 <= k < |d| ==> s[f..|s|][k] == d[k];
    }
    assert s[|s|..|s|] == "";
    assert NameWithCodeAt(s, 0) == Some(NameWithCode(s[f..|s|], s[|s|..|s|]));
  }

  /** Each capital letter of `s`, as a one-letter string, in order. */
  function Capitals(s: string): (r: seq<string>)
    ensures |r| <= |s|
    ensures forall k :: 0 <= k < |r| ==> |r[k]| == 1 && IsUpper(r[k][0])
  {
    if s == [] then []
    else
      var c := s[|s| - 1];
      Capitals(s[..|s| - 1]) + (if IsUpper(c) then [[c]] else [])
  }

  /** One more character of a prefix adds its capital, if it is one. */
  lemma CapitalsOfPrefix(s: string, pos: nat)
    requires pos < |s|
    ensures Capitals(s[..pos + 1]) == Capitals(s[..pos]) + (if IsUpper(s[pos]) then [[s[pos]]] else [])
  {
    CapitalsAppend(s[..pos], s[pos]);
    assert s[..pos + 1] == s[..pos] + [s[pos]];
  }

  lemma CapitalsAppend(s: string, c: char)
    ensures Capitals(s + [c]) == Capitals(s) + (if IsUpper(c) then [[c]] else [])
  {
    assert (s + [c])[..|s|] == s;
  }

  /**
    `extractSuffixesFromListInHeader` (scraper/src/academicCalendar.ts:164-175,
    scraper/src/main.ts:246-257): walks the matches of `(?:([A-Z])\/?)`
    left to right and pushes each captured capital. The result is every
    capital of the suffix list, in order: slashes are dropped and repeated
    letters kept.
   */
  method ExtractSuffixes(suffixList: string) returns (listOfSuffixes: seq<string>)
    ensures listOfSuffixes == Capitals(suffixList)
  {
    listOfSuffixes := [];
    var pos := 0;
    while pos < |suffixList|
      invariant pos <= |suffixList|
      invariant listOfSuffixes == Capitals(suffixList[..pos])
    {
      var c := suffixList[pos];
      CapitalsOfPrefix(suffixList, pos);
      if IsUpper(c) {
        // a match: the capital, and the slash after it if there is one
        listOfSuffixes := listOfSuffixes + [[c]];
        pos := pos + 1;
        if pos < |suffixList| && suffixList[pos] == '/' {
          CapitalsOfPrefix(suffixList, pos);
          pos := pos + 1;
        }
      } else {
        // no match starts here; `matchAll` moves on one character
        pos := pos + 1;
      }
    }
    assert suffixList[..pos] == suffixList;
  }

  /** The parsed header: the course number and the suffix letters. */
  datatype CourseCode = CourseCode(courseNumber: string, validSuffixes: seq<string>)

  /**
    The header part of `getCourseInformationFromLink`
    (scraper/src/academicCalendar.ts:150-179, scraper/src/main.ts:232-261):
    it throws when the header text has no match, and otherwise takes the
    number and the suffix letters of the leftmost match.
   */
  method ParseCourseHeader(normalNameWithCourseCode: string) returns (r: Result<CourseCode>)
    ensures r.Err? <==> FirstNameWithCode(normalNameWithCourseCode).None?
    ensures r.Err? ==> r.error == HeaderPatternMismatch
    ensures r.Ok? ==>
      var m := FirstNameWithCode(normalNameWithCourseCode).value;
      r.value == CourseCode(m.number, Capitals(m.suffixGroup))
  {
    var matches := FirstNameWithCode(normalNameWithCourseCode);
    if matches.None? {
      return Err(HeaderPatternMismatch);
    }
    var validSuffixes := ExtractSuffixes(matches.value.suffixGroup);
    return Ok(CourseCode(matches.value.number, validSuffixes));
  }

  /** "CALC 1000A/B": number "1000", suffixes A and B. */
  lemma HeaderExampleWithSuffixes(s: string)
    requires s == "CALC 1000A/B"
    ensures FirstNameWithCode(s) == Some(NameWithCode("1000", "A/B"))
    ensures Capitals("A/B") == ["A", "B"]
  {
    MatchAtCalc(s);
    assert FirstMatchPosition(s, 0) == 0;
    CapitalsOfSlashList();
  }

  lemma MatchAtCalc(s: string)
    requires s == "CALC 1000A/B"
    ensures NameWithCodeAt(s, 0) == Some(NameWithCode("1000", "A/B"))
  {
    RunEndAt(s, 0, 4, Word);
    RunEndAt(s, 4, 5, Space);
    RunEndAt(s, 5, 9, Digit);
    assert SuffixGroupEnd(s, 11) == 12;
    assert SuffixGroupEnd(s, 9) == 12;
    assert s[5..9] == "1000";
    assert s[9..12] == "A/B";
  }

  lemma CapitalsOfSlashList()
    ensures Capitals("A/B") == ["A", "B"]
  {
    assert "A/B"[..2] == "A/";
    assert "A/"[..1] == "A";
    assert "A"[..0] == [];
  }

  /** "MATH 1225": number "1225", no suffix group, so no suffixes. */
  lemma HeaderExampleWithoutSuffixes(s: string)
    requires s == "MATH 1225"
    ensures FirstNameWithCode(s) == Some(NameWithCode("1225", ""))
    ensures Capitals("") == []
  {
    RunEndAt(s, 0, 4, Word);
    RunEndAt(s, 4, 5, Space);
    RunEndAt(s, 5, 9, Digit);
    assert s[5..9] == "1225";
    assert SuffixGroupEnd(s, 9) == 9;
    assert s[9..9] == "";
  }

  /** A match can start in the middle of the text: in "Applied Calculus 1000A" the first word is not followed by a number. */
  lemma HeaderExampleLaterWord(s: string)
    requires s == "Applied Calculus 1000A"
    ensures FirstNameWithCode(s).Some? && FirstNameWithCode(s).value.number == "1000"
  {
    forall i | 0 <= i < 8 ensures NameWithCodeAt(s, i).None? {
      NoMatchInApplied(s, i);
    }
    HeaderSkip(s, 0, 8);
    MatchAtCalculus(s);
    assert FirstMatchPosition(s, 8) == 8;
  }

  lemma NoMatchInApplied(s: string, i: nat)
    requires s == "Applied Calculus 1000A" && i < 8
    ensures NameWithCodeAt(s, i).None?
  {
    assert IsSpace(s[7]) && !IsWordChar(s[7]) && !IsDigit(s[8]);
    if i < 7 {
      assert forall m :: i <= m < 7 ==> IsWordChar(s[m]);
      RunEndAt(s, i, 7, Word);
      RunEndAt(s, 7, 8, Space);
    }
  }

  lemma MatchAtCalculus(s: string)
    requires s == "Applied Calculus 1000A"
    ensures NameWithCodeAt(s, 8).Some? && NameWithCodeAt(s, 8).value.number == "1000"
  {
    RunEndAt(s, 8, 16, Word);
    RunEndAt(s, 16, 17, Space);
    RunEndAt(s, 17, 21, Digit);
    assert s[17..21] == "1000";
  }

  lemma {:induction false} HeaderSkip(s: string, i: nat, j: nat)
    requires i <= j <= |s|
    requires forall k :: i <= k < j ==> NameWithCodeAt(s, k).None?
    ensures FirstMatchPosition(s, i) == FirstMatchPosition(s, j)
    decreases j - i
  {
    if i < j {
      HeaderSkip(s, i + 1, j);
    }
  }
}
