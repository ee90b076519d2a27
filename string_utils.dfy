/**
  The string helpers of scraper/src/stringUtils.ts (`toCamelCase`,
  `firstWord`), of which `stringToCamelCase` and `stripValue` in
  scraper/src/main.ts are copies. Both work over the runs of `\w`, which
  without the `u` flag is ASCII `[A-Za-z0-9_]`, so ASCII case mapping is
  the whole of `toLowerCase` / `toUpperCase` on them.
 */
module StringUtils {
  import opened Chars
  import opened Results

  predicate HasWordChar(s: string) {
    exists i :: 0 <= i < |s| && IsWordChar(s[i])
  }

  predicate AllWordChars(s: string) {
    forall i :: 0 <= i < |s| ==> IsWordChar(s[i])
  }

  /** The word characters of `s`, in order. */
  function WordChars(s: string): (r: string)
    ensures AllWordChars(r)
    ensures r == [] <==> !HasWordChar(s)
  {
    if s == [] then []
    else
      var rest := WordChars(s[1..]);
      assert HasWordChar(s) <==> IsWordChar(s[0]) || HasWordChar(s[1..]) by {
        if HasWordChar(s[1..]) {
          var i :| 0 <= i < |s[1..]| && IsWordChar(s[1..][i]);
          assert IsWordChar(s[i + 1]);
        }
        if HasWordChar(s) && !IsWordChar(s[0]) {
          var i :| 0 <= i < |s| && IsWordChar(s[i]);
          assert IsWordChar(s[1..][i - 1]);
        }
      }
      (if IsWordChar(s[0]) then [s[0]] else []) + rest
  }

  lemma {:induction false} WordCharsAppend(a: string, b: string)
    ensures WordChars(a + b) == WordChars(a) + WordChars(b)
  {
    if a != [] {
      assert (a + b)[1..] == a[1..] + b;
      WordCharsAppend(a[1..], b);
    } else {
      assert a + b == b;
    }
  }

  lemma {:induction false} WordCharsOfWordRun(w: string)
    requires AllWordChars(w)
    ensures WordChars(w) == w
  {
    if w != [] {
      WordCharsOfWordRun(w[1..]);
    }
  }

  function Concat(ws: seq<string>): string {
    if ws == [] then [] else ws[0] + Concat(ws[1..])
  }

  /**
    `s.match(/\w+/g)` (with `[]` for JavaScript's `null`): the maximal runs
    of word characters, left to right. Each run is non-empty and made of
    word characters, and together they are exactly the word characters of `s`.
   */
  function Words(s: string): (r: seq<string>)
    ensures forall k :: 0 <= k < |r| ==> |r[k]| > 0 && AllWordChars(r[k])
    ensures Concat(r) == WordChars(s)
    decreases |s|
  {
    if s == [] then []
    else if !IsWordChar(s[0]) then
      assert WordChars(s) == WordChars(s[1..]);
      Words(s[1..])
    else
      var n := RunEnd(s, 0, Word);
      assert s == s[..n] + s[n..];
      WordCharsAppend(s[..n], s[n..]);
      WordCharsOfWordRun(s[..n]);
      [s[..n]] + Words(s[n..])
  }

  /** The runs of `s` when it starts with a run of word characters `s[..n]`. */
  lemma WordsStartingWithRun(s: string, n: nat)
    requires 0 < n <= |s|
    requires forall m :: 0 <= m < n ==> IsWordChar(s[m])
    requires n == |s| || !IsWordChar(s[n])
    ensures Words(s) == [s[..n]] + Words(s[n..])
  {
    RunEndAt(s, 0, n, Word);
  }

  lemma WordsSkippingNonWord(s: string)
    requires |s| > 0 && !IsWordChar(s[0])
    ensures Words(s) == Words(s[1..])
  {
  }

  lemma WordsOfRun(t: string)
    requires |t| > 0 && AllWordChars(t)
    ensures Words(t) == [t]
  {
    WordsStartingWithRun(t, |t|);
    assert t[..|t|] == t;
    assert Words(t[|t|..]) == [];
  }

  /** `toLowerCase` of a word. */
  function LowerAll(w: string): (r: string)
    ensures |r| == |w|
    ensures forall i :: 0 <= i < |w| ==> r[i] == ToLower(w[i])
  {
    seq(|w|, i requires 0 <= i < |w| => ToLower(w[i]))
  }

  /** `w.charAt(0).toUpperCase() + w.substring(1)`. */
  function Capitalize(w: string): (r: string)
    ensures |r| == |w|
  {
    if w == [] then [] else [ToUpper(w[0])] + w[1..]
  }

  /** The words after the rewrite of `toCamelCase`: the first lowercased, every later one capitalised. */
  function CamelWords(ws: seq<string>): (r: seq<string>)
    ensures |r| == |ws|
  {
    seq(|ws|, j requires 0 <= j < |ws| => if j == 0 then LowerAll(ws[0]) else Capitalize(ws[j]))
  }

  /** What `toCamelCase` returns or throws. */
  function CamelCase(s: string): Result<string> {
    var ws := Words(s);
    if ws == [] then Err(NoWordsInName) else Ok(Concat(CamelWords(ws)))
  }

  /**
    `toCamelCase` (scraper/src/stringUtils.ts:4-16): the array of words is
    rewritten one element at a time and then joined. It throws exactly when the input has
    no word character; otherwise the result is made of word characters only
    and is, up to letter case, the word characters of the input in order
    (spaces and punctuation are dropped).
   */
  method ToCamelCase(s: string) returns (r: Result<string>)
    ensures r == CamelCase(s)
    ensures r.Err? <==> !HasWordChar(s)
    ensures r.Ok? ==> AllWordChars(r.value) && LowerAll(r.value) == LowerAll(WordChars(s))
  {
    var words := Words(s);
    CamelCaseProperties(s);
    if words == [] {
      return Err(NoWordsInName);
    }
    ghost var matched := words;
    words := words[0 := LowerAll(words[0])];
    for i := 1 to |words|
      invariant |words| == |matched|
      invariant forall j :: 0 <= j < i ==> words[j] == CamelWords(matched)[j]
      invariant forall j :: i <= j < |words| ==> words[j] == matched[j]
    {
      words := words[i := Capitalize(words[i])];
    }
    assert words == CamelWords(matched);
    r := Ok(Concat(words));
  }

  lemma LowerAllIdempotent(w: string)
    ensures LowerAll(LowerAll(w)) == LowerAll(w)
  {
  }

  lemma LowerAllCapitalize(w: string)
    requires AllWordChars(w)
    ensures LowerAll(Capitalize(w)) == LowerAll(w)
    ensures AllWordChars(Capitalize(w)) && AllWordChars(LowerAll(w))
  {
    if w != [] {
      var c := Capitalize(w);
      assert c[0] == ToUpper(w[0]);
      forall i | 1 <= i < |w| ensures c[i] == w[i] {}
    }
  }

  lemma {:induction false} LowerAllConcat(ws: seq<string>)
    ensures LowerAll(Concat(ws)) == Concat(seq(|ws|, j requires 0 <= j < |ws| => LowerAll(ws[j])))
  {
    if ws != [] {
      LowerAllConcat(ws[1..]);
      var lw := seq(|ws|, j requires 0 <= j < |ws| => LowerAll(ws[j]));
      assert lw[1..] == seq(|ws[1..]|, j requires 0 <= j < |ws[1..]| => LowerAll(ws[1..][j]));
      LowerAllAppend(ws[0], Concat(ws[1..]));
      assert Concat(lw) == lw[0] + Concat(lw[1..]);
    }
  }

  lemma LowerAllAppend(a: string, b: string)
    ensures LowerAll(a + b) == LowerAll(a) + LowerAll(b)
  {
  }

  lemma {:induction false} AllWordCharsConcat(ws: seq<string>)
    requires forall k :: 0 <= k < |ws| ==> AllWordChars(ws[k])
    ensures AllWordChars(Concat(ws))
  {
    if ws != [] {
      AllWordCharsConcat(ws[1..]);
    }
  }

  /**
    The camelCase key is made of word characters only, is as long as the
    word characters of the input, and equals them up to letter case.
   */
  lemma CamelCaseProperties(s: string)
    ensures CamelCase(s).Err? <==> !HasWordChar(s)
    ensures CamelCase(s).Ok? ==>
      var r := CamelCase(s).value;
      AllWordChars(r) && |r| == |WordChars(s)| && LowerAll(r) == LowerAll(WordChars(s))
  {
    var ws := Words(s);
    if ws == [] {
      assert Concat(ws) == [];
    } else {
      var cw := CamelWords(ws);
      forall j | 0 <= j < |ws| ensures LowerAll(cw[j]) == LowerAll(ws[j]) && AllWordChars(cw[j]) {
        LowerAllCapitalize(ws[j]);
        LowerAllIdempotent(ws[j]);
      }
      AllWordCharsConcat(cw);
      LowerAllConcat(cw);
      LowerAllConcat(ws);
      assert seq(|cw|, j requires 0 <= j < |cw| => LowerAll(cw[j]))
          == seq(|ws|, j requires 0 <= j < |ws| => LowerAll(ws[j]));
      assert Concat(ws) != [] by {
        assert |ws[0]| > 0;
        assert Concat(ws) == ws[0] + Concat(ws[1..]);
      }
    }
  }

  /** `s[i..i + |w|]` is the leftmost maximal run of word characters of `s`. */
  predicate LeftmostRun(s: string, i: nat, w: string) {
    && i + |w| <= |s|
    && s[i..i + |w|] == w
    && (forall k :: 0 <= k < i ==> !IsWordChar(s[k]))
    && (i + |w| == |s| || !IsWordChar(s[i + |w|]))
  }

  /** The position of the first word character at or after `i`, or |s|. */
  function FirstWordStart(s: string, i: nat): (j: nat)
    requires i <= |s|
    ensures i <= j <= |s|
    ensures forall k :: i <= k < j ==> !IsWordChar(s[k])
    ensures j < |s| ==> IsWordChar(s[j])
    decreases |s| - i
  {
    if i == |s| || IsWordChar(s[i]) then i else FirstWordStart(s, i + 1)
  }

  /**
    `firstWord` (scraper/src/stringUtils.ts:23-29): `s.match(/\w+/)[0]`. It
    throws exactly when the input has no word character; otherwise it
    returns the leftmost maximal run of word characters, a non-empty
    substring of the input.
   */
  function FirstWord(s: string): (r: Result<string>)
    ensures r.Err? <==> !HasWordChar(s)
    ensures r.Err? ==> r.error == NoWordsInValue
    ensures r.Ok? ==> |r.value| > 0 && AllWordChars(r.value) && exists i :: LeftmostRun(s, i, r.value)
  {
    var i := FirstWordStart(s, 0);
    if i == |s| then Err(NoWordsInValue)
    else
      var j := RunEnd(s, i, Word);
      assert LeftmostRun(s, i, s[i..j]);
      Ok(s[i..j])
  }

  /** `firstWord` is the first of the runs `match(/\w+/g)` finds. */
  lemma {:induction false} FirstWordIsFirstRun(s: string)
    requires Words(s) != []
    ensures FirstWord(s) == Ok(Words(s)[0])
    decreases |s|
  {
    if IsWordChar(s[0]) {
      assert FirstWordStart(s, 0) == 0;
      assert s[0..RunEnd(s, 0, Word)] == s[..RunEnd(s, 0, Word)];
    } else {
      WordsSkippingNonWord(s);
      FirstWordIsFirstRun(s[1..]);
      FirstWordSkip(s);
    }
  }

  /** A leading non-word character does not change the first word. */
  lemma FirstWordSkip(s: string)
    requires |s| > 0 && !IsWordChar(s[0])
    ensures FirstWord(s) == FirstWord(s[1..])
  {
    var t := s[1..];
    var i := FirstWordStart(t, 0);
    FirstWordStartShift(s, 0);
    assert FirstWordStart(s, 0) == i + 1;
    if i < |t| {
      RunEndShift(s, i);
      var e := RunEnd(t, i, Word);
      assert t[i..e] == s[i + 1..e + 1];
      assert FirstWord(t) == Ok(t[i..e]);
      assert FirstWord(s) == Ok(s[i + 1..e + 1]);
    } else {
      assert FirstWord(t) == Err(NoWordsInValue);
      assert FirstWord(s) == Err(NoWordsInValue);
    }
  }

  lemma {:induction false} FirstWordStartShift(s: string, i: nat)
    requires i < |s|
    ensures FirstWordStart(s, i + 1) == FirstWordStart(s[1..], i) + 1
    decreases |s| - i
  {
    if i + 1 < |s| && !IsWordChar(s[i + 1]) {
      assert !IsWordChar(s[1..][i]);
      FirstWordStartShift(s, i + 1);
    }
  }

  lemma {:induction false} RunEndShift(s: string, i: nat)
    requires i < |s|
    ensures RunEnd(s[1..], i, Word) + 1 == RunEnd(s, i + 1, Word)
    decreases |s| - i
  {
    if i + 1 < |s| && IsWordChar(s[i + 1]) {
      assert s[1..][i] == s[i + 1];
      RunEndShift(s, i + 1);
    }
  }

  /** `firstWord` is idempotent: the word it returns is its own first word. */
  lemma FirstWordIdempotent(s: string)
    requires FirstWord(s).Ok?
    ensures FirstWord(FirstWord(s).value) == FirstWord(s)
  {
    var w := FirstWord(s).value;
    assert IsWordChar(w[0]);
    assert FirstWordStart(w, 0) == 0;
    assert RunEnd(w, 0, Word) == |w|;
    assert w[0..|w|] == w;
  }
}
