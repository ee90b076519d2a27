/**
  The subject mapping of scraper/src/subjectCodes.ts: from the camelCase
  name of a subject ("computerScience") to the code Western's timetable
  uses for it ("COMPSCI"). The mapping is generated from the `<option>`
  elements of the timetable's subject drop-down and is then only read; as
  a JavaScript object it keeps its keys in insertion order.
 */
module SubjectCodes {
  import opened Results
  import opened Chars
  import opened Dom
  import opened StringUtils
  import opened OrderedMaps

  type SubjectMapping = OrderedMap

  /** `has` (scraper/src/subjectCodes.ts:47-49): an own property of the mapping. */
  predicate Has(m: SubjectMapping, key: string) {
    key in m.values
  }

  /** `get` (scraper/src/subjectCodes.ts:55-57): the code, or `null` for an unknown key. */
  function Get(m: SubjectMapping, key: string): (r: Option<string>)
    ensures r.Some? <==> Has(m, key)
    ensures r.Some? ==> r.value == m.values[key]
  {
    if Has(m, key) then Some(m.values[key]) else None
  }

  /** `hasFromName` (scraper/src/subjectCodes.ts:51-53): `has` of the camelCase form of a display name. */
  function HasFromName(m: SubjectMapping, name: string): Result<bool> {
    var key :- CamelCase(name);
    Ok(Has(m, key))
  }

  /** `getFromName` (scraper/src/subjectCodes.ts:59-61): `get` of the camelCase form of a display name. */
  function GetFromName(m: SubjectMapping, name: string): Result<Option<string>> {
    var key :- CamelCase(name);
    Ok(Get(m, key))
  }

  /**
    `hasFromName` and `getFromName` agree: both throw exactly for a name
    without a word character, and otherwise the name is known exactly when
    `getFromName` returns a code.
   */
  lemma FromNameAgree(m: SubjectMapping, name: string)
    ensures HasFromName(m, name).Err? <==> !HasWordChar(name)
    ensures GetFromName(m, name).Err? <==> !HasWordChar(name)
    ensures HasFromName(m, name) == Ok(true) <==> GetFromName(m, name).Ok? && GetFromName(m, name).value.Some?
  {
    CamelCaseProperties(name);
  }

  lemma WordsOfScience(t: string)
    requires t == "Science"
    ensures Words(t) == ["Science"]
  {
    assert AllWordChars(t);
    WordsOfRun(t);
  }

  lemma WordsOfScienceBang(t: string)
    requires t == "Science!"
    ensures Words(t) == ["Science"]
  {
    assert forall m :: 0 <= m < 7 ==> IsWordChar(t[m]);
    WordsStartingWithRun(t, 7);
    assert t[..7] == "Science";
    WordsSkippingNonWord(t[7..]);
    assert t[7..][1..] == [];
  }

  lemma WordsAfterComputer(s: string)
    requires |s| > 8 && s[..8] == "Computer" && !IsWordChar(s[8])
    ensures Words(s) == ["Computer"] + Words(s[8..])
  {
    assert forall m :: 0 <= m < 8 ==> IsWordChar(s[..8][m]);
    WordsStartingWithRun(s, 8);
  }

  lemma WordsOfComputerScience(a: string)
    requires a == "Computer Science"
    ensures Words(a) == ["Computer", "Science"]
  {
    WordsAfterComputer(a);
    WordsSkippingNonWord(a[8..]);
    assert a[8..][1..] == a[9..];
    WordsOfScience(a[9..]);
  }

  lemma WordsOfComputerScienceBang(b: string)
    requires b == "Computer  Science!"
    ensures Words(b) == ["Computer", "Science"]
  {
    WordsAfterComputer(b);
    WordsSkippingNonWord(b[8..]);
    assert b[8..][1..] == b[9..];
    WordsSkippingNonWord(b[9..]);
    assert b[9..][1..] == b[10..];
    WordsOfScienceBang(b[10..]);
  }

  lemma CamelOfComputerScience(ws: seq<string>)
    requires ws == ["Computer", "Science"]
    ensures Concat(CamelWords(ws)) == "computerScience"
  {
    var cw := CamelWords(ws);
    assert cw[0] == "computer";
    assert cw[1] == "Science";
    assert Concat(cw) == cw[0] + Concat(cw[1..]);
    assert Concat(cw[1..]) == cw[1] + Concat(cw[2..]);
  }

  /**
    Two display names that differ only in spacing and punctuation between
    words name the same subject, and the key is the camelCase of the words.
   */
  lemma GetFromNameExample(m: SubjectMapping, a: string, b: string)
    requires a == "Computer Science" && b == "Computer  Science!"
    ensures GetFromName(m, a) == GetFromName(m, b) == Ok(Get(m, "computerScience"))
  {
    WordsOfComputerScience(a);
    WordsOfComputerScienceBang(b);
    CamelOfComputerScience(Words(a));
  }

  /**
    `getAllKeys` (scraper/src/subjectCodes.ts:66-68): `Object.keys` of the
    mapping, every key exactly once, in insertion order.
   */
  function AllKeys(m: SubjectMapping): (r: seq<string>)
    ensures |r| == |m.values|
    ensures forall k :: k in r <==> Has(m, k)
    ensures forall i, j :: 0 <= i < j < |r| ==> r[i] != r[j]
  {
    KeyCount(m);
    m.keys
  }

  /** The option has a non-empty `value` attribute (`option.attribs?.value` is truthy). */
  predicate HasValue(option: Node) {
    Attribute(option, "value").Some? && |Attribute(option, "value").value| > 0
  }

  /**
    What one `<option>` of the subject drop-down contributes: nothing, an
    error, or the (key, code) pair it sets; `OptionEntrySpec` states which.
   */
  function OptionEntry(option: Node): Result<Option<(string, string)>> {
    var value := Attribute(option, "value");
    if value.None? || |value.value| == 0 then Ok(None)
    else match FirstChild(option)
      case None => Err(SubjectOptionNoFirstChild)
      case Some(child) =>
        if child.Elem? then Err(SubjectOptionNoData)
        else
          var key :- CamelCase(child.data);
          var code :- FirstWord(value.value);
          Ok(Some((key, code)))
  }

  /**
    An option contributes nothing when its `value` attribute is missing or
    empty. Otherwise it throws "no first child" when it has no child node,
    "no data" when that child is an element, the camelCase error when the
    child's text has no word character (the key is computed before the
    code, so this error wins), and the `firstWord` error when only the value
    has none. In every other case it sets the camelCase of the child's text
    to the first word of the value.
   */
  lemma OptionEntrySpec(option: Node)
    ensures var r := OptionEntry(option);
      && (r == Ok(None) <==> !HasValue(option))
      && (r == Err(SubjectOptionNoFirstChild) <==> HasValue(option) && FirstChild(option).None?)
      && (r == Err(SubjectOptionNoData) <==>
          HasValue(option) && FirstChild(option).Some? && FirstChild(option).value.Elem?)
      && (r == Err(NoWordsInName) <==>
          HasValue(option) && FirstChild(option).Some? && !FirstChild(option).value.Elem?
          && !HasWordChar(FirstChild(option).value.data))
      && (r == Err(NoWordsInValue) <==>
          HasValue(option) && FirstChild(option).Some? && !FirstChild(option).value.Elem?
          && HasWordChar(FirstChild(option).value.data) && !HasWordChar(Attribute(option, "value").value))
      && (r.Ok? && r.value.Some? ==>
          && HasValue(option) && FirstChild(option).Some? && !FirstChild(option).value.Elem?
          && r.value.value.0 == CamelCase(FirstChild(option).value.data).value
          && r.value.value.1 == FirstWord(Attribute(option, "value").value).value)
  {
    var child := FirstChild(option);
    if HasValue(option) && child.Some? && !child.value.Elem? {
      CamelCaseProperties(child.value.data);
    }
  }

  /** The mapping after the first `n` options, or the first error thrown. */
  function GeneratedUpTo(options: seq<Node>, n: nat): Result<SubjectMapping>
    requires n <= |options|
  {
    if n == 0 then Ok(Empty)
    else
      var m :- GeneratedUpTo(options, n - 1);
      var entry :- OptionEntry(options[n - 1]);
      if entry.None? then Ok(m) else Ok(Insert(m, entry.value.0, entry.value.1))
  }

  function Generated(options: seq<Node>): Result<SubjectMapping> {
    GeneratedUpTo(options, |options|)
  }

  lemma {:induction false} ErrorStays(options: seq<Node>, k: nat, n: nat)
    requires k <= n <= |options|
    requires GeneratedUpTo(options, k).Err?
    ensures GeneratedUpTo(options, n) == GeneratedUpTo(options, k)
    decreases n - k
  {
    if k < n {
      ErrorStays(options, k, n - 1);
      ErrorStep(options, n);
    }
  }

  lemma ErrorStep(options: seq<Node>, n: nat)
    requires 0 < n <= |options| && GeneratedUpTo(options, n - 1).Err?
    ensures GeneratedUpTo(options, n) == GeneratedUpTo(options, n - 1)
  {
  }

  /** One more option extends the mapping by its entry, or its error ends the generation. */
  lemma GeneratedStep(options: seq<Node>, i: nat, m: SubjectMapping)
    requires i < |options| && GeneratedUpTo(options, i) == Ok(m)
    ensures OptionEntry(options[i]).Err? ==> Generated(options) == Err(OptionEntry(options[i]).error)
    ensures OptionEntry(options[i]) == Ok(None) ==> GeneratedUpTo(options, i + 1) == Ok(m)
    ensures OptionEntry(options[i]).Ok? && OptionEntry(options[i]).value.Some? ==>
      var (key, code) := OptionEntry(options[i]).value.value;
      GeneratedUpTo(options, i + 1) == Ok(Insert(m, key, code))
  {
    if OptionEntry(options[i]).Err? {
      ErrorStays(options, i + 1, |options|);
    }
  }

  /**
    One pass of the option loop of `generateTimetableSubjectMappingJSON`
    (scraper/src/subjectCodes.ts:32-42): the entry it adds to the mapping,
    if any, or the error it throws, as `OptionEntrySpec` states them.
   */
  method ReadOption(option: Node) returns (e: Result<Option<(string, string)>>)
    ensures e == OptionEntry(option)
  {
    var value := Attribute(option, "value");
    if value.None? || |value.value| == 0 {
      return Ok(None);
    }
    var child := FirstChild(option);
    if child.None? {
      return Err(SubjectOptionNoFirstChild);
    }
    if child.value.Elem? {
      return Err(SubjectOptionNoData);
    }
    var key := ToCamelCase(child.value.data);
    if key.Err? {
      return Err(key.error);
    }
    var code := FirstWord(value.value);
    if code.Err? {
      return Err(code.error);
    }
    e := Ok(Some((key.value, code.value)));
  }

  /**
    `generateTimetableSubjectMappingJSON` (scraper/src/subjectCodes.ts:24-45,
    copied in scraper/src/main.ts:91-112) after the page is fetched and before
    the file is written: the mapping built from the subject options, or the
    first error thrown.
   */
  method GenerateSubjectMapping(subjectOptions: seq<Node>) returns (r: Result<SubjectMapping>)
    ensures r == Generated(subjectOptions)
  {
    var mapping := Empty;
    for i := 0 to |subjectOptions|
      invariant GeneratedUpTo(subjectOptions, i) == Ok(mapping)
    {
      var entry := ReadOption(subjectOptions[i]);
      GeneratedStep(subjectOptions, i, mapping);
      if entry.Err? {
        return Err(entry.error);
      }
      if entry.value.Some? {
        mapping := Insert(mapping, entry.value.value.0, entry.value.value.1);
      }
    }
    r := Ok(mapping);
  }

  /** The code the last of the first `n` options with key `key` gives, scanning backwards. */
  function LastCodeFor(options: seq<Node>, key: string, n: nat): Option<string>
    requires n <= |options|
  {
    if n == 0 then None
    else match OptionEntry(options[n - 1])
      case Ok(Some((k, code))) => if k == key then Some(code) else LastCodeFor(options, key, n - 1)
      case _ => LastCodeFor(options, key, n - 1)
  }

  /**
    Looking a key up in a generated mapping gives the code of the LAST option
    whose name has that camelCase key; a key no option produced is unknown.
   */
  lemma {:induction false} GeneratedLookup(options: seq<Node>, n: nat, key: string)
    requires n <= |options|
    requires GeneratedUpTo(options, n).Ok?
    ensures Get(GeneratedUpTo(options, n).value, key) == LastCodeFor(options, key, n)
  {
    if n > 0 {
      GeneratedLookup(options, n - 1, key);
    }
  }

  /**
    Generation fails exactly when some option fails on its own, and it then
    throws the error of the first such option.
   */
  lemma {:induction false} GeneratedFails(options: seq<Node>, n: nat)
    requires n <= |options|
    ensures GeneratedUpTo(options, n).Err? <==> exists i :: 0 <= i < n && OptionEntry(options[i]).Err?
    ensures GeneratedUpTo(options, n).Err? ==>
      exists i :: 0 <= i < n && OptionEntry(options[i]).Err?
        && GeneratedUpTo(options, n).error == OptionEntry(options[i]).error
        && forall j :: 0 <= j < i ==> OptionEntry(options[j]).Ok?
  {
    if n > 0 {
      GeneratedFails(options, n - 1);
      if GeneratedUpTo(options, n - 1).Err? {
        FailsAfterEarlierError(options, n);
      } else {
        FailsAtLastOption(options, n);
      }
    }
  }

  /** An error among the first `n - 1` options stays the error of the first `n`. */
  lemma FailsAfterEarlierError(options: seq<Node>, n: nat)
    requires 0 < n <= |options|
    requires GeneratedUpTo(options, n - 1).Err?
    requires
      exists i :: 0 <= i < n - 1 && OptionEntry(options[i]).Err?
        && GeneratedUpTo(options, n - 1).error == OptionEntry(options[i]).error
        && forall j :: 0 <= j < i ==> OptionEntry(options[j]).Ok?
    ensures GeneratedUpTo(options, n) == GeneratedUpTo(options, n - 1)
    ensures
      exists i :: 0 <= i < n && OptionEntry(options[i]).Err?
        && GeneratedUpTo(options, n).error == OptionEntry(options[i]).error
        && forall j :: 0 <= j < i ==> OptionEntry(options[j]).Ok?
  {
    ErrorStep(options, n);
    var i :| 0 <= i < n - 1 && OptionEntry(options[i]).Err?
      && GeneratedUpTo(options, n - 1).error == OptionEntry(options[i]).error
      && forall j :: 0 <= j < i ==> OptionEntry(options[j]).Ok?;
    assert 0 <= i < n;
  }

  /** When the first `n - 1` options succeed, the `n`-th decides: its error, or success. */
  lemma FailsAtLastOption(options: seq<Node>, n: nat)
    requires 0 < n <= |options|
    requires GeneratedUpTo(options, n - 1).Ok?
    requires forall j :: 0 <= j < n - 1 ==> OptionEntry(options[j]).Ok?
    ensures GeneratedUpTo(options, n).Err? <==> OptionEntry(options[n - 1]).Err?
    ensures GeneratedUpTo(options, n).Err? ==> GeneratedUpTo(options, n).error == OptionEntry(options[n - 1]).error
  {
  }
}
