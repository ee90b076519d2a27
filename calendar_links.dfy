/**
  Links to course-information pages on Western's academic calendar, such as
  `Courses.cfm?CourseAcadCalendarID=MAIN_022436_1&SelectedCalendar=Live&ArchiveID=`:
  which links and anchors are accepted, the campus and the course id a link
  carries, and the collection of the links of one subject
  (scraper/src/academicCalendar.ts:61-100, 257-265; the older collector in
  scraper/src/main.ts:160-182).

  Each pattern is matched from its leftmost starting position. At a fixed
  start the greedy `[A-Z]+` and `\d+` runs are always followed by a
  character outside their class (`_` or `&`), so only their maximal runs can
  succeed; the lazy `.+?` needs at least one character, may not cross a line
  terminator, and succeeds when the literal tail follows at some end.
 */
module CalendarLinks {
  import opened Results
  import opened Chars
  import opened Dom
  import opened OrderedMaps

  const IdLabel := "Courses.cfm?CourseAcadCalendarID="
  const LinkTail := "&SelectedCalendar=Live&ArchiveID="
  const MainCampus := "MAIN_"
  const CalendarSite := "https://www.westerncalendar.uwo.ca/"

  /** `.+?&SelectedCalendar=Live&ArchiveID=` matches from `p`, its `.+?` ending at `e`. */
  ghost predicate IsTail(t: string, p: nat, e: nat) {
    && p < e <= |t|
    && NoLineTerminator(t, p, e)
    && LiteralAt(t, e, LinkTail)
  }

  /** The lazy `.+?` has consumed `t[p..e]`: it tries the tail at `e`, then takes one more character. */
  function LazyTailFrom(t: string, p: nat, e: nat): bool
    requires p < e <= |t|
    decreases |t| - e
  {
    if LiteralAt(t, e, LinkTail) then true
    else if e < |t| && !IsLineTerminator(t[e]) then LazyTailFrom(t, p, e + 1)
    else false
  }

  /** Having taken `t[p..e]`, the lazy `.+?` succeeds exactly when the tail follows at `e` or at some later end. */
  lemma {:induction false} LazyTailFromSpec(t: string, p: nat, e: nat)
    requires p < e <= |t|
    requires NoLineTerminator(t, p, e)
    ensures LazyTailFrom(t, p, e) <==> exists e' :: e <= e' && IsTail(t, p, e')
    decreases |t| - e
  {
    if LiteralAt(t, e, LinkTail) {
      assert IsTail(t, p, e);
    } else if e < |t| && !IsLineTerminator(t[e]) {
      LazyTailFromSpec(t, p, e + 1);
      assert forall e' :: e <= e' && IsTail(t, p, e') ==> e + 1 <= e';
    } else {
      assert forall e' :: e <= e' && IsTail(t, p, e') ==> e' > e && !IsLineTerminator(t[e]);
    }
  }

  /** Whether the lazy tail matches from `p`. */
  predicate HasTail(t: string, p: nat)
    requires p <= |t|
  {
    p < |t| && !IsLineTerminator(t[p]) && LazyTailFrom(t, p, p + 1)
  }

  /** A tail ending at any `e` makes the lazy search succeed (at `e` or sooner). */
  lemma TailFound(t: string, p: nat, e: nat)
    requires IsTail(t, p, e)
    ensures HasTail(t, p)
  {
    LazyTailReaches(t, p, p + 1, e);
    assert !IsLineTerminator(t[p]) by {
      assert p < e && NoLineTerminator(t, p, e);
    }
  }

  /** Having taken `t[p..e']`, the lazy `.+?` reaches a tail at `e` unless it finds one sooner. */
  lemma {:induction false} LazyTailReaches(t: string, p: nat, e': nat, e: nat)
    requires p < e' <= e && IsTail(t, p, e)
    ensures LazyTailFrom(t, p, e')
    decreases e - e'
  {
    if !LiteralAt(t, e', LinkTail) {
      assert e' < e && !IsLineTerminator(t[e']);
      LazyTailReaches(t, p, e' + 1, e);
    }
  }

  lemma HasTailSpec(t: string, p: nat)
    requires p <= |t|
    ensures HasTail(t, p) <==> exists e :: IsTail(t, p, e)
  {
    if p < |t| && !IsLineTerminator(t[p]) {
      LazyTailFromSpec(t, p, p + 1);
    } else {
      assert forall e :: IsTail(t, p, e) ==> p < |t| && !IsLineTerminator(t[p]);
    }
  }

  // ---- `getLocationFromLink` and `isLinkOfCorrectType` ----

  /** `Courses\.cfm\?CourseAcadCalendarID=[A-Z]+_` matches at `i`, with its `_` at `u`. */
  ghost predicate IsCampus(t: string, i: nat, u: nat) {
    && LiteralAt(t, i, IdLabel)
    && i + |IdLabel| < u < |t|
    && AllIn(t, i + |IdLabel|, u, Upper)
    && t[u] == '_'
  }

  /** Where the `_` after the campus is, when the id label and a campus start at `i`. */
  function CampusEnd(t: string, i: nat): (r: Option<nat>)
    requires i <= |t|
    ensures r.Some? ==> IsCampus(t, i, r.value)
  {
    if !LiteralAt(t, i, IdLabel) then None
    else
      var u := RunEnd(t, i + |IdLabel|, Upper);
      if i + |IdLabel| < u < |t| && t[u] == '_' then Some(u) else None
  }

  /** The capital run cannot stop early: `_` is where it ends. */
  lemma CampusDetermined(t: string, i: nat, u: nat)
    requires IsCampus(t, i, u)
    ensures CampusEnd(t, i) == Some(u)
  {
    RunEndAt(t, i + |IdLabel|, u, Upper);
  }

  /**
    The attempt of `Courses\.cfm\?CourseAcadCalendarID=([A-Z]+)_.+?&SelectedCalendar=Live&ArchiveID=`
    at position `i`, giving its capture: the campus.
   */
  function LocationAt(t: string, i: nat): (r: Option<string>)
    requires i <= |t|
    ensures r.Some? ==> |r.value| > 0 && forall k :: 0 <= k < |r.value| ==> IsUpper(r.value[k])
  {
    match CampusEnd(t, i)
    case None => None
    case Some(u) => if HasTail(t, u + 1) then Some(t[i + |IdLabel|..u]) else None
  }

  /** The location pattern matches at `i`, its capital run ending at `u` and its `.+?` at `e`. */
  ghost predicate IsLocationMatch(t: string, i: nat, u: nat, e: nat) {
    IsCampus(t, i, u) && IsTail(t, u + 1, e)
  }

  lemma LocationAtSpec(t: string, i: nat)
    requires i <= |t|
    ensures LocationAt(t, i).Some? ==>
      exists u: nat, e: nat :: IsLocationMatch(t, i, u, e) && LocationAt(t, i).value == t[i + |IdLabel|..u]
    ensures forall u: nat, e: nat :: IsLocationMatch(t, i, u, e) ==> LocationAt(t, i) == Some(t[i + |IdLabel|..u])
  {
    if LocationAt(t, i).Some? {
      LocationAtWitness(t, i);
    }
    forall u: nat, e: nat | IsLocationMatch(t, i, u, e) ensures LocationAt(t, i) == Some(t[i + |IdLabel|..u]) {
      CampusDetermined(t, i, u);
      TailFound(t, u + 1, e);
    }
  }

  lemma LocationAtWitness(t: string, i: nat)
    requires i <= |t| && LocationAt(t, i).Some?
    ensures exists u: nat, e: nat :: IsLocationMatch(t, i, u, e) && LocationAt(t, i).value == t[i + |IdLabel|..u]
  {
    var u := CampusEnd(t, i).value;
    HasTailSpec(t, u + 1);
    var e :| IsTail(t, u + 1, e);
    assert IsLocationMatch(t, i, u, e);
  }

  /** Where the leftmost location match starts; |t| when there is none. */
  function FirstLocationPosition(t: string, i: nat): (j: nat)
    requires i <= |t|
    ensures i <= j <= |t|
    ensures forall k :: i <= k < j ==> LocationAt(t, k).None?
    ensures LocationAt(t, j).None? ==> j == |t|
    decreases |t| - i
  {
    if i == |t| || LocationAt(t, i).Some? then i else FirstLocationPosition(t, i + 1)
  }

  /** `getLocationFromLink`: the campus of the first match, or `null` when the link does not match. */
  function LocationFromLink(link: string): (r: Option<string>)
    ensures r.Some? ==> |r.value| > 0 && forall k :: 0 <= k < |r.value| ==> IsUpper(r.value[k])
  {
    LocationFromSpec(link, 0);
    LocationFrom(link, 0)
  }

  function LocationFrom(t: string, i: nat): Option<string>
    requires i <= |t|
    decreases |t| - i
  {
    if i == |t| || LocationAt(t, i).Some? then LocationAt(t, i) else LocationFrom(t, i + 1)
  }

  lemma {:induction false} LocationFromSpec(t: string, i: nat)
    requires i <= |t|
    ensures LocationFrom(t, i) == LocationAt(t, FirstLocationPosition(t, i))
    decreases |t| - i
  {
    if i < |t| && LocationAt(t, i).None? {
      LocationFromSpec(t, i + 1);
      assert FirstLocationPosition(t, i) == FirstLocationPosition(t, i + 1);
    }
  }

  /**
    The location is `null` exactly when the pattern matches nowhere in the
    link; otherwise it is the capital run of a match that no other match
    precedes.
   */
  lemma LocationFromLinkSpec(link: string)
    ensures LocationFromLink(link).None? <==> forall i: nat, u: nat, e: nat :: !IsLocationMatch(link, i, u, e)
    ensures LocationFromLink(link).Some? ==>
      exists i: nat, u: nat, e: nat ::
        && IsLocationMatch(link, i, u, e)
        && LocationFromLink(link).value == link[i + |IdLabel|..u]
        && forall i': nat, u': nat, e': nat :: IsLocationMatch(link, i', u', e') ==> i <= i'
  {
    var j := FirstLocationPosition(link, 0);
    LocationFromSpec(link, 0);
    LocationAtSpec(link, j);
    forall i: nat, u: nat, e: nat | IsLocationMatch(link, i, u, e) ensures j <= i && LocationAt(link, j).Some? {
      LocationAtSpec(link, i);
    }
  }

  /**
    `isLinkOfCorrectType`: the link contains a calendar-id link of any
    campus. Its pattern differs from the location pattern only in what it
    captures, so it accepts a link exactly when a location is found.
   */
  predicate IsLinkOfCorrectType(link: string) {
    LocationFromLink(link).Some?
  }

  /** `isLinkOfCorrectType` accepts a link exactly when the pattern matches at some position of it. */
  lemma IsLinkOfCorrectTypeSpec(link: string)
    ensures IsLinkOfCorrectType(link) <==> exists i: nat, u: nat, e: nat :: IsLocationMatch(link, i, u, e)
  {
    LocationFromLinkSpec(link);
  }

  // ---- `getCourseIdFromLink` ----

  /** After the campus's `_` at `u`: the id up to `d`, `_`, digits up to `n`, then the tail. */
  ghost predicate IsIdDigits(t: string, u: nat, d: nat, n: nat) {
    && u + 1 < d < n
    && LiteralAt(t, n, LinkTail)
    && AllIn(t, u + 1, d, Digit)
    && t[d] == '_'
    && d + 1 < n
    && AllIn(t, d + 1, n, Digit)
  }

  /** Where the id after the campus's `_` at `u` ends, when `(\d+)_\d+` and the tail follow. */
  function IdEnd(t: string, u: nat): (r: Option<nat>)
    requires u < |t|
    ensures r.Some? ==> u + 1 < r.value < |t| && AllIn(t, u + 1, r.value, Digit)
  {
    var d := RunEnd(t, u + 1, Digit);
    if !(u + 1 < d < |t| && t[d] == '_') then None
    else
      var n := RunEnd(t, d + 1, Digit);
      if d + 1 < n && LiteralAt(t, n, LinkTail) then Some(d) else None
  }

  /** Both digit runs are maximal (each is followed by `_` or `&`), so a match is the one `IdEnd` finds. */
  lemma IdEndDetermined(t: string, u: nat, d: nat, n: nat)
    requires u < |t| && IsIdDigits(t, u, d, n)
    ensures IdEnd(t, u) == Some(d)
  {
    DigitRunTo(t, u + 1, d);
    LiteralAtHead(t, n, LinkTail);
    DigitRunTo(t, d + 1, n);
    IdEndAt(t, u, d, n);
  }

  lemma IdEndAt(t: string, u: nat, d: nat, n: nat)
    requires u + 1 < d < |t| && t[d] == '_' && RunEnd(t, u + 1, Digit) == d
    requires d + 1 < n && RunEnd(t, d + 1, Digit) == n && LiteralAt(t, n, LinkTail)
    ensures IdEnd(t, u) == Some(d)
  {
  }

  /** A run of digits followed by a non-digit ends there. */
  lemma DigitRunTo(t: string, a: nat, b: nat)
    requires a <= b < |t| && AllIn(t, a, b, Digit) && !IsDigit(t[b])
    ensures RunEnd(t, a, Digit) == b
  {
    RunEndAt(t, a, b, Digit);
  }

  lemma IdEndSpec(t: string, u: nat)
    requires u < |t|
    ensures IdEnd(t, u).Some? ==> exists n: nat :: IsIdDigits(t, u, IdEnd(t, u).value, n)
  {
    if IdEnd(t, u).Some? {
      var d := RunEnd(t, u + 1, Digit);
      assert u + 1 < d < |t| && t[d] == '_';
      var n := RunEnd(t, d + 1, Digit);
      assert d + 1 < n && LiteralAt(t, n, LinkTail);
      assert AllIn(t, u + 1, d, Digit) && AllIn(t, d + 1, n, Digit);
      assert IsIdDigits(t, u, d, n);
    }
  }

  /**
    The attempt of
    `Courses\.cfm\?CourseAcadCalendarID=[A-Z]+_(\d+)_\d+&SelectedCalendar=Live&ArchiveID=`
    at position `i`, giving its capture: the course id.
   */
  function IdAt(t: string, i: nat): (r: Option<string>)
    requires i <= |t|
    ensures r.Some? ==> |r.value| > 0 && forall k :: 0 <= k < |r.value| ==> IsDigit(r.value[k])
  {
    match CampusEnd(t, i)
    case None => None
    case Some(u) =>
      match IdEnd(t, u)
      case None => None
      case Some(d) => Some(t[u + 1..d])
  }

  /** The id pattern matches at `i`: the campus up to `u`, then the digits. */
  ghost predicate IsIdMatch(t: string, i: nat, u: nat, d: nat, n: nat) {
    IsCampus(t, i, u) && IsIdDigits(t, u, d, n)
  }

  lemma IdAtSpec(t: string, i: nat)
    requires i <= |t|
    ensures IdAt(t, i).Some? ==>
      exists u: nat, d: nat, n: nat :: IsIdMatch(t, i, u, d, n) && IdAt(t, i).value == t[u + 1..d]
    ensures forall u: nat, d: nat, n: nat :: IsIdMatch(t, i, u, d, n) ==> IdAt(t, i) == Some(t[u + 1..d])
  {
    if CampusEnd(t, i).Some? {
      var u := CampusEnd(t, i).value;
      IdEndSpec(t, u);
      if IdEnd(t, u).Some? {
        var d := IdEnd(t, u).value;
        var n: nat :| IsIdDigits(t, u, d, n);
        assert IsIdMatch(t, i, u, d, n);
        assert IdAt(t, i).value == t[u + 1..d];
      }
    }
    forall u: nat, d: nat, n: nat | IsIdMatch(t, i, u, d, n) ensures IdAt(t, i) == Some(t[u + 1..d]) {
      IdMatchDetermined(t, i, u, d, n);
    }
  }

  lemma IdMatchDetermined(t: string, i: nat, u: nat, d: nat, n: nat)
    requires i <= |t| && IsIdMatch(t, i, u, d, n)
    ensures IdAt(t, i) == Some(t[u + 1..d])
  {
    CampusDetermined(t, i, u);
    IdEndDetermined(t, u, d, n);
  }

  function IdFrom(t: string, i: nat): Option<string>
    requires i <= |t|
    decreases |t| - i
  {
    if i == |t| || IdAt(t, i).Some? then IdAt(t, i) else IdFrom(t, i + 1)
  }

  lemma {:induction false} IdFromSpec(t: string, i: nat)
    requires i <= |t|
    ensures IdFrom(t, i) == IdAt(t, FirstIdPosition(t, i))
    decreases |t| - i
  {
    if i < |t| && IdAt(t, i).None? {
      IdFromSpec(t, i + 1);
      assert FirstIdPosition(t, i) == FirstIdPosition(t, i + 1);
    }
  }

  function FirstIdPosition(t: string, i: nat): (j: nat)
    requires i <= |t|
    ensures i <= j <= |t|
    ensures forall k :: i <= k < j ==> IdAt(t, k).None?
    ensures IdAt(t, j).None? ==> j == |t|
    decreases |t| - i
  {
    if i == |t| || IdAt(t, i).Some? then i else FirstIdPosition(t, i + 1)
  }

  /**
    `getCourseIdFromLink`: the id of the first match, and a throw when the
    link has none. The id is a non-empty run of digits, so the second check,
    that the id contains a digit, never throws.
   */
  function CourseIdFromLink(link: string): (r: Result<string>)
    ensures r.Err? ==> r.error == CourseIdPatternMismatch
    ensures r.Ok? ==> |r.value| > 0 && forall k :: 0 <= k < |r.value| ==> IsDigit(r.value[k])
  {
    IdFromSpec(link, 0);
    match IdFrom(link, 0)
    case None => Err(CourseIdPatternMismatch)
    case Some(courseId) => Ok(courseId)
  }

  /**
    The id extraction throws exactly when the id pattern matches nowhere;
    otherwise the id is the first digit run of a match no other match precedes.
   */
  lemma CourseIdFromLinkSpec(link: string)
    ensures CourseIdFromLink(link).Err? <==> forall i: nat, u: nat, d: nat, n: nat :: !IsIdMatch(link, i, u, d, n)
    ensures CourseIdFromLink(link).Ok? ==>
      exists i: nat, u: nat, d: nat, n: nat ::
        && IsIdMatch(link, i, u, d, n)
        && CourseIdFromLink(link).value == link[u + 1..d]
        && forall i': nat, u': nat, d': nat, n': nat :: IsIdMatch(link, i', u', d', n') ==> i <= i'
  {
    var j := FirstIdPosition(link, 0);
    IdFromSpec(link, 0);
    IdAtSpec(link, j);
    forall i: nat, u: nat, d: nat, n: nat | IsIdMatch(link, i, u, d, n) ensures j <= i && IdAt(link, j).Some? {
      IdAtSpec(link, i);
    }
  }

  /** Every link the id pattern matches is accepted by `isLinkOfCorrectType`: `\d+_\d+` is one case of `.+?`. */
  lemma IdLinkIsOfCorrectType(link: string)
    requires CourseIdFromLink(link).Ok?
    ensures IsLinkOfCorrectType(link)
  {
    CourseIdFromLinkSpec(link);
    var i: nat, u: nat, d: nat, n: nat :| IsIdMatch(link, i, u, d, n);
    IdMatchIsLocationMatch(link, i, u, d, n);
    IsLinkOfCorrectTypeSpec(link);
  }

  lemma IdMatchIsLocationMatch(t: string, i: nat, u: nat, d: nat, n: nat)
    requires IsIdMatch(t, i, u, d, n)
    ensures IsLocationMatch(t, i, u, n)
  {
    forall k | u + 1 <= k < n ensures !IsLineTerminator(t[k]) {
      assert IsDigit(t[k]) || t[k] == '_' by {
        if k < d {
          assert InClass(t[k], Digit);
        } else if k > d {
          assert InClass(t[k], Digit);
        }
      }
    }
    assert IsTail(t, u + 1, n);
  }

  // ---- the `MAIN_` filter of scraper/src/main.ts ----

  /** The attempt of `Courses\.cfm\?CourseAcadCalendarID=MAIN_(.+?)&SelectedCalendar=Live&ArchiveID=` at `i`. */
  predicate MainAt(t: string, i: nat)
    requires i <= |t|
  {
    LiteralAt(t, i, IdLabel) && LiteralAt(t, i + |IdLabel|, MainCampus) && HasTail(t, i + |IdLabel| + |MainCampus|)
  }

  /** The attempt at each position of the link, as the search sees it. */
  function MainTest(t: string): nat -> bool {
    (k: nat) => k <= |t| && MainAt(t, k)
  }

  /** The link test of the older collector: a calendar-id link on the main campus. */
  predicate IsMainLink(link: string) {
    SomeFrom(MainTest(link), 0, |link|)
  }

  /**
    A main-campus link is a link of the correct type, and at the position
    the `MAIN_` pattern matches, the location pattern finds the campus "MAIN".
   */
  lemma MainLinkIsOfCorrectType(link: string, k: nat)
    requires k <= |link| && MainAt(link, k)
    ensures IsLinkOfCorrectType(link)
    ensures LocationAt(link, k) == Some("MAIN")
  {
    var a := k + |IdLabel|;
    assert link[a..a + 5] == MainCampus;
    assert link[a + 4] == MainCampus[4];
    assert AllIn(link, a, a + 4, Upper) by {
      forall m | a <= m < a + 4 ensures InClass(link[m], Upper) {
        assert link[m] == MainCampus[m - a];
      }
    }
    CampusDetermined(link, k, a + 4);
    assert MainCampus[..4] == "MAIN";
    assert link[a..a + 4] == link[a..a + 5][..4];
    LocationFound(link, k);
  }

  /** A link in which the location pattern matches at some position is of the correct type. */
  lemma LocationFound(link: string, k: nat)
    requires k <= |link| && LocationAt(link, k).Some?
    ensures IsLinkOfCorrectType(link)
  {
    var j := FirstLocationPosition(link, 0);
    LocationFromSpec(link, 0);
    assert j <= k;
  }

  // ---- `isElementOfCorrectType` ----

  /** `More\s+Details` under the `i` flag, tried at `i`; "Details" can only follow the whole whitespace run. */
  predicate MoreDetailsAt(t: string, i: nat)
    requires i <= |t|
  {
    && LiteralAtIgnoringCase(t, i, "More")
    && var b := RunEnd(t, i + 4, Space);
       i + 4 < b && LiteralAtIgnoringCase(t, b, "Details")
  }

  /** "More", a non-empty whitespace run up to `b`, then "Details", in any letter case. */
  ghost predicate IsMoreDetailsMatch(t: string, i: nat, b: nat) {
    && LiteralAtIgnoringCase(t, i, "More")
    && i + 4 < b <= |t|
    && AllSpace(t, i + 4, b)
    && LiteralAtIgnoringCase(t, b, "Details")
  }

  /** The anchor text test: "More Details" with any spacing and letter case. */
  predicate ContainsMoreDetails(t: string) {
    SomeFrom(MoreDetailsTest(t), 0, |t|)
  }

  /** The attempt at each position of the text, as the search sees it. */
  function MoreDetailsTest(t: string): nat -> bool {
    (k: nat) => k <= |t| && MoreDetailsAt(t, k)
  }

  /** The anchor text test holds exactly when "More", whitespace and "Details" occur in the text. */
  lemma ContainsMoreDetailsSpec(t: string)
    ensures ContainsMoreDetails(t) <==> exists i: nat, b: nat :: IsMoreDetailsMatch(t, i, b)
  {
    forall i: nat, b: nat | IsMoreDetailsMatch(t, i, b) ensures MoreDetailsTest(t)(i) {
      MoreDetailsMatchAt(t, i, b);
    }
    SomeFromSpec(MoreDetailsTest(t), 0, |t|);
    if ContainsMoreDetails(t) {
      var k: nat :| k <= |t| && MoreDetailsTest(t)(k);
      MoreDetailsAtMatch(t, k);
    }
  }

  /** A match takes the whole whitespace run, so the attempt at its start succeeds. */
  lemma MoreDetailsMatchAt(t: string, i: nat, b: nat)
    requires IsMoreDetailsMatch(t, i, b)
    ensures MoreDetailsAt(t, i)
  {
    assert SameIgnoringCase(t[b + 0], "Details"[0]);
    RunEndAt(t, i + 4, b, Space);
  }

  lemma MoreDetailsAtMatch(t: string, i: nat)
    requires i <= |t| && MoreDetailsAt(t, i)
    ensures IsMoreDetailsMatch(t, i, RunEnd(t, i + 4, Space))
  {
  }

  /** The `href` of an `a` element. */
  function Href(elem: Node): (r: Option<string>)
    ensures r.Some? <==> elem.Elem? && elem.name == "a" && "href" in elem.attrs
  {
    if elem.Elem? && elem.name == "a" && "href" in elem.attrs then Some(elem.attrs["href"]) else None
  }

  /** The anchor's first child is a text node that says "More Details". */
  predicate SaysMoreDetails(elem: Node) {
    var child := FirstChild(elem);
    child.Some? && child.value.Text? && ContainsMoreDetails(child.value.data)
  }

  /** `isElementOfCorrectType`: an `a` element with a calendar-id `href` whose text says "More Details". */
  predicate IsElementOfCorrectType(elem: Node) {
    Href(elem).Some? && IsLinkOfCorrectType(Href(elem).value) && SaysMoreDetails(elem)
  }

  /** The same test in scraper/src/main.ts, restricted to main-campus links. */
  predicate IsMainElementOfCorrectType(elem: Node) {
    Href(elem).Some? && IsMainLink(Href(elem).value) && SaysMoreDetails(elem)
  }

  /** The older collector accepts no anchor that the current one would not. */
  lemma MainElementIsOfCorrectType(elem: Node)
    requires IsMainElementOfCorrectType(elem)
    ensures IsElementOfCorrectType(elem)
  {
    var link := Href(elem).value;
    SomeFromSpec(MainTest(link), 0, |link|);
    var k: nat :| k <= |link| && MainTest(link)(k);
    MainLinkIsOfCorrectType(link, k);
  }

  // ---- the collection loop of `getCourseInformationLinksForSubject` ----

  /** The full link of an accepted anchor. */
  function CourseLink(elem: Node): string
    requires Href(elem).Some?
  {
    CalendarSite + Href(elem).value
  }

  /**
    What one anchor contributes to the id-keyed map: nothing when it is not
    of the correct type; otherwise its course id and its full link, or the
    error the id extraction throws.
   */
  function AnchorEntry(elem: Node): (r: Result<Option<(string, string)>>)
    ensures r == Ok(None) <==> !IsElementOfCorrectType(elem)
    ensures r.Err? <==> IsElementOfCorrectType(elem) && CourseIdFromLink(Href(elem).value).Err?
    ensures r.Err? ==> r.error == CourseIdPatternMismatch
    ensures r.Ok? && r.value.Some? ==>
      && IsElementOfCorrectType(elem)
      && r.value.value.0 == CourseIdFromLink(Href(elem).value).value
      && r.value.value.1 == CalendarSite + Href(elem).value
  {
    if !IsElementOfCorrectType(elem) then Ok(None)
    else
      var courseId :- CourseIdFromLink(Href(elem).value);
      Ok(Some((courseId, CourseLink(elem))))
  }

  type Entry = Result<Option<(string, string)>>

  /** The entries of the anchors, in order. */
  function AnchorEntries(anchors: seq<Node>): seq<Entry>
  {
    if anchors == [] then [] else AnchorEntries(anchors[..|anchors| - 1]) + [AnchorEntry(anchors[|anchors| - 1])]
  }

  lemma {:induction false} AnchorEntriesAt(anchors: seq<Node>, i: nat)
    requires i < |anchors|
    ensures |AnchorEntries(anchors)| == |anchors|
    ensures AnchorEntries(anchors)[i] == AnchorEntry(anchors[i])
  {
    AnchorEntriesLength(anchors);
    if i < |anchors| - 1 {
      AnchorEntriesAt(anchors[..|anchors| - 1], i);
    }
  }

  lemma {:induction false} AnchorEntriesLength(anchors: seq<Node>)
    ensures |AnchorEntries(anchors)| == |anchors|
  {
    if anchors != [] {
      AnchorEntriesLength(anchors[..|anchors| - 1]);
    }
  }

  /** The map after the first `n` entries, or the first error among them. */
  function CollectedUpTo(entries: seq<Entry>, n: nat): Result<OrderedMap>
    requires n <= |entries|
  {
    if n == 0 then Ok(Empty)
    else
      var m :- CollectedUpTo(entries, n - 1);
      Step(m, entries[n - 1])
  }

  /** What one entry does to the map: an error is thrown, nothing changes, or the id is set to the link. */
  function Step(m: OrderedMap, entry: Entry): Result<OrderedMap> {
    match entry
    case Err(e) => Err(e)
    case Ok(None) => Ok(m)
    case Ok(Some((courseId, link))) => Ok(Insert(m, courseId, link))
  }

  lemma {:induction false} CollectedErrorStays(entries: seq<Entry>, k: nat, n: nat)
    requires k <= n <= |entries|
    requires CollectedUpTo(entries, k).Err?
    ensures CollectedUpTo(entries, n) == CollectedUpTo(entries, k)
    decreases n - k
  {
    if k < n {
      CollectedErrorStays(entries, k, n - 1);
    }
  }

  /** The links that the anchors leave in the map, in the order their ids were first seen. */
  function Collected(anchors: seq<Node>): Result<seq<string>> {
    var entries := AnchorEntries(anchors);
    var m :- CollectedUpTo(entries, |entries|);
    Ok(Values(m))
  }

  /**
    `getCourseInformationLinksForSubject` (scraper/src/academicCalendar.ts:61-100)
    after the page is fetched and the anchors selected: every accepted anchor's
    link is set in a `Map` under its course id, and the map's values are returned.
   */
  method CourseInformationLinks(anchorsForCourseInformation: seq<Node>) returns (r: Result<seq<string>>)
    ensures r == Collected(anchorsForCourseInformation)
  {
    ghost var entries := AnchorEntries(anchorsForCourseInformation);
    AnchorEntriesLength(anchorsForCourseInformation);
    var linksForCourseInformation := Empty;
    for i := 0 to |anchorsForCourseInformation|
      invariant CollectedUpTo(entries, i) == Ok(linksForCourseInformation)
    {
      var next := SetAnchor(linksForCourseInformation, anchorsForCourseInformation, i);
      assert CollectedUpTo(entries, i + 1) == Step(linksForCourseInformation, entries[i]);
      if next.Err? {
        CollectedErrorStays(entries, i + 1, |entries|);
        return Err(next.error);
      }
      linksForCourseInformation := next.value;
    }
    r := Ok(Values(linksForCourseInformation));
  }

  /**
    One pass of the loop body, for the anchor at `i`: an anchor of the
    correct type has its link set in the map under its course id; the id
    extraction may throw.
   */
  method SetAnchor(linksForCourseInformation: OrderedMap, anchors: seq<Node>, i: nat) returns (r: Result<OrderedMap>)
    requires i < |anchors|
    ensures |AnchorEntries(anchors)| == |anchors|
    ensures r == Step(linksForCourseInformation, AnchorEntries(anchors)[i])
  {
    AnchorEntriesAt(anchors, i);
    var elem := anchors[i];
    if IsElementOfCorrectType(elem) {
      var courseId := CourseIdFromLink(Href(elem).value);
      if courseId.Err? {
        return Err(courseId.error);
      }
      return Ok(Insert(linksForCourseInformation, courseId.value, CourseLink(elem)));
    }
    return Ok(linksForCourseInformation);
  }

  /** The ids of the first `n` entries that carry one, in order. */
  function EntryIds(entries: seq<Entry>, n: nat): seq<string>
    requires n <= |entries|
  {
    if n == 0 then []
    else
      var front := EntryIds(entries, n - 1);
      if entries[n - 1].Ok? && entries[n - 1].value.Some? then front + [entries[n - 1].value.value.0] else front
  }

  /** `s` without repetitions: each element at its first occurrence. */
  function FirstOccurrences(s: seq<string>): (r: seq<string>)
    ensures forall x :: x in r <==> x in s
    ensures forall i, j :: 0 <= i < j < |r| ==> r[i] != r[j]
  {
    if s == [] then []
    else
      var front := FirstOccurrences(s[..|s| - 1]);
      var last := s[|s| - 1];
      assert s == s[..|s| - 1] + [last];
      if last in s[..|s| - 1] then front else front + [last]
  }

  /**
    The map holds one entry per course id, in the order the ids were first
    seen: a later anchor with a known id does not move it.
   */
  lemma {:induction false} CollectedKeys(entries: seq<Entry>, n: nat)
    requires n <= |entries|
    requires CollectedUpTo(entries, n).Ok?
    ensures CollectedUpTo(entries, n).value.keys == FirstOccurrences(EntryIds(entries, n))
  {
    if n > 0 {
      CollectedKeys(entries, n - 1);
      var front := EntryIds(entries, n - 1);
      if entries[n - 1].value.Some? {
        var x := entries[n - 1].value.value.0;
        assert (front + [x])[..|front|] == front;
      }
    }
  }

  /** The link of the last of the first `n` entries with id `courseId`. */
  function LastLinkFor(entries: seq<Entry>, courseId: string, n: nat): Option<string>
    requires n <= |entries|
  {
    if n == 0 then None
    else match entries[n - 1]
      case Ok(Some((k, link))) => if k == courseId then Some(link) else LastLinkFor(entries, courseId, n - 1)
      case _ => LastLinkFor(entries, courseId, n - 1)
  }

  /** The link kept for an id is that of the last anchor with that id; an id no anchor had is absent. */
  lemma {:induction false} CollectedLookup(entries: seq<Entry>, n: nat, courseId: string)
    requires n <= |entries|
    requires CollectedUpTo(entries, n).Ok?
    ensures var m := CollectedUpTo(entries, n).value;
      (if courseId in m.values then Some(m.values[courseId]) else None) == LastLinkFor(entries, courseId, n)
  {
    if n > 0 {
      CollectedLookup(entries, n - 1, courseId);
    }
  }

  /** The collection fails exactly when some entry is an error, and then with the first such error. */
  lemma {:induction false} CollectedFails(entries: seq<Entry>, n: nat)
    requires n <= |entries|
    ensures CollectedUpTo(entries, n).Err? <==> exists i :: 0 <= i < n && entries[i].Err?
    ensures CollectedUpTo(entries, n).Err? ==>
      exists i :: 0 <= i < n && entries[i].Err? && CollectedUpTo(entries, n).error == entries[i].error
        && forall j :: 0 <= j < i ==> entries[j].Ok?
  {
    if n > 0 {
      CollectedFails(entries, n - 1);
      var prev := CollectedUpTo(entries, n - 1);
      if prev.Err? {
        assert CollectedUpTo(entries, n) == prev;
        var i :| 0 <= i < n - 1 && entries[i].Err? && prev.error == entries[i].error
          && forall j :: 0 <= j < i ==> entries[j].Ok?;
        assert 0 <= i < n && entries[i].Err?;
      } else if entries[n - 1].Err? {
        assert CollectedUpTo(entries, n) == Err(entries[n - 1].error);
        assert forall j :: 0 <= j < n - 1 ==> entries[j].Ok?;
      } else {
        assert CollectedUpTo(entries, n).Ok?;
        assert forall j :: 0 <= j < n ==> entries[j].Ok?;
      }
    }
  }

  // ---- the collection loop of scraper/src/main.ts ----

  /** The links of the main-campus anchors among the first `n`, in document order, repeats included. */
  function MainLinksUpTo(anchors: seq<Node>, n: nat): seq<string>
    requires n <= |anchors|
  {
    if n == 0 then []
    else
      var elem := anchors[n - 1];
      MainLinksUpTo(anchors, n - 1) + (if IsMainElementOfCorrectType(elem) then [CourseLink(elem)] else [])
  }

  /**
    `getCourseInformationLinksForSubject` of scraper/src/main.ts:160-182: the
    link of every main-campus anchor is pushed onto a list.
   */
  method MainCourseInformationLinks(anchorsForCourseInformation: seq<Node>) returns (linksForCourseInformation: seq<string>)
    ensures linksForCourseInformation == MainLinksUpTo(anchorsForCourseInformation, |anchorsForCourseInformation|)
  {
    linksForCourseInformation := [];
    for i := 0 to |anchorsForCourseInformation|
      invariant linksForCourseInformation == MainLinksUpTo(anchorsForCourseInformation, i)
    {
      var elem := anchorsForCourseInformation[i];
      if IsMainElementOfCorrectType(elem) {
        linksForCourseInformation := linksForCourseInformation + [CourseLink(elem)];
      }
    }
  }

  /**
    Every link the older collector returns is the link of a main-campus
    anchor (which the current collector accepts too, by
    `MainElementIsOfCorrectType`), and there is at most one per anchor.
   */
  lemma {:induction false} MainLinksFromMainAnchors(anchors: seq<Node>, n: nat)
    requires n <= |anchors|
    ensures |MainLinksUpTo(anchors, n)| <= n
    ensures forall k :: 0 <= k < |MainLinksUpTo(anchors, n)| ==>
      exists j :: 0 <= j < n && IsMainElementOfCorrectType(anchors[j]) && MainLinksUpTo(anchors, n)[k] == CourseLink(anchors[j])
  {
    if n > 0 {
      MainLinksFromMainAnchors(anchors, n - 1);
      var front := MainLinksUpTo(anchors, n - 1);
      var links := MainLinksUpTo(anchors, n);
      var elem := anchors[n - 1];
      assert links == front + (if IsMainElementOfCorrectType(elem) then [CourseLink(elem)] else []);
      forall k | 0 <= k < |links|
        ensures exists j :: 0 <= j < n && IsMainElementOfCorrectType(anchors[j]) && links[k] == CourseLink(anchors[j])
      {
        if k < |front| {
          assert MainLinksUpTo(anchors, n - 1)[k] == front[k];
          var j :| 0 <= j < n - 1 && IsMainElementOfCorrectType(anchors[j]) && front[k] == CourseLink(anchors[j]);
          assert links[k] == front[k];
        } else {
          assert links[k] == CourseLink(anchors[n - 1]);
        }
      }
    }
  }

  /** The positions of the main-campus anchors among the first `n`, in increasing order. */
  function MainPositions(anchors: seq<Node>, n: nat): (r: seq<nat>)
    requires n <= |anchors|
    ensures forall k :: 0 <= k < |r| ==> r[k] < n && IsMainElementOfCorrectType(anchors[r[k]])
    ensures forall k, l :: 0 <= k < l < |r| ==> r[k] < r[l]
  {
    if n == 0 then []
    else MainPositions(anchors, n - 1) + (if IsMainElementOfCorrectType(anchors[n - 1]) then [n - 1] else [])
  }

  /** No main-campus anchor among the first `n` is missed. */
  lemma {:induction false} MainPositionsComplete(anchors: seq<Node>, n: nat, j: nat)
    requires j < n <= |anchors| && IsMainElementOfCorrectType(anchors[j])
    ensures j in MainPositions(anchors, n)
  {
    if j < n - 1 {
      MainPositionsComplete(anchors, n - 1, j);
    }
  }

  /**
    The older collector lists, in document order, the link of each
    main-campus anchor: its k-th link is that of the k-th such anchor, and
    there are as many links as such anchors.
   */
  lemma {:induction false} MainLinksInDocumentOrder(anchors: seq<Node>, n: nat)
    requires n <= |anchors|
    ensures |MainLinksUpTo(anchors, n)| == |MainPositions(anchors, n)|
    ensures forall k :: 0 <= k < |MainLinksUpTo(anchors, n)| ==>
      MainLinksUpTo(anchors, n)[k] == CourseLink(anchors[MainPositions(anchors, n)[k]])
  {
    if n > 0 {
      MainLinksInDocumentOrder(anchors, n - 1);
    }
  }

  /** The link of every main-campus anchor among the first `n` is listed. */
  lemma MainLinksListEachAnchor(anchors: seq<Node>, n: nat, j: nat)
    requires j < n <= |anchors| && IsMainElementOfCorrectType(anchors[j])
    ensures CourseLink(anchors[j]) in MainLinksUpTo(anchors, n)
  {
    MainPositionsComplete(anchors, n, j);
    MainLinksInDocumentOrder(anchors, n);
    var k :| 0 <= k < |MainPositions(anchors, n)| && MainPositions(anchors, n)[k] == j;
    assert MainLinksUpTo(anchors, n)[k] == CourseLink(anchors[j]);
  }

  /** Two entries with the same id leave one key, holding the later link. */
  lemma RepeatedEntry(entries: seq<Entry>, courseId: string, link: string, link': string)
    requires entries == [Ok(Some((courseId, link))), Ok(Some((courseId, link')))]
    ensures CollectedUpTo(entries, 2) == Ok(Mapping([courseId], map[courseId := link']))
    ensures Values(CollectedUpTo(entries, 2).value) == [link']
  {
    var first := Insert(Empty, courseId, link);
    assert first == Mapping([courseId], map[courseId := link]) by {
      assert Empty.keys + [courseId] == [courseId];
      assert Empty.values[courseId := link] == map[courseId := link];
    }
    var second := Insert(first, courseId, link');
    assert second == Mapping([courseId], map[courseId := link']) by {
      assert map[courseId := link][courseId := link'] == map[courseId := link'];
    }
    assert CollectedUpTo(entries, 1) == Ok(first);
    assert CollectedUpTo(entries, 2) == Ok(second);
  }

  /**
    The same anchor twice: the older collector lists its link twice, while
    the id-keyed map of the current one keeps it once.
   */
  lemma RepeatedAnchor(elem: Node)
    requires IsMainElementOfCorrectType(elem)
    requires CourseIdFromLink(Href(elem).value).Ok?
    ensures MainLinksUpTo([elem, elem], 2) == [CourseLink(elem), CourseLink(elem)]
    ensures Collected([elem, elem]) == Ok([CourseLink(elem)])
  {
    assert MainLinksUpTo([elem, elem], 1) == [CourseLink(elem)];
    MainElementIsOfCorrectType(elem);
    var entry := AnchorEntry(elem);
    var x := CourseIdFromLink(Href(elem).value).value;
    assert entry == Ok(Some((x, CourseLink(elem))));
    RepeatedEntries([elem, elem], entry);
    RepeatedEntry([entry, entry], x, CourseLink(elem), CourseLink(elem));
  }

  lemma RepeatedEntries(anchors: seq<Node>, entry: Entry)
    requires |anchors| == 2 && AnchorEntry(anchors[0]) == entry && AnchorEntry(anchors[1]) == entry
    ensures AnchorEntries(anchors) == [entry, entry]
  {
    AnchorEntriesAt(anchors, 0);
    AnchorEntriesAt(anchors, 1);
  }
}
