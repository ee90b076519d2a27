/**
  The record `getCourseInformationFromLink` builds from a course-information
  page of the academic calendar (scraper/src/academicCalendar.ts:107-304),
  and the older record of its copy in scraper/src/main.ts:189-355, which
  has no `link` and no `locations`.

  The page is given as the results of the selectors the function runs; the
  fetch before them is not modelled. The course weight is kept as the raw
  small-label text: `Number(...)` is not modelled.
 */
module CourseInformation {
  import opened Results
  import opened Chars
  import opened Dom
  import opened CourseHeader
  import opened Requisites
  import opened Labels
  import opened CalendarLinks

  /** The selections of a course-information page, one per selector, each in document order. */
  datatype CoursePage = CoursePage(
    normalNameHeader: Selection,                 // the `h2` with the course code
    courseNameHeader: Selection,                 // the `h3` with the course name
    courseDescriptionLabelSelection: Selection,  // the description block and the requisite block
    antirequisitesContainer: Selection,
    extraInformationContainer: Selection,
    courseWeightHeader: Selection,               // `h5:nth-child(1)`
    breadthInformationHeader: Selection,         // `h5:nth-child(2)`
    subjectCodeHeader: Selection,                // `h5:nth-child(3)`
    locationAnchors: Selection)                  // `.col-xs-12 > a`

  /** The record of scraper/src/main.ts:338-355. */
  datatype MainCourseInformation = MainCourseInformation(
    name: string,
    courseCode: string,
    subjectCode: Option<string>,
    courseNumber: string,
    courseDescription: string,
    courseWeight: Option<string>,
    breadth: Option<string>,
    extraInformation: Option<string>,
    preOrCorequisites: Option<string>,
    prerequisites: Option<string>,
    corequisites: Option<string>,
    validSuffixes: seq<string>)

  /** The record of scraper/src/academicCalendar.ts:287-303. */
  datatype CourseInformation = CourseInformation(
    link: string,
    name: string,
    courseCode: string,
    subjectCode: Option<string>,
    courseNumber: string,
    courseDescription: string,
    courseWeight: Option<string>,
    breadth: Option<string>,
    extraInformation: Option<string>,
    preOrCorequisites: Option<string>,
    prerequisites: Option<string>,
    corequisites: Option<string>,
    locations: seq<string>,
    validSuffixes: seq<string>)

  /** The trimmed text of the `h2`, where the course code is looked for. */
  function HeaderText(page: CoursePage): string {
    Trim(FirstText(page.normalNameHeader))
  }

  /**
    The requisite text: the trimmed text of the second description block
    when there is one, with its line breaks removed; `null` when there is
    no second block or its text is empty (an empty string is falsy).
   */
  function RequisiteText(sel: Selection): Option<string> {
    var preOrCorequisitesDiv := if |sel| > 1 then Some([sel[1]]) else None;
    var text := BoldedText(preOrCorequisitesDiv);
    if text.Some? && text.value != "" then Some(RemoveNewlines(text.value)) else None
  }

  /** A template literal prints `null` for a missing subject code. */
  function CourseCodeText(subjectCode: Option<string>, courseNumber: string): string {
    (if subjectCode.Some? then subjectCode.value else "null") + " " + courseNumber
  }

  /**
    The location an anchor of the page contributes: the campus of its
    `href` when it is an `a` element with an `href` that matches the
    location pattern. A location is never empty, so "truthy" is "present".
   */
  function AnchorLocation(anchor: Node): seq<string> {
    match Href(anchor)
    case None => []
    case Some(href) =>
      match LocationFromLink(href)
      case None => []
      case Some(loc) => [loc]
  }

  /** The locations of the anchors, in document order, without deduplication. */
  function OtherLocations(links: seq<Node>): (r: seq<string>)
    ensures |r| <= |links|
    ensures forall k :: 0 <= k < |r| ==> |r[k]| > 0 && forall m :: 0 <= m < |r[k]| ==> IsUpper(r[k][m])
  {
    if links == [] then []
    else OtherLocations(links[..|links| - 1]) + AnchorLocation(links[|links| - 1])
  }

  /**
    `getOtherLocations` (scraper/src/academicCalendar.ts:266-279): pushes the
    location of each anchor that has one.
   */
  method GetOtherLocations(links: seq<Node>) returns (locs: seq<string>)
    ensures locs == OtherLocations(links)
  {
    locs := [];
    for i := 0 to |links|
      invariant locs == OtherLocations(links[..i])
    {
      var link := links[i];
      var loc: Option<string> := None;
      var href := Href(link);
      if href.Some? {
        loc := LocationFromLink(href.value);
      }
      if loc.Some? {
        locs := locs + [loc.value];
      }
      assert links[..i + 1][..i] == links[..i];
    }
    assert links[..|links|] == links;
  }

  /** The locations of two runs of anchors are those of the first run followed by those of the second. */
  lemma {:induction false} OtherLocationsAppend(a: seq<Node>, b: seq<Node>)
    ensures OtherLocations(a + b) == OtherLocations(a) + OtherLocations(b)
    decreases |b|
  {
    if b == [] {
      assert a + b == a;
    } else {
      var b' := b[..|b| - 1];
      assert (a + b)[..|a + b| - 1] == a + b';
      OtherLocationsAppend(a, b');
    }
  }

  /** Every anchor with a location contributes it, so a campus named by two anchors is listed twice. */
  lemma {:induction false} OtherLocationsListsEachAnchor(links: seq<Node>, j: nat)
    requires j < |links|
    ensures forall loc :: loc in AnchorLocation(links[j]) ==> loc in OtherLocations(links)
  {
    assert links == links[..j] + [links[j]] + links[j + 1..];
    OtherLocationsAppend(links[..j] + [links[j]], links[j + 1..]);
    OtherLocationsAppend(links[..j], [links[j]]);
    assert [links[j]][..0] == [];
  }

  /** Each location comes from one of the anchors. */
  lemma {:induction false} OtherLocationsFromAnchors(links: seq<Node>)
    ensures forall loc :: loc in OtherLocations(links) ==> exists j :: 0 <= j < |links| && loc in AnchorLocation(links[j])
  {
    if links != [] {
      var front := links[..|links| - 1];
      OtherLocationsFromAnchors(front);
      forall loc | loc in OtherLocations(links)
        ensures exists j :: 0 <= j < |links| && loc in AnchorLocation(links[j])
      {
        if loc in OtherLocations(front) {
          var j :| 0 <= j < |front| && loc in AnchorLocation(front[j]);
          assert links[j] == front[j];
        } else {
          assert loc in AnchorLocation(links[|links| - 1]);
        }
      }
    }
  }

  /** Two anchors with the same location give that location twice, in order. */
  lemma DuplicateLocationsKept(anchor: Node)
    requires AnchorLocation(anchor) != []
    ensures OtherLocations([anchor, anchor]) == AnchorLocation(anchor) + AnchorLocation(anchor)
  {
    OtherLocationsAppend([anchor], [anchor]);
    assert [anchor] + [anchor] == [anchor, anchor];
    assert [anchor][..0] == [];
  }

  /** The three small labels of a page: the raw weight text, the breadth letter and the subject code. */
  datatype SmallLabels = SmallLabels(courseWeight: Option<string>, breadth: Option<string>, subjectCode: Option<string>)

  /**
    The small labels, read in the order of the source: it throws when the
    weight or the breadth label is malformed, when the breadth label names
    no category, or when the subject-code label is malformed.
   */
  function PageLabels(page: CoursePage): (r: Result<SmallLabels>)
    ensures r.Err? ==> r.error != HeaderPatternMismatch && r.error != LocationPatternMismatch
    ensures r.Ok? ==> (r.value.subjectCode.None? <==> |page.subjectCodeHeader| == 0)
    ensures r.Ok? && r.value.breadth.Some? ==> |r.value.breadth.value| == 1 && IsCategoryLetter(r.value.breadth.value[0])
  {
    var courseWeight :- SmallLabelText(page.courseWeightHeader);
    var breadthLabel :- SmallLabelText(page.breadthInformationHeader);
    var breadth :- BreadthCategoryLetter(breadthLabel);
    var subjectCode :- SmallLabelText(page.subjectCodeHeader);
    Ok(SmallLabels(courseWeight, breadth, subjectCode))
  }

  /** The older record of a page whose header matched `m` and whose small labels are `labels`. */
  function MainRecord(page: CoursePage, m: NameWithCode, labels: SmallLabels): MainCourseInformation {
    var requisites := ExtractRequisiteInformation(RequisiteText(page.courseDescriptionLabelSelection));
    MainCourseInformation(
      Trim(FirstText(page.courseNameHeader)),
      CourseCodeText(labels.subjectCode, m.number),
      labels.subjectCode,
      m.number,
      Trim(FirstText(page.courseDescriptionLabelSelection)),
      labels.courseWeight,
      labels.breadth,
      BoldedText(Some(page.extraInformationContainer)),
      requisites.preOrCorequisites,
      requisites.prerequisites,
      requisites.corequisites,
      Capitals(m.suffixGroup))
  }

  /**
    The record of scraper/src/main.ts:189-355 once the page is loaded: it
    throws first when the header has no course code, then as the small
    labels do.
   */
  function MainCourseInformationOf(page: CoursePage): (r: Result<MainCourseInformation>)
    ensures r == Err(HeaderPatternMismatch) <==> FirstNameWithCode(HeaderText(page)).None?
    ensures r.Err? ==> r.error != LocationPatternMismatch
  {
    match FirstNameWithCode(HeaderText(page))
    case None => Err(HeaderPatternMismatch)
    case Some(m) =>
      match PageLabels(page)
      case Err(e) => Err(e)
      case Ok(labels) => Ok(MainRecord(page, m, labels))
  }

  /** The academic-calendar record: the older record with the link and the locations added. */
  function CalendarRecord(link: string, d: MainCourseInformation, locations: seq<string>): CourseInformation {
    CourseInformation(
      link, d.name, d.courseCode, d.subjectCode, d.courseNumber, d.courseDescription,
      d.courseWeight, d.breadth, d.extraInformation,
      d.preOrCorequisites, d.prerequisites, d.corequisites,
      locations, d.validSuffixes)
  }

  /**
    The record of scraper/src/academicCalendar.ts:107-304 once the page is
    loaded: the checks of the older record, then the location of the
    provided link, which must match; the locations are that one followed by
    those of the page's anchors.
   */
  function CourseInformationOf(link: string, page: CoursePage): Result<CourseInformation> {
    match MainCourseInformationOf(page)
    case Err(e) => Err(e)
    case Ok(d) =>
      match LocationFromLink(link)
      case None => Err(LocationPatternMismatch)
      case Some(loc) => Ok(CalendarRecord(link, d, [loc] + OtherLocations(page.locationAnchors)))
  }

  /**
    `getCourseInformationFromLink` (scraper/src/academicCalendar.ts:115-304)
    after the fetch: the selections are read in the order of the source, and
    the requisite text is reassigned once its line breaks are removed.
   */
  method CourseInformationFromPage(link: string, page: CoursePage) returns (r: Result<CourseInformation>)
    ensures r == CourseInformationOf(link, page)
  {
    var courseDescriptionLabelSelection := page.courseDescriptionLabelSelection;
    var preOrCorequisitesDiv: Option<Selection> := None;
    if |courseDescriptionLabelSelection| > 1 {
      preOrCorequisitesDiv := Some([courseDescriptionLabelSelection[1]]);
    }
    var normalNameWithCourseCode := HeaderText(page);
    var courseName := Trim(FirstText(page.courseNameHeader));
    var header := ParseCourseHeader(normalNameWithCourseCode);
    if header.Err? {
      return Err(header.error);
    }
    var courseDescription := Trim(FirstText(courseDescriptionLabelSelection));
    var requisiteInformationText := BoldedText(preOrCorequisitesDiv);
    requisiteInformationText :=
      if requisiteInformationText.Some? && requisiteInformationText.value != ""
      then Some(RemoveNewlines(requisiteInformationText.value))
      else None;
    var requisiteInformation := ExtractRequisiteInformation(requisiteInformationText);
    var extraInformation := BoldedText(Some(page.extraInformationContainer));
    var courseWeight := SmallLabelText(page.courseWeightHeader);
    if courseWeight.Err? {
      return Err(courseWeight.error);
    }
    var breadthLabel := SmallLabelText(page.breadthInformationHeader);
    if breadthLabel.Err? {
      return Err(breadthLabel.error);
    }
    var breadth := BreadthCategoryLetter(breadthLabel.value);
    if breadth.Err? {
      return Err(breadth.error);
    }
    var subjectCode := SmallLabelText(page.subjectCodeHeader);
    if subjectCode.Err? {
      return Err(subjectCode.error);
    }
    var locationFromProvidedLink := LocationFromLink(link);
    if locationFromProvidedLink.None? {
      return Err(LocationPatternMismatch);
    }
    var otherLocations := GetOtherLocations(page.locationAnchors);
    var locations := [locationFromProvidedLink.value] + otherLocations;
    r := Ok(CourseInformation(
      link, courseName, CourseCodeText(subjectCode.value, header.value.courseNumber),
      subjectCode.value, header.value.courseNumber, courseDescription,
      courseWeight.value, breadth.value, extraInformation,
      requisiteInformation.preOrCorequisites, requisiteInformation.prerequisites,
      requisiteInformation.corequisites, locations, header.value.validSuffixes));
  }

  /**
    What the older record holds: the course number is the non-empty digit
    run of the header's leftmost course code, the suffixes are the capitals
    of its suffix group, the course code is the subject code (or "null")
    and the number, the breadth is one category letter, and the name and
    the description are trimmed.
   */
  lemma MainCourseInformationFields(page: CoursePage)
    requires MainCourseInformationOf(page).Ok?
    ensures FirstNameWithCode(HeaderText(page)).Some?
    ensures var d := MainCourseInformationOf(page).value; var m := FirstNameWithCode(HeaderText(page)).value;
      && d.courseNumber == m.number && |d.courseNumber| > 0 && AllDigits(d.courseNumber)
      && d.validSuffixes == Capitals(m.suffixGroup)
      && (forall k :: 0 <= k < |d.validSuffixes| ==> |d.validSuffixes[k]| == 1 && IsUpper(d.validSuffixes[k][0]))
      && d.courseCode == CourseCodeText(d.subjectCode, d.courseNumber)
      && (|page.subjectCodeHeader| == 0 <==> d.subjectCode.None?)
      && (|page.subjectCodeHeader| == 0 ==> d.courseCode == "null " + d.courseNumber)
      && (d.breadth.Some? ==> |d.breadth.value| == 1 && IsCategoryLetter(d.breadth.value[0]))
      && (d.courseDescription == [] || (!IsSpace(d.courseDescription[0]) && !IsSpace(d.courseDescription[|d.courseDescription| - 1])))
      && (d.name == [] || (!IsSpace(d.name[0]) && !IsSpace(d.name[|d.name| - 1])))
  {
    var m := FirstNameWithCode(HeaderText(page)).value;
    NumberIsDigitRun(HeaderText(page), CourseHeader.FirstMatchPosition(HeaderText(page), 0));
    var labels := PageLabels(page).value;
    assert MainCourseInformationOf(page) == Ok(MainRecord(page, m, labels));
    MainRecordFields(page, m, labels);
  }

  lemma MainRecordFields(page: CoursePage, m: NameWithCode, labels: SmallLabels)
    requires |m.number| > 0 && AllDigits(m.number)
    requires labels.subjectCode.None? <==> |page.subjectCodeHeader| == 0
    requires labels.breadth.Some? ==> |labels.breadth.value| == 1 && IsCategoryLetter(labels.breadth.value[0])
    ensures var d := MainRecord(page, m, labels);
      && d.courseNumber == m.number
      && d.validSuffixes == Capitals(m.suffixGroup)
      && d.courseCode == CourseCodeText(d.subjectCode, d.courseNumber)
      && (|page.subjectCodeHeader| == 0 <==> d.subjectCode.None?)
      && (|page.subjectCodeHeader| == 0 ==> d.courseCode == "null " + d.courseNumber)
      && (d.breadth.Some? ==> |d.breadth.value| == 1 && IsCategoryLetter(d.breadth.value[0]))
      && (d.courseDescription == [] || (!IsSpace(d.courseDescription[0]) && !IsSpace(d.courseDescription[|d.courseDescription| - 1])))
      && (d.name == [] || (!IsSpace(d.name[0]) && !IsSpace(d.name[|d.name| - 1])))
  {
    assert "null" + " " == "null ";
  }

  /**
    What the academic-calendar record adds: the link it was given, and
    locations that start with the campus of that link, continue with those
    of the page's anchors, and are each a non-empty run of capitals.
   */
  lemma CourseInformationFields(link: string, page: CoursePage)
    requires CourseInformationOf(link, page).Ok?
    ensures var c := CourseInformationOf(link, page).value;
      && c.link == link
      && |c.locations| >= 1 && LocationFromLink(link) == Some(c.locations[0])
      && c.locations[1..] == OtherLocations(page.locationAnchors)
      && |c.locations| <= 1 + |page.locationAnchors|
      && (forall k :: 0 <= k < |c.locations| ==> |c.locations[k]| > 0 && forall n :: 0 <= n < |c.locations[k]| ==> IsUpper(c.locations[k][n]))
  {
    var d := MainCourseInformationOf(page).value;
    var loc := LocationFromLink(link).value;
    var others := OtherLocations(page.locationAnchors);
    assert CourseInformationOf(link, page) == Ok(CalendarRecord(link, d, [loc] + others));
    LocationsAreCapitalRuns(loc, others);
  }

  lemma LocationsAreCapitalRuns(loc: string, others: seq<string>)
    requires |loc| > 0 && forall n :: 0 <= n < |loc| ==> IsUpper(loc[n])
    requires forall k :: 0 <= k < |others| ==> |others[k]| > 0 && forall n :: 0 <= n < |others[k]| ==> IsUpper(others[k][n])
    ensures var ls := [loc] + others;
      && ls[1..] == others
      && forall k :: 0 <= k < |ls| ==> |ls[k]| > 0 && forall n :: 0 <= n < |ls[k]| ==> IsUpper(ls[k][n])
  {
    var ls := [loc] + others;
    assert ls[1..] == others;
    assert forall k :: 1 <= k < |ls| ==> ls[k] == others[k - 1];
  }

  /** Without a second description block the three requisite fields are `null`. */
  lemma NoRequisitesWithoutSecondBlock(page: CoursePage)
    requires MainCourseInformationOf(page).Ok?
    requires |page.courseDescriptionLabelSelection| <= 1
    ensures var c := MainCourseInformationOf(page).value;
      c.preOrCorequisites.None? && c.prerequisites.None? && c.corequisites.None?
  {
    var m := FirstNameWithCode(HeaderText(page)).value;
    var labels := PageLabels(page).value;
    assert RequisiteText(page.courseDescriptionLabelSelection) == None;
    assert MainCourseInformationOf(page) == Ok(MainRecord(page, m, labels));
  }

  /**
    The requisite text never holds a line feed, and it is `null` exactly
    when there is no second description block or its trimmed text is empty.
   */
  lemma RequisiteTextSpec(sel: Selection)
    ensures RequisiteText(sel).None? <==> |sel| <= 1 || Trim(TextContent(sel[1])) == ""
    ensures RequisiteText(sel).Some? ==> forall k :: 0 <= k < |RequisiteText(sel).value| ==> RequisiteText(sel).value[k] != '\n'
  {
    if |sel| > 1 {
      assert TextOfAll([sel[1]]) == TextContent(sel[1]) + TextOfAll([]);
    }
  }

  /**
    Which error is thrown, stated through the patterns: the header error
    exactly when the header has no course code; the breadth error exactly
    when the earlier checks pass and the breadth label is a non-empty text
    in which no "Category X" occurs; the location error exactly when every
    other check passes and the provided link matches the location pattern
    nowhere.
   */
  lemma CourseInformationErrors(link: string, page: CoursePage)
    ensures CourseInformationOf(link, page) == Err(HeaderPatternMismatch) <==> FirstNameWithCode(HeaderText(page)).None?
    ensures CourseInformationOf(link, page) == Err(BreadthPatternMismatch) <==>
      && FirstNameWithCode(HeaderText(page)).Some?
      && SmallLabelText(page.courseWeightHeader).Ok?
      && SmallLabelText(page.breadthInformationHeader).Ok?
      && var breadthText := SmallLabelText(page.breadthInformationHeader).value;
      && breadthText.Some? && breadthText.value != ""
      && forall i: nat, b: nat, letter :: !IsCategoryMatch(breadthText.value, i, b, letter)
    ensures CourseInformationOf(link, page) == Err(LocationPatternMismatch) <==>
      && MainCourseInformationOf(page).Ok?
      && forall i: nat, u: nat, e: nat :: !IsLocationMatch(link, i, u, e)
  {
    LocationFromLinkSpec(link);
    PageLabelsBreadthError(page);
    if FirstNameWithCode(HeaderText(page)).Some? && PageLabels(page).Err? {
      assert MainCourseInformationOf(page) == Err(PageLabels(page).error);
    }
  }

  /**
    The small labels throw the breadth error exactly when the weight and
    breadth labels are well formed and the breadth label is a non-empty
    text in which no "Category X" occurs.
   */
  lemma PageLabelsBreadthError(page: CoursePage)
    ensures PageLabels(page) == Err(BreadthPatternMismatch) <==>
      && SmallLabelText(page.courseWeightHeader).Ok?
      && SmallLabelText(page.breadthInformationHeader).Ok?
      && var breadthText := SmallLabelText(page.breadthInformationHeader).value;
      && breadthText.Some? && breadthText.value != ""
      && forall i: nat, b: nat, letter :: !IsCategoryMatch(breadthText.value, i, b, letter)
  {
    var breadthText := SmallLabelText(page.breadthInformationHeader);
    if breadthText.Ok? && breadthText.value.Some? && breadthText.value.value != "" {
      BreadthSpec(breadthText.value.value);
    }
  }

  /**
    The two versions agree: the academic-calendar record fails with the
    older record's error when that one fails, additionally fails only on a
    link without a location, and otherwise extends the older record with the
    link and the locations.
   */
  lemma CalendarExtendsMain(link: string, page: CoursePage)
    ensures MainCourseInformationOf(page).Err? ==> CourseInformationOf(link, page) == Err(MainCourseInformationOf(page).error)
    ensures MainCourseInformationOf(page).Ok? ==>
      (CourseInformationOf(link, page).Err? <==> LocationFromLink(link).None?)
    ensures CourseInformationOf(link, page).Ok? ==>
      && MainCourseInformationOf(page).Ok?
      && var c := CourseInformationOf(link, page).value;
      && var d := MainCourseInformationOf(page).value;
      && c.link == link
      && d == MainCourseInformation(c.name, c.courseCode, c.subjectCode, c.courseNumber, c.courseDescription,
           c.courseWeight, c.breadth, c.extraInformation, c.preOrCorequisites, c.prerequisites,
           c.corequisites, c.validSuffixes)
  {
  }
}
