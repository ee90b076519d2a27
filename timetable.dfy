/**
  The course-offering extraction of Western's master timetable
  (scraper/src/westernTimetable.ts:33-184, copied in
  scraper/src/main.ts:379-530): for a subject of the subject mapping, the
  first `h4` course header of the result page, the schedule table after it,
  and one record per table row.

  The fetched page is given: each course header comes with the sibling
  nodes that follow it, and the cells `.find(".daysTable > tbody > tr > td")`
  selects inside a days cell are given by the function `dayCellsOf`.
 */
module Timetable {
  import opened Results
  import opened Chars
  import opened Dom
  import opened WeekdayList
  import opened SubjectCodes

  // ---------------------------------------------------------------------------
  // Sibling cursors
  // ---------------------------------------------------------------------------

  /**
    `.next()` of the node before position `from`: the first element among
    the siblings from `from` on, or the empty selection (`None`).
   */
  function NextElement(ns: seq<Node>, from: nat): (r: Option<nat>)
    ensures r.Some? ==> from <= r.value < |ns| && ns[r.value].Elem?
    ensures forall k :: from <= k < |ns| && (r.None? || k < r.value) ==> !ns[k].Elem?
    decreases |ns| - from
  {
    if from >= |ns| then None
    else if ns[from].Elem? then Some(from)
    else NextElement(ns, from + 1)
  }

  /** `.next()` of a cursor: the empty selection stays empty. */
  function Next(ns: seq<Node>, cur: Option<nat>): (r: Option<nat>)
    ensures r.Some? ==> r.value < |ns| && ns[r.value].Elem?
  {
    if cur.Some? then NextElement(ns, cur.value + 1) else None
  }

  /** The first element named `name` among the siblings from `from` on. */
  function FirstNamed(ns: seq<Node>, from: nat, name: string): (r: Option<nat>)
    ensures r.Some? ==> from <= r.value < |ns| && IsElementNamed(ns[r.value], name)
    ensures forall k :: from <= k < |ns| && (r.None? || k < r.value) ==> !IsElementNamed(ns[k], name)
    decreases |ns| - from
  {
    if from >= |ns| then None
    else if IsElementNamed(ns[from], name) then Some(from)
    else FirstNamed(ns, from + 1, name)
  }

  /** `.is(name)` of a cursor: it selects an element named `name` (never true of the empty selection). */
  predicate IsNamedAt(ns: seq<Node>, cur: Option<nat>, name: string) {
    cur.Some? && cur.value < |ns| && IsElementNamed(ns[cur.value], name)
  }

  /** `.text()` of a cursor: the text of the selected node, "" for the empty selection. */
  function CursorText(ns: seq<Node>, cur: Option<nat>): string {
    if cur.Some? && cur.value < |ns| then TextContent(ns[cur.value]) else ""
  }

  // ---------------------------------------------------------------------------
  // getDaysOfWeekInformation
  // ---------------------------------------------------------------------------

  /** `entry.text().trim()` of one cell. */
  function CellText(n: Node): string {
    Trim(TextContent(n))
  }

  /** The trimmed texts of the day cells, in cell order. */
  function CellTexts(cells: seq<Node>): (r: seq<string>)
    ensures |r| == |cells|
  {
    seq(|cells|, j requires 0 <= j < |cells| => CellText(cells[j]))
  }

  /** `value.match(/M|Tu|W|Th|F/g)` is not `null`: one of the weekday tokens occurs somewhere in `value`. */
  predicate HasWeekdayToken(value: string) {
    exists i, k :: 0 <= i <= |value| && 0 <= k < |WEEKDAYS| && LiteralAt(value, i, WEEKDAYS[k])
  }

  /** The list the loop of `getDaysOfWeekInformation` builds from the cell texts: those with a weekday token, in order. */
  function DayTexts(values: seq<string>): (r: seq<string>)
    ensures |r| <= |values|
    ensures forall k :: 0 <= k < |r| ==> HasWeekdayToken(r[k])
  {
    if values == [] then []
    else
      var rest := DayTexts(values[..|values| - 1]);
      var value := values[|values| - 1];
      if HasWeekdayToken(value) then rest + [value] else rest
  }

  /** The positions of the texts with a weekday token: all of them, in increasing order. */
  function TokenPositions(values: seq<string>): (r: seq<nat>)
    ensures forall k :: 0 <= k < |r| ==> r[k] < |values| && HasWeekdayToken(values[r[k]])
    ensures forall k, l :: 0 <= k < l < |r| ==> r[k] < r[l]
  {
    if values == [] then []
    else
      var init := values[..|values| - 1];
      var rest := TokenPositions(init);
      assert forall j :: 0 <= j < |init| ==> init[j] == values[j];
      if HasWeekdayToken(values[|values| - 1]) then rest + [|values| - 1] else rest
  }

  /** No text with a weekday token is missed. */
  lemma {:induction false} TokenPositionsComplete(values: seq<string>, j: nat)
    requires j < |values| && HasWeekdayToken(values[j])
    ensures j in TokenPositions(values)
  {
    var init := values[..|values| - 1];
    TokenPositionsLast(values);
    if j < |values| - 1 {
      assert init[j] == values[j];
      TokenPositionsComplete(init, j);
    }
  }

  lemma DayTextsLast(values: seq<string>)
    requires values != []
    ensures var init, last := values[..|values| - 1], values[|values| - 1];
      DayTexts(values) == if HasWeekdayToken(last) then DayTexts(init) + [last] else DayTexts(init)
  {
  }

  lemma TokenPositionsLast(values: seq<string>)
    requires values != []
    ensures var init, last := values[..|values| - 1], values[|values| - 1];
      TokenPositions(values) == if HasWeekdayToken(last) then TokenPositions(init) + [|values| - 1] else TokenPositions(init)
  {
  }

  /** The kept texts are exactly the texts at the token positions, in order. */
  lemma {:induction false} DayTextsAreTokenPositions(values: seq<string>)
    ensures |DayTexts(values)| == |TokenPositions(values)|
    ensures forall k :: 0 <= k < |DayTexts(values)| ==> DayTexts(values)[k] == values[TokenPositions(values)[k]]
  {
    if values != [] {
      DayTextsAreTokenPositions(values[..|values| - 1]);
      DayTextsAreTokenPositionsStep(values);
    }
  }

  /** The step of `DayTextsAreTokenPositions`: one more text keeps the two lists in step. */
  lemma DayTextsAreTokenPositionsStep(values: seq<string>)
    requires values != []
    requires var init := values[..|values| - 1];
      && |DayTexts(init)| == |TokenPositions(init)|
      && forall k :: 0 <= k < |DayTexts(init)| ==> DayTexts(init)[k] == init[TokenPositions(init)[k]]
    ensures |DayTexts(values)| == |TokenPositions(values)|
    ensures forall k :: 0 <= k < |DayTexts(values)| ==> DayTexts(values)[k] == values[TokenPositions(values)[k]]
  {
    var init := values[..|values| - 1];
    DayTextsLast(values);
    TokenPositionsLast(values);
    var d, dd, pp := DayTexts(init), DayTexts(values), TokenPositions(values);
    forall k | 0 <= k < |dd|
      ensures dd[k] == values[pp[k]]
    {
      if k < |d| {
        DayTextAtEarlierPosition(values, k);
      }
    }
  }

  /** An entry kept before the last text keeps its place and its position. */
  lemma DayTextAtEarlierPosition(values: seq<string>, k: nat)
    requires values != []
    requires var init := values[..|values| - 1];
      && |DayTexts(init)| == |TokenPositions(init)|
      && k < |DayTexts(init)|
      && DayTexts(init)[k] == init[TokenPositions(init)[k]]
    ensures var init := values[..|values| - 1];
      && DayTexts(values)[k] == DayTexts(init)[k]
      && TokenPositions(values)[k] == TokenPositions(init)[k]
      && DayTexts(values)[k] == values[TokenPositions(values)[k]]
  {
    DayTextsLast(values);
    TokenPositionsLast(values);
  }

  /** A text is kept exactly when it has a weekday token and is one of the cell texts. */
  lemma {:induction false} DayTextsMembers(values: seq<string>, x: string)
    ensures x in DayTexts(values) <==> HasWeekdayToken(x) && x in values
  {
    if values != [] {
      var init := values[..|values| - 1];
      DayTextsMembers(init, x);
      assert values == init + [values[|values| - 1]];
    }
  }

  /** Each weekday token is itself a text the day collection keeps. */
  lemma WeekdayHasToken(i: nat)
    requires i < 5
    ensures HasWeekdayToken(WEEKDAYS[i])
  {
    assert LiteralAt(WEEKDAYS[i], 0, WEEKDAYS[i]) by {
      assert WEEKDAYS[i][0..|WEEKDAYS[i]|] == WEEKDAYS[i];
    }
  }

  /** One more text: it is kept exactly when it has a weekday token. */
  lemma DayTextsStep(values: seq<string>, value: string)
    ensures DayTexts(values + [value]) == if HasWeekdayToken(value) then DayTexts(values) + [value] else DayTexts(values)
  {
    assert (values + [value])[..|values|] == values;
  }

  /** One more cell text of a prefix: it is kept exactly when it has a weekday token. */
  lemma DayTextsOfPrefix(cells: seq<Node>, i: nat)
    requires i < |cells|
    ensures var value := CellText(cells[i]);
      DayTexts(CellTexts(cells[..i + 1])) ==
        if HasWeekdayToken(value) then DayTexts(CellTexts(cells[..i])) + [value] else DayTexts(CellTexts(cells[..i]))
  {
    var value := CellText(cells[i]);
    assert CellTexts(cells[..i + 1]) == CellTexts(cells[..i]) + [value];
    DayTextsStep(CellTexts(cells[..i]), value);
  }

  /** `getDaysOfWeekInformation` on the selected day cells: `encodeWeekdayList` of the kept texts, or its error. */
  function DaysOfWeek(cells: seq<Node>): (r: Result<Mask>)
    ensures r.Err? ==> r.error == TooManyWeekdays
  {
    var days := DayTexts(CellTexts(cells));
    if |days| > 5 then Err(TooManyWeekdays) else Ok(Encoded(days))
  }

  /**
    `getDaysOfWeekInformation` (scraper/src/westernTimetable.ts:57-69): the
    loop keeps each trimmed cell text with a weekday token and hands the list
    to the weekday encoder. The documented encoder is used here; with the
    `encodeWeekdayList` the program calls, the mask is 0 (`DaysOfWeekAsWritten`).
   */
  method DaysOfWeekInformation(cells: seq<Node>) returns (r: Result<Mask>)
    ensures r == DaysOfWeek(cells)
  {
    var daysOfWeek: seq<string> := [];
    for i := 0 to |cells|
      invariant daysOfWeek == DayTexts(CellTexts(cells[..i]))
    {
      var value := CellText(cells[i]);
      DayTextsOfPrefix(cells, i);
      if HasWeekdayToken(value) {
        daysOfWeek := daysOfWeek + [value];
      }
    }
    assert cells[..|cells|] == cells;
    r := EncodeIntended(daysOfWeek);
  }

  /**
    The day mask: more than five cells whose trimmed text has a weekday
    token throw; otherwise bit i is set exactly when some cell's trimmed text
    is the i-th weekday token itself (a cell such as "M W" is kept but sets
    no bit).
   */
  lemma DaysOfWeekSpec(cells: seq<Node>)
    ensures DaysOfWeek(cells).Err? <==> |TokenPositions(CellTexts(cells))| > 5
    ensures DaysOfWeek(cells).Ok? ==> forall i :: 0 <= i < 5 ==>
      (Bit(DaysOfWeek(cells).value, i) <==> WEEKDAYS[i] in CellTexts(cells))
  {
    var values := CellTexts(cells);
    DayTextsAreTokenPositions(values);
    forall i | 0 <= i < 5
      ensures WEEKDAYS[i] in DayTexts(values) <==> WEEKDAYS[i] in values
    {
      WeekdayHasToken(i);
      DayTextsMembers(values, WEEKDAYS[i]);
    }
  }

  /** A key string "0" .. "4" of the `for...in` loop holds no weekday token, so the day collection never keeps one. */
  lemma KeyHasNoWeekdayToken(j: nat)
    requires j < 5
    ensures !HasWeekdayToken(Key(j))
  {
    var key := Key(j);
    forall i, k | 0 <= i <= |key| && 0 <= k < |WEEKDAYS|
      ensures !LiteralAt(key, i, WEEKDAYS[k])
    {
      if i < |key| && LiteralAt(key, i, WEEKDAYS[k]) {
        LiteralAtHead(key, i, WEEKDAYS[k]);
      }
    }
  }

  /**
    With `encodeWeekdayList` as written, the day mask of every row is 0:
    each text the collection keeps holds a weekday token, so none is a key
    "0" .. "4" that the as-written loop looks for.
   */
  lemma DaysOfWeekAsWritten(cells: seq<Node>)
    requires |DayTexts(CellTexts(cells))| <= 5
    ensures EncodedAsWritten(DayTexts(CellTexts(cells))) == 0
  {
    var days := DayTexts(CellTexts(cells));
    forall j | 0 <= j < 5 ensures Key(j) !in days {
      KeyHasNoWeekdayToken(j);
      DayTextsMembers(CellTexts(cells), Key(j));
    }
    EncodeAsWrittenWithoutKeys(days, 5);
  }

  /**
    The documented encoding differs from it: cells that each hold exactly
    one weekday token, such as the "M" and "W" cells of a Monday and
    Wednesday class, give a non-zero mask (5 there) where the program
    stores 0.
   */
  lemma DaysOfWeekAsWrittenDiffers(cells: seq<Node>)
    requires 0 < |cells| <= 5
    requires forall k :: 0 <= k < |cells| ==> CellText(cells[k]) in WEEKDAYS
    ensures |DayTexts(CellTexts(cells))| <= 5
    ensures EncodedAsWritten(DayTexts(CellTexts(cells))) == 0
    ensures DaysOfWeek(cells).Ok? && DaysOfWeek(cells).value != 0
  {
    var values := CellTexts(cells);
    DaysOfWeekAsWritten(cells);
    DaysOfWeekSpec(cells);
    var i :| 0 <= i < 5 && WEEKDAYS[i] == values[0];
    assert Bit(DaysOfWeek(cells).value, i);
  }

  /** No day cells, as for a missing days cell, give the empty mask. */
  lemma NoDayCells()
    ensures DaysOfWeek([]) == Ok(0)
  {
    FiveBitsDetermine(Encoded([]), 0);
  }

  // ---------------------------------------------------------------------------
  // getRowInformation
  // ---------------------------------------------------------------------------

  /** The eleven fields of a timetable row. */
  datatype RowInformation = RowInformation(
    sectionNumber: string,
    componentType: string,
    classNumber: string,
    daysOfTheWeek: Mask,
    startTime: string,
    endTime: string,
    location: string,
    instructorName: string,
    requisitesAndConstraints: string,
    fillStatus: string,
    campus: string)

  /**
    The row cursor after `k` calls of `nextEntry`: it starts at the first
    `td` child of the row and moves to the next element sibling each time.
   */
  function Cursor(cs: seq<Node>, k: nat): (r: Option<nat>)
    ensures r.Some? ==> r.value < |cs| && cs[r.value].Elem?
  {
    if k == 0 then FirstNamed(cs, 0, "td") else Next(cs, Cursor(cs, k - 1))
  }

  /** `getEntryText`: the trimmed text of the cursor, "" once it has run past the last cell. */
  function EntryText(cs: seq<Node>, k: nat): string {
    Trim(CursorText(cs, Cursor(cs, k)))
  }

  /** The day cells of the cursor: what the selector finds inside the cell, none inside the empty selection. */
  function DayCells(cs: seq<Node>, k: nat, dayCellsOf: Node -> seq<Node>): seq<Node> {
    var cur := Cursor(cs, k);
    if cur.Some? && cur.value < |cs| then dayCellsOf(cs[cur.value]) else []
  }

  /** The values of `f` at `0`, ..., `n - 1`, in order. */
  function Tabulate<T>(f: nat -> T, n: nat): (r: seq<T>)
    ensures |r| == n
  {
    if n == 0 then [] else Tabulate(f, n - 1) + [f(n - 1)]
  }

  lemma {:induction false} TabulateAt<T>(f: nat -> T, n: nat, k: nat)
    requires k < n
    ensures Tabulate(f, n)[k] == f(k)
  {
    if k < n - 1 {
      TabulateAt(f, n - 1, k);
    }
  }

  /** The texts under the first `n` cursor positions. */
  function EntryTexts(cs: seq<Node>, n: nat): (r: seq<string>)
    ensures |r| == n
  {
    Tabulate(k => EntryText(cs, k), n)
  }

  lemma EntryTextsAt(cs: seq<Node>, n: nat, k: nat)
    requires k < n
    ensures EntryTexts(cs, n)[k] == EntryText(cs, k)
  {
    TabulateAt(k => EntryText(cs, k), n, k);
  }

  /** The record `getRowInformation` returns for a row, or the error of its days cell. */
  function RowOf(row: Node, dayCellsOf: Node -> seq<Node>): (r: Result<RowInformation>)
    ensures r.Err? ==> r.error == TooManyWeekdays
  {
    var cs := ChildNodes(row);
    var days :- DaysOfWeek(DayCells(cs, 3, dayCellsOf));
    var ts := EntryTexts(cs, 11);
    Ok(RowInformation(ts[0], ts[1], ts[2], days, ts[4], ts[5], ts[6], ts[7], ts[8], ts[9], ts[10]))
  }

  /**
    `getRowInformation` (scraper/src/westernTimetable.ts:51-110): a cursor
    walks the cells left to right and each field reads the cell under it.
   */
  method GetRowInformation(row: Node, dayCellsOf: Node -> seq<Node>) returns (r: Result<RowInformation>)
    ensures r == RowOf(row, dayCellsOf)
  {
    var cs := ChildNodes(row);
    var currentEntry := FirstNamed(cs, 0, "td");
    var sectionNumber := Trim(CursorText(cs, currentEntry));
    currentEntry := Next(cs, currentEntry);
    assert currentEntry == Cursor(cs, 1);
    var componentType := Trim(CursorText(cs, currentEntry));
    currentEntry := Next(cs, currentEntry);
    assert currentEntry == Cursor(cs, 2);
    var classNumber := Trim(CursorText(cs, currentEntry));
    currentEntry := Next(cs, currentEntry);
    assert currentEntry == Cursor(cs, 3);
    var dayCells := if currentEntry.Some? && currentEntry.value < |cs| then dayCellsOf(cs[currentEntry.value]) else [];
    var daysOfTheWeek := DaysOfWeekInformation(dayCells);
    if daysOfTheWeek.Err? {
      return Err(daysOfTheWeek.error);
    }
    currentEntry := Next(cs, currentEntry);
    assert currentEntry == Cursor(cs, 4);
    var startTime := Trim(CursorText(cs, currentEntry));
    currentEntry := Next(cs, currentEntry);
    assert currentEntry == Cursor(cs, 5);
    var endTime := Trim(CursorText(cs, currentEntry));
    currentEntry := Next(cs, currentEntry);
    assert currentEntry == Cursor(cs, 6);
    var location := Trim(CursorText(cs, currentEntry));
    currentEntry := Next(cs, currentEntry);
    assert currentEntry == Cursor(cs, 7);
    var instructorName := Trim(CursorText(cs, currentEntry));
    currentEntry := Next(cs, currentEntry);
    assert currentEntry == Cursor(cs, 8);
    var requisitesAndConstraints := Trim(CursorText(cs, currentEntry));
    currentEntry := Next(cs, currentEntry);
    assert currentEntry == Cursor(cs, 9);
    var fillStatus := Trim(CursorText(cs, currentEntry));
    currentEntry := Next(cs, currentEntry);
    assert currentEntry == Cursor(cs, 10);
    var campus := Trim(CursorText(cs, currentEntry));
    forall k | 0 <= k < 11 ensures EntryTexts(cs, 11)[k] == EntryText(cs, k) {
      EntryTextsAt(cs, 11, k);
    }
    r := Ok(RowInformation(
      sectionNumber, componentType, classNumber, daysOfTheWeek.value, startTime, endTime,
      location, instructorName, requisitesAndConstraints, fillStatus, campus));
  }

  /**
    The cursor reads consecutive element cells left to right: each position
    is past the previous one with no element in between, and once it has
    run past the last cell it stays there.
   */
  lemma CursorSteps(cs: seq<Node>, k: nat)
    ensures Cursor(cs, k + 1).Some? ==>
      && Cursor(cs, k).Some? && Cursor(cs, k).value < Cursor(cs, k + 1).value
      && forall m :: Cursor(cs, k).value < m < Cursor(cs, k + 1).value ==> !cs[m].Elem?
    ensures Cursor(cs, k).None? ==> Cursor(cs, k + 1).None?
  {
    assert Cursor(cs, k + 1) == Next(cs, Cursor(cs, k));
  }

  /** The positions of the element children among the child nodes, in increasing order. */
  function ElementPositions(cs: seq<Node>): (r: seq<nat>)
    ensures forall k :: 0 <= k < |r| ==> r[k] < |cs| && cs[r[k]].Elem?
    ensures forall k, l :: 0 <= k < l < |r| ==> r[k] < r[l]
  {
    if cs == [] then []
    else
      var init := cs[..|cs| - 1];
      var rest := ElementPositions(init);
      assert forall j :: 0 <= j < |init| ==> init[j] == cs[j];
      if cs[|cs| - 1].Elem? then rest + [|cs| - 1] else rest
  }

  /** No element child is missed. */
  lemma {:induction false} ElementPositionsComplete(cs: seq<Node>)
    ensures forall j :: 0 <= j < |cs| && cs[j].Elem? ==> j in ElementPositions(cs)
  {
    if cs != [] {
      var init := cs[..|cs| - 1];
      ElementPositionsComplete(init);
      assert forall j :: 0 <= j < |init| ==> init[j] == cs[j];
    }
  }

  /** `.next()` of the k-th element child is the element child k + 1, or the empty selection after the last one. */
  lemma NextOfElementPosition(cs: seq<Node>, k: nat)
    requires k < |ElementPositions(cs)|
    ensures var ps := ElementPositions(cs);
      NextElement(cs, ps[k] + 1) == if k + 1 < |ps| then Some(ps[k + 1]) else None
  {
    var ps := ElementPositions(cs);
    if k + 1 < |ps| {
      NextOfInnerPosition(cs, k);
    } else {
      NextOfLastPosition(cs);
    }
  }

  lemma NextOfInnerPosition(cs: seq<Node>, k: nat)
    requires k + 1 < |ElementPositions(cs)|
    ensures var ps := ElementPositions(cs);
      NextElement(cs, ps[k] + 1) == Some(ps[k + 1])
  {
    var ps := ElementPositions(cs);
    var r := NextElement(cs, ps[k] + 1);
    assert cs[ps[k + 1]].Elem?;
    assert r.Some? && r.value <= ps[k + 1];
    var l := ElementIndex(cs, r.value);
    IncreasingIndex(ps, k, l);
    assert l == k + 1;
  }

  /** The index in `ElementPositions(cs)` of an element child. */
  lemma {:induction false} ElementIndex(cs: seq<Node>, j: nat) returns (l: nat)
    requires j < |cs| && cs[j].Elem?
    ensures l < |ElementPositions(cs)| && ElementPositions(cs)[l] == j
  {
    var init := cs[..|cs| - 1];
    assert forall m :: 0 <= m < |init| ==> init[m] == cs[m];
    var ps := ElementPositions(cs);
    if j == |cs| - 1 {
      l := |ps| - 1;
    } else {
      l := ElementIndex(init, j);
    }
  }

  /** In a strictly increasing sequence a smaller value sits at a smaller index. */
  lemma IncreasingIndex(ps: seq<nat>, k: nat, l: nat)
    requires forall i, i' :: 0 <= i < i' < |ps| ==> ps[i] < ps[i']
    requires k < |ps| && l < |ps| && ps[k] < ps[l]
    ensures k < l
  {
  }

  lemma NextOfLastPosition(cs: seq<Node>)
    requires |ElementPositions(cs)| > 0
    ensures var ps := ElementPositions(cs);
      NextElement(cs, ps[|ps| - 1] + 1) == None
  {
    var ps := ElementPositions(cs);
    var last := |ps| - 1;
    ElementPositionsComplete(cs);
    forall l | 0 <= l < |ps| ensures ps[l] <= ps[last] {
      if l < last {
        assert ps[l] < ps[last];
      }
    }
  }

  /**
    In a row whose element children are all `td` cells (text and comment
    nodes may sit between them), cursor position k is the k-th element
    child, and the empty selection once the cells have run out.
   */
  lemma {:induction false} CursorOfPlainRow(cs: seq<Node>, k: nat)
    requires forall m :: 0 <= m < |cs| && cs[m].Elem? ==> IsElementNamed(cs[m], "td")
    ensures var ps := ElementPositions(cs);
      Cursor(cs, k) == if k < |ps| then Some(ps[k]) else None
  {
    if k == 0 {
      FirstCellPosition(cs);
    } else {
      CursorOfPlainRow(cs, k - 1);
      CursorAtElementStep(cs, k);
    }
  }

  /** One `nextEntry()`: from the (k-1)-th element child to the k-th. */
  lemma CursorAtElementStep(cs: seq<Node>, k: nat)
    requires k > 0
    requires var ps := ElementPositions(cs);
      Cursor(cs, k - 1) == if k - 1 < |ps| then Some(ps[k - 1]) else None
    ensures var ps := ElementPositions(cs);
      Cursor(cs, k) == if k < |ps| then Some(ps[k]) else None
  {
    var ps := ElementPositions(cs);
    assert Cursor(cs, k) == Next(cs, Cursor(cs, k - 1));
    if k - 1 < |ps| {
      NextOfElementPosition(cs, k - 1);
    }
  }

  /** The first `td` child of such a row is its first element child. */
  lemma FirstCellPosition(cs: seq<Node>)
    requires forall m :: 0 <= m < |cs| && cs[m].Elem? ==> IsElementNamed(cs[m], "td")
    ensures var ps := ElementPositions(cs);
      FirstNamed(cs, 0, "td") == if 0 < |ps| then Some(ps[0]) else None
  {
    var ps := ElementPositions(cs);
    var r := FirstNamed(cs, 0, "td");
    ElementPositionsComplete(cs);
    if 0 < |ps| {
      assert IsElementNamed(cs[ps[0]], "td");
      forall l | 0 <= l < |ps| ensures ps[0] <= ps[l] {
      }
      assert r.Some? && r.value <= ps[0];
    } else {
      assert r.None?;
    }
  }

  /** The text of field k of a row of `td` cells: the trimmed text of the k-th element child, "" past the last one. */
  function PlainCellText(cs: seq<Node>, k: nat): string {
    var ps := ElementPositions(cs);
    if k < |ps| then CellText(cs[ps[k]]) else ""
  }

  /**
    A row whose element children are `td` cells gives exactly the eleven
    fields of cells 0 to 10 in order, whatever text or comment nodes lie
    between them: texts trimmed, "" for missing cells, the mask from the
    fourth cell, and the mask 0 when there is no fourth cell.
   */
  lemma PlainRowFields(row: Node, dayCellsOf: Node -> seq<Node>)
    requires forall m :: 0 <= m < |ChildNodes(row)| && ChildNodes(row)[m].Elem? ==> IsElementNamed(ChildNodes(row)[m], "td")
    ensures var cs := ChildNodes(row);
      var ps := ElementPositions(cs);
      RowOf(row, dayCellsOf) == (
        var days := if |ps| > 3 then DaysOfWeek(dayCellsOf(cs[ps[3]])) else Ok(0);
        if days.Err? then Err(days.error)
        else Ok(RowInformation(
          PlainCellText(cs, 0), PlainCellText(cs, 1), PlainCellText(cs, 2), days.value,
          PlainCellText(cs, 4), PlainCellText(cs, 5), PlainCellText(cs, 6), PlainCellText(cs, 7),
          PlainCellText(cs, 8), PlainCellText(cs, 9), PlainCellText(cs, 10))))
  {
    var cs := ChildNodes(row);
    PlainEntryTexts(cs);
    PlainDayCells(cs, dayCellsOf);
    NoDayCells();
  }

  /** The eleven texts of such a row are those of its element children 0 to 10. */
  lemma PlainEntryTexts(cs: seq<Node>)
    requires forall m :: 0 <= m < |cs| && cs[m].Elem? ==> IsElementNamed(cs[m], "td")
    ensures forall k: nat :: k <= 10 ==> EntryTexts(cs, 11)[k] == PlainCellText(cs, k)
  {
    forall k: nat | k <= 10 ensures EntryTexts(cs, 11)[k] == PlainCellText(cs, k) {
      EntryTextsAt(cs, 11, k);
      PlainEntryText(cs, k);
    }
  }

  /** The day cells of such a row are those of its fourth element child, none without one. */
  lemma PlainDayCells(cs: seq<Node>, dayCellsOf: Node -> seq<Node>)
    requires forall m :: 0 <= m < |cs| && cs[m].Elem? ==> IsElementNamed(cs[m], "td")
    ensures var ps := ElementPositions(cs);
      DayCells(cs, 3, dayCellsOf) == if |ps| > 3 then dayCellsOf(cs[ps[3]]) else []
  {
    CursorOfPlainRow(cs, 3);
  }

  /** In such a row, the text under cursor position k is that of the k-th element child. */
  lemma PlainEntryText(cs: seq<Node>, k: nat)
    requires forall m :: 0 <= m < |cs| && cs[m].Elem? ==> IsElementNamed(cs[m], "td")
    ensures EntryText(cs, k) == PlainCellText(cs, k)
  {
    CursorOfPlainRow(cs, k);
    if k >= |ElementPositions(cs)| {
      TrimOfEmpty();
    }
  }

  lemma TrimOfEmpty()
    ensures Trim("") == ""
  {
  }

  // ---------------------------------------------------------------------------
  // getTimetableDataFromTable
  // ---------------------------------------------------------------------------

  /** The `tr` children of each body, body after body. */
  function BodyRows(bodies: seq<Node>): (r: seq<Node>)
    ensures forall k :: 0 <= k < |r| ==> IsElementNamed(r[k], "tr")
  {
    if bodies == [] then [] else ChildrenNamed(ChildNodes(bodies[0]), "tr") + BodyRows(bodies[1..])
  }

  /** `$table.children("tbody").children("tr")`: the rows of the table's bodies, in document order. */
  function TableRows(table: Node): (r: seq<Node>)
    ensures forall k :: 0 <= k < |r| ==> IsElementNamed(r[k], "tr")
  {
    BodyRows(ChildrenNamed(ChildNodes(table), "tbody"))
  }

  /** What `getRowInformation` gives for each row, in row order. */
  function RowResults(rows: seq<Node>, dayCellsOf: Node -> seq<Node>): (r: seq<Result<RowInformation>>)
    ensures |r| == |rows|
  {
    seq(|rows|, k requires 0 <= k < |rows| => RowOf(rows[k], dayCellsOf))
  }

  lemma RowResultsAt(rows: seq<Node>, dayCellsOf: Node -> seq<Node>, i: nat)
    requires i < |rows|
    ensures RowResults(rows, dayCellsOf)[i] == RowOf(rows[i], dayCellsOf)
  {
  }

  /**
    The records of the first `n` row results: one per row, in row order, or
    the error of a row that throws.
   */
  function CollectedUpTo(results: seq<Result<RowInformation>>, n: nat): (r: Result<seq<RowInformation>>)
    requires n <= |results|
    ensures r.Err? ==> exists k :: 0 <= k < n && results[k].Err? && results[k].error == r.error
    ensures r.Ok? ==> (|r.value| == n && forall k :: 0 <= k < n ==> results[k] == Ok(r.value[k]))
  {
    if n == 0 then Ok([])
    else
      var prefix :- CollectedUpTo(results, n - 1);
      var row :- results[n - 1];
      Ok(prefix + [row])
  }

  /** The records of all rows of the table, or the first error. */
  function TableData(rows: seq<Node>, dayCellsOf: Node -> seq<Node>): (r: Result<seq<RowInformation>>)
    ensures r.Err? ==> r.error == TooManyWeekdays
  {
    CollectedUpTo(RowResults(rows, dayCellsOf), |rows|)
  }

  lemma {:induction false} CollectedErrorStays(results: seq<Result<RowInformation>>, k: nat, n: nat)
    requires k <= n <= |results|
    requires CollectedUpTo(results, k).Err?
    ensures CollectedUpTo(results, n) == CollectedUpTo(results, k)
    decreases n - k
  {
    if k < n {
      CollectedErrorStays(results, k, n - 1);
      CollectedErrorStep(results, n);
    }
  }

  lemma CollectedErrorStep(results: seq<Result<RowInformation>>, n: nat)
    requires 0 < n <= |results| && CollectedUpTo(results, n - 1).Err?
    ensures CollectedUpTo(results, n) == CollectedUpTo(results, n - 1)
  {
  }

  /** One more row appends its record, or its error ends the table. */
  lemma CollectedStep(results: seq<Result<RowInformation>>, i: nat, list: seq<RowInformation>)
    requires i < |results| && CollectedUpTo(results, i) == Ok(list)
    ensures results[i].Err? ==> CollectedUpTo(results, |results|) == Err(results[i].error)
    ensures results[i].Ok? ==> CollectedUpTo(results, i + 1) == Ok(list + [results[i].value])
  {
    if results[i].Err? {
      CollectedErrorStays(results, i + 1, |results|);
    }
  }

  /**
    `getTimetableDataFromTable` (scraper/src/westernTimetable.ts:47-49,
    112-119): the record of each `tbody > tr` row, pushed in row order.
   */
  method GetTimetableDataFromTable(table: Node, dayCellsOf: Node -> seq<Node>) returns (r: Result<seq<RowInformation>>)
    ensures r == TableData(TableRows(table), dayCellsOf)
  {
    var tableRows := TableRows(table);
    ghost var results := RowResults(tableRows, dayCellsOf);
    assert TableData(tableRows, dayCellsOf) == CollectedUpTo(results, |results|);
    var rowInformationList: seq<RowInformation> := [];
    for i := 0 to |tableRows|
      invariant CollectedUpTo(results, i) == Ok(rowInformationList)
    {
      var rowInformation := GetRowInformation(tableRows[i], dayCellsOf);
      RowResultsAt(tableRows, dayCellsOf, i);
      CollectedStep(results, i, rowInformationList);
      if rowInformation.Err? {
        return Err(rowInformation.error);
      }
      rowInformationList := rowInformationList + [rowInformation.value];
    }
    r := Ok(rowInformationList);
  }

  /**
    The table gives one record per row, in row order, exactly when no row
    throws; otherwise it throws the error of the first row that does.
   */
  lemma {:induction false} CollectedSpec(results: seq<Result<RowInformation>>, n: nat)
    requires n <= |results|
    ensures CollectedUpTo(results, n).Err? <==> exists k :: 0 <= k < n && results[k].Err?
    ensures CollectedUpTo(results, n).Err? ==>
      exists k :: 0 <= k < n && results[k].Err? && results[k].error == CollectedUpTo(results, n).error && forall m :: 0 <= m < k ==> results[m].Ok?
  {
    if n > 0 {
      CollectedSpec(results, n - 1);
      var prev := CollectedUpTo(results, n - 1);
      if prev.Ok? {
        assert forall m :: 0 <= m < n - 1 ==> results[m].Ok? by {
          assert forall m :: 0 <= m < n - 1 ==> results[m] == Ok(prev.value[m]);
        }
        if results[n - 1].Err? {
          assert CollectedUpTo(results, n) == Err(results[n - 1].error);
        } else {
          assert CollectedUpTo(results, n) == Ok(prev.value + [results[n - 1].value]);
        }
      } else {
        assert CollectedUpTo(results, n) == prev;
        var k :| 0 <= k < n - 1 && results[k].Err? && results[k].error == prev.error && forall m :: 0 <= m < k ==> results[m].Ok?;
        assert 0 <= k < n && results[k].Err? && results[k].error == CollectedUpTo(results, n).error;
      }
    }
  }

  // ---------------------------------------------------------------------------
  // getNextMatchingSibling
  // ---------------------------------------------------------------------------

  /**
    `getNextMatchingSibling` as documented: the first following sibling
    element that matches the selector (for a tag selector, has that tag), or
    `null` when none does. The scan goes from element sibling to element
    sibling and stops at the end of the siblings.
   */
  method NextMatchingSibling(following: seq<Node>, name: string) returns (r: Option<nat>)
    ensures r.Some? ==> r.value < |following| && IsElementNamed(following[r.value], name)
    ensures forall k :: 0 <= k < |following| && (r.None? || k < r.value) ==> !IsElementNamed(following[k], name)
    ensures r == FirstNamed(following, 0, name)
  {
    var nextSibling := NextElement(following, 0);
    while nextSibling.Some? && !IsElementNamed(following[nextSibling.value], name)
      invariant nextSibling.Some? ==> nextSibling.value < |following| && following[nextSibling.value].Elem?
      invariant forall k :: 0 <= k < |following| && (nextSibling.None? || k < nextSibling.value) ==> !IsElementNamed(following[k], name)
      decreases if nextSibling.Some? then |following| - nextSibling.value else 0
    {
      nextSibling := NextElement(following, nextSibling.value + 1);
    }
    r := nextSibling;
    FirstNamedUnique(following, name, r);
  }

  /** The first named element is the only position with the two properties of the documented scan. */
  lemma FirstNamedUnique(ns: seq<Node>, name: string, r: Option<nat>)
    requires r.Some? ==> r.value < |ns| && IsElementNamed(ns[r.value], name)
    requires forall k :: 0 <= k < |ns| && (r.None? || k < r.value) ==> !IsElementNamed(ns[k], name)
    ensures r == FirstNamed(ns, 0, name)
  {
    var f := FirstNamed(ns, 0, name);
    if r.Some? && f.Some? {
      assert !(r.value < f.value) && !(f.value < r.value);
    }
  }

  /** What the as-written loop has done after some iterations: returned a selection, returned `null`, or is still looping. */
  datatype ScanState = Returned(cur: Option<nat>) | ReturnedNull | StillLooping(cur: Option<nat>)

  /** JavaScript truthiness of a Cheerio selection: it is an object, so even the empty selection is truthy. */
  predicate Truthy(cur: Option<nat>) {
    true
  }

  /**
    `getNextMatchingSibling` as written (scraper/src/westernTimetable.ts:128-137),
    run for at most `fuel` iterations from the cursor `cur`: the loop
    continues while the cursor is truthy and does not match; past the last
    sibling the cursor is the empty selection, which is still truthy and
    still does not match.
   */
  function ScanAsWritten(following: seq<Node>, name: string, cur: Option<nat>, fuel: nat): ScanState
    decreases fuel
  {
    if Truthy(cur) && !IsNamedAt(following, cur, name) then
      if fuel == 0 then StillLooping(cur) else ScanAsWritten(following, name, Next(following, cur), fuel - 1)
    else if !Truthy(cur) then ReturnedNull
    else Returned(cur)
  }

  /** As written, the `null` result can never be produced. */
  lemma {:induction false} AsWrittenNeverNull(following: seq<Node>, name: string, cur: Option<nat>, fuel: nat)
    ensures ScanAsWritten(following, name, cur, fuel) != ReturnedNull
    decreases fuel
  {
    if !IsNamedAt(following, cur, name) && fuel > 0 {
      AsWrittenNeverNull(following, name, Next(following, cur), fuel - 1);
    }
  }

  /**
    As written, when no later sibling matches, the loop is still running
    after any number of iterations: the scan never ends.
   */
  lemma {:induction false} AsWrittenRunsForever(following: seq<Node>, name: string, cur: Option<nat>, fuel: nat)
    requires cur.None? || FirstNamed(following, cur.value, name).None?
    ensures ScanAsWritten(following, name, cur, fuel).StillLooping?
    decreases fuel
  {
    if fuel > 0 {
      var nx := Next(following, cur);
      assert nx.None? || FirstNamed(following, nx.value, name).None?;
      AsWrittenRunsForever(following, name, nx, fuel - 1);
    }
  }

  /** A header without a `table` sibling after it: the as-written scan never stops. */
  lemma NoTableAfterHeader(following: seq<Node>, fuel: nat)
    requires FirstNamed(following, 0, "table").None?
    ensures ScanAsWritten(following, "table", NextElement(following, 0), fuel).StillLooping?
  {
    var start := NextElement(following, 0);
    assert start.None? || FirstNamed(following, start.value, "table").None?;
    AsWrittenRunsForever(following, "table", start, fuel);
  }

  /** When a later sibling matches, the as-written scan does find the first one, within |following| iterations. */
  lemma {:induction false} AsWrittenFindsFirst(following: seq<Node>, name: string, from: nat, p: nat, fuel: nat)
    requires FirstNamed(following, from, name) == Some(p)
    requires fuel >= p - from
    ensures ScanAsWritten(following, name, NextElement(following, from), fuel) == Returned(Some(p))
    decreases fuel
  {
    var c := NextElement(following, from);
    assert c.Some? && c.value <= p;
    if c.value < p {
      assert FirstNamed(following, c.value + 1, name) == Some(p) by {
        FirstNamedLater(following, name, from, c.value + 1, p);
      }
      AsWrittenFindsFirst(following, name, c.value + 1, p, fuel - 1);
    }
  }

  /** Starting later, but not past the first named element, finds the same element. */
  lemma FirstNamedLater(ns: seq<Node>, name: string, from: nat, from': nat, p: nat)
    requires FirstNamed(ns, from, name) == Some(p)
    requires from <= from' <= p
    ensures FirstNamed(ns, from', name) == Some(p)
  {
    var f := FirstNamed(ns, from', name);
    assert f.Some? && f.value <= p;
  }

  // ---------------------------------------------------------------------------
  // The offering header
  // ---------------------------------------------------------------------------

  /** The three capture groups of `/([A-Za-z]+)\s+(\d+)([A-Z]+)/`. */
  datatype OfferingHeader = OfferingHeader(subjectCode: string, courseNumber: string, suffixes: string)

  /**
    The attempt of the pattern at `i`. Letters, whitespace, digits and
    capitals after digits are disjoint classes, so each greedy run either
    stops at its maximal end or the attempt fails.
   */
  function OfferingHeaderAt(t: string, i: nat): Option<OfferingHeader>
    requires i <= |t|
  {
    var a := RunEnd(t, i, Letter);
    var b := RunEnd(t, a, Space);
    var c := RunEnd(t, b, Digit);
    var d := RunEnd(t, c, Upper);
    if i < a < b < c < d then Some(OfferingHeader(t[i..a], t[b..c], t[c..d])) else None
  }

  /** The pattern matches `t[i..d]` with groups `t[i..a]`, `t[b..c]`, `t[c..d]` (not necessarily greedily). */
  predicate IsOfferingMatch(t: string, i: nat, a: nat, b: nat, c: nat, d: nat) {
    && i < a < b < c < d <= |t|
    && AllIn(t, i, a, Letter) && AllIn(t, a, b, Space) && AllIn(t, b, c, Digit) && AllIn(t, c, d, Upper)
  }

  /** Any match at `i` has the letter, space and digit runs of the attempt, and no more capitals than it takes. */
  lemma OfferingMatchDetermined(t: string, i: nat, a: nat, b: nat, c: nat, d: nat)
    requires IsOfferingMatch(t, i, a, b, c, d)
    ensures OfferingHeaderAt(t, i).Some?
    ensures RunEnd(t, i, Letter) == a && RunEnd(t, a, Space) == b && RunEnd(t, b, Digit) == c && d <= RunEnd(t, c, Upper)
  {
    assert !IsLetter(t[a]) && !IsSpace(t[b]) && !IsDigit(t[c]);
    RunEndAt(t, i, a, Letter);
    RunEndAt(t, a, b, Space);
    RunEndAt(t, b, c, Digit);
  }

  /** The attempt at `i` succeeds exactly when some match starts there, and it takes the widest one. */
  lemma OfferingHeaderAtSpec(t: string, i: nat)
    requires i <= |t|
    ensures OfferingHeaderAt(t, i).Some? ==>
      var a := RunEnd(t, i, Letter); var b := RunEnd(t, a, Space);
      var c := RunEnd(t, b, Digit); var d := RunEnd(t, c, Upper);
      IsOfferingMatch(t, i, a, b, c, d) && OfferingHeaderAt(t, i).value == OfferingHeader(t[i..a], t[b..c], t[c..d])
  {
  }

  /** Where the leftmost match starts, and |t| when there is none. */
  function FirstOfferingPosition(t: string, i: nat): (j: nat)
    requires i <= |t|
    ensures i <= j <= |t|
    ensures forall k :: i <= k < j ==> OfferingHeaderAt(t, k).None?
    ensures OfferingHeaderAt(t, j).None? ==> j == |t|
    decreases |t| - i
  {
    if i == |t| || OfferingHeaderAt(t, i).Some? then i else FirstOfferingPosition(t, i + 1)
  }

  /** `Array.from(text.matchAll(courseHeaderPattern))[0]`: the leftmost match, if any. */
  function FirstOfferingHeader(t: string): Option<OfferingHeader> {
    OfferingHeaderAt(t, FirstOfferingPosition(t, 0))
  }

  /**
    The header match, stated without the search: there is none exactly when
    the pattern matches nowhere; otherwise its groups are those of a match
    that no other match precedes and that takes every capital after the digits.
   */
  lemma FirstOfferingHeaderSpec(t: string)
    ensures FirstOfferingHeader(t).None? <==> forall i: nat, a: nat, b: nat, c: nat, d: nat :: !IsOfferingMatch(t, i, a, b, c, d)
    ensures FirstOfferingHeader(t).Some? ==>
      exists i: nat, a: nat, b: nat, c: nat, d: nat ::
        && IsOfferingMatch(t, i, a, b, c, d)
        && FirstOfferingHeader(t).value == OfferingHeader(t[i..a], t[b..c], t[c..d])
        && (d == |t| || !IsUpper(t[d]))
        && forall i': nat, a': nat, b': nat, c': nat, d': nat :: IsOfferingMatch(t, i', a', b', c', d') ==> i <= i'
  {
    var j := FirstOfferingPosition(t, 0);
    forall i: nat, a: nat, b: nat, c: nat, d: nat | IsOfferingMatch(t, i, a, b, c, d)
      ensures j <= i && OfferingHeaderAt(t, j).Some?
    {
      OfferingMatchDetermined(t, i, a, b, c, d);
    }
    OfferingHeaderAtSpec(t, j);
  }

  /** The suffix letters are required: a header matches only where a digit is followed by a capital. */
  lemma SuffixRequired(t: string)
    ensures FirstOfferingHeader(t).Some? ==> exists k :: 0 < k < |t| && IsDigit(t[k - 1]) && IsUpper(t[k])
  {
    FirstOfferingHeaderSpec(t);
    if FirstOfferingHeader(t).Some? {
      var i: nat, a: nat, b: nat, c: nat, d: nat :| IsOfferingMatch(t, i, a, b, c, d);
      assert IsDigit(t[c - 1]) && IsUpper(t[c]);
    }
  }

  lemma SuffixExampleAttempt(t: string)
    requires t == "Calc 1000A/B"
    ensures OfferingHeaderAt(t, 0) == Some(OfferingHeader("Calc", "1000", "A"))
  {
    RunEndAt(t, 0, 4, Letter);
    RunEndAt(t, 4, 5, Space);
    RunEndAt(t, 5, 9, Digit);
    RunEndAt(t, 9, 10, Upper);
    assert t[0..4] == "Calc";
    assert t[5..9] == "1000";
    assert t[9..10] == "A";
  }

  /** "Calc 1000A/B" gives subject "Calc", number "1000" and suffixes "A": the slash ends the capital run. */
  lemma SuffixExample(t: string)
    requires t == "Calc 1000A/B"
    ensures FirstOfferingHeader(t) == Some(OfferingHeader("Calc", "1000", "A"))
  {
    SuffixExampleAttempt(t);
    assert FirstOfferingPosition(t, 0) == 0;
  }

  // ---------------------------------------------------------------------------
  // getCourseOfferingDataFromHeader and the header loop
  // ---------------------------------------------------------------------------

  /** A course header of the result page and the sibling nodes that follow it. */
  datatype HeaderInPage = HeaderInPage(header: Node, following: seq<Node>)

  /** The record of one course offering. */
  datatype CourseOffering = CourseOffering(
    subjectCode: string,
    courseNumber: string,
    suffixes: string,
    courseCode: string,
    courseDescription: string,
    timetableInformation: seq<RowInformation>)

  /**
    `$header.next("p").text()`: the untrimmed text of the next element
    sibling when it is a `p`, and "" otherwise.
   */
  function Description(following: seq<Node>): string {
    match NextElement(following, 0)
    case None => ""
    case Some(k) => if IsElementNamed(following[k], "p") then TextContent(following[k]) else ""
  }

  /**
    The description is the text of a `p` sibling exactly when no other
    element comes between the header and it, and "" when there is no such
    `p`.
   */
  lemma DescriptionSpec(following: seq<Node>)
    ensures forall k :: 0 <= k < |following| && IsElementNamed(following[k], "p") && (forall m :: 0 <= m < k ==> !following[m].Elem?) ==>
                          Description(following) == TextContent(following[k])
    ensures (forall k :: 0 <= k < |following| && IsElementNamed(following[k], "p") ==> exists m :: 0 <= m < k && following[m].Elem?) ==>
              Description(following) == ""
  {
    var n := NextElement(following, 0);
    forall k | 0 <= k < |following| && IsElementNamed(following[k], "p") && (forall m :: 0 <= m < k ==> !following[m].Elem?)
      ensures n == Some(k)
    {
    }
    if n.Some? && IsElementNamed(following[n.value], "p") {
      assert forall m :: 0 <= m < n.value ==> !following[m].Elem?;
    }
  }

  /** The record `getCourseOfferingDataFromHeader` returns, with the documented sibling scan, or the error it throws. */
  function OfferingOf(h: HeaderInPage, dayCellsOf: Node -> seq<Node>): (r: Result<CourseOffering>)
    ensures r.Err? ==> r.error in {ScheduleTableNotFound, OfferingHeaderMismatch, TooManyWeekdays}
  {
    match FirstNamed(h.following, 0, "table")
    case None => Err(ScheduleTableNotFound)
    case Some(p) =>
      match FirstOfferingHeader(TextContent(h.header))
      case None => Err(OfferingHeaderMismatch)
      case Some(m) =>
        var rows :- TableData(TableRows(h.following[p]), dayCellsOf);
        Ok(CourseOffering(m.subjectCode, m.courseNumber, m.suffixes, m.subjectCode + " " + m.courseNumber,
          Description(h.following), rows))
  }

  /**
    `getCourseOfferingDataFromHeader` (scraper/src/westernTimetable.ts:139-174),
    with the corrected sibling scan: the schedule table is looked up first,
    then the header text is matched, then the table's rows are read.
   */
  method CourseOfferingDataFromHeader(h: HeaderInPage, dayCellsOf: Node -> seq<Node>) returns (r: Result<CourseOffering>)
    ensures r == OfferingOf(h, dayCellsOf)
  {
    var courseDescription := Description(h.following);
    var scheduleTable := NextMatchingSibling(h.following, "table");
    if scheduleTable.None? {
      return Err(ScheduleTableNotFound);
    }
    var courseHeaderMatch := FirstOfferingHeader(TextContent(h.header));
    if courseHeaderMatch.None? {
      return Err(OfferingHeaderMismatch);
    }
    var m := courseHeaderMatch.value;
    var courseCode := m.subjectCode + " " + m.courseNumber;
    var timetableInformation := GetTimetableDataFromTable(h.following[scheduleTable.value], dayCellsOf);
    if timetableInformation.Err? {
      return Err(timetableInformation.error);
    }
    r := Ok(CourseOffering(m.subjectCode, m.courseNumber, m.suffixes, courseCode, courseDescription, timetableInformation.value));
  }

  /** The groups of a header match are non-empty: a run of letters, a run of digits, a run of capitals. */
  lemma FirstOfferingHeaderNonEmpty(t: string)
    requires FirstOfferingHeader(t).Some?
    ensures var m := FirstOfferingHeader(t).value;
      |m.subjectCode| > 0 && |m.courseNumber| > 0 && |m.suffixes| > 0
  {
    OfferingHeaderAtSpec(t, FirstOfferingPosition(t, 0));
  }

  /**
    A successful offering: the groups of the leftmost header match (a run of
    letters, a run of digits, a non-empty run of capitals), the course code
    "subject number", the untrimmed description, and one record per row of
    the first `table` sibling.
   */
  lemma OfferingFields(h: HeaderInPage, dayCellsOf: Node -> seq<Node>)
    requires OfferingOf(h, dayCellsOf).Ok?
    ensures FirstNamed(h.following, 0, "table").Some?
    ensures FirstOfferingHeader(TextContent(h.header)).Some?
    ensures var o := OfferingOf(h, dayCellsOf).value;
      var m := FirstOfferingHeader(TextContent(h.header)).value;
      var rows := TableRows(h.following[FirstNamed(h.following, 0, "table").value]);
      && o.subjectCode == m.subjectCode && o.courseNumber == m.courseNumber && o.suffixes == m.suffixes
      && o.courseCode == o.subjectCode + " " + o.courseNumber
      && |o.subjectCode| > 0 && |o.courseNumber| > 0 && |o.suffixes| > 0
      && o.courseDescription == Description(h.following)
      && |o.timetableInformation| == |rows|
      && forall k :: 0 <= k < |rows| ==> RowOf(rows[k], dayCellsOf) == Ok(o.timetableInformation[k])
  {
    var t := TextContent(h.header);
    var m := FirstOfferingHeader(t).value;
    var rows := TableRows(h.following[FirstNamed(h.following, 0, "table").value]);
    var data := TableData(rows, dayCellsOf);
    var o := OfferingOf(h, dayCellsOf).value;
    assert o == CourseOffering(m.subjectCode, m.courseNumber, m.suffixes,
      m.subjectCode + " " + m.courseNumber, Description(h.following), data.value);
    RowsOfTable(rows, dayCellsOf);
    FirstOfferingHeaderNonEmpty(t);
  }

  /** A table that does not throw gives one record per row, each the record of its row. */
  lemma RowsOfTable(rows: seq<Node>, dayCellsOf: Node -> seq<Node>)
    requires TableData(rows, dayCellsOf).Ok?
    ensures var v := TableData(rows, dayCellsOf).value;
      |v| == |rows| && forall k :: 0 <= k < |rows| ==> RowOf(rows[k], dayCellsOf) == Ok(v[k])
  {
    assert forall k :: 0 <= k < |rows| ==> RowResults(rows, dayCellsOf)[k] == RowOf(rows[k], dayCellsOf);
  }

  /** What `getCourseOfferingDataForSubject` returns for the headers of the page, or the error it throws. */
  function OfferingsFor(mapping: SubjectMapping, subject: string, headers: seq<HeaderInPage>, dayCellsOf: Node -> seq<Node>): Result<seq<CourseOffering>> {
    if !Has(mapping, subject) then Err(InvalidSubject)
    else if headers == [] then Ok([])
    else
      var o :- OfferingOf(headers[0], dayCellsOf);
      Ok([o])
  }

  /** For a known subject, the offerings are those of the first header, or its error. */
  lemma OfferingsOfKnownSubject(mapping: SubjectMapping, subject: string, headers: seq<HeaderInPage>, dayCellsOf: Node -> seq<Node>)
    requires Has(mapping, subject)
    ensures headers == [] ==> OfferingsFor(mapping, subject, headers, dayCellsOf) == Ok([])
    ensures headers != [] && OfferingOf(headers[0], dayCellsOf).Err? ==>
      OfferingsFor(mapping, subject, headers, dayCellsOf) == Err(OfferingOf(headers[0], dayCellsOf).error)
    ensures headers != [] && OfferingOf(headers[0], dayCellsOf).Ok? ==>
      OfferingsFor(mapping, subject, headers, dayCellsOf) == Ok([OfferingOf(headers[0], dayCellsOf).value])
  {
  }

  /**
    `getCourseOfferingDataForSubject` (scraper/src/westernTimetable.ts:33-184)
    once the page for the subject is loaded: it throws for a subject missing
    from the mapping, and its header loop `break`s after the first push.
   */
  method GetCourseOfferingDataForSubject(mapping: SubjectMapping, subject: string, courseHeaders: seq<HeaderInPage>, dayCellsOf: Node -> seq<Node>)
    returns (r: Result<seq<CourseOffering>>)
    ensures r == OfferingsFor(mapping, subject, courseHeaders, dayCellsOf)
  {
    if !Has(mapping, subject) {
      return Err(InvalidSubject);
    }
    var subjectCourseOfferingData: seq<CourseOffering> := [];
    for i := 0 to |courseHeaders|
      invariant i == 0 && subjectCourseOfferingData == []
    {
      var courseOfferingData := CourseOfferingDataFromHeader(courseHeaders[i], dayCellsOf);
      OfferingsOfKnownSubject(mapping, subject, courseHeaders, dayCellsOf);
      if courseOfferingData.Err? {
        return Err(courseOfferingData.error);
      }
      subjectCourseOfferingData := subjectCourseOfferingData + [courseOfferingData.value];
      assert subjectCourseOfferingData == [OfferingOf(courseHeaders[0], dayCellsOf).value];
      break;
    }
    OfferingsOfKnownSubject(mapping, subject, courseHeaders, dayCellsOf);
    assert courseHeaders == [] ==> subjectCourseOfferingData == [];
    assert courseHeaders != [] ==> subjectCourseOfferingData == [OfferingOf(courseHeaders[0], dayCellsOf).value];
    r := Ok(subjectCourseOfferingData);
  }

  /**
    An unknown subject throws "Invalid subject" and nothing else does; a
    known subject gives at most one offering, that of the first header.
   */
  lemma OfferingsSpec(mapping: SubjectMapping, subject: string, headers: seq<HeaderInPage>, dayCellsOf: Node -> seq<Node>)
    ensures OfferingsFor(mapping, subject, headers, dayCellsOf) == Err(InvalidSubject) <==> !Has(mapping, subject)
    ensures OfferingsFor(mapping, subject, headers, dayCellsOf).Ok? ==>
      var os := OfferingsFor(mapping, subject, headers, dayCellsOf).value;
      && |os| <= 1
      && (|os| == 1 <==> headers != [])
      && (headers != [] ==> OfferingOf(headers[0], dayCellsOf) == Ok(os[0]))
  {
    if Has(mapping, subject) && headers != [] && OfferingOf(headers[0], dayCellsOf).Err? {
      assert OfferingOf(headers[0], dayCellsOf).error != InvalidSubject;
    }
  }
}
