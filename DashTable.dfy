/**
 * The patient table of dash.js: the <tr> rows of #patientTable's tbody, the
 * module-level pagination state (currentPage, entriesPerPage, filteredData),
 * what the page shows (which rows are hidden, the page-number buttons, the
 * previous/next buttons and the "Showing start to end of total" figures),
 * and the handlers that change them.
 *
 * A row is a value that carries its DOM identity (`node`), so that an update
 * in place keeps the element and its visibility.  Visibility is the set of
 * nodes whose style.display is 'none'.
 */
module DashTable {
  import opened Wrappers
  import opened Text
  import opened Paging

  /** A patient as the dashboard's scripts receive it in JSON; every value already rendered as text, null as None. */
  datatype PatientJson = PatientJson(
    patientId: string,
    firstname: string,
    middlename: Option<string>,
    lastname: string,
    birthdate: string,
    age: string,
    gender: string,
    address: string,
    contactNumber: string,
    bloodPressure: Option<string>,
    weight: Option<string>,
    height: Option<string>,
    profileImage: string)

  /** A <tr> of the table: its DOM element, the patient its data-* attributes describe, and its textContent. */
  datatype Row = Row(node: nat, patient: PatientJson, text: string)

  /** `${x}` in a template literal: null prints as "null". */
  function Show(x: Option<string>): string {
    match x
    case Some(s) => s
    case None => "null"
  }

  /** `${x || ''}`: null and the empty string print as nothing. */
  function OrEmpty(x: Option<string>): string {
    match x
    case Some(s) => s
    case None => ""
  }

  /** The whitespace text node a template line break leaves: a newline and `k` spaces of indentation. */
  function Gap(k: nat): string {
    "\n" + seq(k, _ => ' ')
  }

  function CellsText(cells: seq<string>): string {
    if cells == [] then [] else Gap(20) + cells[0] + CellsText(cells[1..])
  }

  function ButtonsText(labels: seq<string>): string {
    if labels == [] then Gap(20) else Gap(24) + labels[0] + ButtonsText(labels[1..])
  }

  /** The textContent of a row built from the template with these cells and action-button labels. */
  function TemplateText(cells: seq<string>, labels: seq<string>): string {
    CellsText(cells) + Gap(20) + ButtonsText(labels) + Gap(16)
  }

  const ComplaintsLabel: string := "\U{1F4C4} Complaints"
  const UpdateLabel: string := "\U{270F}\U{FE0F} Update"
  const DeleteLabel: string := "\U{1F5D1}\U{FE0F} Delete"

  /** A row text that begins with the patient_id cell holds the lower-cased id in its lower-cased text. */
  lemma IdInRowText(cells: seq<string>, labels: seq<string>)
    requires cells != []
    ensures Includes(Lower(TemplateText(cells, labels)), Lower(cells[0]))
  {
    var rest := CellsText(cells[1..]) + Gap(20) + ButtonsText(labels) + Gap(16);
    assert TemplateText(cells, labels) == Gap(20) + cells[0] + rest;
    LowerAppend(Gap(20) + cells[0], rest);
    LowerAppend(Gap(20), cells[0]);
    IncludesInfix(Lower(Gap(20)), Lower(cells[0]), Lower(rest));
  }

  /**
   * The textContent of a row that loadPatientTable builds (dash.js:92-108);
   * searching for the patient's id, in any case, finds the row.
   */
  function ListingText(p: PatientJson): (text: string)
    ensures Includes(Lower(text), Lower(p.patientId))
  {
    var cells := [p.patientId, p.contactNumber, p.firstname + " " + OrEmpty(p.middlename) + " " + p.lastname,
                  p.birthdate, p.age, p.gender, p.address, Show(p.bloodPressure), Show(p.weight), Show(p.height)];
    var labels := [ComplaintsLabel, UpdateLabel, DeleteLabel];
    IdInRowText(cells, labels);
    TemplateText(cells, labels)
  }

  /** The textContent of a row that the add-patient submit handler builds or rewrites (dash.js:1134-1149, 1167-1182). */
  function SavedText(p: PatientJson): (text: string)
    ensures Includes(Lower(text), Lower(p.patientId))
  {
    var cells := [p.patientId, p.contactNumber, p.firstname + " " + OrEmpty(p.middlename) + " " + p.lastname,
                  p.birthdate, p.age, p.gender, p.address, OrEmpty(p.bloodPressure), OrEmpty(p.weight), OrEmpty(p.height)];
    var labels := [ComplaintsLabel, UpdateLabel];
    IdInRowText(cells, labels);
    TemplateText(cells, labels)
  }

  /** searchTable's test: the lower-cased textContent includes the (already lower-cased) term. */
  predicate Matches(r: Row, term: string)
    ensures term == [] ==> Matches(r, term)
    ensures Matches(r, term) ==> |term| <= |r.text|
  {
    Includes(Lower(r.text), term)
  }

  /** rows.filter(row => row.textContent.toLowerCase().includes(term)). */
  function Filter(rows: seq<Row>, term: string): (kept: seq<Row>)
    ensures |kept| <= |rows|
    ensures forall i :: 0 <= i < |kept| ==> kept[i] in rows && Matches(kept[i], term)
  {
    if rows == [] then []
    else (if Matches(rows[0], term) then [rows[0]] else []) + Filter(rows[1..], term)
  }

  /** The element identities of a sequence of rows. */
  function NodesOf(s: seq<Row>): set<nat> {
    set i | 0 <= i < |s| :: s[i].node
  }

  lemma {:induction false} NodesOfMember(s: seq<Row>, x: nat)
    ensures x in NodesOf(s) <==> exists i :: 0 <= i < |s| && s[i].node == x
    decreases |s|
  {
    if s != [] {
      var t := s[..|s| - 1];
      NodesOfMember(t, x);
      if exists i :: 0 <= i < |t| && t[i].node == x {
        var i :| 0 <= i < |t| && t[i].node == x;
        assert s[i].node == x;
      }
    }
  }

  lemma NodesOfSnoc(s: seq<Row>, k: nat)
    requires k < |s|
    ensures NodesOf(s[..k + 1]) == NodesOf(s[..k]) + {s[k].node}
  {
    assert s[..k + 1][..k] == s[..k];
  }

  /** Filtering distributes over concatenation, so it keeps the rows' order. */
  lemma {:induction false} FilterAppend(a: seq<Row>, b: seq<Row>, term: string)
    ensures Filter(a + b, term) == Filter(a, term) + Filter(b, term)
  {
    if a != [] {
      assert (a + b)[1..] == a[1..] + b;
      FilterAppend(a[1..], b, term);
    } else {
      assert a + b == b;
    }
  }

  /** A row is kept exactly when it is one of the rows and matches the term. */
  lemma {:induction false} FilterMembership(rows: seq<Row>, term: string, r: Row)
    ensures r in Filter(rows, term) <==> r in rows && Matches(r, term)
  {
    if rows != [] {
      FilterMembership(rows[1..], term, r);
      assert r in rows <==> r == rows[0] || r in rows[1..];
    }
  }

  /** When every row matches (in particular for the empty term) the filter keeps the whole list. */
  lemma {:induction false} FilterKeepsAll(rows: seq<Row>, term: string)
    requires forall i :: 0 <= i < |rows| ==> Matches(rows[i], term)
    ensures Filter(rows, term) == rows
  {
    if rows != [] {
      FilterKeepsAll(rows[1..], term);
      assert [rows[0]] + rows[1..] == rows;
    }
  }

  /** An empty search keeps every row, in order. */
  lemma EmptySearchKeepsAll(rows: seq<Row>)
    ensures Filter(rows, Lower("")) == rows
  {
    assert Lower("") == [];
    FilterKeepsAll(rows, []);
  }

  /** A search for a patient's id, typed in any case, keeps every row built for that patient. */
  lemma SearchByIdKeepsRow(rows: seq<Row>, input: string, r: Row)
    requires r in rows && (r.text == ListingText(r.patient) || r.text == SavedText(r.patient))
    requires Lower(input) == Lower(r.patient.patientId)
    ensures r in Filter(rows, Lower(input))
  {
    FilterMembership(rows, Lower(input), r);
  }

  /** The rows of `s` other than the one whose element is `x`. */
  function DropNode(s: seq<Row>, x: nat): (t: seq<Row>)
    ensures forall r :: r in t <==> r in s && r.node != x
  {
    if s == [] then []
    else
      assert s == [s[0]] + s[1..];
      (if s[0].node == x then [] else [s[0]]) + DropNode(s[1..], x)
  }

  lemma NodesOfAppend(s: seq<Row>, r: Row)
    ensures NodesOf(s + [r]) == NodesOf(s) + {r.node}
  {
    var t := s + [r];
    forall y ensures y in NodesOf(t) <==> y in NodesOf(s) || y == r.node {
      if y in NodesOf(t) {
        var i :| 0 <= i < |t| && t[i].node == y;
        if i < |s| { assert s[i].node == y; }
      }
      if y in NodesOf(s) {
        var i :| 0 <= i < |s| && s[i].node == y;
        assert t[i].node == y;
      }
      if y == r.node {
        assert t[|s|].node == y;
      }
    }
  }

  /** Rows with the same elements, position by position, have the same element set. */
  lemma {:induction false} NodesOfSameNodes(a: seq<Row>, b: seq<Row>)
    requires |a| == |b|
    requires forall i :: 0 <= i < |a| ==> a[i].node == b[i].node
    ensures NodesOf(a) == NodesOf(b)
  {
    if a != [] {
      NodesOfSameNodes(a[..|a| - 1], b[..|b| - 1]);
    }
  }

  /** Every row of `a` is a row of `b`, so its elements are among those of `b`. */
  lemma NodesOfSubset(a: seq<Row>, b: seq<Row>)
    requires forall i :: 0 <= i < |a| ==> a[i] in b
    ensures NodesOf(a) <= NodesOf(b)
  {
    forall y | y in NodesOf(a) ensures y in NodesOf(b) {
      NodesOfMember(a, y);
      var i :| 0 <= i < |a| && a[i].node == y;
      var j :| 0 <= j < |b| && b[j] == a[i];
      NodesOfMember(b, y);
    }
  }

  /** Taking out row k of rows with distinct elements takes out exactly its element. */
  lemma NodesOfRemove(s: seq<Row>, k: nat)
    requires k < |s|
    requires forall i, j :: 0 <= i < j < |s| ==> s[i].node != s[j].node
    ensures NodesOf(s[..k] + s[k + 1..]) == NodesOf(s) - {s[k].node}
  {
    forall y ensures y in NodesOf(s[..k] + s[k + 1..]) <==> y in NodesOf(s) && y != s[k].node {
      NodesOfRemoveAt(s, k, y);
    }
  }

  lemma NodesOfRemoveAt(s: seq<Row>, k: nat, y: nat)
    requires k < |s|
    requires forall i, j :: 0 <= i < j < |s| ==> s[i].node != s[j].node
    ensures y in NodesOf(s[..k] + s[k + 1..]) <==> y in NodesOf(s) && y != s[k].node
  {
    var t := s[..k] + s[k + 1..];
    assert |t| == |s| - 1;
    assert forall i :: 0 <= i < k ==> t[i] == s[i];
    assert forall i :: k <= i < |t| ==> t[i] == s[i + 1];
    NodesOfMember(t, y);
    NodesOfMember(s, y);
    if y in NodesOf(t) {
      var i :| 0 <= i < |t| && t[i].node == y;
      if i < k {
        assert s[i].node == y;
      } else {
        assert s[i + 1].node == y;
      }
    }
    if y in NodesOf(s) && y != s[k].node {
      var i :| 0 <= i < |s| && s[i].node == y;
      if i < k {
        assert t[i].node == y;
      } else {
        assert t[i - 1].node == y;
      }
    }
  }

  /** A filter's rows are rows of the list it filters. */
  lemma FilterNodes(rows: seq<Row>, term: string)
    ensures NodesOf(Filter(rows, term)) <= NodesOf(rows)
  {
    NodesOfSubset(Filter(rows, term), rows);
  }

  lemma NodesOfDrop(s: seq<Row>, x: nat)
    ensures NodesOf(DropNode(s, x)) == NodesOf(s) - {x}
  {
    var t := DropNode(s, x);
    forall y ensures y in NodesOf(t) <==> y in NodesOf(s) && y != x {
      NodesOfMember(t, y);
      NodesOfMember(s, y);
      if y in NodesOf(t) {
        var i :| 0 <= i < |t| && t[i].node == y;
        assert t[i] in s;
        var j :| 0 <= j < |s| && s[j] == t[i];
      }
      if y in NodesOf(s) && y != x {
        var i :| 0 <= i < |s| && s[i].node == y;
        assert s[i] in t;
        var j :| 0 <= j < |t| && t[j] == s[i];
      }
    }
  }

  /** Taking a row out of the table and out of its filter keeps the filter within the table. */
  lemma RemoveKeepsWithin(rows: seq<Row>, filtered: seq<Row>, k: nat)
    requires k < |rows|
    requires forall i, j :: 0 <= i < j < |rows| ==> rows[i].node != rows[j].node
    requires NodesOf(filtered) <= NodesOf(rows)
    ensures NodesOf(DropNode(filtered, rows[k].node)) <= NodesOf(rows[..k] + rows[k + 1..])
    ensures rows[k].node !in NodesOf(DropNode(filtered, rows[k].node))
  {
    NodesOfRemove(rows, k);
    NodesOfDrop(filtered, rows[k].node);
  }

  /**
   * After initializeTable (filteredData == rows), deletePatient's removal of
   * row k leaves that row's element in filteredData although it is no longer
   * in the table, and the total shown counts one row more than the table has.
   */
  lemma DeleteLeavesStaleRow(rows: seq<Row>, k: nat)
    requires k < |rows|
    requires forall i, j :: 0 <= i < j < |rows| ==> rows[i].node != rows[j].node
    ensures rows[k].node in NodesOf(rows)
    ensures rows[k].node !in NodesOf(rows[..k] + rows[k + 1..])
    ensures |rows| == |rows[..k] + rows[k + 1..]| + 1
    ensures !(NodesOf(rows) <= NodesOf(rows[..k] + rows[k + 1..]))
  {
    NodesOfRemove(rows, k);
    NodesOfMember(rows, rows[k].node);
  }

  /** The state of the patient table and of the controls dash.js draws for it. */
  class TableView {
    /** The <tr> elements of #patientTable tbody, in document order. */
    var rows: seq<Row>
    /** The identity the next document.createElement('tr') returns. */
    var nextNode: nat
    var currentPage: nat
    var entriesPerPage: nat
    var filteredData: seq<Row>
    /** The elements whose style.display is 'none'. */
    var hidden: set<nat>
    /** One `active` mark per .page-number button, in order. */
    var pageButtons: seq<bool>
    var prevDisabled: bool
    var nextDisabled: bool
    var showingStart: int
    var showingEnd: int
    var totalEntries: int

    /** What every handler keeps: a positive page size, and element identities that are distinct and allocated. */
    ghost predicate Valid()
      reads this
    {
      && entriesPerPage > 0
      && (forall i :: 0 <= i < |rows| ==> rows[i].node < nextNode)
      && (forall i, j :: 0 <= i < j < |rows| ==> rows[i].node != rows[j].node)
      && (forall x :: x in hidden ==> x < nextNode)
    }

    /** filteredData lists only rows that are in the table. */
    ghost predicate Consistent()
      reads this`rows, this`filteredData
    {
      NodesOf(filteredData) <= NodesOf(rows)
    }

    /** The rows displayTablePage shows: filteredData.slice(currentPage * n, currentPage * n + n). */
    ghost function PageRows(): seq<Row>
      reads this
    {
      Page(filteredData, entriesPerPage, currentPage)
    }

    ghost function Pages(): nat
      reads this
      requires entriesPerPage > 0
    {
      TotalPages(|filteredData|, entriesPerPage)
    }

    /** Exactly the rows of the current page are displayed. */
    ghost predicate PageShown()
      reads this
    {
      forall i :: 0 <= i < |rows| ==> (rows[i].node !in hidden <==> rows[i].node in NodesOf(PageRows()))
    }

    /** The page-number buttons and the previous/next buttons reflect the state. */
    ghost predicate ControlsShown()
      reads this
      requires entriesPerPage > 0
    {
      && pageButtons == ActiveMarks(Pages(), currentPage)
      && prevDisabled == PrevDisabled(currentPage)
      && nextDisabled == NextDisabled(|filteredData|, entriesPerPage, currentPage)
    }

    /** The "Showing start to end of total" figures reflect the state. */
    ghost predicate InfoShown()
      reads this
    {
      && showingStart == ShowingStart(|filteredData|, entriesPerPage, currentPage)
      && showingEnd == ShowingEnd(|filteredData|, entriesPerPage, currentPage)
      && totalEntries == |filteredData|
    }

    ghost predicate Rendered()
      reads this
      requires entriesPerPage > 0
    {
      PageShown() && ControlsShown() && InfoShown()
    }

    /** The page as it is first served: the given rows, all displayed, and the script's initial variables. */
    constructor (initialRows: seq<Row>)
      requires forall i, j :: 0 <= i < j < |initialRows| ==> initialRows[i].node != initialRows[j].node
      ensures Valid()
      ensures rows == initialRows && hidden == {}
      ensures currentPage == 0 && entriesPerPage == 10 && filteredData == []
      ensures pageButtons == []
    {
      rows := initialRows;
      nextNode := MaxNode(initialRows) + 1;
      currentPage := 0;
      entriesPerPage := 10;
      filteredData := [];
      hidden := {};
      pageButtons := [];
      prevDisabled := false;
      nextDisabled := false;
      showingStart := 0;
      showingEnd := 0;
      totalEntries := 0;
      MaxNodeBounds(initialRows);
    }

    static function MaxNode(s: seq<Row>): nat {
      if s == [] then 0 else
        var m := MaxNode(s[1..]);
        if s[0].node > m then s[0].node else m
    }

    static lemma {:induction false} MaxNodeBounds(s: seq<Row>)
      ensures forall i :: 0 <= i < |s| ==> s[i].node <= MaxNode(s)
    {
      if s != [] {
        MaxNodeBounds(s[1..]);
        forall i | 1 <= i < |s| ensures s[i].node <= MaxNode(s) {
          assert s[i] == s[1..][i - 1];
        }
      }
    }

    /** updatePaginationInfo (dash.js:701-713). */
    method UpdatePaginationInfo()
      modifies this`showingStart, this`showingEnd, this`totalEntries
      ensures InfoShown()
    {
      var start := currentPage * entriesPerPage + 1;
      var end := Min((currentPage + 1) * entriesPerPage, |filteredData|);
      var total := |filteredData|;
      showingStart := if |filteredData| > 0 then start else 0;
      showingEnd := end;
      totalEntries := total;
    }

    /** displayTablePage (dash.js:631-650): hide every row, then show the rows of the current page. */
    method DisplayTablePage()
      requires Valid()
      modifies this`hidden, this`showingStart, this`showingEnd, this`totalEntries
      ensures Valid()
      ensures hidden == (old(hidden) + NodesOf(rows)) - NodesOf(PageRows())
      ensures PageShown() && InfoShown()
    {
      var k := 0;
      while k < |rows|
        invariant 0 <= k <= |rows|
        invariant hidden == old(hidden) + NodesOf(rows[..k])
        invariant forall x :: x in hidden ==> x < nextNode
      {
        NodesOfSnoc(rows, k);
        hidden := hidden + {rows[k].node};
        k := k + 1;
      }
      assert rows[..|rows|] == rows;
      var all := hidden;
      var pageRows := Page(filteredData, entriesPerPage, currentPage);
      k := 0;
      while k < |pageRows|
        invariant 0 <= k <= |pageRows|
        invariant hidden == all - NodesOf(pageRows[..k])
      {
        NodesOfSnoc(pageRows, k);
        hidden := hidden - {pageRows[k].node};
        k := k + 1;
      }
      assert pageRows[..|pageRows|] == pageRows;
      forall i | 0 <= i < |rows|
        ensures rows[i].node !in hidden <==> rows[i].node in NodesOf(PageRows())
      {
        NodesOfMember(rows, rows[i].node);
      }
      UpdatePaginationInfo();
    }

    /** updatePaginationButtons (dash.js:682-699): set the disabled flags and re-mark the existing page buttons. */
    method UpdatePaginationButtons()
      requires entriesPerPage > 0
      modifies this`prevDisabled, this`nextDisabled, this`pageButtons
      ensures prevDisabled == PrevDisabled(currentPage)
      ensures nextDisabled == NextDisabled(|filteredData|, entriesPerPage, currentPage)
      ensures pageButtons == ActiveMarks(|old(pageButtons)|, currentPage)
    {
      var totalPages: int := TotalPages(|filteredData|, entriesPerPage);
      prevDisabled := currentPage == 0;
      nextDisabled := currentPage >= totalPages - 1;
      var index := 0;
      while index < |pageButtons|
        invariant 0 <= index <= |pageButtons| == |old(pageButtons)|
        invariant prevDisabled == PrevDisabled(currentPage)
        invariant nextDisabled == NextDisabled(|filteredData|, entriesPerPage, currentPage)
        invariant forall i :: 0 <= i < index ==> (pageButtons[i] <==> i == currentPage)
      {
        pageButtons := pageButtons[index := index == currentPage];
        index := index + 1;
      }
    }

    /** updatePagination (dash.js:652-680): one page-number button per page, the current one active. */
    method UpdatePagination()
      requires entriesPerPage > 0
      modifies this`prevDisabled, this`nextDisabled, this`pageButtons
      ensures ControlsShown()
    {
      var totalPages := TotalPages(|filteredData|, entriesPerPage);
      pageButtons := [];
      for i := 0 to totalPages
        invariant |pageButtons| == i
        invariant forall j :: 0 <= j < i ==> (pageButtons[j] <==> j == currentPage)
      {
        pageButtons := pageButtons + [i == currentPage];
      }
      UpdatePaginationButtons();
    }

    /** The two calls that end every handler replacing filteredData: updatePagination(), then displayTablePage(). */
    method Redraw()
      requires Valid()
      modifies this`hidden, this`showingStart, this`showingEnd, this`totalEntries
      modifies this`prevDisabled, this`nextDisabled, this`pageButtons
      ensures Valid() && Rendered()
      ensures rows == old(rows) && filteredData == old(filteredData) && currentPage == old(currentPage)
      ensures entriesPerPage == old(entriesPerPage) && nextNode == old(nextNode)
    {
      UpdatePagination();
      DisplayTablePage();
    }

    /** The two calls that end every page change: displayTablePage(), then updatePaginationButtons(). */
    method Repaint()
      requires Valid()
      modifies this`hidden, this`showingStart, this`showingEnd, this`totalEntries
      modifies this`prevDisabled, this`nextDisabled, this`pageButtons
      ensures Valid() && PageShown() && InfoShown()
      ensures prevDisabled == PrevDisabled(currentPage)
      ensures nextDisabled == NextDisabled(|filteredData|, entriesPerPage, currentPage)
      ensures pageButtons == ActiveMarks(|old(pageButtons)|, currentPage)
      ensures rows == old(rows) && filteredData == old(filteredData) && currentPage == old(currentPage)
      ensures entriesPerPage == old(entriesPerPage) && nextNode == old(nextNode)
    {
      DisplayTablePage();
      UpdatePaginationButtons();
    }

    /** initializeTable (dash.js:586-599): every row of the table becomes filteredData; currentPage is kept. */
    method InitializeTable()
      requires Valid()
      modifies this
      ensures Valid() && Rendered() && Consistent()
      ensures filteredData == rows
      ensures rows == old(rows) && nextNode == old(nextNode)
      ensures currentPage == old(currentPage) && entriesPerPage == old(entriesPerPage)
    {
      filteredData := rows;
      Redraw();
    }

    /**
     * initializeTable as evidently intended: like every other handler that
     * replaces filteredData, it goes back to page 0, which exists whenever
     * the table has a row.
     */
    method InitializeTableAtFirstPage()
      requires Valid()
      modifies this
      ensures Valid() && Rendered() && Consistent()
      ensures filteredData == rows && currentPage == 0
      ensures rows != [] ==> InRange(|rows|, entriesPerPage, 0) && showingStart == 1 && showingEnd == |PageRows()|
      ensures rows == old(rows) && nextNode == old(nextNode) && entriesPerPage == old(entriesPerPage)
    {
      filteredData := rows;
      currentPage := 0;
      NoPagesIffEmpty(|rows|, entriesPerPage);
      ShowingMatchesPage(rows, entriesPerPage, 0);
      Redraw();
    }

    /** searchTable (dash.js:601-620): keep the rows whose lower-cased text includes the lower-cased input, back to page 0. */
    method SearchTable(input: string)
      requires Valid()
      modifies this
      ensures Valid() && Rendered() && Consistent()
      ensures filteredData == Filter(rows, Lower(input))
      ensures currentPage == 0
      ensures rows == old(rows) && nextNode == old(nextNode) && entriesPerPage == old(entriesPerPage)
    {
      var searchTerm := Lower(input);
      filteredData := Filter(rows, searchTerm);
      FilterNodes(rows, searchTerm);
      currentPage := 0;
      Redraw();
    }

    /** changeEntries (dash.js:622-629): a new page size from the entries select, back to page 0. */
    method ChangeEntries(n: nat)
      requires Valid() && n > 0
      modifies this
      ensures Valid() && Rendered()
      ensures entriesPerPage == n && currentPage == 0
      ensures rows == old(rows) && nextNode == old(nextNode) && filteredData == old(filteredData)
    {
      entriesPerPage := n;
      currentPage := 0;
      Redraw();
    }

    /** prevPage (dash.js:715-721): one page back unless on page 0, where nothing happens. */
    method PrevPage()
      requires Valid()
      modifies this
      ensures Valid()
      ensures currentPage == PrevIndex(old(currentPage))
      ensures old(currentPage) == 0 ==> unchanged(this)
      ensures old(Rendered()) ==> Rendered()
      ensures rows == old(rows) && nextNode == old(nextNode)
      ensures filteredData == old(filteredData) && entriesPerPage == old(entriesPerPage)
    {
      if currentPage > 0 {
        currentPage := currentPage - 1;
        Repaint();
      }
    }

    /** nextPage (dash.js:723-730): one page on unless on the last page (or there is none), where nothing happens. */
    method NextPage()
      requires Valid()
      modifies this
      ensures Valid()
      ensures currentPage == NextIndex(|filteredData|, entriesPerPage, old(currentPage))
      ensures old(currentPage) == currentPage ==> unchanged(this)
      ensures old(Rendered()) ==> Rendered()
      ensures rows == old(rows) && nextNode == old(nextNode)
      ensures filteredData == old(filteredData) && entriesPerPage == old(entriesPerPage)
    {
      var totalPages: int := TotalPages(|filteredData|, entriesPerPage);
      if currentPage < totalPages - 1 {
        currentPage := currentPage + 1;
        Repaint();
      }
    }

    /**
     * The click handler of page-number button i (dash.js:670-674).  Button i
     * exists, so when the buttons reflect the state, page i exists.
     */
    method ClickPage(i: nat)
      requires Valid() && i < |pageButtons|
      modifies this
      ensures Valid()
      ensures currentPage == i
      ensures old(ControlsShown()) ==> InRange(|filteredData|, entriesPerPage, currentPage) && Rendered()
      ensures rows == old(rows) && nextNode == old(nextNode)
      ensures filteredData == old(filteredData) && entriesPerPage == old(entriesPerPage)
    {
      currentPage := i;
      Repaint();
    }

    /**
     * The success path of loadPatientTable (dash.js:68-118): the tbody is
     * emptied and rebuilt from the fetched patients, all of them become
     * filteredData, and the table goes back to page 0.
     */
    method LoadPatientTable(patients: seq<PatientJson>)
      requires Valid()
      modifies this
      ensures Valid() && Rendered() && Consistent()
      ensures |rows| == |patients|
      ensures forall i :: 0 <= i < |rows| ==>
        rows[i].patient == patients[i] && rows[i].text == ListingText(patients[i]) && rows[i].node >= old(nextNode)
      ensures filteredData == rows && currentPage == 0 && entriesPerPage == old(entriesPerPage)
    {
      var built: seq<Row> := [];
      var node := nextNode;
      for k := 0 to |patients|
        invariant node == old(nextNode) + k
        invariant |built| == k
        invariant forall i :: 0 <= i < k ==>
          built[i] == Row(old(nextNode) + i, patients[i], ListingText(patients[i]))
      {
        var tr := Row(node, patients[k], ListingText(patients[k]));
        node := node + 1;
        built := built + [tr];
      }
      rows := built;
      nextNode := node;
      filteredData := rows;
      currentPage := 0;
      Redraw();
    }

    /** tbody.querySelector(`tr[data-patient-id="${id}"]`): the first row with that patient ID, if any. */
    method FindRow(id: string) returns (found: Option<nat>)
      ensures found.Some? ==> found.value < |rows| && rows[found.value].patient.patientId == id
      ensures found.Some? ==> forall j :: 0 <= j < found.value ==> rows[j].patient.patientId != id
      ensures found.None? ==> forall j :: 0 <= j < |rows| ==> rows[j].patient.patientId != id
    {
      var k := 0;
      while k < |rows|
        invariant 0 <= k <= |rows|
        invariant forall j :: 0 <= j < k ==> rows[j].patient.patientId != id
      {
        if rows[k].patient.patientId == id {
          return Some(k);
        }
        k := k + 1;
      }
      return None;
    }

    /**
     * The success path of the add-patient submit handler (dash.js:1113-1184):
     * the row with the saved patient's ID is rewritten in place, keeping its
     * element and its visibility; without one, a new, displayed row is
     * appended.  Nothing else changes.  (The handler then reloads the whole
     * table: LoadPatientTable with the fetched list.)
     */
    method SavePatientRow(p: PatientJson) returns (updated: Option<nat>)
      requires Valid()
      modifies this`rows, this`nextNode
      ensures Valid()
      ensures old(Consistent()) ==> Consistent()
      ensures updated.Some? ==>
        && updated.value < |old(rows)|
        && old(rows)[updated.value].patient.patientId == p.patientId
        && rows == old(rows)[updated.value := Row(old(rows)[updated.value].node, p, SavedText(p))]
        && nextNode == old(nextNode)
      ensures updated.None? ==>
        && (forall j :: 0 <= j < |old(rows)| ==> old(rows)[j].patient.patientId != p.patientId)
        && rows == old(rows) + [Row(old(nextNode), p, SavedText(p))]
        && old(nextNode) !in hidden
        && nextNode == old(nextNode) + 1
      ensures hidden == old(hidden) && filteredData == old(filteredData) && currentPage == old(currentPage)
      ensures entriesPerPage == old(entriesPerPage) && pageButtons == old(pageButtons)
    {
      updated := FindRow(p.patientId);
      if updated.Some? {
        var k := updated.value;
        rows := rows[k := Row(rows[k].node, p, SavedText(p))];
        NodesOfSameNodes(old(rows), rows);
      } else {
        var newRow := Row(nextNode, p, SavedText(p));
        nextNode := nextNode + 1;
        NodesOfAppend(rows, newRow);
        rows := rows + [newRow];
      }
    }

    /**
     * The success path of deletePatient (dash.js:46-54): the first row with
     * that ID leaves the table; filteredData and the controls are left as
     * they were.
     */
    method RemovePatientRow(id: string) returns (removed: Option<nat>)
      requires Valid()
      modifies this`rows
      ensures Valid()
      ensures removed.Some? ==>
        && removed.value < |old(rows)|
        && old(rows)[removed.value].patient.patientId == id
        && rows == old(rows)[..removed.value] + old(rows)[removed.value + 1..]
      ensures removed.None? ==>
        && (forall j :: 0 <= j < |old(rows)| ==> old(rows)[j].patient.patientId != id)
        && rows == old(rows)
      ensures nextNode == old(nextNode) && hidden == old(hidden) && filteredData == old(filteredData)
      ensures currentPage == old(currentPage) && entriesPerPage == old(entriesPerPage)
    {
      removed := FindRow(id);
      if removed.Some? {
        var k := removed.value;
        rows := rows[..k] + rows[k + 1..];
      }
    }

    /**
     * deletePatient as evidently intended: the row leaves the table and
     * filteredData, the current page moves back to the last page when it no
     * longer exists, and the table and its controls are drawn again.
     */
    method RemovePatientRowAndRefresh(id: string) returns (removed: Option<nat>)
      requires Valid()
      modifies this
      ensures Valid()
      ensures old(Consistent()) ==> Consistent()
      ensures removed.Some? ==>
        && removed.value < |old(rows)|
        && old(rows)[removed.value].patient.patientId == id
        && rows == old(rows)[..removed.value] + old(rows)[removed.value + 1..]
        && filteredData == DropNode(old(filteredData), old(rows)[removed.value].node)
        && old(rows)[removed.value].node !in NodesOf(filteredData)
        && Rendered()
        && (filteredData == [] || InRange(|filteredData|, entriesPerPage, currentPage))
      ensures removed.None? ==>
        && (forall j :: 0 <= j < |old(rows)| ==> old(rows)[j].patient.patientId != id)
        && unchanged(this)
      ensures nextNode == old(nextNode) && entriesPerPage == old(entriesPerPage)
    {
      ghost var wasConsistent := Consistent();
      removed := RemoveAndForget(id);
      assert wasConsistent ==> Consistent();
      if removed.Some? {
        Redraw();
      }
    }

    /**
     * The state part of RemovePatientRowAndRefresh: the row leaves the table
     * and filteredData, and the current page is moved back onto the last page
     * when it no longer exists.
     */
    method RemoveAndForget(id: string) returns (removed: Option<nat>)
      requires Valid()
      modifies this`rows, this`filteredData, this`currentPage
      ensures Valid()
      ensures old(Consistent()) ==> Consistent()
      ensures removed.Some? ==>
        && removed.value < |old(rows)|
        && old(rows)[removed.value].patient.patientId == id
        && rows == old(rows)[..removed.value] + old(rows)[removed.value + 1..]
        && filteredData == DropNode(old(filteredData), old(rows)[removed.value].node)
        && old(rows)[removed.value].node !in NodesOf(filteredData)
        && (filteredData == [] || InRange(|filteredData|, entriesPerPage, currentPage))
      ensures removed.None? ==>
        && (forall j :: 0 <= j < |old(rows)| ==> old(rows)[j].patient.patientId != id)
        && rows == old(rows) && filteredData == old(filteredData) && currentPage == old(currentPage)
    {
      var before := rows;
      removed := RemovePatientRow(id);
      if removed.Some? {
        DropFromFilter(before, removed.value);
        var totalPages := TotalPages(|filteredData|, entriesPerPage);
        if currentPage >= totalPages {
          currentPage := if totalPages > 0 then totalPages - 1 else 0;
        }
        NoPagesIffEmpty(|filteredData|, entriesPerPage);
      }
    }

    /** Takes row k of the table as it was before a removal out of filteredData. */
    method DropFromFilter(before: seq<Row>, k: nat)
      requires k < |before| && rows == before[..k] + before[k + 1..]
      requires forall i, j :: 0 <= i < j < |before| ==> before[i].node != before[j].node
      modifies this`filteredData
      ensures filteredData == DropNode(old(filteredData), before[k].node)
      ensures before[k].node !in NodesOf(filteredData)
      ensures NodesOf(old(filteredData)) <= NodesOf(before) ==> Consistent()
    {
      NodesOfDrop(filteredData, before[k].node);
      if NodesOf(filteredData) <= NodesOf(before) {
        RemoveKeepsWithin(before, filteredData, k);
      }
      filteredData := DropNode(filteredData, before[k].node);
    }
  }
}
