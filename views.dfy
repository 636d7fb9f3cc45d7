/** The list computations of the admin views: sort and paginate (`api_data_view`), the
    student search, the export layout, the dashboard counts and the per-row upload loop
    of `form_submit_view`. */
module Views {
  import opened Records
  import opened Utils
  import opened Tables
  import opened Fanout
  import opened Flatten
  import opened Sorting
  import opened Database

  function Min(a: int, b: int): int
  {
    if a <= b then a else b
  }

  /** Python's `a // b`: the quotient rounded toward minus infinity. */
  function FloorDiv(a: int, b: int): (q: int)
    requires b != 0
    ensures b > 0 ==> q * b <= a < q * b + b
    ensures b < 0 ==> q * b >= a > q * b + b
  {
    if b > 0 then a / b else (-a) / (-b)
  }

  /** A slice bound as Python normalises it: a negative index counts from the end, and
      the result is clipped to `0..n`. */
  function SliceBound(i: int, n: nat): (r: nat)
    ensures r <= n
    ensures 0 <= i <= n ==> r == i
    ensures i > n ==> r == n
    ensures i < 0 && i + n >= 0 ==> r == i + n
    ensures i + n < 0 ==> r == 0
  {
    if i < 0 then (if i + n < 0 then 0 else i + n)
    else if i > n then n
    else i
  }

  /** Python's `xs[start:stop]`: the run of consecutive elements from the normalised
      start, ending before the normalised stop, empty when the stop is not past the
      start; with both bounds in range it is `xs[start..stop]`. */
  function PySlice<T>(xs: seq<T>, start: int, stop: int): (r: seq<T>)
    ensures |r| <= |xs|
    ensures 0 <= start <= stop <= |xs| ==> r == xs[start..stop]
    ensures SliceBound(stop, |xs|) <= SliceBound(start, |xs|) ==> r == []
    ensures SliceBound(start, |xs|) + |r| <= |xs|
    ensures SliceBound(start, |xs|) < SliceBound(stop, |xs|) ==> |r| == SliceBound(stop, |xs|) - SliceBound(start, |xs|)
    ensures forall i :: 0 <= i < |r| ==> r[i] == xs[SliceBound(start, |xs|) + i]
  {
    var a, b := SliceBound(start, |xs|), SliceBound(stop, |xs|);
    if a < b then xs[a..b] else []
  }

  /** The placeholder `get_sort_key` substitutes for a None value. */
  function NoneKey(sortOrder: string): string
  {
    if sortOrder == "asc" then "" else "zzzzzzzzzz"
  }

  /** Lines 358-363: `item.get(sort_by, '')`, with None replaced by the placeholder. */
  function SortKey(item: FlatRow, sortBy: string, sortOrder: string): (r: Value)
    ensures r != Null
  {
    var value := GetOr(item, sortBy, Text(""));
    if value == Null then Text(NoneKey(sortOrder)) else value
  }

  /** Line 366: `sorted(all_data, key=get_sort_key, reverse=(sort_order == 'desc'))`. */
  function SortRows(rows: seq<FlatRow>, sortBy: string, sortOrder: string): (r: seq<FlatRow>)
    ensures |r| == |rows| && multiset(r) == multiset(rows)
  {
    var r := SortBy(rows, item => SortKey(item, sortBy, sortOrder), sortOrder == "desc");
    assert |multiset(r)| == |multiset(rows)|;
    r
  }

  /** Every two sort keys can be compared with `<`: Python's sort of two or more rows
      raises TypeError otherwise, since it compares the neighbours of its result. That is,
      every key has the kind of the first. */
  predicate Comparable(rows: seq<FlatRow>, sortBy: string, sortOrder: string)
    ensures Comparable(rows, sortBy, sortOrder) <==>
              rows == [] || forall i :: 0 <= i < |rows| ==>
                SameKind(SortKey(rows[0], sortBy, sortOrder), SortKey(rows[i], sortBy, sortOrder))
  {
    forall i, j :: 0 <= i < |rows| && 0 <= j < |rows| ==>
      SameKind(SortKey(rows[i], sortBy, sortOrder), SortKey(rows[j], sortBy, sortOrder))
  }

  datatype Pagination = Pagination(currentPage: int, totalPages: int, pageSize: int, totalRecords: int,
                                   startRecord: int, endRecord: int)

  /** The JSON `api_data_view` returns: a page, or the 500 error of its `except`. */
  datatype ApiResponse = Page(results: seq<FlatRow>, pagination: Pagination) | ServerError

  /** Lines 369-387 on the sorted rows: the slice from `(page-1)*page_size`, the page
      count by floor division, and the numbers of the first and last record shown. */
  function Paginate(sorted: seq<FlatRow>, page: int, pageSize: int): (r: ApiResponse)
    requires pageSize != 0
    ensures r.Page? && r.pagination.totalRecords == |sorted|
    ensures r.pagination.currentPage == page && r.pagination.pageSize == pageSize
  {
    var startIdx := (page - 1) * pageSize;
    var paginated := PageWindow(sorted, startIdx, pageSize);
    var totalRecords := |sorted|;
    var totalPages := FloorDiv(totalRecords + pageSize - 1, pageSize);
    var startRecord := if |paginated| > 0 then startIdx + 1 else 0;
    var endRecord := startIdx + |paginated|;
    Page(paginated, Pagination(page, totalPages, pageSize, totalRecords, startRecord, endRecord))
  }

  /** Lines 349-392 on the flattened rows `allData`. The sort raises TypeError on keys
      of different kinds and the page count ZeroDivisionError on a zero page size; both
      end in the 500 response. */
  function ApiData(allData: seq<FlatRow>, page: int, pageSize: int, sortBy: string, sortOrder: string)
    : (r: ApiResponse)
    ensures r.ServerError? <==> pageSize == 0 || (|allData| >= 2 && !Comparable(allData, sortBy, sortOrder))
    ensures r.Page? ==> r == Paginate(SortRows(allData, sortBy, sortOrder), page, pageSize)
  {
    if |allData| >= 2 && !Comparable(allData, sortBy, sortOrder) then ServerError
    else if pageSize == 0 then ServerError
    else Paginate(SortRows(allData, sortBy, sortOrder), page, pageSize)
  }

  /** For a page number and size of at least 1, the page is the window of the sorted rows
      from `(page-1)*page_size`, `page_size` long, clipped to the list: at most
      `page_size` rows. */
  lemma PageIsWindow(sorted: seq<FlatRow>, page: int, pageSize: int)
    requires page >= 1 && pageSize >= 1
    ensures (page - 1) * pageSize >= 0
    ensures Paginate(sorted, page, pageSize).results
            == sorted[Min((page - 1) * pageSize, |sorted|)..Min((page - 1) * pageSize + pageSize, |sorted|)]
    ensures |Paginate(sorted, page, pageSize).results| <= pageSize
  {
    ProductNonNegative(page - 1, pageSize);
  }

  lemma ProductNonNegative(x: int, y: int)
    requires x >= 0 && y >= 0
    ensures x * y >= 0
  {
  }

  /** The rows from `start`, `len` of them, as line 370 slices them: from a non-negative
      start this is the window clipped to the list. */
  function PageWindow<T>(xs: seq<T>, start: int, len: int): (r: seq<T>)
    ensures start >= 0 && len >= 0 ==> r == xs[Min(start, |xs|)..Min(start + len, |xs|)]
  {
    PySlice(xs, start, start + len)
  }

  /** `total_pages` is the ceiling of `total_records / page_size`. */
  lemma TotalPagesIsCeiling(sorted: seq<FlatRow>, page: int, pageSize: int)
    requires pageSize >= 1
    ensures var p := Paginate(sorted, page, pageSize).pagination;
      p.totalRecords <= p.totalPages * pageSize < p.totalRecords + pageSize
  {
  }

  /** `start_record` and `end_record` number the page's rows from 1 within the whole
      list; an empty page, one past the end, has `start_record` 0 and `end_record` equal
      to its start index, not 0. */
  lemma RecordNumbers(sorted: seq<FlatRow>, page: int, pageSize: int)
    requires page >= 1 && pageSize >= 1
    ensures var r := Paginate(sorted, page, pageSize);
      var start := (page - 1) * pageSize;
      && (r.results == [] <==> start >= |sorted|)
      && (r.results != [] ==>
            && r.pagination.startRecord == start + 1
            && r.pagination.endRecord <= |sorted|
            && r.pagination.endRecord - r.pagination.startRecord + 1 == |r.results|)
      && (r.results == [] ==> r.pagination.startRecord == 0 && r.pagination.endRecord == start)
  {
    PageIsWindow(sorted, page, pageSize);
  }

  /** 25 rows, page 3 of size 10: rows 21 to 25, five of them, three pages in all. */
  lemma PageExample(allData: seq<FlatRow>, sortBy: string, sortOrder: string)
    requires |allData| == 25 && Comparable(allData, sortBy, sortOrder)
    ensures var r := ApiData(allData, 3, 10, sortBy, sortOrder);
      && r.Page?
      && |r.results| == 5
      && r.pagination.startRecord == 21
      && r.pagination.endRecord == 25
      && r.pagination.totalPages == 3
  {
    PageIsWindow(SortRows(allData, sortBy, sortOrder), 3, 10);
  }

  /** The sorted list is a permutation of the flattened list, ordered by the sort key
      (descending when `sort_order == 'desc'`), and rows with equal keys keep their order. */
  lemma SortRowsSpec(allData: seq<FlatRow>, sortBy: string, sortOrder: string, v: Value)
    ensures var key := item => SortKey(item, sortBy, sortOrder);
      var sorted := SortRows(allData, sortBy, sortOrder);
      && multiset(sorted) == multiset(allData)
      && Sorted(sorted, key, sortOrder == "desc")
      && WithKey(sorted, key, v) == WithKey(allData, key, v)
  {
    var key: FlatRow -> Value := item => SortKey(item, sortBy, sortOrder);
    SortBySorted(allData, key, sortOrder == "desc");
    SortByStable(allData, key, sortOrder == "desc", v);
  }

  lemma EmptyTextFirst(s: string)
    requires s != ""
    ensures TextLess("", s)
  {
  }

  /** Under `sort_order == 'asc'` a row whose value is None comes before every row whose
      value is a non-empty string. */
  lemma NoneFirstAscending(allData: seq<FlatRow>, sortBy: string, i: nat, j: nat)
    requires var sorted := SortRows(allData, sortBy, "asc");
      && i < |sorted| && j < |sorted|
      && sortBy in sorted[i] && sorted[i][sortBy] == Null
      && sortBy in sorted[j] && sorted[j][sortBy].Text? && sorted[j][sortBy].s != ""
    ensures i < j
  {
    var key: FlatRow -> Value := item => SortKey(item, sortBy, "asc");
    SortBySorted(allData, key, false);
    var sorted: seq<FlatRow> := SortRows(allData, sortBy, "asc");
    var value: Value := sorted[j][sortBy];
    EmptyTextFirst(value.s);
  }

  /** Under `sort_order == 'desc'` the placeholder 'zzzzzzzzzz' is largest, so a row whose
      value is None also comes first, before every row whose string sorts below it. */
  lemma NoneFirstDescending(allData: seq<FlatRow>, sortBy: string, i: nat, j: nat)
    requires var sorted := SortRows(allData, sortBy, "desc");
      && i < |sorted| && j < |sorted|
      && sortBy in sorted[i] && sorted[i][sortBy] == Null
      && sortBy in sorted[j] && sorted[j][sortBy].Text? && TextLess(sorted[j][sortBy].s, "zzzzzzzzzz")
    ensures i < j
  {
    var key: FlatRow -> Value := item => SortKey(item, sortBy, "desc");
    SortBySorted(allData, key, true);
  }

  /** A None in a numeric column is keyed as a string, so sorting on that column raises
      TypeError and the view answers with the 500 error. */
  lemma NoneInNumericColumnFails(allData: seq<FlatRow>, page: int, pageSize: int, sortBy: string, sortOrder: string,
                                 i: nat, j: nat)
    requires i < |allData| && j < |allData|
    requires sortBy in allData[i] && allData[i][sortBy] == Null
    requires sortBy in allData[j] && allData[j][sortBy].Num?
    ensures ApiData(allData, page, pageSize, sortBy, sortOrder).ServerError?
  {
    assert !SameKind(SortKey(allData[i], sortBy, sortOrder), SortKey(allData[j], sortBy, sortOrder));
  }

  /** What `student_search_api` answers. */
  datatype SearchResponse = Results(results: seq<FlatRow>) | BadRequest(error: string)

  /** The value the search compares: `entry.get('student_id')`. */
  function StudentKey(entry: FlatRow): Value
  {
    Field(entry, "student_id")
  }

  /** Lines 398-408: an empty student id is a 400 error before any search; otherwise the
      entries whose student id equals the query, in their order. */
  function StudentSearch(allData: seq<FlatRow>, studentId: string): (r: SearchResponse)
    ensures r.BadRequest? <==> studentId == ""
  {
    if studentId == "" then BadRequest("Student ID is required")
    else Results(WithKey(allData, StudentKey, Text(studentId)))
  }

  /** The results are exactly the entries with that student id, in their original order:
      searching a concatenation concatenates the searches. */
  lemma StudentSearchSpec(xs: seq<FlatRow>, ys: seq<FlatRow>, studentId: string)
    requires studentId != ""
    ensures forall e :: e in StudentSearch(xs, studentId).results <==> e in xs && Field(e, "student_id") == Text(studentId)
    ensures StudentSearch(xs + ys, studentId).results
            == StudentSearch(xs, studentId).results + StudentSearch(ys, studentId).results
  {
    WithKeyMembers(xs, StudentKey, Text(studentId));
    WithKeyAppend(xs, ys, StudentKey, Text(studentId));
  }

  /** `data[::-1]`. */
  function Reverse<T>(xs: seq<T>): (r: seq<T>)
    ensures |r| == |xs|
    ensures forall i :: 0 <= i < |xs| ==> r[i] == xs[|xs| - 1 - i]
  {
    seq(|xs|, i requires 0 <= i < |xs| => xs[|xs| - 1 - i])
  }

  /** Lines 187-199: the export's header row, one column per field, the id first. */
  function Header(): (r: seq<Value>)
    ensures |r| == |FieldNames|
    ensures r[0] == Text("id")
  {
    seq(|FieldNames|, i requires 0 <= i < |FieldNames| => Text(FieldNames[i]))
  }

  /** Line 202: one worksheet row, the values in header order made Excel-safe, "" for a
      missing field. */
  function ExportRow(row: FlatRow, h: Helpers): (r: seq<Value>)
    ensures |r| == |FieldNames|
    ensures "id" in row ==> r[0] == h.excelSafe(row["id"])
  {
    var cell := i requires 0 <= i < |FieldNames| => h.excelSafe(GetOr(row, FieldNames[i], Text("")));
    assert FieldNames[0] == "id";
    assert "id" in row ==> cell(0) == h.excelSafe(GetOr(row, FieldNames[0], Text("")));
    seq(|FieldNames|, cell)
  }

  /** Each cell of a worksheet row sits under the header cell naming the field it holds. */
  lemma ExportColumns(row: FlatRow, h: Helpers)
    ensures forall i :: 0 <= i < |FieldNames| ==>
              Header()[i].Text? && ExportRow(row, h)[i] == h.excelSafe(GetOr(row, Header()[i].s, Text("")))
  {
  }

  /** Lines 185-202: the header, then one row per flattened record, oldest first. */
  method ExportSheet(data: seq<FlatRow>, h: Helpers) returns (sheet: seq<seq<Value>>)
    ensures |sheet| == |data| + 1
    ensures sheet[0] == Header()
    ensures forall i :: 1 <= i < |sheet| ==> sheet[i] == ExportRow(data[|data| - i], h)
  {
    var rows := Reverse(data);
    sheet := [Header()];
    for i := 0 to |rows|
      invariant |sheet| == i + 1
      invariant sheet[0] == Header()
      invariant forall p :: 1 <= p < |sheet| ==> sheet[p] == ExportRow(rows[p - 1], h)
    {
      sheet := sheet + [ExportRow(rows[i], h)];
    }
  }

  /** Exporting the flattened view: the first cell of each data row is its id made
      Excel-safe, and the ids go up from one row to the next, oldest first. */
  lemma ExportOfViewOldestFirst(db: Tables, h: Helpers)
    requires db.Valid()
    ensures |Flattened(db, h)| == |ViewIds(db, h)|
    ensures forall i :: 0 <= i < |Flattened(db, h)| ==>
      ExportRow(Reverse(Flattened(db, h))[i], h)[0] == h.excelSafe(Num(Reverse(ViewIds(db, h))[i] as real))
    ensures forall i, j :: 0 <= i < j < |ViewIds(db, h)| ==> Reverse(ViewIds(db, h))[i] < Reverse(ViewIds(db, h))[j]
  {
    ReverseCarriesIds(Flattened(db, h), ViewIds(db, h));
    ReverseDecreasing(ViewIds(db, h));
  }

  /** Reversing rows and their ids together keeps each row with its id. */
  lemma ReverseCarriesIds(flat: seq<FlatRow>, ids: seq<nat>)
    requires |flat| == |ids|
    requires forall k :: 0 <= k < |flat| ==> "id" in flat[k] && flat[k]["id"] == Num(ids[k] as real)
    ensures forall i :: 0 <= i < |flat| ==> "id" in Reverse(flat)[i] && Reverse(flat)[i]["id"] == Num(Reverse(ids)[i] as real)
  {
    var carries := (row: FlatRow, id: nat) => "id" in row && row["id"] == Num(id as real);
    assert forall k :: 0 <= k < |flat| ==> carries(flat[k], ids[k]);
    ReversePairs(flat, ids, carries);
  }

  /** Reversing two lists of one length together keeps the pairs at equal places. */
  lemma ReversePairs<A, B>(xs: seq<A>, ys: seq<B>, p: (A, B) -> bool)
    requires |xs| == |ys|
    requires forall k :: 0 <= k < |xs| ==> p(xs[k], ys[k])
    ensures forall i :: 0 <= i < |xs| ==> p(Reverse(xs)[i], Reverse(ys)[i])
  {
    forall i | 0 <= i < |xs| ensures p(Reverse(xs)[i], Reverse(ys)[i]) {
      var k := |xs| - 1 - i;
      assert Reverse(xs)[i] == xs[k] && Reverse(ys)[i] == ys[k];
    }
  }

  /** Reversing strictly decreasing ids gives strictly increasing ones. */
  lemma ReverseDecreasing(ids: seq<nat>)
    requires Decreasing(ids)
    ensures forall i, j :: 0 <= i < j < |ids| ==> Reverse(ids)[i] < Reverse(ids)[j]
  {
    var rids := Reverse(ids);
    forall i, j | 0 <= i < j < |rids| ensures rids[i] < rids[j] {
      assert rids[i] == ids[|ids| - 1 - i] && rids[j] == ids[|ids| - 1 - j];
    }
  }

  /** What the dashboard shows of the flattened entries. */
  datatype Dashboard = Dashboard(entries: seq<FlatRow>, totalCourses: nat, totalFaculty: nat)

  /** Line 164: the distinct course values, the empty and None ones left out: never
      more than there are entries. */
  function Courses(entries: seq<FlatRow>): (r: set<Value>)
    ensures forall v :: v in r <==> exists e :: e in entries && Truthy(Field(e, "course")) && Field(e, "course") == v
    ensures forall v :: v in r ==> Truthy(v)
    ensures |r| <= |entries|
  {
    var course: FlatRow -> Value := e => Field(e, "course");
    var hasCourse: FlatRow -> bool := e => Truthy(Field(e, "course"));
    ImageBound(entries, course, hasCourse);
    assert (set e | e in entries && Truthy(Field(e, "course")) :: Field(e, "course"))
           == set e | e in entries && hasCourse(e) :: course(e);
    set e | e in entries && Truthy(Field(e, "course")) :: Field(e, "course")
  }

  /** The "first last" string of an entry whose two names are non-empty strings. */
  predicate Named(e: FlatRow)
  {
    Field(e, "instr_first_name").Text? && Field(e, "instr_first_name").s != ""
    && Field(e, "instr_last_name").Text? && Field(e, "instr_last_name").s != ""
  }

  function FullName(e: FlatRow): string
    requires Named(e)
  {
    Field(e, "instr_first_name").s + " " + Field(e, "instr_last_name").s
  }

  /** Lines 165-167: the distinct "first last" strings of the entries whose two names are
      both set: never more than there are entries. */
  function FacultyNames(entries: seq<FlatRow>): (r: set<string>)
    ensures forall n :: n in r <==> exists e :: e in entries && Named(e) && FullName(e) == n
    ensures |r| <= |entries|
  {
    var name: FlatRow -> string := e => if Named(e) then FullName(e) else "";
    var named: FlatRow -> bool := e => Named(e);
    ImageBound(entries, name, named);
    assert (set e | e in entries && Named(e) :: FullName(e)) == set e | e in entries && named(e) :: name(e);
    set e | e in entries && Named(e) :: FullName(e)
  }

  /** Lines 155-167: the first ten entries, the number of distinct courses and the number
      of distinct faculty names, over all entries. */
  function DashboardCounts(entries: seq<FlatRow>): (r: Dashboard)
    ensures r.entries == entries[..Min(10, |entries|)]
    ensures r.totalCourses == |Courses(entries)| && r.totalFaculty == |FacultyNames(entries)|
  {
    Dashboard(if entries != [] then entries[..Min(10, |entries|)] else [],
              |Courses(entries)|, |FacultyNames(entries)|)
  }

  /** No more distinct values than entries. */
  lemma {:induction false} ImageBound<U>(entries: seq<FlatRow>, f: FlatRow -> U, keep: FlatRow -> bool)
    ensures |set e | e in entries && keep(e) :: f(e)| <= |entries|
    decreases |entries|
  {
    if entries != [] {
      var init := entries[..|entries| - 1];
      ImageBound(init, f, keep);
      var last := entries[|entries| - 1];
      var before := set e | e in init && keep(e) :: f(e);
      var after := set e | e in entries && keep(e) :: f(e);
      assert forall e :: e in entries <==> e in init || e == last;
      assert after == before + (if keep(last) then {f(last)} else {});
    }
  }

  /** The dashboard lists at most ten entries and counts at most one course and one
      faculty name per entry. */
  lemma DashboardBounds(entries: seq<FlatRow>)
    ensures |DashboardCounts(entries).entries| <= 10
    ensures DashboardCounts(entries).totalCourses <= |entries|
    ensures DashboardCounts(entries).totalFaculty <= |entries|
  {
  }

  /** Faculty are counted by the joined string, so two different name pairs can count as
      one: "Ann Lee" "Kim" and "Ann" "Lee Kim" both give "Ann Lee Kim". */
  lemma FacultyNameCollision(e1: FlatRow, e2: FlatRow)
    requires e1 == map["instr_first_name" := Text("Ann Lee"), "instr_last_name" := Text("Kim")]
    requires e2 == map["instr_first_name" := Text("Ann"), "instr_last_name" := Text("Lee Kim")]
    ensures DashboardCounts([e1, e2]).totalFaculty == 1
  {
    assert FullName(e1) == FullName(e2) == "Ann Lee Kim";
    assert FacultyNames([e1, e2]) == {"Ann Lee Kim"};
  }

  /** The uploads of the student rows in order, each on the tables the previous one left. */
  function UploadAll(db: Tables, clean: Validator, h: Helpers, a: Assessment, rows: seq<StudentRow>, now: Value)
    : (r: Tables)
    requires db.Valid()
    ensures r.Valid()
    decreases |rows|
  {
    if rows == [] then db
    else Upload(UploadAll(db, clean, h, a, rows[..|rows| - 1], now), clean, h, a, rows[|rows| - 1], now).0
  }

  /** From aligned sequences, uploading student rows that all derive and validate gives
      each row its own id, present in all six tables, and keeps the sequences aligned. */
  lemma {:induction false} UploadAllKeepsAlignment(db: Tables, clean: Validator, h: Helpers, a: Assessment,
                                                   rows: seq<StudentRow>, now: Value)
    requires db.Valid() && db.Aligned()
    requires forall s :: s in rows ==> Derive(h, a, s).Some? && AllValid(clean, Group(a, s, h, Derive(h, a, s).value, now))
    ensures UploadAll(db, clean, h, a, rows, now).Aligned()
    ensures UploadAll(db, clean, h, a, rows, now).dp.nextId == db.dp.nextId + |rows|
    ensures forall id :: db.dp.nextId <= id < db.dp.nextId + |rows| ==> UploadAll(db, clean, h, a, rows, now).HasGroup(id)
    decreases |rows|
  {
    if rows != [] {
      var init, last := rows[..|rows| - 1], rows[|rows| - 1];
      assert forall s :: s in init ==> s in rows;
      assert last in rows;
      UploadAllKeepsAlignment(db, clean, h, a, init, now);
      UploadAlignedNext(db.dp.nextId, UploadAll(db, clean, h, a, init, now), clean, h, a, |init|, last, now);
    }
  }

  /** The step of the upload loop: with the groups of `count` rows complete from `base`
      on, the upload of one more row completes the next id and keeps the sequences aligned. */
  lemma UploadAlignedNext(base: nat, mid: Tables, clean: Validator, h: Helpers, a: Assessment,
                          count: nat, last: StudentRow, now: Value)
    requires mid.Valid() && mid.Aligned() && mid.dp.nextId == base + count
    requires forall id :: base <= id < base + count ==> mid.HasGroup(id)
    requires Derive(h, a, last).Some? && AllValid(clean, Group(a, last, h, Derive(h, a, last).value, now))
    ensures Upload(mid, clean, h, a, last, now).0.Aligned()
    ensures Upload(mid, clean, h, a, last, now).0.dp.nextId == base + count + 1
    ensures forall id :: base <= id < base + count + 1 ==> Upload(mid, clean, h, a, last, now).0.HasGroup(id)
  {
    UploadKeepsAlignment(mid, clean, h, a, last, now);
  }

  /** Under the same conditions, the i-th student row's group sits on the i-th id from
      the sequences' start, each of the six tables holding its own record of that group
      there, and the rows present before stay unchanged. */
  lemma {:induction false} UploadAllPlacesGroups(db: Tables, clean: Validator, h: Helpers, a: Assessment,
                                                 rows: seq<StudentRow>, now: Value)
    requires db.Valid() && db.Aligned()
    requires forall s :: s in rows ==> Derive(h, a, s).Some? && AllValid(clean, Group(a, s, h, Derive(h, a, s).value, now))
    ensures forall k, i :: 0 <= i < |rows| ==>
              RowAt(UploadAll(db, clean, h, a, rows, now).Get(k), db.dp.nextId + i)
              == Some(GroupRecord(k, a, rows[i], h, Derive(h, a, rows[i]).value, now))
    ensures forall k, id :: id in db.Get(k).rows ==>
              RowAt(UploadAll(db, clean, h, a, rows, now).Get(k), id) == RowAt(db.Get(k), id)
    decreases |rows|
  {
    if rows != [] {
      var init, last := rows[..|rows| - 1], rows[|rows| - 1];
      assert forall s :: s in init ==> s in rows;
      assert last in rows;
      assert rows == init + [last];
      UploadAllPlacesGroups(db, clean, h, a, init, now);
      UploadAllKeepsAlignment(db, clean, h, a, init, now);
      UploadPlacesNext(db, UploadAll(db, clean, h, a, init, now), clean, h, a, init, last, now);
    }
  }

  /** The step of the upload loop: with the groups of `init` placed from the id `db`
      started at, the upload of `last` places its group on the next id and keeps every
      earlier row. */
  lemma UploadPlacesNext(db: Tables, mid: Tables, clean: Validator, h: Helpers, a: Assessment,
                         init: seq<StudentRow>, last: StudentRow, now: Value)
    requires mid.Valid() && mid.Aligned() && mid.dp.nextId == db.dp.nextId + |init|
    requires forall s :: s in init ==> Derive(h, a, s).Some?
    requires forall k, i :: 0 <= i < |init| ==>
               RowAt(mid.Get(k), db.dp.nextId + i) == Some(GroupRecord(k, a, init[i], h, Derive(h, a, init[i]).value, now))
    requires forall k, id :: id in db.Get(k).rows ==> RowAt(mid.Get(k), id) == RowAt(db.Get(k), id)
    requires Derive(h, a, last).Some? && AllValid(clean, Group(a, last, h, Derive(h, a, last).value, now))
    ensures forall k, i :: 0 <= i < |init + [last]| ==>
              RowAt(Upload(mid, clean, h, a, last, now).0.Get(k), db.dp.nextId + i)
              == Some(GroupRecord(k, a, (init + [last])[i], h, Derive(h, a, (init + [last])[i]).value, now))
    ensures forall k, id :: id in db.Get(k).rows ==>
              RowAt(Upload(mid, clean, h, a, last, now).0.Get(k), id) == RowAt(db.Get(k), id)
  {
    UploadPlacesGroup(mid, clean, h, a, last, now);
    var rows := init + [last];
    forall k, i | 0 <= i < |rows|
      ensures RowAt(Upload(mid, clean, h, a, last, now).0.Get(k), db.dp.nextId + i)
              == Some(GroupRecord(k, a, rows[i], h, Derive(h, a, rows[i]).value, now))
    {
      if i < |init| {
        assert rows[i] == init[i];
        assert RowAt(mid.Get(k), db.dp.nextId + i).Some?;
      } else {
        assert rows[i] == last;
      }
    }
    forall k, id | id in db.Get(k).rows
      ensures RowAt(Upload(mid, clean, h, a, last, now).0.Get(k), id) == RowAt(db.Get(k), id)
    {
      assert RowAt(mid.Get(k), id).Some?;
    }
  }

  /** What `form_submit_view` answers. */
  datatype SubmitOutcome = Submitted | Refused(message: string) | Failed

  /** `int()` succeeds on the program term, the assessment maximum and the question maximum. */
  predicate Converts(form: Assessment, toInt: Value -> Option<Value>)
  {
    toInt(form.progTerm).Some? && toInt(form.assessMax).Some? && toInt(form.questionMax).Some?
  }

  /** The assessment fields with those three converted. */
  function Converted(form: Assessment, toInt: Value -> Option<Value>): Assessment
    requires Converts(form, toInt)
  {
    form.(progTerm := toInt(form.progTerm).value, assessMax := toInt(form.assessMax).value,
          questionMax := toInt(form.questionMax).value)
  }

  /** Lines 253-318 after the file check: `read_csv` gave `extracted` and `error`. A
      reported error or an empty list is answered without any upload; `int()` on the
      program term, the assessment maximum and the question maximum raises before the
      first upload when a value is not a number; otherwise `upload_data` runs once per
      student row, in order, with the same assessment fields. Then, for an uploader who
      is not a superuser, the Faculty profile is fetched and its `last_uploaded` set:
      a missing profile raises after the uploads, which stay saved, and the answer is
      the failure of the `except`. `toInt` is Python's `int()`, `clock` the value of
      `datetime.now()` at line 310. */
  method FormSubmit(store: Store, extracted: seq<StudentRow>, error: Option<string>, form: Assessment,
                    toInt: Value -> Option<Value>, now: Value, uploader: nat, isSuperuser: bool, clock: Value)
    returns (outcome: SubmitOutcome)
    requires store.Valid()
    modifies store
    ensures store.Valid()
    ensures store.users == old(store.users)
    ensures error.Some? && error.value != "" ==>
              outcome == Refused(error.value) && store.tables == old(store.tables) && store.faculty == old(store.faculty)
    ensures (error.None? || error.value == "") && extracted == [] ==>
              outcome == Refused("No valid student data found in uploaded file")
              && store.tables == old(store.tables) && store.faculty == old(store.faculty)
    ensures (error.None? || error.value == "") && extracted != [] && !Converts(form, toInt) ==>
              outcome == Failed && store.tables == old(store.tables) && store.faculty == old(store.faculty)
    ensures (error.None? || error.value == "") && extracted != [] && Converts(form, toInt) ==>
              store.tables == UploadAll(old(store.tables), store.fullClean, store.utils, Converted(form, toInt), extracted, now)
    ensures outcome == Submitted <==>
              (error.None? || error.value == "") && extracted != [] && Converts(form, toInt)
              && (isSuperuser || uploader in old(store.faculty))
    ensures (error.None? || error.value == "") && extracted != [] && Converts(form, toInt)
            && !isSuperuser && uploader !in old(store.faculty) ==>
              outcome == Failed && store.faculty == old(store.faculty)
    ensures outcome == Submitted ==>
              store.faculty == if isSuperuser then old(store.faculty) else old(store.faculty)[uploader := Profile(clock)]
  {
    if error.Some? && error.value != "" {
      return Refused(error.value);
    }
    if extracted == [] {
      return Refused("No valid student data found in uploaded file");
    }
    var progTerm := toInt(form.progTerm);
    if progTerm.None? {
      return Failed;
    }
    var assessMax := toInt(form.assessMax);
    var questionMax := toInt(form.questionMax);
    if assessMax.None? || questionMax.None? {
      return Failed;
    }
    var a := form.(progTerm := progTerm.value, assessMax := assessMax.value, questionMax := questionMax.value);
    ghost var db := store.tables;
    for i := 0 to |extracted|
      invariant store.Valid()
      invariant store.users == old(store.users) && store.faculty == old(store.faculty)
      invariant store.tables == UploadAll(db, store.fullClean, store.utils, a, extracted[..i], now)
    {
      assert extracted[..i + 1][..i] == extracted[..i];
      var attempts := store.UploadData(a, extracted[i], now);
    }
    assert extracted[..|extracted|] == extracted;
    if !isSuperuser {
      var found := store.MarkUploaded(uploader, clock);
      if !found {
        return Failed;
      }
    }
    return Submitted;
  }
}
