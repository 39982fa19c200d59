/**
 * The record types of the spreadsheet export and the row loop of
 * `getSheetData`: skip the header, stop at the first short row or the first
 * row with an empty column 0, and file every row by its column-0 marker into
 * one of four collections, gathering the distinct document versions of the
 * requirement rows in first-seen order.
 *
 * `SheetOf` is the specification; `ClassifyRows` is the loop, proved equal to it.
 */
module Sheet {
  import opened Strings
  import Csv

  /** A requirement row: the card toggled by its "Display?" column. */
  datatype RequirementDropdown = RequirementDropdown(
    display: bool,
    documentVersion: string,
    title: string,
    key: string,
    subtitle: string,
    status: string,
    reviewBy: string,
    note: string)

  /** A content row: one topic/bullet line of the requirement with the same key. */
  datatype RequirementContent = RequirementContent(key: string, topic: string, bulletPoint: string)

  /** A stakeholder row: one sign-off stakeholder of the requirement with the same key. */
  datatype SignOffStakeholder = SignOffStakeholder(key: string, stakeholder: string)

  /** A link row: one quick link of the requirement with the same key. */
  datatype QuickLink = QuickLink(key: string, linkText: string, link: string)

  /** What `getSheetData` returns, without `lastUpdated`. */
  datatype SheetData = SheetData(
    requirementDropdowns: seq<RequirementDropdown>,
    requirementContents: seq<RequirementContent>,
    signOffStakeholders: seq<SignOffStakeholder>,
    quickLinks: seq<QuickLink>,
    documentVersions: seq<string>)

  const EmptySheet := SheetData([], [], [], [], [])

  /** The collection a row is filed into, decided by its column 0. */
  datatype RowKind = Requirement | Content | Stakeholder | Link | Unrecognised

  /** `row[i] || ""`: a missing column reads as the empty string. */
  function Cell(row: seq<string>, i: nat): string
  {
    if i < |row| then row[i] else ""
  }

  /** The row that ends the scan: fewer than 5 columns or an empty column 0. */
  predicate EndsScan(row: seq<string>)
  {
    |row| < 5 || row[0] == ""
  }

  predicate IsRequirementMarker(marker: string)
  {
    ToLower(marker) == "true" || ToLower(marker) == "false"
  }

  /** The if/else-if chain on column 0: the first test that holds decides. */
  function KindOf(marker: string): RowKind
  {
    if IsRequirementMarker(marker) then Requirement
    else if marker != "" && StartsWith(marker, "content") then Content
    else if marker != "" && StartsWith(marker, "stakeholder") then Stakeholder
    else if marker != "" && StartsWith(marker, "link") then Link
    else Unrecognised
  }

  /** The four markers are pairwise exclusive. */
  lemma MarkersExclusive(marker: string)
    ensures IsRequirementMarker(marker)
        ==> !(StartsWith(marker, "content") || StartsWith(marker, "stakeholder") || StartsWith(marker, "link"))
    ensures StartsWith(marker, "content") ==> !(StartsWith(marker, "stakeholder") || StartsWith(marker, "link"))
    ensures StartsWith(marker, "stakeholder") ==> !StartsWith(marker, "link")
  {
    ToLowerAt(marker);
    if marker != [] {
      assert ToLower(marker)[0] == LowerChar(marker[0]);
      assert IsRequirementMarker(marker) ==> ToLower(marker)[0] in {'t', 'f'};
    }
  }

  /** The same tests in the reverse order. */
  function KindReversedOrder(marker: string): RowKind
  {
    if marker != "" && StartsWith(marker, "link") then Link
    else if marker != "" && StartsWith(marker, "stakeholder") then Stakeholder
    else if marker != "" && StartsWith(marker, "content") then Content
    else if IsRequirementMarker(marker) then Requirement
    else Unrecognised
  }

  /** Because the markers are exclusive, the order of the tests does not matter. */
  lemma FirstMatchOrderIrrelevant(marker: string)
    ensures KindOf(marker) == KindReversedOrder(marker)
  {
    MarkersExclusive(marker);
  }

  /** A requirement marker is "true" or "false" in any mix of upper and lower case. */
  lemma RequirementMarkerIgnoresCase(marker: string)
    ensures KindOf(marker) == Requirement
        <==> EqualIgnoringCase(marker, "true") || EqualIgnoringCase(marker, "false")
  {
    LowerEqualsIgnoringCase(marker, "true");
    LowerEqualsIgnoringCase(marker, "false");
  }

  function RequirementOf(row: seq<string>): RequirementDropdown
  {
    RequirementDropdown(ToLower(Cell(row, 0)) == "true",
      Cell(row, 1), Cell(row, 2), Cell(row, 3), Cell(row, 4), Cell(row, 5), Cell(row, 6), Cell(row, 7))
  }

  function ContentOf(row: seq<string>): RequirementContent
  {
    RequirementContent(Cell(row, 1), Cell(row, 2), Cell(row, 3))
  }

  function StakeholderOf(row: seq<string>): SignOffStakeholder
  {
    SignOffStakeholder(Cell(row, 1), Cell(row, 2))
  }

  function LinkOf(row: seq<string>): QuickLink
  {
    QuickLink(Cell(row, 1), Cell(row, 2), Cell(row, 3))
  }

  function Kind(row: seq<string>): RowKind
  {
    KindOf(Cell(row, 0))
  }

  /** The records of the rows of `kind` in `rows`, in row order. */
  function Filed<T>(rows: seq<seq<string>>, kind: RowKind, record: seq<string> -> T): seq<T>
  {
    if rows == [] then []
    else
      var row := rows[|rows| - 1];
      Filed(rows[..|rows| - 1], kind, record) + (if Kind(row) == kind then [record(row)] else [])
  }

  function Requirements(rows: seq<seq<string>>): seq<RequirementDropdown>
  {
    Filed(rows, Requirement, RequirementOf)
  }

  function Contents(rows: seq<seq<string>>): seq<RequirementContent>
  {
    Filed(rows, Content, ContentOf)
  }

  function Stakeholders(rows: seq<seq<string>>): seq<SignOffStakeholder>
  {
    Filed(rows, Stakeholder, StakeholderOf)
  }

  function Links(rows: seq<seq<string>>): seq<QuickLink>
  {
    Filed(rows, Link, LinkOf)
  }

  /** Number of rows of `rows` that match no marker. */
  function UnrecognisedCount(rows: seq<seq<string>>): nat
  {
    if rows == [] then 0
    else UnrecognisedCount(rows[..|rows| - 1]) + (if Kind(rows[|rows| - 1]) == Unrecognised then 1 else 0)
  }

  /** Column 1 of each requirement row where it is non-empty, in row order, repeats kept. */
  function VersionsSeen(rows: seq<seq<string>>): seq<string>
  {
    if rows == [] then []
    else
      var row := rows[|rows| - 1];
      VersionsSeen(rows[..|rows| - 1])
        + (if Kind(row) == Requirement && Cell(row, 1) != "" then [Cell(row, 1)] else [])
  }

  /** The non-empty `documentVersion` of each record, in order. */
  function VersionsOf(reqs: seq<RequirementDropdown>): seq<string>
  {
    if reqs == [] then []
    else
      var v := reqs[|reqs| - 1].documentVersion;
      VersionsOf(reqs[..|reqs| - 1]) + (if v != "" then [v] else [])
  }

  /** Index of the first occurrence of `x` in `s`. */
  function FirstIndex(s: seq<string>, x: string): (k: nat)
    requires x in s
    ensures k < |s| && s[k] == x && x !in s[..k]
  {
    if x in s[..|s| - 1] then FirstIndex(s[..|s| - 1], x) else |s| - 1
  }

  /**
   * `Array.from` of a `Set` filled by `add` in the order of `s`: every
   * element once, where it was first seen.
   */
  function Distinct(s: seq<string>): (d: seq<string>)
    ensures forall x :: x in d <==> x in s
  {
    if s == [] then []
    else
      var init := Distinct(s[..|s| - 1]);
      var x := s[|s| - 1];
      assert forall y :: y in s <==> y in s[..|s| - 1] || y == x by {
        assert s == s[..|s| - 1] + [x];
      }
      if x in init then init else init + [x]
  }

  predicate NoRepeats(d: seq<string>)
  {
    forall i, j :: 0 <= i < j < |d| ==> d[i] != d[j]
  }

  /** `Distinct` holds each element once. */
  lemma {:induction false} DistinctNoRepeats(s: seq<string>)
    ensures NoRepeats(Distinct(s))
  {
    if s != [] {
      DistinctNoRepeats(s[..|s| - 1]);
    }
  }

  /** Adding an element to a `Set` appends it only when it is new. */
  lemma DistinctAppend(s: seq<string>, x: string)
    ensures Distinct(s + [x]) == if x in Distinct(s) then Distinct(s) else Distinct(s) + [x]
  {
    assert (s + [x])[..|s|] == s;
  }

  /** The elements of `d` appear in the order of their first occurrences in `s`. */
  predicate FirstSeenOrder(d: seq<string>, s: seq<string>)
    requires forall x :: x in d ==> x in s
  {
    forall i, j :: 0 <= i < j < |d| ==> FirstIndex(s, d[i]) < FirstIndex(s, d[j])
  }

  /** `Distinct` keeps first-seen order. */
  lemma {:induction false} DistinctFirstSeen(s: seq<string>)
    ensures FirstSeenOrder(Distinct(s), s)
  {
    if s != [] {
      var init := s[..|s| - 1];
      var x := s[|s| - 1];
      DistinctFirstSeen(init);
      var d0 := Distinct(init);
      var d := Distinct(s);
      assert d == if x in d0 then d0 else d0 + [x];
      forall y | y in init
        ensures FirstIndex(s, y) == FirstIndex(init, y)
      {
      }
      forall i, j | 0 <= i < j < |d|
        ensures FirstIndex(s, d[i]) < FirstIndex(s, d[j])
      {
        assert d[i] == d0[i] && d0[i] in init;
        assert FirstIndex(s, d[i]) == FirstIndex(init, d0[i]);
        if j < |d0| {
          assert d[j] == d0[j] && d0[j] in init;
          assert FirstIndex(s, d[j]) == FirstIndex(init, d0[j]);
        } else {
          assert d[j] == x && x !in init;
          assert FirstIndex(s, x) == |s| - 1;
          assert FirstIndex(init, d0[i]) < |init|;
        }
      }
    }
  }

  /**
   * The rows the loop reaches: the longest prefix of `rows` without a row
   * that ends the scan.
   */
  function ScannedRows(rows: seq<seq<string>>): (w: seq<seq<string>>)
    ensures w <= rows
    ensures forall j :: 0 <= j < |w| ==> !EndsScan(w[j])
    ensures |w| < |rows| ==> EndsScan(rows[|w|])
  {
    if rows == [] || EndsScan(rows[0]) then []
    else [rows[0]] + ScannedRows(rows[1..])
  }

  /** A prefix with no stop row, followed by a stop row or the end, is the scanned part. */
  lemma {:induction false} ScannedRowsUnique(rows: seq<seq<string>>, k: nat)
    requires k <= |rows|
    requires forall j :: 0 <= j < k ==> !EndsScan(rows[j])
    requires k == |rows| || EndsScan(rows[k])
    ensures ScannedRows(rows) == rows[..k]
  {
    if k > 0 {
      ScannedRowsUnique(rows[1..], k - 1);
      assert [rows[0]] + rows[1..][..k - 1] == rows[..k];
    }
  }

  /** The rows after the header that the loop classifies. */
  function Window(parsed: seq<seq<string>>): seq<seq<string>>
  {
    if |parsed| > 1 then ScannedRows(parsed[1..]) else []
  }

  /** One iteration of the row loop on a row that does not end the scan. */
  function FileRow(acc: SheetData, row: seq<string>): SheetData
  {
    match Kind(row)
    case Requirement =>
      var v := Cell(row, 1);
      acc.(documentVersions := if v != "" && v !in acc.documentVersions then acc.documentVersions + [v]
                               else acc.documentVersions,
           requirementDropdowns := acc.requirementDropdowns + [RequirementOf(row)])
    case Content => acc.(requirementContents := acc.requirementContents + [ContentOf(row)])
    case Stakeholder => acc.(signOffStakeholders := acc.signOffStakeholders + [StakeholderOf(row)])
    case Link => acc.(quickLinks := acc.quickLinks + [LinkOf(row)])
    case Unrecognised => acc
  }

  /** The loop's variables after filing every row of `rows`. */
  function Collect(rows: seq<seq<string>>): SheetData
  {
    if rows == [] then EmptySheet else FileRow(Collect(rows[..|rows| - 1]), rows[|rows| - 1])
  }

  lemma CollectAppend(rows: seq<seq<string>>, row: seq<string>)
    ensures Collect(rows + [row]) == FileRow(Collect(rows), row)
  {
    assert (rows + [row])[..|rows|] == rows;
  }

  lemma SliceAppend<T>(s: seq<T>, lo: nat, hi: nat)
    requires lo <= hi < |s|
    ensures s[lo..hi + 1] == s[lo..hi] + [s[hi]]
  {
  }

  /** None of `rows` ends the scan: the rows the loop has already passed. */
  predicate NoStop(rows: seq<seq<string>>)
  {
    rows == [] || (NoStop(rows[..|rows| - 1]) && !EndsScan(rows[|rows| - 1]))
  }

  lemma NoStopAppend(rows: seq<seq<string>>, row: seq<string>)
    requires NoStop(rows) && !EndsScan(row)
    ensures NoStop(rows + [row])
  {
    assert (rows + [row])[..|rows|] == rows;
  }

  lemma {:induction false} NoStopAt(rows: seq<seq<string>>)
    requires NoStop(rows)
    ensures forall j :: 0 <= j < |rows| ==> !EndsScan(rows[j])
  {
    if rows != [] {
      NoStopAt(rows[..|rows| - 1]);
    }
  }

  /** A loop that stops at index `k` has classified exactly the window. */
  lemma WindowEndsAt(parsed: seq<seq<string>>, k: nat)
    requires 1 <= k <= |parsed|
    requires NoStop(parsed[1..k])
    requires k == |parsed| || EndsScan(parsed[k])
    ensures |parsed| > 1 ==> Window(parsed) == parsed[1..k]
  {
    if |parsed| > 1 {
      var rows := parsed[1..];
      NoStopAt(parsed[1..k]);
      assert forall j :: 0 <= j < k - 1 ==> rows[j] == parsed[1..k][j];
      ScannedRowsUnique(rows, k - 1);
      assert rows[..k - 1] == parsed[1..k];
    }
  }

  /** The specification of the row loop of `getSheetData`. */
  function SheetOf(parsed: seq<seq<string>>): SheetData
  {
    Collect(Window(parsed))
  }

  /** The header row is never classified: replacing it changes nothing. */
  lemma HeaderIgnored(header: seq<string>, other: seq<string>, rest: seq<seq<string>>)
    ensures SheetOf([header] + rest) == SheetOf([other] + rest)
  {
    assert ([header] + rest)[1..] == rest == ([other] + rest)[1..];
  }

  /** With one row or none there is nothing but a header: every collection is empty. */
  lemma HeaderOnlyIsEmpty(parsed: seq<seq<string>>)
    requires |parsed| <= 1
    ensures SheetOf(parsed) == EmptySheet
  {
  }

  /** Dropping a stop row and everything after it changes nothing. */
  lemma {:induction false} ScannedRowsCut(rows: seq<seq<string>>, k: nat)
    requires k < |rows| && EndsScan(rows[k])
    ensures ScannedRows(rows) == ScannedRows(rows[..k])
  {
    if k > 0 && !EndsScan(rows[0]) {
      ScannedRowsCut(rows[1..], k - 1);
      assert rows[..k][1..] == rows[1..][..k - 1];
    }
  }

  /** No row after the first stop row adds to any collection. */
  lemma RowsAfterStopIgnored(parsed: seq<seq<string>>, k: nat)
    requires 1 <= k < |parsed| && EndsScan(parsed[k])
    ensures SheetOf(parsed) == SheetOf(parsed[..k])
  {
    ScannedRowsCut(parsed[1..], k - 1);
    if k > 1 {
      assert parsed[..k][1..] == parsed[1..][..k - 1];
    }
  }

  /** Every classified row lands in at most one collection, and unrecognised rows in none. */
  lemma {:induction false} Partition(rows: seq<seq<string>>)
    ensures |Requirements(rows)| + |Contents(rows)| + |Stakeholders(rows)| + |Links(rows)|
          + UnrecognisedCount(rows) == |rows|
  {
    if rows != [] {
      Partition(rows[..|rows| - 1]);
    }
  }

  /** Appending one row adds its record when the row is of `kind`. */
  lemma FiledAppend<T>(rows: seq<seq<string>>, row: seq<string>, kind: RowKind, record: seq<string> -> T)
    ensures Filed(rows + [row], kind, record)
         == Filed(rows, kind, record) + (if Kind(row) == kind then [record(row)] else [])
  {
    assert (rows + [row])[..|rows|] == rows;
  }

  lemma VersionsSeenAppend(rows: seq<seq<string>>, row: seq<string>)
    ensures VersionsSeen(rows + [row])
         == VersionsSeen(rows) + (if Kind(row) == Requirement && Cell(row, 1) != "" then [Cell(row, 1)] else [])
  {
    assert (rows + [row])[..|rows|] == rows;
  }

  lemma {:induction false} FiledConcat<T>(a: seq<seq<string>>, b: seq<seq<string>>, kind: RowKind,
                                          record: seq<string> -> T)
    ensures Filed(a + b, kind, record) == Filed(a, kind, record) + Filed(b, kind, record)
  {
    if b == [] {
      assert a + b == a;
    } else {
      var init, row := b[..|b| - 1], b[|b| - 1];
      var added := if Kind(row) == kind then [record(row)] else [];
      var fa, fi := Filed(a, kind, record), Filed(init, kind, record);
      assert Filed(a + b, kind, record) == Filed(a + init, kind, record) + added by {
        assert a + b == (a + init) + [row];
        FiledAppend(a + init, row, kind, record);
      }
      assert Filed(b, kind, record) == fi + added by {
        assert b == init + [row];
        FiledAppend(init, row, kind, record);
      }
      FiledConcat(a, init, kind, record);
      assert (fa + fi) + added == fa + (fi + added);
    }
  }

  /** The collections of `a + b` are those of `a` followed by those of `b`: row order is kept. */
  lemma CollectionsConcat(a: seq<seq<string>>, b: seq<seq<string>>)
    ensures Requirements(a + b) == Requirements(a) + Requirements(b)
    ensures Contents(a + b) == Contents(a) + Contents(b)
    ensures Stakeholders(a + b) == Stakeholders(a) + Stakeholders(b)
    ensures Links(a + b) == Links(a) + Links(b)
  {
    FiledConcat(a, b, Requirement, RequirementOf);
    FiledConcat(a, b, Content, ContentOf);
    FiledConcat(a, b, Stakeholder, StakeholderOf);
    FiledConcat(a, b, Link, LinkOf);
  }

  /** The per-kind collections of `rows`, with the distinct versions of its requirement rows. */
  function ByKind(rows: seq<seq<string>>): SheetData
  {
    SheetData(Requirements(rows), Contents(rows), Stakeholders(rows), Links(rows), Distinct(VersionsSeen(rows)))
  }

  lemma CollectStep(init: seq<seq<string>>, row: seq<string>)
    requires Collect(init) == ByKind(init)
    ensures Collect(init + [row]) == ByKind(init + [row])
  {
    var rows := init + [row];
    assert rows[..|init|] == init;
    var acc := Collect(init);
    var v := Cell(row, 1);
    var next := FileRow(acc, row);
    assert next.requirementDropdowns == Requirements(rows) by {
      FiledAppend(init, row, Requirement, RequirementOf);
    }
    assert next.requirementContents == Contents(rows) by {
      FiledAppend(init, row, Content, ContentOf);
    }
    assert next.signOffStakeholders == Stakeholders(rows) by {
      FiledAppend(init, row, Stakeholder, StakeholderOf);
    }
    assert next.quickLinks == Links(rows) by {
      FiledAppend(init, row, Link, LinkOf);
    }
    assert next.documentVersions == Distinct(VersionsSeen(rows)) by {
      VersionsSeenAppend(init, row);
      if Kind(row) == Requirement && v != "" {
        DistinctAppend(VersionsSeen(init), v);
      } else {
        assert VersionsSeen(rows) == VersionsSeen(init);
      }
    }
  }

  /**
   * The loop's one-row steps build exactly the per-kind collections, and
   * the distinct versions of the requirement rows.
   */
  lemma {:induction false} CollectFiles(rows: seq<seq<string>>)
    ensures Collect(rows) == ByKind(rows)
  {
    if rows != [] {
      var init, row := rows[..|rows| - 1], rows[|rows| - 1];
      assert Collect(init + [row]) == ByKind(init + [row]) by {
        CollectFiles(init);
        CollectStep(init, row);
      }
      assert rows == init + [row];
    }
  }

  /**
   * One row adds exactly one record to the collection its marker selects and
   * nothing elsewhere; a requirement record copies columns 1..7 and is
   * displayed exactly when column 0 is "true" in any case.
   */
  lemma SingleRow(row: seq<string>)
    ensures |Requirements([row])| == (if Kind(row) == Requirement then 1 else 0)
    ensures |Contents([row])| == (if Kind(row) == Content then 1 else 0)
    ensures |Stakeholders([row])| == (if Kind(row) == Stakeholder then 1 else 0)
    ensures |Links([row])| == (if Kind(row) == Link then 1 else 0)
    ensures Kind(row) == Requirement ==>
      var r := Requirements([row])[0];
      && (r.display <==> EqualIgnoringCase(Cell(row, 0), "true"))
      && [r.documentVersion, r.title, r.key, r.subtitle, r.status, r.reviewBy, r.note]
         == [Cell(row, 1), Cell(row, 2), Cell(row, 3), Cell(row, 4), Cell(row, 5), Cell(row, 6), Cell(row, 7)]
  {
    assert [] + [row] == [row];
    FiledAppend([], row, Requirement, RequirementOf);
    FiledAppend([], row, Content, ContentOf);
    FiledAppend([], row, Stakeholder, StakeholderOf);
    FiledAppend([], row, Link, LinkOf);
    LowerEqualsIgnoringCase(Cell(row, 0), "true");
  }

  /** Versions come from the requirement records alone; other row kinds never add one. */
  lemma {:induction false} VersionsFromRequirements(rows: seq<seq<string>>)
    ensures VersionsSeen(rows) == VersionsOf(Requirements(rows))
  {
    if rows != [] {
      var init := rows[..|rows| - 1];
      var row := rows[|rows| - 1];
      VersionsFromRequirements(init);
      assert rows == init + [row];
      FiledAppend(init, row, Requirement, RequirementOf);
      VersionsSeenAppend(init, row);
      if Kind(row) == Requirement {
        var reqs := Requirements(init) + [RequirementOf(row)];
        assert reqs[..|reqs| - 1] == Requirements(init);
      } else {
        assert Requirements(rows) == Requirements(init);
      }
    }
  }

  lemma {:induction false} VersionsOfMembers(reqs: seq<RequirementDropdown>)
    ensures forall v ::
      v in VersionsOf(reqs) <==> (v != "" && exists k :: 0 <= k < |reqs| && reqs[k].documentVersion == v)
  {
    if reqs != [] {
      var init := reqs[..|reqs| - 1];
      VersionsOfMembers(init);
      forall v | v != "" && (exists k :: 0 <= k < |reqs| && reqs[k].documentVersion == v)
        ensures v in VersionsOf(reqs)
      {
        var k :| 0 <= k < |reqs| && reqs[k].documentVersion == v;
        if k < |init| {
          assert init[k].documentVersion == v;
        }
      }
      forall v | v in VersionsOf(init)
        ensures exists k :: 0 <= k < |reqs| && reqs[k].documentVersion == v
      {
        var k :| 0 <= k < |init| && init[k].documentVersion == v;
        assert reqs[k].documentVersion == v;
      }
    }
  }

  /**
   * `documentVersions` lists every non-empty version of the requirement
   * records, each once, in the order first seen.
   */
  lemma DocumentVersions(parsed: seq<seq<string>>)
    ensures var data := SheetOf(parsed);
      var vs := VersionsOf(data.requirementDropdowns);
      && (forall v :: v in data.documentVersions <==> v in vs)
      && NoRepeats(data.documentVersions)
      && (forall v :: v in data.documentVersions
            <==> v != "" && exists k :: 0 <= k < |data.requirementDropdowns|
                              && data.requirementDropdowns[k].documentVersion == v)
      && FirstSeenOrder(data.documentVersions, vs)
  {
    var w := Window(parsed);
    CollectFiles(w);
    VersionsFromRequirements(w);
    VersionsOfMembers(Requirements(w));
    DistinctNoRepeats(VersionsSeen(w));
    DistinctFirstSeen(VersionsSeen(w));
  }

  /**
   * The body of the row loop for a row that does not end the scan: the
   * if/else-if chain on column 0, pushing one record or nothing.
   */
  method AddRow(acc: SheetData, row: seq<string>) returns (next: SheetData)
    requires !EndsScan(row)
    ensures next == FileRow(acc, row)
  {
    next := acc;
    var marker := row[0];
    if ToLower(marker) == "true" || ToLower(marker) == "false" {
      if row[1] != "" && row[1] !in next.documentVersions {
        next := next.(documentVersions := next.documentVersions + [row[1]]);
      }
      next := next.(requirementDropdowns := next.requirementDropdowns + [RequirementOf(row)]);
    } else if marker != "" && StartsWith(marker, "content") {
      next := next.(requirementContents := next.requirementContents + [ContentOf(row)]);
    } else if marker != "" && StartsWith(marker, "stakeholder") {
      next := next.(signOffStakeholders := next.signOffStakeholders + [StakeholderOf(row)]);
    } else if marker != "" && StartsWith(marker, "link") {
      next := next.(quickLinks := next.quickLinks + [LinkOf(row)]);
    }
  }

  /** The row loop of `getSheetData`, with its early `break`. */
  method ClassifyRows(parsed: seq<seq<string>>) returns (data: SheetData)
    ensures data == SheetOf(parsed)
    ensures |parsed| <= 1 ==> data == EmptySheet
  {
    data := EmptySheet;
    if |parsed| > 1 {
      var i := 1;
      while i < |parsed|
        invariant 1 <= i <= |parsed|
        invariant NoStop(parsed[1..i])
        invariant data == Collect(parsed[1..i])
      {
        var row := parsed[i];
        if |row| < 5 || row[0] == "" {
          break;
        }
        assert !EndsScan(row);
        SliceAppend(parsed, 1, i);
        NoStopAppend(parsed[1..i], row);
        CollectAppend(parsed[1..i], row);
        data := AddRow(data, row);
        i := i + 1;
      }
      WindowEndsAt(parsed, i);
    }
  }

  /** `getSheetData` once the CSV text is in hand: parse, then classify. */
  method GetSheetData(csvText: string) returns (data: SheetData)
    ensures data == SheetOf(Csv.ParsedCsv(csvText))
    ensures '\n' !in csvText ==> data == EmptySheet
  {
    var parsed := Csv.ParseCsv(csvText);
    data := ClassifyRows(parsed);
  }
}
