/**
 * Disciplinary reports about students. A report is numbered per
 * institution as `R-` followed by the institution's report count plus one,
 * written with at least four digits.
 */
module StudentReportController {
  import opened Wrappers
  import opened Http

  type ReportId = nat
  type InstitutionId = nat
  type UserId = nat

  // ---------------------------------------------------------------------
  // Decimal numerals and `sprintf('R-%04d', n)`

  function DigitChar(d: nat): (c: char)
    requires d < 10
    ensures '0' <= c <= '9' && (c as int) - ('0' as int) == d
  {
    (('0' as int) + d) as char
  }

  /** The value of a digit character; anything else counts as 0. */
  function DigitValue(c: char): (d: nat)
    ensures d < 10
  {
    if '0' <= c <= '9' then (c as int) - ('0' as int) else 0
  }

  /** The decimal numeral of `n`, without leading zeros (`"0"` for zero). */
  function Digits(n: nat): (s: string)
    ensures 1 <= |s|
    ensures n >= 10 ==> s[0] != '0'
    decreases n
  {
    if n < 10 then [DigitChar(n)] else Digits(n / 10) + [DigitChar(n % 10)]
  }

  /** The value of a decimal numeral, leading zeros allowed. */
  function ValueOf(s: string): nat
    decreases |s|
  {
    if s == [] then 0 else ValueOf(s[..|s| - 1]) * 10 + DigitValue(s[|s| - 1])
  }

  /** `%04d`: the numeral padded on the left with zeros to at least four characters. */
  function ZeroPad(s: string, width: nat): (r: string)
    ensures |r| == if |s| < width then width else |s|
    ensures r[|r| - |s|..] == s
  {
    if |s| < width then seq(width - |s|, _ => '0') + s else s
  }

  const Prefix: string := "R-"

  /** The report number for the `n`-th report. */
  function ReportNumber(n: nat): (r: string)
    ensures |r| == 2 + (if |Digits(n)| < 4 then 4 else |Digits(n)|)
    ensures r[..2] == Prefix
    ensures r[|r| - |Digits(n)|..] == Digits(n)
  {
    Prefix + ZeroPad(Digits(n), 4)
  }

  /** `generateReportNumber`: the number after `count` reports of the institution. */
  function GenerateReportNumber(count: nat): (r: string)
    ensures Number(r) == count + 1
  {
    ReportNumberValue(count + 1);
    ReportNumber(count + 1)
  }

  /** The number a report number stands for. */
  function Number(r: string): nat {
    if |r| < 2 then 0 else ValueOf(r[2..])
  }

  lemma {:induction false} ValueOfDigits(n: nat)
    ensures ValueOf(Digits(n)) == n
    decreases n
  {
    if n >= 10 {
      var s := Digits(n);
      assert s[..|s| - 1] == Digits(n / 10);
      ValueOfDigits(n / 10);
    }
  }

  lemma {:induction false} ValueOfZeros(k: nat)
    ensures ValueOf(seq(k, _ => '0')) == 0
  {
    if k > 0 {
      assert seq(k, _ => '0')[..k - 1] == seq(k - 1, _ => '0');
      ValueOfZeros(k - 1);
    }
  }

  /** Leading zeros do not change a numeral's value. */
  lemma {:induction false} ValueOfLeadingZeros(k: nat, s: string)
    ensures ValueOf(seq(k, _ => '0') + s) == ValueOf(s)
    decreases |s|
  {
    var z := seq(k, _ => '0');
    if s == [] {
      assert z + s == z;
      ValueOfZeros(k);
    } else {
      assert (z + s)[..|z + s| - 1] == z + s[..|s| - 1];
      ValueOfLeadingZeros(k, s[..|s| - 1]);
    }
  }

  /** The padded numeral reads back as the number it was made from. */
  lemma ReportNumberValue(n: nat)
    ensures Number(ReportNumber(n)) == n
  {
    var d := Digits(n);
    var r := ReportNumber(n);
    ValueOfDigits(n);
    if |d| < 4 {
      assert r[2..] == seq(4 - |d|, _ => '0') + d;
      ValueOfLeadingZeros(4 - |d|, d);
    } else {
      assert r[2..] == d;
    }
  }

  /** Different positions get different report numbers. */
  lemma ReportNumberInjective(m: nat, n: nat)
    requires m != n
    ensures ReportNumber(m) != ReportNumber(n)
  {
    ReportNumberValue(m);
    ReportNumberValue(n);
  }

  /** The first report of an institution is `R-0001`. */
  lemma FirstNumber()
    ensures GenerateReportNumber(0) == "R-0001"
  {
    assert Digits(1) == "1";
    assert seq(3, _ => '0') == "000";
  }

  // ---------------------------------------------------------------------
  // The reports table and `store`

  const StatusFinalized: string := "finalized"
  const AcademicYear: string := "2024-2025"
  const FallbackInstitution: InstitutionId := 1
  const UnknownClass: string := "Unknown"

  datatype Report = Report(
    institutionId: InstitutionId,
    teacherId: UserId,
    studentId: string,
    reportNumber: string,
    academicYear: string,
    reportDate: int,
    incidentDescription: string,
    sanctions: Option<seq<string>>,
    otherSanction: Option<string>,
    status: string,
    className: string,      // meta.class_name
    studentName: string)    // meta.student_name

  /** The student the report is about, and the class the lookup finds, if any. */
  datatype StudentInfo = StudentInfo(id: string, firstName: string, lastName: string, classInfo: Option<ClassInfo>)
  datatype ClassInfo = ClassInfo(institutionId: InstitutionId, name: string)

  /** The validated request body. */
  datatype ReportInput = ReportInput(
    incidentDescription: string,
    sanctions: Option<seq<string>>,
    reportDate: int,
    otherSanction: Option<string>)

  /**
   * The request body as sent, a missing key being `None`; `sanctions` also
   * tells an explicit null (`Some(None)`) from a missing key. Strings are
   * taken after the trimming middleware, which turns a blank one into null.
   */
  datatype ReportRequest = ReportRequest(
    studentId: Option<string>,
    incidentDescription: Option<string>,
    sanctions: Option<Option<seq<string>>>,
    reportDate: Option<int>,
    otherSanction: Option<string>)

  /**
   * The rules of `store`: an existing student, a non-empty incident
   * description and a report date; `sanctions` and `other_sanction` are
   * nullable.
   */
  predicate RequestValid(students: map<string, StudentInfo>, req: ReportRequest) {
    req.studentId.Some? && req.studentId.value in students
    && req.incidentDescription.Some? && |req.incidentDescription.value| >= 1
    && req.reportDate.Some?
  }

  /**
   * A request `store` saves: valid, and sending the `sanctions` key, which
   * the controller reads from the validated data without a default.
   */
  predicate Accepted(students: map<string, StudentInfo>, req: ReportRequest) {
    RequestValid(students, req) && req.sanctions.Some?
  }

  /** The validated data of an accepted request. */
  function Validated(students: map<string, StudentInfo>, req: ReportRequest): (i: ReportInput)
    requires Accepted(students, req)
    ensures Some(i.incidentDescription) == req.incidentDescription && Some(i.reportDate) == req.reportDate
    ensures Some(i.sanctions) == req.sanctions && i.otherSanction == req.otherSanction
  {
    ReportInput(req.incidentDescription.value, req.sanctions.value, req.reportDate.value, req.otherSanction)
  }

  /** The student an accepted request names. */
  function StudentOf(students: map<string, StudentInfo>, req: ReportRequest): StudentInfo
    requires RequestValid(students, req)
  {
    students[req.studentId.value]
  }

  /** The institution a report goes to: the class's, or institution 1. */
  function ReportInstitution(s: StudentInfo): (i: InstitutionId)
    ensures s.classInfo.Some? ==> i == s.classInfo.value.institutionId
    ensures s.classInfo.None? ==> i == FallbackInstitution
  {
    match s.classInfo
    case Some(c) => c.institutionId
    case None => FallbackInstitution
  }

  /** The reports of an institution. */
  function OfInstitution(reports: map<ReportId, Report>, inst: InstitutionId): (r: set<ReportId>)
    ensures forall id :: id in r <==> id in reports && reports[id].institutionId == inst
  {
    set id | id in reports && reports[id].institutionId == inst
  }

  /** The row `store` inserts. */
  function NewReport(reports: map<ReportId, Report>, teacherId: UserId, s: StudentInfo, i: ReportInput): (r: Report)
    ensures r.institutionId == ReportInstitution(s)
    ensures r.reportNumber == GenerateReportNumber(|OfInstitution(reports, r.institutionId)|)
    ensures Number(r.reportNumber) == |OfInstitution(reports, r.institutionId)| + 1
    ensures r.status == StatusFinalized && r.academicYear == AcademicYear
    ensures r.studentName == s.firstName + " " + s.lastName
    ensures s.classInfo.Some? ==> r.className == s.classInfo.value.name
    ensures s.classInfo.None? ==> r.className == UnknownClass
    ensures r.teacherId == teacherId && r.studentId == s.id
    ensures r.otherSanction == i.otherSanction && r.sanctions == i.sanctions
    ensures r.incidentDescription == i.incidentDescription && r.reportDate == i.reportDate
  {
    var inst := ReportInstitution(s);
    Report(inst, teacherId, s.id, GenerateReportNumber(|OfInstitution(reports, inst)|), AcademicYear, i.reportDate,
           i.incidentDescription, i.sanctions, i.otherSanction, StatusFinalized,
           match s.classInfo case Some(c) => c.name case None => UnknownClass,
           s.firstName + " " + s.lastName)
  }

  class ReportTable {
    var reports: map<ReportId, Report>
    var nextId: ReportId

    predicate Valid()
      reads this
    {
      forall id :: id in reports ==> id < nextId
    }

    constructor ()
      ensures Valid() && reports == map[] && nextId == 0
    {
      reports := map[];
      nextId := 0;
    }

    /**
     * `store`: a request breaking the rules is refused (422); a valid one
     * without the `sanctions` key fails on reading it (500); otherwise a new
     * report numbered after the institution's current count is saved (201).
     * The student lookup after validation cannot miss, since the rules
     * demand an existing student. `students` is the students table.
     */
    method Store(teacherId: UserId, students: map<string, StudentInfo>, req: ReportRequest)
      returns (status: Status, id: Option<ReportId>)
      requires Valid()
      modifies this
      ensures Valid()
      ensures status == Unprocessable <==> !RequestValid(students, req)
      ensures status == ServerError <==> RequestValid(students, req) && req.sanctions.None?
      ensures status == Created <==> Accepted(students, req)
      ensures status != Created ==> id.None? && reports == old(reports) && nextId == old(nextId)
      ensures status == Created ==> id.Some? && id.value !in old(reports)
      ensures status == Created ==>
                reports == old(reports)[id.value := NewReport(old(reports), teacherId, StudentOf(students, req), Validated(students, req))]
    {
      if !RequestValid(students, req) {
        return Unprocessable, None;
      }
      if req.sanctions.None? {
        return ServerError, None;
      }
      var inserted := Insert(NewReport(reports, teacherId, StudentOf(students, req), Validated(students, req)));
      return Created, Some(inserted);
    }

    /** The insert itself: the row under a fresh id. */
    method Insert(r: Report) returns (id: ReportId)
      requires Valid()
      modifies this
      ensures Valid()
      ensures id !in old(reports) && reports == old(reports)[id := r]
    {
      id := nextId;
      reports := reports[id := r];
      nextId := nextId + 1;
    }

    /** `destroy`: 404 when no report is bound to `id`, otherwise the row is removed with 204. */
    method Destroy(id: ReportId) returns (status: Status)
      requires Valid()
      modifies this
      ensures Valid() && nextId == old(nextId)
      ensures status == (if id in old(reports) then NoContent else NotFound)
      ensures reports == old(reports) - {id}
    {
      status := if id in reports then NoContent else NotFound;
      reports := reports - {id};
    }
  }

  /** A new report adds one to its institution's count and leaves the others' counts alone. */
  lemma {:induction false} CountAfterInsert(reports: map<ReportId, Report>, id: ReportId, r: Report, inst: InstitutionId)
    requires id !in reports
    ensures |OfInstitution(reports[id := r], inst)| ==
            |OfInstitution(reports, inst)| + (if r.institutionId == inst then 1 else 0)
  {
    if r.institutionId == inst {
      assert OfInstitution(reports[id := r], inst) == OfInstitution(reports, inst) + {id};
    } else {
      assert OfInstitution(reports[id := r], inst) == OfInstitution(reports, inst);
    }
  }

  /** The institution an accepted request's report goes to. */
  function InstitutionOf(students: map<string, StudentInfo>, req: ReportRequest): InstitutionId
    requires RequestValid(students, req)
  {
    ReportInstitution(StudentOf(students, req))
  }

  /** A table holding one report of an institution counts one for it. */
  lemma OnlyReport(reports: map<ReportId, Report>, id: ReportId, inst: InstitutionId)
    requires reports.Keys == {id} && reports[id].institutionId == inst
    ensures OfInstitution(reports, inst) == {id}
  {
  }

  /** Without deletions in between, two reports of one institution get consecutive numbers. */
  method ConsecutiveReports(table: ReportTable, teacherId: UserId, students: map<string, StudentInfo>,
                            req1: ReportRequest, req2: ReportRequest) returns (first: ReportId, second: ReportId)
    requires table.Valid() && Accepted(students, req1) && Accepted(students, req2)
    requires InstitutionOf(students, req1) == InstitutionOf(students, req2)
    modifies table
    ensures table.Valid()
    ensures first in table.reports && second in table.reports
    ensures Number(table.reports[second].reportNumber) == Number(table.reports[first].reportNumber) + 1
  {
    var status1, id1 := table.Store(teacherId, students, req1);
    first := id1.value;
    ghost var between := table.reports;
    var status2, id2 := table.Store(teacherId, students, req2);
    second := id2.value;
    CountAfterInsert(old(table.reports), first, between[first], InstitutionOf(students, req2));
  }

  /** `store` into an empty table gives the first number, `R-0001`. */
  method StoreIntoEmpty(table: ReportTable, teacherId: UserId, students: map<string, StudentInfo>, req: ReportRequest)
    returns (id: ReportId, number: string)
    requires table.Valid() && table.reports == map[] && Accepted(students, req)
    modifies table
    ensures table.Valid() && table.reports.Keys == {id}
    ensures table.reports[id].institutionId == InstitutionOf(students, req)
    ensures table.reports[id].reportNumber == number && number == "R-0001"
  {
    var status, inserted := table.Store(teacherId, students, req);
    id := inserted.value;
    number := table.reports[id].reportNumber;
    assert OfInstitution(map[], InstitutionOf(students, req)) == {};
    FirstNumber();
  }

  /** `store` beside one report of the same institution gives the second number. */
  method StoreBesideOne(table: ReportTable, other: ReportId, teacherId: UserId, students: map<string, StudentInfo>,
                        req: ReportRequest)
    returns (id: ReportId, number: string)
    requires table.Valid() && table.reports.Keys == {other} && Accepted(students, req)
    requires table.reports[other].institutionId == InstitutionOf(students, req)
    modifies table
    ensures table.Valid() && table.reports.Keys == {other, id} && id != other
    ensures table.reports[other] == old(table.reports[other])
    ensures table.reports[id].institutionId == InstitutionOf(students, req)
    ensures table.reports[id].reportNumber == number && number == GenerateReportNumber(1)
  {
    OnlyReport(table.reports, other, InstitutionOf(students, req));
    var status, inserted := table.Store(teacherId, students, req);
    id := inserted.value;
    number := table.reports[id].reportNumber;
  }

  /**
   * As written, a deletion makes the count fall behind the numbers
   * already given out, so the next report repeats the latest number: on an
   * empty table, storing two reports of one institution gives `R-0001` and
   * `R-0002`, and after deleting the first the next one is `R-0002` again.
   */
  method DeletionRepeatsNumber(teacherId: UserId, students: map<string, StudentInfo>,
                               req1: ReportRequest, req2: ReportRequest, req3: ReportRequest)
    returns (first: string, second: string, third: string)
    requires Accepted(students, req1) && Accepted(students, req2) && Accepted(students, req3)
    requires InstitutionOf(students, req1) == InstitutionOf(students, req2) == InstitutionOf(students, req3)
    ensures first == "R-0001" && Number(second) == 2
    ensures third == second
  {
    var table := new ReportTable();
    var id1, id2, id3;
    id1, first := StoreIntoEmpty(table, teacherId, students, req1);
    id2, second := StoreBesideOne(table, id1, teacherId, students, req2);
    var gone := table.Destroy(id1);
    assert table.reports.Keys == {id2};
    id3, third := StoreBesideOne(table, id2, teacherId, students, req3);
  }

  // ---------------------------------------------------------------------
  // A numbering that survives deletions

  /** The largest number given to a report among `ids`. */
  ghost function MaxNumber(reports: map<ReportId, Report>, ids: set<ReportId>): (m: nat)
    requires ids <= reports.Keys
    ensures forall id :: id in ids ==> Number(reports[id].reportNumber) <= m
    decreases ids
  {
    if ids == {} then 0
    else
      var id :| id in ids;
      var rest := MaxNumber(reports, ids - {id});
      var n := Number(reports[id].reportNumber);
      if n > rest then n else rest
  }

  /** One past the institution's highest number. */
  ghost function FreshReportNumber(reports: map<ReportId, Report>, inst: InstitutionId): (r: string)
    ensures Number(r) == MaxNumber(reports, OfInstitution(reports, inst)) + 1
  {
    GenerateReportNumber(MaxNumber(reports, OfInstitution(reports, inst)))
  }

  /** The fresh number is held by no report of the institution, whatever was deleted before. */
  lemma FreshReportNumberUnused(reports: map<ReportId, Report>, inst: InstitutionId)
    ensures forall id :: id in reports && reports[id].institutionId == inst ==>
              reports[id].reportNumber != FreshReportNumber(reports, inst)
  {
    var ids := OfInstitution(reports, inst);
    forall id | id in reports && reports[id].institutionId == inst
      ensures reports[id].reportNumber != FreshReportNumber(reports, inst)
    {
      assert id in ids;
    }
  }
}
