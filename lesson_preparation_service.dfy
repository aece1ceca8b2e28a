/**
 * The lesson preparation service. A preparation is stored as the attribute
 * array the service builds, restricted to the model's fillable columns;
 * the service forces the owner on create, strips it on update, and cleans
 * the four list fields of blank items before every write.
 */
module LessonPreparationService {
  import opened Wrappers
  import opened Users
  import opened Php

  /** A request or column value, as far as the service inspects it. */
  datatype Value =
    | VNull
    | VBool(b: bool)
    | VInt(i: int)
    | VStr(s: string)
    | VList(items: seq<string>)

  /** An attribute array. */
  type Data = map<string, Value>

  // ------------------------------------------------------------ PHP helpers

  /** The characters `trim` strips: space, tab, newline, carriage return, NUL and vertical tab. */
  predicate IsTrimmed(c: char) {
    c == ' ' || c == '\t' || c == '\n' || c == '\r' || c as int == 0 || c as int == 11
  }

  /** `ltrim`. */
  function TrimLeft(s: string): (r: string)
    ensures |r| <= |s| && r == s[|s| - |r|..]
    ensures r == [] || !IsTrimmed(r[0])
    ensures forall i :: 0 <= i < |s| - |r| ==> IsTrimmed(s[i])
  {
    if s == [] || !IsTrimmed(s[0]) then s else TrimLeft(s[1..])
  }

  /** `rtrim`. */
  function TrimRight(s: string): (r: string)
    ensures |r| <= |s| && r == s[..|r|]
    ensures r == [] || !IsTrimmed(r[|r| - 1])
    ensures forall i :: |r| <= i < |s| ==> IsTrimmed(s[i])
  {
    if s == [] || !IsTrimmed(s[|s| - 1]) then s else TrimRight(s[..|s| - 1])
  }

  /** How many characters `ltrim` removes from `s`. */
  function Leading(s: string): (n: nat)
    ensures n == |s| - |TrimLeft(s)|
  {
    |s| - |TrimLeft(s)|
  }

  /** `trim`: the middle part of `s` that neither starts nor ends with a stripped character. */
  function Trim(s: string): (r: string)
    ensures Leading(s) + |r| <= |s| && r == s[Leading(s)..Leading(s) + |r|]
    ensures r == [] || (!IsTrimmed(r[0]) && !IsTrimmed(r[|r| - 1]))
    ensures forall i :: 0 <= i < Leading(s) || Leading(s) + |r| <= i < |s| ==> IsTrimmed(s[i])
  {
    var l := TrimLeft(s);
    var r := TrimRight(l);
    var n := Leading(s);
    assert l == s[n..];
    assert r == l[..|r|];
    forall i | n + |r| <= i < |s| ensures IsTrimmed(s[i]) {
      assert s[i] == l[i - n];
    }
    r
  }

  /** PHP's `empty` on a value: null, false, 0, `""`, `"0"` and the empty array. */
  predicate EmptyValue(v: Value) {
    match v
    case VNull => true
    case VBool(b) => !b
    case VInt(i) => i == 0
    case VStr(s) => EmptyString(s)
    case VList(items) => items == []
  }

  // ------------------------------------------------------------ formatArrayFields

  /** An item the blank filter keeps: `! empty(trim($item))`. */
  predicate Kept(x: string) {
    !EmptyString(Trim(x))
  }

  /** `array_values(array_filter($items, ...))`: the kept items, in order, indexed from 0. */
  function DropBlank(xs: seq<string>): (r: seq<string>)
    ensures |r| <= |xs|
    ensures forall x :: x in r <==> x in xs && Kept(x)
    decreases |xs|
  {
    if xs == [] then []
    else
      var init := DropBlank(xs[..|xs| - 1]);
      var last := xs[|xs| - 1];
      assert xs == xs[..|xs| - 1] + [last];
      if Kept(last) then init + [last] else init
  }

  /** The filter distributes over concatenation, so it keeps the relative order of the kept items. */
  lemma {:induction false} DropBlankAppend(a: seq<string>, b: seq<string>)
    ensures DropBlank(a + b) == DropBlank(a) + DropBlank(b)
    decreases |b|
  {
    if b == [] {
      assert a + b == a;
    } else {
      var b' := b[..|b| - 1];
      assert (a + b)[..|a + b| - 1] == a + b';
      DropBlankAppend(a, b');
    }
  }

  /** Filtering twice keeps what filtering once kept. */
  lemma {:induction false} DropBlankIdempotent(xs: seq<string>)
    ensures DropBlank(DropBlank(xs)) == DropBlank(xs)
    decreases |xs|
  {
    if xs != [] {
      var init := xs[..|xs| - 1];
      var last := xs[|xs| - 1];
      DropBlankIdempotent(init);
      if Kept(last) {
        DropBlankAppend(DropBlank(init), [last]);
        assert DropBlank([last]) == [last] by {
          assert [last][..0] == [];
        }
      }
    }
  }

  /** `ltrim` removes a stripped prefix in front of a part that does not start with a stripped character. */
  lemma {:induction false} TrimLeftPadded(a: string, t: string)
    requires forall i :: 0 <= i < |a| ==> IsTrimmed(a[i])
    requires t == [] || !IsTrimmed(t[0])
    ensures TrimLeft(a + t) == t
    decreases |a|
  {
    if a == [] {
      assert a + t == t;
    } else {
      assert (a + t)[1..] == a[1..] + t;
      TrimLeftPadded(a[1..], t);
    }
  }

  /** `rtrim` removes a stripped suffix behind a part that does not end with a stripped character. */
  lemma {:induction false} TrimRightPadded(t: string, b: string)
    requires forall i :: 0 <= i < |b| ==> IsTrimmed(b[i])
    requires t == [] || !IsTrimmed(t[|t| - 1])
    ensures TrimRight(t + b) == t
    decreases |b|
  {
    if b == [] {
      assert t + b == t;
    } else {
      assert (t + b)[..|t + b| - 1] == t + b[..|b| - 1];
      TrimRightPadded(t, b[..|b| - 1]);
    }
  }

  /** `trim` of an item padded with stripped characters is the item. */
  lemma TrimPadded(a: string, m: string, b: string)
    requires forall i :: 0 <= i < |a| ==> IsTrimmed(a[i])
    requires forall i :: 0 <= i < |b| ==> IsTrimmed(b[i])
    requires m == [] || (!IsTrimmed(m[0]) && !IsTrimmed(m[|m| - 1]))
    ensures Trim(a + m + b) == m
  {
    if m == [] {
      assert a + m + b == a + b;
      TrimLeftPadded(a + b, []);
      assert a + b + [] == a + b;
    } else {
      assert a + m + b == a + (m + b);
      TrimLeftPadded(a, m + b);
      TrimRightPadded(m, b);
    }
  }

  /** Whitespace-only items are dropped, and so is `"0"` however it is padded. */
  lemma BlankAndZeroDropped(a: string, b: string)
    requires forall i :: 0 <= i < |a| ==> IsTrimmed(a[i])
    requires forall i :: 0 <= i < |b| ==> IsTrimmed(b[i])
    ensures !Kept(a + b)
    ensures !Kept(a + "0" + b)
  {
    TrimPadded(a, "", b);
    assert a + "" + b == a + b;
    TrimPadded(a, "0", b);
  }

  /** The list columns the service cleans. */
  const ArrayFields: seq<string> := ["learning_objectives", "teaching_methods", "resources_needed", "assessment_methods"]

  /** One field cleaned, when it is present and an array. */
  function FormatField(data: Data, field: string): (r: Data)
    ensures r.Keys == data.Keys
    ensures forall k :: k in r && k != field ==> r[k] == data[k]
    ensures field in data && data[field].VList? ==> r[field] == VList(DropBlank(data[field].items))
    ensures field in data && !data[field].VList? ==> r[field] == data[field]
  {
    if field in data && data[field].VList? then data[field := VList(DropBlank(data[field].items))] else data
  }

  /** What `formatArrayFields` returns. */
  function Formatted(data: Data): (r: Data)
    ensures r.Keys == data.Keys
    ensures forall k :: k in r && (k !in ArrayFields || !data[k].VList?) ==> r[k] == data[k]
    ensures forall k :: k in r && k in ArrayFields && data[k].VList? ==> r[k] == VList(DropBlank(data[k].items))
  {
    map k | k in data :: if k in ArrayFields && data[k].VList? then VList(DropBlank(data[k].items)) else data[k]
  }

  /** Cleaning twice is cleaning once. */
  lemma FormattedIdempotent(data: Data)
    ensures Formatted(Formatted(data)) == Formatted(data)
  {
    forall k | k in data && k in ArrayFields && data[k].VList? {
      DropBlankIdempotent(data[k].items);
    }
  }

  /** The fields of `fields` cleaned one after the other. */
  function FormatFields(data: Data, fields: seq<string>): (r: Data)
    ensures r.Keys == data.Keys
    decreases |fields|
  {
    if fields == [] then data else FormatField(FormatFields(data, fields[..|fields| - 1]), fields[|fields| - 1])
  }

  /** After cleaning the fields of `fields`, a key holds its cleaned list when it is one of them, else its value. */
  lemma {:induction false} FormatFieldsAt(data: Data, fields: seq<string>, k: string)
    requires k in data
    ensures FormatFields(data, fields)[k]
            == if k in fields && data[k].VList? then VList(DropBlank(data[k].items)) else data[k]
    decreases |fields|
  {
    if fields != [] {
      var init := fields[..|fields| - 1];
      var f := fields[|fields| - 1];
      FormatFieldsAt(data, init, k);
      assert k in fields <==> k in init || k == f by {
        assert fields == init + [f];
      }
      if k == f && data[k].VList? {
        DropBlankIdempotent(data[k].items);
      }
    }
  }

  /** Cleaning the four fields one after the other is `Formatted`. */
  lemma FormatFieldsIsFormatted(data: Data)
    ensures FormatFields(data, ArrayFields) == Formatted(data)
  {
    forall k | k in data ensures FormatFields(data, ArrayFields)[k] == Formatted(data)[k] {
      FormatFieldsAt(data, ArrayFields, k);
    }
  }

  /** `formatArrayFields`: the loop over the four list fields. */
  method FormatArrayFields(data: Data) returns (out: Data)
    ensures out == Formatted(data)
  {
    out := data;
    var n := 0;
    while n < |ArrayFields|
      invariant 0 <= n <= |ArrayFields|
      invariant out == FormatFields(data, ArrayFields[..n])
    {
      assert ArrayFields[..n + 1][..n] == ArrayFields[..n];
      out := FormatField(out, ArrayFields[n]);
      n := n + 1;
    }
    assert ArrayFields[..n] == ArrayFields;
    FormatFieldsIsFormatted(data);
  }

  // ------------------------------------------------------------ the store

  /** The columns `create` and `update` accept; any other key is silently dropped. */
  const Fillable: set<string> := {
    "teacher_id", "lesson_number", "subject", "level", "date", "duration_minutes", "learning_objectives",
    "description", "teaching_methods", "resources_needed", "assessment_methods", "assessment_criteria", "notes",
    "status", "domain", "learning_unit", "knowledge_resource", "lesson_elements", "evaluation_type",
    "evaluation_content", "targeted_knowledge", "used_materials", "references", "phases", "activities"}

  /** Mass assignment: the fillable part of `data`. */
  function FillableOnly(data: Data): (r: Data)
    ensures r.Keys == data.Keys * Fillable
    ensures forall k :: k in r ==> r[k] == data[k]
  {
    map k | k in data && k in Fillable :: data[k]
  }

  /** The attributes `createPreparation` hands to the repository. */
  function PreparedForCreate(users: map<UserId, User>, teacherId: UserId, data: Data): (r: Data)
    ensures r.Keys == data.Keys + {"teacher_id", "subject"}
    ensures r["teacher_id"] == VInt(teacherId)
    ensures "subject" in data && !EmptyValue(data["subject"]) ==> r["subject"] == Formatted(data)["subject"]
    ensures !("subject" in data && !EmptyValue(data["subject"])) ==> r["subject"] == VStr(ResolveSubject(users, teacherId))
  {
    var owned := data["teacher_id" := VInt(teacherId)];
    var withSubject :=
      if "subject" !in owned || EmptyValue(owned["subject"]) then owned["subject" := VStr(ResolveSubject(users, teacherId))]
      else owned;
    Formatted(withSubject)
  }

  /** The attributes `updatePreparation` hands to the repository: no owner, lists cleaned. */
  function PreparedForUpdate(data: Data): (r: Data)
    ensures "teacher_id" !in r
    ensures r.Keys == data.Keys - {"teacher_id"}
  {
    Formatted(map k | k in data && k != "teacher_id" :: data[k])
  }

  /** The preparations table: each row an attribute array. */
  class PreparationStore {
    var rows: map<nat, Data>
    var nextId: nat

    /** Row ids lie below the next id. */
    predicate Valid()
      reads this
    {
      forall id :: id in rows ==> id < nextId
    }

    constructor ()
      ensures Valid() && rows == map[] && nextId == 0
    {
      rows := map[];
      nextId := 0;
    }

    /** `createPreparation`: the caller becomes the owner, the subject is filled when missing, lists are cleaned. */
    method CreatePreparation(users: map<UserId, User>, teacherId: UserId, data: Data) returns (id: nat)
      requires Valid()
      modifies this
      ensures Valid()
      ensures id !in old(rows)
      ensures rows == old(rows)[id := FillableOnly(PreparedForCreate(users, teacherId, data))]
      ensures rows[id]["teacher_id"] == VInt(teacherId)
    {
      var prepared := data["teacher_id" := VInt(teacherId)];
      if "subject" !in prepared || EmptyValue(prepared["subject"]) {
        prepared := prepared["subject" := VStr(ResolveSubject(users, teacherId))];
      }
      prepared := FormatArrayFields(prepared);
      id := nextId;
      rows := rows[id := FillableOnly(prepared)];
      nextId := nextId + 1;
    }

    /**
     * `updatePreparation`: the sent fillable attributes replace the stored
     * ones, except the owner; an unknown id raises an error and changes
     * nothing.
     */
    method UpdatePreparation(id: nat, data: Data) returns (found: bool)
      requires Valid()
      modifies this
      ensures Valid()
      ensures found <==> id in old(rows)
      ensures found ==> rows == old(rows)[id := old(rows)[id] + FillableOnly(PreparedForUpdate(data))]
      ensures !found ==> rows == old(rows)
      ensures found && "teacher_id" in old(rows)[id] ==> rows[id]["teacher_id"] == old(rows)[id]["teacher_id"]
      ensures nextId == old(nextId)
    {
      var cleaned := map k | k in data && k != "teacher_id" :: data[k];
      cleaned := FormatArrayFields(cleaned);
      if id !in rows {
        return false;
      }
      rows := rows[id := rows[id] + FillableOnly(cleaned)];
      found := true;
    }
  }

  // ------------------------------------------------------------ getStatistics

  /** A row of the teacher's (`byTeacher`). */
  predicate OwnedBy(row: Data, teacherId: UserId) {
    "teacher_id" in row && row["teacher_id"] == VInt(teacherId)
  }

  /** A row of the teacher's with the given status (`byTeacher()->byStatus()`). */
  predicate HasStatus(row: Data, teacherId: UserId, status: string) {
    OwnedBy(row, teacherId) && "status" in row && row["status"] == VStr(status)
  }

  datatype PreparationStats = PreparationStats(total: nat, draft: nat, ready: nat, delivered: nat)

  /** The ids of the teacher's rows with the given status. */
  function WithStatus(rows: map<nat, Data>, teacherId: UserId, status: string): set<nat> {
    set id | id in rows && HasStatus(rows[id], teacherId, status)
  }

  /** The ids of the teacher's rows. */
  function Owned(rows: map<nat, Data>, teacherId: UserId): set<nat> {
    set id | id in rows && OwnedBy(rows[id], teacherId)
  }

  /** `getStatistics`: the size of the teacher's listing and of the three status listings. */
  function Statistics(rows: map<nat, Data>, teacherId: UserId): (r: PreparationStats)
    ensures r.total == |Owned(rows, teacherId)|
    ensures r.draft == |WithStatus(rows, teacherId, "draft")|
    ensures r.ready == |WithStatus(rows, teacherId, "ready")|
    ensures r.delivered == |WithStatus(rows, teacherId, "delivered")|
    ensures r.draft + r.ready + r.delivered <= r.total
  {
    var all := Owned(rows, teacherId);
    var d := WithStatus(rows, teacherId, "draft");
    var re := WithStatus(rows, teacherId, "ready");
    var de := WithStatus(rows, teacherId, "delivered");
    DisjointWithin(d, re, de, all);
    PreparationStats(|all|, |d|, |re|, |de|)
  }

  /** Three disjoint subsets of a set are together no larger than it. */
  lemma DisjointWithin(a: set<nat>, b: set<nat>, c: set<nat>, all: set<nat>)
    requires a <= all && b <= all && c <= all
    requires a !! b && a !! c && b !! c
    ensures |a| + |b| + |c| <= |all|
  {
    assert |a + b| == |a| + |b|;
    assert |a + b + c| == |a| + |b| + |c|;
    assert all == (a + b + c) + (all - (a + b + c));
  }
}
