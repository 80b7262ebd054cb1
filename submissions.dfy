/**
 * The submission records of server.js and the pure logic over them: intake
 * validation and the record built from an accepted payload, the trashed
 * test, the timestamp the listing sorts by, the listing itself, lookup by id,
 * and the field writes of trash and restore.
 */
module Submissions {
  import opened Text
  import opened Json
  import opened Sorting

  /** A stored submission: the own properties of one object of the JSON array. */
  type Submission = map<string, Value>

  /** `submission[key]` */
  function Field(sub: Submission, key: string): Value {
    Get(Obj(sub), key)
  }

  // ---------------------------------------------------------------- intake

  const InvalidPayload := "Invalid submission payload"
  const MissingFields := "Missing required fields"

  datatype Intake = Accepted(fields: map<string, Value>) | Rejected(message: string)

  /** The checks of `POST /submit` in the order the handler makes them. */
  function CheckPayload(payload: Value): Intake {
    if !payload.Obj? then Rejected(InvalidPayload)
    else if
      || !HasText(Get(payload, "parentName"))
      || !HasText(Get(payload, "parentEmail"))
      || !HasText(Get(payload, "parentPhone"))
      || !HasText(Get(payload, "studentName"))
      || !HasText(Get(payload, "studentDob"))
      || !Get(payload, "subjects").Arr?
      || |Get(payload, "subjects").items| == 0
    then Rejected(MissingFields)
    else Accepted(payload.fields)
  }

  /** Some character of the value is not white space. */
  ghost predicate Visible(v: Value) {
    v.Str? && exists i :: 0 <= i < |v.s| && !IsWhite(v.s[i])
  }

  /** A payload is accepted exactly when it is a plain object whose five
      required fields are strings with a visible character and whose subjects
      form a non-empty array; an accepted payload is taken as it is. A
      non-object is refused as invalid, a deficient object as incomplete. */
  lemma CheckPayloadIff(payload: Value)
    ensures CheckPayload(payload).Accepted? <==>
      && payload.Obj?
      && Visible(Get(payload, "parentName")) && Visible(Get(payload, "parentEmail"))
      && Visible(Get(payload, "parentPhone")) && Visible(Get(payload, "studentName"))
      && Visible(Get(payload, "studentDob"))
      && Get(payload, "subjects").Arr? && Get(payload, "subjects").items != []
    ensures CheckPayload(payload).Accepted? ==> CheckPayload(payload).fields == payload.fields
    ensures !payload.Obj? ==> CheckPayload(payload) == Rejected(InvalidPayload)
    ensures payload.Obj? && CheckPayload(payload).Rejected? ==> CheckPayload(payload) == Rejected(MissingFields)
  {
    HasTextIff(Get(payload, "parentName"));
    HasTextIff(Get(payload, "parentEmail"));
    HasTextIff(Get(payload, "parentPhone"));
    HasTextIff(Get(payload, "studentName"));
    HasTextIff(Get(payload, "studentDob"));
  }

  /** `{ id: uuidv4(), ...payload, submittedAt, isTrashed: false, trashedAt: null }`:
      the payload's own `id`, when it has one, overrides the generated one;
      its `submittedAt`, `isTrashed` and `trashedAt` never survive. */
  function NewRecord(fields: map<string, Value>, uuid: string, nowIso: string): (rec: Submission)
    ensures rec.Keys == fields.Keys + {"id", "submittedAt", "isTrashed", "trashedAt"}
    ensures Field(rec, "id") == (if "id" in fields then fields["id"] else Str(uuid))
    ensures Field(rec, "submittedAt") == Str(nowIso)
    ensures Field(rec, "isTrashed") == Bool(false) && Field(rec, "trashedAt") == Null
    ensures forall k :: k in fields && k !in {"id", "submittedAt", "isTrashed", "trashedAt"} ==> rec[k] == fields[k]
  {
    map["id" := Str(uuid)] + fields + map["submittedAt" := Str(nowIso), "isTrashed" := Bool(false), "trashedAt" := Null]
  }

  /** The keys of a record that only the server may set. */
  const ServerOwned: set<string> := {"id", "isArchived", "archivedAt"}

  /** The record `POST /submit` is meant to store: as `NewRecord`, but the
      payload's own `id`, `isArchived` and `archivedAt` are dropped, so the
      record always carries the generated id and starts live. */
  function FreshRecord(fields: map<string, Value>, uuid: string, nowIso: string): (rec: Submission)
    ensures HasId(rec, uuid)
    ensures !IsTrashed(rec) && Field(rec, "trashedAt") == Null
    ensures Field(rec, "submittedAt") == Str(nowIso)
    ensures rec.Keys == (fields.Keys - ServerOwned) + {"id", "submittedAt", "isTrashed", "trashedAt"}
    ensures forall k :: k in fields && k !in ServerOwned + {"submittedAt", "isTrashed", "trashedAt"} ==> rec[k] == fields[k]
  {
    NewRecord(fields - ServerOwned, uuid, nowIso)
  }

  /** A payload that sets none of the server-owned keys gets the same record
      either way. */
  lemma FreshRecordAsWritten(fields: map<string, Value>, uuid: string, nowIso: string)
    requires "id" !in fields && "isArchived" !in fields && "archivedAt" !in fields
    ensures FreshRecord(fields, uuid, nowIso) == NewRecord(fields, uuid, nowIso)
  {
    assert fields - ServerOwned == fields;
  }

  /** As written, a payload may bring the id of a stored record: the store
      then holds that id twice, and after the permanent delete of the first
      the id is still found. */
  lemma PayloadIdDuplicates()
    ensures var subs := [NewRecord(map[], "x", "t"), NewRecord(map["id" := Str("x")], "u", "t")];
      && !UniqueIds(subs)
      && FindById(subs, "x") == 0
      && FindById(RemoveAt(subs, 0), "x") == 0
  {
    var subs := [NewRecord(map[], "x", "t"), NewRecord(map["id" := Str("x")], "u", "t")];
    assert HasId(subs[0], "x") && HasId(subs[1], "x");
    assert RemoveAt(subs, 0) == [subs[1]];
  }

  // --------------------------------------------------------------- listing

  /** `isTrashed(submission)`: either flag is the boolean `true`. */
  predicate IsTrashed(sub: Submission) {
    Field(sub, "isTrashed") == Bool(true) || Field(sub, "isArchived") == Bool(true)
  }

  /** `getSubmissionTimestamp`: `submittedAt || createdAt`, read with the
      date parser `parse` (None standing for NaN); a missing, falsy or
      unparsable value counts as 0. */
  function Timestamp(sub: Submission, parse: Value -> Option<int>): int {
    var raw := Or(Field(sub, "submittedAt"), Field(sub, "createdAt"));
    if !Truthy(raw) then 0
    else match parse(raw)
      case None => 0
      case Some(t) => t
  }

  /** The filter callback of `GET /admin/submissions`, given `trashed ?? archived`. */
  predicate Selected(filter: Value, sub: Submission) {
    if StrictEquals(filter, Str("true")) then IsTrashed(sub)
    else if StrictEquals(filter, Str("all")) then true
    else !IsTrashed(sub)
  }

  /** `subs.filter(...)`: the selected records in their stored order. */
  function FilterBy(subs: seq<Submission>, filter: Value): (r: seq<Submission>)
    ensures forall x :: x in r <==> x in subs && Selected(filter, x)
    ensures |r| <= |subs|
  {
    if subs == [] then []
    else
      var rest := FilterBy(subs[1..], filter);
      assert forall x :: x in subs <==> x == subs[0] || x in subs[1..];
      if Selected(filter, subs[0]) then [subs[0]] + rest else rest
  }

  /** The filter keeps every copy of a selected record and no copy of any
      other: the result is a sub-multiset of the store. */
  lemma {:induction false} FilterByCounts(subs: seq<Submission>, filter: Value, x: Submission)
    ensures multiset(FilterBy(subs, filter))[x] == if Selected(filter, x) then multiset(subs)[x] else 0
  {
    if subs != [] {
      FilterByCounts(subs[1..], filter, x);
      FilterByCountsStep(subs, filter, x);
    }
  }

  lemma FilterByCountsStep(subs: seq<Submission>, filter: Value, x: Submission)
    requires subs != []
    requires multiset(FilterBy(subs[1..], filter))[x] == if Selected(filter, x) then multiset(subs[1..])[x] else 0
    ensures multiset(FilterBy(subs, filter))[x] == if Selected(filter, x) then multiset(subs)[x] else 0
  {
    var rest := FilterBy(subs[1..], filter);
    HeadSplit(subs);
    ConsCount(subs[0], subs[1..], x);
    if Selected(filter, subs[0]) {
      assert FilterBy(subs, filter) == [subs[0]] + rest;
      ConsCount(subs[0], rest, x);
    } else {
      assert FilterBy(subs, filter) == rest;
    }
  }

  lemma HeadSplit<T>(s: seq<T>)
    requires s != []
    ensures s == [s[0]] + s[1..]
  {
  }

  lemma ConsCount<T>(h: T, tail: seq<T>, x: T)
    ensures multiset([h] + tail)[x] == multiset(tail)[x] + (if h == x then 1 else 0)
  {
  }

  /** The comparator `(a, b) => ts(b) - ts(a)` as an order: `a` may precede `b`
      when it is at least as recent. */
  function NewestFirst(parse: Value -> Option<int>): (Submission, Submission) -> bool {
    (a: Submission, b: Submission) => Timestamp(a, parse) >= Timestamp(b, parse)
  }

  /** The body of `GET /admin/submissions`. */
  function ListView(subs: seq<Submission>, filter: Value, parse: Value -> Option<int>): seq<Submission> {
    Sort(FilterBy(subs, filter), NewestFirst(parse))
  }

  /** The listing holds each selected record as often as the store does and
      nothing else, newest first. The three filters: `'true'` keeps the
      trashed records, `'all'` keeps every record, any other value the
      records that are not trashed. */
  lemma ListViewSpec(subs: seq<Submission>, filter: Value, parse: Value -> Option<int>)
    ensures multiset(ListView(subs, filter, parse)) == multiset(FilterBy(subs, filter))
    ensures forall x :: x in ListView(subs, filter, parse) <==> x in subs && Selected(filter, x)
    ensures forall i, j :: 0 <= i < j < |ListView(subs, filter, parse)| ==>
      Timestamp(ListView(subs, filter, parse)[i], parse) >= Timestamp(ListView(subs, filter, parse)[j], parse)
    ensures filter == Str("true") ==> forall x :: x in ListView(subs, filter, parse) <==> x in subs && IsTrashed(x)
    ensures filter == Str("all") ==> forall x :: x in ListView(subs, filter, parse) <==> x in subs
    ensures filter != Str("true") && filter != Str("all") ==>
      forall x :: x in ListView(subs, filter, parse) <==> x in subs && !IsTrashed(x)
  {
    var le := NewestFirst(parse);
    var r := ListView(subs, filter, parse);
    assert TotalPreorder(le);
    SortSorted(FilterBy(subs, filter), le);
    forall x ensures x in r <==> x in FilterBy(subs, filter) {
      assert x in r <==> x in multiset(r);
    }
  }

  /** The sort of the listing is stable: records with the same timestamp
      as `x` appear in the order the store holds them. */
  lemma ListViewStable(subs: seq<Submission>, filter: Value, parse: Value -> Option<int>, x: Submission)
    ensures Ties(ListView(subs, filter, parse), NewestFirst(parse), x) == Ties(FilterBy(subs, filter), NewestFirst(parse), x)
    ensures forall y :: y in Ties(FilterBy(subs, filter), NewestFirst(parse), x) <==>
      y in subs && Selected(filter, y) && Timestamp(y, parse) == Timestamp(x, parse)
  {
    SortByTimestampStable(FilterBy(subs, filter), parse, x);
    SameTimestamp(FilterBy(subs, filter), parse, x);
  }

  lemma SortByTimestampStable(s: seq<Submission>, parse: Value -> Option<int>, x: Submission)
    ensures Ties(Sort(s, NewestFirst(parse)), NewestFirst(parse), x) == Ties(s, NewestFirst(parse), x)
  {
    assert TotalPreorder(NewestFirst(parse));
    SortStable(s, NewestFirst(parse), x);
  }

  /** Under the listing's order, two records tie exactly when their
      timestamps are equal. */
  lemma SameTimestamp(s: seq<Submission>, parse: Value -> Option<int>, x: Submission)
    ensures forall y :: y in Ties(s, NewestFirst(parse), x) <==> y in s && Timestamp(y, parse) == Timestamp(x, parse)
  {
    TiesMembers(s, NewestFirst(parse), x);
  }

  // ------------------------------------------------------- lookup by id

  /** `item.id === id` for a route parameter `id` (always a string). */
  predicate HasId(sub: Submission, id: string) {
    Field(sub, "id") == Str(id)
  }

  /** `findIndex(item => item.id === id)`: the first matching position, or -1. */
  function FindById(subs: seq<Submission>, id: string): (r: int)
    ensures -1 <= r < |subs|
    ensures r == -1 <==> forall k :: 0 <= k < |subs| ==> !HasId(subs[k], id)
    ensures r >= 0 ==> HasId(subs[r], id) && forall k :: 0 <= k < r ==> !HasId(subs[k], id)
  {
    if subs == [] then -1
    else if HasId(subs[0], id) then 0
    else
      var r := FindById(subs[1..], id);
      if r == -1 then -1 else r + 1
  }

  /** No two records carry the same id. */
  ghost predicate UniqueIds(subs: seq<Submission>) {
    forall i, j :: 0 <= i < j < |subs| ==> Field(subs[i], "id") != Field(subs[j], "id")
  }

  /** `splice(index, 1)` */
  function RemoveAt(subs: seq<Submission>, i: nat): (r: seq<Submission>)
    requires i < |subs|
    ensures |r| == |subs| - 1
    ensures forall k :: 0 <= k < i ==> r[k] == subs[k]
    ensures forall k :: i <= k < |r| ==> r[k] == subs[k + 1]
  {
    subs[..i] + subs[i + 1..]
  }

  /** Once the record with an id is removed from a store of unique ids, looking
      the id up again finds nothing. */
  lemma RemovedIsGone(subs: seq<Submission>, id: string)
    requires UniqueIds(subs)
    requires FindById(subs, id) >= 0
    ensures FindById(RemoveAt(subs, FindById(subs, id)), id) == -1
  {
    var i := FindById(subs, id);
    var r := RemoveAt(subs, i);
    forall k | 0 <= k < |r| ensures !HasId(r[k], id) {
      if k >= i {
        assert Field(subs[i], "id") != Field(subs[k + 1], "id");
      }
    }
  }

  /** With a generated id that no record has, appending the intended new
      record keeps the ids unique, whatever the payload holds, and the new
      record is what a lookup of that id finds. */
  lemma AppendKeepsIdsUnique(subs: seq<Submission>, fields: map<string, Value>, uuid: string, nowIso: string)
    requires UniqueIds(subs)
    requires forall k :: 0 <= k < |subs| ==> !HasId(subs[k], uuid)
    ensures UniqueIds(subs + [FreshRecord(fields, uuid, nowIso)])
    ensures FindById(subs + [FreshRecord(fields, uuid, nowIso)], uuid) == |subs|
  {
    var rec := FreshRecord(fields, uuid, nowIso);
    assert HasId(rec, uuid);
    AppendFresh(subs, rec, uuid);
  }

  /** Deleting a record keeps the remaining ids unique. */
  lemma RemoveKeepsIdsUnique(subs: seq<Submission>, i: nat)
    requires UniqueIds(subs) && i < |subs|
    ensures UniqueIds(RemoveAt(subs, i))
  {
    var r := RemoveAt(subs, i);
    forall a, b | 0 <= a < b < |r| ensures Field(r[a], "id") != Field(r[b], "id") {
      var a' := if a < i then a else a + 1;
      var b' := if b < i then b else b + 1;
      assert r[a] == subs[a'] && r[b] == subs[b'] && a' < b';
    }
  }

  lemma AppendFresh(subs: seq<Submission>, rec: Submission, uuid: string)
    requires UniqueIds(subs)
    requires HasId(rec, uuid)
    requires forall k :: 0 <= k < |subs| ==> !HasId(subs[k], uuid)
    ensures UniqueIds(subs + [rec])
    ensures FindById(subs + [rec], uuid) == |subs|
  {
    var s' := subs + [rec];
    forall i, j | 0 <= i < j < |s'| ensures Field(s'[i], "id") != Field(s'[j], "id") {
      assert s'[i] == subs[i];
      if j < |subs| {
        assert s'[j] == subs[j];
      } else {
        assert !HasId(subs[i], uuid);
      }
    }
    assert HasId(s'[|subs|], uuid);
    assert forall k :: 0 <= k < |subs| ==> !HasId(s'[k], uuid) by {
      forall k | 0 <= k < |subs| ensures s'[k] == subs[k] {}
    }
  }

  // --------------------------------------------------- trash and restore

  /** The writes of `DELETE /admin/submissions/:id` to the found record. */
  function MarkTrashed(sub: Submission, nowIso: string): (r: Submission)
    ensures IsTrashed(r)
    ensures Field(r, "isTrashed") == Field(r, "isArchived") == Bool(true)
    ensures r.Keys == sub.Keys + {"isTrashed", "trashedAt", "isArchived", "archivedAt"}
    ensures forall k :: k in sub && k !in {"isTrashed", "trashedAt", "isArchived", "archivedAt"} ==> k in r && r[k] == sub[k]
    ensures Field(r, "trashedAt") == Field(r, "archivedAt") == Str(nowIso)
  {
    sub["isTrashed" := Bool(true)]["trashedAt" := Str(nowIso)]["isArchived" := Bool(true)]["archivedAt" := Str(nowIso)]
  }

  /** The writes of `POST /admin/submissions/:id/restore` to the found record. */
  function MarkRestored(sub: Submission): (r: Submission)
    ensures !IsTrashed(r)
    ensures Field(r, "isTrashed") == Field(r, "isArchived") == Bool(false)
    ensures r.Keys == sub.Keys + {"isTrashed", "trashedAt", "isArchived", "archivedAt"}
    ensures forall k :: k in sub && k !in {"isTrashed", "trashedAt", "isArchived", "archivedAt"} ==> k in r && r[k] == sub[k]
    ensures Field(r, "trashedAt") == Field(r, "archivedAt") == Null
  {
    sub["isTrashed" := Bool(false)]["trashedAt" := Null]["isArchived" := Bool(false)]["archivedAt" := Null]
  }

  /** Trashing or restoring a record keeps its id, so ids stay unique. */
  lemma MarkKeepsIdsUnique(subs: seq<Submission>, i: nat, nowIso: string)
    requires UniqueIds(subs) && i < |subs|
    ensures UniqueIds(subs[i := MarkTrashed(subs[i], nowIso)])
    ensures UniqueIds(subs[i := MarkRestored(subs[i])])
  {
    assert Field(MarkTrashed(subs[i], nowIso), "id") == Field(subs[i], "id");
    assert Field(MarkRestored(subs[i]), "id") == Field(subs[i], "id");
  }

  /** The record invariant: the trashed timestamp is set exactly when the
      record is flagged as trashed. */
  predicate Consistent(sub: Submission) {
    || (IsTrashed(sub) && Field(sub, "trashedAt").Str?)
    || (!IsTrashed(sub) && Field(sub, "trashedAt") == Null)
  }

  /** Intended new records, trashed and restored records all satisfy the
      record invariant; a record built as written does exactly when the
      payload does not flag it archived. */
  lemma TransitionsConsistent(fields: map<string, Value>, uuid: string, nowIso: string, sub: Submission)
    ensures Consistent(FreshRecord(fields, uuid, nowIso))
    ensures Consistent(MarkTrashed(sub, nowIso))
    ensures Consistent(MarkRestored(sub))
    ensures Consistent(NewRecord(fields, uuid, nowIso)) <==> Get(Obj(fields), "isArchived") != Bool(true)
  {
    assert Field(NewRecord(fields, uuid, nowIso), "isArchived") == Get(Obj(fields), "isArchived");
  }

  /** As written, a payload with `isArchived: true` is stored trashed with no
      trashed timestamp, and the default listing never shows it. */
  lemma PayloadArchivedHidden(parse: Value -> Option<int>)
    ensures var rec := NewRecord(map["isArchived" := Bool(true)], "u", "t");
      && IsTrashed(rec) && Field(rec, "trashedAt") == Null && !Consistent(rec)
      && rec !in ListView([rec], Null, parse)
  {
    var rec := NewRecord(map["isArchived" := Bool(true)], "u", "t");
    assert Field(rec, "isArchived") == Bool(true);
    ListViewSpec([rec], Null, parse);
  }

  /** Trashing a record moves it out of the default listing and into the
      trashed one; it stays in the full listing. */
  lemma TrashThenList(subs: seq<Submission>, i: nat, nowIso: string, parse: Value -> Option<int>, other: Value)
    requires i < |subs|
    requires other != Str("true") && other != Str("all")
    ensures var s' := subs[i := MarkTrashed(subs[i], nowIso)];
      && s'[i] in ListView(s', Str("true"), parse)
      && s'[i] in ListView(s', Str("all"), parse)
      && s'[i] !in ListView(s', other, parse)
  {
    var s' := subs[i := MarkTrashed(subs[i], nowIso)];
    ListViewSpec(s', Str("true"), parse);
    ListViewSpec(s', Str("all"), parse);
    ListViewSpec(s', other, parse);
  }

  /** Restoring a record brings it back into the default listing and out of
      the trashed one. */
  lemma RestoreThenList(subs: seq<Submission>, i: nat, parse: Value -> Option<int>, other: Value)
    requires i < |subs|
    requires other != Str("true") && other != Str("all")
    ensures var s' := subs[i := MarkRestored(subs[i])];
      && s'[i] in ListView(s', other, parse)
      && s'[i] !in ListView(s', Str("true"), parse)
  {
    var s' := subs[i := MarkRestored(subs[i])];
    ListViewSpec(s', Str("true"), parse);
    ListViewSpec(s', other, parse);
  }
}
