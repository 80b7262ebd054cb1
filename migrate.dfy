/**
 * migrate.js: the one-off copy of `data/submissions.json` into the
 * `submissions` table of the SQLite database. Each array element becomes a
 * row of fourteen bound values; a row is inserted only when no row has its
 * id, and a failing row is reported and skipped.
 */
module Migrate {
  import opened Text
  import opened Json
  import opened Submissions

  /** The fourteen values bound to the `INSERT`, in column order. */
  datatype Row = Row(
    id: Value, parentName: Value, parentEmail: Value, parentPhone: Value,
    studentName: Value, studentDob: Value, relationship: Value,
    specificNeeds: Value, subjects: Value, discoverySource: Value,
    isCharity: Value, submittedAt: Value, isTrashed: Value, trashedAt: Value)

  /** A JavaScript boolean test bound as SQLite's 1 or 0. */
  function Flag(b: bool): Value {
    if b then Num(1) else Num(0)
  }

  /** Building the bound values gets through: `subjects.join(',')` throws
      when an element is one that `String` cannot convert. */
  predicate RowBuilds(sub: Value) {
    Get(sub, "subjects").Arr? ==> Stringable(Get(sub, "subjects"))
  }

  /** The subjects column: an array of convertible elements joined with bare
      commas, anything else as it is, a falsy value as `''`. */
  function SubjectsColumn(subjects: Value): (r: Value)
    requires subjects.Arr? ==> Stringable(subjects)
    ensures subjects.Arr? ==> r.Str? && r.s == JoinValues(subjects.items, ",")
    ensures !subjects.Arr? && Truthy(subjects) ==> r == subjects
    ensures !subjects.Arr? && !Truthy(subjects) ==> r == Str("")
    ensures Truthy(r) || r == Str("")
  {
    if subjects.Arr? then Str(JoinValues(subjects.items, ",")) else Or(subjects, Str(""))
  }

  /** The row built from one array element. */
  function RowOf(sub: Value): Row
    requires RowBuilds(sub)
  {
    Row(
      Get(sub, "id"), Get(sub, "parentName"), Get(sub, "parentEmail"), Get(sub, "parentPhone"),
      Get(sub, "studentName"), Get(sub, "studentDob"),
      Or(Get(sub, "relationship"), Str("")),
      Or(Get(sub, "specificNeeds"), Str("")),
      SubjectsColumn(Get(sub, "subjects")),
      Or(Get(sub, "discoverySource"), Str("")),
      Flag(Truthy(Or(Get(sub, "isChariity"), Get(sub, "isCharity")))),
      Get(sub, "submittedAt"),
      Flag(Truthy(Get(sub, "isTrashed"))),
      Or(Get(sub, "trashedAt"), Null))
  }

  /** The column coercions: the flags are 1 or 0 by truthiness (either
      spelling of the charity key counts), the three optional texts are
      copied when truthy and default to `''` otherwise, a falsy `trashedAt`
      becomes `null` and a truthy one is kept, and the identity, contact
      and date fields are copied as they are. */
  lemma RowColumns(sub: Value)
    requires RowBuilds(sub)
    ensures var r := RowOf(sub);
      && (r.isCharity == Num(1) <==> Truthy(Get(sub, "isChariity")) || Truthy(Get(sub, "isCharity")))
      && r.isCharity in {Num(0), Num(1)}
      && (r.isTrashed == Num(1) <==> Truthy(Get(sub, "isTrashed")))
      && r.isTrashed in {Num(0), Num(1)}
      && (r.trashedAt == Null <==> !Truthy(Get(sub, "trashedAt")))
      && (Truthy(Get(sub, "relationship")) ==> r.relationship == Get(sub, "relationship"))
      && (!Truthy(Get(sub, "relationship")) ==> r.relationship == Str(""))
      && (Truthy(Get(sub, "trashedAt")) ==> r.trashedAt == Get(sub, "trashedAt"))
      && (Truthy(Get(sub, "specificNeeds")) ==> r.specificNeeds == Get(sub, "specificNeeds"))
      && (!Truthy(Get(sub, "specificNeeds")) ==> r.specificNeeds == Str(""))
      && (Truthy(Get(sub, "discoverySource")) ==> r.discoverySource == Get(sub, "discoverySource"))
      && (!Truthy(Get(sub, "discoverySource")) ==> r.discoverySource == Str(""))
      && r.id == Get(sub, "id") && r.parentName == Get(sub, "parentName")
      && r.parentEmail == Get(sub, "parentEmail") && r.parentPhone == Get(sub, "parentPhone")
      && r.studentName == Get(sub, "studentName") && r.studentDob == Get(sub, "studentDob")
      && r.submittedAt == Get(sub, "submittedAt")
  {
  }

  /** A record built by `FreshRecord` migrates as live, with its generated
      id and its submission time. */
  lemma NewRecordRow(fields: map<string, Value>, uuid: string, nowIso: string)
    requires RowBuilds(Obj(FreshRecord(fields, uuid, nowIso)))
    ensures var r := RowOf(Obj(FreshRecord(fields, uuid, nowIso)));
      r.id == Str(uuid) && r.submittedAt == Str(nowIso) && r.isTrashed == Num(0) && r.trashedAt == Null
  {
  }

  // ------------------------------------------------------------ the table

  /** The table's contents: rows keyed by a text id, and the rows inserted
      with a `NULL` id, which the lookup `WHERE id = NULL` never finds. */
  datatype Db = Db(rows: map<string, Row>, keyless: seq<Row>)

  /** The elements the loop visits: those of a parsed non-empty array, and
      none when the file is missing, is not JSON (`None`) or holds anything else. */
  function Elements(parsed: Option<Value>): (subs: seq<Value>)
    ensures parsed.None? || !parsed.value.Arr? ==> subs == []
    ensures parsed.Some? && parsed.value.Arr? ==> subs == parsed.value.items
  {
    if parsed.Some? && parsed.value.Arr? && |parsed.value.items| > 0 then parsed.value.items else []
  }

  /** One turn of the loop: a failing database call (`failed`), reading
      `id` of `null` or building a row whose subjects do not join throws and
      is caught; otherwise a text id is inserted only when absent, and a
      missing or `null` id always inserts. */
  function Step(db: Db, sub: Value, failed: bool): Db {
    if failed || IsNullish(sub) then db
    else match Get(sub, "id")
      case Str(k) => if k in db.rows || !RowBuilds(sub) then db else db.(rows := db.rows[k := RowOf(sub)])
      case Undefined => if RowBuilds(sub) then db.(keyless := db.keyless + [RowOf(sub)]) else db
      case Null => if RowBuilds(sub) then db.(keyless := db.keyless + [RowOf(sub)]) else db
      case _ => db
  }

  /** The loop over `subs`, `fails(i)` telling whether the database call of
      the `i`-th turn throws. */
  function Run(db: Db, subs: seq<Value>, fails: nat -> bool): Db {
    if subs == [] then db
    else Step(Run(db, subs[..|subs| - 1], fails), subs[|subs| - 1], fails(|subs| - 1))
  }

  /** Rows that were there stay as they were, and earlier rows keep their place. */
  lemma {:induction false} ExistingRowsKept(db: Db, subs: seq<Value>, fails: nat -> bool)
    ensures var r := Run(db, subs, fails);
      && db.rows.Keys <= r.rows.Keys
      && (forall k :: k in db.rows ==> r.rows[k] == db.rows[k])
      && db.keyless <= r.keyless
  {
    if subs != [] {
      ExistingRowsKept(db, subs[..|subs| - 1], fails);
    }
  }

  /** An element that does not fail and carries a text id is in the table
      afterwards under that id. */
  lemma {:induction false} KeyPresent(db: Db, subs: seq<Value>, fails: nat -> bool, i: nat, k: string)
    requires i < |subs| && !fails(i) && !IsNullish(subs[i]) && RowBuilds(subs[i]) && Get(subs[i], "id") == Str(k)
    ensures k in Run(db, subs, fails).rows
  {
    var n := |subs| - 1;
    if i < n {
      assert subs[..n][i] == subs[i];
      KeyPresent(db, subs[..n], fails, i, k);
      ExistingRowsKept(Run(db, subs[..n], fails), [subs[n]], fails);
      assert Run(Run(db, subs[..n], fails), [subs[n]], fails) == Step(Run(db, subs[..n], fails), subs[n], fails(0));
    }
  }

  /** The first element with a new text id gives that id its row, whatever
      happens to the other elements: a failure stays with its own row. */
  lemma {:induction false} FirstRowWins(db: Db, subs: seq<Value>, fails: nat -> bool, i: nat, k: string)
    requires i < |subs| && !fails(i) && !IsNullish(subs[i]) && RowBuilds(subs[i]) && Get(subs[i], "id") == Str(k)
    requires k !in db.rows
    requires forall j :: 0 <= j < i ==> IsNullish(subs[j]) || Get(subs[j], "id") != Str(k)
    ensures k in Run(db, subs, fails).rows && Run(db, subs, fails).rows[k] == RowOf(subs[i])
  {
    var n := |subs| - 1;
    var before := Run(db, subs[..n], fails);
    if i < n {
      forall j | 0 <= j < i ensures IsNullish(subs[..n][j]) || Get(subs[..n][j], "id") != Str(k) {
        assert subs[..n][j] == subs[j];
      }
      assert subs[..n][i] == subs[i];
      FirstRowWins(db, subs[..n], fails, i, k);
    } else {
      assert k !in before.rows by {
        forall j | 0 <= j < n ensures IsNullish(subs[..n][j]) || Get(subs[..n][j], "id") != Str(k) {
          assert subs[..n][j] == subs[j];
        }
        KeyAbsent(db, subs[..n], fails, k);
      }
    }
  }

  /** No element carries the text id `k`: the run adds no row under it. */
  lemma {:induction false} KeyAbsent(db: Db, subs: seq<Value>, fails: nat -> bool, k: string)
    requires k !in db.rows
    requires forall j :: 0 <= j < |subs| ==> IsNullish(subs[j]) || Get(subs[j], "id") != Str(k)
    ensures k !in Run(db, subs, fails).rows
  {
    if subs != [] {
      var n := |subs| - 1;
      forall j | 0 <= j < n ensures IsNullish(subs[..n][j]) || Get(subs[..n][j], "id") != Str(k) {
        assert subs[..n][j] == subs[j];
      }
      KeyAbsent(db, subs[..n], fails, k);
    }
  }

  /** After a run in which no database call failed, every text id of the
      input is in the table, so running again inserts no row with a text id,
      whatever fails the second time. */
  lemma {:induction false} RerunAddsNoKeyedRows(db: Db, subs: seq<Value>, first: nat -> bool, second: nat -> bool)
    requires forall i :: 0 <= i < |subs| ==> !first(i)
    ensures Run(Run(db, subs, first), subs, second).rows == Run(db, subs, first).rows
  {
    var once := Run(db, subs, first);
    forall i | 0 <= i < |subs| && !IsNullish(subs[i]) && RowBuilds(subs[i]) && Get(subs[i], "id").Str?
      ensures Get(subs[i], "id").s in once.rows
    {
      KeyPresent(db, subs, first, i, Get(subs[i], "id").s);
    }
    RunOverPresentKeys(once, subs, second);
  }

  /** A run whose text ids are all in the table already leaves the keyed
      rows as they are. */
  lemma {:induction false} RunOverPresentKeys(db: Db, subs: seq<Value>, fails: nat -> bool)
    requires forall i :: 0 <= i < |subs| && !IsNullish(subs[i]) && RowBuilds(subs[i]) && Get(subs[i], "id").Str? ==>
      Get(subs[i], "id").s in db.rows
    ensures Run(db, subs, fails).rows == db.rows
  {
    if subs != [] {
      var n := |subs| - 1;
      forall i | 0 <= i < n && !IsNullish(subs[..n][i]) && RowBuilds(subs[..n][i]) && Get(subs[..n][i], "id").Str?
        ensures Get(subs[..n][i], "id").s in db.rows
      {
        assert subs[..n][i] == subs[i];
      }
      RunOverPresentKeys(db, subs[..n], fails);
    }
  }

  /** The lookup cannot find a row stored with a `NULL` id, so an element
      without an id is inserted again by every run. */
  lemma RerunRepeatsKeylessRows(db: Db, sub: Value, fails: nat -> bool)
    requires !fails(0) && sub.Obj? && "id" !in sub.fields && RowBuilds(sub)
    ensures Run(Run(db, [sub], fails), [sub], fails).keyless == db.keyless + [RowOf(sub), RowOf(sub)]
  {
  }

  /** An element whose subjects hold an object with its own `toString` key
      throws while its row is built, and the catch skips it: the table is
      left as it was. */
  lemma UnjoinableRowSkipped(db: Db, sub: Value, fails: nat -> bool, j: nat)
    requires sub.Obj? && Get(sub, "subjects").Arr?
    requires j < |Get(sub, "subjects").items| && Get(sub, "subjects").items[j].Obj?
    requires "toString" in Get(sub, "subjects").items[j].fields
    ensures Run(db, [sub], fails) == db
  {
    assert !Stringable(Get(sub, "subjects").items[j]);
    assert Run(db, [sub], fails) == Step(db, sub, fails(0));
  }

  /** A missing or unparsable file, a non-array and an empty array insert
      nothing. */
  lemma NoOpInputs(db: Db, parsed: Option<Value>, fails: nat -> bool)
    requires parsed.None? || !parsed.value.Arr? || parsed.value.items == []
    ensures Run(db, Elements(parsed), fails) == db
  {
  }

  /** The `submissions` table, whose rows the migration inserts. */
  class Table {
    var rows: map<string, Row>
    var keyless: seq<Row>

    function Contents(): Db
      reads this
    {
      Db(rows, keyless)
    }

    constructor(initial: Db)
      ensures Contents() == initial
    {
      rows := initial.rows;
      keyless := initial.keyless;
    }

    /** `migrate()` over the parsed file. */
    method Migrate(parsed: Option<Value>, fails: nat -> bool)
      modifies this
      ensures Contents() == Run(old(Contents()), Elements(parsed), fails)
    {
      var subs := Elements(parsed);
      for i := 0 to |subs|
        invariant Contents() == Run(old(Contents()), subs[..i], fails)
      {
        assert subs[..i + 1][..i] == subs[..i];
        var sub := subs[i];
        if !fails(i) && !IsNullish(sub) {
          match Get(sub, "id")
          case Str(k) =>
            if k !in rows && RowBuilds(sub) {
              rows := rows[k := RowOf(sub)];
            }
          case Undefined =>
            if RowBuilds(sub) {
              keyless := keyless + [RowOf(sub)];
            }
          case Null =>
            if RowBuilds(sub) {
              keyless := keyless + [RowOf(sub)];
            }
          case _ =>
        }
      }
      assert subs[..|subs|] == subs;
    }
  }
}
