/**
 * The CSV export of `GET /admin/export`: `escapeCsv`, which quotes a field as
 * section 2 of RFC 4180 describes when it holds a double quote, a comma or a
 * line feed, and `buildCsv`, which writes a fixed header and one line per
 * submission. A reader for the same dialect is defined beside them, and the
 * export is proved to read back as the header and the cell texts whenever
 * `String` converts every value it writes; when one does not, `buildCsv`
 * throws.
 */
module Csv {
  import opened Text
  import opened Json
  import opened Submissions

  /** `/[",\n]/.test(s)` */
  predicate NeedsQuoting(s: string) {
    '"' in s || ',' in s || '\n' in s
  }

  /** `s.replace(/"/g, '""')` */
  function DoubleQuotes(s: string): (r: string)
    ensures |r| == |s| + Count(s, '"')
  {
    if s == [] then []
    else (if s[0] == '"' then "\"\"" else [s[0]]) + DoubleQuotes(s[1..])
  }

  /** `escapeCsv` once the value is a string. */
  function EscapeText(s: string): string {
    if NeedsQuoting(s) then "\"" + DoubleQuotes(s) + "\"" else s
  }

  /** `escapeCsv(value)` of a value `String` converts (of any other value
      it throws): `null` and `undefined` give the empty field, every other
      value its `String` form, quoted where needed. */
  function EscapeCsv(v: Value): (r: string)
    requires Stringable(v)
    ensures IsNullish(v) ==> r == ""
    ensures !IsNullish(v) && !NeedsQuoting(ToStr(v)) ==> r == ToStr(v)
    ensures !IsNullish(v) && NeedsQuoting(ToStr(v)) ==> |r| >= 2 && r[0] == '"' == r[|r| - 1]
  {
    if IsNullish(v) then "" else EscapeText(ToStr(v))
  }

  lemma {:induction false} DoubleQuotesConcat(a: string, b: string)
    ensures DoubleQuotes(a + b) == DoubleQuotes(a) + DoubleQuotes(b)
  {
    if a != [] {
      assert (a + b)[1..] == a[1..] + b;
      DoubleQuotesConcat(a[1..], b);
    } else {
      assert a + b == b;
    }
  }

  lemma {:induction false} DoubleQuotesNone(s: string)
    requires '"' !in s
    ensures DoubleQuotes(s) == s
  {
    if s != [] {
      DoubleQuotesNone(s[1..]);
      assert s == [s[0]] + s[1..];
    }
  }

  lemma DoubleQuotesNickname(a: string, b: string)
    requires '"' !in a && '"' !in b
    ensures DoubleQuotes(a + ("\"" + (b + "\""))) == a + ("\"\"" + (b + "\"\""))
  {
    var q, qq := "\"", "\"\"";
    DoubleQuotesConcat(b, q);
    DoubleQuotesConcat(q, b + q);
    DoubleQuotesConcat(a, q + (b + q));
    DoubleQuotesNone(a);
    DoubleQuotesNone(b);
    assert DoubleQuotes(q) == qq;
  }

  /** A value holding a quoted nickname, such as `O'Brien, "Jr"`, is written
      with its quotes doubled inside a pair of quotes: `"O'Brien, ""Jr"""`. */
  lemma EscapeNickname(a: string, b: string)
    requires '"' !in a && '"' !in b
    ensures EscapeCsv(Str(a + ("\"" + (b + "\"")))) == "\"" + (a + ("\"\"" + (b + "\"\""))) + "\""
  {
    var name := a + ("\"" + (b + "\""));
    assert name[|a|] == '"';
    DoubleQuotesNickname(a, b);
  }

  lemma EscapeExample()
    ensures EscapeCsv(Str("O'Brien, " + ("\"" + ("Jr" + "\"")))) == "\"" + ("O'Brien, " + ("\"\"" + ("Jr" + "\"\""))) + "\""
  {
    EscapeNickname("O'Brien, ", "Jr");
  }

  // ------------------------------------------------------------ the export

  /** The header line's titles. */
  const Headers: seq<string> := [
    "Date", "Parent Name", "Parent Email", "Parent Phone", "Student Name",
    "Student Email", "Student DOB", "Subjects", "Discovery Source", "Specific Needs"
  ]

  /** `x || ''`: never nullish, and convertible when `x` is. */
  function OrEmpty(x: Value): (r: Value)
    ensures !IsNullish(r) && (Stringable(x) ==> Stringable(r))
  {
    Or(x, Str(""))
  }

  /** Whether `buildCsv` gets through one submission: every value it hands
      to `String`, directly in `escapeCsv` or through `join`, converts
      without throwing. A falsy field is replaced by `''` before that, and
      every falsy value converts, so the field itself is what counts. */
  predicate Exportable(sub: Submission) {
    && Stringable(Or(Field(sub, "submittedAt"), Field(sub, "createdAt")))
    && Stringable(Field(sub, "parentName")) && Stringable(Field(sub, "parentEmail"))
    && Stringable(Field(sub, "parentPhone")) && Stringable(Field(sub, "studentName"))
    && Stringable(Field(sub, "studentEmail")) && Stringable(Field(sub, "studentDob"))
    && (Field(sub, "subjects").Arr? ==> Stringable(Field(sub, "subjects")))
    && Stringable(Field(sub, "discoverySource")) && Stringable(Field(sub, "specificNeeds"))
  }

  /** `buildCsv(submissions)` returns rather than throws. */
  predicate AllExportable(subs: seq<Submission>) {
    forall i :: 0 <= i < |subs| ==> Exportable(subs[i])
  }

  /** The ten values `buildCsv` writes for one submission it gets through. */
  function Cells(sub: Submission): (cells: seq<Value>)
    requires Exportable(sub)
    ensures |cells| == |Headers|
    ensures forall j :: 0 <= j < |cells| ==> !IsNullish(cells[j]) && Stringable(cells[j])
  {
    var subjects := Field(sub, "subjects");
    [
      OrEmpty(Or(Field(sub, "submittedAt"), Field(sub, "createdAt"))),
      OrEmpty(Field(sub, "parentName")),
      OrEmpty(Field(sub, "parentEmail")),
      OrEmpty(Field(sub, "parentPhone")),
      OrEmpty(Field(sub, "studentName")),
      OrEmpty(Field(sub, "studentEmail")),
      OrEmpty(Field(sub, "studentDob")),
      if subjects.Arr? then Str(JoinValues(subjects.items, ", ")) else Str(""),
      OrEmpty(Field(sub, "discoverySource")),
      OrEmpty(Field(sub, "specificNeeds"))
    ]
  }

  /** The text of every cell of one submission, before escaping. */
  function CellTexts(sub: Submission): (texts: seq<string>)
    requires Exportable(sub)
    ensures |texts| == |Headers|
  {
    var cells := Cells(sub);
    seq(|cells|, j requires 0 <= j < |cells| => ToStr(cells[j]))
  }

  /** `row.map(escapeCsv).join(',')` for fields given as text. */
  function Line(fields: seq<string>): string
    requires |fields| >= 1
  {
    JoinWith(seq(|fields|, j requires 0 <= j < |fields| => EscapeText(fields[j])), ',')
  }

  /** `buildCsv(submissions)`: the header line, then one line per submission in
      stored order, joined by line feeds. */
  function BuildCsv(subs: seq<Submission>): string
    requires AllExportable(subs)
  {
    JoinWith([Line(Headers)] + seq(|subs|, i requires 0 <= i < |subs| => Line(CellTexts(subs[i]))), '\n')
  }

  /** Escaping a cell that is never nullish is escaping its `String` form, so
      `Line(CellTexts(sub))` is `Cells(sub).map(escapeCsv).join(',')`. */
  lemma CellEscaping(sub: Submission, j: nat)
    requires Exportable(sub) && j < |Headers|
    ensures EscapeCsv(Cells(sub)[j]) == EscapeText(CellTexts(sub)[j])
  {
  }

  /** The record `POST /submit` stores for an accepted payload exports
      exactly when the four optional fields the export writes convert with
      `String`: the required fields are strings, the subjects an array and
      the submission time an ISO date string, and intake checks nothing else. */
  lemma AcceptedExportable(payload: Value, uuid: string, nowIso: string)
    requires CheckPayload(payload).Accepted? && nowIso != ""
    ensures Exportable(FreshRecord(payload.fields, uuid, nowIso)) <==>
      && Stringable(Get(payload, "studentEmail")) && Stringable(Get(payload, "subjects"))
      && Stringable(Get(payload, "discoverySource")) && Stringable(Get(payload, "specificNeeds"))
  {
    AcceptedShape(payload);
    ShapedExportable(payload, uuid, nowIso);
  }

  /** `AcceptedExportable` for any object whose required fields are strings
      and whose subjects are an array. */
  lemma ShapedExportable(payload: Value, uuid: string, nowIso: string)
    requires nowIso != "" && payload.Obj?
    requires Get(payload, "parentName").Str? && Get(payload, "parentEmail").Str? && Get(payload, "parentPhone").Str?
    requires Get(payload, "studentName").Str? && Get(payload, "studentDob").Str? && Get(payload, "subjects").Arr?
    ensures Exportable(FreshRecord(payload.fields, uuid, nowIso)) <==>
      && Stringable(Get(payload, "studentEmail")) && Stringable(Get(payload, "subjects"))
      && Stringable(Get(payload, "discoverySource")) && Stringable(Get(payload, "specificNeeds"))
  {
    var fields := payload.fields;
    var rec := FreshRecord(fields, uuid, nowIso);
    FreshField(fields, uuid, nowIso, "parentName");
    FreshField(fields, uuid, nowIso, "parentEmail");
    FreshField(fields, uuid, nowIso, "parentPhone");
    FreshField(fields, uuid, nowIso, "studentName");
    FreshField(fields, uuid, nowIso, "studentEmail");
    FreshField(fields, uuid, nowIso, "studentDob");
    FreshField(fields, uuid, nowIso, "subjects");
    FreshField(fields, uuid, nowIso, "discoverySource");
    FreshField(fields, uuid, nowIso, "specificNeeds");
    ExportableWhenRequiredHeld(rec);
  }

  /** An accepted payload is an object whose required fields are strings
      and whose subjects are an array. */
  lemma AcceptedShape(payload: Value)
    requires CheckPayload(payload).Accepted?
    ensures payload.Obj?
    ensures Get(payload, "parentName").Str? && Get(payload, "parentEmail").Str? && Get(payload, "parentPhone").Str?
    ensures Get(payload, "studentName").Str? && Get(payload, "studentDob").Str? && Get(payload, "subjects").Arr?
  {
  }

  /** A field the server does not set is the payload's own. */
  lemma FreshField(fields: map<string, Value>, uuid: string, nowIso: string, k: string)
    requires k != "id" && k != "isArchived" && k != "archivedAt"
    requires k != "submittedAt" && k != "isTrashed" && k != "trashedAt"
    ensures Field(FreshRecord(fields, uuid, nowIso), k) == Get(Obj(fields), k)
    ensures Field(FreshRecord(fields, uuid, nowIso), "submittedAt") == Str(nowIso)
  {
  }

  /** With the required fields strings, the subjects an array and the
      submission time a non-empty string, a record exports exactly when its
      four optional exported fields convert. */
  lemma ExportableWhenRequiredHeld(rec: Submission)
    requires Field(rec, "submittedAt").Str? && Field(rec, "submittedAt").s != ""
    requires Field(rec, "parentName").Str? && Field(rec, "parentEmail").Str? && Field(rec, "parentPhone").Str?
    requires Field(rec, "studentName").Str? && Field(rec, "studentDob").Str? && Field(rec, "subjects").Arr?
    ensures Exportable(rec) <==>
      && Stringable(Field(rec, "studentEmail")) && Stringable(Field(rec, "subjects"))
      && Stringable(Field(rec, "discoverySource")) && Stringable(Field(rec, "specificNeeds"))
  {
  }

  /** One anonymous submission is enough to stop every later export: any
      acceptable payload, given an object with its own `toString` key as its
      specific needs, is still accepted, and the record stored for it does
      not export. */
  lemma ToStringKeyBlocksExport(payload: Value, x: Value, uuid: string, nowIso: string)
    requires CheckPayload(payload).Accepted? && nowIso != ""
    ensures var poisoned := Obj(payload.fields["specificNeeds" := Obj(map["toString" := x])]);
      && CheckPayload(poisoned).Accepted?
      && !Exportable(FreshRecord(poisoned.fields, uuid, nowIso))
  {
    var poisoned := PoisonedAccepted(payload, x);
    AcceptedExportable(poisoned, uuid, nowIso);
  }

  /** Setting the specific needs of an accepted payload keeps it accepted. */
  lemma PoisonedAccepted(payload: Value, x: Value) returns (poisoned: Value)
    requires CheckPayload(payload).Accepted?
    ensures poisoned == Obj(payload.fields["specificNeeds" := Obj(map["toString" := x])])
    ensures CheckPayload(poisoned).Accepted? && !Stringable(Get(poisoned, "specificNeeds"))
  {
    assert payload.Obj?;
    poisoned := Obj(payload.fields["specificNeeds" := Obj(map["toString" := x])]);
    KeptField(payload, x, "parentName");
    KeptField(payload, x, "parentEmail");
    KeptField(payload, x, "parentPhone");
    KeptField(payload, x, "studentName");
    KeptField(payload, x, "studentDob");
    KeptField(payload, x, "subjects");
    SameChecks(payload, poisoned);
  }

  /** Intake reads only six fields: objects that agree on them are accepted
      alike. */
  lemma SameChecks(a: Value, b: Value)
    requires a.Obj? && b.Obj? && CheckPayload(a).Accepted?
    requires Get(a, "parentName") == Get(b, "parentName") && Get(a, "parentEmail") == Get(b, "parentEmail")
    requires Get(a, "parentPhone") == Get(b, "parentPhone") && Get(a, "studentName") == Get(b, "studentName")
    requires Get(a, "studentDob") == Get(b, "studentDob") && Get(a, "subjects") == Get(b, "subjects")
    ensures CheckPayload(b).Accepted?
  {
  }

  /** Setting the specific needs leaves every other field as it was. */
  lemma KeptField(payload: Value, x: Value, k: string)
    requires payload.Obj? && k != "specificNeeds"
    ensures Get(Obj(payload.fields["specificNeeds" := Obj(map["toString" := x])]), k) == Get(payload, k)
  {
  }

  // ------------------------------------------------------------ the reader

  /** Reads the rest of a quoted field after its opening quote: a doubled
      quote stands for one quote, a single quote closes the field. Gives the
      field and what follows the closing quote. */
  function ReadQuoted(s: string): (r: (string, string))
    ensures |r.1| <= |s|
  {
    if s == [] then ("", "")
    else if s[0] == '"' then
      if |s| > 1 && s[1] == '"' then
        var (f, rest) := ReadQuoted(s[2..]); ("\"" + f, rest)
      else ("", s[1..])
    else
      var (f, rest) := ReadQuoted(s[1..]); ([s[0]] + f, rest)
  }

  /** Reads an unquoted field up to the next comma or line feed. */
  function ReadPlain(s: string): (r: (string, string))
    ensures |r.1| <= |s|
  {
    if s == [] || s[0] == ',' || s[0] == '\n' then ("", s)
    else
      var (f, rest) := ReadPlain(s[1..]); ([s[0]] + f, rest)
  }

  function ReadField(s: string): (r: (string, string))
    ensures |r.1| <= |s|
  {
    if s != [] && s[0] == '"' then ReadQuoted(s[1..]) else ReadPlain(s)
  }

  /** Reads the comma-separated fields of one line; gives them and the text
      from the end of the line on. */
  function ReadLine(s: string): (r: (seq<string>, string))
    ensures |r.1| <= |s|
    decreases |s|
  {
    var (f, rest) := ReadField(s);
    if rest != [] && rest[0] == ',' then
      var (fs, rest') := ReadLine(rest[1..]); ([f] + fs, rest')
    else ([f], rest)
  }

  /** Reads every line of a document. */
  function ReadDocument(s: string): seq<seq<string>>
    decreases |s|
  {
    var (fields, rest) := ReadLine(s);
    if rest != [] && rest[0] == '\n' then [fields] + ReadDocument(rest[1..]) else [fields]
  }

  /** What may follow a field: nothing, a comma or a line feed. */
  predicate FieldEnd(t: string) {
    t == [] || t[0] == ',' || t[0] == '\n'
  }

  lemma {:induction false} ReadQuotedDoubled(f: string, t: string)
    requires t == [] || t[0] != '"'
    ensures ReadQuoted(DoubleQuotes(f) + "\"" + t) == (f, t)
  {
    if f == [] {
      assert DoubleQuotes(f) + "\"" + t == "\"" + t;
      ReadQuotedClose(t);
    } else {
      ReadQuotedDoubled(f[1..], t);
      ReadQuotedDoubledStep(f, t);
    }
  }

  /** One step of `ReadQuotedDoubled`: the first character of `f`, doubled
      when it is a quote, is read back as itself. */
  lemma ReadQuotedDoubledStep(f: string, t: string)
    requires f != []
    requires ReadQuoted(DoubleQuotes(f[1..]) + "\"" + t) == (f[1..], t)
    ensures ReadQuoted(DoubleQuotes(f) + "\"" + t) == (f, t)
  {
    var x := DoubleQuotes(f[1..]) + "\"" + t;
    DoubleQuotesHead(f, t);
    if f[0] == '"' {
      ReadQuotedPair(x, f[1..], t);
    } else {
      ReadQuotedChar(f[0], x, f[1..], t);
    }
    assert f == [f[0]] + f[1..];
  }

  /** Escaping `f` puts its first character, doubled when it is a quote, in
      front of the escaped rest. */
  lemma DoubleQuotesHead(f: string, t: string)
    requires f != []
    ensures DoubleQuotes(f) + "\"" + t
      == (if f[0] == '"' then "\"\"" else [f[0]]) + (DoubleQuotes(f[1..]) + "\"" + t)
  {
    var h := if f[0] == '"' then "\"\"" else [f[0]];
    var d := DoubleQuotes(f[1..]);
    assert DoubleQuotes(f) == h + d;
    assert (h + d) + "\"" == h + (d + "\"");
    assert (h + (d + "\"")) + t == h + ((d + "\"") + t);
  }

  /** A single quote not followed by another closes the field. */
  lemma ReadQuotedClose(t: string)
    requires t == [] || t[0] != '"'
    ensures ReadQuoted("\"" + t) == ("", t)
  {
    assert ("\"" + t)[1..] == t;
  }

  /** A doubled quote reads as one quote of the field. */
  lemma ReadQuotedPair(x: string, f: string, t: string)
    requires ReadQuoted(x) == (f, t)
    ensures ReadQuoted("\"\"" + x) == ("\"" + f, t)
  {
    assert ("\"\"" + x)[2..] == x;
  }

  /** Any other character is part of the field. */
  lemma ReadQuotedChar(c: char, x: string, f: string, t: string)
    requires c != '"'
    requires ReadQuoted(x) == (f, t)
    ensures ReadQuoted([c] + x) == ([c] + f, t)
  {
    assert ([c] + x)[1..] == x;
  }

  lemma {:induction false} ReadPlainUnquoted(f: string, t: string)
    requires ',' !in f && '\n' !in f
    requires FieldEnd(t)
    ensures ReadPlain(f + t) == (f, t)
  {
    if f == [] {
      assert f + t == t;
    } else {
      assert (f + t)[1..] == f[1..] + t;
      ReadPlainUnquoted(f[1..], t);
      assert f == [f[0]] + f[1..];
    }
  }

  /** Reading an escaped field gives back the field, and stops where the
      escaped text ends. */
  lemma ReadEscaped(f: string, t: string)
    requires FieldEnd(t)
    ensures ReadField(EscapeText(f) + t) == (f, t)
  {
    if NeedsQuoting(f) {
      QuotedTail(f, t);
      ReadQuotedDoubled(f, t);
    } else {
      ReadPlainUnquoted(f, t);
    }
  }

  /** A quoted field starts with a quote, after which come the doubled text,
      the closing quote and what follows. */
  lemma QuotedTail(f: string, t: string)
    requires NeedsQuoting(f)
    ensures var s := EscapeText(f) + t; s != [] && s[0] == '"' && s[1..] == DoubleQuotes(f) + "\"" + t
  {
    var body := DoubleQuotes(f) + "\"" + t;
    assert EscapeText(f) + t == ['"'] + body;
  }

  /** A line of two or more fields is the first escaped field, a comma and
      the line of the others. */
  lemma LineCons(fields: seq<string>)
    requires |fields| >= 2
    ensures Line(fields) == EscapeText(fields[0]) + ([','] + Line(fields[1..]))
  {
    var escaped := seq(|fields|, j requires 0 <= j < |fields| => EscapeText(fields[j]));
    assert escaped[1..] == seq(|fields[1..]|, j requires 0 <= j < |fields[1..]| => EscapeText(fields[1..][j]));
  }

  lemma {:induction false} ReadLineEscaped(fields: seq<string>, t: string)
    requires |fields| >= 1
    requires t == [] || t[0] == '\n'
    ensures ReadLine(Line(fields) + t) == (fields, t)
  {
    if |fields| == 1 {
      ReadLineSingle(fields, t);
    } else {
      ReadLineEscaped(fields[1..], t);
      ReadLineCons(fields, t);
    }
  }

  /** A line of one field reads back as that field. */
  lemma ReadLineSingle(fields: seq<string>, t: string)
    requires |fields| == 1
    requires t == [] || t[0] == '\n'
    ensures ReadLine(Line(fields) + t) == (fields, t)
  {
    assert Line(fields) == EscapeText(fields[0]);
    ReadEscaped(fields[0], t);
    assert fields == [fields[0]];
  }

  /** One step of `ReadLineEscaped`: the first field, then the comma, then
      the line of the others as they read back. */
  lemma ReadLineCons(fields: seq<string>, t: string)
    requires |fields| >= 2
    requires t == [] || t[0] == '\n'
    requires ReadLine(Line(fields[1..]) + t) == (fields[1..], t)
    ensures ReadLine(Line(fields) + t) == (fields, t)
  {
    LineCons(fields);
    Reassociate(EscapeText(fields[0]), [','], Line(fields[1..]), t);
    ReadLineAfterField(fields[0], Line(fields[1..]) + t, fields[1..], t);
    assert fields == [fields[0]] + fields[1..];
  }

  /** An escaped field, a comma and a line that reads as `fs` read as the
      field followed by `fs`. */
  lemma ReadLineAfterField(f: string, rest: string, fs: seq<string>, t: string)
    requires ReadLine(rest) == (fs, t)
    ensures ReadLine(EscapeText(f) + ([','] + rest)) == ([f] + fs, t)
  {
    var after := [','] + rest;
    ReadEscaped(f, after);
    assert after[1..] == rest;
  }

  lemma Reassociate(a: string, b: string, c: string, d: string)
    ensures (a + (b + c)) + d == a + (b + (c + d))
  {
  }

  /** Lines written by `Line` and joined by line feeds read back as the lines. */
  lemma {:induction false} ReadDocumentLines(lines: seq<seq<string>>)
    requires |lines| >= 1
    requires forall i :: 0 <= i < |lines| ==> |lines[i]| >= 1
    ensures ReadDocument(JoinWith(seq(|lines|, i requires 0 <= i < |lines| => Line(lines[i])), '\n')) == lines
  {
    var texts := seq(|lines|, i requires 0 <= i < |lines| => Line(lines[i]));
    if |lines| == 1 {
      ReadLineEscaped(lines[0], "");
      assert Line(lines[0]) + "" == Line(lines[0]);
    } else {
      var rest := JoinWith(texts[1..], '\n');
      assert texts[1..] == seq(|lines[1..]|, i requires 0 <= i < |lines[1..]| => Line(lines[1..][i]));
      assert JoinWith(texts, '\n') == Line(lines[0]) + (['\n'] + rest);
      ReadLineEscaped(lines[0], ['\n'] + rest);
      assert (['\n'] + rest)[1..] == rest;
      ReadDocumentLines(lines[1..]);
      assert lines == [lines[0]] + lines[1..];
    }
  }

  /** An export that gets through reads back as the header titles followed
      by the texts of every submission's ten cells, one line per submission
      in stored order: quoting never loses or splits a field, whatever
      commas, quotes or line feeds the data holds. */
  lemma ExportReadsBack(subs: seq<Submission>)
    requires AllExportable(subs)
    ensures ReadDocument(BuildCsv(subs)) ==
      [Headers] + seq(|subs|, i requires 0 <= i < |subs| => CellTexts(subs[i]))
  {
    var lines := ExportLines(subs);
    BuildCsvLines(subs, lines);
    ReadDocumentLines(lines);
  }

  /** The lines of the export: the header and every submission's cell
      texts, none of them empty. */
  lemma ExportLines(subs: seq<Submission>) returns (lines: seq<seq<string>>)
    requires AllExportable(subs)
    ensures lines == [Headers] + seq(|subs|, i requires 0 <= i < |subs| => CellTexts(subs[i]))
    ensures |lines| >= 1 && forall i :: 0 <= i < |lines| ==> |lines[i]| >= 1
  {
    lines := [Headers] + seq(|subs|, i requires 0 <= i < |subs| => CellTexts(subs[i]));
  }

  /** The export is those lines, each written by `Line` and joined by line
      feeds. */
  lemma BuildCsvLines(subs: seq<Submission>, lines: seq<seq<string>>)
    requires AllExportable(subs)
    requires lines == [Headers] + seq(|subs|, i requires 0 <= i < |subs| => CellTexts(subs[i]))
    ensures BuildCsv(subs) == JoinWith(seq(|lines|, i requires 0 <= i < |lines| => Line(lines[i])), '\n')
  {
    var texts := seq(|lines|, i requires 0 <= i < |lines| => Line(lines[i]));
    assert texts == [Line(Headers)] + seq(|subs|, i requires 0 <= i < |subs| => Line(CellTexts(subs[i])));
  }
}
