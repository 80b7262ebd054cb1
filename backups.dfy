/**
 * Backup naming and retention of server.js: `getBackupTimestamp`, the file
 * name `createBackup` gives a copy, and which names `pruneBackups` deletes so
 * that the 30 backups with the largest names remain. A name is written from
 * the local calendar fields, so name order is local wall-clock order, which
 * can differ from the order in which the backups were taken.
 */
module Backups {
  import opened Text
  import opened Json
  import opened Sorting

  /** The local calendar fields of a JavaScript `Date`: `getFullYear()`,
      `getMonth()` (0 to 11), `getDate()`, `getHours()`, `getMinutes()` and
      `getSeconds()`. */
  datatype DateTime = DateTime(year: int, monthIndex: int, day: int, hours: int, minutes: int, seconds: int)

  /** A date of a four-digit year with every field in its calendar range. */
  predicate ValidDate(d: DateTime) {
    && 1000 <= d.year <= 9999 && 0 <= d.monthIndex < 12 && 1 <= d.day <= 31
    && 0 <= d.hours < 24 && 0 <= d.minutes < 60 && 0 <= d.seconds < 60
  }

  /** The six fields as `getBackupTimestamp` writes them: the year as it is,
      the month counted from 1, every field after the year padded to two digits. */
  function Fields(d: DateTime): (f: seq<string>)
    ensures |f| == 6
  {
    [DecimalString(d.year), Pad2(d.monthIndex + 1), Pad2(d.day),
     Pad2(d.hours), Pad2(d.minutes), Pad2(d.seconds)]
  }

  /** `getBackupTimestamp(date)`: `YYYY-MM-DD-HH-MM-SS`. */
  function BackupTimestamp(d: DateTime): string {
    JoinWith(Fields(d), '-')
  }

  const Prefix := "submissions-"
  const Suffix := ".json"

  /** The file name `createBackup` writes. */
  function BackupName(d: DateTime): string {
    Prefix + (BackupTimestamp(d) + Suffix)
  }

  /** `name.startsWith('submissions-') && name.endsWith('.json')` */
  predicate IsBackupName(name: string) {
    Prefix <= name && |name| >= |Suffix| && name[|name| - |Suffix|..] == Suffix
  }

  predicate AllDigits(s: string) {
    forall i :: 0 <= i < |s| ==> IsDigit(s[i])
  }

  /** Reads a timestamp back: six dash-separated digit fields, a four-digit
      year and two-digit others. */
  function ParseTimestamp(s: string): Option<DateTime> {
    var f := Split(s, '-');
    if |f| == 6 && |f[0]| == 4 && (forall i :: 1 <= i < 6 ==> |f[i]| == 2)
      && (forall i :: 0 <= i < 6 ==> AllDigits(f[i]))
    then Some(DateTime(DigitsValue(f[0]), DigitsValue(f[1]) - 1, DigitsValue(f[2]),
      DigitsValue(f[3]), DigitsValue(f[4]), DigitsValue(f[5])))
    else None
  }

  lemma FourDigits(n: nat)
    requires 1000 <= n <= 9999
    ensures |Digits(n)| == 4
  {
    var a := n / 10;
    var b := a / 10;
    var c := b / 10;
    assert 100 <= a <= 999 && 10 <= b <= 99 && 1 <= c <= 9;
    assert |Digits(b)| == |Digits(c)| + 1;
    assert |Digits(a)| == |Digits(b)| + 1;
  }

  /** Joining pieces that do not contain the separator and splitting again
      gives the pieces back. */
  lemma {:induction false} JoinSplit(parts: seq<string>, sep: char)
    requires |parts| >= 1
    requires forall i :: 0 <= i < |parts| ==> sep !in parts[i]
    ensures Split(JoinWith(parts, sep), sep) == parts
  {
    if |parts| > 1 {
      JoinSplit(parts[1..], sep);
      SplitAfterSep(parts[0], sep, JoinWith(parts[1..], sep));
    } else {
      SplitJoin(parts[0], sep);
      assert Split(parts[0], sep) == [parts[0]];
    }
  }

  lemma TwoDigitField(n: int)
    requires 0 <= n < 100
    ensures |Pad2(n)| == 2 && AllDigits(Pad2(n)) && DigitsValue(Pad2(n)) == n
  {
    Pad2Digits(n);
  }

  lemma YearField(n: int)
    requires 1000 <= n <= 9999
    ensures |DecimalString(n)| == 4 && AllDigits(DecimalString(n)) && DigitsValue(DecimalString(n)) == n
  {
    FourDigits(n);
    DigitsRoundTrip(n);
  }

  /** The fields of a valid date are digits of the widths the format fixes,
      and they read back as the date's numbers. */
  lemma FieldsDigits(d: DateTime)
    requires ValidDate(d)
    ensures var f := Fields(d);
      forall k :: 0 <= k < 6 ==>
        |f[k]| == (if k == 0 then 4 else 2) && AllDigits(f[k]) && DigitsValue(f[k]) == Key(d)[k]
  {
    forall k | 0 <= k < 6
      ensures var f := Fields(d);
        |f[k]| == (if k == 0 then 4 else 2) && AllDigits(f[k]) && DigitsValue(f[k]) == Key(d)[k]
    {
      FieldAt(d, k);
    }
  }

  /** Field `k` of a valid date: its width, its digits and its number. */
  lemma FieldAt(d: DateTime, k: nat)
    requires ValidDate(d) && k < 6
    ensures var f := Fields(d)[k];
      |f| == (if k == 0 then 4 else 2) && AllDigits(f) && DigitsValue(f) == Key(d)[k]
  {
    if k == 0 {
      YearField(d.year);
    } else if k == 1 {
      TwoDigitField(d.monthIndex + 1);
    } else if k == 2 {
      TwoDigitField(d.day);
    } else if k == 3 {
      TwoDigitField(d.hours);
    } else if k == 4 {
      TwoDigitField(d.minutes);
    } else {
      TwoDigitField(d.seconds);
    }
  }

  /** A timestamp of a valid date reads back as that date, so distinct dates
      get distinct backup names. */
  lemma TimestampRoundTrip(d: DateTime)
    requires ValidDate(d)
    ensures ParseTimestamp(BackupTimestamp(d)) == Some(d)
  {
    var f := Fields(d);
    FieldsDigits(d);
    forall i | 0 <= i < 6 ensures '-' !in f[i] {
      forall k | 0 <= k < |f[i]| ensures f[i][k] != '-' {
        assert IsDigit(f[i][k]);
      }
    }
    JoinSplit(f, '-');
    ParseFields(BackupTimestamp(d), d);
  }

  /** A text whose dash-separated parts are the digit fields of `d` reads as `d`. */
  lemma ParseFields(s: string, d: DateTime)
    requires var f := Split(s, '-'); |f| == 6 && forall k :: 0 <= k < 6 ==>
      |f[k]| == (if k == 0 then 4 else 2) && AllDigits(f[k]) && DigitsValue(f[k]) == Key(d)[k]
    ensures ParseTimestamp(s) == Some(d)
  {
    var f := Split(s, '-');
    assert |f[0]| == 4 && AllDigits(f[0]) && DigitsValue(f[0]) == d.year;
    assert |f[1]| == 2 && AllDigits(f[1]) && DigitsValue(f[1]) == d.monthIndex + 1;
    assert |f[2]| == 2 && AllDigits(f[2]) && DigitsValue(f[2]) == d.day;
    assert |f[3]| == 2 && AllDigits(f[3]) && DigitsValue(f[3]) == d.hours;
    assert |f[4]| == 2 && AllDigits(f[4]) && DigitsValue(f[4]) == d.minutes;
    assert |f[5]| == 2 && AllDigits(f[5]) && DigitsValue(f[5]) == d.seconds;
  }

  // --------------------------------------------- names sort by date

  /** Lexicographic order on number sequences. */
  predicate NumsLe(u: seq<int>, v: seq<int>) {
    u == [] || (v != [] && (u[0] < v[0] || (u[0] == v[0] && NumsLe(u[1..], v[1..]))))
  }

  /** The fields of a date from the most significant down, the month
      counted from 1. */
  function Key(d: DateTime): (k: seq<int>)
    ensures |k| == 6
  {
    [d.year, d.monthIndex + 1, d.day, d.hours, d.minutes, d.seconds]
  }

  /** `a` is not later than `b` as local date-times, field by field from
      the year down. */
  predicate NotAfter(a: DateTime, b: DateTime) {
    NumsLe(Key(a), Key(b))
  }

  /** The numbers a sequence of digit strings denotes. */
  function Values(p: seq<string>): (v: seq<int>)
    requires forall i :: 0 <= i < |p| ==> AllDigits(p[i])
    ensures |v| == |p|
  {
    if p == [] then []
    else
      assert forall i :: 0 <= i < |p| - 1 ==> p[1..][i] == p[i + 1];
      assert AllDigits(p[0]);
      [DigitsValue(p[0]) as int] + Values(p[1..])
  }

  /** Digit strings of one length compare as their numbers do. */
  lemma {:induction false} DigitStringOrder(s: string, t: string)
    requires |s| == |t| && AllDigits(s) && AllDigits(t)
    ensures LexLe(s, t) <==> DigitsValue(s) <= DigitsValue(t)
    ensures s == t <==> DigitsValue(s) == DigitsValue(t)
  {
    if s != [] {
      var s', t' := s[..|s| - 1], t[..|t| - 1];
      var x, y := s[|s| - 1], t[|t| - 1];
      DigitStringOrder(s', t');
      assert s == s' + [x] && t == t' + [y];
      LexLeConcat(s', t', [x], [y]);
      if s' != t' {
        assert DigitsValue(s') != DigitsValue(t');
      } else {
        assert DigitsValue(s') == DigitsValue(t');
      }
    }
  }

  lemma {:induction false} LexLeRefl(s: string)
    ensures LexLe(s, s)
  {
    if s != [] {
      LexLeRefl(s[1..]);
    }
  }

  lemma {:induction false} NumsLeRefl(u: seq<int>)
    ensures NumsLe(u, u)
  {
    if u != [] {
      NumsLeRefl(u[1..]);
    }
  }

  /** Joined pieces of pairwise equal widths, each followed by more text:
      the first piece whose number differs decides, and the text behind
      decides only when all pieces agree. */
  lemma {:induction false} JoinOrder(p: seq<string>, q: seq<string>, x: string, y: string)
    requires |p| == |q| >= 1
    requires forall i :: 0 <= i < |p| ==> |p[i]| == |q[i]| && AllDigits(p[i]) && AllDigits(q[i])
    ensures LexLe(JoinWith(p, '-') + x, JoinWith(q, '-') + y) <==>
      if Values(p) == Values(q) then LexLe(x, y) else NumsLe(Values(p), Values(q))
  {
    DigitStringOrder(p[0], q[0]);
    if |p| == 1 {
      LexLeConcat(p[0], q[0], x, y);
      assert Values(p) == [DigitsValue(p[0]) as int] && Values(q) == [DigitsValue(q[0]) as int];
      assert NumsLe(Values(p)[1..], Values(q)[1..]);
    } else {
      var jx, jy := JoinWith(p[1..], '-') + x, JoinWith(q[1..], '-') + y;
      JoinOrder(p[1..], q[1..], x, y);
      assert JoinWith(p, '-') + x == p[0] + (['-'] + jx);
      assert JoinWith(q, '-') + y == q[0] + (['-'] + jy);
      LexLeConcat(p[0], q[0], ['-'] + jx, ['-'] + jy);
      LexLeConcat(['-'], ['-'], jx, jy);
      assert Values(p)[1..] == Values(p[1..]) && Values(q)[1..] == Values(q[1..]);
      NumsLeRefl(Values(p[1..]));
    }
  }

  /** Zero padding makes the default string order of backup names the
      order of their local date-times, so sorting the names puts the
      earliest local date-times first. */
  lemma BackupNameOrder(a: DateTime, b: DateTime)
    requires ValidDate(a) && ValidDate(b)
    ensures LexLe(BackupName(a), BackupName(b)) <==> NotAfter(a, b)
  {
    TimestampOrder(a, b);
    LexLeConcat(Prefix, Prefix, BackupTimestamp(a) + Suffix, BackupTimestamp(b) + Suffix);
  }

  lemma TimestampOrder(a: DateTime, b: DateTime)
    requires ValidDate(a) && ValidDate(b)
    ensures LexLe(BackupTimestamp(a) + Suffix, BackupTimestamp(b) + Suffix) <==> NotAfter(a, b)
  {
    ValuesKey(a);
    ValuesKey(b);
    FieldsDigits(a);
    FieldsDigits(b);
    JoinOrder(Fields(a), Fields(b), Suffix, Suffix);
    LexLeRefl(Suffix);
    NumsLeRefl(Key(a));
  }

  /** The numbers the fields of a valid date denote are its key. */
  lemma ValuesKey(d: DateTime)
    requires ValidDate(d)
    ensures forall i :: 0 <= i < 6 ==> AllDigits(Fields(d)[i])
    ensures Values(Fields(d)) == Key(d)
  {
    var f := Fields(d);
    FieldsDigits(d);
    forall i | 0 <= i < 6 ensures Values(f)[i] == DigitsValue(f[i]) {
      ValuesAt(f, i);
    }
  }

  lemma {:induction false} ValuesAt(p: seq<string>, i: nat)
    requires forall k :: 0 <= k < |p| ==> AllDigits(p[k])
    requires i < |p|
    ensures Values(p)[i] == DigitsValue(p[i])
  {
    if i > 0 {
      ValuesAt(p[1..], i - 1);
    }
  }

  // ----------------------------------------------------- retention

  /** How many backups `pruneBackups` keeps. */
  const Retained := 30

  /** No name is listed twice, as in a directory listing. */
  ghost predicate Distinct(s: seq<string>) {
    forall x :: multiset(s)[x] <= 1
  }

  /** `.filter(name => name.startsWith('submissions-') && name.endsWith('.json'))` */
  function BackupFiles(files: seq<string>): (r: seq<string>)
    ensures multiset(r) <= multiset(files)
    ensures forall x :: x in r <==> x in files && IsBackupName(x)
  {
    if files == [] then []
    else
      var rest := BackupFiles(files[1..]);
      assert files == [files[0]] + files[1..];
      if IsBackupName(files[0]) then [files[0]] + rest else rest
  }

  /** The listing without the names in `gone`, order kept. */
  function Without(files: seq<string>, gone: seq<string>): (r: seq<string>)
    ensures multiset(r) <= multiset(files)
    ensures forall x :: x in r <==> x in files && x !in gone
  {
    if files == [] then []
    else
      var rest := Without(files[1..], gone);
      assert files == [files[0]] + files[1..];
      if files[0] in gone then rest else [files[0]] + rest
  }

  /** Deleting one more name extends the set of deleted names. */
  lemma {:induction false} WithoutOneMore(files: seq<string>, gone: seq<string>, name: string)
    ensures Without(Without(files, gone), [name]) == Without(files, gone + [name])
  {
    if files != [] {
      WithoutOneMore(files[1..], gone, name);
    }
  }

  /** Deleting the next name of `order` extends the deleted prefix by one. */
  lemma DeleteNext(files: seq<string>, order: seq<string>, i: nat)
    requires i < |order|
    ensures Without(Without(files, order[..i]), [order[i]]) == Without(files, order[..i + 1])
  {
    WithoutOneMore(files, order[..i], order[i]);
    assert order[..i] + [order[i]] == order[..i + 1];
  }

  /** The string order as the comparator of `Array.prototype.sort`. */
  function ByName(): (string, string) -> bool {
    (a: string, b: string) => LexLe(a, b)
  }

  lemma ByNameTotalPreorder()
    ensures TotalPreorder(ByName())
  {
    forall a, b ensures LexLe(a, b) || LexLe(b, a) {
      LexLeTotal(a, b);
    }
    forall a, b, c | LexLe(a, b) && LexLe(b, c) ensures LexLe(a, c) {
      LexLeTrans(a, b, c);
    }
  }

  /** The names `pruneBackups` deletes: the backups in sorted order, all but
      the last 30. */
  function PruneSelection(files: seq<string>): seq<string> {
    var sorted := Sort(BackupFiles(files), ByName());
    if |sorted| <= Retained then [] else sorted[..|sorted| - Retained]
  }

  lemma {:induction false} DistinctCard(s: seq<string>)
    requires Distinct(s)
    ensures |set x | x in s| == |s|
  {
    if s != [] {
      var s' := s[..|s| - 1];
      var x := s[|s| - 1];
      assert s == s' + [x];
      assert multiset(s) == multiset(s') + multiset{x};
      assert Distinct(s') by {
        forall y ensures multiset(s')[y] <= 1 {
          assert multiset(s')[y] <= multiset(s)[y];
        }
      }
      DistinctCard(s');
      assert multiset(s)[x] == multiset(s')[x] + 1;
      assert x !in multiset(s');
      assert (set y | y in s) == (set y | y in s') + {x};
    }
  }

  lemma DistinctSub(a: seq<string>, b: seq<string>)
    requires Distinct(b) && multiset(a) <= multiset(b)
    ensures Distinct(a)
  {
    forall x ensures multiset(a)[x] <= 1 {
      assert multiset(a)[x] <= multiset(b)[x];
    }
  }

  lemma DistinctAt(s: seq<string>, i: nat, j: nat)
    requires Distinct(s) && i < j < |s|
    ensures s[i] != s[j]
  {
    var x := s[j];
    assert s == s[..j] + [x] + s[j + 1..];
    assert s[..j][i] == s[i];
    assert s[i] in multiset(s[..j]);
    assert multiset(s)[s[i]] == multiset(s[..j])[s[i]] + multiset([x])[s[i]] + multiset(s[j + 1..])[s[i]];
  }

  /** The facts about the sorted backup names every retention lemma uses:
      `sorted` is the backups in sorted order and `pruneBackups` deletes its
      first `e` names. */
  lemma PruneFacts(files: seq<string>) returns (sorted: seq<string>, e: nat)
    requires Distinct(files)
    ensures Distinct(sorted) && Sorted(sorted, ByName())
    ensures forall x :: x in sorted <==> x in files && IsBackupName(x)
    ensures |sorted| == |BackupFiles(files)|
    ensures e == if |sorted| <= Retained then 0 else |sorted| - Retained
    ensures PruneSelection(files) == sorted[..e]
  {
    var matching := BackupFiles(files);
    sorted := Sort(matching, ByName());
    e := if |sorted| <= Retained then 0 else |sorted| - Retained;
    ByNameTotalPreorder();
    SortSorted(matching, ByName());
    DistinctSub(matching, files);
    DistinctSub(sorted, matching);
    forall x ensures x in sorted <==> x in matching {
      assert x in sorted <==> x in multiset(sorted);
      assert x in matching <==> x in multiset(matching);
    }
    assert |sorted| == |multiset(sorted)| == |multiset(matching)| == |matching|;
  }

  /** `pruneBackups` deletes only backup files, and every other file of the
      directory stays. */
  lemma PruneOnlyBackups(files: seq<string>)
    requires Distinct(files)
    ensures var gone := PruneSelection(files); var kept := Without(files, gone);
      && (forall f :: f in files && !IsBackupName(f) ==> f in kept)
      && (forall d :: d in gone ==> d in files && IsBackupName(d))
  {
    var sorted, e := PruneFacts(files);
  }

  /** In a sorted listing without repeats, a name in the first `e` sorts
      strictly before a name outside them. */
  lemma SortedSplit(sorted: seq<string>, e: nat, d: string, k: string)
    requires Distinct(sorted) && Sorted(sorted, ByName()) && e <= |sorted|
    requires d in sorted[..e] && k in sorted && k !in sorted[..e]
    ensures LexLe(d, k) && d != k
  {
    var i :| 0 <= i < e && sorted[..e][i] == d;
    var j :| 0 <= j < |sorted| && sorted[j] == k;
    assert forall t :: 0 <= t < e ==> sorted[..e][t] == sorted[t];
    DistinctAt(sorted, i, j);
    assert ByName()(sorted[i], sorted[j]);
  }

  /** Every deleted backup sorts strictly before every backup that remains. */
  lemma PruneOldestFirst(files: seq<string>)
    requires Distinct(files)
    ensures var gone := PruneSelection(files); var kept := Without(files, gone);
      forall d, k :: d in gone && k in kept && IsBackupName(k) ==> LexLe(d, k) && d != k
  {
    var sorted, e := PruneFacts(files);
    var gone := PruneSelection(files);
    var kept := Without(files, gone);
    forall d, k | d in gone && k in kept && IsBackupName(k) ensures LexLe(d, k) && d != k {
      SortedSplit(sorted, e, d, k);
    }
  }

  lemma LexLeBothWays(a: string, b: string)
    ensures LexLe(a, b) && LexLe(b, a) ==> a == b
  {
    if LexLe(a, b) && LexLe(b, a) {
      LexLeAntisym(a, b);
    }
  }

  /** A name that sorts at or after a backup that remains also remains. */
  lemma KeptAbove(files: seq<string>, k: string, x: string)
    requires Distinct(files)
    requires k in Without(files, PruneSelection(files)) && IsBackupName(k)
    requires x in files && LexLe(k, x)
    ensures x in Without(files, PruneSelection(files))
  {
    PruneOldestFirst(files);
    assert x in PruneSelection(files) ==> LexLe(x, k) && x != k;
    LexLeBothWays(k, x);
  }

  /** Taking the first `e` names out of a listing without repeats leaves
      exactly the others. */
  lemma CountRest(sorted: seq<string>, e: nat, left: seq<string>)
    requires Distinct(sorted) && Distinct(left) && e <= |sorted|
    requires forall x :: x in left <==> x in sorted && x !in sorted[..e]
    ensures |left| == |sorted| - e
  {
    var newest := sorted[e..];
    assert sorted == sorted[..e] + newest;
    assert multiset(sorted) == multiset(sorted[..e]) + multiset(newest);
    DistinctSub(newest, sorted);
    DistinctCard(newest);
    DistinctCard(left);
    forall x ensures x in left <==> x in newest {
      if x in newest {
        var j :| 0 <= j < |newest| && newest[j] == x;
        forall i | 0 <= i < e ensures sorted[..e][i] != x {
          DistinctAt(sorted, i, e + j);
        }
      }
    }
    assert (set x | x in left) == (set x | x in newest);
  }

  /** The backups left after deleting `gone` are the sorted backups not in `gone`. */
  lemma RemainingBackups(files: seq<string>, sorted: seq<string>, gone: seq<string>, left: seq<string>)
    requires forall x :: x in sorted <==> x in files && IsBackupName(x)
    requires left == BackupFiles(Without(files, gone))
    ensures forall x :: x in left <==> x in sorted && x !in gone
  {
    forall x ensures x in left <==> x in sorted && x !in gone {
      assert x in left <==> x in Without(files, gone) && IsBackupName(x);
    }
  }

  /** When there were more than 30 backups exactly 30 remain, otherwise all
      of them do. */
  lemma PruneCount(files: seq<string>)
    requires Distinct(files)
    ensures |BackupFiles(Without(files, PruneSelection(files)))| ==
      if |BackupFiles(files)| <= Retained then |BackupFiles(files)| else Retained
  {
    var sorted, e := PruneFacts(files);
    KeepCount(files, sorted, e, PruneSelection(files));
  }

  /** Deleting the first `e` of the sorted backups leaves the others. */
  lemma KeepCount(files: seq<string>, sorted: seq<string>, e: nat, gone: seq<string>)
    requires Distinct(files) && Distinct(sorted) && e <= |sorted| && gone == sorted[..e]
    requires forall x :: x in sorted <==> x in files && IsBackupName(x)
    ensures |BackupFiles(Without(files, gone))| == |sorted| - e
  {
    var kept := Without(files, gone);
    var left := BackupFiles(kept);
    DistinctSub(kept, files);
    DistinctSub(left, kept);
    RemainingBackups(files, sorted, gone, left);
    CountRest(sorted, e, left);
  }
}
