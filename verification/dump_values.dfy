/** `extractValues` of the migration script and the two value-mapping rules
    it applies to the parsed fields. `extractValues` finds the first
    `INSERT INTO \`table\` (...) VALUES ...;` statement (the regular expression
    is case-insensitive), splits what lies between VALUES and the first `;` at
    every `),` + whitespace + `(`, and strips the outer parentheses of each
    piece. The split does not look at quotes. */
module DumpValues {
  import opened Http
  import opened Text
  import opened Schema
  import Evaluations
  import RowParser

  const VALUES_KEYWORD := ") VALUES"

  /** The literal start of the statement, up to the column list. */
  function InsertPrefix(table: string): string {
    "INSERT INTO `" + table + "` "
  }

  /** `word` occurs at position `i` of `s` under the `i` flag (ASCII letters). */
  predicate OccursAt(s: string, i: nat, word: string) {
    && i + |word| <= |s|
    && forall k :: 0 <= k < |word| ==> LowerChar(s[i + k]) == LowerChar(word[k])
  }

  /** The first position at or after `from` that holds `c`. */
  function IndexOf(s: string, c: char, from: nat): (r: Option<nat>)
    ensures r.Some? ==> from <= r.value < |s| && s[r.value] == c
    ensures r.Some? ==> forall k :: from <= k < r.value ==> s[k] != c
    ensures r.None? ==> forall k :: from <= k < |s| ==> s[k] != c
    decreases |s| - from
  {
    if from >= |s| then None
    else if s[from] == c then Some(from)
    else IndexOf(s, c, from + 1)
  }

  /** `\s*` from `from`: the first position at or after it that is not whitespace. */
  function SkipSpaces(s: string, from: nat): (r: nat)
    requires from <= |s|
    ensures from <= r <= |s|
    ensures forall k :: from <= k < r ==> IsSpace(s[k])
    ensures r == |s| || !IsSpace(s[r])
    decreases |s| - from
  {
    if from < |s| && IsSpace(s[from]) then SkipSpaces(s, from + 1) else from
  }

  /** The capture group of `INSERT INTO \`table\` [^)]*\) VALUES\s*([\s\S]*?);`
      when a match starts at `at`. `[^)]*\)` reaches the first `)`, which must
      be followed by " VALUES"; the lazy group ends at the first `;`. */
  function MatchAt(content: string, table: string, at: nat): (r: Option<string>)
    ensures r.Some? ==> OccursAt(content, at, InsertPrefix(table))
    ensures r.Some? ==> ';' !in r.value && (r.value == [] || !IsSpace(r.value[0]))
  {
    if !OccursAt(content, at, InsertPrefix(table)) then None
    else
      match IndexOf(content, ')', at + |InsertPrefix(table)|)
      case None => None
      case Some(close) =>
        if !OccursAt(content, close, VALUES_KEYWORD) then None
        else
          var start := SkipSpaces(content, close + |VALUES_KEYWORD|);
          match IndexOf(content, ';', start)
          case None => None
          case Some(semi) => Some(content[start..semi])
  }

  /** `content.match(regex)`: the leftmost match. */
  function FirstMatch(content: string, table: string, from: nat): (r: Option<string>)
    ensures r.None? <==> forall at :: from <= at < |content| ==> MatchAt(content, table, at).None?
    ensures r.Some? ==> ';' !in r.value
    decreases |content| - from
  {
    if from >= |content| then None
    else
      match MatchAt(content, table, from)
      case Some(group) => Some(group)
      case None => FirstMatch(content, table, from + 1)
  }

  /** No match starts in `[from, at)`. */
  predicate NoMatchBefore(content: string, table: string, from: nat, at: nat) {
    forall j :: from <= j < at ==> MatchAt(content, table, j).None?
  }

  /** The match found is the one that starts leftmost. */
  lemma {:induction false} FirstMatchIsLeftmost(content: string, table: string, from: nat)
    requires FirstMatch(content, table, from).Some?
    ensures exists at :: from <= at < |content| && NoMatchBefore(content, table, from, at)
                         && MatchAt(content, table, at) == FirstMatch(content, table, from)
    decreases |content| - from
  {
    if MatchAt(content, table, from).Some? {
      assert NoMatchBefore(content, table, from, from);
    } else {
      FirstMatchIsLeftmost(content, table, from + 1);
      var at :| from + 1 <= at < |content| && NoMatchBefore(content, table, from + 1, at)
                && MatchAt(content, table, at) == FirstMatch(content, table, from + 1);
      assert NoMatchBefore(content, table, from, at);
    }
  }

  /** `s[..n]` is a separator: `),` then only whitespace, then `(`. */
  predicate SeparatorOfLength(s: string, n: int) {
    && 3 <= n <= |s|
    && s[0] == ')' && s[1] == ',' && s[n - 1] == '('
    && forall k :: 2 <= k < n - 1 ==> IsSpace(s[k])
  }

  /** The length of a `\),\s*\(` match at the start of `s`, if there is one;
      there is at most one such length. */
  function SeparatorAt(s: string): (r: Option<nat>)
    ensures r.Some? ==> SeparatorOfLength(s, r.value)
    ensures forall n :: SeparatorOfLength(s, n) ==> r == Some(n)
  {
    if |s| >= 2 && s[0] == ')' && s[1] == ',' then
      var k := SkipSpaces(s, 2);
      assert !IsSpace('(');
      if k < |s| && s[k] == '(' then Some(k + 1) else None
    else None
  }

  /** `s.split(/\),\s*\(/g)`: scanning left to right, cut at every separator. */
  function SplitRows(s: string): (pieces: seq<string>)
    ensures |pieces| >= 1
    ensures forall i :: 0 <= i < |pieces| ==> forall c :: c in pieces[i] ==> c in s
    decreases |s|
  {
    if s == [] then [""]
    else
      match SeparatorAt(s)
      case Some(n) => [""] + SplitRows(s[n..])
      case None =>
        var rest := SplitRows(s[1..]);
        [[s[0]] + rest[0]] + rest[1..]
  }

  function StripAll(pieces: seq<string>): (r: seq<string>)
    ensures |r| == |pieces|
    ensures forall i :: 0 <= i < |r| ==> r[i] == StripEnds(pieces[i], '(', ')')
  {
    seq(|pieces|, i requires 0 <= i < |pieces| => StripEnds(pieces[i], '(', ')'))
  }

  /** `extractValues(table)` on the dump text `content`. */
  function ExtractValues(content: string, table: string): (rows: seq<string>)
    ensures rows == [] <==> FirstMatch(content, table, 0).None?
    ensures forall i :: 0 <= i < |rows| ==> ';' !in rows[i]
  {
    match FirstMatch(content, table, 0)
    case None => []
    case Some(group) =>
      RowsInsideGroup(group);
      StripAll(SplitRows(Trim(group)))
  }

  /** Every row is cut from the matched group, so none holds its `;`. */
  lemma RowsInsideGroup(group: string)
    requires ';' !in group
    ensures forall i :: 0 <= i < |StripAll(SplitRows(Trim(group)))| ==> ';' !in StripAll(SplitRows(Trim(group)))[i]
  {
    var pieces := SplitRows(Trim(group));
    forall i | 0 <= i < |pieces| ensures ';' !in StripEnds(pieces[i], '(', ')') {
      assert ';' !in pieces[i];
    }
  }

  // ---------------------------------------------------------------------------
  // Properties of extractValues

  /** The text of one tuple as the dump writes it between its parentheses:
      no `),` inside, and it neither starts with `(` nor ends with `)`. */
  predicate TupleText(r: string) {
    && (forall i :: 0 <= i < |r| - 1 ==> !(r[i] == ')' && r[i + 1] == ','))
    && (r == [] || (r[0] != '(' && r[|r| - 1] != ')'))
  }

  /** The tuples written out as `t1),(t2),( ... tn`. */
  function JoinRows(rows: seq<string>): string
    requires |rows| >= 1
  {
    if |rows| == 1 then rows[0] else rows[0] + "),(" + JoinRows(rows[1..])
  }

  /** The VALUES list as the dump writes it: `(t1),(t2),...,(tn)`. */
  function Tuples(rows: seq<string>): string
    requires |rows| >= 1
  {
    "(" + JoinRows(rows) + ")"
  }

  /** No separator can start inside `r` when `r` has no `),` and what follows
      it does not start with a comma. */
  lemma NoSeparatorInside(r: string, b: string)
    requires forall i :: 0 <= i < |r| - 1 ==> !(r[i] == ')' && r[i + 1] == ',')
    requires b == [] || b[0] != ','
    ensures forall i :: 0 <= i < |r| ==> SeparatorAt((r + b)[i..]).None?
  {
    forall i | 0 <= i < |r| ensures SeparatorAt((r + b)[i..]).None? {
      var x := (r + b)[i..];
      assert |x| >= 2 ==> x[0] == r[i] && x[1] == (if i + 1 < |r| then r[i + 1] else b[0]);
    }
  }

  /** Text in which no separator starts is glued onto the first piece. */
  lemma {:induction false} SplitRowsGlue(a: string, b: string)
    requires forall i :: 0 <= i < |a| ==> SeparatorAt((a + b)[i..]).None?
    ensures SplitRows(a + b) == [a + SplitRows(b)[0]] + SplitRows(b)[1..]
    decreases |a|
  {
    var parts := SplitRows(b);
    if a == [] {
      assert a + b == b && a + parts[0] == parts[0];
      assert parts == [parts[0]] + parts[1..];
    } else {
      DropFirst(a, b);
      forall i | 0 <= i < |a| - 1 ensures SeparatorAt((a[1..] + b)[i..]).None? {
        assert (a[1..] + b)[i..] == (a + b)[i + 1..];
      }
      SplitRowsGlue(a[1..], b);
      assert SeparatorAt(a + b).None? by {
        assert (a + b)[0..] == a + b;
      }
      var rest := SplitRows(a[1..] + b);
      assert SplitRows(a + b) == [[a[0]] + rest[0]] + rest[1..];
      DropFirst(a, parts[0]);
    }
  }

  /** Dropping the first element of a concatenation whose left part is not empty. */
  lemma DropFirst<T>(a: seq<T>, b: seq<T>)
    requires |a| >= 1
    ensures (a + b)[0] == a[0] && (a + b)[1..] == a[1..] + b
    ensures [a[0]] + (a[1..] + b) == a + b
  {
  }

  lemma LastTupleSplit(r: string)
    requires forall i :: 0 <= i < |r| - 1 ==> !(r[i] == ')' && r[i + 1] == ',')
    ensures SplitRows(r + ")") == [r + ")"]
  {
    NoSeparatorInside(r, ")");
    NoSeparatorTail(r + ")");
    SplitRowsGlue(r + ")", "");
    assert SplitRows("") == [""];
    assert (r + ")") + "" == r + ")";
  }

  /** A tuple followed by `),(` is one piece, and splitting goes on after the `(`. */
  lemma TupleThenSeparator(r: string, rest: string)
    requires forall i :: 0 <= i < |r| - 1 ==> !(r[i] == ')' && r[i + 1] == ',')
    ensures SplitRows(r + ("),(" + rest)) == [r] + SplitRows(rest)
  {
    var b := "),(" + rest;
    NoSeparatorInside(r, b);
    SplitRowsGlue(r, b);
    assert SeparatorAt(b) == Some(3) by {
      assert SkipSpaces(b, 2) == 2;
    }
    assert b[3..] == rest;
    assert SplitRows(b) == [""] + SplitRows(rest);
    assert r + "" == r;
  }

  /** The tuples with the closing parenthesis on the last one. */
  function Closed(rows: seq<string>): (r: seq<string>)
    requires |rows| >= 1
    ensures |r| == |rows|
  {
    seq(|rows|, i requires 0 <= i < |rows| => if i == |rows| - 1 then rows[i] + ")" else rows[i])
  }

  lemma ClosedCons(rows: seq<string>)
    requires |rows| >= 2
    ensures Closed(rows) == [rows[0]] + Closed(rows[1..])
  {
  }

  /** Splitting the joined tuples (with the closing parenthesis) gives the
      tuples back, the last one still carrying the parenthesis. */
  lemma {:induction false} SplitJoinedRows(rows: seq<string>)
    requires |rows| >= 1
    requires forall i :: 0 <= i < |rows| ==> TupleText(rows[i])
    ensures SplitRows(JoinRows(rows) + ")") == Closed(rows)
    decreases |rows|
  {
    var r := rows[0];
    assert TupleText(r);
    if |rows| == 1 {
      LastTupleSplit(r);
      assert JoinRows(rows) == r;
    } else {
      var rest := JoinRows(rows[1..]) + ")";
      assert JoinRows(rows) + ")" == r + ("),(" + rest);
      TupleThenSeparator(r, rest);
      forall i | 0 <= i < |rows| - 1 ensures TupleText(rows[1..][i]) {
        assert rows[1..][i] == rows[i + 1];
      }
      SplitJoinedRows(rows[1..]);
      ClosedCons(rows);
    }
  }

  /** A final `)` with nothing after it starts no separator. */
  lemma NoSeparatorTail(x: string)
    requires forall i :: 0 <= i < |x| - 1 ==> !(x[i] == ')' && x[i + 1] == ',')
    ensures forall i :: 0 <= i < |x| ==> SeparatorAt((x + "")[i..]).None?
  {
    NoSeparatorInside(x, "");
  }

  /** An opening parenthesis starts no separator and joins the first piece. */
  lemma OpenParenGlue(tail: string)
    ensures SplitRows("(" + tail) == ["(" + SplitRows(tail)[0]] + SplitRows(tail)[1..]
  {
    assert ("(" + tail)[0..] == "(" + tail;
    SplitRowsGlue("(", tail);
  }

  /** Stripping undoes the parentheses a tuple was written with. */
  lemma StripPiece(r: string, open: bool, close: bool)
    requires TupleText(r)
    ensures StripEnds((if open then "(" else "") + r + (if close then ")" else ""), '(', ')') == r
  {
    var head, tail := if open then "(" else "", if close then ")" else "";
    assert r == [] || (r[0] != '(' && r[|r| - 1] != ')');
    if open && close {
      StripBoth(r);
    } else if open {
      StripOpen(r);
    } else if close {
      StripClose(r);
    } else {
      assert head + r + tail == r;
    }
  }

  lemma StripBoth(r: string)
    ensures StripEnds("(" + r + ")", '(', ')') == r
  {
    var piece := "(" + r + ")";
    assert piece[1..|piece| - 1] == r;
  }

  lemma StripOpen(r: string)
    requires r == [] || r[|r| - 1] != ')'
    ensures StripEnds("(" + r + "", '(', ')') == r
  {
    var piece := "(" + r + "";
    assert piece[1..] == r;
  }

  lemma StripClose(r: string)
    requires r == [] || r[0] != '('
    ensures StripEnds("" + r + ")", '(', ')') == r
  {
    var piece := "" + r + ")";
    assert piece[..|piece| - 1] == r;
  }

  /** Splitting and stripping the written VALUES list gives back exactly the
      tuples that were written. */
  lemma RowsRoundTrip(rows: seq<string>)
    requires |rows| >= 1
    requires forall i :: 0 <= i < |rows| ==> TupleText(rows[i])
    ensures StripAll(SplitRows(Tuples(rows))) == rows
  {
    var tail := JoinRows(rows) + ")";
    SplitJoinedRows(rows);
    assert Tuples(rows) == "(" + tail;
    OpenParenGlue(tail);
    var closed := Closed(rows);
    var pieces := SplitRows(Tuples(rows));
    assert pieces == ["(" + closed[0]] + closed[1..];
    forall i | 0 <= i < |rows| ensures StripEnds(pieces[i], '(', ')') == rows[i] {
      var open := i == 0;
      var close := i == |rows| - 1;
      assert pieces[i] == (if open then "(" else "") + rows[i] + (if close then ")" else "");
      StripPiece(rows[i], open, close);
    }
  }

  /** Nothing to trim when a string neither starts nor ends with whitespace. */
  lemma TrimKeeps(s: string)
    requires s == [] || (!IsSpace(s[0]) && !IsSpace(s[|s| - 1]))
    ensures Trim(s) == s
  {
  }

  /** `IndexOf` finds the first occurrence. */
  lemma FirstOccurrence(s: string, c: char, from: nat, k: nat)
    requires from <= k < |s| && s[k] == c
    requires forall j :: from <= j < k ==> s[j] != c
    ensures IndexOf(s, c, from) == Some(k)
  {
  }

  /** A statement as the dump writes it: `INSERT INTO \`table\` (columns)`
      followed by ` VALUES values;`. */
  function Statement(table: string, columns: string, values: string): string {
    Head(table, columns) + Tail(values)
  }

  function Head(table: string, columns: string): string {
    InsertPrefix(table) + "(" + columns
  }

  function Tail(values: string): string {
    VALUES_KEYWORD + " " + values + ";"
  }

  /** The statement head matches the literal start, and its column list ends
      at the first `)` after it. */
  lemma HeadFacts(table: string, columns: string, tail: string)
    requires ')' !in columns
    requires |tail| > 0 && tail[0] == ')'
    ensures OccursAt(Head(table, columns) + tail, 0, InsertPrefix(table))
    ensures IndexOf(Head(table, columns) + tail, ')', |InsertPrefix(table)|) == Some(|Head(table, columns)|)
  {
    var prefix := InsertPrefix(table);
    var head := Head(table, columns);
    var content := head + tail;
    forall k | 0 <= k < |prefix| ensures content[k] == prefix[k] {
      assert content[k] == head[k];
    }
    forall j | |prefix| <= j < |head| ensures content[j] != ')' {
      assert content[j] == head[j];
      if j > |prefix| {
        assert head[j] == columns[j - |prefix| - 1];
      }
    }
    FirstOccurrence(content, ')', |prefix|, |head|);
  }

  /** After the head, " VALUES" follows, then the VALUES list up to the `;`. */
  lemma TailFacts(head: string, values: string)
    requires ';' !in values && |values| > 0 && values[0] == '('
    ensures var content := head + Tail(values);
      var start := |head| + |VALUES_KEYWORD| + 1;
      && OccursAt(content, |head|, VALUES_KEYWORD)
      && SkipSpaces(content, |head| + |VALUES_KEYWORD|) == start
      && IndexOf(content, ';', start) == Some(|content| - 1)
      && content[start..|content| - 1] == values
  {
    var content := head + Tail(values);
    var start := |head| + |VALUES_KEYWORD| + 1;
    var semi := |content| - 1;
    forall k | 0 <= k < |VALUES_KEYWORD| ensures content[|head| + k] == VALUES_KEYWORD[k] {
    }
    assert content[start] == values[0];
    assert SkipSpaces(content, start) == start;
    forall j | start <= j < semi ensures content[j] == values[j - start] {
    }
    FirstOccurrence(content, ';', start, semi);
    assert content[start..semi] == values;
  }

  /** The regular expression matches a statement written by the dump at its
      first character and captures exactly the VALUES list. */
  lemma StatementMatches(table: string, columns: string, values: string)
    requires ')' !in columns
    requires ';' !in values && |values| > 0 && values[0] == '('
    ensures MatchAt(Statement(table, columns, values), table, 0) == Some(values)
  {
    HeadFacts(table, columns, Tail(values));
    TailFacts(Head(table, columns), values);
  }

  /** A whole statement as the dump writes it: the tuples come back out, as
      long as the column list has no `)` and the tuples have no `;`. */
  lemma StatementRoundTrip(table: string, columns: string, rows: seq<string>)
    requires ')' !in columns
    requires |rows| >= 1
    requires forall i :: 0 <= i < |rows| ==> TupleText(rows[i])
    requires ';' !in Tuples(rows)
    ensures ExtractValues(Statement(table, columns, Tuples(rows)), table) == rows
  {
    var values := Tuples(rows);
    StatementMatches(table, columns, values);
    assert FirstMatch(Statement(table, columns, values), table, 0) == Some(values);
    TrimKeeps(values);
    RowsRoundTrip(rows);
  }

  /** The split does not look at quotes: a quoted value that contains `),(`
      is cut in two. */
  lemma SplitIgnoresQuotes()
    ensures SplitRows("'a),(b'") == ["'a", "b'"]
  {
    var s := "'a),(b'";
    var t := "b'";
    assert s[2..] == "),(" + t;
    assert SeparatorAt(s[2..]) == Some(3) by {
      assert SkipSpaces(s[2..], 2) == 2;
    }
    assert s[2..][3..] == t;
    assert SplitRows("") == [""];
    assert t + "" == t;
    NoSeparatorTail(t);
    SplitRowsGlue(t, "");
    assert t + SplitRows("")[0] == t;
    assert SplitRows(t) == [t];
    assert SplitRows(s[2..]) == ["", t];
    assert s == "'a" + s[2..];
    assert SeparatorAt(s[0..]).None? && SeparatorAt(s[1..]).None?;
    SplitRowsGlue("'a", s[2..]);
    assert "'a" + SplitRows(s[2..])[0] == "'a";
  }

  // ---------------------------------------------------------------------------
  // The value-mapping rules

  /** `vals[k]`, which is `undefined` past the end. */
  function At(vals: seq<string>, k: nat): Option<string> {
    if k < |vals| then Some(vals[k]) else None
  }

  /** `vals[5] === 'admin' ? 'admin' : 'user'`. */
  function RoleOf(field: Option<string>): (r: Role)
    ensures r == AdminRole <==> field.Some? && field.value == "admin"
  {
    if field == Some("admin") then AdminRole else UserRole
  }

  /** `vals[5] !== 'NULL' && vals[5] ? new Date(vals[5]) : null`; `parseDate`
      stands for `new Date`. */
  function DeadlineOf(field: Option<string>, parseDate: string -> Timestamp): (r: Option<Timestamp>)
    ensures r.None? <==> field.None? || field.value == "NULL" || field.value == ""
    ensures r.Some? ==> r.value == parseDate(field.value)
  {
    if field.Some? && field.value != "NULL" && field.value != "" then Some(parseDate(field.value)) else None
  }

  /** On a row without quotes or backslashes, the role is admin exactly when
      the sixth comma-separated piece, trimmed and unquoted, is `admin`. */
  lemma PlainRowRole(row: string)
    requires RowParser.Plain(row)
    ensures var pieces := Split(row, ',');
      (RoleOf(At(RowParser.Fields(row), 5)) == AdminRole) <==>
      (|pieces| > 5 && RowParser.Clean(pieces[5]) == "admin")
  {
    RowParser.PlainRowSplitsAtCommas(row);
  }

  /** On a row without quotes or backslashes, an evaluation has no deadline
      exactly when the row has fewer than six pieces or the sixth one cleans
      to `NULL` or to nothing. */
  lemma PlainRowDeadline(row: string, parseDate: string -> Timestamp)
    requires RowParser.Plain(row)
    ensures var pieces := Split(row, ',');
      DeadlineOf(At(RowParser.Fields(row), 5), parseDate).None? <==>
      (|pieces| <= 5 || RowParser.Clean(pieces[5]) == "NULL" || RowParser.Clean(pieces[5]) == "")
  {
    RowParser.PlainRowSplitsAtCommas(row);
  }

  /** Only the exact, case-sensitive field `admin` gives the admin role;
      anything else, a missing field included, gives `user`. */
  lemma RoleRule()
    ensures RoleOf(Some("admin")) == AdminRole
    ensures RoleOf(Some("Admin")) == UserRole && RoleOf(Some("ADMIN")) == UserRole
    ensures RoleOf(Some("user")) == UserRole && RoleOf(Some("NULL")) == UserRole && RoleOf(None) == UserRole
  {
  }

  /** A NULL, empty or missing `editable_until` is migrated as no deadline,
      and such a row can be updated at any time. */
  lemma NullDeadlineNeverLocks(field: Option<string>, parseDate: string -> Timestamp,
                               t: Evaluations.Table, id: nat,
                               body: Evaluations.UpdateBody, now: Timestamp)
    requires field.None? || field.value == "NULL" || field.value == ""
    requires id in t.rows && t.rows[id].editableUntil == DeadlineOf(field, parseDate)
    ensures DeadlineOf(field, parseDate).None?
    ensures !Evaluations.Locked(t.rows[id], now)
    ensures Evaluations.UpdateStep(t, id, body, now).1.Success?
  {
  }
}
