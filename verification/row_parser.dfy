/** `parseRow` of the migration script: splits one parenthesised tuple of a
    MySQL dump into its fields. A character-level state machine: a backslash
    makes the next character literal and is dropped, a single quote toggles
    quoting and is dropped, a comma outside quotes ends a field, and every
    field is trimmed and loses one leading and one trailing quote. */
module RowParser {
  import opened Text

  /** `current.trim().replace(/^'|'$/g, '')`: the form every field is emitted in. */
  function Clean(s: string): (r: string)
    ensures |r| <= |s|
    ensures forall c :: c in r ==> c in s
    ensures Trim(s) == s && (s == [] || (s[0] != '\'' && s[|s| - 1] != '\'')) ==> r == s
    ensures r == StripEnds(Trim(s), '\'', '\'')
  {
    StripEnds(Trim(s), '\'', '\'')
  }

  /** The loop variables of `parseRow`. */
  datatype Scan = Scan(fields: seq<string>, current: string, inQuotes: bool, escape: bool)

  const START := Scan([], "", false, false)

  /** One iteration of the loop. Closed fields are never rewritten, at most
      one is added, and a character after a backslash is taken as it is. */
  function Step(s: Scan, c: char): (r: Scan)
    ensures |s.fields| <= |r.fields| <= |s.fields| + 1 && r.fields[..|s.fields|] == s.fields
    ensures s.escape ==> r.current == s.current + [c] && !r.escape && r.inQuotes == s.inQuotes
  {
    if s.escape then s.(current := s.current + [c], escape := false)
    else if c == '\\' then s.(escape := true)
    else if c == '\'' then s.(inQuotes := !s.inQuotes)
    else if c == ',' && !s.inQuotes then s.(fields := s.fields + [Clean(s.current)], current := "")
    else s.(current := s.current + [c])
  }

  /** The state after the loop has consumed `text`: the fields closed before
      are kept, and at most one field is closed per character. */
  function Feed(s: Scan, text: string): (r: Scan)
    ensures |s.fields| <= |r.fields| <= |s.fields| + |text|
    ensures r.fields[..|s.fields|] == s.fields
    decreases |text|
  {
    if text == [] then s else Step(Feed(s, text[..|text| - 1]), text[|text| - 1])
  }

  /** What `parseRow(row)` returns: the fields closed by commas, then the last one. */
  function Fields(row: string): (r: seq<string>)
    ensures 1 <= |r| <= |row| + 1
  {
    var s := Feed(START, row);
    s.fields + [Clean(s.current)]
  }

  /** `parseRow`, as the loop it is. */
  method ParseRow(row: string) returns (result: seq<string>)
    ensures result == Fields(row)
  {
    result := [];
    var current := "";
    var inQuotes := false;
    var escape := false;
    for i := 0 to |row|
      invariant Scan(result, current, inQuotes, escape) == Feed(START, row[..i])
    {
      assert row[..i + 1][..i] == row[..i];
      var c := row[i];
      if escape {
        current := current + [c];
        escape := false;
      } else if c == '\\' {
        escape := true;
      } else if c == '\'' {
        inQuotes := !inQuotes;
      } else if c == ',' && !inQuotes {
        result := result + [Clean(current)];
        current := "";
      } else {
        current := current + [c];
      }
    }
    assert row[..|row|] == row;
    result := result + [Clean(current)];
  }

  // ---------------------------------------------------------------------------
  // Properties

  /** Feeding two pieces one after the other is feeding their concatenation. */
  lemma {:induction false} FeedConcat(s: Scan, a: string, b: string)
    ensures Feed(s, a + b) == Feed(Feed(s, a), b)
    decreases |b|
  {
    if b == [] {
      assert a + b == a;
    } else {
      var b' := b[..|b| - 1];
      assert (a + b)[..|a + b| - 1] == a + b';
      FeedConcat(s, a, b');
    }
  }

  /** A backslash makes the next character literal, whatever it is (a quote,
      a comma, a backslash), and is itself dropped. */
  lemma EscapeTakesNextLiterally(s: Scan, c: char)
    requires !s.escape
    ensures Feed(s, ['\\', c]) == s.(current := s.current + [c])
  {
    assert ['\\', c][..1] == ['\\'];
    assert ['\\'][..0] == [];
  }

  /** A lone backslash at the end of the row contributes nothing. */
  lemma TrailingBackslashDropped(row: string)
    requires !Feed(START, row).escape
    ensures Fields(row + ['\\']) == Fields(row)
  {
    assert (row + ['\\'])[..|row|] == row;
  }

  /** Plain text inside quotes goes to the current field unchanged, commas
      included. */
  lemma {:induction false} QuotedTextKept(s: Scan, x: string)
    requires s.inQuotes && !s.escape
    requires Plain(x)
    ensures Feed(s, x) == s.(current := s.current + x)
    decreases |x|
  {
    if x != [] {
      var x' := x[..|x| - 1];
      assert forall c :: c in x' ==> c in x;
      assert x[|x| - 1] in x;
      QuotedTextKept(s, x');
      assert s.current + x' + [x[|x| - 1]] == s.current + x;
    }
  }

  /** A quoted run `'x'` contributes exactly `x` to the field, its commas
      kept and its two quotes dropped, and leaves quoting as it was. */
  lemma QuotedRun(s: Scan, x: string)
    requires !s.inQuotes && !s.escape
    requires Plain(x)
    ensures Feed(s, "'" + x + "'") == s.(current := s.current + x)
  {
    FeedConcat(s, "'" + x, "'");
    FeedConcat(s, "'", x);
    assert ("'")[..0] == [];
    QuotedTextKept(s.(inQuotes := true), x);
    assert ("'")[..0] == [];
  }

  /** Neither a quote nor a backslash occurs in `text`. */
  predicate Plain(text: string) {
    forall c :: c in text ==> c != '\'' && c != '\\'
  }

  /** Without quotes and backslashes, a row is split at every comma and each
      piece is cleaned: the scanner agrees with `split(',')`. */
  lemma PlainRowSplitsAtCommas(row: string)
    requires Plain(row)
    ensures Fields(row) == CleanAll(Split(row, ','))
  {
    PlainFeed(row);
    var p := Split(row, ',');
    var front, last := p[..|p| - 1], p[|p| - 1];
    var s := Feed(START, row);
    assert s.fields == CleanAll(front) && s.current == last;
    assert Fields(row) == s.fields + [Clean(s.current)];
    CleanAllAppend(front, last);
    ButLastAndLast(p);
  }

  /** The scanner state on plain text: the closed fields are the cleaned
      pieces before the last comma, the current field is the last piece. */
  predicate PlainState(row: string) {
    var p := Split(row, ',');
    Feed(START, row) == Scan(CleanAll(p[..|p| - 1]), p[|p| - 1], false, false)
  }

  lemma {:induction false} PlainFeed(row: string)
    requires Plain(row)
    ensures PlainState(row)
    decreases |row|
  {
    if row != [] {
      var prefix := row[..|row| - 1];
      var c := row[|row| - 1];
      assert Plain(prefix) && c != '\'' && c != '\\' by {
        assert forall x :: x in prefix ==> x in row;
        assert c in row;
      }
      PlainFeed(prefix);
      PlainStep(row);
    }
  }

  /** One plain character keeps the scanner state in step with `split`. */
  lemma PlainStep(row: string)
    requires row != [] && row[|row| - 1] != '\'' && row[|row| - 1] != '\\'
    requires PlainState(row[..|row| - 1])
    ensures PlainState(row)
  {
    var prefix := row[..|row| - 1];
    var c := row[|row| - 1];
    ButLastAndLast(row);
    var p := Split(prefix, ',');
    var n := |p|;
    assert Feed(START, prefix) == Scan(CleanAll(p[..n - 1]), p[n - 1], false, false);
    SplitSnoc(prefix, c, ',');
    if c == ',' {
      assert Feed(START, row) == Scan(CleanAll(p[..n - 1]) + [Clean(p[n - 1])], "", false, false);
      assert Split(row, ',') == p + [""];
      CommaClosesPiece(p);
    } else {
      assert Feed(START, row) == Scan(CleanAll(p[..n - 1]), p[n - 1] + [c], false, false);
      assert Split(row, ',') == p[..n - 1] + [p[n - 1] + [c]];
      FrontUnchanged(p, p[n - 1] + [c]);
    }
  }

  /** Replacing the last element leaves the front alone. */
  lemma FrontUnchanged<T>(p: seq<T>, x: T)
    requires |p| >= 1
    ensures var q := p[..|p| - 1] + [x]; q[..|q| - 1] == p[..|p| - 1] && q[|q| - 1] == x
  {
  }

  lemma CommaClosesPiece(p: seq<string>)
    requires |p| >= 1
    ensures var q := p + [""];
      CleanAll(q[..|q| - 1]) == CleanAll(p[..|p| - 1]) + [Clean(p[|p| - 1])] && q[|q| - 1] == ""
  {
    AppendFront(p, "");
    ButLastAndLast(p);
    CleanAllAppend(p[..|p| - 1], p[|p| - 1]);
  }

  /** Appending an element leaves the old sequence as the front. */
  lemma AppendFront<T>(p: seq<T>, x: T)
    ensures var q := p + [x]; q[..|q| - 1] == p && q[|q| - 1] == x
  {
  }

  function CleanAll(pieces: seq<string>): (r: seq<string>)
    ensures |r| == |pieces|
    ensures forall i :: 0 <= i < |r| ==> r[i] == Clean(pieces[i])
  {
    seq(|pieces|, i requires 0 <= i < |pieces| => Clean(pieces[i]))
  }

  /** A non-empty sequence is its front followed by its last element. */
  lemma ButLastAndLast<T>(p: seq<T>)
    requires |p| >= 1
    ensures p[..|p| - 1] + [p[|p| - 1]] == p
  {
  }

  lemma CleanAllAppend(pieces: seq<string>, x: string)
    ensures CleanAll(pieces + [x]) == CleanAll(pieces) + [Clean(x)]
  {
  }

  /** The two flags of the scanner alone: inside quotes, and after a backslash.
      Commas and field contents play no part in them. */
  function Mode(p: string): (bool, bool)
    decreases |p|
  {
    if p == [] then (false, false)
    else
      var (inQuotes, escape) := Mode(p[..|p| - 1]);
      var c := p[|p| - 1];
      if escape then (inQuotes, false)
      else if c == '\\' then (inQuotes, true)
      else if c == '\'' then (!inQuotes, false)
      else (inQuotes, false)
  }

  /** The number of commas that are neither escaped nor quoted. */
  function SeparatorCount(p: string): nat
    decreases |p|
  {
    if p == [] then 0
    else SeparatorCount(p[..|p| - 1]) + (if p[|p| - 1] == ',' && Mode(p[..|p| - 1]) == (false, false) then 1 else 0)
  }

  lemma {:induction false} FeedCountsSeparators(p: string)
    ensures (Feed(START, p).inQuotes, Feed(START, p).escape) == Mode(p)
    ensures |Feed(START, p).fields| == SeparatorCount(p)
    decreases |p|
  {
    if p != [] {
      FeedCountsSeparators(p[..|p| - 1]);
    }
  }

  /** `parseRow` returns one field more than there are unquoted, unescaped
      commas; the empty row gives one empty field. */
  lemma FieldCount(row: string)
    ensures |Fields(row)| == SeparatorCount(row) + 1
    ensures Fields("") == [""]
  {
    FeedCountsSeparators(row);
  }

  /** No quote in `p` is escaped: wherever the scanner stands after a
      backslash, the next character is not a quote. */
  predicate NoEscapedQuote(p: string) {
    forall i :: 0 <= i < |p| && Mode(p[..i]).1 ==> p[i] != '\''
  }

  lemma {:induction false} NoQuoteUnlessEscaped(p: string)
    requires NoEscapedQuote(p)
    ensures '\'' !in Feed(START, p).current
    ensures forall f :: f in Feed(START, p).fields ==> '\'' !in f
    decreases |p|
  {
    if p != [] {
      var prefix := p[..|p| - 1];
      assert NoEscapedQuote(prefix) by {
        forall i | 0 <= i < |prefix| && Mode(prefix[..i]).1
          ensures prefix[i] != '\''
        {
          assert prefix[..i] == p[..i];
        }
      }
      NoQuoteUnlessEscaped(prefix);
      FeedCountsSeparators(prefix);
      assert Mode(p[..|p| - 1]).1 ==> p[|p| - 1] != '\'';
    }
  }

  /** Every quote the scanner keeps comes from a backslash escape: the quotes
      that open and close quoted runs never reach a field. */
  lemma QuotesNeverEmitted(row: string)
    requires NoEscapedQuote(row)
    ensures forall f :: f in Fields(row) ==> '\'' !in f
  {
    NoQuoteUnlessEscaped(row);
  }
}
