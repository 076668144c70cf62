/** String operations the handlers and the migration script borrow from
    JavaScript and SQL: `split` on one character, `trim`, and lower-casing. */
module Text {

  /** The whitespace `String.prototype.trim` and the regular-expression class
      `\s` remove: the ASCII controls TAB..CR, space, and the Unicode spaces
      and line terminators. */
  predicate IsSpace(c: char): (b: bool)
    ensures c == ' ' || c == '\t' || c == '\n' || c == '\r' ==> b
    ensures '!' <= c <= '~' ==> !b
  {
    || 9 <= c as int <= 13
    || c as int == 0x20 || c as int == 0xA0 || c as int == 0x1680
    || 0x2000 <= c as int <= 0x200A
    || c as int == 0x2028 || c as int == 0x2029 || c as int == 0x202F
    || c as int == 0x205F || c as int == 0x3000 || c as int == 0xFEFF
  }

  /** Drops the leading whitespace. */
  function TrimStart(s: string): (r: string)
    ensures |r| <= |s| && r == s[|s| - |r|..]
    ensures forall i :: 0 <= i < |s| - |r| ==> IsSpace(s[i])
    ensures r == [] || !IsSpace(r[0])
    decreases |s|
  {
    if s != [] && IsSpace(s[0]) then TrimStart(s[1..]) else s
  }

  /** Drops the trailing whitespace. */
  function TrimEnd(s: string): (r: string)
    ensures |r| <= |s| && r == s[..|r|]
    ensures forall i :: |r| <= i < |s| ==> IsSpace(s[i])
    ensures r == [] || !IsSpace(r[|r| - 1])
    decreases |s|
  {
    if s != [] && IsSpace(s[|s| - 1]) then TrimEnd(s[..|s| - 1]) else s
  }

  /** `s[i..j]` is what is left of `s` once whitespace before `i` and from
      `j` on is removed. */
  predicate Trimmed(s: string, i: int, j: int) {
    && 0 <= i <= j <= |s|
    && (forall k :: 0 <= k < i ==> IsSpace(s[k]))
    && (forall k :: j <= k < |s| ==> IsSpace(s[k]))
  }

  /** `s.trim()`: the part of `s` between its leading and trailing whitespace. */
  function Trim(s: string): (r: string)
    ensures exists i, j :: Trimmed(s, i, j) && r == s[i..j]
    ensures r == [] || (!IsSpace(r[0]) && !IsSpace(r[|r| - 1]))
    ensures forall c :: c in r ==> c in s
  {
    var a := TrimStart(s);
    var r := TrimEnd(a);
    PrefixOfSuffix(s, a, r);
    assert Trimmed(s, |s| - |a|, |s| - |a| + |r|);
    r
  }

  /** A prefix `r` of a suffix `a` of `s` is a slice of `s`; what `r` leaves
      of `a` is what follows the slice in `s`. */
  lemma PrefixOfSuffix(s: string, a: string, r: string)
    requires |a| <= |s| && a == s[|s| - |a|..]
    requires |r| <= |a| && r == a[..|r|]
    ensures var i := |s| - |a|; r == s[i..i + |r|]
    ensures forall k :: |s| - |a| + |r| <= k < |s| ==> s[k] == a[k - (|s| - |a|)]
    ensures forall c :: c in r ==> c in s
  {
    var i := |s| - |a|;
    forall c | c in r ensures c in s {
      var k :| 0 <= k < |r| && r[k] == c;
      assert s[i + k] == c;
    }
  }

  /** SQL `LOWER` and regular-expression case folding, on one character
      (ASCII letters only). */
  function LowerChar(c: char): (r: char)
    ensures !('A' <= r <= 'Z')
    ensures !('A' <= c <= 'Z') ==> r == c
    ensures 'A' <= c <= 'Z' ==> 'a' <= r <= 'z' && r as int - c as int == 'a' as int - 'A' as int
  {
    if 'A' <= c <= 'Z' then (c as int + 32) as char else c
  }

  /** Lower-casing a string, character by character: the result has no
      upper-case ASCII letter, and text without one is left as it is. */
  function Lower(s: string): (r: string)
    ensures |r| == |s| && forall i :: 0 <= i < |s| ==> r[i] == LowerChar(s[i])
    ensures forall i :: 0 <= i < |r| ==> !('A' <= r[i] <= 'Z')
    ensures (forall i :: 0 <= i < |s| ==> !('A' <= s[i] <= 'Z')) ==> r == s
  {
    seq(|s|, i requires 0 <= i < |s| => LowerChar(s[i]))
  }

  /** `.replace(/^o/, '').replace(/c$/, '')`, and `.replace(/^q|q$/g, '')`
      when `open == close == q`: one `open` is removed at the start and one
      `close` at the end, each when present; a lone character that is both is
      removed once. */
  function StripEnds(t: string, open: char, close: char): (r: string)
    ensures |t| >= 2 && t[0] == open && t[|t| - 1] == close ==> r == t[1..|t| - 1]
    ensures t != [] && t[0] == open && (|t| == 1 || t[|t| - 1] != close) ==> r == t[1..]
    ensures t != [] && t[0] != open && t[|t| - 1] == close ==> r == t[..|t| - 1]
    ensures t == [] || (t[0] != open && t[|t| - 1] != close) ==> r == t
    ensures forall c :: c in r ==> c in t
  {
    var a := if |t| > 0 && t[0] == open then t[1..] else t;
    if |a| > 0 && a[|a| - 1] == close then a[..|a| - 1] else a
  }

  /** No part contains the separator. */
  predicate Free(parts: seq<string>, sep: char) {
    forall i :: 0 <= i < |parts| ==> sep !in parts[i]
  }

  /** The inverse of `split`: the parts with one separator between each two. */
  function Join(parts: seq<string>, sep: char): string
    requires |parts| >= 1
  {
    if |parts| == 1 then parts[0] else parts[0] + [sep] + Join(parts[1..], sep)
  }

  /** JavaScript `s.split(sep)` for a one-character separator: the maximal
      separator-free pieces, empty pieces included. */
  function Split(s: string, sep: char): (parts: seq<string>)
    ensures |parts| >= 1
    ensures Free(parts, sep)
    ensures Join(parts, sep) == s
    decreases |s|
  {
    if s == [] then [""]
    else
      var rest := Split(s[1..], sep);
      if s[0] == sep then [""] + rest
      else [[s[0]] + rest[0]] + rest[1..]
  }

  /** Splitting undoes joining separator-free parts: with the contract of
      `Split`, the parts of a string are determined uniquely. */
  lemma {:induction false} SplitJoin(parts: seq<string>, sep: char)
    requires |parts| >= 1 && Free(parts, sep)
    ensures Split(Join(parts, sep), sep) == parts
    decreases |parts|, |parts[0]|
  {
    var s := Join(parts, sep);
    if parts[0] == [] {
      if |parts| > 1 {
        assert s == [sep] + Join(parts[1..], sep);
        assert s[1..] == Join(parts[1..], sep);
        SplitJoin(parts[1..], sep);
        assert parts == [""] + parts[1..];
      }
    } else {
      var tail := [parts[0][1..]] + parts[1..];
      assert s[0] == parts[0][0] && s[0] != sep;
      assert s[1..] == Join(tail, sep) by {
        if |parts| > 1 {
          assert tail[1..] == parts[1..];
        }
      }
      assert sep !in tail[0];
      SplitJoin(tail, sep);
      assert Split(s, sep) == [[s[0]] + tail[0]] + tail[1..];
      assert [s[0]] + tail[0] == parts[0];
      assert tail[1..] == parts[1..];
    }
  }

  /** Appending one more part to a join. */
  lemma {:induction false} JoinSnoc(parts: seq<string>, x: string, sep: char)
    requires |parts| >= 1
    ensures Join(parts + [x], sep) == Join(parts, sep) + [sep] + x
    decreases |parts|
  {
    if |parts| > 1 {
      assert (parts + [x])[1..] == parts[1..] + [x];
      JoinSnoc(parts[1..], x, sep);
    }
  }

  /** Extending the last part of a join by one character. */
  lemma {:induction false} JoinExtendLast(parts: seq<string>, c: char, sep: char)
    requires |parts| >= 1
    ensures Join(parts[..|parts| - 1] + [parts[|parts| - 1] + [c]], sep) == Join(parts, sep) + [c]
    decreases |parts|
  {
    var q := parts[..|parts| - 1] + [parts[|parts| - 1] + [c]];
    if |parts| > 1 {
      assert q[1..] == parts[1..][..|parts| - 2] + [parts[1..][|parts| - 2] + [c]];
      JoinExtendLast(parts[1..], c, sep);
    }
  }

  /** How `split` grows when one character is appended. */
  lemma SplitSnoc(s: string, c: char, sep: char)
    ensures var p := Split(s, sep);
      Split(s + [c], sep) ==
        if c == sep then p + [""]
        else p[..|p| - 1] + [p[|p| - 1] + [c]]
  {
    if c == sep {
      SplitSnocSeparator(s, sep);
    } else {
      SplitSnocOther(s, c, sep);
    }
  }

  lemma SplitSnocSeparator(s: string, sep: char)
    ensures Split(s + [sep], sep) == Split(s, sep) + [""]
  {
    var p := Split(s, sep);
    var q := p + [""];
    JoinSnoc(p, "", sep);
    assert Join(q, sep) == s + [sep];
    forall i | 0 <= i < |q| ensures sep !in q[i] {
      if i < |p| {
        assert q[i] == p[i];
      }
    }
    SplitJoin(q, sep);
  }

  lemma SplitSnocOther(s: string, c: char, sep: char)
    requires c != sep
    ensures var p := Split(s, sep);
      Split(s + [c], sep) == p[..|p| - 1] + [p[|p| - 1] + [c]]
  {
    var p := Split(s, sep);
    var q := p[..|p| - 1] + [p[|p| - 1] + [c]];
    JoinExtendLast(p, c, sep);
    assert Join(q, sep) == s + [c];
    forall i | 0 <= i < |q| ensures sep !in q[i] {
      if i < |p| - 1 {
        assert q[i] == p[i];
      } else {
        assert q[i] == p[|p| - 1] + [c];
      }
    }
    SplitJoin(q, sep);
  }
}
