/** The Python `str` operations the pipeline relies on, on `seq<char>`. */
module Strings {

  /** Python `sep.join(parts)` for a one-character separator. */
  function Join(parts: seq<string>, sep: char): string
  {
    if |parts| == 0 then ""
    else if |parts| == 1 then parts[0]
    else parts[0] + [sep] + Join(parts[1..], sep)
  }

  /** Joining one more field appends the separator and the field. */
  lemma {:induction false} JoinSnoc(parts: seq<string>, last: string, sep: char)
    requires |parts| > 0
    ensures Join(parts + [last], sep) == Join(parts, sep) + [sep] + last
    decreases |parts|
  {
    if |parts| > 1 {
      assert (parts + [last])[1..] == parts[1..] + [last];
      JoinSnoc(parts[1..], last, sep);
    }
  }

  /** Python `s.split(sep)` for a one-character separator: every occurrence
      cuts, empty fields are kept, and the empty string splits into `[""]`.
      Splitting is undone by joining with the same separator. */
  function Split(s: string, sep: char): (parts: seq<string>)
    ensures |parts| > 0
    ensures forall i :: 0 <= i < |parts| ==> sep !in parts[i]
    ensures Join(parts, sep) == s
    decreases |s|
  {
    if |s| == 0 then [""]
    else
      var rest := Split(s[1..], sep);
      if s[0] == sep then
        assert s == [sep] + s[1..];
        [""] + rest
      else
        var parts := [[s[0]] + rest[0]] + rest[1..];
        assert parts[1..] == rest[1..];
        assert |rest| > 1 ==> Join(rest, sep) == rest[0] + [sep] + Join(rest[1..], sep);
        parts
  }

  /** A string without the separator is a single field. */
  lemma {:induction false} SplitNoSep(s: string, sep: char)
    requires sep !in s
    ensures Split(s, sep) == [s]
    decreases |s|
  {
    if |s| > 0 {
      assert sep !in s[1..] by {
        forall i | 0 <= i < |s[1..]| ensures s[1..][i] != sep {
          assert s[1..][i] == s[i + 1];
        }
      }
      SplitNoSep(s[1..], sep);
      assert [s[0]] + s[1..] == s;
    }
  }

  /** A separator between two strings separates their fields. */
  lemma {:induction false} SplitAppend(x: string, y: string, sep: char)
    ensures Split(x + [sep] + y, sep) == Split(x, sep) + Split(y, sep)
    decreases |x|
  {
    var s := x + [sep] + y;
    if |x| == 0 {
      assert s[1..] == y;
    } else {
      assert s[1..] == x[1..] + [sep] + y;
      SplitAppend(x[1..], y, sep);
    }
  }

  /** Joining fields that do not contain the separator and splitting again
      gives the fields back. */
  lemma {:induction false} SplitJoin(parts: seq<string>, sep: char)
    requires |parts| > 0
    requires forall i :: 0 <= i < |parts| ==> sep !in parts[i]
    ensures Split(Join(parts, sep), sep) == parts
    decreases |parts|
  {
    SplitNoSep(parts[0], sep);
    if |parts| > 1 {
      SplitJoin(parts[1..], sep);
      SplitAppend(parts[0], Join(parts[1..], sep), sep);
      assert [parts[0]] + parts[1..] == parts;
    }
  }

  /** The first field of a split is the text before the first separator, or
      the whole string when there is none. */
  lemma {:induction false} SplitHead(s: string, sep: char)
    ensures |Split(s, sep)[0]| <= |s|
    ensures Split(s, sep)[0] == s[..|Split(s, sep)[0]|]
    ensures |Split(s, sep)[0]| < |s| ==> s[|Split(s, sep)[0]|] == sep
    decreases |s|
  {
    if |s| > 0 && s[0] != sep {
      SplitHead(s[1..], sep);
    }
  }

  /** Python `s.replace(pat, rep)`: occurrences are found left to right and
      do not overlap. */
  function ReplaceAll(s: string, pat: string, rep: string): string
    requires |pat| > 0
    decreases |s|
  {
    if |s| == 0 then ""
    else if pat <= s then rep + ReplaceAll(s[|pat|..], pat, rep)
    else [s[0]] + ReplaceAll(s[1..], pat, rep)
  }

  /** A string that lacks one of the pattern's characters holds no
      occurrence, so replacing leaves it alone. */
  lemma {:induction false} ReplaceAbsent(s: string, pat: string, rep: string, c: char)
    requires |pat| > 0 && c in pat && c !in s
    ensures ReplaceAll(s, pat, rep) == s
    decreases |s|
  {
    if |s| > 0 {
      assert !(pat <= s);
      assert c !in s[1..];
      ReplaceAbsent(s[1..], pat, rep, c);
      assert [s[0]] + s[1..] == s;
    }
  }

  /** Replacing one character by another works position by position. */
  lemma {:induction false} ReplaceCharPointwise(s: string, a: char, b: char)
    ensures |ReplaceAll(s, [a], [b])| == |s|
    ensures forall i :: 0 <= i < |s| ==>
      ReplaceAll(s, [a], [b])[i] == (if s[i] == a then b else s[i])
    decreases |s|
  {
    if |s| > 0 {
      ReplaceCharPointwise(s[1..], a, b);
      var r := ReplaceAll(s, [a], [b]);
      var tail := ReplaceAll(s[1..], [a], [b]);
      assert [a] <= s <==> s[0] == a;
      assert r == [if s[0] == a then b else s[0]] + tail;
      forall i | 0 <= i < |s|
        ensures r[i] == (if s[i] == a then b else s[i])
      {
        if i > 0 {
          assert r[i] == tail[i - 1];
          assert s[1..][i - 1] == s[i];
        }
      }
    }
  }

  /** Python `s.lstrip(cs)`: the longest suffix of `s` that does not start
      with a character of `cs`. */
  function TrimStart(s: string, cs: set<char>): (r: string)
    ensures |r| <= |s| && r == s[|s| - |r|..]
    ensures forall i :: 0 <= i < |s| - |r| ==> s[i] in cs
    ensures |r| > 0 ==> r[0] !in cs
    decreases |s|
  {
    if |s| > 0 && s[0] in cs then
      var r := TrimStart(s[1..], cs);
      assert s[1..][|s| - 1 - |r|..] == s[|s| - |r|..];
      assert forall i :: 1 <= i < |s| ==> s[i] == s[1..][i - 1];
      r
    else s
  }

  /** Python `s.rstrip(cs)`: the longest prefix of `s` that does not end
      with a character of `cs`. */
  function TrimEnd(s: string, cs: set<char>): (r: string)
    ensures |r| <= |s| && r == s[..|r|]
    ensures forall i :: |r| <= i < |s| ==> s[i] in cs
    ensures |r| > 0 ==> r[|r| - 1] !in cs
    decreases |s|
  {
    if |s| > 0 && s[|s| - 1] in cs then TrimEnd(s[..|s| - 1], cs) else s
  }

  /** Python `s.strip(cs)`: the middle of `s` left once every character
      of `cs` has been removed from both ends. What is removed lies in
      `cs`, and what is kept neither starts nor ends with a character of
      `cs`. */
  function Strip(s: string, cs: set<char>): (r: string)
    ensures |r| > 0 ==> r[0] !in cs && r[|r| - 1] !in cs
    ensures |r| <= |s| - StripOffset(s, cs)
    ensures forall i :: 0 <= i < |r| ==> r[i] == s[StripOffset(s, cs) + i]
    ensures r == s[StripOffset(s, cs)..StripOffset(s, cs) + |r|]
    ensures forall i :: 0 <= i < StripOffset(s, cs) ==> s[i] in cs
    ensures forall i :: StripOffset(s, cs) + |r| <= i < |s| ==> s[i] in cs
  {
    TrimEnd(TrimStart(s, cs), cs)
  }

  /** How many characters `Strip` removes from the front. */
  function StripOffset(s: string, cs: set<char>): nat
  {
    |s| - |TrimStart(s, cs)|
  }

  /** `Strip` is the only way to cut `s` into a prefix and a suffix drawn
      from `cs` around a middle that neither starts nor ends with a
      character of `cs`. */
  lemma StripUnique(s: string, cs: set<char>, p: string, m: string, q: string)
    requires s == p + m + q
    requires forall i :: 0 <= i < |p| ==> p[i] in cs
    requires forall i :: 0 <= i < |q| ==> q[i] in cs
    requires |m| > 0 ==> m[0] !in cs && m[|m| - 1] !in cs
    ensures Strip(s, cs) == m
  {
    if |m| == 0 {
      assert s == (p + q) + "";
      TrimStartPrefix(p + q, "", cs);
    } else {
      assert s == p + (m + q);
      TrimStartPrefix(p, m + q, cs);
      TrimEndSuffix(m, q, cs);
    }
  }

  /** `lstrip` removes a prefix drawn from `cs` in front of a string that
      does not start with a character of `cs`. */
  lemma {:induction false} TrimStartPrefix(p: string, rest: string, cs: set<char>)
    requires forall i :: 0 <= i < |p| ==> p[i] in cs
    requires |rest| > 0 ==> rest[0] !in cs
    ensures TrimStart(p + rest, cs) == rest
    decreases |p|
  {
    if |p| > 0 {
      assert (p + rest)[0] == p[0];
      assert (p + rest)[1..] == p[1..] + rest;
      TrimStartPrefix(p[1..], rest, cs);
    } else {
      assert p + rest == rest;
    }
  }

  /** `rstrip` removes a suffix drawn from `cs` behind a string that does
      not end with a character of `cs`. */
  lemma {:induction false} TrimEndSuffix(rest: string, q: string, cs: set<char>)
    requires forall i :: 0 <= i < |q| ==> q[i] in cs
    requires |rest| > 0 ==> rest[|rest| - 1] !in cs
    ensures TrimEnd(rest + q, cs) == rest
    decreases |q|
  {
    if |q| > 0 {
      var t := rest + q;
      assert t[|t| - 1] == q[|q| - 1];
      assert t[..|t| - 1] == rest + q[..|q| - 1];
      TrimEndSuffix(rest, q[..|q| - 1], cs);
    } else {
      assert rest + q == rest;
    }
  }

  /** When the only character of `cs` that occurs in `s` is `c`, stripping
      removes nothing but copies of `c`. */
  lemma StripRemovesOnly(s: string, cs: set<char>, c: char)
    requires forall i :: 0 <= i < |s| && s[i] in cs ==> s[i] == c
    ensures forall i :: 0 <= i < StripOffset(s, cs) ==> s[i] == c
    ensures forall i :: StripOffset(s, cs) + |Strip(s, cs)| <= i < |s| ==> s[i] == c
  {
  }

  /** Stripping leaves a string alone exactly when neither end is in `cs`. */
  lemma StripFixpoint(s: string, cs: set<char>)
    ensures Strip(s, cs) == s <==> (|s| == 0 || (s[0] !in cs && s[|s| - 1] !in cs))
  {
  }

  /** The characters Python's `str.isspace` accepts, and so the ones a bare
      `strip()` removes. */
  const PyWhitespace: set<char> := {
    ' ', '\t', '\n', '\r', '\U{B}', '\U{C}', '\U{1C}', '\U{1D}', '\U{1E}', '\U{1F}',
    '\U{85}', '\U{A0}', '\U{1680}', '\U{2000}', '\U{2001}', '\U{2002}', '\U{2003}',
    '\U{2004}', '\U{2005}', '\U{2006}', '\U{2007}', '\U{2008}', '\U{2009}', '\U{200A}',
    '\U{2028}', '\U{2029}', '\U{202F}', '\U{205F}', '\U{3000}'
  }

  /** Python `c.isalnum()`, restricted to ASCII letters and digits. */
  predicate IsAlnum(c: char) {
    ('a' <= c <= 'z') || ('A' <= c <= 'Z') || ('0' <= c <= '9')
  }

  /** Python `c.lower()` on ASCII upper-case letters; every other character
      is its own lower case. */
  function LowerChar(c: char): char {
    if 'A' <= c <= 'Z' then (c as int + 32) as char else c
  }

  /** Python `s.lower()`, character by character. */
  function Lower(s: string): (r: string)
    ensures |r| == |s|
  {
    seq(|s|, i requires 0 <= i < |s| => LowerChar(s[i]))
  }

  /** Lower-casing twice is lower-casing once. */
  lemma LowerIdempotent(s: string)
    ensures Lower(Lower(s)) == Lower(s)
  {
    assert forall i :: 0 <= i < |s| ==> Lower(Lower(s))[i] == Lower(s)[i];
  }

  predicate StartsWith(s: string, prefix: string) {
    prefix <= s
  }

  predicate EndsWith(s: string, suffix: string) {
    |suffix| <= |s| && s[|s| - |suffix|..] == suffix
  }
}
