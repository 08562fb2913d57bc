/** Java string operations the registry relies on: trim, ASCII case folding,
    substring search, comma splitting as String.split does it, joining, and
    String.compareTo's lexicographic order. */
module Text {

  datatype Option<T> = None | Some(value: T)

  /** String.trim strips every character whose code is at most U+0020. */
  predicate IsSpace(c: char) { c <= ' ' }

  function TrimStart(s: string): string
  {
    if |s| > 0 && IsSpace(s[0]) then TrimStart(s[1..]) else s
  }

  function TrimEnd(s: string): string
  {
    if |s| > 0 && IsSpace(s[|s| - 1]) then TrimEnd(s[..|s| - 1]) else s
  }

  /** TrimStart drops a run of leading spaces and nothing else. */
  lemma {:induction false} TrimStartFacts(s: string)
    ensures var r := TrimStart(s);
            && |r| <= |s| && r == s[|s| - |r|..]
            && (r == [] || !IsSpace(r[0]))
            && (forall i :: 0 <= i < |s| - |r| ==> IsSpace(s[i]))
  {
    if |s| > 0 && IsSpace(s[0]) { TrimStartFacts(s[1..]); }
  }

  /** TrimEnd drops a run of trailing spaces and nothing else. */
  lemma {:induction false} TrimEndFacts(s: string)
    ensures var r := TrimEnd(s);
            && |r| <= |s| && r == s[..|r|]
            && (r == [] || !IsSpace(r[|r| - 1]))
            && (forall i :: |r| <= i < |s| ==> IsSpace(s[i]))
  {
    if |s| > 0 && IsSpace(s[|s| - 1]) { TrimEndFacts(s[..|s| - 1]); }
  }

  /** String.trim: the longest slice of `s` that neither starts nor ends with a space. */
  function Trim(s: string): (r: string)
  {
    TrimEnd(TrimStart(s))
  }

  /** `line.trim().isEmpty()` holds exactly for lines made only of spaces. */
  predicate IsBlank(s: string) { Trim(s) == [] }

  lemma BlankIffAllSpaces(s: string)
    ensures IsBlank(s) <==> forall i :: 0 <= i < |s| ==> IsSpace(s[i])
  {
    var t := TrimStart(s);
    TrimStartFacts(s);
    TrimEndFacts(t);
    assert forall i :: |s| - |t| <= i < |s| ==> s[i] == t[i - (|s| - |t|)];
  }

  /** A string that neither starts nor ends with a space is its own trim. */
  lemma TrimOfTrimmed(s: string)
    requires s == [] || (!IsSpace(s[0]) && !IsSpace(s[|s| - 1]))
    ensures Trim(s) == s
  {
  }

  lemma TrimIdempotent(s: string)
    ensures Trim(Trim(s)) == Trim(s)
  {
    var u := TrimStart(s);
    var t := Trim(s);
    TrimStartFacts(s);
    TrimEndFacts(u);
    if t != [] {
      assert t[0] == u[0];
      TrimOfTrimmed(t);
    }
  }

  function LowerChar(c: char): char
  {
    if 'A' <= c <= 'Z' then (c as int + 32) as char else c
  }

  /** String.toLowerCase, restricted to ASCII letters. */
  function Lower(s: string): (r: string)
    ensures |r| == |s|
  {
    seq(|s|, i requires 0 <= i < |s| => LowerChar(s[i]))
  }

  /** String.equalsIgnoreCase, for ASCII letters. */
  predicate EqualsIgnoreCase(a: string, b: string)
  {
    Lower(a) == Lower(b)
  }

  predicate IsPrefix(t: string, s: string)
  {
    |t| <= |s| && s[..|t|] == t
  }

  /** String.contains: `t` occurs in `s` as a contiguous substring. */
  predicate Contains(s: string, t: string)
    decreases |s|
  {
    IsPrefix(t, s) || (|s| > 0 && Contains(s[1..], t))
  }

  // ---------------------------------------------------------------------
  // Comma splitting and joining

  /** Every field between commas, empty ones included (split with a negative limit). */
  function SplitFields(s: string): (r: seq<string>)
    ensures |r| >= 1
    ensures forall k :: 0 <= k < |r| ==> ',' !in r[k]
  {
    if s == [] then [[]]
    else
      var rest := SplitFields(s[1..]);
      if s[0] == ',' then [[]] + rest
      else [[s[0]] + rest[0]] + rest[1..]
  }

  /** String.join(",", fs). */
  function Join(fs: seq<string>): string
    requires |fs| >= 1
  {
    if |fs| == 1 then fs[0] else fs[0] + "," + Join(fs[1..])
  }

  lemma {:induction false} JoinSplit(s: string)
    ensures Join(SplitFields(s)) == s
  {
    if s != [] {
      JoinSplit(s[1..]);
      var rest := SplitFields(s[1..]);
      if s[0] == ',' {
        assert s == [','] + s[1..];
      } else {
        if |rest| == 1 {
          assert s == [s[0]] + rest[0];
        } else {
          assert Join(rest) == rest[0] + "," + Join(rest[1..]);
          assert s == [s[0]] + s[1..];
        }
      }
    }
  }

  lemma {:induction false} SplitJoin(fs: seq<string>)
    requires |fs| >= 1
    requires forall k :: 0 <= k < |fs| ==> ',' !in fs[k]
    ensures SplitFields(Join(fs)) == fs
  {
    if |fs| == 1 {
      SplitFieldFree(fs[0]);
    } else {
      var tail := Join(fs[1..]);
      SplitJoin(fs[1..]);
      SplitPrefix(fs[0], tail);
    }
  }

  /** A comma-free string splits to itself. */
  lemma {:induction false} SplitFieldFree(f: string)
    requires ',' !in f
    ensures SplitFields(f) == [f]
  {
    if f != [] {
      assert ',' !in f[1..];
      SplitFieldFree(f[1..]);
      assert [f[0]] + f[1..] == f;
    }
  }

  lemma {:induction false} SplitPrefix(f: string, tail: string)
    requires ',' !in f
    ensures SplitFields(f + "," + tail) == [f] + SplitFields(tail)
  {
    if f == [] {
      assert f + "," + tail == [','] + tail;
      assert (f + "," + tail)[1..] == tail;
    } else {
      assert (f + "," + tail)[1..] == f[1..] + "," + tail;
      SplitPrefix(f[1..], tail);
      assert [f[0]] + f[1..] == f;
    }
  }

  function DropTrailingEmpty(fs: seq<string>): (r: seq<string>)
    ensures |r| <= |fs| && r == fs[..|r|]
    ensures r == [] || r[|r| - 1] != []
    ensures forall k :: |r| <= k < |fs| ==> fs[k] == []
  {
    if |fs| > 0 && fs[|fs| - 1] == [] then DropTrailingEmpty(fs[..|fs| - 1]) else fs
  }

  /** `line.split(",")` in Java: a line without a comma is returned whole;
      otherwise the fields, with trailing empty fields removed. */
  function JavaSplit(s: string): (r: seq<string>)
  {
    if ',' !in s then [s] else DropTrailingEmpty(SplitFields(s))
  }

  lemma JavaSplitJoin(fs: seq<string>)
    requires |fs| >= 2
    requires forall k :: 0 <= k < |fs| ==> ',' !in fs[k]
    requires fs[|fs| - 1] != []
    ensures JavaSplit(Join(fs)) == fs
  {
    SplitJoin(fs);
    assert ',' in Join(fs) by {
      assert Join(fs) == fs[0] + "," + Join(fs[1..]);
      assert Join(fs)[|fs[0]|] == ',';
    }
  }

  // ---------------------------------------------------------------------
  // Lexicographic order (String.compareTo < 0)

  predicate StrLess(a: string, b: string)
  {
    if a == [] then b != []
    else if b == [] then false
    else a[0] < b[0] || (a[0] == b[0] && StrLess(a[1..], b[1..]))
  }

  lemma {:induction false} StrLessIrreflexive(a: string)
    ensures !StrLess(a, a)
  {
    if a != [] { StrLessIrreflexive(a[1..]); }
  }

  lemma {:induction false} StrLessTransitive(a: string, b: string, c: string)
    requires StrLess(a, b) && StrLess(b, c)
    ensures StrLess(a, c)
  {
    if a != [] && b != [] && c != [] && a[0] == b[0] == c[0] {
      StrLessTransitive(a[1..], b[1..], c[1..]);
    }
  }

  lemma {:induction false} StrLessTotal(a: string, b: string)
    requires a != b
    ensures StrLess(a, b) || StrLess(b, a)
  {
    if a != [] && b != [] && a[0] == b[0] {
      assert a == [a[0]] + a[1..] && b == [b[0]] + b[1..];
      StrLessTotal(a[1..], b[1..]);
    }
  }

  // ---------------------------------------------------------------------
  // Decimal rendering of natural numbers

  function DigitChar(d: int): char
    requires 0 <= d < 10
  {
    ('0' as int + d) as char
  }

  function NatToString(n: nat): (r: string)
    ensures |r| >= 1
  {
    if n < 10 then [DigitChar(n)] else NatToString(n / 10) + [DigitChar(n % 10)]
  }
}
