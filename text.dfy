/** The two Python string operations the chat client's text handling is
    built from: `str.replace(old, new)` and `str.strip()`. */
module Text {

  /** `q` occurs in `s` starting at index `i`. */
  predicate OccursAt(s: string, q: string, i: nat) {
    i + |q| <= |s| && s[i..i + |q|] == q
  }

  /** `q` occurs somewhere in `s` (Python's `q in s`). */
  predicate Contains(s: string, q: string) {
    exists i: nat | i <= |s| :: OccursAt(s, q, i)
  }

  /** `s.replace(pat, rep)` for a non-empty `pat`: scanning left to right,
      every occurrence of `pat` that does not overlap an earlier replaced one
      becomes `rep`. */
  function Replace(s: string, pat: string, rep: string): (r: string)
    requires pat != []
    ensures pat == rep ==> r == s
    decreases |s|
  {
    if |s| < |pat| then s
    else if s[..|pat|] == pat then rep + Replace(s[|pat|..], pat, rep)
    else [s[0]] + Replace(s[1..], pat, rep)
  }

  /** Text in front of which no occurrence can start passes through
      unchanged: `pat` does not start anywhere in `a`. */
  lemma {:induction false} ReplaceAfterPlain(a: string, b: string, pat: string, rep: string)
    requires pat != [] && pat[0] !in a
    ensures Replace(a + b, pat, rep) == a + Replace(b, pat, rep)
  {
    if a == [] {
      assert a + b == b;
    } else {
      var s := a + b;
      assert s[0] == a[0] && s[1..] == a[1..] + b;
      ReplaceAfterPlain(a[1..], b, pat, rep);
      if |s| < |pat| {
        assert Replace(b, pat, rep) == b;
      } else {
        assert s[..|pat|][0] == a[0];
        assert Replace(s, pat, rep) == [a[0]] + Replace(a[1..] + b, pat, rep);
      }
      assert a == [a[0]] + a[1..];
    }
  }

  /** A text that starts with `pat` has that occurrence replaced. */
  lemma ReplaceAtStart(b: string, pat: string, rep: string)
    requires pat != []
    ensures Replace(pat + b, pat, rep) == rep + Replace(b, pat, rep)
  {
    assert (pat + b)[..|pat|] == pat && (pat + b)[|pat|..] == b;
  }

  /** A suffix of a string without `q` has no `q` either. */
  lemma SuffixFree(s: string, q: string, n: nat)
    requires n <= |s| && !Contains(s, q)
    ensures !Contains(s[n..], q)
  {
    forall j: nat ensures !OccursAt(s[n..], q, j) {
      if j + |q| <= |s| - n {
        assert s[n..][j..j + |q|] == s[n + j..n + j + |q|];
        assert !OccursAt(s, q, n + j);
      }
    }
  }

  /** Replacing a pattern that does not occur changes nothing. */
  lemma {:induction false} ReplaceUnchanged(s: string, pat: string, rep: string)
    requires pat != [] && !Contains(s, pat)
    ensures Replace(s, pat, rep) == s
  {
    if |s| >= |pat| {
      assert !OccursAt(s, pat, 0);
      SuffixFree(s, pat, 1);
      ReplaceUnchanged(s[1..], pat, rep);
      assert [s[0]] + s[1..] == s;
    }
  }

  /** As long as the output shows no character of `rep`, it is a copy of
      the input: each replacement starts with a character of `rep`. */
  lemma {:induction false} ReplacePrefix(t: string, pat: string, rep: string, m: nat)
    requires pat != [] && rep != []
    requires m <= |Replace(t, pat, rep)|
    requires forall k :: 0 <= k < m ==> Replace(t, pat, rep)[k] !in rep
    ensures m <= |t| && Replace(t, pat, rep)[..m] == t[..m]
  {
    if m > 0 && |t| >= |pat| {
      if t[..|pat|] == pat {
        ReplaceStartsWithRep(t, pat, rep);
        assert false;
      } else {
        var r := Replace(t[1..], pat, rep);
        assert Replace(t, pat, rep) == [t[0]] + r;
        forall k | 0 <= k < m - 1 ensures r[k] !in rep {
          assert r[k] == Replace(t, pat, rep)[k + 1];
        }
        ReplacePrefix(t[1..], pat, rep, m - 1);
        assert t[..m] == [t[0]] + t[1..][..m - 1];
      }
    }
  }

  lemma ReplaceStartsWithRep(t: string, pat: string, rep: string)
    requires pat != [] && rep != [] && |t| >= |pat| && t[..|pat|] == pat
    ensures Replace(t, pat, rep)[0] == rep[0]
  {
  }

  /** An occurrence in `a + b` that starts past `a` lies inside `b`. */
  lemma TailFree(a: string, b: string, q: string)
    requires !Contains(b, q)
    ensures forall j: nat :: |a| <= j ==> !OccursAt(a + b, q, j)
  {
    forall j: nat | |a| <= j && j + |q| <= |a| + |b| ensures !OccursAt(a + b, q, j) {
      assert (a + b)[j..j + |q|] == b[j - |a|..j - |a| + |q|];
      assert !OccursAt(b, q, j - |a|);
    }
  }

  /** After `s.replace(p, r)` the string holds no occurrence of `q`, when
      either `q` is the replaced pattern itself or `s` held none, provided
      the replacement shares no character with `q`.  The first case says
      every occurrence was replaced; the second that a replacement never
      creates an occurrence of another pattern. */
  lemma {:induction false} ReplaceLeavesNo(s: string, p: string, r: string, q: string)
    requires p != [] && r != [] && q != []
    requires forall k :: 0 <= k < |q| ==> q[k] !in r
    requires q == p || !Contains(s, q)
    ensures !Contains(Replace(s, p, r), q)
  {
    if |s| < |p| {
      if q != p {
        assert Replace(s, p, r) == s;
      }
    } else if s[..|p|] == p {
      var t := s[|p|..];
      if q != p {
        SuffixFree(s, q, |p|);
      }
      ReplaceLeavesNo(t, p, r, q);
      var rest := Replace(t, p, r);
      TailFree(r, rest, q);
      forall j: nat | j < |r| ensures !OccursAt(r + rest, q, j) {
        assert (r + rest)[j] == r[j] && q[0] !in r;
        if j + |q| <= |r + rest| {
          assert (r + rest)[j..j + |q|][0] == r[j];
        }
      }
      assert Replace(s, p, r) == r + rest;
    } else {
      if q != p {
        SuffixFree(s, q, 1);
      }
      ReplaceLeavesNo(s[1..], p, r, q);
      var rest := Replace(s[1..], p, r);
      TailFree([s[0]], rest, q);
      var out := Replace(s, p, r);
      assert out == [s[0]] + rest;
      if |q| <= |out| && out[..|q|] == q {
        ReplaceKeptHead(s, p, r, q);
        assert false;
      }
      assert !OccursAt(out, q, 0);
    }
  }

  /** When the scan keeps the first character of `s`, an occurrence of `q`
      at the start of the output was already at the start of `s`. */
  lemma ReplaceKeptHead(s: string, p: string, r: string, q: string)
    requires p != [] && r != [] && q != []
    requires forall k :: 0 <= k < |q| ==> q[k] !in r
    requires |s| >= |p| && s[..|p|] != p
    requires |q| <= |Replace(s, p, r)| && Replace(s, p, r)[..|q|] == q
    ensures OccursAt(s, q, 0)
  {
    var out := Replace(s, p, r);
    var rest := Replace(s[1..], p, r);
    assert out == [s[0]] + rest;
    assert q[0] == s[0] && q[1..] == rest[..|q| - 1];
    forall k | 0 <= k < |q| - 1 ensures rest[k] !in r {
      assert rest[k] == q[k + 1];
    }
    ReplacePrefix(s[1..], p, r, |q| - 1);
    assert s[..|q|] == [s[0]] + s[1..][..|q| - 1];
  }

  /** Applies `s.replace(code, sub)` for each pair of `table` in turn,
      each to the result of the one before. */
  function ReplaceEach(s: string, table: seq<(string, string)>): string
    requires forall i :: 0 <= i < |table| ==> table[i].0 != []
    decreases |table|
  {
    if table == [] then s
    else ReplaceEach(Replace(s, table[0].0, table[0].1), table[1..])
  }

  /** Every code and every substitute is non-empty, and no substitute
      shares a character with any code. */
  predicate Separated(table: seq<(string, string)>) {
    && (forall i :: 0 <= i < |table| ==> table[i].0 != [] && table[i].1 != [])
    && (forall i, j, k :: 0 <= i < |table| && 0 <= j < |table| && 0 <= k < |table[j].0| ==>
          table[j].0[k] !in table[i].1)
  }

  /** Text without `q` stays without `q` through the whole table, when no
      substitute shares a character with `q`. */
  lemma {:induction false} ReplaceEachKeepsOut(s: string, table: seq<(string, string)>, q: string)
    requires forall i :: 0 <= i < |table| ==> table[i].0 != [] && table[i].1 != []
    requires forall i, k :: 0 <= i < |table| && 0 <= k < |q| ==> q[k] !in table[i].1
    requires q != [] && !Contains(s, q)
    ensures !Contains(ReplaceEach(s, table), q)
    decreases |table|
  {
    if table != [] {
      ReplaceLeavesNo(s, table[0].0, table[0].1, q);
      ReplaceEachKeepsOut(Replace(s, table[0].0, table[0].1), table[1..], q);
    }
  }

  /** After the whole table no code of the table is left in the text. */
  lemma {:induction false} ReplaceEachRemoves(s: string, table: seq<(string, string)>)
    requires Separated(table)
    ensures forall j :: 0 <= j < |table| ==> !Contains(ReplaceEach(s, table), table[j].0)
    decreases |table|
  {
    if table != [] {
      var next := Replace(s, table[0].0, table[0].1);
      ReplaceLeavesNo(s, table[0].0, table[0].1, table[0].0);
      ReplaceEachKeepsOut(next, table[1..], table[0].0);
      assert Separated(table[1..]);
      ReplaceEachRemoves(next, table[1..]);
    }
  }

  /** Text holding none of the codes passes through the table unchanged. */
  lemma {:induction false} ReplaceEachUnchanged(s: string, table: seq<(string, string)>)
    requires forall i :: 0 <= i < |table| ==> table[i].0 != [] && !Contains(s, table[i].0)
    ensures ReplaceEach(s, table) == s
    decreases |table|
  {
    if table != [] {
      ReplaceUnchanged(s, table[0].0, table[0].1);
      ReplaceEachUnchanged(s, table[1..]);
    }
  }

  /** Python's `str.isspace` for one character: the characters whose
      bidirectional class is whitespace, segment or paragraph separator, or
      whose category is a space separator. */
  predicate IsSpace(c: char) {
    || ('\t' <= c <= '\r')
    || ('\U{1C}' <= c <= ' ')
    || c == '\U{85}' || c == '\U{A0}' || c == '\U{1680}'
    || ('\U{2000}' <= c <= '\U{200A}')
    || c == '\U{2028}' || c == '\U{2029}' || c == '\U{202F}'
    || c == '\U{205F}' || c == '\U{3000}'
  }

  /** `s.lstrip()`: `s` without its leading whitespace. */
  function TrimStart(s: string): string {
    if s != [] && IsSpace(s[0]) then TrimStart(s[1..]) else s
  }

  /** What `lstrip` keeps is a suffix of `s` that does not start with
      whitespace, and what it drops is all whitespace. */
  lemma {:induction false} TrimStartShape(s: string)
    ensures var r := TrimStart(s);
      && |r| <= |s| && r == s[|s| - |r|..]
      && (forall k :: 0 <= k < |s| - |r| ==> IsSpace(s[k]))
      && (r == [] || !IsSpace(r[0]))
  {
    if s != [] && IsSpace(s[0]) {
      TrimStartShape(s[1..]);
      var r := TrimStart(s);
      assert s[1..][|s| - 1 - |r|..] == s[|s| - |r|..];
      forall k | 1 <= k < |s| - |r| ensures IsSpace(s[k]) {
        assert s[k] == s[1..][k - 1];
      }
    }
  }

  /** `s.rstrip()`: `s` without its trailing whitespace. */
  function TrimEnd(s: string): string {
    if s != [] && IsSpace(s[|s| - 1]) then TrimEnd(s[..|s| - 1]) else s
  }

  /** What `rstrip` keeps is a prefix of `s` that does not end with
      whitespace, and what it drops is all whitespace. */
  lemma {:induction false} TrimEndShape(s: string)
    ensures var r := TrimEnd(s);
      && |r| <= |s| && r == s[..|r|]
      && (forall k :: |r| <= k < |s| ==> IsSpace(s[k]))
      && (r == [] || !IsSpace(r[|r| - 1]))
  {
    if s != [] && IsSpace(s[|s| - 1]) {
      var init := s[..|s| - 1];
      TrimEndShape(init);
      var r := TrimEnd(s);
      assert init[..|r|] == s[..|r|];
      forall k | |r| <= k < |s| - 1 ensures IsSpace(s[k]) {
        assert s[k] == init[k];
      }
    }
  }

  /** `s.strip()`: `s` without its leading and trailing whitespace. */
  function Strip(s: string): string {
    TrimEnd(TrimStart(s))
  }

  /** The stripped text is the slice of `s` that starts after the leading
      whitespace. */
  lemma StripSlice(s: string)
    ensures |Strip(s)| <= |TrimStart(s)| <= |s|
    ensures Strip(s) == s[|s| - |TrimStart(s)|..|s| - |TrimStart(s)| + |Strip(s)|]
  {
    var t := TrimStart(s);
    var r := TrimEnd(t);
    var i := |s| - |t|;
    TrimStartShape(s);
    TrimEndShape(t);
    calc {
      r;
      t[..|r|];
      s[i..][..|r|];
      s[i..i + |r|];
    }
  }

  /** What `strip` removes is whitespace, on both sides. */
  lemma StripRemovesSpace(s: string)
    ensures |Strip(s)| <= |TrimStart(s)| <= |s|
    ensures forall k :: 0 <= k < |s| - |TrimStart(s)| ==> IsSpace(s[k])
    ensures forall k :: |s| - |TrimStart(s)| + |Strip(s)| <= k < |s| ==> IsSpace(s[k])
  {
    var t := TrimStart(s);
    var r := TrimEnd(t);
    var i := |s| - |t|;
    TrimStartShape(s);
    TrimEndShape(t);
    forall k | i + |r| <= k < |s| ensures IsSpace(s[k]) {
      assert s[k] == t[k - i];
    }
  }

  /** The stripped text neither starts nor ends with whitespace. */
  lemma StripEnds(s: string)
    ensures var r := Strip(s); r == [] || (!IsSpace(r[0]) && !IsSpace(r[|r| - 1]))
  {
    var t := TrimStart(s);
    var r := TrimEnd(t);
    TrimStartShape(s);
    TrimEndShape(t);
    if r != [] {
      assert r[0] == t[0];
    }
  }

  /** All-whitespace text has nothing left after its leading whitespace. */
  lemma {:induction false} TrimStartAllSpace(s: string)
    requires forall k :: 0 <= k < |s| ==> IsSpace(s[k])
    ensures TrimStart(s) == []
  {
    if s != [] {
      TrimStartAllSpace(s[1..]);
    }
  }

  /** The stripped text is empty exactly when `s` is all whitespace. */
  lemma StripEmpty(s: string)
    ensures Strip(s) == [] <==> forall k :: 0 <= k < |s| ==> IsSpace(s[k])
  {
    StripSlice(s);
    StripRemovesSpace(s);
    if forall k :: 0 <= k < |s| ==> IsSpace(s[k]) {
      TrimStartAllSpace(s);
    }
  }

  /** Stripping twice is stripping once. */
  lemma StripIdempotent(s: string)
    ensures Strip(Strip(s)) == Strip(s)
  {
    StripEnds(s);
    var r := Strip(s);
    if r != [] {
      assert TrimStart(r) == r;
      assert TrimEnd(r) == r;
    }
  }
}
