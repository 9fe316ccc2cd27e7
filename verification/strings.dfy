/** The JavaScript string primitives the site relies on: the `\s` / `trim`
    whitespace class, `includes`, `replaceAll` / `split(p).join(r)` with a
    literal pattern, `trim`, and an ASCII-only `toLowerCase`. */
module Strings {

  /** ECMAScript WhiteSpace plus LineTerminator: the set matched by `\s` and
      removed by `String.prototype.trim`. NBSP (U+00A0) and BOM (U+FEFF) are
      in it. */
  predicate IsJsSpace(c: char) {
    || c == '\t' || c == '\n' || c == '\U{000B}' || c == '\U{000C}' || c == '\r'
    || c == ' ' || c == '\U{00A0}' || c == '\U{1680}'
    || ('\U{2000}' <= c <= '\U{200A}')
    || c == '\U{2028}' || c == '\U{2029}' || c == '\U{202F}' || c == '\U{205F}'
    || c == '\U{3000}' || c == '\U{FEFF}'
  }

  predicate IsAscii(c: char) {
    c <= '\U{007F}'
  }

  predicate AllAscii(s: string) {
    forall i :: 0 <= i < |s| ==> IsAscii(s[i])
  }

  predicate NoAscii(s: string) {
    forall i :: 0 <= i < |s| ==> !IsAscii(s[i])
  }

  predicate NoJsSpace(s: string) {
    forall i :: 0 <= i < |s| ==> !IsJsSpace(s[i])
  }

  predicate StartsWith(s: string, m: string) {
    |m| <= |s| && s[..|m|] == m
  }

  /** `s.includes(m)` */
  predicate Contains(s: string, m: string)
    decreases |s|
  {
    StartsWith(s, m) || (|s| > 0 && Contains(s[1..], m))
  }

  /** `s.replaceAll(p, r)` for a non-empty literal `p`, which is also what
      `s.split(p).join(r)` computes: occurrences are found left to right
      and do not overlap. */
  function ReplaceAll(s: string, p: string, r: string): string
    requires |p| > 0
    decreases |s|
  {
    if |s| < |p| then s
    else if s[..|p|] == p then r + ReplaceAll(s[|p|..], p, r)
    else [s[0]] + ReplaceAll(s[1..], p, r)
  }

  /** `s.trimStart()`: the removed prefix is all whitespace and what is left
      does not start with whitespace. */
  function TrimStart(s: string): (r: string)
    ensures |r| <= |s| && r == s[|s| - |r|..]
    ensures |r| > 0 ==> !IsJsSpace(r[0])
    ensures forall i :: 0 <= i < |s| - |r| ==> IsJsSpace(s[i])
    decreases |s|
  {
    if |s| > 0 && IsJsSpace(s[0]) then TrimStart(s[1..]) else s
  }

  /** `s.trimEnd()`: the removed suffix is all whitespace and what is left
      does not end with whitespace. */
  function TrimEnd(s: string): (r: string)
    ensures |r| <= |s| && r == s[..|r|]
    ensures |r| > 0 ==> !IsJsSpace(r[|r| - 1])
    ensures forall i :: |r| <= i < |s| ==> IsJsSpace(s[i])
    decreases |s|
  {
    if |s| > 0 && IsJsSpace(s[|s| - 1]) then TrimEnd(s[..|s| - 1]) else s
  }

  /** `s.trim()`: a slice of `s` that neither starts nor ends with
      whitespace; `TrimDropsOnlySpace` shows that only whitespace is cut. */
  function Trim(s: string): (r: string)
    ensures |r| > 0 ==> !IsJsSpace(r[0]) && !IsJsSpace(r[|r| - 1])
    ensures |s| - |TrimStart(s)| + |r| <= |s|
    ensures r == s[|s| - |TrimStart(s)|..|s| - |TrimStart(s)| + |r|]
  {
    TrimEnd(TrimStart(s))
  }

  /** `s || fallback` on a string: the fallback replaces the empty
      string. */
  function OrElse(s: string, fallback: string): (r: string)
    ensures fallback != "" ==> r != ""
    ensures r == fallback <==> s == "" || s == fallback
    ensures s != "" ==> r == s
  {
    if s != "" then s else fallback
  }

  /** A field the site treats as missing: `!x.trim()`. */
  predicate IsBlank(s: string) {
    Trim(s) == []
  }

  function LowerChar(c: char): (d: char)
    ensures 'A' <= c <= 'Z' ==> 'a' <= d <= 'z' && d as int == c as int + 32
    ensures !('A' <= c <= 'Z') ==> d == c
  {
    if 'A' <= c <= 'Z' then (c as int + 32) as char else c
  }

  /** `s.toLowerCase()` restricted to the ASCII letters. */
  function Lower(s: string): (r: string)
    ensures |r| == |s|
    ensures forall i :: 0 <= i < |s| ==> r[i] == LowerChar(s[i])
  {
    seq(|s|, i requires 0 <= i < |s| => LowerChar(s[i]))
  }

  // ---------------------------------------------------------------------
  // Lemmas about Contains

  /** `m` occurs in `s` starting at index `i`. */
  predicate OccursAt(s: string, m: string, i: int) {
    0 <= i && i + |m| <= |s| && s[i..i + |m|] == m
  }

  /** The recursive `Contains` is the usual "occurs at some index". */
  lemma {:induction false} ContainsAt(s: string, m: string)
    ensures Contains(s, m) <==> exists i :: OccursAt(s, m, i)
    decreases |s|
  {
    if StartsWith(s, m) {
      assert OccursAt(s, m, 0);
    } else if |s| == 0 {
    } else {
      ContainsAt(s[1..], m);
      if exists i :: OccursAt(s, m, i) {
        var i :| OccursAt(s, m, i);
        assert i != 0;
        OccursShift(s, m, i - 1);
      }
      if Contains(s[1..], m) {
        var i :| OccursAt(s[1..], m, i);
        OccursShift(s, m, i);
      }
    }
  }

  /** An occurrence in the tail is an occurrence one place later. */
  lemma OccursShift(s: string, m: string, i: int)
    requires |s| > 0 && 0 <= i
    ensures OccursAt(s[1..], m, i) <==> OccursAt(s, m, i + 1)
  {
    if i + |m| <= |s| - 1 {
      assert s[1..][i..i + |m|] == s[i + 1..i + 1 + |m|];
    }
  }

  lemma {:induction false} ContainsSuffix(s: string, k: nat, m: string)
    requires k <= |s|
    requires Contains(s[k..], m)
    ensures Contains(s, m)
    decreases k
  {
    if k > 0 {
      assert s[1..][k - 1..] == s[k..];
      ContainsSuffix(s[1..], k - 1, m);
    }
  }

  lemma {:induction false} ContainsPrefix(s: string, k: nat, m: string)
    requires k <= |s|
    requires Contains(s[..k], m)
    ensures Contains(s, m)
    decreases k
  {
    if StartsWith(s[..k], m) {
      assert s[..|m|] == s[..k][..|m|];
    } else {
      assert s[..k][1..] == s[1..][..k - 1];
      ContainsPrefix(s[1..], k - 1, m);
    }
  }

  lemma ContainsSlice(s: string, a: nat, b: nat, m: string)
    requires a <= b <= |s|
    requires Contains(s[a..b], m)
    ensures Contains(s, m)
  {
    assert s[a..b] == s[a..][..b - a];
    ContainsPrefix(s[a..], b - a, m);
    ContainsSuffix(s, a, m);
  }

  /** A single-character pattern occurs exactly when the character does. */
  lemma {:induction false} ContainsChar(s: string, c: char)
    ensures Contains(s, [c]) <==> c in s
    decreases |s|
  {
    if |s| > 0 {
      ContainsChar(s[1..], c);
      assert s == [s[0]] + s[1..];
      assert StartsWith(s, [c]) <==> s[0] == c by {
        assert s[..1] == [s[0]];
      }
    }
  }

  /** An occurrence of `m` in `a + b` whose first character is never in `a`
      must lie in `b`. */
  lemma {:induction false} ContainsSkipPrefix(a: string, b: string, m: string)
    requires |m| > 0
    requires forall i :: 0 <= i < |a| ==> a[i] != m[0]
    requires Contains(a + b, m)
    ensures Contains(b, m)
    decreases |a|
  {
    if |a| > 0 {
      assert !StartsWith(a + b, m) by {
        assert (a + b)[0] == a[0];
      }
      assert (a + b)[1..] == a[1..] + b;
      assert forall i :: 0 <= i < |a[1..]| ==> a[1..][i] == a[i + 1];
      ContainsSkipPrefix(a[1..], b, m);
    } else {
      assert a + b == b;
    }
  }

  // ---------------------------------------------------------------------
  // Lemmas about ReplaceAll

  /** With no occurrence of the pattern the text is returned unchanged. */
  lemma {:induction false} ReplaceAllAbsent(s: string, p: string, r: string)
    requires |p| > 0
    requires !Contains(s, p)
    ensures ReplaceAll(s, p, r) == s
    decreases |s|
  {
    if |s| >= |p| {
      ReplaceAllAbsent(s[1..], p, r);
      assert s == [s[0]] + s[1..];
    }
  }

  /** A character that is neither in the text nor in the replacement does
      not appear in the result. */
  lemma {:induction false} ReplaceAllNoNewChar(s: string, p: string, r: string, c: char)
    requires |p| > 0
    requires c !in s && c !in r
    ensures c !in ReplaceAll(s, p, r)
    decreases |s|
  {
    if |s| >= |p| {
      if s[..|p|] == p {
        ReplaceAllNoNewChar(s[|p|..], p, r, c);
      } else {
        ReplaceAllNoNewChar(s[1..], p, r, c);
      }
    }
  }

  /** Replacing a one-character pattern by text without that character
      removes the character entirely. */
  lemma {:induction false} ReplaceAllRemovesChar(s: string, c: char, r: string)
    requires c !in r
    ensures c !in ReplaceAll(s, [c], r)
    decreases |s|
  {
    if |s| >= 1 {
      if s[..1] == [c] {
        ReplaceAllRemovesChar(s[1..], c, r);
      } else {
        assert s[0] != c;
        ReplaceAllRemovesChar(s[1..], c, r);
      }
    }
  }

  /** `s.replaceAll(" ", "_")` */
  function SpacesToUnderscores(s: string): (r: string)
    ensures |r| == |s|
    ensures forall i {:trigger r[i]} :: 0 <= i < |s| ==> r[i] == (if s[i] == ' ' then '_' else s[i])
  {
    assert " " == [' '] && "_" == ['_'];
    ReplaceCharPointwise(s, ' ', '_');
    ReplaceAll(s, " ", "_")
  }

  /** For text without underscores the replacement is undone by replacing
      every underscore by a space again. */
  lemma UnderscoresBack(s: string)
    requires '_' !in s
    ensures ReplaceAll(SpacesToUnderscores(s), "_", " ") == s
  {
    var u := SpacesToUnderscores(s);
    assert " " == [' '] && "_" == ['_'];
    ReplaceCharPointwise(u, '_', ' ');
    var b := ReplaceAll(u, "_", " ");
    forall i | 0 <= i < |s|
      ensures b[i] == s[i]
    {
      assert u[i] == (if s[i] == ' ' then '_' else s[i]);
    }
  }

  /** Replacing one character by another works position by position: the
      length is kept and every occurrence of `a`, and nothing else, becomes
      `b`. */
  lemma {:induction false} ReplaceCharPointwise(s: string, a: char, b: char)
    ensures |ReplaceAll(s, [a], [b])| == |s|
    ensures forall i :: 0 <= i < |s| ==> ReplaceAll(s, [a], [b])[i] == (if s[i] == a then b else s[i])
    decreases |s|
  {
    if |s| >= 1 {
      ReplaceCharPointwise(s[1..], a, b);
      var t := ReplaceAll(s[1..], [a], [b]);
      var head := if s[..1] == [a] then [b] else [s[0]];
      assert ReplaceAll(s, [a], [b]) == head + t;
      assert s[..1] == [a] <==> s[0] == a;
      forall i | 0 <= i < |s|
        ensures ReplaceAll(s, [a], [b])[i] == (if s[i] == a then b else s[i])
      {
        if i > 0 {
          assert s[i] == s[1..][i - 1];
        }
      }
    }
  }

  /** Replacement never lowers the number of a character the pattern does
      not contain, and keeps it exactly when the replacement lacks it too. */
  lemma {:induction false} ReplaceAllCount(s: string, p: string, r: string, c: char)
    requires |p| > 0
    requires c !in p
    ensures multiset(ReplaceAll(s, p, r))[c] >= multiset(s)[c]
    ensures c !in r ==> multiset(ReplaceAll(s, p, r))[c] == multiset(s)[c]
    decreases |s|
  {
    if |s| >= |p| {
      if s[..|p|] == p {
        ReplaceAllCount(s[|p|..], p, r, c);
        assert s == s[..|p|] + s[|p|..];
        assert multiset(s[..|p|])[c] == 0;
      } else {
        ReplaceAllCount(s[1..], p, r, c);
        assert s == [s[0]] + s[1..];
      }
    }
  }

  /** With a non-empty ASCII replacement, a non-ASCII text that starts the
      result already started the input. */
  lemma {:induction false} ReplaceAllPrefix(s: string, p: string, r: string, m: string)
    requires |p| > 0 && |r| > 0 && AllAscii(r)
    requires |m| > 0 && NoAscii(m)
    requires StartsWith(ReplaceAll(s, p, r), m)
    ensures StartsWith(s, m)
    decreases |s|
  {
    var out := ReplaceAll(s, p, r);
    if |s| < |p| {
    } else if s[..|p|] == p {
      assert false;
    } else {
      var t := ReplaceAll(s[1..], p, r);
      assert out == [s[0]] + t;
      assert m[0] == s[0] by { assert out[..|m|][0] == m[0]; }
      if |m| > 1 {
        assert t[..|m| - 1] == m[1..] by { assert out[..|m|] == [s[0]] + t[..|m| - 1]; }
        ReplaceAllPrefix(s[1..], p, r, m[1..]);
        assert s[..|m|] == [s[0]] + s[1..][..|m| - 1];
      }
    }
  }

  /** With a non-empty ASCII replacement, replacement cannot create an
      occurrence of a non-ASCII text. */
  lemma {:induction false} ReplaceAllNoNewOccurrence(s: string, p: string, r: string, m: string)
    requires |p| > 0 && |r| > 0 && AllAscii(r)
    requires |m| > 0 && NoAscii(m)
    requires Contains(ReplaceAll(s, p, r), m)
    ensures Contains(s, m)
    decreases |s|
  {
    var out := ReplaceAll(s, p, r);
    if StartsWith(out, m) {
      ReplaceAllPrefix(s, p, r, m);
    } else if |s| < |p| {
    } else if s[..|p|] == p {
      var t := ReplaceAll(s[|p|..], p, r);
      assert out == r + t;
      assert out[1..] == r[1..] + t;
      ContainsSkipPrefix(r[1..], t, m);
      ReplaceAllNoNewOccurrence(s[|p|..], p, r, m);
      ContainsSuffix(s, |p|, m);
    } else {
      var t := ReplaceAll(s[1..], p, r);
      assert out[1..] == t;
      ReplaceAllNoNewOccurrence(s[1..], p, r, m);
      ContainsSuffix(s, 1, m);
    }
  }

  /** A non-ASCII pattern replaced by non-empty ASCII text leaves no
      occurrence of itself. */
  lemma {:induction false} ReplaceAllRemovesPattern(s: string, p: string, r: string)
    requires |p| > 0 && NoAscii(p)
    requires |r| > 0 && AllAscii(r)
    ensures !Contains(ReplaceAll(s, p, r), p)
    decreases |s|
  {
    var out := ReplaceAll(s, p, r);
    if |s| < |p| {
      if Contains(s, p) {
        ContainsAt(s, p);
      }
    } else if s[..|p|] == p {
      var t := ReplaceAll(s[|p|..], p, r);
      ReplaceAllRemovesPattern(s[|p|..], p, r);
      assert out == r + t;
      if Contains(out, p) {
        ContainsSkipPrefix(r, t, p);
      }
    } else {
      var t := ReplaceAll(s[1..], p, r);
      ReplaceAllRemovesPattern(s[1..], p, r);
      assert out == [s[0]] + t;
      if StartsWith(out, p) {
        ReplaceAllPrefix(s, p, r, p);
      }
      assert out[1..] == t;
    }
  }

  // ---------------------------------------------------------------------
  // Lemmas about Trim

  /** `trim` cuts nothing but whitespace, at either end. */
  lemma TrimDropsOnlySpace(s: string)
    ensures forall i :: 0 <= i < |s| - |TrimStart(s)| ==> IsJsSpace(s[i])
    ensures forall i :: |s| - |TrimStart(s)| + |Trim(s)| <= i < |s| ==> IsJsSpace(s[i])
  {
    var t := TrimStart(s);
    var a := |s| - |t|;
    var u := TrimEnd(t);
    assert Trim(s) == u;
    forall i | a + |u| <= i < |s|
      ensures IsJsSpace(s[i])
    {
      var j := i - a;
      assert |u| <= j < |t|;
      assert t[j] == s[i];
      assert IsJsSpace(t[j]);
    }
  }

  /** `trim` keeps a text with no surrounding whitespace. */
  lemma TrimNoEdges(s: string)
    requires |s| > 0 ==> !IsJsSpace(s[0]) && !IsJsSpace(s[|s| - 1])
    ensures Trim(s) == s
  {
  }

  /** A text is blank exactly when every character is whitespace. */
  lemma BlankIffAllSpace(s: string)
    ensures IsBlank(s) <==> forall i :: 0 <= i < |s| ==> IsJsSpace(s[i])
  {
  }
}
