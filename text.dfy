/** String helpers used by the input pipeline: JavaScript's whitespace set,
    String.prototype.trim, and String.prototype.replace with a one-character
    pattern (which replaces only the first occurrence). */
module Text {
  import opened Sequences

  /** ECMAScript WhiteSpace and LineTerminator code points. This one set is what
      String.prototype.trim removes, what Number() strips before parsing, and
      what the regular-expression class \s matches. */
  predicate IsWhitespace(c: char) {
    || c == '\t' || c == '\n' || c == '\U{B}' || c == '\U{C}' || c == '\r'
    || c == ' ' || c == '\U{A0}' || c == '\U{1680}'
    || ('\U{2000}' <= c <= '\U{200A}')
    || c == '\U{2028}' || c == '\U{2029}' || c == '\U{202F}' || c == '\U{205F}'
    || c == '\U{3000}' || c == '\U{FEFF}'
  }

  predicate AllWhitespace(s: string) {
    forall i :: 0 <= i < |s| ==> IsWhitespace(s[i])
  }

  /** True when s is empty or starts and ends with a non-whitespace character. */
  predicate IsTrimmed(s: string) {
    s == [] || (!IsWhitespace(s[0]) && !IsWhitespace(s[|s| - 1]))
  }

  /** Drops the leading whitespace. */
  function TrimStart(s: string): (r: string)
    ensures |r| <= |s|
    ensures r == [] || !IsWhitespace(r[0])
  {
    if |s| > 0 && IsWhitespace(s[0]) then TrimStart(s[1..]) else s
  }

  /** What TrimStart keeps is a suffix of s, and what it drops is whitespace. */
  lemma {:induction false} TrimStartSuffix(s: string)
    ensures var r := TrimStart(s); r == s[|s| - |r|..] && AllWhitespace(s[..|s| - |r|])
  {
    if |s| > 0 && IsWhitespace(s[0]) {
      TrimStartSuffix(s[1..]);
      var r := TrimStart(s);
      assert s[1..][|s| - 1 - |r|..] == s[|s| - |r|..];
    }
  }

  /** Drops the trailing whitespace. */
  function TrimEnd(s: string): (r: string)
    ensures |r| <= |s|
    ensures r == [] || !IsWhitespace(r[|r| - 1])
  {
    if |s| > 0 && IsWhitespace(s[|s| - 1]) then TrimEnd(s[..|s| - 1]) else s
  }

  /** What TrimEnd keeps is a prefix of s, and what it drops is whitespace. */
  lemma {:induction false} TrimEndPrefix(s: string)
    ensures var r := TrimEnd(s); r == s[..|r|] && AllWhitespace(s[|r|..])
  {
    if |s| > 0 && IsWhitespace(s[|s| - 1]) {
      TrimEndPrefix(s[..|s| - 1]);
      var r := TrimEnd(s);
      assert s[..|s| - 1][..|r|] == s[..|r|];
      assert s[|r|..] == s[..|s| - 1][|r|..] + [s[|s| - 1]];
    }
  }

  /** String.prototype.trim. */
  function Trim(s: string): (r: string)
    ensures |r| <= |s| && IsTrimmed(r)
    ensures r == [] <==> AllWhitespace(s)
  {
    var t := TrimStart(s);
    var r := TrimEnd(t);
    TrimStartSuffix(s);
    TrimEndPrefix(t);
    assert r == [] ==> AllWhitespace(s) by {
      if r == [] {
        assert s == s[..|s| - |t|] + t;
        assert t[|r|..] == t;
      }
    }
    assert AllWhitespace(s) ==> r == [] by {
      if AllWhitespace(s) {
        TrimStartAllWhitespace(s);
      }
    }
    r
  }

  /** Trim is determined by its result alone: padding a trimmed string with
      whitespace on either side and trimming gives the string back. */
  lemma TrimOfPadded(a: string, m: string, b: string)
    requires AllWhitespace(a) && AllWhitespace(b) && IsTrimmed(m)
    ensures Trim(a + m + b) == m
  {
    assert a + m + b == a + (m + b);
    if m == [] {
      assert AllWhitespace(a + b);
      TrimStartAllWhitespace(a + m + b);
      assert TrimStart(a + m + b) == [];
    } else {
      assert (m + b)[0] == m[0];
      TrimStartOfPadded(a, m + b);
      TrimEndOfPadded(m, b);
    }
  }

  lemma {:induction false} TrimStartOfPadded(a: string, t: string)
    requires AllWhitespace(a) && (t == [] || !IsWhitespace(t[0]))
    ensures TrimStart(a + t) == t
  {
    if a == [] {
      assert a + t == t;
    } else {
      assert (a + t)[1..] == a[1..] + t;
      TrimStartOfPadded(a[1..], t);
    }
  }

  lemma {:induction false} TrimStartAllWhitespace(s: string)
    requires AllWhitespace(s)
    ensures TrimStart(s) == []
  {
    if s != [] {
      TrimStartAllWhitespace(s[1..]);
    }
  }

  lemma {:induction false} TrimEndOfPadded(m: string, b: string)
    requires AllWhitespace(b) && (m == [] || !IsWhitespace(m[|m| - 1]))
    ensures TrimEnd(m + b) == m
  {
    if b == [] {
      assert m + b == m;
    } else {
      assert (m + b)[..|m + b| - 1] == m + b[..|b| - 1];
      TrimEndOfPadded(m, b[..|b| - 1]);
    }
  }

  /** Every string is its trimmed form padded with whitespace. */
  lemma TrimSplits(s: string) returns (a: string, b: string)
    ensures AllWhitespace(a) && AllWhitespace(b)
    ensures s == a + Trim(s) + b
  {
    var t := TrimStart(s);
    var r := TrimEnd(t);
    TrimStartSuffix(s);
    TrimEndPrefix(t);
    a, b := s[..|s| - |t|], t[|r|..];
    SplitAt(s, |s| - |t|);
    SplitAt(t, |r|);
    Associative(a, r, b);
  }

  /** Whitespace added around any string does not change its trimmed form. */
  lemma TrimOfPaddedString(a: string, s: string, b: string)
    requires AllWhitespace(a) && AllWhitespace(b)
    ensures Trim(a + s + b) == Trim(s)
  {
    var a0, b0 := TrimSplits(s);
    var m := Trim(s);
    Regroup(a, a0, m, b0, b);
    PaddingIsWhitespace(a, a0);
    PaddingIsWhitespace(b0, b);
    TrimOfPadded(a + a0, m, b0 + b);
  }

  lemma PaddingIsWhitespace(x: string, y: string)
    requires AllWhitespace(x) && AllWhitespace(y)
    ensures AllWhitespace(x + y)
  {
  }

  /** Trim is idempotent. */
  lemma TrimIdempotent(s: string)
    ensures Trim(Trim(s)) == Trim(s)
  {
    assert [] + Trim(s) + [] == Trim(s);
    TrimOfPadded([], Trim(s), []);
  }

  /** The position of the first occurrence of c in s. */
  function IndexOf(s: string, c: char): (i: nat)
    requires c in s
    ensures i < |s| && s[i] == c
    ensures forall j :: 0 <= j < i ==> s[j] != c
  {
    if s[0] == c then 0 else 1 + IndexOf(s[1..], c)
  }

  /** String.prototype.replace with a one-character search string: only the
      first occurrence of `target` becomes `replacement`. */
  function ReplaceFirst(s: string, target: char, replacement: char): (r: string)
    ensures |r| == |s|
    ensures target !in s ==> r == s
  {
    if target in s then s[IndexOf(s, target) := replacement] else s
  }

  /** Position by position: a character changes exactly when it is `target`
      and no earlier character is; every later occurrence stays. */
  lemma ReplaceFirstAt(s: string, target: char, replacement: char, k: nat)
    requires k < |s|
    ensures ReplaceFirst(s, target, replacement)[k] ==
      if s[k] == target && target !in s[..k] then replacement else s[k]
  {
    if target in s {
      var i := IndexOf(s, target);
      if k == i {
        assert forall j :: 0 <= j < k ==> s[..k][j] == s[j];
      } else if k > i {
        assert s[..k][i] == target;
      }
    }
  }
}
