/**
 * The string primitives the services lean on: .NET `char.IsWhiteSpace`, `Trim`,
 * `string.IsNullOrWhiteSpace`, ordinal case-insensitive equality, SQLite's BINARY
 * collation and SQLite's `LIKE`.
 */
module Text {
  import opened Wrappers

  /** The characters .NET's `char.IsWhiteSpace` accepts (Unicode White_Space). */
  predicate IsWhiteSpace(c: char) {
    || ('\t' <= c <= '\r')
    || c == ' ' || c == '\U{85}' || c == '\U{A0}' || c == '\U{1680}'
    || ('\U{2000}' <= c <= '\U{200A}')
    || c == '\U{2028}' || c == '\U{2029}' || c == '\U{202F}' || c == '\U{205F}' || c == '\U{3000}'
  }

  ghost predicate AllWhiteSpace(s: string) {
    forall i :: 0 <= i < |s| ==> IsWhiteSpace(s[i])
  }

  /** `string.IsNullOrWhiteSpace`; `None` stands for a null reference. */
  predicate IsNullOrWhiteSpace(s: Option<string>) {
    s.None? || forall i :: 0 <= i < |s.value| ==> IsWhiteSpace(s.value[i])
  }

  /** Drops leading white space. */
  function TrimStart(s: string): (r: string)
    ensures |r| <= |s| && r == s[|s| - |r|..]
    ensures AllWhiteSpace(s[..|s| - |r|])
    ensures r != [] ==> !IsWhiteSpace(r[0])
    decreases |s|
  {
    if s != [] && IsWhiteSpace(s[0]) then
      var r := TrimStart(s[1..]);
      assert s[..|s| - |r|] == [s[0]] + s[1..][..|s| - 1 - |r|];
      r
    else s
  }

  /** Drops trailing white space. */
  function TrimEnd(s: string): (r: string)
    ensures |r| <= |s| && r == s[..|r|]
    ensures AllWhiteSpace(s[|r|..])
    ensures r != [] ==> !IsWhiteSpace(r[|r| - 1])
    decreases |s|
  {
    if s != [] && IsWhiteSpace(s[|s| - 1]) then
      var r := TrimEnd(s[..|s| - 1]);
      assert s[|r|..] == s[..|s| - 1][|r|..] + [s[|s| - 1]];
      r
    else s
  }

  /** `string.Trim()`: the longest infix with no white space at either end. */
  function Trim(s: string): (r: string)
    ensures exists i :: 0 <= i <= |s| - |r| && s[i..][..|r|] == r
    ensures r != [] ==> !IsWhiteSpace(r[0]) && !IsWhiteSpace(r[|r| - 1])
  {
    var t := TrimStart(s);
    var r := TrimEnd(t);
    assert s[|s| - |t|..][..|r|] == r;
    r
  }

  lemma {:induction false} TrimStartAllWhiteSpace(s: string)
    requires AllWhiteSpace(s)
    ensures TrimStart(s) == []
    decreases |s|
  {
    if s != [] {
      assert AllWhiteSpace(s[1..]) by {
        assert forall i :: 0 <= i < |s[1..]| ==> s[1..][i] == s[i + 1];
      }
      TrimStartAllWhiteSpace(s[1..]);
    }
  }

  /** Trimming leaves nothing exactly when the text is all white space. */
  lemma TrimEmptyIffWhiteSpace(s: string)
    ensures Trim(s) == [] <==> AllWhiteSpace(s)
  {
    var t := TrimStart(s);
    if AllWhiteSpace(s) {
      TrimStartAllWhiteSpace(s);
    }
    if Trim(s) == [] {
      assert AllWhiteSpace(t[|TrimEnd(t)|..]);
      assert s == s[..|s| - |t|] + t;
    }
  }

  /** Trimming a string that has no white space at its ends changes nothing. */
  lemma TrimIdempotent(s: string)
    ensures Trim(Trim(s)) == Trim(s)
  {
  }

  // ---------------------------------------------------------------------------
  // Case-insensitive comparison (ASCII letters fold; see README "Left out").

  function ToLowerAscii(c: char): (r: char)
    ensures 'A' <= c <= 'Z' ==> r as int == c as int + 32
    ensures !('A' <= c <= 'Z') ==> r == c
  {
    if 'A' <= c <= 'Z' then (c as int + 32) as char else c
  }

  function FoldCase(s: string): (r: string)
    ensures |r| == |s|
  {
    seq(|s|, i requires 0 <= i < |s| => ToLowerAscii(s[i]))
  }

  /** `a.Equals(b, StringComparison.OrdinalIgnoreCase)`. */
  predicate EqualsIgnoreCase(a: string, b: string) {
    FoldCase(a) == FoldCase(b)
  }

  lemma EqualsIgnoreCaseOfEqual(a: string, b: string)
    requires a == b
    ensures EqualsIgnoreCase(a, b)
  {
  }

  // ---------------------------------------------------------------------------
  // SQLite BINARY collation: code-point-wise lexicographic order.

  predicate StrLe(a: string, b: string)
    decreases |a|
  {
    if a == [] then true
    else if b == [] then false
    else if a[0] < b[0] then true
    else a[0] == b[0] && StrLe(a[1..], b[1..])
  }

  predicate StrLt(a: string, b: string) {
    StrLe(a, b) && a != b
  }

  lemma {:induction false} StrLeReflexive(a: string)
    ensures StrLe(a, a)
    decreases |a|
  {
    if a != [] {
      StrLeReflexive(a[1..]);
    }
  }

  lemma {:induction false} StrLeTotal(a: string, b: string)
    ensures StrLe(a, b) || StrLe(b, a)
    decreases |a|
  {
    if a != [] && b != [] && a[0] == b[0] {
      StrLeTotal(a[1..], b[1..]);
    }
  }

  lemma {:induction false} StrLeTransitive(a: string, b: string, c: string)
    requires StrLe(a, b) && StrLe(b, c)
    ensures StrLe(a, c)
    decreases |a|
  {
    if a != [] && b != [] && c != [] && a[0] == b[0] && b[0] == c[0] {
      StrLeTransitive(a[1..], b[1..], c[1..]);
    }
  }

  lemma {:induction false} StrLeAntisymmetric(a: string, b: string)
    requires StrLe(a, b) && StrLe(b, a)
    ensures a == b
    decreases |a|
  {
    if a != [] {
      StrLeAntisymmetric(a[1..], b[1..]);
      assert a == [a[0]] + a[1..];
      assert b == [b[0]] + b[1..];
    }
  }

  // ---------------------------------------------------------------------------
  // SQLite `LIKE` without an ESCAPE clause: `%` matches any run of characters,
  // `_` exactly one, and every other pattern character matches itself up to
  // ASCII case.

  function Like(pattern: string, s: string): bool
    decreases |pattern|, |s|
  {
    if pattern == [] then s == []
    else if pattern[0] == '%' then Like(pattern[1..], s) || (s != [] && Like(pattern, s[1..]))
    else
      && s != []
      && (pattern[0] == '_' || ToLowerAscii(pattern[0]) == ToLowerAscii(s[0]))
      && Like(pattern[1..], s[1..])
  }

  ghost predicate NoWildcards(t: string) {
    forall i :: 0 <= i < |t| ==> t[i] != '%' && t[i] != '_'
  }

  /** `u` begins with `t`, ignoring ASCII case. */
  ghost predicate StartsWithIgnoreCase(u: string, t: string) {
    |t| <= |u| && forall k :: 0 <= k < |t| ==> ToLowerAscii(u[k]) == ToLowerAscii(t[k])
  }

  /** `t` occurs somewhere in `s`, ignoring ASCII case. */
  ghost predicate ContainsIgnoreCase(s: string, t: string) {
    exists i :: 0 <= i <= |s| && StartsWithIgnoreCase(s[i..], t)
  }

  lemma {:induction false} LikePercentMatchesAll(s: string)
    ensures Like("%", s)
    decreases |s|
  {
    if s != [] {
      LikePercentMatchesAll(s[1..]);
    }
  }

  lemma {:induction false} LikeTrailingPercent(t: string, s: string)
    requires NoWildcards(t)
    ensures Like(t + "%", s) <==> StartsWithIgnoreCase(s, t)
    decreases |t|
  {
    if t == [] {
      assert t + "%" == "%";
      LikePercentMatchesAll(s);
    } else {
      assert (t + "%")[1..] == t[1..] + "%";
      if s != [] {
        LikeTrailingPercent(t[1..], s[1..]);
        if StartsWithIgnoreCase(s, t) {
          assert forall k :: 0 <= k < |t[1..]| ==> s[1..][k] == s[k + 1] && t[1..][k] == t[k + 1];
        }
        if Like(t + "%", s) {
          forall k | 0 <= k < |t| ensures ToLowerAscii(s[k]) == ToLowerAscii(t[k]) {
            if k > 0 {
              assert s[1..][k - 1] == s[k];
            }
          }
        }
      }
    }
  }

  lemma {:induction false} LikeLeadingPercent(q: string, s: string)
    ensures Like("%" + q, s) <==> exists i :: 0 <= i <= |s| && Like(q, s[i..])
    decreases |s|
  {
    assert ("%" + q)[1..] == q;
    assert s[0..] == s;
    if s != [] {
      LikeLeadingPercent(q, s[1..]);
      if Like("%" + q, s[1..]) {
        var i :| 0 <= i <= |s[1..]| && Like(q, s[1..][i..]);
        assert s[1..][i..] == s[i + 1..];
      }
      if exists i :: 0 <= i <= |s| && Like(q, s[i..]) {
        var i :| 0 <= i <= |s| && Like(q, s[i..]);
        if i > 0 {
          assert s[1..][i - 1..] == s[i..];
        }
      }
    }
  }

  /** The pattern `'%' + t + '%'` built by the search is a case-insensitive substring test. */
  lemma LikeIsContains(t: string, s: string)
    requires NoWildcards(t)
    ensures Like("%" + t + "%", s) <==> ContainsIgnoreCase(s, t)
  {
    assert "%" + t + "%" == "%" + (t + "%");
    LikeLeadingPercent(t + "%", s);
    forall i | 0 <= i <= |s|
      ensures Like(t + "%", s[i..]) <==> StartsWithIgnoreCase(s[i..], t)
    {
      LikeTrailingPercent(t, s[i..]);
    }
  }
}
