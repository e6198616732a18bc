/** Character and string primitives the ingest script relies on: the
    ECMAScript whitespace set (used both by the regex class `\s` and by
    `String.prototype.trim`), `trim` itself, and the case-insensitive
    character comparison of a non-Unicode `/i` regular expression. */
module Text {

  /** ECMAScript WhiteSpace and LineTerminator code points: tab, line feed,
      vertical tab, form feed, carriage return, the space separators (Zs),
      the line and paragraph separators and the byte order mark. */
  predicate IsSpace(c: char) {
    || c == '\t' || c == '\n' || c == '\U{B}' || c == '\U{C}' || c == '\r'
    || c == ' ' || c == '\U{A0}' || c == '\U{1680}'
    || ('\U{2000}' <= c <= '\U{200A}')
    || c == '\U{2028}' || c == '\U{2029}' || c == '\U{202F}' || c == '\U{205F}'
    || c == '\U{3000}' || c == '\U{FEFF}'
  }

  predicate AllSpace(s: string) {
    forall i :: 0 <= i < |s| ==> IsSpace(s[i])
  }

  /** Neither starts nor ends with whitespace. */
  predicate IsTrimmed(s: string) {
    s == [] || (!IsSpace(s[0]) && !IsSpace(s[|s| - 1]))
  }

  /** Drops the whitespace at the start of `s`. */
  function TrimStart(s: string): (r: string)
    ensures |r| <= |s|
    ensures r == [] || !IsSpace(r[0])
  {
    if s != [] && IsSpace(s[0]) then TrimStart(s[1..]) else s
  }

  /** Drops the whitespace at the end of `s`. */
  function TrimEnd(s: string): (r: string)
    ensures |r| <= |s|
    ensures r == [] || !IsSpace(r[|r| - 1])
  {
    if s != [] && IsSpace(s[|s| - 1]) then TrimEnd(s[..|s| - 1]) else s
  }

  /** What `TrimStart` drops is whitespace. */
  lemma {:induction false} TrimStartSplits(s: string) returns (a: string)
    ensures AllSpace(a) && s == a + TrimStart(s)
  {
    if s != [] && IsSpace(s[0]) {
      var a' := TrimStartSplits(s[1..]);
      a := [s[0]] + a';
      assert s == [s[0]] + s[1..];
    } else {
      a := [];
    }
  }

  /** What `TrimEnd` drops is whitespace. */
  lemma {:induction false} TrimEndSplits(s: string) returns (b: string)
    ensures AllSpace(b) && s == TrimEnd(s) + b
  {
    if s != [] && IsSpace(s[|s| - 1]) {
      var b' := TrimEndSplits(s[..|s| - 1]);
      b := b' + [s[|s| - 1]];
      assert s == s[..|s| - 1] + [s[|s| - 1]];
    } else {
      b := [];
    }
  }

  /** `String.prototype.trim`: drop the leading, then the trailing whitespace. */
  function Trim(s: string): (r: string)
    ensures IsTrimmed(r)
    ensures |r| <= |s|
  {
    var t := TrimStart(s);
    assert TrimEnd(t) == [] || TrimEnd(t)[0] == t[0] by {
      var b := TrimEndSplits(t);
      if TrimEnd(t) != [] { assert t[0] == (TrimEnd(t) + b)[0]; }
    }
    TrimEnd(t)
  }

  lemma {:induction false} TrimStartAppend(a: string, t: string)
    requires AllSpace(a) && (t == [] || !IsSpace(t[0]))
    ensures TrimStart(a + t) == t
  {
    if a != [] {
      assert (a + t)[1..] == a[1..] + t;
      TrimStartAppend(a[1..], t);
    } else {
      assert a + t == t;
    }
  }

  lemma {:induction false} TrimEndAppend(t: string, b: string)
    requires AllSpace(b) && (t == [] || !IsSpace(t[|t| - 1]))
    ensures TrimEnd(t + b) == t
  {
    if b != [] {
      var b' := b[..|b| - 1];
      assert (t + b)[..|t + b| - 1] == t + b';
      TrimEndAppend(t, b');
    } else {
      assert t + b == t;
    }
  }

  /** `trim` removes exactly the surrounding whitespace: whatever the
      whitespace `a` before and `b` after a trimmed string `m`, trimming
      `a + m + b` gives back `m`. This characterises `Trim` independently of
      how it scans. */
  lemma TrimRemovesSurroundingSpace(a: string, m: string, b: string)
    requires AllSpace(a) && AllSpace(b) && IsTrimmed(m)
    ensures Trim(a + m + b) == m
  {
    if m == [] {
      assert a + m + b == a + b;
      assert AllSpace(a + b) by {
        forall i | 0 <= i < |a + b| ensures IsSpace((a + b)[i]) {
          if i >= |a| { assert (a + b)[i] == b[i - |a|]; }
        }
      }
      TrimStartAppend(a + b, []);
      assert (a + b) + [] == a + b;
    } else {
      assert a + m + b == a + (m + b);
      TrimStartAppend(a, m + b);
      TrimEndAppend(m, b);
    }
  }

  /** Every string is its trimmed form surrounded by whitespace. */
  lemma TrimSplits(s: string) returns (a: string, b: string)
    ensures AllSpace(a) && AllSpace(b)
    ensures s == a + Trim(s) + b
  {
    a := TrimStartSplits(s);
    b := TrimEndSplits(TrimStart(s));
  }

  /** Trimming twice is trimming once. */
  lemma TrimIdempotent(s: string)
    ensures Trim(Trim(s)) == Trim(s)
  {
    TrimRemovesSurroundingSpace([], Trim(s), []);
    assert [] + Trim(s) + [] == Trim(s);
  }

  /** A trimmed string is its own trim. */
  lemma TrimOfTrimmed(s: string)
    requires IsTrimmed(s)
    ensures Trim(s) == s
  {
    TrimRemovesSurroundingSpace([], s, []);
    assert [] + s + [] == s;
  }

  /** `trim` yields the empty string exactly when the input is all whitespace. */
  lemma TrimEmptyIff(s: string)
    ensures Trim(s) == [] <==> AllSpace(s)
  {
    var a, b := TrimSplits(s);
    if Trim(s) == [] {
      assert s == a + b;
      forall i | 0 <= i < |s| ensures IsSpace(s[i]) {
        if i >= |a| { assert s[i] == b[i - |a|]; } else { assert s[i] == a[i]; }
      }
    }
    if AllSpace(s) {
      TrimRemovesSurroundingSpace(s, [], []);
      assert s + [] + [] == s;
    }
  }

  /** Upper-casing of the ASCII letters, identity elsewhere. */
  function Upper(c: char): char {
    if 'a' <= c <= 'z' then (c as int - 32) as char else c
  }

  /** Equal up to ASCII case. */
  predicate EqualsIgnoreCase(s: string, p: string) {
    |s| == |p| && forall i :: 0 <= i < |s| ==> Upper(s[i]) == Upper(p[i])
  }

  predicate StartsWithIgnoreCase(s: string, p: string) {
    |p| <= |s| && EqualsIgnoreCase(s[..|p|], p)
  }

  /** `p` occurs in `s` up to ASCII case, scanning the start positions left to right. */
  predicate ContainsIgnoreCase(s: string, p: string) {
    StartsWithIgnoreCase(s, p) || (s != [] && ContainsIgnoreCase(s[1..], p))
  }

  /** `p` occurs in `s` at position `i`, up to ASCII case. */
  predicate OccursAt(s: string, p: string, i: int) {
    0 <= i && i + |p| <= |s| && EqualsIgnoreCase(s[i..i + |p|], p)
  }

  /** `ContainsIgnoreCase` holds exactly when `p` occurs somewhere in `s`. */
  lemma {:induction false} ContainsIgnoreCaseIff(s: string, p: string)
    ensures ContainsIgnoreCase(s, p) <==> exists i :: OccursAt(s, p, i)
  {
    if s != [] {
      ContainsIgnoreCaseIff(s[1..], p);
      if ContainsIgnoreCase(s[1..], p) {
        var i :| OccursAt(s[1..], p, i);
        assert s[1..][i..i + |p|] == s[i + 1..i + 1 + |p|];
        assert OccursAt(s, p, i + 1);
      }
      if StartsWithIgnoreCase(s, p) {
        assert s[..|p|] == s[0..0 + |p|];
        assert OccursAt(s, p, 0);
      }
      if exists i :: OccursAt(s, p, i) {
        var i :| OccursAt(s, p, i);
        if i > 0 {
          assert s[1..][i - 1..i - 1 + |p|] == s[i..i + |p|];
          assert OccursAt(s[1..], p, i - 1);
        } else {
          assert s[..|p|] == s[i..i + |p|];
        }
      }
    } else {
      assert StartsWithIgnoreCase(s, p) <==> p == [];
      if p == [] { assert s[0..0] == p; assert OccursAt(s, p, 0); }
    }
  }

  /** Case-insensitive prefix of a concatenated pattern, piece by piece. */
  lemma StartsWithConcat(s: string, p: string, q: string)
    ensures StartsWithIgnoreCase(s, p + q) <==>
      StartsWithIgnoreCase(s, p) && StartsWithIgnoreCase(s[|p|..], q)
  {
    if StartsWithIgnoreCase(s, p) && StartsWithIgnoreCase(s[|p|..], q) {
      forall i | 0 <= i < |p + q| ensures Upper(s[..|p + q|][i]) == Upper((p + q)[i]) {
        if i >= |p| {
          assert s[..|p + q|][i] == s[|p|..][..|q|][i - |p|];
        } else {
          assert s[..|p + q|][i] == s[..|p|][i];
        }
      }
    }
    if StartsWithIgnoreCase(s, p + q) {
      forall i | 0 <= i < |p| ensures Upper(s[..|p|][i]) == Upper(p[i]) {
        assert s[..|p|][i] == s[..|p + q|][i];
        assert (p + q)[i] == p[i];
      }
      forall i | 0 <= i < |q| ensures Upper(s[|p|..][..|q|][i]) == Upper(q[i]) {
        assert s[|p|..][..|q|][i] == s[..|p + q|][|p| + i];
        assert (p + q)[|p| + i] == q[i];
      }
    }
  }

  /** One differing character rules out an occurrence at position `i`. */
  lemma MismatchExcludes(s: string, p: string, i: int, j: int)
    requires 0 <= i && 0 <= j < |p| && i + j < |s|
    requires Upper(s[i + j]) != Upper(p[j])
    ensures !OccursAt(s, p, i)
  {
    if i + |p| <= |s| {
      assert s[i..i + |p|][j] == s[i + j];
    }
  }
}
