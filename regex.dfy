/** The fragment of JavaScript regular expressions that the ingest script's
    three header patterns are written in, with the matching semantics those
    patterns have under the `i` flag: literal characters compared up to
    ASCII case, a character made optional by `?`, and `\s*`. */
module Regex {
  import opened Text

  datatype Atom =
    | Word(w: string)    // a run of literal characters
    | Optional(c: char)  // `c?`
    | Spaces             // `\s*`

  type Pattern = seq<Atom>

  /** Some prefix of `s` matches `p`; when `toEnd` holds the match must also
      reach the end of `s`, as a trailing `$` demands. Alternatives are
      explored exhaustively, as backtracking does. */
  predicate MatchHere(s: string, p: Pattern, toEnd: bool)
    decreases |p|, |s|
  {
    if p == [] then !toEnd || s == []
    else match p[0]
      case Word(w) =>
        StartsWithIgnoreCase(s, w) && MatchHere(s[|w|..], p[1..], toEnd)
      case Optional(c) =>
        (StartsWithIgnoreCase(s, [c]) && MatchHere(s[1..], p[1..], toEnd))
        || MatchHere(s, p[1..], toEnd)
      case Spaces =>
        (s != [] && IsSpace(s[0]) && MatchHere(s[1..], p, toEnd))
        || MatchHere(s, p[1..], toEnd)
  }

  /** `/p/i.test(s)`: a match starts at some position of `s`. */
  predicate Test(s: string, p: Pattern) {
    MatchHere(s, p, false) || (s != [] && Test(s[1..], p))
  }

  /** `/^p$/i.test(s)`: the whole of `s` matches. */
  predicate TestAnchored(s: string, p: Pattern) {
    MatchHere(s, p, true)
  }

  lemma MatchWord(s: string, w: string, rest: Pattern, toEnd: bool)
    ensures MatchHere(s, [Word(w)] + rest, toEnd) <==>
      StartsWithIgnoreCase(s, w) && MatchHere(s[|w|..], rest, toEnd)
  {
    assert ([Word(w)] + rest)[1..] == rest;
  }

  /** Two adjacent literal runs match as their concatenation. */
  lemma WordsMerge(s: string, a: string, b: string, rest: Pattern, toEnd: bool)
    ensures MatchHere(s, [Word(a)] + ([Word(b)] + rest), toEnd) <==>
      MatchHere(s, [Word(a + b)] + rest, toEnd)
  {
    MatchWord(s, a, [Word(b)] + rest, toEnd);
    MatchWord(s, a + b, rest, toEnd);
    StartsWithConcat(s, a, b);
    if StartsWithIgnoreCase(s, a) {
      MatchWord(s[|a|..], b, rest, toEnd);
      if |a + b| <= |s| {
        assert s[|a|..][|b|..] == s[|a + b|..];
      }
    }
  }

  /** An optional character after a literal run: the pattern matches exactly
      when it matches with the character present or with it absent. */
  lemma OptionalAfterWord(s: string, w: string, c: char, rest: Pattern, toEnd: bool)
    ensures MatchHere(s, [Word(w)] + ([Optional(c)] + rest), toEnd) <==>
      MatchHere(s, [Word(w + [c])] + rest, toEnd) || MatchHere(s, [Word(w)] + rest, toEnd)
  {
    MatchWord(s, w, [Optional(c)] + rest, toEnd);
    MatchWord(s, w + [c], rest, toEnd);
    MatchWord(s, w, rest, toEnd);
    StartsWithConcat(s, w, [c]);
    assert ([Optional(c)] + rest)[1..] == rest;
    if |w| < |s| {
      assert s[|w|..][1..] == s[|w + [c]|..];
    }
  }

  /** `\s*` at the end of an anchored pattern accepts exactly whitespace. */
  lemma {:induction false} MatchSpacesToEnd(s: string)
    ensures MatchHere(s, [Spaces], true) <==> AllSpace(s)
  {
    assert [Spaces][1..] == [];
    if s != [] {
      MatchSpacesToEnd(s[1..]);
      if AllSpace(s[1..]) && IsSpace(s[0]) {
        forall i | 0 <= i < |s| ensures IsSpace(s[i]) {
          if i > 0 { assert s[i] == s[1..][i - 1]; }
        }
      }
    }
  }

  /** Searching for a literal run is a case-insensitive substring search. */
  lemma {:induction false} TestWord(s: string, w: string)
    ensures Test(s, [Word(w)]) <==> ContainsIgnoreCase(s, w)
  {
    MatchWord(s, w, [], false);
    assert [Word(w)] + [] == [Word(w)];
    if s != [] {
      TestWord(s[1..], w);
    }
  }
}
