/** Header resolution: for each output field, the ingest script picks, per row,
    the first key of the row whose name matches the field's pattern, and a
    fixed fallback key when none does. */
module Headers {
  import opened Text
  import opened Regex
  import opened Rows

  /** The three output fields. */
  datatype Field = Theme | Address | Household

  /** `/Trick-?or-?Treat Name/i` */
  const ThemePattern: Pattern :=
    [Word("Trick"), Optional('-'), Word("or"), Optional('-'), Word("Treat Name")]

  /** `/^Address\s*$/i` */
  const AddressPattern: Pattern := [Word("Address"), Spaces]

  /** `/Household Name/i` */
  const HouseholdPattern: Pattern := [Word("Household Name")]

  predicate IsThemeHeader(k: string) {
    Test(k, ThemePattern)
  }

  predicate IsAddressHeader(k: string) {
    TestAnchored(k, AddressPattern)
  }

  predicate IsHouseholdHeader(k: string) {
    Test(k, HouseholdPattern)
  }

  predicate Matches(f: Field, k: string) {
    match f
    case Theme => IsThemeHeader(k)
    case Address => IsAddressHeader(k)
    case Household => IsHouseholdHeader(k)
  }

  /** The key used when no key of the row matches. The household fallback is
      `Name`, not `Household Name`. */
  function FallbackKey(f: Field): string {
    match f
    case Theme => "Theme"
    case Address => "Address"
    case Household => "Name"
  }

  /** The four spellings the theme pattern accepts. */
  const ThemeSpellings: seq<string> :=
    ["Trick-or-Treat Name", "Trick-orTreat Name", "Trickor-Treat Name", "TrickorTreat Name"]

  /** `a x? c`: the pattern matches at the start of `s` exactly when `s`
      starts with the run with or without the optional character. */
  lemma OptionalTail(s: string, a: string, x: char, c: string)
    ensures MatchHere(s, [Word(a), Optional(x), Word(c)], false) <==>
      StartsWithIgnoreCase(s, a + [x] + c) || StartsWithIgnoreCase(s, a + c)
  {
    var last := [Word(c)];
    assert [Word(a), Optional(x), Word(c)] == [Word(a)] + ([Optional(x)] + last);
    OptionalAfterWord(s, a, x, last, false);
    assert last == [Word(c)] + [];
    WordsMerge(s, a + [x], c, [], false);
    WordsMerge(s, a, c, [], false);
    MatchWord(s, a + [x] + c, [], false);
    MatchWord(s, a + c, [], false);
  }

  /** `a x? b x? c`: the pattern matches at the start of `s` exactly when `s`
      starts with one of the four runs the two optional characters allow. */
  lemma TwoOptionals(s: string, a: string, x: char, b: string, c: string)
    ensures MatchHere(s, [Word(a), Optional(x), Word(b), Optional(x), Word(c)], false) <==>
      || StartsWithIgnoreCase(s, a + [x] + b + [x] + c) || StartsWithIgnoreCase(s, a + [x] + b + c)
      || StartsWithIgnoreCase(s, a + b + [x] + c) || StartsWithIgnoreCase(s, a + b + c)
  {
    var tail := [Optional(x), Word(c)];
    var r := [Word(b)] + tail;
    assert [Word(a), Optional(x), Word(b), Optional(x), Word(c)] == [Word(a)] + ([Optional(x)] + r);
    OptionalAfterWord(s, a, x, r, false);
    WordsMerge(s, a + [x], b, tail, false);
    WordsMerge(s, a, b, tail, false);
    assert [Word(a + [x] + b)] + tail == [Word(a + [x] + b), Optional(x), Word(c)];
    assert [Word(a + b)] + tail == [Word(a + b), Optional(x), Word(c)];
    OptionalTail(s, a + [x] + b, x, c);
    OptionalTail(s, a + b, x, c);
  }

  /** The theme pattern matches at the start of `s` exactly when `s` starts,
      up to case, with one of the four spellings. */
  lemma ThemeMatchHereIff(s: string)
    ensures MatchHere(s, ThemePattern, false) <==>
      StartsWithIgnoreCase(s, "Trick-or-Treat Name") || StartsWithIgnoreCase(s, "Trick-orTreat Name")
      || StartsWithIgnoreCase(s, "Trickor-Treat Name") || StartsWithIgnoreCase(s, "TrickorTreat Name")
  {
    TwoOptionals(s, "Trick", '-', "or", "Treat Name");
    ThemeSpellingPieces();
  }

  lemma ThemeSpellingPieces()
    ensures "Trick" + ['-'] + "or" + ['-'] + "Treat Name" == "Trick-or-Treat Name"
    ensures "Trick" + ['-'] + "or" + "Treat Name" == "Trick-orTreat Name"
    ensures "Trick" + "or" + ['-'] + "Treat Name" == "Trickor-Treat Name"
    ensures "Trick" + "or" + "Treat Name" == "TrickorTreat Name"
  {
  }

  /** A key is taken for the theme exactly when it contains, ignoring case,
      `Trick-or-Treat Name` with either hyphen optional. A space in place of
      a hyphen is not accepted. */
  lemma {:induction false} ThemeHeaderIff(k: string)
    ensures IsThemeHeader(k) <==>
      ContainsIgnoreCase(k, "Trick-or-Treat Name") || ContainsIgnoreCase(k, "Trick-orTreat Name")
      || ContainsIgnoreCase(k, "Trickor-Treat Name") || ContainsIgnoreCase(k, "TrickorTreat Name")
  {
    ThemeMatchHereIff(k);
    if k != [] {
      ThemeHeaderIff(k[1..]);
    }
  }

  /** A key is taken for the address exactly when it is `Address`, ignoring
      case, followed by nothing but whitespace. */
  lemma AddressHeaderIff(k: string)
    ensures IsAddressHeader(k) <==>
      StartsWithIgnoreCase(k, "Address") && AllSpace(k[|"Address"|..])
  {
    MatchWord(k, "Address", [Spaces], true);
    if StartsWithIgnoreCase(k, "Address") {
      MatchSpacesToEnd(k[|"Address"|..]);
    }
  }

  /** A key is taken for the household exactly when it contains
      `Household Name`, ignoring case. */
  lemma HouseholdHeaderIff(k: string)
    ensures IsHouseholdHeader(k) <==> ContainsIgnoreCase(k, "Household Name")
  {
    TestWord(k, "Household Name");
  }

  /** No pattern matches the empty key, so the `|| fallback` of the script
      only ever replaces a failed search. */
  lemma MatchedKeyNonEmpty(f: Field, k: string)
    requires Matches(f, k)
    ensures k != ""
  {
    match f
    case Theme => ThemeHeaderIff(k);
    case Address => AddressHeaderIff(k);
    case Household => HouseholdHeaderIff(k);
  }

  /** `Array.prototype.find` over the key list: the index of the first key
      matching the field's pattern, or `|ks|` when there is none. */
  function FindIndex(f: Field, ks: seq<string>): (i: nat)
    ensures i <= |ks|
    ensures i < |ks| ==> Matches(f, ks[i])
    ensures forall j :: 0 <= j < i ==> !Matches(f, ks[j])
  {
    if ks == [] then 0
    else if Matches(f, ks[0]) then 0
    else 1 + FindIndex(f, ks[1..])
  }

  /** `Object.keys(r).find(k => pattern.test(k)) || fallback`. */
  function ResolveKey(f: Field, ks: seq<string>): string {
    var i := FindIndex(f, ks);
    OrElse(if i < |ks| then Some(ks[i]) else None, FallbackKey(f))
  }

  /** Resolution picks the first matching key, and the fallback exactly when
      no key matches. */
  lemma ResolveKeySpec(f: Field, ks: seq<string>)
    ensures (exists i :: 0 <= i < |ks| && Matches(f, ks[i])) ==>
      exists i :: 0 <= i < |ks| && ks[i] == ResolveKey(f, ks) && Matches(f, ks[i])
        && forall j :: 0 <= j < i ==> !Matches(f, ks[j])
    ensures (forall i :: 0 <= i < |ks| ==> !Matches(f, ks[i])) ==> ResolveKey(f, ks) == FallbackKey(f)
  {
    var i := FindIndex(f, ks);
    if i < |ks| {
      MatchedKeyNonEmpty(f, ks[i]);
    }
  }

  /** The key chosen for each field: the resolved key map of one row. */
  datatype KeyMap = KeyMap(theme: string, address: string, household: string)

  function ResolveKeys(ks: seq<string>): KeyMap {
    KeyMap(ResolveKey(Theme, ks), ResolveKey(Address, ks), ResolveKey(Household, ks))
  }

  /** The keys of `ks` that match the field's pattern, in order. */
  function MatchingKeys(f: Field, ks: seq<string>): seq<string> {
    if ks == [] then []
    else (if Matches(f, ks[0]) then [ks[0]] else []) + MatchingKeys(f, ks[1..])
  }

  lemma {:induction false} FindIndexViaMatchingKeys(f: Field, ks: seq<string>)
    ensures FindIndex(f, ks) < |ks| <==> MatchingKeys(f, ks) != []
    ensures FindIndex(f, ks) < |ks| ==> ks[FindIndex(f, ks)] == MatchingKeys(f, ks)[0]
  {
    if ks != [] && !Matches(f, ks[0]) {
      FindIndexViaMatchingKeys(f, ks[1..]);
    }
  }

  /** Resolution sees only the keys that match: adding, dropping or moving
      keys that do not match leaves the chosen key unchanged. In particular
      `Object.keys` listing array indices first does not matter, since no
      such key matches (ArrayIndicesFirstKeepResolution). */
  lemma ResolveKeyIgnoresNonMatching(f: Field, ks1: seq<string>, ks2: seq<string>)
    requires MatchingKeys(f, ks1) == MatchingKeys(f, ks2)
    ensures ResolveKey(f, ks1) == ResolveKey(f, ks2)
  {
    FindIndexViaMatchingKeys(f, ks1);
    FindIndexViaMatchingKeys(f, ks2);
  }

  predicate IsDigit(c: char) {
    '0' <= c <= '9'
  }

  predicate IsLetter(c: char) {
    'A' <= Upper(c) <= 'Z'
  }

  /** A word that starts with a letter occurs nowhere in a string of digits. */
  lemma LetterWordNotInDigits(k: string, w: string, i: int)
    requires forall j :: 0 <= j < |k| ==> IsDigit(k[j])
    requires w != [] && IsLetter(w[0])
    ensures !OccursAt(k, w, i)
  {
    if 0 <= i && i + |w| <= |k| {
      assert k[i..i + |w|][0] == k[i];
      assert Upper(k[i]) == k[i];
    }
  }

  /** A key made of digits only (as every integer-like property name is)
      matches none of the three patterns. */
  lemma NumericKeyNeverMatches(f: Field, k: string)
    requires forall i :: 0 <= i < |k| ==> IsDigit(k[i])
    ensures !Matches(f, k)
  {
    match f
    case Theme =>
      ThemeHeaderIff(k);
      forall v | v in ThemeSpellings ensures !ContainsIgnoreCase(k, v) {
        ContainsIgnoreCaseIff(k, v);
        forall i ensures !OccursAt(k, v, i) {
          LetterWordNotInDigits(k, v, i);
        }
      }
    case Address =>
      AddressHeaderIff(k);
      LetterWordNotInDigits(k, "Address", 0);
      if |k| >= 7 {
        assert k[..7] == k[0..0 + 7];
      }
    case Household =>
      HouseholdHeaderIff(k);
      ContainsIgnoreCaseIff(k, "Household Name");
      forall i ensures !OccursAt(k, "Household Name", i) {
        LetterWordNotInDigits(k, "Household Name", i);
      }
  }

  predicate AllDigits(k: string) {
    forall i :: 0 <= i < |k| ==> IsDigit(k[i])
  }

  /** The number a string of decimal digits denotes. */
  function DigitsValue(k: string): nat
    requires AllDigits(k)
  {
    if k == [] then 0
    else
      assert forall i :: 0 <= i < |k| - 1 ==> k[..|k| - 1][i] == k[i];
      10 * DigitsValue(k[..|k| - 1]) + (k[|k| - 1] as int - '0' as int)
  }

  /** An array index in the sense of section 6.1.7 of ECMA-262: the canonical
      decimal form of an integer below 2^32 - 1. */
  predicate IsArrayIndex(k: string) {
    k != [] && AllDigits(k) && (k[0] != '0' || k == "0") && DigitsValue(k) < 0xFFFF_FFFF
  }

  /** The keys that are not array indices, in their original order. */
  function WithoutArrayIndices(ks: seq<string>): (r: seq<string>)
    ensures forall i :: 0 <= i < |r| ==> !IsArrayIndex(r[i])
    ensures |r| <= |ks|
  {
    if ks == [] then []
    else (if IsArrayIndex(ks[0]) then [] else [ks[0]]) + WithoutArrayIndices(ks[1..])
  }

  lemma {:induction false} MatchingKeysAppend(f: Field, a: seq<string>, b: seq<string>)
    ensures MatchingKeys(f, a + b) == MatchingKeys(f, a) + MatchingKeys(f, b)
  {
    if a == [] {
      assert a + b == b;
    } else {
      assert (a + b)[0] == a[0] && (a + b)[1..] == a[1..] + b;
      MatchingKeysAppend(f, a[1..], b);
    }
  }

  /** No array index matches any pattern. */
  lemma {:induction false} ArrayIndicesNeverMatch(f: Field, idx: seq<string>)
    requires forall i :: 0 <= i < |idx| ==> IsArrayIndex(idx[i])
    ensures MatchingKeys(f, idx) == []
  {
    if idx != [] {
      NumericKeyNeverMatches(f, idx[0]);
      ArrayIndicesNeverMatch(f, idx[1..]);
    }
  }

  /** Dropping the array indices leaves the matching keys as they were. */
  lemma {:induction false} MatchingKeysWithoutArrayIndices(f: Field, ks: seq<string>)
    ensures MatchingKeys(f, WithoutArrayIndices(ks)) == MatchingKeys(f, ks)
  {
    if ks != [] {
      var head := if IsArrayIndex(ks[0]) then [] else [ks[0]];
      MatchingKeysAppend(f, head, WithoutArrayIndices(ks[1..]));
      MatchingKeysWithoutArrayIndices(f, ks[1..]);
      if IsArrayIndex(ks[0]) {
        NumericKeyNeverMatches(f, ks[0]);
      }
    }
  }

  /** `Object.keys` lists the array-index keys first, in ascending numeric
      order, and then the other keys in the order they were created (section
      10.1.11.1 of ECMA-262). Whatever array indices come first and in
      whatever order, the key chosen is the one chosen from the header order. */
  lemma ArrayIndicesFirstKeepResolution(f: Field, idx: seq<string>, ks: seq<string>)
    requires forall i :: 0 <= i < |idx| ==> IsArrayIndex(idx[i])
    ensures MatchingKeys(f, idx + WithoutArrayIndices(ks)) == MatchingKeys(f, ks)
    ensures ResolveKey(f, idx + WithoutArrayIndices(ks)) == ResolveKey(f, ks)
  {
    MatchingKeysAppend(f, idx, WithoutArrayIndices(ks));
    ArrayIndicesNeverMatch(f, idx);
    MatchingKeysWithoutArrayIndices(f, ks);
    ResolveKeyIgnoresNonMatching(f, idx + WithoutArrayIndices(ks), ks);
  }

  /** The first key that matches is the one resolution picks. */
  lemma ResolvesToFirstMatch(f: Field, ks: seq<string>, i: nat)
    requires i < |ks| && Matches(f, ks[i])
    requires forall j :: 0 <= j < i ==> !Matches(f, ks[j])
    ensures ResolveKey(f, ks) == ks[i]
  {
    var n := FindIndex(f, ks);
    assert n <= i && i <= n;
    MatchedKeyNonEmpty(f, ks[i]);
  }

  /** Three keys, one per field and each matching only its own field's
      pattern among those before it, resolve to themselves. */
  lemma ResolveThreeKeys(t: string, a: string, h: string)
    requires IsThemeHeader(t) && IsAddressHeader(a) && IsHouseholdHeader(h)
    requires !IsAddressHeader(t) && !IsHouseholdHeader(t) && !IsHouseholdHeader(a)
    ensures ResolveKeys([t, a, h]) == KeyMap(t, a, h)
  {
    var ks := [t, a, h];
    ResolvesToFirstMatch(Theme, ks, 0);
    ResolvesToFirstMatch(Address, ks, 1);
    ResolvesToFirstMatch(Household, ks, 2);
  }

  /** The shortest theme spelling has 17 characters, so no shorter key is a
      theme header. */
  lemma ShortKeyNotThemeHeader(k: string)
    requires |k| < 17
    ensures !IsThemeHeader(k)
  {
    ThemeHeaderIff(k);
    ContainsIgnoreCaseIff(k, "Trick-or-Treat Name");
    ContainsIgnoreCaseIff(k, "Trick-orTreat Name");
    ContainsIgnoreCaseIff(k, "Trickor-Treat Name");
    ContainsIgnoreCaseIff(k, "TrickorTreat Name");
  }

  /** No key shorter than `Household Name` is a household header. */
  lemma ShortKeyNotHouseholdHeader(k: string)
    requires |k| < 14
    ensures !IsHouseholdHeader(k)
  {
    HouseholdHeaderIff(k);
    ContainsIgnoreCaseIff(k, "Household Name");
  }

  /** An address header starts with the letter `a` in either case. */
  lemma AddressHeaderStartsWithA(k: string)
    requires k != [] && Upper(k[0]) != 'A'
    ensures !IsAddressHeader(k)
  {
    AddressHeaderIff(k);
    if |k| >= 7 {
      assert k[..7][0] == k[0];
    }
  }

  /** The theme output column is not taken for the household. */
  lemma ThemeColumnNotHouseholdHeader()
    ensures !IsHouseholdHeader("Trick-or-Treat Name")
  {
    var k := "Trick-or-Treat Name";
    HouseholdHeaderIff(k);
    ContainsIgnoreCaseIff(k, "Household Name");
    forall i | 0 <= i && i + 14 <= |k| ensures !OccursAt(k, "Household Name", i) {
      assert Upper(k[i]) != 'H' by { assert i < 6; }
      MismatchExcludes(k, "Household Name", i, 0);
    }
  }

  /** The exact output column name is a theme header. */
  lemma ThemeColumnIsThemeHeader()
    ensures IsThemeHeader("Trick-or-Treat Name")
  {
    ThemeHeaderIff("Trick-or-Treat Name");
  }

  /** Any key containing one of the four spellings, in any case, is a theme
      header, whatever text surrounds it. */
  lemma ThemeHeaderAnywhere(a: string, k: string, b: string, v: string)
    requires v in ThemeSpellings && EqualsIgnoreCase(k, v)
    ensures IsThemeHeader(a + k + b)
  {
    var s := a + k + b;
    assert s[|a|..|a| + |v|] == k;
    assert OccursAt(s, v, |a|);
    ContainsIgnoreCaseIff(s, v);
    ThemeHeaderIff(s);
  }

  /** Case does not matter. */
  lemma LowerCaseThemeHeader()
    ensures IsThemeHeader("trick-or-treat name")
  {
    var k := "trick-or-treat name";
    var v := "Trick-or-Treat Name";
    assert EqualsIgnoreCase(k[0..0 + |v|], v);
    assert OccursAt(k, v, 0);
    ContainsIgnoreCaseIff(k, v);
    ThemeHeaderIff(k);
  }

  /** Spaces in place of the hyphens are not accepted. */
  lemma SpacedThemeHeaderRejected(k: string)
    requires k == "Trick or Treat Name"
    ensures !IsThemeHeader(k)
  {
    SpacedKeyShape(k);
    SpacedNotSpelling(k, "Trick-or-Treat Name");
    SpacedNotSpelling(k, "Trick-orTreat Name");
    SpacedNotSpelling(k, "Trickor-Treat Name");
    SpacedNotSpelling(k, "TrickorTreat Name");
    ThemeHeaderIff(k);
  }

  lemma SpacedKeyShape(k: string)
    requires k == "Trick or Treat Name"
    ensures |k| == 19 && Upper(k[1]) == 'R' && Upper(k[2]) == 'I' && Upper(k[5]) == ' '
  {
  }

  /** A key of at most `|v| + 2` characters that differs from `v` at position
      5 and whose second and third characters differ from `v`'s first does
      not contain `v`. */
  lemma SpacedNotSpelling(k: string, v: string)
    requires 6 <= |v| && |k| <= |v| + 2 && 6 <= |k|
    requires Upper(k[5]) != Upper(v[5])
    requires Upper(k[1]) != Upper(v[0]) && Upper(k[2]) != Upper(v[0])
    ensures !ContainsIgnoreCase(k, v)
  {
    ContainsIgnoreCaseIff(k, v);
    forall i | OccursAt(k, v, i) ensures false {
      if i == 0 { MismatchExcludes(k, v, 0, 5); }
      else if i == 1 { MismatchExcludes(k, v, 1, 0); }
      else { MismatchExcludes(k, v, 2, 0); }
    }
  }

  /** `Address` followed by whitespace is an address header, in any case. */
  lemma AddressHeaderSpellings()
    ensures IsAddressHeader("Address") && IsAddressHeader("Address ")
    ensures IsAddressHeader("ADDRESS\t")
  {
    AddressHeaderIff("Address");
    AddressHeaderIff("Address ");
    AddressHeaderIff("ADDRESS\t");
  }

  /** Leading whitespace, leading text or trailing text rule a key out. */
  lemma AddressHeaderNearMisses()
    ensures !IsAddressHeader(" Address") && !IsAddressHeader("Mailing Address")
    ensures !IsAddressHeader("Address 2")
  {
    AddressHeaderIff(" Address");
    assert " Address"[..7][0] == ' ';
    AddressHeaderIff("Mailing Address");
    assert "Mailing Address"[..7][0] == 'M';
    AddressHeaderIff("Address 2");
    assert "Address 2"[7..][1] == '2';
  }

  /** Any key containing `Household Name`, in any case, is a household
      header, whatever text surrounds it. */
  lemma HouseholdHeaderAnywhere(a: string, k: string, b: string)
    requires EqualsIgnoreCase(k, "Household Name")
    ensures IsHouseholdHeader(a + k + b)
  {
    var s := a + k + b;
    assert s[|a|..|a| + |k|] == k;
    assert OccursAt(s, "Household Name", |a|);
    ContainsIgnoreCaseIff(s, "Household Name");
    HouseholdHeaderIff(s);
  }

  /** The household column itself, and a lower-case variant with a suffix. */
  lemma HouseholdHeaderVariants(k: string)
    requires k == "Household Name" || k == "household name (last)"
    ensures IsHouseholdHeader(k)
  {
    var w := k[..14];
    HouseholdSpellingCase(k);
    assert k == [] + w + k[14..];
    HouseholdHeaderAnywhere([], w, k[14..]);
  }

  lemma HouseholdSpellingCase(k: string)
    requires k == "Household Name" || k == "household name (last)"
    ensures 14 <= |k| && EqualsIgnoreCase(k[..14], "Household Name")
  {
  }

  /** Neither half of `Household Name` is enough, so a bare `Name` column is
      only ever reached through the fallback. */
  lemma HouseholdHeaderNearMisses()
    ensures !IsHouseholdHeader("Name") && !IsHouseholdHeader("Household")
  {
    HouseholdHeaderIff("Name");
    ContainsIgnoreCaseIff("Name", "Household Name");
    HouseholdHeaderIff("Household");
    ContainsIgnoreCaseIff("Household", "Household Name");
  }
}
