/** Row normalisation and filtering: the `map` callback of the ingest script
    turns each parsed row into a three-field participant record, and the
    `filter` after it keeps the records that have a theme. */
module Ingest {
  import opened Text
  import opened Rows
  import opened Headers

  /** The output columns, in the order the output file lists them. */
  const ThemeColumn := "Trick-or-Treat Name"
  const AddressColumn := "Address"
  const HouseholdColumn := "Household Name"

  /** The second key the address lookup tries, a header spelling with a
      trailing space seen in registration exports. */
  const AddressWithSpace := "Address "

  /** One output record. */
  datatype Participant = Participant(theme: string, address: string, household: string)

  predicate IsClean(p: Participant) {
    IsTrimmed(p.theme) && IsTrimmed(p.address) && IsTrimmed(p.household)
  }

  /** The record built from `row` once the three keys are chosen:
      `(r[themeKey] || "").trim()`, `(r[addressKey] || r["Address "] || "").trim()`
      and `(r[householdKey] || "").trim()`. */
  function NormalizeWith(row: Row, km: KeyMap): (p: Participant)
    ensures IsClean(p)
  {
    Participant(
      Trim(OrElse(Get(row, km.theme), "")),
      Trim(OrElse(Get(row, km.address), OrElse(Get(row, AddressWithSpace), ""))),
      Trim(OrElse(Get(row, km.household), "")))
  }

  /** The `map` callback: resolve the keys against this row's own keys, then
      build the record. */
  function Normalize(row: Row): (p: Participant)
    ensures IsClean(p)
  {
    NormalizeWith(row, ResolveKeys(Keys(row)))
  }

  /** The `filter` callback: the theme, already trimmed, is a non-empty string. */
  predicate Admissible(p: Participant) {
    p.theme != ""
  }

  function KeepAdmissible(ps: seq<Participant>): (r: seq<Participant>)
    ensures |r| <= |ps|
  {
    if ps == [] then []
    else (if Admissible(ps[0]) then [ps[0]] else []) + KeepAdmissible(ps[1..])
  }

  /** The filter keeps exactly the records that pass it. */
  lemma {:induction false} KeepAdmissibleMembers(ps: seq<Participant>)
    ensures forall p :: p in KeepAdmissible(ps) <==> p in ps && Admissible(p)
  {
    if ps != [] {
      KeepAdmissibleMembers(ps[1..]);
      assert ps == [ps[0]] + ps[1..];
    }
  }

  function NormalizeAll(rows: seq<Row>): seq<Participant> {
    seq(|rows|, i requires 0 <= i < |rows| => Normalize(rows[i]))
  }

  /** `data.map(...).filter(...)`. */
  function Ingest(rows: seq<Row>): (out: seq<Participant>)
    ensures |out| <= |rows|
    ensures rows == [] ==> out == []
  {
    KeepAdmissible(NormalizeAll(rows))
  }

  /** Every output record has a theme and no surrounding whitespace in any
      field. */
  lemma IngestOutputClean(rows: seq<Row>)
    ensures forall p :: p in Ingest(rows) ==> Admissible(p) && IsClean(p)
  {
    var ps := NormalizeAll(rows);
    KeepAdmissibleMembers(ps);
    forall p | p in ps ensures IsClean(p) {
      var i :| 0 <= i < |ps| && ps[i] == p;
      assert p == Normalize(rows[i]);
    }
  }

  // ---------------------------------------------------------------------
  // What one record holds.

  /** `v || ""` is `v` for a string `v`, and `""` for `undefined`. */
  lemma EmptyDefault(v: string)
    ensures OrElse(Some(v), "") == v && OrElse(None, "") == ""
  {
  }

  /** The value under `key`, trimmed, or `""` when the row has no such key:
      `(r[key] || "").trim()`. */
  lemma {:induction false} LookupTrimmed(row: Row, key: string)
    requires DistinctKeys(row)
    ensures forall v :: Cell(key, v) in row ==> Trim(OrElse(Get(row, key), "")) == Trim(v)
    ensures key !in Keys(row) ==> Trim(OrElse(Get(row, key), "")) == ""
  {
    forall v | Cell(key, v) in row ensures Trim(OrElse(Get(row, key), "")) == Trim(v) {
      GetFindsCell(row, key, v);
      EmptyDefault(v);
    }
    if key !in Keys(row) {
      GetSpec(row, key);
      EmptyDefault("");
      TrimOfTrimmed("");
    }
  }

  /** The theme and the household are the trimmed values of the chosen
      columns, and empty when the chosen key (a fallback, say) is not a key
      of the row. */
  lemma ThemeAndHouseholdValues(row: Row)
    requires DistinctKeys(row)
    ensures var p, ks := Normalize(row), Keys(row);
      && (forall v :: Cell(ResolveKey(Theme, ks), v) in row ==> p.theme == Trim(v))
      && (ResolveKey(Theme, ks) !in ks ==> p.theme == "")
      && (forall v :: Cell(ResolveKey(Household, ks), v) in row ==> p.household == Trim(v))
      && (ResolveKey(Household, ks) !in ks ==> p.household == "")
  {
    var km := ResolveKeys(Keys(row));
    assert Normalize(row).theme == Trim(OrElse(Get(row, km.theme), ""));
    assert Normalize(row).household == Trim(OrElse(Get(row, km.household), ""));
    LookupTrimmed(row, km.theme);
    LookupTrimmed(row, km.household);
  }

  /** The address: a non-empty value under the chosen key wins, even one that
      is only whitespace (and so trims to empty); when that value is missing
      or empty the `Address ` column is used; failing both, the address is
      empty. */
  lemma AddressValue(row: Row)
    requires DistinctKeys(row)
    ensures var a, k := Normalize(row).address, ResolveKey(Address, Keys(row));
      && (forall v :: Cell(k, v) in row && v != "" ==> a == Trim(v))
      && (forall w :: (k !in Keys(row) || Cell(k, "") in row) && Cell(AddressWithSpace, w) in row ==> a == Trim(w))
      && ((k !in Keys(row) || Cell(k, "") in row) && AddressWithSpace !in Keys(row) ==> a == "")
  {
    var k := ResolveKey(Address, Keys(row));
    var second := OrElse(Get(row, AddressWithSpace), "");
    assert Normalize(row).address == Trim(OrElse(Get(row, k), second));
    forall v | Cell(k, v) in row && v != "" ensures OrElse(Get(row, k), second) == v {
      GetFindsCell(row, k, v);
    }
    if k !in Keys(row) || Cell(k, "") in row {
      GetSpec(row, k);
      if Cell(k, "") in row {
        GetFindsCell(row, k, "");
      }
      assert OrElse(Get(row, k), second) == second;
      LookupTrimmed(row, AddressWithSpace);
    }
  }

  /** `Normalize` once the keys are resolved. */
  lemma NormalizeByKeys(row: Row, km: KeyMap)
    requires ResolveKeys(Keys(row)) == km
    ensures Normalize(row) == NormalizeWith(row, km)
  {
  }

  /** `Normalize` once the three looked-up values, before trimming, are
      known. */
  lemma NormalizeFromValues(row: Row, t: string, a: string, h: string)
    requires var km := ResolveKeys(Keys(row));
      && OrElse(Get(row, km.theme), "") == t
      && OrElse(Get(row, km.address), OrElse(Get(row, AddressWithSpace), "")) == a
      && OrElse(Get(row, km.household), "") == h
    ensures Normalize(row) == Participant(Trim(t), Trim(a), Trim(h))
  {
  }

  /** The keys `Address` and `Address `: the first is taken for the
      address; no key is taken for the theme or the household. */
  lemma TwoAddressKeys()
    ensures ResolveKeys(["Address", AddressWithSpace]) == KeyMap("Theme", "Address", "Name")
  {
    var ks := ["Address", AddressWithSpace];
    ShortKeyNotThemeHeader("Address");
    ShortKeyNotThemeHeader(AddressWithSpace);
    ShortKeyNotHouseholdHeader("Address");
    ShortKeyNotHouseholdHeader(AddressWithSpace);
    AddressHeaderSpellings();
    ResolvesToFirstMatch(Address, ks, 0);
    ResolveKeySpec(Theme, ks);
    ResolveKeySpec(Household, ks);
  }

  /** The record of the row `Address`, `Address `, read with the keys
      `TwoAddressKeys` gives. */
  lemma TwoAddressValues(a: string, w: string)
    ensures NormalizeWith([Cell("Address", a), Cell(AddressWithSpace, w)], KeyMap("Theme", "Address", "Name")).address ==
      Trim(if a != "" then a else w)
  {
    var row := [Cell("Address", a), Cell(AddressWithSpace, w)];
    assert Get(row, "Address") == Some(a);
    assert Get(row, AddressWithSpace) == Some(w);
    assert OrElse(Some(a), OrElse(Some(w), "")) == if a != "" then a else w;
  }

  lemma KeysOfTwo(row: Row)
    requires |row| == 2
    ensures Keys(row) == [row[0].key, row[1].key]
  {
  }

  /** A row with both `Address` and `Address `: the second is only read when
      the first is empty. */
  lemma TwoAddressColumns(a: string, w: string)
    ensures Normalize([Cell("Address", a), Cell(AddressWithSpace, w)]).address ==
      Trim(if a != "" then a else w)
  {
    var row := [Cell("Address", a), Cell(AddressWithSpace, w)];
    KeysOfTwo(row);
    TwoAddressKeys();
    NormalizeByKeys(row, KeyMap("Theme", "Address", "Name"));
    TwoAddressValues(a, w);
  }

  /** A whitespace-only address under `Address` hides the `Address ` column:
      the address comes out empty. */
  lemma BlankAddressHidesSecondColumn(a: string, w: string)
    requires a != "" && AllSpace(a)
    ensures Normalize([Cell("Address", a), Cell(AddressWithSpace, w)]).address == ""
  {
    TwoAddressColumns(a, w);
    TrimEmptyIff(a);
  }

  /** An empty `Address` column falls through to the `Address ` column. */
  lemma EmptyAddressFallsThrough(w: string)
    ensures Normalize([Cell("Address", ""), Cell(AddressWithSpace, w)]).address == Trim(w)
  {
    TwoAddressColumns("", w);
  }

  // ---------------------------------------------------------------------
  // The filter.

  /** A row is kept exactly when the value under its theme key is present
      and not all whitespace. */
  lemma AdmissibleIff(row: Row)
    requires DistinctKeys(row)
    ensures var k := ResolveKey(Theme, Keys(row));
      Admissible(Normalize(row)) <==> exists v :: Cell(k, v) in row && !AllSpace(v)
  {
    var k := ResolveKey(Theme, Keys(row));
    ThemeAndHouseholdValues(row);
    GetSpec(row, k);
    if k in Keys(row) {
      var v := Get(row, k).value;
      GetFindsCell(row, k, v);
      TrimEmptyIff(v);
      forall v' | Cell(k, v') in row ensures v' == v {
        GetFindsCell(row, k, v');
      }
    } else {
      forall v ensures Cell(k, v) !in row {
        GetFindsCell(row, k, v);
      }
    }
  }

  /** A one-cell row read with its own key for the theme and keys it does
      not have for the other two fields. */
  lemma SingleCellValues(k: string, v: string)
    requires k != "Address" && k != AddressWithSpace && k != "Name"
    ensures NormalizeWith([Cell(k, v)], KeyMap(k, "Address", "Name")) == Participant(Trim(v), "", "")
  {
    var row := [Cell(k, v)];
    assert Keys(row) == [k];
    assert Get(row, k) == Some(v);
    GetSpec(row, "Address");
    GetSpec(row, AddressWithSpace);
    GetSpec(row, "Name");
    EmptyDefault(v);
    EmptyDefault("");
    TrimOfTrimmed("");
  }

  /** A one-cell row whose key resolves for the theme only: the other two
      fields fall back to `Address` and `Name`, which the row does not have. */
  lemma SingleThemeCell(k: string, v: string)
    requires ResolveKeys([k]) == KeyMap(k, "Address", "Name")
    requires k != "Address" && k != AddressWithSpace && k != "Name"
    ensures Normalize([Cell(k, v)]) == Participant(Trim(v), "", "")
  {
    assert Keys([Cell(k, v)]) == [k];
    SingleCellValues(k, v);
  }

  /** A row with only the theme column: the theme is resolved through its
      pattern, the other fields through their fallbacks. */
  lemma ThemeColumnAlone()
    ensures ResolveKeys([ThemeColumn]) == KeyMap(ThemeColumn, "Address", "Name")
  {
    ThemeColumnIsThemeHeader();
    ResolvesToFirstMatch(Theme, [ThemeColumn], 0);
    AddressHeaderStartsWithA(ThemeColumn);
    ThemeColumnNotHouseholdHeader();
    ResolveKeySpec(Address, [ThemeColumn]);
    ResolveKeySpec(Household, [ThemeColumn]);
  }

  lemma ThemeOnlyRow(theme: string)
    ensures Normalize([Cell(ThemeColumn, theme)]) == Participant(Trim(theme), "", "")
  {
    ThemeColumnAlone();
    SingleThemeCell(ThemeColumn, theme);
  }

  /** A row holding only the theme column is kept exactly when its theme is
      not all whitespace. */
  lemma ThemeOnlyRowKept(theme: string)
    ensures Admissible(Normalize([Cell(ThemeColumn, theme)])) <==> !AllSpace(theme)
  {
    ThemeOnlyRow(theme);
    TrimEmptyIff(theme);
  }

  // ---------------------------------------------------------------------
  // Order and size.

  lemma {:induction false} KeepAdmissibleAppend(xs: seq<Participant>, ys: seq<Participant>)
    ensures KeepAdmissible(xs + ys) == KeepAdmissible(xs) + KeepAdmissible(ys)
  {
    if xs == [] {
      assert xs + ys == ys;
    } else {
      var h := if Admissible(xs[0]) then [xs[0]] else [];
      assert (xs + ys)[0] == xs[0];
      assert (xs + ys)[1..] == xs[1..] + ys;
      assert KeepAdmissible(xs + ys) == h + KeepAdmissible(xs[1..] + ys);
      KeepAdmissibleAppend(xs[1..], ys);
      assert h + (KeepAdmissible(xs[1..]) + KeepAdmissible(ys)) == (h + KeepAdmissible(xs[1..])) + KeepAdmissible(ys);
    }
  }

  lemma KeepAdmissibleOne(p: Participant)
    ensures KeepAdmissible([p]) == if Admissible(p) then [p] else []
  {
    assert [p][1..] == [];
  }

  /** The filter keeps a list whose records all pass unchanged. */
  lemma {:induction false} KeepAdmissibleAll(ps: seq<Participant>)
    requires forall p :: p in ps ==> Admissible(p)
    ensures KeepAdmissible(ps) == ps
  {
    if ps != [] {
      assert ps[0] in ps;
      assert forall p :: p in ps[1..] ==> p in ps;
      KeepAdmissibleAll(ps[1..]);
      assert ps == [ps[0]] + ps[1..];
    }
  }

  /** The positions in `ps` of the records that pass the filter, in order. */
  function AdmissiblePositions(ps: seq<Participant>): seq<nat> {
    if ps == [] then []
    else (if Admissible(ps[0]) then [0] else []) + Shift(AdmissiblePositions(ps[1..]))
  }

  /** Every position moved one place on. */
  function Shift(idx: seq<nat>): (r: seq<nat>)
    ensures |r| == |idx| && forall j :: 0 <= j < |idx| ==> r[j] == idx[j] + 1
  {
    seq(|idx|, j requires 0 <= j < |idx| => idx[j] + 1)
  }

  /** `out` lists, one by one, the records of `ps` at the positions `idx`. */
  predicate SelectsAt(out: seq<Participant>, ps: seq<Participant>, idx: seq<nat>) {
    |idx| == |out| && forall j :: 0 <= j < |idx| ==> idx[j] < |ps| && out[j] == ps[idx[j]]
  }

  /** One more record in front, kept or not. */
  lemma SelectsAtCons(p: Participant, ps: seq<Participant>, out: seq<Participant>, idx: seq<nat>, keep: bool)
    requires SelectsAt(out, ps, idx)
    ensures SelectsAt((if keep then [p] else []) + out, [p] + ps, (if keep then [0] else []) + Shift(idx))
  {
    var h := if keep then 1 else 0;
    var out', ps', idx' := (if keep then [p] else []) + out, [p] + ps, (if keep then [0] else []) + Shift(idx);
    forall j | 0 <= j < |idx'| ensures idx'[j] < |ps'| && out'[j] == ps'[idx'[j]] {
      if j >= h {
        assert idx'[j] == Shift(idx)[j - h] == idx[j - h] + 1;
        assert out'[j] == out[j - h];
        assert ps'[idx[j - h] + 1] == ps[idx[j - h]];
      }
    }
  }

  /** The filter's output lists, one by one, the records at those positions. */
  lemma {:induction false} KeepAdmissibleAtPositions(ps: seq<Participant>)
    ensures SelectsAt(KeepAdmissible(ps), ps, AdmissiblePositions(ps))
  {
    if ps != [] {
      KeepAdmissibleAtPositions(ps[1..]);
      SelectsAtCons(ps[0], ps[1..], KeepAdmissible(ps[1..]), AdmissiblePositions(ps[1..]), Admissible(ps[0]));
      assert [ps[0]] + ps[1..] == ps;
    }
  }

  /** The positions increase: the filter keeps the input order. */
  lemma {:induction false} AdmissiblePositionsIncrease(ps: seq<Participant>)
    ensures forall j, j' :: 0 <= j < j' < |AdmissiblePositions(ps)| ==>
      AdmissiblePositions(ps)[j] < AdmissiblePositions(ps)[j']
  {
    if ps != [] {
      AdmissiblePositionsIncrease(ps[1..]);
      var rest := AdmissiblePositions(ps[1..]);
      var shifted := Shift(rest);
      var h: seq<nat> := if Admissible(ps[0]) then [0] else [];
      assert AdmissiblePositions(ps) == h + shifted;
      forall j, j' | 0 <= j < j' < |h + shifted| ensures (h + shifted)[j] < (h + shifted)[j'] {
        var k' := j' - |h|;
        assert (h + shifted)[j'] == shifted[k'] == rest[k'] + 1;
        if j >= |h| {
          var k := j - |h|;
          assert (h + shifted)[j] == shifted[k] == rest[k] + 1;
          assert rest[k] < rest[k'];
        } else {
          assert (h + shifted)[j] == 0;
        }
      }
    }
  }

  /** Every position whose record passes the filter is listed. */
  lemma {:induction false} AdmissiblePositionsComplete(ps: seq<Participant>)
    ensures forall i :: 0 <= i < |ps| && Admissible(ps[i]) ==> i in AdmissiblePositions(ps)
  {
    if ps != [] {
      AdmissiblePositionsComplete(ps[1..]);
      var rest := AdmissiblePositions(ps[1..]);
      var h := if Admissible(ps[0]) then 1 else 0;
      var idx := AdmissiblePositions(ps);
      forall i | 1 <= i < |ps| && Admissible(ps[i]) ensures i in idx {
        assert ps[1..][i - 1] == ps[i];
        assert i - 1 in rest;
        var j :| 0 <= j < |rest| && rest[j] == i - 1;
        assert idx[h + j] == i;
      }
    }
  }

  /** Rows are processed independently and in order: the output for two
      batches of rows is the output for the first followed by the output for
      the second. */
  lemma IngestAppend(a: seq<Row>, b: seq<Row>)
    ensures Ingest(a + b) == Ingest(a) + Ingest(b)
  {
    NormalizeAllAppend(a, b);
    KeepAdmissibleAppend(NormalizeAll(a), NormalizeAll(b));
  }

  lemma NormalizeAllAppend(a: seq<Row>, b: seq<Row>)
    ensures NormalizeAll(a + b) == NormalizeAll(a) + NormalizeAll(b)
  {
    var l, r := NormalizeAll(a + b), NormalizeAll(a) + NormalizeAll(b);
    assert |l| == |r|;
    forall i | 0 <= i < |l| ensures l[i] == r[i] {
      if i < |a| {
        assert (a + b)[i] == a[i];
        assert r[i] == NormalizeAll(a)[i];
      } else {
        assert (a + b)[i] == b[i - |a|];
        assert r[i] == NormalizeAll(b)[i - |a|];
      }
    }
  }

  /** A row whose record passes the filter yields exactly that record. */
  lemma IngestKept(row: Row, p: Participant)
    requires Normalize(row) == p && Admissible(p)
    ensures Ingest([row]) == [p]
  {
    IngestOne(row);
  }

  /** Two rows whose records both pass yield both records, in order. */
  lemma IngestBothKept(r1: Row, r2: Row, p1: Participant, p2: Participant)
    requires Normalize(r1) == p1 && Admissible(p1)
    requires Normalize(r2) == p2 && Admissible(p2)
    ensures Ingest([r1, r2]) == [p1, p2]
  {
    IngestTwo(r1, r2);
    IngestKept(r1, p1);
    IngestKept(r2, p2);
    SingletonsConcat(p1, p2);
  }

  lemma SingletonsConcat(p1: Participant, p2: Participant)
    ensures [p1] + [p2] == [p1, p2]
  {
  }

  /** A row whose record fails the filter yields nothing. */
  lemma IngestDropped(row: Row)
    requires !Admissible(Normalize(row))
    ensures Ingest([row]) == []
  {
    IngestOne(row);
  }

  /** Two rows, one after the other. */
  lemma IngestTwo(r1: Row, r2: Row)
    ensures Ingest([r1, r2]) == Ingest([r1]) + Ingest([r2])
  {
    assert [r1, r2] == [r1] + [r2];
    IngestAppend([r1], [r2]);
  }

  /** A single row yields its record if that record is admissible, and
      nothing otherwise. */
  lemma IngestOne(row: Row)
    ensures Ingest([row]) == if Admissible(Normalize(row)) then [Normalize(row)] else []
  {
    assert NormalizeAll([row]) == [Normalize(row)];
    KeepAdmissibleOne(Normalize(row));
  }

  /** The output is the subsequence of the normalised rows that pass the
      filter, in row order. */
  lemma IngestSelectsInOrder(rows: seq<Row>) returns (idx: seq<nat>)
    ensures |idx| == |Ingest(rows)|
    ensures forall j :: 0 <= j < |idx| ==> idx[j] < |rows| && Ingest(rows)[j] == Normalize(rows[idx[j]])
    ensures forall j, j' :: 0 <= j < j' < |idx| ==> idx[j] < idx[j']
    ensures forall i :: 0 <= i < |rows| && Admissible(Normalize(rows[i])) ==> i in idx
  {
    idx := AdmissiblePositions(NormalizeAll(rows));
    KeepAdmissibleAtPositions(NormalizeAll(rows));
    AdmissiblePositionsIncrease(NormalizeAll(rows));
    AdmissiblePositionsComplete(NormalizeAll(rows));
  }

  /** A record is in the output exactly when some row normalises to it and
      it passes the filter. */
  lemma IngestMembers(rows: seq<Row>, p: Participant)
    ensures p in Ingest(rows) <==> exists i :: 0 <= i < |rows| && Normalize(rows[i]) == p && Admissible(p)
  {
    KeepAdmissibleMembers(NormalizeAll(rows));
    InNormalizeAll(rows, p);
  }

  lemma InNormalizeAll(rows: seq<Row>, p: Participant)
    ensures p in NormalizeAll(rows) <==> exists i :: 0 <= i < |rows| && Normalize(rows[i]) == p
  {
    InImage(rows, Normalize, NormalizeAll(rows), p);
  }

  /** Membership in the image of a sequence, point by point. */
  lemma InImage(rows: seq<Row>, f: Row -> Participant, ps: seq<Participant>, p: Participant)
    requires |ps| == |rows| && forall i :: 0 <= i < |rows| ==> ps[i] == f(rows[i])
    ensures p in ps <==> exists i :: 0 <= i < |rows| && f(rows[i]) == p
  {
    if p in ps {
      var i :| 0 <= i < |ps| && ps[i] == p;
      assert f(rows[i]) == p;
    }
  }

  // ---------------------------------------------------------------------
  // Resolution per row and once per table.

  /** When every row has the same keys, resolving the keys once (from the
      first row, say) gives the same output as resolving them per row, as
      the script does. */
  lemma ResolveOnceForUniformHeader(rows: seq<Row>, ks: seq<string>)
    requires forall i :: 0 <= i < |rows| ==> Keys(rows[i]) == ks
    ensures Ingest(rows) ==
      KeepAdmissible(seq(|rows|, i requires 0 <= i < |rows| => NormalizeWith(rows[i], ResolveKeys(ks))))
  {
    assert NormalizeAll(rows) ==
      seq(|rows|, i requires 0 <= i < |rows| => NormalizeWith(rows[i], ResolveKeys(ks)));
  }

  /** A row with only a `Theme` column: no key matches any pattern, and the
      theme fallback key finds it. */
  lemma ThemeKeyAlone()
    ensures ResolveKeys(["Theme"]) == KeyMap("Theme", "Address", "Name")
  {
    ShortKeyNotThemeHeader("Theme");
    AddressHeaderStartsWithA("Theme");
    ShortKeyNotHouseholdHeader("Theme");
    ResolveKeySpec(Theme, ["Theme"]);
    ResolveKeySpec(Address, ["Theme"]);
    ResolveKeySpec(Household, ["Theme"]);
  }

  lemma FallbackThemeRow(theme: string)
    ensures Normalize([Cell("Theme", theme)]) == Participant(Trim(theme), "", "")
  {
    ThemeKeyAlone();
    SingleThemeCell("Theme", theme);
  }

  /** With different headers per row, each row uses its own keys: here the
      second row finds its theme under a name the first row does not have. */
  lemma ResolutionIsPerRow(x: string, y: string)
    requires IsTrimmed(x) && x != "" && IsTrimmed(y) && y != ""
    ensures Ingest([[Cell(ThemeColumn, x)], [Cell("Theme", y)]]) ==
      [Participant(x, "", ""), Participant(y, "", "")]
  {
    var p1, p2 := Participant(x, "", ""), Participant(y, "", "");
    ThemeOnlyRow(x);
    FallbackThemeRow(y);
    TrimOfTrimmed(x);
    TrimOfTrimmed(y);
    assert Admissible(p1) && Admissible(p2);
    IngestBothKept([Cell(ThemeColumn, x)], [Cell("Theme", y)], p1, p2);
  }

  // ---------------------------------------------------------------------
  // Reading the output back.

  /** The row the output file holds for `p`, parsed back with its header
      `Trick-or-Treat Name,Address,Household Name`. */
  function OutputRow(p: Participant): Row {
    [Cell(ThemeColumn, p.theme), Cell(AddressColumn, p.address), Cell(HouseholdColumn, p.household)]
  }

  function OutputRows(ps: seq<Participant>): seq<Row> {
    seq(|ps|, i requires 0 <= i < |ps| => OutputRow(ps[i]))
  }

  /** The output header resolves each field to its own column. */
  lemma OutputHeaderResolvesToItself()
    ensures ResolveKeys([ThemeColumn, AddressColumn, HouseholdColumn]) ==
      KeyMap(ThemeColumn, AddressColumn, HouseholdColumn)
  {
    ThemeColumnIsThemeHeader();
    AddressHeaderSpellings();
    HouseholdHeaderVariants(HouseholdColumn);
    AddressHeaderStartsWithA(ThemeColumn);
    ThemeColumnNotHouseholdHeader();
    ShortKeyNotHouseholdHeader(AddressColumn);
    ResolveThreeKeys(ThemeColumn, AddressColumn, HouseholdColumn);
  }

  /** The record of a three-cell row read through the keys `t`, `a` and
      `h`. The second address key is either absent or is `a` itself. */
  lemma ThreeCellValues(t: string, a: string, h: string, x: string, y: string, z: string)
    requires t != a && t != h && a != h
    requires t != AddressWithSpace && h != AddressWithSpace
    ensures NormalizeWith([Cell(t, x), Cell(a, y), Cell(h, z)], KeyMap(t, a, h)) ==
      Participant(Trim(x), Trim(y), Trim(z))
  {
    var row := [Cell(t, x), Cell(a, y), Cell(h, z)];
    assert Keys(row) == [t, a, h];
    assert DistinctKeys(row);
    GetFindsCell(row, t, x);
    GetFindsCell(row, a, y);
    GetFindsCell(row, h, z);
    GetSpec(row, AddressWithSpace);
    assert OrElse(Some(y), OrElse(Get(row, AddressWithSpace), "")) == y;
    EmptyDefault(x);
    EmptyDefault(z);
  }

  /** A three-cell row whose keys resolve to themselves yields its three
      values, trimmed. */
  lemma ThreeCells(t: string, a: string, h: string, x: string, y: string, z: string)
    requires ResolveKeys([t, a, h]) == KeyMap(t, a, h)
    requires t != a && t != h && a != h
    requires t != AddressWithSpace && h != AddressWithSpace
    ensures Normalize([Cell(t, x), Cell(a, y), Cell(h, z)]) == Participant(Trim(x), Trim(y), Trim(z))
  {
    var row := [Cell(t, x), Cell(a, y), Cell(h, z)];
    KeysOfThree(row);
    NormalizeByKeys(row, KeyMap(t, a, h));
    ThreeCellValues(t, a, h, x, y, z);
  }

  lemma KeysOfThree(row: Row)
    requires |row| == 3
    ensures Keys(row) == [row[0].key, row[1].key, row[2].key]
  {
  }

  /** A clean record read back from its output row is the same record. */
  lemma NormalizeOutputRow(p: Participant)
    requires IsClean(p)
    ensures Normalize(OutputRow(p)) == p
  {
    OutputHeaderResolvesToItself();
    ThreeCells(ThemeColumn, AddressColumn, HouseholdColumn, p.theme, p.address, p.household);
    TrimOfTrimmed(p.theme);
    TrimOfTrimmed(p.address);
    TrimOfTrimmed(p.household);
  }

  /** Ingesting the script's own output again changes nothing: the output
      file is a fixed point of the ingestion. */
  lemma IngestOutputIsFixedPoint(ps: seq<Participant>)
    requires forall p :: p in ps ==> Admissible(p) && IsClean(p)
    ensures Ingest(OutputRows(ps)) == ps
  {
    var rows := OutputRows(ps);
    forall i | 0 <= i < |ps| ensures NormalizeAll(rows)[i] == ps[i] {
      assert ps[i] in ps;
      NormalizeOutputRow(ps[i]);
    }
    assert NormalizeAll(rows) == ps;
    KeepAdmissibleAll(ps);
  }

  /** Re-ingesting the output reproduces it. */
  lemma ReingestIsIdempotent(rows: seq<Row>)
    ensures Ingest(OutputRows(Ingest(rows))) == Ingest(rows)
  {
    IngestOutputClean(rows);
    IngestOutputIsFixedPoint(Ingest(rows));
  }

  // ---------------------------------------------------------------------
  // A worked example.

  /** The header of the first row of the worked example, with `Address `
      in place of `Address`. */
  lemma SpacedAddressHeader()
    ensures ResolveKeys([ThemeColumn, AddressWithSpace, HouseholdColumn]) ==
      KeyMap(ThemeColumn, AddressWithSpace, HouseholdColumn)
  {
    ThemeColumnIsThemeHeader();
    AddressHeaderSpellings();
    HouseholdHeaderVariants(HouseholdColumn);
    AddressHeaderStartsWithA(ThemeColumn);
    ThemeColumnNotHouseholdHeader();
    ShortKeyNotHouseholdHeader(AddressWithSpace);
    ResolveThreeKeys(ThemeColumn, AddressWithSpace, HouseholdColumn);
  }

  /** The first row of the worked example: its address sits under `Address `. */
  lemma RowWithSpacedAddress(t: string, w: string, n: string)
    requires IsTrimmed(t) && IsTrimmed(w) && IsTrimmed(n)
    ensures Normalize([Cell(ThemeColumn, t), Cell(AddressWithSpace, w), Cell(HouseholdColumn, n)])
      == Participant(t, w, n)
  {
    SpacedAddressHeader();
    ThreeCells(ThemeColumn, AddressWithSpace, HouseholdColumn, t, w, n);
    TrimOfTrimmed(t);
    TrimOfTrimmed(w);
    TrimOfTrimmed(n);
  }

  /** The second row of the worked example: its theme is blank. */
  lemma RowWithBlankTheme(b: string, y: string, z: string)
    requires AllSpace(b)
    ensures !Admissible(Normalize([Cell(ThemeColumn, b), Cell(AddressColumn, y), Cell(HouseholdColumn, z)]))
  {
    OutputHeaderResolvesToItself();
    ThreeCells(ThemeColumn, AddressColumn, HouseholdColumn, b, y, z);
    TrimEmptyIff(b);
  }

  /** Two rows: the first has its address under `Address ` and is kept; the
      second has a blank theme and is dropped. */
  lemma TwoRowExample(t: string, w: string, n: string, b: string, y: string, z: string)
    requires IsTrimmed(t) && t != "" && IsTrimmed(w) && IsTrimmed(n) && AllSpace(b)
    ensures Ingest([
        [Cell(ThemeColumn, t), Cell(AddressWithSpace, w), Cell(HouseholdColumn, n)],
        [Cell(ThemeColumn, b), Cell(AddressColumn, y), Cell(HouseholdColumn, z)]
      ]) == [Participant(t, w, n)]
  {
    var r1 := [Cell(ThemeColumn, t), Cell(AddressWithSpace, w), Cell(HouseholdColumn, n)];
    var r2 := [Cell(ThemeColumn, b), Cell(AddressColumn, y), Cell(HouseholdColumn, z)];
    RowWithSpacedAddress(t, w, n);
    RowWithBlankTheme(b, y, z);
    IngestKept(r1, Participant(t, w, n));
    IngestDropped(r2);
    IngestTwo(r1, r2);
  }

}
