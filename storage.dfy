/** The species table (the pokedex) and the lookups app.py makes into it:
    species name and sprite by number, the option labels of the species
    pickers and the number read back from a chosen label, and the list of a
    species' next evolutions read from its `|`-separated table cells.

    `Pokedex` stands for any table with these columns: one row per species,
    the number column coerced to a nullable integer, the name held as text,
    and the evolution columns present or not. The table `load_pokedex`
    builds keeps only number, name and sprite, so on it both evolution
    flags are false and the evolution list is always empty. */
module Storage {
  import opened Util
  import opened PyStr

  /** One row of the table. A cell of the evolution columns is `None`
      where the table holds a missing value. */
  datatype Row = Row(
    number: Option<int>,
    name: string,
    sprite: string,
    evolvesToNumbers: Option<string>,
    evolvesToNames: Option<string>)

  /** A species table; the two flags say whether the optional columns
      `evolves_to_numbers` and `evolves_to_names` exist at all. */
  datatype Pokedex = Pokedex(rows: seq<Row>, hasEvolvesToNumbers: bool, hasEvolvesToNames: bool)

  datatype Evolution = Evolution(number: int, name: string)

  function HasNumber(n: int): Row -> bool {
    (row: Row) => row.number == Some(n)
  }

  /** The first row whose number is `n` (`df.loc[df["number"] == n].iloc[0]`);
      rows with a missing number never match. */
  function FindRow(dex: Pokedex, n: int): Option<nat> {
    FindFirst(dex.rows, HasNumber(n))
  }

  /** Row `i` is numbered `n` and no earlier row is. */
  predicate IsFirstRow(dex: Pokedex, n: int, i: int) {
    0 <= i < |dex.rows| && dex.rows[i].number == Some(n) &&
    forall j :: 0 <= j < i ==> dex.rows[j].number != Some(n)
  }

  predicate NoRow(dex: Pokedex, n: int) {
    forall i :: 0 <= i < |dex.rows| ==> dex.rows[i].number != Some(n)
  }

  lemma FindRowFirst(dex: Pokedex, n: int)
    ensures FindRow(dex, n).None? <==> NoRow(dex, n)
    ensures forall i :: IsFirstRow(dex, n, i) ==> FindRow(dex, n) == Some(i)
  {
    forall i | IsFirstRow(dex, n, i) ensures FindRow(dex, n) == Some(i) {
      var k := FindRow(dex, n);
      assert HasNumber(n)(dex.rows[i]);
    }
  }

  /** `name_for`: the name of the first row numbered `n`, or "" if none is. */
  function NameFor(dex: Pokedex, n: int): (r: string)
    ensures NoRow(dex, n) ==> r == ""
    ensures forall i :: IsFirstRow(dex, n, i) ==> r == dex.rows[i].name
  {
    FindRowFirst(dex, n);
    match FindRow(dex, n)
    case None => ""
    case Some(i) => dex.rows[i].name
  }

  /** `sprite_for`: the whitespace-stripped sprite of the first row numbered
      `n`, or "" if none is. */
  function SpriteFor(dex: Pokedex, n: int): (r: string)
    ensures NoRow(dex, n) ==> r == ""
    ensures forall i :: IsFirstRow(dex, n, i) ==> r == Strip(dex.rows[i].sprite)
  {
    FindRowFirst(dex, n);
    match FindRow(dex, n)
    case None => ""
    case Some(i) => Strip(dex.rows[i].sprite)
  }

  // ---------- species picker labels ----------

  /** The label of one row: its number (0 where missing) zero-padded to three
      characters, " - ", then its name. */
  function OptionLabel(row: Row): string {
    FormatPadded(row.number.GetOr(0), 3) + " - " + row.name
  }

  /** `search_options`: one label per row, in row order. */
  function SearchOptions(dex: Pokedex): (r: seq<string>)
    ensures |r| == |dex.rows|
  {
    MapSeq(dex.rows, OptionLabel)
  }

  /** `parse_number_from_option`: `None` for the empty label, otherwise
      `int()` of the stripped text before the first '-', `None` when that text
      is not an integer. */
  function ParseNumberFromOption(option: string): Option<int> {
    if option == "" then None
    else ParseInt(Strip(Split(option, '-')[0]))
  }

  /** A label made for a row with a non-negative (or missing) number reads
      back as that number. */
  lemma OptionLabelRoundTrip(row: Row)
    requires row.number.GetOr(0) >= 0
    ensures ParseNumberFromOption(OptionLabel(row)) == Some(row.number.GetOr(0))
  {
    var n := row.number.GetOr(0);
    var f := FormatPadded(n, 3);
    PaddedDigits(n, 3);
    LabelFirstPiece(f, row.name);
    FormatPaddedRoundTrip(n, 3);
  }

  /** The text before the first '-' of `f + " - " + name`, stripped, is `f`
      when `f` is a digit run. */
  lemma LabelFirstPiece(f: string, name: string)
    requires IsDigitRun(f)
    ensures Strip(Split(f + " - " + name, '-')[0]) == f
  {
    var head := f + " ";
    var s := f + " - " + name;
    assert '-' !in head by {
      forall k | 0 <= k < |head| ensures head[k] != '-' {
        if k < |f| { assert head[k] == f[k]; }
      }
    }
    assert s == head + ['-'] + (" " + name);
    assert s[..|head|] == head;
    SplitFirst(s, '-', |head|);
    StripDigitsSpace(f);
  }

  lemma StripDigitsSpace(f: string)
    requires IsDigitRun(f)
    ensures Strip(f + " ") == f
  {
    var head := f + " ";
    assert head[|f|] == ' ';
    assert head[0] == f[0] && head[|f| - 1] == f[|f| - 1];
    StripExact(head, 0, |f|);
    assert head[0..|f|] == f;
  }

  /** Every label `search_options` offers, for a row whose number is not
      negative, parses back to that row's number. */
  lemma SearchOptionsRoundTrip(dex: Pokedex, i: nat)
    requires i < |dex.rows| && dex.rows[i].number.GetOr(0) >= 0
    ensures ParseNumberFromOption(SearchOptions(dex)[i]) == Some(dex.rows[i].number.GetOr(0))
  {
    OptionLabelRoundTrip(dex.rows[i]);
  }

  /** A negative species number does not survive the round trip: its label
      starts with '-', so the text before the first '-' is empty. */
  lemma NegativeLabelUnparsed(row: Row)
    requires row.number.GetOr(0) < 0
    ensures ParseNumberFromOption(OptionLabel(row)) == None
  {
    var s := OptionLabel(row);
    assert s[0] == '-';
    SplitFirst(s, '-', 0);
  }

  // ---------- evolutions ----------

  /** The pieces of a `|`-separated cell, each whitespace-stripped. */
  function Pieces(cell: string): (r: seq<string>)
    ensures |r| >= 1
  {
    MapSeq(Split(cell, '|'), Strip)
  }

  /** One piece of an `evolves_to_numbers` cell: `int(p)`, failing that
      `int(p.lstrip("0") or "0")`, failing that nothing. */
  function ParsePart(p: string): Option<int> {
    match ParseInt(p)
    case Some(v) => Some(v)
    case None =>
      var q := LStripZeros(p);
      ParseInt(if q == "" then "0" else q)
  }

  /** The numbers that parse, in piece order; other pieces are dropped. */
  function ParsedNumbers(parts: seq<string>): (r: seq<int>)
    ensures |r| <= |parts|
  {
    FilterMap(parts, ParsePart)
  }

  /** The name given to the `i`-th parsed number: piece `i` of the names cell
      when there is one and it is non-empty, otherwise the table's own name. */
  function EvolutionName(dex: Pokedex, names: seq<string>, i: nat, n: int): string {
    if i < |names| && names[i] != "" then names[i] else NameFor(dex, n)
  }

  /** What `get_evolutions` returns, stated on the table. */
  function Evolutions(dex: Pokedex, number: int): seq<Evolution> {
    match FindRow(dex, number)
    case None => []
    case Some(i) => RowEvolutions(dex, dex.rows[i])
  }

  /** The evolutions listed in one row. */
  function RowEvolutions(dex: Pokedex, row: Row): seq<Evolution> {
    var raw := row.evolvesToNumbers.GetOr("");
    if !dex.hasEvolvesToNumbers || Strip(raw) == "" then []
    else
      var nums := ParsedNumbers(Pieces(raw));
      var names := if dex.hasEvolvesToNames && row.evolvesToNames.Some?
                   then Pieces(row.evolvesToNames.value) else [];
      seq(|nums|, k requires 0 <= k < |nums| => Evolution(nums[k], EvolutionName(dex, names, k, nums[k])))
  }

  /** `get_evolutions`: finds the species' row, reads its
      `evolves_to_numbers` cell, collects the numbers that parse, then pairs
      each with a name. */
  method GetEvolutions(dex: Pokedex, number: int) returns (r: seq<Evolution>)
    ensures r == Evolutions(dex, number)
  {
    var found := FindRow(dex, number);
    if found.None? {
      return [];
    }
    r := EvolutionsOfRow(dex, dex.rows[found.value]);
  }

  /** The part of `get_evolutions` after the row is found. */
  method EvolutionsOfRow(dex: Pokedex, row: Row) returns (r: seq<Evolution>)
    ensures r == RowEvolutions(dex, row)
  {
    if !dex.hasEvolvesToNumbers {
      return [];
    }
    var numsRaw := row.evolvesToNumbers.GetOr("");
    if Strip(numsRaw) == "" {
      return [];
    }
    var outNums := CollectNumbers(Pieces(numsRaw));
    var partsn: seq<string> := [];
    if dex.hasEvolvesToNames && row.evolvesToNames.Some? {
      partsn := Pieces(row.evolvesToNames.value);
    }
    var names := NameEvolutions(dex, dex.hasEvolvesToNames, partsn, outNums);
    r := seq(|outNums|, k requires 0 <= k < |outNums| => Evolution(outNums[k], names[k]));
    assert r == RowEvolutions(dex, row);
  }

  /** The first loop of `get_evolutions`: each stripped piece is tried with
      `int(p)`, then with `int(p.lstrip("0") or "0")`, and dropped when both
      fail. */
  method CollectNumbers(parts: seq<string>) returns (outNums: seq<int>)
    ensures outNums == ParsedNumbers(parts)
  {
    outNums := [];
    for k := 0 to |parts|
      invariant outNums == ParsedNumbers(parts[..k])
    {
      var p := parts[k];
      assert parts[..k + 1] == parts[..k] + [p];
      FilterMapAppend(parts[..k], [p], ParsePart);
      match ParseInt(p) {
        case Some(v) =>
          outNums := outNums + [v];
        case None =>
          var q := LStripZeros(p);
          match ParseInt(if q == "" then "0" else q) {
            case Some(v) =>
              outNums := outNums + [v];
            case None =>
          }
      }
    }
    assert parts[..|parts|] == parts;
  }

  /** The naming part of `get_evolutions`: with a names column, the `i`-th
      number takes piece `i` of the names cell when that piece is non-empty
      and the table's name otherwise; without one, always the table's name. */
  method NameEvolutions(dex: Pokedex, hasNamesColumn: bool, partsn: seq<string>, outNums: seq<int>)
    returns (names: seq<string>)
    requires !hasNamesColumn ==> partsn == []
    ensures |names| == |outNums|
    ensures forall i :: 0 <= i < |outNums| ==> names[i] == EvolutionName(dex, partsn, i, outNums[i])
  {
    names := [];
    if hasNamesColumn {
      for i := 0 to |outNums|
        invariant |names| == i
        invariant forall j :: 0 <= j < i ==> names[j] == EvolutionName(dex, partsn, j, outNums[j])
      {
        if i < |partsn| && partsn[i] != "" {
          names := names + [partsn[i]];
        } else {
          names := names + [NameFor(dex, outNums[i])];
        }
      }
    } else {
      names := MapSeq(outNums, n => NameFor(dex, n));
    }
  }

  /** Parsed numbers of a concatenation are those of each part, in order:
      nothing is reordered. */
  lemma ParsedNumbersAppend(a: seq<string>, b: seq<string>)
    ensures ParsedNumbers(a + b) == ParsedNumbers(a) + ParsedNumbers(b)
  {
    FilterMapAppend(a, b, ParsePart);
  }

  /** When every piece is an integer literal nothing is dropped, and the
      numbers come out in piece order. */
  lemma ParsedNumbersAllInts(parts: seq<string>)
    requires forall i :: 0 <= i < |parts| ==> ParseInt(parts[i]).Some?
    ensures |ParsedNumbers(parts)| == |parts|
    ensures forall i :: 0 <= i < |parts| ==> ParsedNumbers(parts)[i] == ParseInt(parts[i]).value
  {
    assert forall i :: 0 <= i < |parts| ==> ParsePart(parts[i]) == ParseInt(parts[i]);
    FilterMapAllSome(parts, ParsePart);
  }

  /** A number is produced exactly when some piece parses to it. */
  lemma ParsedNumbersMember(parts: seq<string>, v: int)
    ensures v in ParsedNumbers(parts) <==> exists i :: 0 <= i < |parts| && ParsePart(parts[i]) == Some(v)
  {
    FilterMapMember(parts, ParsePart, v);
  }

  /** A piece made only of zeros, the empty piece included, reads as 0. */
  lemma ParsePartAllZeros(p: string)
    requires forall k :: 0 <= k < |p| ==> p[k] == '0'
    ensures ParsePart(p) == Some(0)
  {
    if p == [] {
      ParsePartEmpty();
    } else {
      ParseIntZeros(p);
    }
  }

  lemma ParsePartEmpty()
    ensures ParsePart("") == Some(0)
  {
    assert StripBy("", IntSpace) == [];
    assert ParseInt("") == None;
    assert LStripZeros("") == [];
    ParseIntZeros("0");
  }

  /** A piece holding one of the separators U+001C to U+001F right after
      a leading zero (such as "0\x1c7") is dropped, although `strip()`
      would remove that character: `int()` does not skip it, with or
      without the zero. */
  lemma SeparatorAfterZeroDropped(p: string)
    requires |p| >= 2 && p[0] == '0' && '\U{1c}' <= p[1] <= '\U{1f}'
    ensures ParsePart(p) == None
  {
    SeparatorSecondRejected(p);
    assert LStripZeros(p) == LStripZeros(p[1..]);
    ParseIntSeparatorFirst(p[1..]);
  }

  lemma SeparatorSecondRejected(p: string)
    requires |p| >= 2 && p[0] == '0' && '\U{1c}' <= p[1] <= '\U{1f}'
    ensures ParseInt(p) == None
  {
    IntStripPrefix(p, 1);
    var t := StripBy(p, IntSpace);
    assert t[0] == '0' && t[1] == p[1];
    assert !IsDigit(t[1]) && t[1] != '_';
  }

  lemma ParseIntZeros(p: string)
    requires p != [] && forall k :: 0 <= k < |p| ==> p[k] == '0'
    ensures ParseInt(p) == Some(0)
  {
    StripNoSpaceEnds(p, IntSpace);
    assert Repeat('0', |p|) + [] == p;
    RunValueLeadingZeros(|p|, []);
    assert IsDigitRun(p);
  }

  /** An empty piece between two separators counts as 0 rather than being
      dropped: a cell "x||y" lists the numbers of `x`, then 0, then those of
      `y` (so "1||2" gives 1, 0, 2). */
  lemma EmptyPieceIsZero(x: string, y: string)
    requires '|' !in x && '|' !in y
    requires ParsePart(Strip(x)).Some? && ParsePart(Strip(y)).Some?
    ensures ParsedNumbers(Pieces(x + "||" + y)) ==
      [ParsePart(Strip(x)).value, 0, ParsePart(Strip(y)).value]
  {
    var a, b := Strip(x), Strip(y);
    var va, vb := ParsePart(a).value, ParsePart(b).value;
    PiecesThree(x, y);
    NumbersThree(a, b);
    ParsedNumbersOne(a, va);
    ParsedNumbersOne(b, vb);
    ConcatThree(va, 0, vb);
  }

  lemma PiecesThree(x: string, y: string)
    requires '|' !in x && '|' !in y
    ensures Pieces(x + "||" + y) == [Strip(x), "", Strip(y)]
  {
    SplitThree(x, y);
    StripNothing();
    MapThree(x, "", y, Strip);
  }

  /** `strip()` of the empty text, stated apart to keep the caller's proof small. */
  lemma StripNothing()
    ensures Strip("") == ""
  {
  }

  /** Mapping a three-element display, stated apart to keep the caller's proof small. */
  lemma MapThree<T, U>(a: T, b: T, c: T, f: T -> U)
    ensures MapSeq([a, b, c], f) == [f(a), f(b), f(c)]
  {
  }

  lemma NumbersThree(a: string, b: string)
    ensures ParsedNumbers([a, "", b]) == ParsedNumbers([a]) + [0] + ParsedNumbers([b])
  {
    ParsePartEmpty();
    assert [a, "", b] == [a] + [""] + [b];
    ParsedNumbersAppend([a] + [""], [b]);
    ParsedNumbersAppend([a], [""]);
    ParsedNumbersOne("", 0);
  }

  lemma SplitThree(x: string, y: string)
    requires '|' !in x && '|' !in y
    ensures Split(x + "||" + y, '|') == [x, "", y]
  {
    assert x + "||" + y == x + ['|'] + ("" + ['|'] + y);
    SplitCons(x, '|', "" + ['|'] + y);
    SplitCons("", '|', y);
    SplitPlain(y, '|');
  }

  lemma ParsedNumbersOne(p: string, v: int)
    requires ParsePart(p) == Some(v)
    ensures ParsedNumbers([p]) == [v]
  {
    assert [p][..0] == [];
  }

  /** A sequence display identity, stated apart to keep the caller's proof small. */
  lemma ConcatThree<T>(x: T, y: T, z: T)
    ensures [x] + [y] + [z] == [x, y, z]
  {
  }
}
