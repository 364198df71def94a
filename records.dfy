/**
 * The row loop of `structure_for_db`: every table row with a valid HS code
 * becomes one database record, every other row is counted as skipped.
 */
module Records {
  import opened Optional
  import opened PyStr
  import opened Sequences
  import opened HsCode
  import opened Keywords

  /**
   * One table row: column name to cell. A column missing from the map is a
   * column the table does not have; a `None` cell is an empty (NaN) cell.
   */
  type Row = map<string, Option<string>>

  /** `str(row.get(column, default))`: the default for a missing column, `"nan"` for an empty cell. */
  function Cell(row: Row, column: string, default: string): string
  {
    if column !in row then default
    else if row[column].None? then "nan"
    else row[column].value
  }

  /** `pd.notna(row.get(column))`: the column exists and its cell is filled. */
  predicate Present(row: Row, column: string)
  {
    column in row && row[column].Some?
  }

  /** One element of the result list, with the fields of the `hs_codes` table. */
  datatype HsRecord = HsRecord(
    code: string,
    chapter: string,
    heading: string,
    subheading: string,
    countryCode: string,
    description: string,
    keywords: seq<string>,
    commonProducts: seq<string>,
    parentCode: Option<string>)

  /** The code the loop checks: the `hs_code` cell as text, stripped. */
  function RowCode(row: Row): string
  {
    Strip(Cell(row, "hs_code", ""))
  }

  /** Whether the row's code passes `validate_hs_code`. */
  predicate HasValidCode(row: Row)
  {
    ValidateHsCode(RowCode(row))
  }

  /** The stripped texts of the filled `hs_description` and `product_description` cells, in that order. */
  function DescriptionParts(row: Row): seq<string>
  {
    (if Present(row, "hs_description") then [Strip(row["hs_description"].value)] else []) +
    (if Present(row, "product_description") then [Strip(row["product_description"].value)] else [])
  }

  /** The record's description: the parts joined by `" - "`, or `"No description"` when there are none. */
  function FullDescription(row: Row): string
  {
    var parts := DescriptionParts(row);
    if parts == [] then "No description" else JoinWith(parts, " - ")
  }

  /** The text keywords are drawn from: product description, material and function, separated by spaces. */
  function KeywordText(row: Row): string
  {
    Cell(row, "product_description", "") + " " + Cell(row, "material", "") + " " + Cell(row, "function", "")
  }

  /** The record the loop builds for a row whose code `code` has passed the check. */
  function BuildRecord(row: Row, code: string, countryCode: string): HsRecord
  {
    var parts := ParseHsCode(code);
    HsRecord(
      code, parts.chapter, parts.heading, parts.subheading, countryCode,
      FullDescription(row),
      KeywordsOf(Some(KeywordText(row)), DefaultMaxKeywords),
      ExtractCommonProducts(Cell(row, "product_description", ""), Some(Cell(row, "product_name", ""))),
      DetermineParentCode(code))
  }

  // ---------------------------------------------------------------- filtering rows

  /** The rows `keep` accepts, each turned into a record by `build`, in their order. */
  function KeepMap(rows: seq<Row>, keep: Row -> bool, build: Row -> HsRecord): seq<HsRecord>
  {
    if rows == [] then []
    else
      var init, row := rows[..|rows| - 1], rows[|rows| - 1];
      if keep(row) then KeepMap(init, keep, build) + [build(row)] else KeepMap(init, keep, build)
  }

  /** How many rows `keep` turns down. */
  function Rejected(rows: seq<Row>, keep: Row -> bool): nat
  {
    if rows == [] then 0
    else
      var init := rows[..|rows| - 1];
      if keep(rows[|rows| - 1]) then Rejected(init, keep) else Rejected(init, keep) + 1
  }

  /** The positions of the rows `keep` accepts, in increasing order. */
  function KeptPositions(rows: seq<Row>, keep: Row -> bool): seq<nat>
  {
    if rows == [] then []
    else
      var n := |rows| - 1;
      if keep(rows[n]) then KeptPositions(rows[..n], keep) + [n] else KeptPositions(rows[..n], keep)
  }

  lemma RejectedStep(rows: seq<Row>, i: int, keep: Row -> bool)
    requires 0 <= i < |rows|
    ensures Rejected(rows[..i + 1], keep) == if keep(rows[i]) then Rejected(rows[..i], keep) else Rejected(rows[..i], keep) + 1
  {
    assert rows[..i + 1][..i] == rows[..i];
  }

  lemma {:induction false} KeptPlusRejected(rows: seq<Row>, keep: Row -> bool, build: Row -> HsRecord)
    ensures |KeepMap(rows, keep, build)| + Rejected(rows, keep) == |rows|
  {
    if rows != [] {
      KeptPlusRejected(rows[..|rows| - 1], keep, build);
    }
  }

  lemma {:induction false} KeptPositionsShape(rows: seq<Row>, keep: Row -> bool)
    ensures var ix := KeptPositions(rows, keep);
      (forall a :: 0 <= a < |ix| ==> ix[a] < |rows|) &&
      (forall a, b :: 0 <= a < b < |ix| ==> ix[a] < ix[b]) &&
      (forall i :: 0 <= i < |rows| ==> (i in ix <==> keep(rows[i])))
  {
    if rows != [] {
      var n := |rows| - 1;
      var init := rows[..n];
      KeptPositionsShape(init, keep);
      assert forall i :: 0 <= i < n ==> init[i] == rows[i];
    }
  }

  lemma {:induction false} KeepMapAtPositions(rows: seq<Row>, keep: Row -> bool, build: Row -> HsRecord)
    ensures var ix, rs := KeptPositions(rows, keep), KeepMap(rows, keep, build);
      |rs| == |ix| &&
      forall a :: 0 <= a < |ix| ==> ix[a] < |rows| && rs[a] == build(rows[ix[a]])
  {
    if rows != [] {
      var n := |rows| - 1;
      var init := rows[..n];
      KeepMapAtPositions(init, keep, build);
      var ix0, rs0 := KeptPositions(init, keep), KeepMap(init, keep, build);
      var ix, rs := KeptPositions(rows, keep), KeepMap(rows, keep, build);
      if keep(rows[n]) {
        assert ix == ix0 + [n] && rs == rs0 + [build(rows[n])];
      } else {
        assert ix == ix0 && rs == rs0;
      }
      forall a | 0 <= a < |ix|
        ensures ix[a] < |rows| && rs[a] == build(rows[ix[a]])
      {
        if a < |ix0| {
          assert ix[a] == ix0[a] && rs[a] == rs0[a] && init[ix0[a]] == rows[ix0[a]];
        }
      }
    }
  }

  /** A row `keep` accepts adds `build` of it after the records of the rows before it. */
  lemma KeepMapKeeps(rows: seq<Row>, i: int, keep: Row -> bool, build: Row -> HsRecord)
    requires 0 <= i < |rows| && keep(rows[i])
    ensures KeepMap(rows[..i + 1], keep, build) == KeepMap(rows[..i], keep, build) + [build(rows[i])]
  {
    assert rows[..i + 1][..i] == rows[..i];
  }

  /** A row `keep` turns down adds nothing. */
  lemma KeepMapDrops(rows: seq<Row>, i: int, keep: Row -> bool, build: Row -> HsRecord)
    requires 0 <= i < |rows| && !keep(rows[i])
    ensures KeepMap(rows[..i + 1], keep, build) == KeepMap(rows[..i], keep, build)
  {
    assert rows[..i + 1][..i] == rows[..i];
  }

  // ---------------------------------------------------------------- structure_for_db

  /** The record a row with a valid code becomes. */
  function RowRecord(countryCode: string): Row -> HsRecord
  {
    row => BuildRecord(row, RowCode(row), countryCode)
  }

  /** The records `structure_for_db` returns for `rows`: one per row with a valid code, in row order. */
  function Structure(rows: seq<Row>, countryCode: string): seq<HsRecord>
  {
    KeepMap(rows, HasValidCode, RowRecord(countryCode))
  }

  /** How many rows `structure_for_db` skips for an invalid code. */
  function Skipped(rows: seq<Row>): nat
  {
    Rejected(rows, HasValidCode)
  }

  /** A row with a valid code adds its record after the records of the rows before it. */
  lemma StructureKeeps(rows: seq<Row>, i: int, countryCode: string, record: HsRecord)
    requires 0 <= i < |rows| && HasValidCode(rows[i])
    requires record == BuildRecord(rows[i], RowCode(rows[i]), countryCode)
    ensures Structure(rows[..i + 1], countryCode) == Structure(rows[..i], countryCode) + [record]
  {
    KeepMapKeeps(rows, i, HasValidCode, RowRecord(countryCode));
  }

  /** A row with an invalid code adds no record. */
  lemma StructureDrops(rows: seq<Row>, i: int, countryCode: string)
    requires 0 <= i < |rows| && !HasValidCode(rows[i])
    ensures Structure(rows[..i + 1], countryCode) == Structure(rows[..i], countryCode)
  {
    KeepMapDrops(rows, i, HasValidCode, RowRecord(countryCode));
  }

  /** One more row adds one to the skip count exactly when its code is invalid. */
  lemma SkippedStep(rows: seq<Row>, i: int)
    requires 0 <= i < |rows|
    ensures HasValidCode(rows[i]) ==> Skipped(rows[..i + 1]) == Skipped(rows[..i])
    ensures !HasValidCode(rows[i]) ==> Skipped(rows[..i + 1]) == Skipped(rows[..i]) + 1
  {
    RejectedStep(rows, i, HasValidCode);
  }

  /** The body of the loop for a row whose code `hsCode` has passed the check. */
  method RecordForRow(row: Row, hsCode: string, countryCode: string) returns (record: HsRecord)
    ensures record == BuildRecord(row, hsCode, countryCode)
  {
    var codeParts := ParseHsCode(hsCode);
    var keywords := ExtractKeywords(Some(KeywordText(row)), DefaultMaxKeywords);
    record := HsRecord(
      hsCode, codeParts.chapter, codeParts.heading, codeParts.subheading, countryCode,
      FullDescription(row), keywords,
      ExtractCommonProducts(Cell(row, "product_description", ""), Some(Cell(row, "product_name", ""))),
      DetermineParentCode(hsCode));
  }

  /** The loop body for row `i` with a valid code: its record goes after those of the rows before it. */
  method AppendRecord(rows: seq<Row>, i: int, countryCode: string, records: seq<HsRecord>) returns (records': seq<HsRecord>)
    requires 0 <= i < |rows| && HasValidCode(rows[i])
    requires records == Structure(rows[..i], countryCode)
    ensures records' == Structure(rows[..i + 1], countryCode)
  {
    var row := rows[i];
    var record := RecordForRow(row, RowCode(row), countryCode);
    StructureKeeps(rows, i, countryCode, record);
    records' := records + [record];
  }

  /** One pass of the row loop: row `i` either adds its record or adds one to the skip count. */
  method AddRow(rows: seq<Row>, i: int, countryCode: string, records: seq<HsRecord>, skipped: nat)
    returns (records': seq<HsRecord>, skipped': nat)
    requires 0 <= i < |rows|
    requires records == Structure(rows[..i], countryCode) && skipped == Skipped(rows[..i])
    ensures records' == Structure(rows[..i + 1], countryCode) && skipped' == Skipped(rows[..i + 1])
  {
    if HasValidCode(rows[i]) {
      records' := AppendRecord(rows, i, countryCode, records);
      skipped' := skipped;
      SkippedStep(rows, i);
    } else {
      StructureDrops(rows, i, countryCode);
      SkippedStep(rows, i);
      records', skipped' := records, skipped + 1;
    }
  }

  /** The `country_code` that `structure_for_db` stamps on its records when the caller gives none: India. */
  const DefaultCountryCode: string := "IN"

  /** The row loop of `structure_for_db(df, country_code)`, returning the records and the skip count. */
  method StructureForDb(rows: seq<Row>, countryCode: string) returns (records: seq<HsRecord>, skipped: nat)
    ensures records == Structure(rows, countryCode)
    ensures skipped == Skipped(rows)
  {
    records := [];
    skipped := 0;
    for i := 0 to |rows|
      invariant records == Structure(rows[..i], countryCode)
      invariant skipped == Skipped(rows[..i])
    {
      records, skipped := AddRow(rows, i, countryCode, records, skipped);
    }
    assert rows[..|rows|] == rows;
  }

  // ---------------------------------------------------------------- what the loop guarantees

  /** Every row ends up either as a record or in the skip count. */
  lemma RecordsPlusSkipped(rows: seq<Row>, countryCode: string)
    ensures |Structure(rows, countryCode)| + Skipped(rows) == |rows|
  {
    KeptPlusRejected(rows, HasValidCode, RowRecord(countryCode));
  }

  /** The positions of the rows whose code passes the check, in increasing order. */
  function ValidIndices(rows: seq<Row>): seq<nat>
  {
    KeptPositions(rows, HasValidCode)
  }

  /**
   * The records are the records of the rows with a valid code, in row
   * order: the valid positions rise strictly, name exactly those rows, and
   * record `a` is built from the row at valid position `a`. Nothing is
   * dropped, invented or reordered.
   */
  lemma StructureFollowsRows(rows: seq<Row>, countryCode: string)
    ensures var ix, rs := ValidIndices(rows), Structure(rows, countryCode);
      |rs| == |ix| &&
      (forall a, b :: 0 <= a < b < |ix| ==> ix[a] < ix[b]) &&
      (forall i :: 0 <= i < |rows| ==> (i in ix <==> ValidateHsCode(RowCode(rows[i])))) &&
      forall a :: 0 <= a < |ix| ==>
        ix[a] < |rows| && rs[a] == BuildRecord(rows[ix[a]], RowCode(rows[ix[a]]), countryCode)
  {
    KeptPositionsShape(rows, HasValidCode);
    KeepMapAtPositions(rows, HasValidCode, RowRecord(countryCode));
  }

  /**
   * The fields of a record built from a row whose code passed the check: the
   * code is valid and already stripped, chapter, heading and subheading are
   * the first 2, 4 and 6 digits of the code (the subheading falls back to
   * the heading for a 4-digit code), the parent code is the one
   * `determine_parent_code` gives, and the keywords are at most 15 and
   * distinct.
   */
  predicate WellFormedRecord(r: HsRecord, countryCode: string)
  {
    var d := RemoveChar(Cleaned(r.code), '.');
    ValidateHsCode(r.code) && Strip(r.code) == r.code &&
    r.countryCode == countryCode &&
    r.parentCode == DetermineParentCode(r.code) &&
    IsCodeDigits(d) && r.chapter == d[..2] && r.heading == d[..4] &&
    r.subheading == (if |d| == 4 then r.heading else r.heading + ['.', d[4], d[5]]) &&
    |r.keywords| <= DefaultMaxKeywords && NoDuplicates(r.keywords)
  }

  /** The record of a row with a valid code holds that code and is well formed. */
  lemma RecordOfValidRow(row: Row, countryCode: string)
    requires HasValidCode(row)
    ensures var r := BuildRecord(row, RowCode(row), countryCode);
      r.code == RowCode(row) && WellFormedRecord(r, countryCode)
  {
    var code := RowCode(row);
    StripIdempotent(Cell(row, "hs_code", ""));
    ParseOfValid(code);
    KeywordsProperties(Some(KeywordText(row)), DefaultMaxKeywords);
  }

  /** Every record `structure_for_db` returns is well formed. */
  lemma RecordFields(rows: seq<Row>, countryCode: string, a: int)
    requires 0 <= a < |Structure(rows, countryCode)|
    ensures WellFormedRecord(Structure(rows, countryCode)[a], countryCode)
  {
    StructureFollowsRows(rows, countryCode);
    var ix := ValidIndices(rows);
    assert ix[a] in ix;
    RecordOfValidRow(rows[ix[a]], countryCode);
  }

  /** Called without a country code, `structure_for_db` marks every record as Indian. */
  lemma DefaultCountryStamped(rows: seq<Row>, a: int)
    requires 0 <= a < |Structure(rows, DefaultCountryCode)|
    ensures Structure(rows, DefaultCountryCode)[a].countryCode == "IN"
  {
    RecordFields(rows, DefaultCountryCode, a);
  }

  /**
   * The description of a record built from a row: both filled descriptions,
   * stripped and joined by `" - "`; just one of them when only one is
   * filled; `"No description"` when neither is.
   */
  lemma DescriptionRule(row: Row)
    ensures var h, p := Present(row, "hs_description"), Present(row, "product_description");
      FullDescription(row) ==
        if h && p then Strip(row["hs_description"].value) + " - " + Strip(row["product_description"].value)
        else if h then Strip(row["hs_description"].value)
        else if p then Strip(row["product_description"].value)
        else "No description"
  {
    var h, p := Present(row, "hs_description"), Present(row, "product_description");
    var parts := DescriptionParts(row);
    if h && p {
      assert parts == [Strip(row["hs_description"].value), Strip(row["product_description"].value)];
      assert parts[1..] == [Strip(row["product_description"].value)];
      assert JoinWith(parts[1..], " - ") == Strip(row["product_description"].value);
    } else if h || p {
      assert |parts| == 1;
    }
  }

  /** The common products are the lowercased, stripped product name; an empty name cell becomes `["nan"]`. */
  lemma CommonProductsOfRow(row: Row, code: string, countryCode: string)
    ensures var r, name := BuildRecord(row, code, countryCode), Cell(row, "product_name", "");
      r.commonProducts == if name == [] then [] else [Lower(Strip(name))]
    ensures "product_name" in row && row["product_name"].None? ==>
      BuildRecord(row, code, countryCode).commonProducts == ["nan"]
  {
    var name := Cell(row, "product_name", "");
    if "product_name" in row && row["product_name"].None? {
      NanIsPlain(name);
    }
  }

  /**
   * An empty (NaN) `product_description` cell puts the text `"nan"` at the
   * head of the keyword text, and `"nan"` qualifies as a keyword, so it
   * becomes the record's first keyword.
   */
  lemma NanDescriptionKeyword(row: Row, code: string, countryCode: string)
    requires "product_description" in row && row["product_description"].None?
    ensures var r := BuildRecord(row, code, countryCode); r.keywords != [] && r.keywords[0] == "nan"
  {
    var nan := Cell(row, "product_description", "");
    var x := Cell(row, "material", "") + " " + Cell(row, "function", "");
    assert KeywordText(row) == nan + " " + x;
    NanIsKeyword(nan);
    KeywordsOfLeadingWord(nan, x, DefaultMaxKeywords);
  }

  /** The text `"nan"` is a lowercase alphanumeric word of 3 letters and not a stopword. */
  lemma NanIsKeyword(s: string)
    requires s == "nan"
    ensures s != [] && IsKeyword(s) && forall k :: 0 <= k < |s| ==> IsLowerAlnum(s[k])
  {
    assert |s| == 3 && s[0] == 'n' && s[1] == 'a' && s[2] == 'n';
    forall k | 0 <= k < |s| ensures IsLowerAlnum(s[k]) {
      assert k == 0 || k == 1 || k == 2;
    }
    NoStopwordStartsWithN(s);
  }

  /** The text `"nan"` is already stripped and lowercase. */
  lemma NanIsPlain(s: string)
    requires s == "nan"
    ensures Lower(Strip(s)) == s && s != []
  {
    assert |s| == 3 && s[0] == 'n' && s[1] == 'a' && s[2] == 'n';
    forall k | 0 <= k < |s|
      ensures !IsUpper(s[k])
    {
      assert k == 0 || k == 1 || k == 2;
    }
    StripUnpadded(s);
    LowerOfLowercase(s);
  }

  /** A row whose `hs_code` cell is empty reads as the code `"nan"`, which fails the check, so the row is skipped. */
  lemma EmptyCodeSkipped(rows: seq<Row>, countryCode: string, row: Row)
    requires "hs_code" in row && row["hs_code"].None?
    ensures Structure(rows + [row], countryCode) == Structure(rows, countryCode)
    ensures Skipped(rows + [row]) == Skipped(rows) + 1
  {
    var all := rows + [row];
    assert all[..|all| - 1] == rows && all[|all| - 1] == row;
    var c := Cell(row, "hs_code", "");
    assert c == "nan";
    StripUnpadded(c);
    assert Cleaned(c) == c;
  }
}
