/**
 * The row-level logic of the CSV bridge (src/utils/csvHandler.ts): the fixed
 * header maps between internal field names and Korean column labels, the
 * per-row transform applied after parsing, the per-row transform applied
 * before unparsing, and the two all-or-nothing batch validators.
 *
 * Papa Parse's tokenizer and unparser are not modelled: an imported row is
 * what Papa hands over in header mode (a map from header to cell text), and
 * an exported row is the ordered list of (label, value) entries handed to
 * `Papa.unparse`.
 */
module CsvHandler {
  import opened Text
  import Types

  /** One entry of a header map: internal field name and Korean label. */
  datatype Column = Column(field: string, title: string)

  /** CATEGORY_HEADERS, in declaration (= column) order. */
  const CategoryHeaders: seq<Column> := [
    Column("type", "유형"), Column("section", "관"), Column("category", "항"),
    Column("subcategory", "목"), Column("order", "순서")
  ]

  /** TRANSACTION_HEADERS, in declaration (= column) order. */
  const TransactionHeaders: seq<Column> := [
    Column("date", "날짜"), Column("type", "유형"), Column("section", "관"), Column("category", "항"),
    Column("subcategory", "목"), Column("amount", "금액"), Column("memo", "메모")
  ]

  function Labels(cols: seq<Column>): (r: seq<string>)
    ensures |r| == |cols| && forall i :: 0 <= i < |cols| ==> r[i] == cols[i].title
  {
    seq(|cols|, i requires 0 <= i < |cols| => cols[i].title)
  }

  predicate DistinctLabels(cols: seq<Column>) {
    forall i, j :: 0 <= i < j < |cols| ==> cols[i].title != cols[j].title
  }

  predicate DistinctFields(cols: seq<Column>) {
    forall i, j :: 0 <= i < j < |cols| ==> cols[i].field != cols[j].field
  }

  /** The `reduce` that builds a reverse map: label to field, a later entry overwriting an earlier one. */
  function Reverse(cols: seq<Column>): (m: map<string, string>)
    ensures forall l :: l in m <==> exists i :: 0 <= i < |cols| && cols[i].title == l
  {
    if cols == [] then map[]
    else
      var m := Reverse(cols[..|cols| - 1]);
      var c := cols[|cols| - 1];
      assert forall i :: 0 <= i < |cols| - 1 ==> cols[..|cols| - 1][i] == cols[i];
      m[c.title := c.field]
  }

  /** When the labels are distinct, the reverse map sends every label back to its own field. */
  lemma {:induction false} ReverseInverts(cols: seq<Column>, i: nat)
    requires DistinctLabels(cols) && i < |cols|
    ensures cols[i].title in Reverse(cols) && Reverse(cols)[cols[i].title] == cols[i].field
  {
    if i < |cols| - 1 {
      var init := cols[..|cols| - 1];
      assert init[i] == cols[i];
      ReverseInverts(init, i);
    }
  }

  /** REVERSE_CATEGORY_HEADERS, written out: the value `Reverse(CategoryHeaders)` builds (see ReverseHeadersAgree). */
  const ReverseCategoryHeaders: map<string, string> :=
    map["유형" := "type", "관" := "section", "항" := "category", "목" := "subcategory", "순서" := "order"]

  /** REVERSE_TRANSACTION_HEADERS, written out: the value `Reverse(TransactionHeaders)` builds. */
  const ReverseTransactionHeaders: map<string, string> :=
    map["날짜" := "date", "유형" := "type", "관" := "section", "항" := "category",
        "목" := "subcategory", "금액" := "amount", "메모" := "memo"]

  /** The written-out reverse maps are the ones the `reduce` over the forward maps builds. */
  lemma ReverseHeadersAgree()
    ensures Reverse(CategoryHeaders) == ReverseCategoryHeaders
    ensures Reverse(TransactionHeaders) == ReverseTransactionHeaders
  {
    assert Labels(CategoryHeaders) == ["유형", "관", "항", "목", "순서"];
    ReverseIs(CategoryHeaders, ReverseCategoryHeaders);
    TransactionLabelsDistinct();
    TransactionReverseSendsLabels();
    TransactionReverseHasOnlyLabels();
    ReverseIs(TransactionHeaders, ReverseTransactionHeaders);
  }

  lemma TransactionLabelsDistinct()
    ensures DistinctLabels(TransactionHeaders)
  {
  }

  lemma TransactionReverseSendsLabels()
    ensures forall i :: 0 <= i < |TransactionHeaders| ==>
      TransactionHeaders[i].title in ReverseTransactionHeaders &&
      ReverseTransactionHeaders[TransactionHeaders[i].title] == TransactionHeaders[i].field
  {
  }

  lemma TransactionReverseHasOnlyLabels()
    ensures forall l :: l in ReverseTransactionHeaders ==> l in Labels(TransactionHeaders)
  {
    assert Labels(TransactionHeaders) == ["날짜", "유형", "관", "항", "목", "금액", "메모"];
  }

  /** With distinct labels, a map that sends exactly the labels to their fields is the reverse map. */
  lemma ReverseIs(cols: seq<Column>, m: map<string, string>)
    requires DistinctLabels(cols)
    requires forall i :: 0 <= i < |cols| ==> cols[i].title in m && m[cols[i].title] == cols[i].field
    requires forall l :: l in m ==> l in Labels(cols)
    ensures Reverse(cols) == m
  {
    var r := Reverse(cols);
    forall i | 0 <= i < |cols| ensures r[cols[i].title] == cols[i].field {
      ReverseInverts(cols, i);
    }
    assert r.Keys == m.Keys;
    SameEntries(r, m);
  }

  /** Both reverse maps invert their forward maps: reverse[forward[k]] == k. */
  lemma ReverseHeadersInvert()
    ensures forall i :: 0 <= i < |CategoryHeaders| ==>
      CategoryHeaders[i].title in ReverseCategoryHeaders &&
      ReverseCategoryHeaders[CategoryHeaders[i].title] == CategoryHeaders[i].field
    ensures forall i :: 0 <= i < |TransactionHeaders| ==>
      TransactionHeaders[i].title in ReverseTransactionHeaders &&
      ReverseTransactionHeaders[TransactionHeaders[i].title] == TransactionHeaders[i].field
  {
  }

  /**
   * The names every object made from `{}` inherits from Object.prototype
   * (section 20.1.3 of ECMA-262, with `__proto__` and the accessor helpers of
   * its Annex B.2.2). The reverse maps are built onto `{}`, so looking one of
   * these names up finds the inherited member, which is truthy.
   */
  const ObjectPrototypeNames: set<string> := {
    "constructor", "hasOwnProperty", "isPrototypeOf", "propertyIsEnumerable",
    "toLocaleString", "toString", "valueOf", "__proto__",
    "__defineGetter__", "__defineSetter__", "__lookupGetter__", "__lookupSetter__"
  }

  /** What `transformHeader` returns: a field name, or the Object.prototype member a lookup found. */
  datatype HeaderKey = Field(name: string) | Inherited(member: string)

  /**
   * `transformHeader`: `REVERSE_CATEGORY_HEADERS[header] || REVERSE_TRANSACTION_HEADERS[header] || header`.
   * A Korean label becomes its field name, an inherited name finds the
   * inherited member, and any other header passes through.
   */
  function MapHeader(header: string): (r: HeaderKey)
    ensures r.Inherited? <==> header in ObjectPrototypeNames
    ensures r.Inherited? ==> r.member == header
  {
    if header in ReverseCategoryHeaders then Field(ReverseCategoryHeaders[header])
    else if header in ObjectPrototypeNames then Inherited(header)
    else if header in ReverseTransactionHeaders then Field(ReverseTransactionHeaders[header])
    else Field(header)
  }

  /**
   * The property key the returned value becomes in a parsed row: its string
   * conversion. A built-in function converts to its native-code text,
   * Object.prototype itself (what `__proto__` finds) to "[object Object]".
   */
  function KeyText(k: HeaderKey): string {
    match k
    case Field(name) => name
    case Inherited(m) =>
      if m == "__proto__" then "[object Object]"
      else "function " + (if m == "constructor" then "Object" else m) + "() { [native code] }"
  }

  /** Every label of either header map is translated to its field, so the two maps agree on 유형, 관, 항 and 목. */
  lemma MapHeaderOfLabels()
    ensures forall i :: 0 <= i < |CategoryHeaders| ==> MapHeader(CategoryHeaders[i].title) == Field(CategoryHeaders[i].field)
    ensures forall i :: 0 <= i < |TransactionHeaders| ==> MapHeader(TransactionHeaders[i].title) == Field(TransactionHeaders[i].field)
  {
    forall i | 0 <= i < |CategoryHeaders|
      ensures MapHeader(CategoryHeaders[i].title) == Field(CategoryHeaders[i].field)
    {
      MapHeaderOfCategoryLabel(i);
    }
    forall i | 0 <= i < |TransactionHeaders|
      ensures MapHeader(TransactionHeaders[i].title) == Field(TransactionHeaders[i].field)
    {
      MapHeaderOfTransactionLabel(i);
    }
  }

  lemma MapHeaderOfCategoryLabel(i: nat)
    requires i < |CategoryHeaders|
    ensures MapHeader(CategoryHeaders[i].title) == Field(CategoryHeaders[i].field)
  {
    ReverseHeadersInvert();
  }

  lemma MapHeaderOfTransactionLabel(i: nat)
    requires i < |TransactionHeaders|
    ensures MapHeader(TransactionHeaders[i].title) == Field(TransactionHeaders[i].field)
  {
    ReverseHeadersInvert();
    if i == 0 || i >= 5 {
      NotCategoryTitle(TransactionHeaders[i].title);
    } else {
      assert TransactionHeaders[i] == CategoryHeaders[i - 1];
    }
  }

  lemma NotCategoryTitle(t: string)
    requires t in {"날짜", "금액", "메모"}
    ensures t !in ReverseCategoryHeaders
  {
    assert forall j :: 0 <= j < |CategoryHeaders| ==> CategoryHeaders[j].title in {"유형", "관", "항", "목", "순서"};
  }

  /** A header that is no Korean label of either map and no inherited name is left unchanged. */
  lemma MapHeaderPassThrough(header: string)
    requires forall i :: 0 <= i < |TransactionHeaders| ==> TransactionHeaders[i].title != header
    requires forall i :: 0 <= i < |CategoryHeaders| ==> CategoryHeaders[i].title != header
    requires header !in ObjectPrototypeNames
    ensures MapHeader(header) == Field(header)
    ensures KeyText(MapHeader(header)) == header
  {
    assert CategoryHeaders[0].title != header && CategoryHeaders[1].title != header && CategoryHeaders[2].title != header;
    assert CategoryHeaders[3].title != header && CategoryHeaders[4].title != header;
    assert TransactionHeaders[0].title != header && TransactionHeaders[5].title != header && TransactionHeaders[6].title != header;
  }

  /**
   * As written, a header that names an Object.prototype member does not pass
   * through: the lookup finds the inherited member, and the parsed row keys
   * the column under that member's text instead of the header.
   */
  lemma MapHeaderInherited(header: string)
    requires header in ObjectPrototypeNames
    ensures MapHeader(header) == Inherited(header)
    ensures KeyText(MapHeader(header)) != header
  {
    assert header !in ReverseCategoryHeaders;
    var t := KeyText(MapHeader(header));
    if header != "__proto__" {
      var m := if header == "constructor" then "Object" else header;
      assert t == "function " + m + "() { [native code] }";
      assert |t| > |header|;
    }
  }

  /** The intended `transformHeader`: own entries of the reverse maps only (as with `Object.hasOwn`). */
  function MapHeaderOwn(header: string): string {
    if header in ReverseCategoryHeaders then ReverseCategoryHeaders[header]
    else if header in ReverseTransactionHeaders then ReverseTransactionHeaders[header]
    else header
  }

  /** The intended lookup passes every header but a label through, inherited names included, and agrees with the code on every other header. */
  lemma MapHeaderOwnCorrects(header: string)
    ensures header in ObjectPrototypeNames ==> MapHeaderOwn(header) == header
    ensures header !in ObjectPrototypeNames ==> MapHeaderOwn(header) == KeyText(MapHeader(header))
  {
    if header in ObjectPrototypeNames {
      assert header !in ReverseCategoryHeaders && header !in ReverseTransactionHeaders;
    }
  }

  // ---------------------------------------------------------------- import

  /** The `type` normalisation of the import: 수입 and 지출 become income and expense, anything else is kept. */
  function NormalizeType(v: string): (r: string)
    ensures r == "income" <==> v == "수입" || v == "income"
    ensures r == "expense" <==> v == "지출" || v == "expense"
    ensures v != "수입" && v != "지출" ==> r == v
  {
    if v == "수입" then "income" else if v == "지출" then "expense" else v
  }

  /** Normalising twice is normalising once. */
  lemma NormalizeTypeIdempotent(v: string)
    ensures NormalizeType(NormalizeType(v)) == NormalizeType(v)
  {
  }

  /** The transform of one cell: trimmed, and a non-empty trimmed `type` normalised. */
  function TransformValue(key: string, v: string): string {
    var t := Trim(v);
    if key == "type" && t != "" then NormalizeType(t) else t
  }

  /** The transform of one parsed row: every value trimmed, then a non-empty `type` normalised. */
  function TransformRow(row: map<string, string>): map<string, string>
  {
    map k | k in row :: TransformValue(k, row[k])
  }

  /** The transform keeps the keys, trims every value and normalises the trimmed `type`. */
  lemma TransformRowContents(row: map<string, string>)
    ensures TransformRow(row).Keys == row.Keys
    ensures forall k :: k in row && k != "type" ==> TransformRow(row)[k] == Trim(row[k])
    ensures "type" in row ==> TransformRow(row)["type"] == NormalizeType(Trim(row["type"]))
  {
  }

  /** Transforming one cell twice is transforming it once. */
  lemma TransformValueIdempotent(key: string, v: string)
    ensures TransformValue(key, TransformValue(key, v)) == TransformValue(key, v)
  {
    var u := TransformValue(key, v);
    TrimFacts(v);
    NormalizeTypeTrimmed(Trim(v));
    assert Trimmed(u);
    TrimOfTrimmed(u);
    if key == "type" && u != "" {
      NormalizeTypeIdempotent(Trim(v));
    }
  }

  /** Transforming an already transformed row changes nothing. */
  lemma TransformRowIdempotent(row: map<string, string>)
    ensures TransformRow(TransformRow(row)) == TransformRow(row)
  {
    var once := TransformRow(row);
    forall k | k in once ensures TransformRow(once)[k] == once[k] {
      TransformValueIdempotent(k, row[k]);
    }
    SameEntries(TransformRow(once), once);
  }

  lemma SameEntries(a: map<string, string>, b: map<string, string>)
    requires a.Keys == b.Keys
    requires forall k :: k in b ==> a[k] == b[k]
    ensures a == b
  {
  }

  /** Normalising a trimmed spelling gives a trimmed spelling. */
  lemma NormalizeTypeTrimmed(v: string)
    requires Trimmed(v)
    ensures Trimmed(NormalizeType(v))
  {
  }

  /** The filter test `Object.keys(item).length > 0`. */
  predicate HasKeys(row: map<string, string>) {
    |row| > 0
  }

  /** The `filter` and `map` of `complete`: rows without keys are dropped, the others transformed. */
  function ParseRows(rows: seq<map<string, string>>): (r: seq<map<string, string>>)
    ensures |r| <= |rows|
  {
    if rows == [] then []
    else
      var last := rows[|rows| - 1];
      ParseRows(rows[..|rows| - 1]) + (if HasKeys(last) then [TransformRow(last)] else [])
  }

  /** The positions of the rows that survive the empty-row filter, in order. */
  function Survivors(rows: seq<map<string, string>>): (idx: seq<nat>)
    ensures |idx| <= |rows|
    ensures forall i :: 0 <= i < |idx| ==> idx[i] < |rows|
  {
    if rows == [] then []
    else Survivors(rows[..|rows| - 1]) + (if HasKeys(rows[|rows| - 1]) then [|rows| - 1] else [])
  }

  /** Output row i is the transform of input row `Survivors(rows)[i]`. */
  lemma {:induction false} ParseRowsAt(rows: seq<map<string, string>>)
    ensures |Survivors(rows)| == |ParseRows(rows)|
    ensures forall i :: 0 <= i < |ParseRows(rows)| ==> ParseRows(rows)[i] == TransformRow(rows[Survivors(rows)[i]])
  {
    if rows != [] {
      var n := |rows| - 1;
      var init := rows[..n];
      ParseRowsAt(init);
      var pi, si := ParseRows(init), Survivors(init);
      assert ParseRows(rows) == pi + (if HasKeys(rows[n]) then [TransformRow(rows[n])] else []);
      assert Survivors(rows) == si + (if HasKeys(rows[n]) then [n] else []);
      forall i | 0 <= i < |ParseRows(rows)|
        ensures ParseRows(rows)[i] == TransformRow(rows[Survivors(rows)[i]])
      {
        if i < |pi| {
          assert ParseRows(rows)[i] == pi[i] && Survivors(rows)[i] == si[i];
          assert rows[si[i]] == init[si[i]];
        }
      }
    }
  }

  /** The surviving positions are strictly increasing. */
  lemma {:induction false} SurvivorsIncreasing(rows: seq<map<string, string>>)
    ensures forall i, j :: 0 <= i < j < |Survivors(rows)| ==> Survivors(rows)[i] < Survivors(rows)[j]
  {
    if rows != [] {
      SurvivorsIncreasing(rows[..|rows| - 1]);
    }
  }

  /** A position survives exactly when its row has keys. */
  lemma {:induction false} SurvivorsExactly(rows: seq<map<string, string>>)
    ensures forall p :: 0 <= p < |rows| ==> (p in Survivors(rows) <==> HasKeys(rows[p]))
  {
    if rows != [] {
      var n := |rows| - 1;
      var init := rows[..n];
      SurvivorsExactly(init);
      var idx := Survivors(init);
      assert forall p :: 0 <= p < n ==> init[p] == rows[p];
      assert n !in idx;
    }
  }

  /**
   * Import keeps exactly the rows that have keys, in their original order:
   * output row i is the transform of input row idx[i], the positions are
   * strictly increasing, and a position is kept iff its row is non-empty.
   */
  lemma ParseRowsKeepsOrder(rows: seq<map<string, string>>)
    ensures |Survivors(rows)| == |ParseRows(rows)|
    ensures forall i :: 0 <= i < |ParseRows(rows)| ==> ParseRows(rows)[i] == TransformRow(rows[Survivors(rows)[i]])
    ensures forall i, j :: 0 <= i < j < |Survivors(rows)| ==> Survivors(rows)[i] < Survivors(rows)[j]
    ensures forall p :: 0 <= p < |rows| ==> (p in Survivors(rows) <==> HasKeys(rows[p]))
  {
    ParseRowsAt(rows);
    SurvivorsIncreasing(rows);
    SurvivorsExactly(rows);
  }

  // ---------------------------------------------------------------- export

  /** The JavaScript values a record field can hold (a missing field is a missing key). */
  datatype JsValue = JsString(s: string) | JsNumber(n: int) | JsBool(b: bool) | JsNull

  predicate Truthy(v: JsValue) {
    match v
    case JsString(s) => s != ""
    case JsNumber(n) => n != 0
    case JsBool(b) => b
    case JsNull => false
  }

  /** A property of the object handed to Papa.unparse, in insertion order. */
  datatype Entry = Entry(title: string, value: JsValue)

  /** The value written under the column of `field` for one record. */
  function ExportCell(item: map<string, JsValue>, field: string, isCategory: bool): (r: JsValue)
    ensures field == "type" ==> r == JsString("수입") || r == JsString("지출")
    ensures r.JsString? || (field in item && r == item[field] && Truthy(r))
  {
    if field == "type" then
      JsString(if "type" in item && item["type"] == JsString("income") then "수입" else "지출")
    else if field == "amount" && !isCategory then
      (if "amount" in item && item["amount"].JsNumber? then JsString(IntLocaleString(item["amount"].n)) else JsString(""))
    else if field in item && Truthy(item[field]) then
      item[field]
    else
      JsString("")
  }

  function Headers(isCategory: bool): seq<Column> {
    if isCategory then CategoryHeaders else TransactionHeaders
  }

  /** The `map` callback of exportToCSV: one entry per column, labelled in Korean, in column order. */
  function ExportRow(item: map<string, JsValue>, isCategory: bool): (r: seq<Entry>)
    ensures |r| == |Headers(isCategory)|
    ensures forall i :: 0 <= i < |r| ==>
      r[i] == Entry(Headers(isCategory)[i].title, ExportCell(item, Headers(isCategory)[i].field, isCategory))
  {
    var cols := Headers(isCategory);
    seq(|cols|, i requires 0 <= i < |cols| => Entry(cols[i].title, ExportCell(item, cols[i].field, isCategory)))
  }

  function EntryLabels(row: seq<Entry>): (r: seq<string>)
    ensures |r| == |row| && forall i :: 0 <= i < |row| ==> r[i] == row[i].title
  {
    seq(|row|, i requires 0 <= i < |row| => row[i].title)
  }

  /**
   * What an exported row holds: exactly the Korean labels of the chosen map, in order;
   * 수입 for an income record and 지출 for every other `type` (missing included);
   * a numeric transaction amount grouped with commas and anything else as '';
   * every other field kept when truthy and '' when missing or falsy (so an `order` of 0 exports as '').
   */
  lemma ExportRowContents(item: map<string, JsValue>, isCategory: bool)
    ensures EntryLabels(ExportRow(item, isCategory)) == Labels(Headers(isCategory))
    ensures forall i :: 0 <= i < |Headers(isCategory)| && Headers(isCategory)[i].field == "type" ==>
      ExportRow(item, isCategory)[i].value ==
        (if "type" in item && item["type"] == JsString("income") then JsString("수입") else JsString("지출"))
    ensures !isCategory ==> (ExportRow(item, false)[5].value ==
      if "amount" in item && item["amount"].JsNumber? then JsString(IntLocaleString(item["amount"].n)) else JsString(""))
    ensures forall i :: 0 <= i < |Headers(isCategory)| && Headers(isCategory)[i].field !in {"type", "amount"} ==>
      var f := Headers(isCategory)[i].field;
      ExportRow(item, isCategory)[i].value == (if f in item && Truthy(item[f]) then item[f] else JsString(""))
  {
  }

  /** The category `order` 0 is falsy and so is exported as the empty string. */
  lemma ExportZeroOrder(item: map<string, JsValue>)
    requires "order" in item && item["order"] == JsNumber(0)
    ensures ExportRow(item, true)[4] == Entry("순서", JsString(""))
  {
  }

  /** The data handed to Papa.unparse as written: the exported rows, or one empty object for an empty list. */
  function UnparseRowsAsWritten(data: seq<map<string, JsValue>>, isCategory: bool): (r: seq<seq<Entry>>)
    ensures |data| > 0 ==> |r| == |data| && forall i :: 0 <= i < |data| ==> r[i] == ExportRow(data[i], isCategory)
    ensures |data| == 0 ==> r == [[]]
  {
    if |data| > 0 then seq(|data|, i requires 0 <= i < |data| => ExportRow(data[i], isCategory)) else [[]]
  }

  /** Papa.unparse on an array of objects takes its header fields from the keys of the first object. */
  function UnparseFields(rows: seq<seq<Entry>>): seq<string> {
    if rows == [] then [] else EntryLabels(rows[0])
  }

  /** As written, an empty export carries no column names at all: the header-only file is never produced. */
  lemma EmptyExportHasNoHeader(isCategory: bool)
    ensures UnparseFields(UnparseRowsAsWritten([], isCategory)) == []
    ensures Labels(Headers(isCategory)) != []
  {
  }

  /** The input of `Papa.unparse({ fields, data })`: explicit header fields and the data rows. */
  datatype UnparseInput = UnparseInput(fields: seq<string>, data: seq<seq<Entry>>)

  /** The corrected export: the Korean labels are passed as explicit fields, whatever the number of rows. */
  function ExportInput(data: seq<map<string, JsValue>>, isCategory: bool): (r: UnparseInput)
    ensures r.fields == Labels(Headers(isCategory))
    ensures |r.data| == |data| && forall i :: 0 <= i < |data| ==> r.data[i] == ExportRow(data[i], isCategory)
  {
    UnparseInput(Labels(Headers(isCategory)), seq(|data|, i requires 0 <= i < |data| => ExportRow(data[i], isCategory)))
  }

  /** The corrected export writes the header row for an empty list and agrees with the code as written for a non-empty one. */
  lemma ExportInputHeaderOnly(data: seq<map<string, JsValue>>, isCategory: bool)
    ensures data == [] ==> ExportInput(data, isCategory).data == [] && ExportInput(data, isCategory).fields != []
    ensures data != [] ==>
      ExportInput(data, isCategory).fields == UnparseFields(UnparseRowsAsWritten(data, isCategory)) &&
      ExportInput(data, isCategory).data == UnparseRowsAsWritten(data, isCategory)
  {
    if data != [] {
      ExportRowContents(data[0], isCategory);
    }
  }

  const BOM: char := '\U{FEFF}'

  /**
   * What `Papa.unparse(transformedData, { header: true })` is given as written:
   * the header fields are the keys of the first row, so a non-empty list is
   * unparsed under the Korean labels and an empty one under no header at all.
   */
  function UnparseInputAsWritten(data: seq<map<string, JsValue>>, isCategory: bool): (r: UnparseInput)
    ensures data != [] ==> r == ExportInput(data, isCategory)
    ensures data == [] ==> r == UnparseInput([], [[]])
  {
    var rows := UnparseRowsAsWritten(data, isCategory);
    ExportInputHeaderOnly(data, isCategory);
    UnparseInput(UnparseFields(rows), rows)
  }

  /**
   * The file content as written: the byte-order mark, then the CSV text the
   * (unmodelled) unparser produces; the header row is there only when the
   * list is non-empty.
   */
  function ExportContent(data: seq<map<string, JsValue>>, isCategory: bool, unparse: UnparseInput -> string): (r: string)
    ensures |r| >= 1 && r[0] == BOM
    ensures data != [] ==> r[1..] == unparse(UnparseInput(Labels(Headers(isCategory)), ExportInput(data, isCategory).data))
    ensures data == [] ==> r[1..] == unparse(UnparseInput([], [[]]))
  {
    [BOM] + unparse(UnparseInputAsWritten(data, isCategory))
  }

  /**
   * The corrected file content: the byte-order mark, then the text of the
   * rows under the Korean labels, an empty list included; it agrees with the
   * content as written whenever the list is non-empty.
   */
  function ExportContentCorrected(data: seq<map<string, JsValue>>, isCategory: bool, unparse: UnparseInput -> string): (r: string)
    ensures |r| >= 1 && r[0] == BOM
    ensures data != [] ==> r == ExportContent(data, isCategory, unparse)
    ensures data == [] ==> r[1..] == unparse(UnparseInput(Labels(Headers(isCategory)), []))
  {
    [BOM] + unparse(ExportInput(data, isCategory))
  }

  // ---------------------------------------------------------------- round trip

  /** The text Papa.unparse writes for a value (null and undefined become ''). */
  function CellText(v: JsValue): string {
    match v
    case JsString(s) => s
    case JsNumber(n) => IntToString(n)
    case JsBool(b) => if b then "true" else "false"
    case JsNull => ""
  }

  /** The header row as Papa.parse sees it after `transformHeader`. */
  function ParsedHeaders(row: seq<Entry>): (r: seq<string>)
    ensures |r| == |row| && forall i :: 0 <= i < |row| ==> r[i] == KeyText(MapHeader(row[i].title))
  {
    seq(|row|, i requires 0 <= i < |row| => KeyText(MapHeader(row[i].title)))
  }

  /** The cell texts of an exported row, in column order. */
  function CellTexts(row: seq<Entry>): (r: seq<string>)
    ensures |r| == |row| && forall i :: 0 <= i < |row| ==> r[i] == CellText(row[i].value)
  {
    seq(|row|, i requires 0 <= i < |row| => CellText(row[i].value))
  }

  /** A data row in header mode: each header names the cell in its column. */
  function Zip(keys: seq<string>, cells: seq<string>): map<string, string>
    requires |keys| == |cells|
  {
    if keys == [] then map[]
    else Zip(keys[..|keys| - 1], cells[..|cells| - 1])[keys[|keys| - 1] := cells[|cells| - 1]]
  }

  /** With distinct headers, header i maps to cell i. */
  lemma {:induction false} ZipAt(keys: seq<string>, cells: seq<string>, i: nat)
    requires |keys| == |cells| && i < |keys|
    requires forall a, b :: 0 <= a < b < |keys| ==> keys[a] != keys[b]
    ensures keys[i] in Zip(keys, cells) && Zip(keys, cells)[keys[i]] == cells[i]
  {
    if i < |keys| - 1 {
      var n := |keys| - 1;
      assert keys[..n][i] == keys[i] && cells[..n][i] == cells[i];
      ZipAt(keys[..n], cells[..n], i);
    }
  }

  /** The keys of a data row are exactly the headers. */
  lemma {:induction false} ZipKeys(keys: seq<string>, cells: seq<string>)
    requires |keys| == |cells|
    ensures Zip(keys, cells).Keys == set i | 0 <= i < |keys| :: keys[i]
  {
    if keys != [] {
      var n := |keys| - 1;
      ZipKeys(keys[..n], cells[..n]);
      assert forall i :: 0 <= i < n ==> keys[..n][i] == keys[i];
    }
  }

  /** The row Papa.parse hands back for an exported row. */
  function ReadBack(row: seq<Entry>): map<string, string> {
    Zip(ParsedHeaders(row), CellTexts(row))
  }

  /** The internal field names of the transaction columns. */
  const TransactionFields: set<string> := set i | 0 <= i < |TransactionHeaders| :: TransactionHeaders[i].field

  /**
   * A record keyed by the transaction columns' own field names (`section`,
   * `category`, `subcategory`), with text fields without surrounding white
   * space, a whole amount and an English type. A Transaction is not of this
   * shape: see `TransactionObject`.
   */
  predicate ColumnRecord(item: map<string, JsValue>) {
    && "type" in item && item["type"] in {JsString("income"), JsString("expense")}
    && "amount" in item && item["amount"].JsNumber? && item["amount"].n >= 0
    && forall f :: f in item && f in {"date", "section", "category", "subcategory", "memo"} ==>
         item[f].JsString? && Trimmed(item[f].s)
  }

  function TextOf(item: map<string, JsValue>, f: string): string {
    if f in item && item[f].JsString? then item[f].s else ""
  }

  /** The text cell a transaction record exports under the column of `f`. */
  function RawCell(item: map<string, JsValue>, f: string): string {
    CellText(ExportCell(item, f, false))
  }

  /** With distinct translated headers, reading a row back keys each cell text by its translated header. */
  lemma ReadBackOf(row: seq<Entry>)
    requires forall a, b :: 0 <= a < b < |row| ==> ParsedHeaders(row)[a] != ParsedHeaders(row)[b]
    ensures ReadBack(row).Keys == set i | 0 <= i < |row| :: ParsedHeaders(row)[i]
    ensures forall i :: 0 <= i < |row| ==> ReadBack(row)[ParsedHeaders(row)[i]] == CellText(row[i].value)
  {
    var keys, cells := ParsedHeaders(row), CellTexts(row);
    forall i | 0 <= i < |row| ensures keys[i] in Zip(keys, cells) && Zip(keys, cells)[keys[i]] == cells[i] {
      ZipAt(keys, cells, i);
    }
    ZipKeys(keys, cells);
  }

  /** Reading back a row under the transaction labels gives one key per internal field, holding that column's text. */
  lemma ReadBackTransaction(row: seq<Entry>)
    requires EntryLabels(row) == Labels(TransactionHeaders)
    ensures ReadBack(row).Keys == TransactionFields
    ensures forall i :: 0 <= i < |TransactionHeaders| ==>
      ReadBack(row)[TransactionHeaders[i].field] == CellText(row[i].value)
  {
    ParsedTransactionHeaders(row);
    TransactionFieldsDistinct();
    ReadBackOf(row);
  }

  lemma TransactionFieldsDistinct()
    ensures DistinctFields(TransactionHeaders)
  {
  }

  /** The exported transaction labels translate back to the internal field names, in column order. */
  lemma ParsedTransactionHeaders(row: seq<Entry>)
    requires EntryLabels(row) == Labels(TransactionHeaders)
    ensures forall i :: 0 <= i < |row| ==> ParsedHeaders(row)[i] == TransactionHeaders[i].field
  {
    MapHeaderOfLabels();
    assert forall i :: 0 <= i < |row| ==> row[i].title == TransactionHeaders[i].title;
  }

  /** The transaction field names, written out. */
  lemma TransactionFieldsAre()
    ensures TransactionFields == {"date", "type", "section", "category", "subcategory", "amount", "memo"}
  {
    var h := TransactionHeaders;
    assert h[0].field == "date" && h[1].field == "type" && h[2].field == "section" && h[3].field == "category";
    assert h[4].field == "subcategory" && h[5].field == "amount" && h[6].field == "memo";
  }

  /** The cell a record's export holds under column i, once read back and transformed. */
  lemma ImportedColumn(item: map<string, JsValue>, i: nat)
    requires i < |TransactionHeaders|
    ensures var back := TransformRow(ReadBack(ExportRow(item, false)));
      var f := TransactionHeaders[i].field;
      && f in back
      && back[f] == TransformValue(f, RawCell(item, f))
  {
    var row := ExportRow(item, false);
    ExportRowContents(item, false);
    ReadBackTransaction(row);
    assert row[i].value == ExportCell(item, TransactionHeaders[i].field, false);
  }

  lemma ImportedKeys(item: map<string, JsValue>)
    ensures TransformRow(ReadBack(ExportRow(item, false))).Keys == TransactionFields
  {
    ExportRowContents(item, false);
    ReadBackTransaction(ExportRow(item, false));
    TransformRowContents(ReadBack(ExportRow(item, false)));
  }

  /** The same, by field name. */
  lemma ImportedField(item: map<string, JsValue>, f: string)
    requires f in TransactionFields
    ensures var back := TransformRow(ReadBack(ExportRow(item, false)));
      f in back && back[f] == TransformValue(f, RawCell(item, f))
  {
    var i :| 0 <= i < |TransactionHeaders| && TransactionHeaders[i].field == f;
    ImportedColumn(item, i);
  }

  /**
   * Exporting a record keyed by the column fields and importing the file again gives back the
   * internal field names, the original English type, the text fields as they
   * were (a missing one as ''), and the amount grouped with commas, which reads
   * back as the original number once the commas are removed.
   */
  lemma ExportThenImport(item: map<string, JsValue>)
    requires ColumnRecord(item)
    ensures var back := TransformRow(ReadBack(ExportRow(item, false)));
      && back.Keys == TransactionFields
      && "type" in back && "amount" in back
      && JsString(back["type"]) == item["type"]
      && back["amount"] == LocaleString(item["amount"].n)
      && AllDigits(RemoveCommas(back["amount"]))
      && DigitsValue(RemoveCommas(back["amount"])) == item["amount"].n
      && forall f :: f in {"date", "section", "category", "subcategory", "memo"} ==> f in back && back[f] == TextOf(item, f)
  {
    var back := TransformRow(ReadBack(ExportRow(item, false)));
    ImportedKeys(item);
    TransactionFieldsAre();
    ImportedField(item, "type");
    ImportedType(item);
    ImportedField(item, "amount");
    ImportedAmount(item);
    forall f | f in {"date", "section", "category", "subcategory", "memo"} ensures f in back && back[f] == TextOf(item, f) {
      ImportedField(item, f);
      ImportedText(item, f);
    }
  }

  lemma ImportedType(item: map<string, JsValue>)
    requires ColumnRecord(item)
    ensures JsString(TransformValue("type", RawCell(item, "type"))) == item["type"]
  {
    if item["type"] == JsString("income") {
      assert RawCell(item, "type") == "수입";
      TrimOfTrimmed("수입");
    } else {
      assert RawCell(item, "type") == "지출";
      TrimOfTrimmed("지출");
    }
  }

  lemma ImportedAmount(item: map<string, JsValue>)
    requires ColumnRecord(item)
    ensures TransformValue("amount", RawCell(item, "amount")) == LocaleString(item["amount"].n)
    ensures AllDigits(RemoveCommas(LocaleString(item["amount"].n)))
    ensures DigitsValue(RemoveCommas(LocaleString(item["amount"].n))) == item["amount"].n
  {
    var n: nat := item["amount"].n;
    LocaleStringTrimmed(n);
    TrimOfTrimmed(LocaleString(n));
    RemoveCommasGroupDigits(NatToString(n)) by { DigitsHaveNoComma(NatToString(n)); }
  }

  lemma ImportedText(item: map<string, JsValue>, f: string)
    requires ColumnRecord(item) && f in {"date", "section", "category", "subcategory", "memo"}
    ensures TransformValue(f, RawCell(item, f)) == TextOf(item, f)
  {
    TrimOfTrimmed(TextOf(item, f));
  }

  lemma TrimOfTrimmed(s: string)
    requires Trimmed(s)
    ensures Trim(s) == s
  {
    assert [] + s + [] == s;
    TrimUnique([], s, []);
  }

  lemma LocaleStringTrimmed(n: nat)
    ensures Trimmed(LocaleString(n))
  {
    var d := NatToString(n);
    DigitsHaveNoComma(d);
    GroupDigitsEnds(d);
  }

  /** The grouped spelling of a digit string starts and ends with a digit. */
  lemma {:induction false} GroupDigitsEnds(d: string)
    requires d != [] && AllDigits(d) && ',' !in d
    ensures IsDigit(GroupDigits(d)[0]) && IsDigit(GroupDigits(d)[|GroupDigits(d)| - 1])
  {
    if |d| > 3 {
      GroupDigitsEnds(d[..|d| - 3]);
    }
  }

  // ---------------------------------------------------------------- validation

  predicate IsTypeSpelling(v: string) {
    v == "income" || v == "expense" || v == "수입" || v == "지출"
  }

  /** The `every` callback of validateTransactionData. Subcategory and memo are not required. */
  predicate ValidTransactionRow(item: map<string, string>) {
    && "date" in item && "type" in item && "section" in item && "category" in item && "amount" in item
    && IsTypeSpelling(item["type"])
    && HasNumericPrefix(Trim(RemoveCommas(item["amount"])))
    && Trim(item["date"]) != "" && Trim(item["section"]) != "" && Trim(item["category"]) != ""
  }

  /** The `every` callback of validateCategoryData. Subcategory is not required. */
  predicate ValidCategoryRow(item: map<string, string>) {
    && "type" in item && "section" in item && "category" in item
    && IsTypeSpelling(item["type"])
    && Trim(item["section"]) != "" && Trim(item["category"]) != ""
  }

  /** `Array.prototype.every`: the callback is applied from the first row on, stopping at the first that fails. */
  function Every(rows: seq<map<string, string>>, p: map<string, string> -> bool): (ok: bool)
    ensures ok <==> forall i :: 0 <= i < |rows| ==> p(rows[i])
  {
    if rows == [] then true
    else
      assert forall i :: 0 <= i < |rows| - 1 ==> rows[1..][i] == rows[i + 1];
      p(rows[0]) && Every(rows[1..], p)
  }

  /** validateTransactionData: false for an empty list, otherwise true iff every row is valid. */
  function ValidateTransactionData(data: seq<map<string, string>>): (ok: bool)
    ensures ok <==> |data| > 0 && forall i :: 0 <= i < |data| ==> ValidTransactionRow(data[i])
  {
    |data| > 0 && Every(data, ValidTransactionRow)
  }

  /** validateCategoryData: false for an empty list, otherwise true iff every row is valid. */
  function ValidateCategoryData(data: seq<map<string, string>>): (ok: bool)
    ensures ok <==> |data| > 0 && forall i :: 0 <= i < |data| ==> ValidCategoryRow(data[i])
  {
    |data| > 0 && Every(data, ValidCategoryRow)
  }

  /** All or nothing: one bad row rejects the whole batch, wherever it stands. */
  lemma OneBadRowRejects(data: seq<map<string, string>>, i: nat)
    requires i < |data|
    ensures !ValidTransactionRow(data[i]) ==> !ValidateTransactionData(data)
    ensures !ValidCategoryRow(data[i]) ==> !ValidateCategoryData(data)
  {
  }

  /** Joining two accepted batches gives an accepted batch, and an accepted batch splits into accepted parts. */
  lemma ValidateConcat(a: seq<map<string, string>>, b: seq<map<string, string>>)
    requires a != [] && b != []
    ensures ValidateTransactionData(a + b) <==> ValidateTransactionData(a) && ValidateTransactionData(b)
    ensures ValidateCategoryData(a + b) <==> ValidateCategoryData(a) && ValidateCategoryData(b)
  {
    assert forall i :: 0 <= i < |a| ==> (a + b)[i] == a[i];
    assert forall i :: 0 <= i < |b| ==> (a + b)[|a| + i] == b[i];
  }

  /** A row read back from an export of such a record with date, section and category passes validation. */
  lemma ExportedTransactionValidates(item: map<string, JsValue>)
    requires ColumnRecord(item)
    requires TextOf(item, "date") != "" && TextOf(item, "section") != "" && TextOf(item, "category") != ""
    ensures ValidTransactionRow(TransformRow(ReadBack(ExportRow(item, false))))
  {
    ExportThenImport(item);
    var back := TransformRow(ReadBack(ExportRow(item, false)));
    var n: nat := item["amount"].n;
    GroupedAmountIsNumeric(n);
    TrimOfTrimmed(TextOf(item, "date"));
    TrimOfTrimmed(TextOf(item, "section"));
    TrimOfTrimmed(TextOf(item, "category"));
  }

  // ---------------------------------------------------------------- the app's transactions

  /**
   * The object the store holds for a Transaction (src/types/transaction.ts):
   * its eight properties, the three levels under `category`, `subcategory`
   * and `item`.
   */
  function TransactionObject(t: Types.Transaction): (r: map<string, JsValue>)
    ensures r.Keys == {"id", "amount", "type", "date", "category", "subcategory", "item", "memo"}
    ensures r["category"] == JsString(t.category) && r["subcategory"] == JsString(t.subcategory)
    ensures r["item"] == JsString(t.item) && "section" !in r
    ensures r["date"] == JsString(t.date) && r["amount"] == JsNumber(t.amount)
  {
    map["id" := JsNumber(t.id), "amount" := JsNumber(t.amount), "type" := JsString(t.kind),
        "date" := JsString(t.date), "category" := JsString(t.category),
        "subcategory" := JsString(t.subcategory), "item" := JsString(t.item), "memo" := JsString(t.memo)]
  }

  /**
   * As written, a Transaction (the record the transaction form saves) does
   * not survive an export and an import:
   * the columns name `section`, `category` and `subcategory`, the transaction
   * holds `category`, `subcategory` and `item`. So 관 is always '', 항 and 목
   * carry the transaction's 관 and 항, its 목 is lost, and the row read back
   * is rejected by validation.
   */
  lemma TransactionNotReimportable(t: Types.Transaction)
    ensures var back := TransformRow(ReadBack(ExportRow(TransactionObject(t), false)));
      && "item" !in back
      && "section" in back && back["section"] == ""
      && "category" in back && back["category"] == Trim(t.category)
      && "subcategory" in back && back["subcategory"] == Trim(t.subcategory)
      && !ValidTransactionRow(back)
  {
    var obj := TransactionObject(t);
    ImportedKeys(obj);
    TransactionFieldsAre();
    ImportedField(obj, "section");
    ImportedField(obj, "category");
    ImportedField(obj, "subcategory");
    TrimOfTrimmed("");
  }

  /**
   * The transaction columns in the app's own field names: 관, 항 and 목 are
   * the `category`, `subcategory` and `item` the transaction form saves.
   */
  const TransactionLevelHeaders: seq<Column> := [
    Column("date", "날짜"), Column("type", "유형"), Column("category", "관"), Column("subcategory", "항"),
    Column("item", "목"), Column("amount", "금액"), Column("memo", "메모")
  ]

  /** The corrected export row of a transaction: the same labels, filled from the app's own fields. */
  function TransactionExportRow(item: map<string, JsValue>): (r: seq<Entry>)
    ensures EntryLabels(r) == Labels(TransactionHeaders)
    ensures |r| == 7 && forall i :: 0 <= i < 7 ==>
      r[i].value == ExportCell(item, TransactionLevelHeaders[i].field, false)
  {
    var cols := TransactionLevelHeaders;
    var r := seq(7, i requires 0 <= i < 7 => Entry(cols[i].title, ExportCell(item, cols[i].field, false)));
    assert forall i :: 0 <= i < 7 ==> cols[i].title == TransactionHeaders[i].title;
    r
  }

  /** Column i of a row under the transaction labels, once read back and transformed. */
  lemma ReadBackColumn(row: seq<Entry>, i: nat)
    requires EntryLabels(row) == Labels(TransactionHeaders) && i < 7
    ensures var back := TransformRow(ReadBack(row));
      var f := TransactionHeaders[i].field;
      f in back && back[f] == TransformValue(f, CellText(row[i].value))
  {
    ReadBackTransaction(row);
  }

  /**
   * With the corrected columns a transaction re-imports: 관, 항 and 목 come
   * back holding its three levels, and the row passes validation when its
   * date, 관 and 항 are not blank.
   */
  lemma CorrectedTransactionReimports(t: Types.Transaction)
    requires t.amount >= 0
    requires Trim(t.date) != "" && Trim(t.category) != "" && Trim(t.subcategory) != ""
    ensures var back := TransformRow(ReadBack(TransactionExportRow(TransactionObject(t))));
      && "section" in back && back["section"] == Trim(t.category)
      && "category" in back && back["category"] == Trim(t.subcategory)
      && "subcategory" in back && back["subcategory"] == Trim(t.item)
      && ValidTransactionRow(back)
  {
    var obj := TransactionObject(t);
    var back := TransformRow(ReadBack(TransactionExportRow(obj)));
    LevelFieldsAre();
    TextColumn(obj, 0, t.date);
    TextColumn(obj, 2, t.category);
    TextColumn(obj, 3, t.subcategory);
    TextColumn(obj, 4, t.item);
    TypeColumn(obj);
    AmountColumn(obj, t.amount);
    ValidFromColumns(back, t.date, t.category, t.subcategory, t.amount);
  }

  /** A row with a non-blank date, 관 and 항, an accepted type and a grouped amount passes validation. */
  lemma ValidFromColumns(back: map<string, string>, date: string, section: string, category: string, n: nat)
    requires "date" in back && back["date"] == Trim(date) && Trim(date) != ""
    requires "section" in back && back["section"] == Trim(section) && Trim(section) != ""
    requires "category" in back && back["category"] == Trim(category) && Trim(category) != ""
    requires "type" in back && IsTypeSpelling(back["type"])
    requires "amount" in back && back["amount"] == LocaleString(n)
    ensures ValidTransactionRow(back)
  {
    GroupedAmountIsNumeric(n);
    TrimFacts(date);
    TrimFacts(section);
    TrimFacts(category);
    TrimOfTrimmed(Trim(date));
    TrimOfTrimmed(Trim(section));
    TrimOfTrimmed(Trim(category));
  }

  /** The field names of both column lists, by position. */
  lemma LevelFieldsAre()
    ensures TransactionLevelHeaders[0].field == "date" && TransactionLevelHeaders[2].field == "category"
    ensures TransactionLevelHeaders[3].field == "subcategory" && TransactionLevelHeaders[4].field == "item"
    ensures TransactionHeaders[0].field == "date" && TransactionHeaders[2].field == "section"
    ensures TransactionHeaders[3].field == "category" && TransactionHeaders[4].field == "subcategory"
  {
  }

  /** A text column of the corrected export reads back as the trimmed text of its field. */
  lemma TextColumn(item: map<string, JsValue>, i: nat, v: string)
    requires i < 7 && i != 1 && i != 5
    requires TransactionLevelHeaders[i].field in item && item[TransactionLevelHeaders[i].field] == JsString(v)
    ensures var back := TransformRow(ReadBack(TransactionExportRow(item)));
      TransactionHeaders[i].field in back && back[TransactionHeaders[i].field] == Trim(v)
  {
    var row := TransactionExportRow(item);
    var g := TransactionLevelHeaders[i].field;
    assert g != "type" && g != "amount" && TransactionHeaders[i].field != "type";
    assert CellText(row[i].value) == (if v != "" then v else "");
    ReadBackColumn(row, i);
    TrimOfTrimmed("");
  }

  /** The type column of the corrected export reads back as an accepted spelling. */
  lemma TypeColumn(item: map<string, JsValue>)
    ensures var back := TransformRow(ReadBack(TransactionExportRow(item)));
      "type" in back && IsTypeSpelling(back["type"])
  {
    var row := TransactionExportRow(item);
    assert TransactionLevelHeaders[1].field == "type" && TransactionHeaders[1].field == "type";
    assert row[1].value == ExportCell(item, "type", false);
    ReadBackColumn(row, 1);
    CorrectedType(item);
  }

  /** The amount column of the corrected export reads back as the grouped amount. */
  lemma AmountColumn(item: map<string, JsValue>, n: nat)
    requires "amount" in item && item["amount"] == JsNumber(n)
    ensures var back := TransformRow(ReadBack(TransactionExportRow(item)));
      "amount" in back && back["amount"] == LocaleString(n)
  {
    ReadBackColumn(TransactionExportRow(item), 5);
    LocaleStringTrimmed(n);
    TrimOfTrimmed(LocaleString(n));
  }

  /** Any exported type reads back as an accepted spelling. */
  lemma CorrectedType(item: map<string, JsValue>)
    ensures IsTypeSpelling(TransformValue("type", CellText(ExportCell(item, "type", false))))
  {
    TrimOfTrimmed("수입");
    TrimOfTrimmed("지출");
  }

  /** The grouped spelling of an amount, commas removed, parses as a number. */
  lemma GroupedAmountIsNumeric(n: nat)
    ensures HasNumericPrefix(Trim(RemoveCommas(LocaleString(n))))
  {
    var d := NatToString(n);
    DigitsHaveNoComma(d);
    RemoveCommasGroupDigits(d);
    assert Trimmed(d);
    TrimOfTrimmed(d);
    assert TrimStart(d) == d;
  }
}
