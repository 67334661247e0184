/**
 * The row-building loops of `pdf_to_json` and `docx_to_json` in bot.py, over
 * a table already taken out of the document: the first row names the
 * columns, every further row becomes one object.
 */
module TableRows {
  import opened Wrappers
  import opened PyStr
  import opened PyDict

  type Cell = Option<string>

  /** One output object, keys in insertion order. */
  type Object = Dict<Cell>

  /** A table as pdfplumber extracts it: rows of text cells or None. */
  type PdfTable = seq<seq<Option<string>>>

  /** A table as python-docx exposes it: rows of cell texts. */
  type DocxTable = seq<seq<string>>

  /** `headers[i] if i < len(headers) else f"col_{i+1}"`. */
  function ColumnKey(headers: seq<string>, i: nat): string {
    if i < |headers| then headers[i] else "col_" + NatToDecimal(i + 1)
  }

  /** The key of every column of a row with `count` cells. */
  function ColumnKeys(headers: seq<string>, count: nat): (ks: seq<string>)
    ensures |ks| == count
  {
    if count == 0 then [] else ColumnKeys(headers, count - 1) + [ColumnKey(headers, count - 1)]
  }

  lemma {:induction false} ColumnKeysAt(headers: seq<string>, count: nat, i: int)
    requires 0 <= i < count
    ensures ColumnKeys(headers, count)[i] == ColumnKey(headers, i)
  {
    if i < count - 1 {
      ColumnKeysAt(headers, count - 1, i);
    }
  }

  /** Columns past the header row get keys that never coincide. */
  lemma FallbackKeysDistinct(headers: seq<string>, i: nat, j: nat)
    requires |headers| <= i < j
    ensures ColumnKey(headers, i) != ColumnKey(headers, j)
  {
    var a, b := NatToDecimal(i + 1), NatToDecimal(j + 1);
    if "col_" + a == "col_" + b {
      PrefixCancel("col_", a, b);
    }
  }

  /** Equal sequences with the same prefix have equal remainders. */
  lemma PrefixCancel(p: string, a: string, b: string)
    requires p + a == p + b
    ensures a == b
  {
    assert a == (p + a)[|p|..];
    assert b == (p + b)[|p|..];
  }

  /** `obj[keys[i]] = values[i]` for every column, left to right. */
  function ObjectOf(keys: seq<string>, values: seq<Cell>): Object
    requires |keys| == |values|
  {
    if values == [] then []
    else
      var n := |values| - 1;
      Assign(ObjectOf(keys[..n], values[..n]), keys[n], values[n])
  }

  /** The object the inner loop builds from one row. */
  function RowObject(headers: seq<string>, values: seq<Cell>): Object {
    ObjectOf(ColumnKeys(headers, |values|), values)
  }

  /** The object has no repeated key, and a key exactly when some column is named by it. */
  lemma {:induction false} ObjectKeys(keys: seq<string>, values: seq<Cell>, k: string)
    requires |keys| == |values|
    ensures DistinctKeys(ObjectOf(keys, values))
    ensures Has(ObjectOf(keys, values), k) <==> k in keys
  {
    if values != [] {
      var n := |values| - 1;
      ObjectKeys(keys[..n], values[..n], k);
      InitOrLast(keys, k);
      var obj := ObjectOf(keys, values);
      assert Has(obj, k) <==> Get(obj, k).Some?;
      assert Has(ObjectOf(keys[..n], values[..n]), k) <==> Get(ObjectOf(keys[..n], values[..n]), k).Some?;
    }
  }

  lemma InitOrLast(keys: seq<string>, k: string)
    requires keys != []
    ensures k in keys <==> k in keys[..|keys| - 1] || k == keys[|keys| - 1]
  {
    assert keys == keys[..|keys| - 1] + [keys[|keys| - 1]];
  }

  /** A key holds the value of the last column it names. */
  lemma {:induction false} ObjectLastWins(keys: seq<string>, values: seq<Cell>, i: int)
    requires |keys| == |values| && 0 <= i < |values|
    requires forall j | i < j < |values| :: keys[j] != keys[i]
    ensures Get(ObjectOf(keys, values), keys[i]) == Some(values[i])
  {
    var n := |values| - 1;
    if i < n {
      assert keys[..n][i] == keys[i];
      ObjectLastWins(keys[..n], values[..n], i);
    }
  }

  /**
   * A row's object has a key exactly when some column is named by it, and
   * that key holds the cell of the last column naming it.
   */
  lemma RowObjectKeys(headers: seq<string>, values: seq<Cell>, k: string)
    ensures DistinctKeys(RowObject(headers, values))
    ensures Has(RowObject(headers, values), k) <==> exists i | 0 <= i < |values| :: ColumnKey(headers, i) == k
  {
    var keys := ColumnKeys(headers, |values|);
    ObjectKeys(keys, values, k);
    if k in keys {
      var i :| 0 <= i < |keys| && keys[i] == k;
      ColumnKeysAt(headers, |values|, i);
    }
    if exists i | 0 <= i < |values| :: ColumnKey(headers, i) == k {
      var i :| 0 <= i < |values| && ColumnKey(headers, i) == k;
      ColumnKeysAt(headers, |values|, i);
      assert keys[i] == k;
    }
  }

  lemma RowObjectLastWins(headers: seq<string>, values: seq<Cell>, i: int)
    requires 0 <= i < |values|
    requires forall j | i < j < |values| :: ColumnKey(headers, j) != ColumnKey(headers, i)
    ensures Get(RowObject(headers, values), ColumnKey(headers, i)) == Some(values[i])
  {
    var keys := ColumnKeys(headers, |values|);
    forall j | i <= j < |values|
      ensures keys[j] == ColumnKey(headers, j)
    {
      ColumnKeysAt(headers, |values|, j);
    }
    ObjectLastWins(keys, values, i);
  }

  /** The inner loop: one object from one row. */
  method BuildObject(headers: seq<string>, values: seq<Cell>) returns (obj: Object)
    ensures obj == RowObject(headers, values)
  {
    ghost var keys := ColumnKeys(headers, |values|);
    obj := [];
    for i := 0 to |values|
      invariant obj == ObjectOf(keys[..i], values[..i])
    {
      var key := ColumnKey(headers, i);
      ColumnKeysAt(headers, |values|, i);
      ObjectOfStep(keys, values, i);
      obj := Assign(obj, key, values[i]);
    }
    WholePrefix(keys, values);
  }

  /** Adding column `i` to the object of the columns before it. */
  lemma ObjectOfStep(keys: seq<string>, values: seq<Cell>, i: int)
    requires |keys| == |values| && 0 <= i < |values|
    ensures ObjectOf(keys[..i + 1], values[..i + 1]) == Assign(ObjectOf(keys[..i], values[..i]), keys[i], values[i])
  {
    assert keys[..i + 1][..i] == keys[..i];
    assert values[..i + 1][..i] == values[..i];
  }

  lemma WholePrefix(keys: seq<string>, values: seq<Cell>)
    requires |keys| == |values|
    ensures ObjectOf(keys[..|values|], values[..|values|]) == ObjectOf(keys, values)
  {
    assert keys[..|values|] == keys;
    assert values[..|values|] == values;
  }

  /** The rows after the header, up to row `r` included, end with row `r`. */
  lemma RowsStep<T>(table: seq<T>, r: int)
    requires 1 <= r < |table|
    ensures table[1..r + 1] != [] && table[1..r + 1][..r - 1] == table[1..r] && table[1..r + 1][r - 1] == table[r]
  {
  }

  // ------------------------------------------------------------------ PDF

  /** A None header cell becomes the key None, which `json.dumps` writes as "null". */
  function PdfKey(h: Option<string>): string {
    if h.Some? then h.value else "null"
  }

  /** `cell if cell not in [None, ""] else None`. */
  function PdfValue(c: Option<string>): Cell {
    if c.None? || c.value == "" then None else c
  }

  function PdfHeaders(row: seq<Option<string>>): (hs: seq<string>)
    ensures |hs| == |row|
  {
    seq(|row|, i requires 0 <= i < |row| => PdfKey(row[i]))
  }

  function PdfValues(row: seq<Option<string>>): (vs: seq<Cell>)
    ensures |vs| == |row|
  {
    seq(|row|, i requires 0 <= i < |row| => PdfValue(row[i]))
  }

  /** The objects of the rows after the header row, in row order. */
  function PdfRows(headers: seq<string>, rows: seq<seq<Option<string>>>): (objs: seq<Object>)
    ensures |objs| == |rows|
  {
    if rows == [] then []
    else
      var n := |rows| - 1;
      PdfRows(headers, rows[..n]) + [RowObject(headers, PdfValues(rows[n]))]
  }

  /** Object `j` is built from row `j`. */
  lemma {:induction false} PdfRowsAt(headers: seq<string>, rows: seq<seq<Option<string>>>, j: int)
    requires 0 <= j < |rows|
    ensures PdfRows(headers, rows)[j] == RowObject(headers, PdfValues(rows[j]))
  {
    var n := |rows| - 1;
    if j < n {
      PdfRowsAt(headers, rows[..n], j);
      assert rows[..n][j] == rows[j];
    }
  }

  /**
   * `pdf_to_json` after extraction: no table gives an empty list, a table
   * with no row raises IndexError (None), and otherwise every row after the
   * header row gives one object.
   */
  function PdfObjects(tables: seq<PdfTable>): (r: Option<seq<Object>>)
    ensures tables == [] ==> r == Some([])
    ensures tables != [] ==> (r.None? <==> tables[0] == [])
    ensures tables != [] && r.Some? ==> |r.value| == |tables[0]| - 1
  {
    if tables == [] then Some([])
    else
      var t := tables[0];
      if t == [] then None
      else Some(PdfRows(PdfHeaders(t[0]), t[1..]))
  }

  method PdfToJson(tables: seq<PdfTable>) returns (data: Option<seq<Object>>)
    ensures data == PdfObjects(tables)
  {
    if tables == [] {
      return Some([]);
    }
    var table := tables[0];
    if table == [] {
      return None;
    }
    var headers := PdfHeaders(table[0]);
    var rows: seq<Object> := [];
    for r := 1 to |table|
      invariant rows == PdfRows(headers, table[1..r])
    {
      var obj := BuildObject(headers, PdfValues(table[r]));
      RowsStep(table, r);
      rows := rows + [obj];
    }
    assert table[1..|table|] == table[1..];
    data := Some(rows);
  }

  /**
   * In object `r`, the key of column `i` (when no later column shares it)
   * holds the cell, with None and the empty string both turned into None.
   */
  lemma PdfCellRule(tables: seq<PdfTable>, r: int, i: int)
    requires tables != [] && PdfObjects(tables).Some?
    requires 0 <= r < |PdfObjects(tables).value|
    requires 0 <= i < |tables[0][r + 1]|
    requires forall j | i < j < |tables[0][r + 1]| :: ColumnKey(PdfHeaders(tables[0][0]), j) != ColumnKey(PdfHeaders(tables[0][0]), i)
    ensures var cell := tables[0][r + 1][i];
      Get(PdfObjects(tables).value[r], ColumnKey(PdfHeaders(tables[0][0]), i)) ==
        Some(if cell.None? || cell.value == "" then None else cell)
  {
    PdfRowsAt(PdfHeaders(tables[0][0]), tables[0][1..], r);
    RowObjectLastWins(PdfHeaders(tables[0][0]), PdfValues(tables[0][r + 1]), i);
  }

  // ----------------------------------------------------------------- DOCX

  /** `cell.text.strip()`, kept when non-empty. */
  function DocxValue(text: string): Cell {
    var value := Strip(text);
    if value == [] then None else Some(value)
  }

  /** `[cell.text.strip() for cell in rows[0].cells]`. */
  function DocxHeaders(row: seq<string>): (hs: seq<string>)
    ensures |hs| == |row|
  {
    seq(|row|, i requires 0 <= i < |row| => Strip(row[i]))
  }

  function DocxValues(row: seq<string>): (vs: seq<Cell>)
    ensures |vs| == |row|
  {
    seq(|row|, i requires 0 <= i < |row| => DocxValue(row[i]))
  }

  /** The objects of the rows after the header row, in row order. */
  function DocxRows(headers: seq<string>, rows: seq<seq<string>>): (objs: seq<Object>)
    ensures |objs| == |rows|
  {
    if rows == [] then []
    else
      var n := |rows| - 1;
      DocxRows(headers, rows[..n]) + [RowObject(headers, DocxValues(rows[n]))]
  }

  /** Object `j` is built from row `j`. */
  lemma {:induction false} DocxRowsAt(headers: seq<string>, rows: seq<seq<string>>, j: int)
    requires 0 <= j < |rows|
    ensures DocxRows(headers, rows)[j] == RowObject(headers, DocxValues(rows[j]))
  {
    var n := |rows| - 1;
    if j < n {
      DocxRowsAt(headers, rows[..n], j);
      assert rows[..n][j] == rows[j];
    }
  }

  /** `docx_to_json` after extraction, with the same cases as `PdfObjects`. */
  function DocxObjects(tables: seq<DocxTable>): (r: Option<seq<Object>>)
    ensures tables == [] ==> r == Some([])
    ensures tables != [] ==> (r.None? <==> tables[0] == [])
    ensures tables != [] && r.Some? ==> |r.value| == |tables[0]| - 1
  {
    if tables == [] then Some([])
    else
      var t := tables[0];
      if t == [] then None
      else Some(DocxRows(DocxHeaders(t[0]), t[1..]))
  }

  method DocxToJson(tables: seq<DocxTable>) returns (data: Option<seq<Object>>)
    ensures data == DocxObjects(tables)
  {
    if tables == [] {
      return Some([]);
    }
    var table := tables[0];
    if table == [] {
      return None;
    }
    var headers := DocxHeaders(table[0]);
    var rows: seq<Object> := [];
    for r := 1 to |table|
      invariant rows == DocxRows(headers, table[1..r])
    {
      var obj := BuildObject(headers, DocxValues(table[r]));
      RowsStep(table, r);
      rows := rows + [obj];
    }
    assert table[1..|table|] == table[1..];
    data := Some(rows);
  }

  /**
   * In object `r`, the key of column `i` (when no later column shares it)
   * holds the stripped cell text, or None when that is empty; header texts
   * are stripped too.
   */
  lemma DocxCellRule(tables: seq<DocxTable>, r: int, i: int)
    requires tables != [] && DocxObjects(tables).Some?
    requires 0 <= r < |DocxObjects(tables).value|
    requires 0 <= i < |tables[0][r + 1]|
    requires forall j | i < j < |tables[0][r + 1]| :: ColumnKey(DocxHeaders(tables[0][0]), j) != ColumnKey(DocxHeaders(tables[0][0]), i)
    ensures var text := Strip(tables[0][r + 1][i]);
      Get(DocxObjects(tables).value[r], ColumnKey(DocxHeaders(tables[0][0]), i)) ==
        Some(if text == [] then None else Some(text))
    ensures i < |tables[0][0]| ==> ColumnKey(DocxHeaders(tables[0][0]), i) == Strip(tables[0][0][i])
  {
    DocxRowsAt(DocxHeaders(tables[0][0]), tables[0][1..], r);
    RowObjectLastWins(DocxHeaders(tables[0][0]), DocxValues(tables[0][r + 1]), i);
  }
}
