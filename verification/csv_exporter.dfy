/** CSV assembly (`utils/csvExporter.ts`): a header line of the first row's
    keys, then one line per row holding that row's values in header order,
    all joined by CRLF. Encoding one value (`JSON.stringify` with its null
    replacer) is the opaque `encode`; an absent key reaches it as `None`. */
module CsvExporter {
  import opened Seqs
  import opened Text

  /** One property of a row object, in the object's key order. */
  datatype Field<V> = Field(key: string, value: V)

  type Row<V> = seq<Field<V>>

  const Comma: string := ","

  const LineBreak: string := "\r\n"

  /** `Object.keys(row)`. */
  function KeysOf<V>(row: Row<V>): (r: seq<string>)
    ensures |r| == |row|
    ensures forall i :: 0 <= i < |row| ==> r[i] == row[i].key
  {
    seq(|row|, i requires 0 <= i < |row| => row[i].key)
  }

  /** `row[key]`: the value of the field with that key, if the row has one. */
  function Lookup<V>(row: Row<V>, key: string): (r: Option<V>)
    ensures r.None? <==> key !in KeysOf(row)
    ensures forall i :: 0 <= i < |row| && row[i].key == key && (forall j :: 0 <= j < i ==> row[j].key != key) ==> r == Some(row[i].value)
  {
    if |row| == 0 then None
    else if row[0].key == key then Some(row[0].value)
    else
      assert KeysOf(row) == [row[0].key] + KeysOf(row[1..]);
      Lookup(row[1..], key)
  }

  /** In a row whose keys are distinct, every key finds its own field. */
  lemma LookupDistinct<V>(row: Row<V>, i: int)
    requires 0 <= i < |row|
    requires forall j, k :: 0 <= j < k < |row| ==> row[j].key != row[k].key
    ensures Lookup(row, row[i].key) == Some(row[i].value)
  {
    assert forall j :: 0 <= j < i ==> row[j].key != row[i].key;
  }

  /** The encoded values of `row` in the order of `headers`. */
  function Cells<V>(row: Row<V>, headers: seq<string>, encode: Option<V> -> string): (r: seq<string>)
    ensures |r| == |headers|
    ensures forall k :: 0 <= k < |headers| ==> r[k] == encode(Lookup(row, headers[k]))
  {
    seq(|headers|, k requires 0 <= k < |headers| => encode(Lookup(row, headers[k])))
  }

  /** The encoded values of a row, in field order. */
  function Values<V>(row: Row<V>, encode: Option<V> -> string): (r: seq<string>)
    ensures |r| == |row|
    ensures forall k :: 0 <= k < |row| ==> r[k] == encode(Some(row[k].value))
  {
    seq(|row|, k requires 0 <= k < |row| => encode(Some(row[k].value)))
  }

  /** For a row whose keys are the distinct `headers`, in order, its cells
      under those headers are exactly its values. */
  lemma CellsAreValues<V>(row: Row<V>, headers: seq<string>, encode: Option<V> -> string)
    requires KeysOf(row) == headers
    requires forall j, k :: 0 <= j < k < |headers| ==> headers[j] != headers[k]
    ensures Cells(row, headers, encode) == Values(row, encode)
  {
    forall k | 0 <= k < |row|
      ensures Cells(row, headers, encode)[k] == Values(row, encode)[k]
    {
      LookupDistinct(row, k);
    }
  }

  /** The header line followed by one line per row. */
  function CsvLines<V>(data: seq<Row<V>>, encode: Option<V> -> string): (r: seq<string>)
    requires |data| > 0
    ensures |r| == |data| + 1
    ensures r[0] == Join(KeysOf(data[0]), Comma)
    ensures forall i :: 0 <= i < |data| ==> r[i + 1] == Join(Cells(data[i], KeysOf(data[0]), encode), Comma)
  {
    var headers := KeysOf(data[0]);
    [Join(headers, Comma)] + seq(|data|, i requires 0 <= i < |data| => Join(Cells(data[i], headers, encode), Comma))
  }

  /** `generateCsv`: no file for an empty row list (the notice path);
      otherwise the lines joined by CRLF. */
  function GenerateCsv<V>(data: seq<Row<V>>, encode: Option<V> -> string): (r: Option<string>)
    ensures r.None? <==> |data| == 0
    ensures r.Some? ==> r.value == Join(CsvLines(data, encode), LineBreak)
  {
    if |data| == 0 then None
    else Some(Join(CsvLines(data, encode), LineBreak))
  }

  /** A CSV file written out directly: the header line, then each line of
      values, every line comma-separated, the lines joined by CRLF. */
  function CsvFile(headers: seq<string>, lines: seq<seq<string>>): string
  {
    Join([Join(headers, Comma)] + seq(|lines|, i requires 0 <= i < |lines| => Join(lines[i], Comma)), LineBreak)
  }

  /** When the first row's keys are `headers` and row i's values under them
      encode to `values[i]`, the generated file is the direct layout of
      those headers and values. */
  lemma GenerateCsvLayout<V>(data: seq<Row<V>>, headers: seq<string>, values: seq<seq<string>>,
                             encode: Option<V> -> string)
    requires |data| > 0 && |values| == |data|
    requires KeysOf(data[0]) == headers
    requires forall i :: 0 <= i < |data| ==> Cells(data[i], headers, encode) == values[i]
    ensures GenerateCsv(data, encode) == Some(CsvFile(headers, values))
  {
    var lines := CsvLines(data, encode);
    var direct := [Join(headers, Comma)] + seq(|values|, i requires 0 <= i < |values| => Join(values[i], Comma));
    assert forall i :: 1 <= i < |lines| ==> lines[i] == direct[i] by {
      forall i | 1 <= i < |lines|
        ensures lines[i] == direct[i]
      {
        assert lines[(i - 1) + 1] == Join(Cells(data[i - 1], headers, encode), Comma);
      }
    }
    assert lines == direct;
  }

  /** A character absent from the separator and from every part is absent
      from their join. */
  lemma {:induction false} CharNotInJoin(parts: seq<string>, sep: string, c: char)
    requires c !in sep
    requires forall k :: 0 <= k < |parts| ==> c !in parts[k]
    ensures c !in Join(parts, sep)
  {
    if |parts| > 1 {
      CharNotInJoin(parts[1..], sep, c);
    }
  }

  /** True iff no header and no encoded value holds a comma or a carriage
      return, so that the file can be read back unambiguously. */
  ghost predicate Unambiguous<V>(data: seq<Row<V>>, encode: Option<V> -> string)
    requires |data| > 0
  {
    && (forall k :: 0 <= k < |data[0]| ==> ',' !in data[0][k].key && '\r' !in data[0][k].key)
    && (forall i, h :: 0 <= i < |data| && h in KeysOf(data[0]) ==>
          ',' !in encode(Lookup(data[i], h)) && '\r' !in encode(Lookup(data[i], h)))
  }

  /** Reading the file back: it has one line more than there are rows; the
      first line splits into the first row's keys, and line i + 1 splits
      into the encoded values of row i in header order. */
  lemma CsvReadBack<V>(data: seq<Row<V>>, encode: Option<V> -> string)
    requires |data| > 0 && |data[0]| > 0
    requires Unambiguous(data, encode)
    ensures GenerateCsv(data, encode).Some?
    ensures var lines := Split(GenerateCsv(data, encode).value, LineBreak);
            && |lines| == |data| + 1
            && Split(lines[0], Comma) == KeysOf(data[0])
            && forall i :: 0 <= i < |data| ==> Split(lines[i + 1], Comma) == Cells(data[i], KeysOf(data[0]), encode)
  {
    var headers := KeysOf(data[0]);
    var lines := CsvLines(data, encode);
    SplitJoin(headers, Comma);
    CharNotInJoin(headers, Comma, '\r');
    forall i | 0 <= i < |data|
      ensures Split(lines[i + 1], Comma) == Cells(data[i], headers, encode)
      ensures '\r' !in lines[i + 1]
    {
      var cells := Cells(data[i], headers, encode);
      assert forall k :: 0 <= k < |cells| ==> cells[k] == encode(Lookup(data[i], headers[k])) && headers[k] in headers;
      SplitJoin(cells, Comma);
      CharNotInJoin(cells, Comma, '\r');
    }
    SplitJoin(lines, LineBreak);
  }
}
