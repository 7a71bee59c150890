/**
 * Comma-separated files as Python's csv module reads and writes them, at the
 * level of fields: a file is a sequence of rows, a row a sequence of texts.
 */
module Csv {
  import opened Wrappers

  /** One line of a CSV file, split into its fields. */
  type Row = seq<string>

  /**
   * A row as csv.DictReader returns it: field name to field value.  A name the
   * line had no field for is present with Python's None (DictReader's restval);
   * the extra fields of a line longer than the header go under the key None,
   * which no string lookup can see, so they are not represented.
   */
  type Record = map<string, Option<string>>

  function Min(a: nat, b: nat): nat
  {
    if a <= b then a else b
  }

  /**
   * dict(zip(names, values)): names and values are paired up to the shorter of
   * the two sequences, and a repeated name keeps the value of its last occurrence
   * (the right operand of `+` on maps wins).
   */
  function ZipDict(names: Row, values: Row): Record
  {
    if names == [] || values == [] then map[]
    else map[names[0] := Some(values[0])] + ZipDict(names[1..], values[1..])
  }

  /** The names of a header beyond the end of a shorter line, each set to None. */
  function Padding(names: Row, values: Row): Record
  {
    if |values| < |names| then map k | k in names[|values|..] :: None else map[]
  }

  /**
   * One DictReader record: dict(zip(fieldnames, row)), after which every name
   * past the end of a short line is set to None, overriding an earlier value
   * under the same name.
   */
  function DictRecord(names: Row, values: Row): Record
  {
    ZipDict(names, values) + Padding(names, values)
  }

  /** dict(zip(...)) holds exactly the names that have a value. */
  lemma {:induction false} ZipDictKeys(names: Row, values: Row)
    ensures forall k :: k in ZipDict(names, values) <==> k in names[..Min(|names|, |values|)]
  {
    if names != [] && values != [] {
      ZipDictKeys(names[1..], values[1..]);
      assert names[..Min(|names|, |values|)] == [names[0]] + names[1..][..Min(|names| - 1, |values| - 1)];
    }
  }

  /** With distinct names, dict(zip(...)) maps each name to the value in its own position. */
  lemma {:induction false} ZipDictValues(names: Row, values: Row)
    requires forall i, j :: 0 <= i < j < |names| ==> names[i] != names[j]
    ensures forall j :: 0 <= j < Min(|names|, |values|) ==>
              names[j] in ZipDict(names, values) && ZipDict(names, values)[names[j]] == Some(values[j])
  {
    if names != [] && values != [] {
      ZipDictValues(names[1..], values[1..]);
      ZipDictKeys(names[1..], values[1..]);
      assert names[0] !in names[1..][..Min(|names| - 1, |values| - 1)];
      forall j | 0 < j < Min(|names|, |values|)
        ensures ZipDict(names, values)[names[j]] == Some(values[j])
      {
        assert names[j] == names[1..][j - 1];
      }
    }
  }

  /** Every header name is a key of every record, whatever the length of the line. */
  lemma DictRecordKeys(names: Row, values: Row)
    ensures forall k :: k in DictRecord(names, values) <==> k in names
  {
    ZipDictKeys(names, values);
    var m := Min(|names|, |values|);
    assert names == names[..m] + names[m..];
  }

  /** With distinct names, a name within the line has its field, and a name past its end has None. */
  lemma DictRecordValues(names: Row, values: Row)
    requires forall i, j :: 0 <= i < j < |names| ==> names[i] != names[j]
    ensures forall j :: 0 <= j < |names| ==>
              names[j] in DictRecord(names, values) &&
              DictRecord(names, values)[names[j]] == if j < |values| then Some(values[j]) else None
  {
    ZipDictValues(names, values);
    forall j | 0 <= j < |names|
      ensures names[j] in DictRecord(names, values)
      ensures DictRecord(names, values)[names[j]] == if j < |values| then Some(values[j]) else None
    {
      if j < |values| {
        assert names[j] !in Padding(names, values) by {
          if |values| < |names| {
            assert forall k :: k in names[|values|..] ==> k != names[j];
          }
        }
      } else {
        assert names[j] == names[|values|..][j - |values|];
      }
    }
  }

  /** A repeated header name past the end of a short line is None, even though an earlier field gave it a value. */
  lemma PaddingOverridesEarlierValue()
    ensures DictRecord(["time", "temperature_2m", "time"], ["t1", "5"])["time"] == None
    ensures DictRecord(["time", "temperature_2m", "time"], ["t1", "5"])["temperature_2m"] == Some("5")
  {
    var names, values := ["time", "temperature_2m", "time"], ["t1", "5"];
    assert names[|values|..] == ["time"];
    assert "temperature_2m" !in names[|values|..];
    assert names[1..][1..] == ["time"] && values[1..][1..] == [];
    assert ZipDict(names, values) == map["time" := Some("t1")] + (map["temperature_2m" := Some("5")] + map[]);
  }

  /**
   * The records csv.DictReader yields for the rows that follow the header row
   * `names`: a row with no fields at all is skipped, every other row becomes
   * one record.
   */
  function RecordsOf(names: Row, rows: seq<Row>): (records: seq<Record>)
    ensures |records| <= |rows|
    ensures (forall i :: 0 <= i < |rows| ==> rows[i] != []) ==>
              |records| == |rows| && forall i :: 0 <= i < |rows| ==> records[i] == DictRecord(names, rows[i])
  {
    if rows == [] then []
    else if rows[0] == [] then RecordsOf(names, rows[1..])
    else [DictRecord(names, rows[0])] + RecordsOf(names, rows[1..])
  }

  /** list(csv.DictReader(file)): the first row supplies the field names and is not itself a record. */
  function DictRows(lines: seq<Row>): seq<Record>
  {
    if lines == [] then [] else RecordsOf(lines[0], lines[1..])
  }

  function FieldsLength(row: Row): nat
  {
    if row == [] then 0 else |row[0]| + FieldsLength(row[1..])
  }

  /** Characters csv.writer writes for one row when no field needs quoting: fields, separating commas and "\r\n". */
  function LineLength(row: Row): nat
  {
    FieldsLength(row) + (if row == [] then 0 else |row| - 1) + 2
  }

  /**
   * A lower bound on the characters csv.writer writes for `rows`: quoting only
   * adds characters, and UTF-8 never encodes a character in fewer than one byte,
   * so this also bounds the size of the file in bytes from below.
   */
  function MinTextLength(rows: seq<Row>): (n: nat)
    ensures rows != [] ==> n >= LineLength(rows[0])
  {
    if rows == [] then 0 else LineLength(rows[0]) + MinTextLength(rows[1..])
  }
}
