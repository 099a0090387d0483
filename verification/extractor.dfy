/** The tagged-line extractor (`readDebugLog2array`): keeps the lines whose
    first comma-field starts with the `[DEBUG][L1] id ` sentinel and
    appends every `key=value` field of such a line to the column of its key. */
module Extractor {
  import opened Wrappers
  import opened Text
  import opened Seqs

  /** The text a record line has before its first `=`; compared untrimmed. */
  const Sentinel: string := "[DEBUG][L1] id "

  /** The key the sentinel field is stored under once trimmed. */
  const IdKey: string := "[DEBUG][L1] id"

  /** The twelve columns the accumulator starts with, in the source's order. */
  const Keys: seq<string> := [IdKey, "true_label", "target_label", "info", "bnd_norm",
                              "bnd", "ks", "pVal", "shape", "loc", "scale", "g_x0"]

  /** The same twelve names as a set. */
  const KeySet: set<string> := set k | k in Keys

  /** Column name to the values collected for it, in file order. */
  type Columns = map<string, seq<string>>

  /** The two ways a record line crashes the script: a field without `=`
      (`temp[1]` is out of range) and a key that is not a column (`data_arr[key]`). */
  datatype ParseError = MissingValue(field: string) | UnknownKey(key: string)

  /** The accumulator before any line is read: every column present and empty. */
  function Initial(): (c: Columns)
    ensures c.Keys == KeySet
    ensures forall k :: k in c ==> c[k] == []
  {
    map k | k in Keys :: []
  }

  /** The comma-fields of a stripped line. */
  function Fields(line: string): (fs: seq<string>)
    ensures |fs| >= 1
  {
    Split(Trim(line), ',')
  }

  /** A line is a record when its first field, untrimmed, reads exactly the
      sentinel up to its first `=`. */
  predicate Accepted(line: string) {
    Before(Fields(line)[0], '=') == Sentinel
  }

  /** The trimmed text before the first `=` of a field. */
  function Key(f: string): string {
    Trim(Before(f, '='))
  }

  /** The trimmed text between the first and the second `=` of a field;
      anything after a second `=` is dropped. */
  function Value(f: string): string
    requires '=' in f
  {
    Trim(Second(f, '='))
  }

  /** A field written `k=v`, optionally followed by a further `=` and more
      text, has key `k` and value `v`, both trimmed. */
  lemma FieldParts(k: string, v: string, rest: string)
    requires '=' !in k && '=' !in v && (rest == [] || rest[0] == '=')
    ensures var f := k + "=" + v + rest;
      && '=' in f && Key(f) == Trim(k) && Value(f) == Trim(v)
  {
    var f := k + "=" + v + rest;
    assert f[|k|] == '=';
    assert f[..|k|] == k;
    BeforeUnique(f, '=', k);
    var tail := After(f, '=');
    assert tail == v + rest by {
      assert tail == f[|k| + 1..];
    }
    assert (v + rest)[..|v|] == v;
    assert |v| < |v + rest| ==> (v + rest)[|v|] == '=';
    BeforeUnique(tail, '=', v);
  }

  /** The values a sequence of fields contributes to column `k`, in order.
      A reference definition, independent of the accumulator. */
  function ValuesOf(fs: seq<string>, k: string): seq<string>
  {
    if fs == [] then [] else FieldValues(fs[0], k) + ValuesOf(fs[1..], k)
  }

  /** What one field contributes to column `k`: its value, when it has an
      `=` and its key is `k`. */
  function FieldValues(f: string, k: string): seq<string> {
    if '=' in f && Key(f) == k then [Value(f)] else []
  }

  /** The field has an `=` and its key is one of `names`. */
  predicate FieldFits(f: string, names: set<string>) {
    '=' in f && Key(f) in names
  }

  /** Every field of `fs` fits `names`. */
  predicate AllFit(fs: seq<string>, names: set<string>) {
    All(fs, f => FieldFits(f, names))
  }

  lemma AllFitIff(fs: seq<string>, names: set<string>)
    ensures AllFit(fs, names) <==> forall i :: 0 <= i < |fs| ==> FieldFits(fs[i], names)
  {
    AllIff(fs, f => FieldFits(f, names));
  }

  /** Append every field of a record line to its column, left to right,
      stopping at the first field that has no `=` or names no column. */
  function AppendFields(c: Columns, fs: seq<string>): (r: Result<Columns, ParseError>)
    ensures r.Success? <==> AllFit(fs, c.Keys)
    ensures r.Success? ==> r.value.Keys == c.Keys
    ensures r.Failure? && r.error.MissingValue? ==> r.error.field in fs && '=' !in r.error.field
    ensures r.Failure? && r.error.UnknownKey? ==> r.error.key !in c
    decreases |fs|
  {
    if fs == [] then Success(c)
    else if '=' !in fs[0] then Failure(MissingValue(fs[0]))
    else
      var k := Key(fs[0]);
      if k !in c then Failure(UnknownKey(k))
      else AppendFields(AddField(c, fs[0]), fs[1..])
  }

  /** Append one fitting field's value to the column of its key. */
  function AddField(c: Columns, f: string): (r: Columns)
    requires FieldFits(f, c.Keys)
    ensures r.Keys == c.Keys
  {
    c[Key(f) := c[Key(f)] + [Value(f)]]
  }

  /** Column `k` grows by what the field contributes to it, and by nothing else. */
  lemma AddFieldAt(c: Columns, f: string, k: string)
    requires FieldFits(f, c.Keys) && k in c
    ensures AddField(c, f)[k] == c[k] + FieldValues(f, k)
  {
    if k != Key(f) {
      assert FieldValues(f, k) == [];
    }
  }

  /** A record line adds to each column exactly the values of the fields
      carrying its key, in field order, after what the column already held. */
  lemma {:induction false} AppendFieldsValues(c: Columns, fs: seq<string>)
    requires AppendFields(c, fs).Success?
    ensures forall k :: k in c ==> AppendFields(c, fs).value[k] == c[k] + ValuesOf(fs, k)
    decreases |fs|
  {
    if fs != [] {
      var c' := AddField(c, fs[0]);
      AppendFieldsValues(c', fs[1..]);
      forall k | k in c
        ensures AppendFields(c, fs).value[k] == c[k] + ValuesOf(fs, k)
      {
        AddFieldAt(c, fs[0], k);
        AppendAssoc(c[k], FieldValues(fs[0], k), ValuesOf(fs[1..], k));
      }
    }
  }

  /** One line of the file: records are appended, every other line is
      skipped. A record grows each column by the values its fields carry
      for that column's key, and crashes on a field that does not fit. */
  function AddLine(c: Columns, line: string): (r: Result<Columns, ParseError>)
    ensures r.Success? <==> !Accepted(line) || AllFit(Fields(line), c.Keys)
    ensures r.Success? ==> r.value.Keys == c.Keys
    ensures r.Success? ==> forall k :: k in c ==>
      r.value[k] == c[k] + (if Accepted(line) then ValuesOf(Fields(line), k) else [])
  {
    if Accepted(line) then
      var r := AppendFields(c, Fields(line));
      if r.Success? then AppendFieldsValues(c, Fields(line)); r else r
    else
      assert forall k :: k in c ==> c[k] + [] == c[k];
      Success(c)
  }

  /** Every field of a line has an `=` and names one of the twelve columns. */
  predicate WellFormedLine(line: string) {
    AllFit(Fields(line), KeySet)
  }

  /** `line` is no record, or a well-formed one. */
  predicate RecordOk(line: string) {
    Accepted(line) ==> WellFormedLine(line)
  }

  /** Every record line among `lines` is well formed. */
  predicate RecordsWellFormed(lines: seq<string>) {
    Every(lines, RecordOk)
  }

  /** Column `k` as the concatenation, over the records in file order, of
      what each record line contributes to it. */
  function Expected(lines: seq<string>, k: string): seq<string>
    decreases |lines|
  {
    if lines == [] then []
    else
      var last := lines[|lines| - 1];
      Expected(lines[..|lines| - 1], k) + (if Accepted(last) then ValuesOf(Fields(last), k) else [])
  }

  /** The number of record lines. */
  function NumAccepted(lines: seq<string>): nat
    decreases |lines|
  {
    if lines == [] then 0
    else NumAccepted(lines[..|lines| - 1]) + (if Accepted(lines[|lines| - 1]) then 1 else 0)
  }

  /** The record lines alone, in file order. */
  function AcceptedOnly(lines: seq<string>): seq<string>
    decreases |lines|
  {
    if lines == [] then []
    else
      var last := lines[|lines| - 1];
      AcceptedOnly(lines[..|lines| - 1]) + (if Accepted(last) then [last] else [])
  }

  /** `readDebugLog2array` over the file's lines (all of them, in order). */
  function ExtractLines(lines: seq<string>): (r: Result<Columns, ParseError>)
    ensures r.Success? <==> RecordsWellFormed(lines)
    ensures r.Success? ==> r.value.Keys == KeySet
    decreases |lines|
  {
    if lines == [] then Success(Initial())
    else
      var init := lines[..|lines| - 1];
      var last := lines[|lines| - 1];
      InitLast(lines);
      var c :- ExtractLines(init);
      AddLine(c, last)
  }

  /** Reading one more line continues from the columns read so far. */
  lemma ExtractStep(lines: seq<string>, x: string)
    ensures ExtractLines(lines + [x]) ==
      match ExtractLines(lines)
      case Failure(e) => Failure(e)
      case Success(c) => AddLine(c, x)
  {
    var all := lines + [x];
    assert all[..|all| - 1] == lines;
    assert all[|all| - 1] == x;
  }

  /** Each column holds, in file order, the values the record lines carry
      for its key (the text between the field's first and second `=`). */
  lemma {:induction false} ExtractedColumns(lines: seq<string>)
    requires ExtractLines(lines).Success?
    ensures forall k :: k in KeySet ==> ExtractLines(lines).value[k] == Expected(lines, k)
    decreases |lines|
  {
    if lines != [] {
      var init := lines[..|lines| - 1];
      var last := lines[|lines| - 1];
      InitLast(lines);
      ExtractStep(init, last);
      ExtractedColumns(init);
      if Accepted(last) {
        AppendFieldsValues(ExtractLines(init).value, Fields(last));
      }
    }
  }

  /** The sentinel followed by `,` or `=` opens a record. */
  lemma SentinelOpensRecord(t: string)
    requires |t| > |Sentinel| && t[..|Sentinel|] == Sentinel
    requires t[|Sentinel|] == ',' || t[|Sentinel|] == '='
    ensures Before(Before(t, ','), '=') == Sentinel
  {
    var n := |Sentinel|;
    assert ',' !in Sentinel && '=' !in Sentinel;
    if t[n] == ',' {
      BeforeUnique(t, ',', Sentinel);
      BeforeUnique(Sentinel, '=', Sentinel);
    } else {
      var f := Before(t, ',');
      assert forall j :: 0 <= j < n ==> t[j] == Sentinel[j];
      assert |f| > n;
      assert f[..n] == t[..n];
      BeforeUnique(f, '=', Sentinel);
    }
  }

  /** A stripped text whose first field reads the sentinel before its first
      `=` continues, right after the sentinel, with `,` or `=`. */
  lemma RecordHasSentinel(t: string)
    requires NoEdgeSpace(t)
    requires Before(Before(t, ','), '=') == Sentinel
    ensures |t| > |Sentinel| && t[..|Sentinel|] == Sentinel
    ensures t[|Sentinel|] == ',' || t[|Sentinel|] == '='
  {
    var n := |Sentinel|;
    var f := Before(t, ',');
    var g := Before(f, '=');
    assert IsSpace(Sentinel[n - 1]);
    assert t[..n] == f[..n];
    assert |g| == |f| ==> |f| < |t|;
  }

  /** A line is a record exactly when its stripped text starts with the
      sentinel followed directly by `,` or `=`. */
  lemma AcceptedIff(line: string)
    ensures Accepted(line) <==>
      var t := Trim(line);
      && |t| > |Sentinel|
      && t[..|Sentinel|] == Sentinel
      && (t[|Sentinel|] == ',' || t[|Sentinel|] == '=')
  {
    var t := Trim(line);
    assert Fields(line)[0] == Before(t, ',');
    if Accepted(line) {
      RecordHasSentinel(t);
    }
    if |t| > |Sentinel| && t[..|Sentinel|] == Sentinel && (t[|Sentinel|] == ',' || t[|Sentinel|] == '=') {
      SentinelOpensRecord(t);
    }
  }

  /** A record line whose fields carry each of the twelve keys exactly once. */
  predicate OneOfEach(line: string) {
    forall k :: k in Keys ==> |ValuesOf(Fields(line), k)| == 1
  }

  lemma {:induction false} ExpectedLength(lines: seq<string>, k: string)
    requires forall i :: 0 <= i < |lines| && Accepted(lines[i]) ==> |ValuesOf(Fields(lines[i]), k)| == 1
    ensures |Expected(lines, k)| == NumAccepted(lines)
    decreases |lines|
  {
    if lines != [] {
      var init := lines[..|lines| - 1];
      assert forall i :: 0 <= i < |init| ==> init[i] == lines[i];
      ExpectedLength(init, k);
    }
  }

  lemma RecordsWellFormedIff(lines: seq<string>)
    ensures RecordsWellFormed(lines) <==>
      forall i :: 0 <= i < |lines| && Accepted(lines[i]) ==> WellFormedLine(lines[i])
    decreases |lines|
  {
    EveryIff(lines, RecordOk);
  }

  /** If every record line is well formed and carries each key once, every
      column ends up exactly as long as the number of record lines, whatever
      other lines the file holds. */
  lemma ColumnsAsLongAsRecords(lines: seq<string>)
    requires forall i :: 0 <= i < |lines| && Accepted(lines[i]) ==> WellFormedLine(lines[i]) && OneOfEach(lines[i])
    ensures ExtractLines(lines).Success?
    ensures forall k :: k in Keys ==> |ExtractLines(lines).value[k]| == NumAccepted(lines)
  {
    RecordsWellFormedIff(lines);
    ExtractedColumns(lines);
    forall k | k in Keys
      ensures |ExtractLines(lines).value[k]| == NumAccepted(lines)
    {
      ExpectedLength(lines, k);
    }
  }

  /** Removing every non-record line (comments, blank lines, other tags)
      changes nothing: not the outcome, not a single column. */
  lemma {:induction false} OnlyRecordsMatter(lines: seq<string>)
    ensures ExtractLines(AcceptedOnly(lines)) == ExtractLines(lines)
    decreases |lines|
  {
    if lines != [] {
      var init := lines[..|lines| - 1];
      var last := lines[|lines| - 1];
      InitLast(lines);
      var kept := AcceptedOnly(init);
      OnlyRecordsMatter(init);
      ExtractStep(init, last);
      if Accepted(last) {
        assert AcceptedOnly(lines) == kept + [last];
        ExtractStep(kept, last);
      } else {
        assert AcceptedOnly(lines) == kept;
      }
    }
  }
}
