/** The data frame the script builds from the extracted columns
    (`pd.DataFrame.from_dict`) and the numeric conversion of seven of its
    columns (`pd.to_numeric`). Only the five columns the results table
    reads are kept per row. */
module Frame {
  import opened Wrappers
  import opened Extractor

  /** One image's record as the aggregation sees it: the two text columns
      it groups by and the three numbers it filters and averages. */
  datatype Row = Row(info: string, bndNorm: string, bnd: real, pVal: real, shape: real)

  /** Why building the frame stops the script: columns of different
      lengths, or a text that does not read as a number. */
  datatype FrameError = RaggedColumns | NotNumeric(column: string, text: string)

  /** How a cell's text reads as a number; `None` where `pd.to_numeric`
      raises. The conversion itself is outside the model. */
  type Reader = string -> Option<real>

  /** The columns converted to numbers, in the order the script converts them. */
  const NumericKeys: seq<string> := ["bnd", "g_x0", "ks", "loc", "pVal", "scale", "shape"]

  /** Every column has as many values as the id column. */
  predicate SameLength(c: Columns) {
    IdKey in c && forall k :: k in c ==> |c[k]| == |c[IdKey]|
  }

  /** Every text of `xs` reads as a number. */
  predicate AllNumeric(xs: seq<string>, num: Reader) {
    forall i :: 0 <= i < |xs| ==> num(xs[i]).Some?
  }

  /** `pd.to_numeric` on one column: the numbers, or the first text that
      does not read as one. */
  function ParseColumn(name: string, xs: seq<string>, num: Reader): (r: Result<seq<real>, FrameError>)
    ensures r.Success? <==> AllNumeric(xs, num)
    ensures r.Success? ==> |r.value| == |xs| && forall i :: 0 <= i < |xs| ==> num(xs[i]) == Some(r.value[i])
    ensures r.Failure? ==> exists i :: 0 <= i < |xs| && num(xs[i]).None? && r.error == NotNumeric(name, xs[i])
  {
    if xs == [] then Success([])
    else
      match num(xs[0])
      case None => Failure(NotNumeric(name, xs[0]))
      case Some(v) =>
        var rest :- ParseColumn(name, xs[1..], num);
        assert forall i :: 1 <= i < |xs| ==> xs[i] == xs[1..][i - 1];
        Success([v] + rest)
  }

  /** The columns a row is built from or that the script converts. */
  const FrameKeys: seq<string> := NumericKeys + [IdKey, "info", "bnd_norm"]

  /** Every column the frame reads is present, as it is in any accumulator
      the extractor returns (`FrameColumnsExtracted`). */
  predicate HasFrameColumns(c: Columns) {
    forall k :: k in FrameKeys ==> k in c
  }

  /** The columns of `FrameKeys` by name. */
  lemma FrameKeyNames(c: Columns)
    requires HasFrameColumns(c)
    ensures "bnd" in c && "g_x0" in c && "ks" in c && "loc" in c && "pVal" in c
    ensures "scale" in c && "shape" in c && IdKey in c && "info" in c && "bnd_norm" in c
  {
    assert FrameKeys[0] == "bnd" && FrameKeys[1] == "g_x0" && FrameKeys[2] == "ks";
    assert FrameKeys[3] == "loc" && FrameKeys[4] == "pVal" && FrameKeys[5] == "scale";
    assert FrameKeys[6] == "shape" && FrameKeys[7] == IdKey && FrameKeys[8] == "info";
    assert FrameKeys[9] == "bnd_norm";
  }

  /** Every accumulator the extractor returns has the frame's columns. */
  lemma FrameColumnsExtracted(c: Columns)
    requires c.Keys == KeySet
    ensures HasFrameColumns(c)
  {
    forall k | k in FrameKeys
      ensures k in KeySet
    {
      var i :| 0 <= i < |FrameKeys| && FrameKeys[i] == k;
      // Entry i of this list is the position in `Keys` of `FrameKeys[i]`:
      // bnd is Keys[5], g_x0 Keys[11], ks Keys[6], ..., bnd_norm Keys[4].
      assert k == Keys[[5, 11, 6, 9, 7, 10, 8, 0, 3, 4][i]];
    }
  }

  /** The frame is built and all seven conversions succeed. */
  predicate Convertible(c: Columns, num: Reader)
    requires HasFrameColumns(c)
  {
    FrameKeyNames(c);
    && SameLength(c)
    && AllNumeric(c["bnd"], num) && AllNumeric(c["g_x0"], num) && AllNumeric(c["ks"], num)
    && AllNumeric(c["loc"], num) && AllNumeric(c["pVal"], num) && AllNumeric(c["scale"], num)
    && AllNumeric(c["shape"], num)
  }

  /** Row `i` of a convertible frame is made of cell `i` of each column. */
  predicate RowFrom(row: Row, c: Columns, num: Reader, i: nat)
    requires HasFrameColumns(c)
  {
    FrameKeyNames(c);
    && i < |c["info"]| && i < |c["bnd_norm"]| && i < |c["bnd"]| && i < |c["pVal"]| && i < |c["shape"]|
    && row.info == c["info"][i] && row.bndNorm == c["bnd_norm"][i]
    && num(c["bnd"][i]) == Some(row.bnd)
    && num(c["pVal"][i]) == Some(row.pVal)
    && num(c["shape"][i]) == Some(row.shape)
  }

  /** The frame's rows, one per extracted record, or the error that stops
      the script: ragged columns first, then the first column (in the
      script's order) holding a text that does not read as a number. */
  function ToRows(c: Columns, num: Reader): (r: Result<seq<Row>, FrameError>)
    requires HasFrameColumns(c)
    ensures r.Success? <==> Convertible(c, num)
    ensures r.Failure? && !SameLength(c) ==> r.error == RaggedColumns
    ensures r.Success? ==> |r.value| == |c[IdKey]|
    ensures r.Success? ==> forall i :: 0 <= i < |r.value| ==> RowFrom(r.value[i], c, num, i)
  {
    FrameKeyNames(c);
    if !SameLength(c) then Failure(RaggedColumns)
    else
      var n := |c[IdKey]|;
      var bnd :- ParseColumn("bnd", c["bnd"], num);
      var _ :- ParseColumn("g_x0", c["g_x0"], num);
      var _ :- ParseColumn("ks", c["ks"], num);
      var _ :- ParseColumn("loc", c["loc"], num);
      var pVal :- ParseColumn("pVal", c["pVal"], num);
      var _ :- ParseColumn("scale", c["scale"], num);
      var shape :- ParseColumn("shape", c["shape"], num);
      Success(seq(n, i requires 0 <= i < n =>
        Row(c["info"][i], c["bnd_norm"][i], bnd[i], pVal[i], shape[i])))
  }
}
