/** The two LaTeX-ready tables printed at the end (`gen_table`): for each
    label a header line, then one line per model of the fixed order that
    has results, carrying the norm-2 and norm-i cells of one column of the
    slots. Only which lines and cells are printed is modelled, not how the
    numbers are formatted. */
module Render {
  import opened Wrappers
  import opened Seqs
  import opened Aggregate

  /** The models the tables list, in the order they are listed. */
  const Order: seq<string> :=
    ["mnist_2-layer", "mnist_normal", "mnist_distilled", "mnist_brelu",
     "cifar_2-layer", "cifar_normal", "cifar_distilled", "cifar_brelu",
     "inception", "resnet", "mobilenet"]

  /** Which half of a slot a table shows: `elem_index` 0 or 1. */
  datatype Column = Bound | UsablePct

  function Cell(s: Slot, c: Column): Option<real> {
    match c
    case Bound => s.bound
    case UsablePct => s.usable
  }

  /** One printed line: a label's header, or a model's two cells. */
  datatype Line = Header(target: Label) | ModelRow(model: string, two: Option<real>, inf: Option<real>)

  /** The models of `order` that have results, in `order`'s order. */
  function Present(t: Results, order: seq<string>): (ms: seq<string>)
    ensures |ms| <= |order|
    ensures forall m :: m in ms <==> m in order && m in t
  {
    Keep(order, m => m in t)
  }

  /** Listing a concatenated order lists each part in turn, so the listed
      models keep the order's order. */
  lemma PresentAppend(t: Results, a: seq<string>, b: seq<string>)
    ensures Present(t, a + b) == Present(t, a) + Present(t, b)
  {
    KeepAppend(a, b, m => m in t);
  }

  /** A one-model order lists the model exactly when it has results. */
  lemma PresentOne(t: Results, m: string)
    ensures Present(t, [m]) == if m in t then [m] else []
  {
    assert [m][1..] == [];
  }

  /** No model of the order is listed twice. */
  lemma OrderDistinct()
    ensures Distinct(Order)
  {
  }

  lemma PresentDistinct(t: Results)
    ensures Distinct(Present(t, Order))
  {
    OrderDistinct();
    KeepDistinct(Order, m => m in t);
  }

  /** A model's line under label `l`: the norm-2 and norm-i cells. */
  function ModelLine(t: Results, m: string, l: Label, c: Column): Line
    requires m in t
  {
    ModelRow(m, Cell(At(t[m], Group(l, Two)), c), Cell(At(t[m], Group(l, Inf)), c))
  }

  /** One label's block: its header and then its model lines. */
  function Block(t: Results, ms: seq<string>, l: Label, c: Column): (lines: seq<Line>)
    requires forall m :: m in ms ==> m in t
    ensures |lines| == 1 + |ms|
    ensures lines[0] == Header(l)
    ensures forall i :: 0 <= i < |ms| ==> lines[1 + i] == ModelLine(t, ms[i], l, c)
  {
    [Header(l)] + seq(|ms|, i requires 0 <= i < |ms| => ModelLine(t, ms[i], l, c))
  }

  /** The blocks of least, random and top2 for the listed models `ms`. */
  function Blocks(t: Results, ms: seq<string>, c: Column): (lines: seq<Line>)
    requires forall m :: m in ms ==> m in t
    ensures |lines| == 3 * (1 + |ms|)
  {
    Block(t, ms, Least, c) + Block(t, ms, Random, c) + Block(t, ms, Top2, c)
  }

  /** One of the two tables: three blocks of one header and one line per
      model of the order that has results, opened by the headers of least,
      random and top2. */
  function Table(t: Results, c: Column): (lines: seq<Line>)
    ensures var n := 1 + |Present(t, Order)|;
      && |lines| == 3 * n
      && lines[0] == Header(Least) && lines[n] == Header(Random) && lines[2 * n] == Header(Top2)
  {
    BlocksHeaders(t, Present(t, Order), c);
    Blocks(t, Present(t, Order), c)
  }

  /** Both tables, bounds first, then usable percentages. */
  datatype Report = Report(bounds: seq<Line>, usable: seq<Line>)

  /** Both tables list the same lines, the first with the mean bounds and
      the second with the usable percentages. */
  function MakeReport(t: Results): (r: Report)
    ensures |r.bounds| == |r.usable|
    ensures r.bounds == Table(t, Bound) && r.usable == Table(t, UsablePct)
  {
    Report(Table(t, Bound), Table(t, UsablePct))
  }

  /** A table is the three label blocks in turn: least, random, top2. */
  lemma BlocksSplit(t: Results, ms: seq<string>, c: Column)
    requires forall m :: m in ms ==> m in t
    ensures var n := 1 + |ms|;
      var lines := Blocks(t, ms, c);
      && lines[..n] == Block(t, ms, Least, c)
      && lines[n..2 * n] == Block(t, ms, Random, c)
      && lines[2 * n..] == Block(t, ms, Top2, c)
  {
    var b0 := Block(t, ms, Least, c);
    var b1 := Block(t, ms, Random, c);
    var b2 := Block(t, ms, Top2, c);
    var lines := b0 + b1 + b2;
    assert lines[..|b0|] == b0;
    assert lines[|b0|..|b0| + |b1|] == b1;
    assert lines[|b0| + |b1|..] == b2;
  }

  /** Inside a block, every line but the first is a model line for a
      listed model. */
  lemma BlockModels(t: Results, ms: seq<string>, l: Label, c: Column, i: nat)
    requires forall m :: m in ms ==> m in t
    requires i < |Block(t, ms, l, c)| && Block(t, ms, l, c)[i].ModelRow?
    ensures 1 <= i && Block(t, ms, l, c)[i].model == ms[i - 1]
  {
  }

  /** Line `i` of the blocks is a header exactly when it opens a block. */
  lemma BlocksLineKind(t: Results, ms: seq<string>, c: Column, i: nat)
    requires forall m :: m in ms ==> m in t
    requires i < |Blocks(t, ms, c)|
    ensures var n := 1 + |ms|;
      Blocks(t, ms, c)[i].Header? <==> i == 0 || i == n || i == 2 * n
  {
    var n := 1 + |ms|;
    var lines := Blocks(t, ms, c);
    BlocksSplit(t, ms, c);
    if i < n {
      BlockLineKind(t, ms, Least, c, i);
      assert lines[i] == lines[..n][i];
    } else if i < 2 * n {
      BlockLineKind(t, ms, Random, c, i - n);
      assert lines[i] == lines[n..2 * n][i - n];
    } else {
      BlockLineKind(t, ms, Top2, c, i - 2 * n);
      assert lines[i] == lines[2 * n..][i - 2 * n];
    }
  }

  /** Inside one block only the first line is a header. */
  lemma BlockLineKind(t: Results, ms: seq<string>, l: Label, c: Column, j: nat)
    requires forall m :: m in ms ==> m in t
    requires j <= |ms|
    ensures Block(t, ms, l, c)[j].Header? <==> j == 0
  {
    if j > 0 {
      assert Block(t, ms, l, c)[1 + (j - 1)] == ModelLine(t, ms[j - 1], l, c);
    }
  }

  /** The only headers are the three label headers, one opening each
      block, in the order least, random, top2. */
  lemma BlocksHeaders(t: Results, ms: seq<string>, c: Column)
    requires forall m :: m in ms ==> m in t
    ensures var n := 1 + |ms|;
      var lines := Blocks(t, ms, c);
      && lines[0] == Header(Least) && lines[n] == Header(Random) && lines[2 * n] == Header(Top2)
      && forall i :: 0 <= i < |lines| ==> (lines[i].Header? <==> i == 0 || i == n || i == 2 * n)
  {
    var n := 1 + |ms|;
    var lines := Blocks(t, ms, c);
    BlocksSplit(t, ms, c);
    assert lines[0] == lines[..n][0];
    assert lines[n] == lines[n..2 * n][0];
    assert lines[2 * n] == lines[2 * n..][0];
    forall i | 0 <= i < |lines|
      ensures lines[i].Header? <==> i == 0 || i == n || i == 2 * n
    {
      BlocksLineKind(t, ms, c, i);
    }
  }

  /** Every model line of the blocks names a listed model. */
  lemma BlocksOnlyListed(t: Results, ms: seq<string>, c: Column, i: nat)
    requires forall m :: m in ms ==> m in t
    requires i < |Blocks(t, ms, c)| && Blocks(t, ms, c)[i].ModelRow?
    ensures Blocks(t, ms, c)[i].model in ms
  {
    var n := 1 + |ms|;
    var lines := Blocks(t, ms, c);
    BlocksSplit(t, ms, c);
    var l := if i < n then Least else if i < 2 * n then Random else Top2;
    var j := if i < n then i else if i < 2 * n then i - n else i - 2 * n;
    var b := Block(t, ms, l, c);
    assert j < |b| && b[j] == lines[i];
    BlockModels(t, ms, l, c, j);
  }

  /** Every model line of a table names a model of the order that has
      results; models outside the order never appear. */
  lemma NoStrangers(t: Results, c: Column, i: nat)
    requires i < |Table(t, c)| && Table(t, c)[i].ModelRow?
    ensures Table(t, c)[i].model in Order && Table(t, c)[i].model in t
  {
    BlocksOnlyListed(t, Present(t, Order), c, i);
  }

  /** Under each label, the model lines of a block follow `ms` one to one. */
  lemma BlocksListModel(t: Results, ms: seq<string>, c: Column, j: nat)
    requires forall m :: m in ms ==> m in t
    requires j < |ms|
    ensures var n := 1 + |ms|;
      var lines := Blocks(t, ms, c);
      && lines[1 + j] == ModelLine(t, ms[j], Least, c)
      && lines[n + 1 + j] == ModelLine(t, ms[j], Random, c)
      && lines[2 * n + 1 + j] == ModelLine(t, ms[j], Top2, c)
  {
    var n := 1 + |ms|;
    var lines := Blocks(t, ms, c);
    BlocksSplit(t, ms, c);
    assert lines[1 + j] == lines[..n][1 + j];
    assert lines[n + 1 + j] == lines[n..2 * n][1 + j];
    assert lines[2 * n + 1 + j] == lines[2 * n..][1 + j];
  }

  /** Each table lists every model of the order that has results, under
      each label, at the same position. */
  lemma EveryPresentModelListed(t: Results, c: Column, m: string)
    requires m in Order && m in t
    ensures var ms := Present(t, Order);
      exists j :: 0 <= j < |ms| && ms[j] == m
        && Table(t, c)[1 + j] == ModelLine(t, m, Least, c)
        && Table(t, c)[(1 + |ms|) + 1 + j] == ModelLine(t, m, Random, c)
        && Table(t, c)[2 * (1 + |ms|) + 1 + j] == ModelLine(t, m, Top2, c)
  {
    var ms := Present(t, Order);
    assert m in ms;
    var j :| 0 <= j < |ms| && ms[j] == m;
    BlocksListModel(t, ms, c, j);
  }
}
