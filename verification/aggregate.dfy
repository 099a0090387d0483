/** The results table: for each model, nine (label, norm) slots, each
    holding the mean bound of the usable rows of that group and the share
    of the group's rows that are usable. Every log file updates the slots
    of its own model for the groups it has rows for. */
module Aggregate {
  import opened Wrappers
  import opened Seqs
  import opened Frame

  /** The target-label selections the script reports on. */
  datatype Label = Least | Random | Top2

  /** The norms a bound is computed in; `Inf` is written `i`. */
  datatype Norm = One | Two | Inf

  /** The `info` text of a label. */
  function LabelText(l: Label): string {
    match l
    case Least => "least"
    case Random => "random"
    case Top2 => "top2"
  }

  /** The `bnd_norm` text of a norm. */
  function NormText(n: Norm): string {
    match n
    case One => "1"
    case Two => "2"
    case Inf => "i"
  }

  /** One of the nine slots of a model's entry. */
  datatype Group = Group(target: Label, norm: Norm)

  /** The labels and norms in the order the script loops over them. */
  const Labels: seq<Label> := [Least, Random, Top2]
  const Norms: seq<Norm> := [One, Two, Inf]

  /** The nine groups in loop order: label outer, norm inner. */
  const AllGroups: seq<Group> :=
    [Group(Least, One), Group(Least, Two), Group(Least, Inf),
     Group(Random, One), Group(Random, Two), Group(Random, Inf),
     Group(Top2, One), Group(Top2, Two), Group(Top2, Inf)]

  lemma AllGroupsCover(g: Group)
    ensures g in AllGroups
  {
    var i := (match g.target case Least => 0 case Random => 3 case Top2 => 6)
           + (match g.norm case One => 0 case Two => 1 case Inf => 2);
    assert AllGroups[i] == g;
  }

  /** The row belongs to the group: `df["info"]==label & df["bnd_norm"]==bnd_norm`. */
  predicate InGroup(r: Row, g: Group) {
    r.info == LabelText(g.target) && r.bndNorm == NormText(g.norm)
  }

  /** A row is in at most one group. */
  lemma GroupsDisjoint(r: Row, g1: Group, g2: Group)
    requires InGroup(r, g1) && InGroup(r, g2)
    ensures g1 == g2
  {
    assert LabelText(g1.target) == LabelText(g2.target);
    assert NormText(g1.norm) == NormText(g2.norm);
    assert LabelText(g1.target)[0] == LabelText(g2.target)[0];
    assert NormText(g1.norm)[0] == NormText(g2.norm)[0];
  }

  /** The group's rows, in frame order. */
  function Select(rows: seq<Row>, g: Group): (s: seq<Row>)
    ensures |s| <= |rows|
    ensures forall r :: r in s <==> r in rows && InGroup(r, g)
  {
    Keep(rows, r => InGroup(r, g))
  }

  /** The filter of a group's statistics: `pVal > 0.05 & shape < 1000`. */
  predicate Usable(r: Row) {
    r.pVal > 0.05 && r.shape < 1000.0
  }

  /** The usable rows, in frame order. */
  function Filter(rows: seq<Row>): (s: seq<Row>)
    ensures |s| <= |rows|
    ensures forall r :: r in s <==> r in rows && Usable(r)
    ensures |s| == |rows| <==> forall i :: 0 <= i < |rows| ==> Usable(rows[i])
  {
    Keep(rows, Usable)
  }

  /** A group's rows keep every copy of each matching row of the frame. */
  lemma SelectCopies(rows: seq<Row>, g: Group)
    ensures forall r :: multiset(Select(rows, g))[r] == if InGroup(r, g) then multiset(rows)[r] else 0
  {
    KeepMultiset(rows, r => InGroup(r, g));
  }

  /** The usable rows keep every copy of each usable row. */
  lemma FilterCopies(rows: seq<Row>)
    ensures forall r :: multiset(Filter(rows))[r] == if Usable(r) then multiset(rows)[r] else 0
  {
    KeepMultiset(rows, Usable);
  }

  /** There are as many usable rows as positions holding a usable row. */
  lemma FilterCount(rows: seq<Row>)
    ensures |Filter(rows)| == Count(rows, Usable)
  {
    KeepCount(rows, Usable);
  }

  /** Filtering twice is filtering once. */
  lemma FilterIdempotent(rows: seq<Row>)
    ensures Filter(Filter(rows)) == Filter(rows)
  {
    KeepKeep(rows, Usable, Usable);
  }

  /** The sum of the bounds. */
  function SumBnd(rows: seq<Row>): real
    decreases |rows|
  {
    if rows == [] then 0.0 else rows[0].bnd + SumBnd(rows[1..])
  }

  /** The bounds lie between `lo` and `hi`. */
  predicate BoundsWithin(rows: seq<Row>, lo: real, hi: real) {
    forall i :: 0 <= i < |rows| ==> lo <= rows[i].bnd <= hi
  }

  lemma {:induction false} SumWithin(rows: seq<Row>, lo: real, hi: real)
    requires BoundsWithin(rows, lo, hi)
    ensures |rows| as real * lo <= SumBnd(rows) <= |rows| as real * hi
    decreases |rows|
  {
    if rows != [] {
      assert BoundsWithin(rows[1..], lo, hi) by {
        assert forall i :: 0 <= i < |rows| - 1 ==> rows[1..][i] == rows[i + 1];
      }
      SumWithin(rows[1..], lo, hi);
      assert lo <= rows[0].bnd <= hi;
    }
  }

  /** `describe()["bnd"]["mean"]`: the mean bound, or NaN (`None`) for no rows. */
  function MeanBnd(rows: seq<Row>): (m: Option<real>)
    ensures m.None? <==> rows == []
  {
    if rows == [] then None else Some(SumBnd(rows) / |rows| as real)
  }

  /** The mean lies between any bounds that hold for every row. */
  lemma MeanWithin(rows: seq<Row>, lo: real, hi: real)
    requires rows != [] && BoundsWithin(rows, lo, hi)
    ensures lo <= MeanBnd(rows).value <= hi
  {
    SumWithin(rows, lo, hi);
    var n := |rows| as real;
    assert SumBnd(rows) / n >= lo by {
      assert n * lo <= SumBnd(rows);
      assert (n * lo) / n == lo;
    }
    assert SumBnd(rows) / n <= hi by {
      assert SumBnd(rows) <= n * hi;
      assert (n * hi) / n == hi;
    }
  }

  /** One slot of an entry: `[bound, usable %]`, each possibly NaN. */
  datatype Slot = Slot(bound: Option<real>, usable: Option<real>)

  /** A slot nothing has been stored in: `[nan, nan]`. */
  const NoData: Slot := Slot(None, None)

  /** `count_1 * 100.0 / count_0`: the share of `k` in `n`, in percent. */
  function Percent(k: nat, n: nat): (p: real)
    requires 0 < n && k <= n
    ensures 0.0 <= p <= 100.0
    ensures p == 100.0 <==> k == n
    ensures p == 0.0 <==> k == 0
    ensures p * (n as real) == (k as real) * 100.0
  {
    var p := (k as real) * 100.0 / (n as real);
    assert p * (n as real) == (k as real) * 100.0;
    assert p <= 100.0;
    p
  }

  /** The pair stored for a non-empty group: the mean bound of its usable
      rows and the percentage of its rows that are usable. */
  function GroupStats(sel: seq<Row>): (s: Slot)
    requires sel != []
    ensures s.usable.Some? && 0.0 <= s.usable.value <= 100.0
    ensures s.usable.value == 100.0 <==> forall i :: 0 <= i < |sel| ==> Usable(sel[i])
    ensures s.usable.value == 0.0 <==> forall i :: 0 <= i < |sel| ==> !Usable(sel[i])
    ensures s.usable == Some(Percent(Count(sel, Usable), |sel|))
    ensures s.bound == MeanBnd(Filter(sel))
  {
    var ok := Filter(sel);
    var u := Percent(|ok|, |sel|);
    assert u == Percent(Count(sel, Usable), |sel|) by {
      FilterCount(sel);
    }
    assert ok == [] <==> forall i :: 0 <= i < |sel| ==> !Usable(sel[i]) by {
      if ok != [] {
        assert ok[0] in ok;
      }
    }
    Slot(MeanBnd(ok), Some(u))
  }

  /** The bound stored for a group lies within the bounds of its usable rows. */
  lemma StoredBoundWithin(sel: seq<Row>, lo: real, hi: real)
    requires sel != []
    requires forall i :: 0 <= i < |sel| && Usable(sel[i]) ==> lo <= sel[i].bnd <= hi
    ensures GroupStats(sel).bound.Some? ==> lo <= GroupStats(sel).bound.value <= hi
  {
    var ok := Filter(sel);
    if ok != [] {
      forall i | 0 <= i < |ok|
        ensures lo <= ok[i].bnd <= hi
      {
        assert ok[i] in sel;
        var j :| 0 <= j < |sel| && sel[j] == ok[i];
      }
      MeanWithin(ok, lo, hi);
    }
  }

  /** The three norm slots of one label: `{'1': [..], '2': [..], 'i': [..]}`. */
  datatype Slots = Slots(one: Slot, two: Slot, inf: Slot)

  /** A model's nine slots, one `Slots` per label. */
  datatype Entry = Entry(least: Slots, random: Slots, top2: Slots)

  function SlotsOf(e: Entry, l: Label): Slots {
    match l
    case Least => e.least
    case Random => e.random
    case Top2 => e.top2
  }

  function SlotOf(s: Slots, n: Norm): Slot {
    match n
    case One => s.one
    case Two => s.two
    case Inf => s.inf
  }

  /** `table_results[model][label][bnd_norm]`. */
  function At(e: Entry, g: Group): Slot {
    SlotOf(SlotsOf(e, g.target), g.norm)
  }

  function PutSlot(s: Slots, n: Norm, x: Slot): (r: Slots)
    ensures SlotOf(r, n) == x
    ensures forall m :: m != n ==> SlotOf(r, m) == SlotOf(s, m)
  {
    match n
    case One => s.(one := x)
    case Two => s.(two := x)
    case Inf => s.(inf := x)
  }

  /** The assignment to `table_results[model][label][bnd_norm]`: one slot
      changes, the other eight stay. */
  function Put(e: Entry, g: Group, x: Slot): (r: Entry)
    ensures At(r, g) == x
    ensures forall h :: h != g ==> At(r, h) == At(e, h)
  {
    var s := PutSlot(SlotsOf(e, g.target), g.norm, x);
    match g.target
    case Least => e.(least := s)
    case Random => e.(random := s)
    case Top2 => e.(top2 := s)
  }

  /** Entries with the same nine slots are the same entry. */
  lemma EntriesEqual(a: Entry, b: Entry)
    requires forall g :: At(a, g) == At(b, g)
    ensures a == b
  {
    forall l: Label
      ensures SlotsOf(a, l) == SlotsOf(b, l)
    {
      assert At(a, Group(l, One)) == At(b, Group(l, One));
      assert At(a, Group(l, Two)) == At(b, Group(l, Two));
      assert At(a, Group(l, Inf)) == At(b, Group(l, Inf));
    }
    assert SlotsOf(a, Least) == SlotsOf(b, Least);
    assert SlotsOf(a, Random) == SlotsOf(b, Random);
    assert SlotsOf(a, Top2) == SlotsOf(b, Top2);
  }

  /** The entry a model starts with: every slot `[nan, nan]`. */
  const EmptySlots: Slots := Slots(NoData, NoData, NoData)
  const EmptyEntry: Entry := Entry(EmptySlots, EmptySlots, EmptySlots)

  lemma EmptyEntryIsEmpty(g: Group)
    ensures At(EmptyEntry, g) == NoData
  {
  }

  /** Model name to entry. */
  type Results = map<string, Entry>

  /** The slot a group holds after a file's rows are seen: the new
      statistics when the file has rows for it, the old slot otherwise. */
  function NewSlot(prior: Slot, rows: seq<Row>, g: Group): Slot {
    var sel := Select(rows, g);
    if sel != [] then GroupStats(sel) else prior
  }

  /** One pass of the inner loop body: refresh the slot of group `g`
      (`if not df_out.empty: ...`). */
  function Refresh(e: Entry, rows: seq<Row>, g: Group): (r: Entry)
    ensures At(r, g) == NewSlot(At(e, g), rows, g)
    ensures forall h :: h != g ==> At(r, h) == At(e, h)
  {
    var sel := Select(rows, g);
    if sel != [] then Put(e, g, GroupStats(sel)) else e
  }

  /** The two nested loops, over the groups `gs`: every visited group
      holds its new slot and every other group its old one; visiting a
      group twice changes nothing. */
  function Update(e: Entry, rows: seq<Row>, gs: seq<Group>): (r: Entry)
    ensures forall g :: At(r, g) == if g in gs then NewSlot(At(e, g), rows, g) else At(e, g)
    decreases |gs|
  {
    if gs == [] then e
    else
      var r := Update(Refresh(e, rows, gs[0]), rows, gs[1..]);
      assert forall g :: g in gs <==> g == gs[0] || g in gs[1..];
      r
  }

  /** Both loops over the nine groups: each slot holds the group's new
      statistics when the file has rows for it, and its previous value
      otherwise. */
  function Fill(e: Entry, rows: seq<Row>): (r: Entry)
    ensures forall g :: At(r, g) == NewSlot(At(e, g), rows, g)
  {
    assert forall g :: g in AllGroups by {
      forall g
        ensures g in AllGroups
      {
        AllGroupsCover(g);
      }
    }
    Update(e, rows, AllGroups)
  }

  /** The entry a file's model starts from: its existing entry, or a fresh
      one when the model has not been seen (`if modelName not in table_results`). */
  function StartEntry(t: Results, model: string): Entry {
    if model in t then t[model] else EmptyEntry
  }

  /** The whole update for one file: create the model's entry if it is
      new, then refresh every group the file has rows for. Other models'
      entries are untouched. */
  function Ingest(t: Results, model: string, rows: seq<Row>): (r: Results)
    ensures model in r && r == t[model := r[model]]
  {
    t[model := Fill(StartEntry(t, model), rows)]
  }

  /** The slot a file leaves in its model's entry: the statistics of the
      group's rows when it has any, otherwise the slot the model already
      had, or `[nan, nan]` for a model seen for the first time. */
  lemma IngestSlot(t: Results, model: string, rows: seq<Row>, g: Group)
    ensures At(Ingest(t, model, rows)[model], g) ==
      NewSlot(if model in t then At(t[model], g) else NoData, rows, g)
  {
    var e := StartEntry(t, model);
    assert Ingest(t, model, rows)[model] == Fill(e, rows);
    assert At(e, g) == if model in t then At(t[model], g) else NoData by {
      EmptyEntryIsEmpty(g);
    }
  }

  /** Running both loops twice with the same rows is running them once. */
  lemma FillIdempotent(e: Entry, rows: seq<Row>)
    ensures Fill(Fill(e, rows), rows) == Fill(e, rows)
  {
    var e1 := Fill(e, rows);
    assert forall g :: At(Fill(e1, rows), g) == At(e1, g);
    EntriesEqual(Fill(e1, rows), e1);
  }

  /** Processing the same file twice in a row leaves the table as once. */
  lemma IngestIdempotent(t: Results, model: string, rows: seq<Row>)
    ensures Ingest(Ingest(t, model, rows), model, rows) == Ingest(t, model, rows)
  {
    var e1 := Fill(StartEntry(t, model), rows);
    var t1 := Ingest(t, model, rows);
    assert t1 == t[model := e1];
    assert StartEntry(t1, model) == e1;
    FillIdempotent(StartEntry(t, model), rows);
    assert Fill(e1, rows) == e1;
    assert Ingest(t1, model, rows) == t1[model := e1];
    UpdateTwice(t, model, e1);
  }

  /** A file's model entry depends only on the entry the model had before. */
  lemma IngestOwnEntry(t1: Results, t2: Results, model: string, rows: seq<Row>)
    requires StartEntry(t1, model) == StartEntry(t2, model)
    ensures Ingest(t1, model, rows)[model] == Ingest(t2, model, rows)[model]
  {
  }

  /** Files of two different models can be processed in either order. */
  lemma IngestCommutes(t: Results, a: string, ra: seq<Row>, b: string, rb: seq<Row>)
    requires a != b
    ensures Ingest(Ingest(t, a, ra), b, rb) == Ingest(Ingest(t, b, rb), a, ra)
  {
    var ta := Ingest(t, a, ra);
    var tb := Ingest(t, b, rb);
    var ea := ta[a];
    var eb := tb[b];
    assert StartEntry(ta, b) == StartEntry(t, b);
    assert StartEntry(tb, a) == StartEntry(t, a);
    IngestOwnEntry(ta, t, b, rb);
    IngestOwnEntry(tb, t, a, ra);
    assert Ingest(ta, b, rb) == t[a := ea][b := eb];
    assert Ingest(tb, a, ra) == t[b := eb][a := ea];
    UpdatesCommute(t, a, ea, b, eb);
  }

  /** Assignments to two different keys commute. */
  lemma UpdatesCommute<K, V>(m: map<K, V>, a: K, x: V, b: K, y: V)
    requires a != b
    ensures m[a := x][b := y] == m[b := y][a := x]
  {
  }

  /** Assigning the same value to a key twice is assigning it once. */
  lemma UpdateTwice<K, V>(m: map<K, V>, a: K, x: V)
    ensures m[a := x][a := x] == m[a := x]
  {
  }

  /** A row belongs to one of the nine groups. */
  ghost predicate Known(r: Row) {
    exists g: Group :: InGroup(r, g)
  }

  /** Dropping the rows of no group leaves every group's rows as they were. */
  lemma SelectKnown(rows: seq<Row>, g: Group)
    ensures Select(Keep(rows, Known), g) == Select(rows, g)
  {
    assert forall r :: InGroup(r, g) ==> Known(r);
    KeepKeep(rows, Known, r => InGroup(r, g));
  }

  /** The sizes of the groups' row lists, added up over `gs`. */
  function SelectSizes(rows: seq<Row>, gs: seq<Group>): nat
    decreases |gs|
  {
    if gs == [] then 0 else |Select(rows, gs[0])| + SelectSizes(rows, gs[1..])
  }

  /** The number of groups of `gs` the row belongs to. */
  function GroupsOf(r: Row, gs: seq<Group>): nat
    decreases |gs|
  {
    if gs == [] then 0 else (if InGroup(r, gs[0]) then 1 else 0) + GroupsOf(r, gs[1..])
  }

  lemma {:induction false} GroupsOfNone(r: Row, gs: seq<Group>)
    requires forall h :: h in gs ==> !InGroup(r, h)
    ensures GroupsOf(r, gs) == 0
    decreases |gs|
  {
    if gs != [] {
      assert forall h :: h in gs[1..] ==> h in gs;
      GroupsOfNone(r, gs[1..]);
    }
  }

  /** A row of group `g` counts once among distinct groups that include `g`. */
  lemma {:induction false} GroupsOfOne(r: Row, gs: seq<Group>, g: Group)
    requires Distinct(gs) && g in gs && InGroup(r, g)
    ensures GroupsOf(r, gs) == 1
    decreases |gs|
  {
    var tail := gs[1..];
    assert Distinct(tail) by {
      assert forall i :: 0 <= i < |tail| ==> tail[i] == gs[i + 1];
    }
    if gs[0] == g {
      forall h | h in tail
        ensures !InGroup(r, h)
      {
        var j :| 0 <= j < |tail| && tail[j] == h;
        assert gs[j + 1] == h;
        if InGroup(r, h) {
          GroupsDisjoint(r, g, h);
        }
      }
      GroupsOfNone(r, tail);
    } else {
      if InGroup(r, gs[0]) {
        GroupsDisjoint(r, g, gs[0]);
      }
      GroupsOfOne(r, tail, g);
    }
  }

  /** A row of some group belongs to exactly one of the nine, any other
      row to none. */
  lemma GroupsOfAll(r: Row)
    ensures GroupsOf(r, AllGroups) == if Known(r) then 1 else 0
  {
    if Known(r) {
      var g :| InGroup(r, g);
      AllGroupsCover(g);
      assert Distinct(AllGroups);
      GroupsOfOne(r, AllGroups, g);
    } else {
      GroupsOfNone(r, AllGroups);
    }
  }

  lemma {:induction false} SelectSizesEmpty(gs: seq<Group>)
    ensures SelectSizes([], gs) == 0
    decreases |gs|
  {
    if gs != [] {
      SelectSizesEmpty(gs[1..]);
    }
  }

  /** The first row adds one to the size of each group it belongs to. */
  lemma {:induction false} SelectSizesCons(rows: seq<Row>, gs: seq<Group>)
    requires rows != []
    ensures SelectSizes(rows, gs) == GroupsOf(rows[0], gs) + SelectSizes(rows[1..], gs)
    decreases |gs|
  {
    if gs != [] {
      SelectSizesCons(rows, gs[1..]);
      var g := gs[0];
      assert |Select(rows, g)| == (if InGroup(rows[0], g) then 1 else 0) + |Select(rows[1..], g)|;
    }
  }

  /** The nine groups together hold every row that belongs to one of them,
      each once. */
  lemma {:induction false} GroupSizesSum(rows: seq<Row>)
    ensures SelectSizes(rows, AllGroups) == |Keep(rows, Known)|
    decreases |rows|
  {
    if rows == [] {
      SelectSizesEmpty(AllGroups);
    } else {
      SelectSizesCons(rows, AllGroups);
      GroupsOfAll(rows[0]);
      GroupSizesSum(rows[1..]);
      assert |Keep(rows, Known)| == (if Known(rows[0]) then 1 else 0) + |Keep(rows[1..], Known)|;
    }
  }

  /** Each slot is the same whether or not the rows of no group are dropped. */
  lemma FillKnown(e: Entry, rows: seq<Row>, g: Group)
    ensures At(Fill(e, Keep(rows, Known)), g) == At(Fill(e, rows), g)
  {
    SelectKnown(rows, g);
  }

  /** Rows of no group (another `info` or `bnd_norm` text) do not affect
      the table. */
  lemma StrangersIgnored(t: Results, model: string, rows: seq<Row>)
    ensures Ingest(t, model, Keep(rows, Known)) == Ingest(t, model, rows)
  {
    var e := StartEntry(t, model);
    forall g
      ensures At(Fill(e, Keep(rows, Known)), g) == At(Fill(e, rows), g)
    {
      FillKnown(e, rows, g);
    }
    EntriesEqual(Fill(e, Keep(rows, Known)), Fill(e, rows));
  }
}
