/** `setup` after the canvas is made: load both tables, pack the circles alphabetically
    and aim them at their own slots, with the alphabetical view showing. */
module Sketch {
  import opened Basics
  import opened Geometry
  import opened Sorting
  import opened Model
  import opened Records
  import opened Alphabetical

  /** The surname record a circle was made from. */
  function Record(c: Circle): Surname {
    Surname(c.surname, c.total)
  }

  function RecordsOf(cs: seq<Circle>): (rs: seq<Surname>)
    ensures |rs| == |cs| && forall i :: 0 <= i < |cs| ==> rs[i] == Record(cs[i])
  {
    seq(|cs|, i requires 0 <= i < |cs| => Record(cs[i]))
  }

  /** The initial state: one circle per usable general row, the circles in collation order
      of their surnames, each at its slot and aimed at it, the elite view off. The state
      needs a non-zero largest total when there is any surname. */
  function Setup(eliteRows: seq<Row>, rows: seq<Row>, collation: string -> real, width: real): (st: AppState)
    requires Packable(LoadDataset(eliteRows, rows, collation))
    ensures !st.isEliteView
    ensures multiset(RecordsOf(st.circles)) == multiset(LoadSurnames(rows))
    ensures forall i, j :: 0 <= i < j < |st.circles| ==>
              collation(st.circles[i].surname) <= collation(st.circles[j].surname)
    ensures forall i :: 0 <= i < |st.circles| ==>
              && st.circles[i].pos == st.circles[i].originalPos
              && st.circles[i].target == Some(Target(st.circles[i].originalPos, st.circles[i].originalColor))
    ensures var cs := Layout(LoadDataset(eliteRows, rows, collation), width);
            |st.circles| == |cs| && forall i :: 0 <= i < |cs| ==> st.circles[i] == cs[i].(target := st.circles[i].target)
    ensures forall i :: 0 <= i < |st.circles| ==>
              st.circles[i].eliteTotal == EliteTotal(LoadElite(eliteRows), st.circles[i].surname)
  {
    var d := LoadDataset(eliteRows, rows, collation);
    var st := RestoreOriginalLayout(d, width);
    var sh := Shelf(UniqueLetters(d.surnames), d.maxTotal, d.elite, width);
    CarriedRecords(Layout(d, width), d.surnames, sh, st.circles);
    CarriedEliteTotals(Layout(d, width), d.surnames, sh, st.circles);
    SortedSurnames(st.circles, d.surnames, collation);
    st
  }

  /** Helper for `Setup`: circles made from `ss`, whatever their targets, carry `ss`. */
  lemma CarriedRecords(cs: seq<Circle>, ss: seq<Surname>, sh: Shelf, out: seq<Circle>)
    requires |ss| > 0 ==> sh.maxTotal != 0.0
    requires forall i :: 0 <= i < |ss| ==> ss[i].name != []
    requires |cs| == |ss| && forall i :: 0 <= i < |cs| ==> Depicts(cs[i], ss[i], sh)
    requires |out| == |cs| && forall i :: 0 <= i < |cs| ==> out[i] == cs[i].(target := out[i].target)
    ensures RecordsOf(out) == ss
  {
    forall i | 0 <= i < |out|
      ensures Record(out[i]) == ss[i]
    {
      assert Depicts(cs[i], ss[i], sh);
    }
  }

  /** Helper for `Setup`: circles made from `ss`, whatever their targets, carry the elite
      count of their own surname. */
  lemma CarriedEliteTotals(cs: seq<Circle>, ss: seq<Surname>, sh: Shelf, out: seq<Circle>)
    requires |ss| > 0 ==> sh.maxTotal != 0.0
    requires forall i :: 0 <= i < |ss| ==> ss[i].name != []
    requires |cs| == |ss| && forall i :: 0 <= i < |cs| ==> Depicts(cs[i], ss[i], sh)
    requires |out| == |cs| && forall i :: 0 <= i < |cs| ==> out[i] == cs[i].(target := out[i].target)
    ensures forall i :: 0 <= i < |out| ==> out[i].eliteTotal == EliteTotal(sh.elite, out[i].surname)
  {
    forall i | 0 <= i < |out|
      ensures out[i].eliteTotal == EliteTotal(sh.elite, out[i].surname)
    {
      assert Depicts(cs[i], ss[i], sh);
    }
  }

  /** Helper for `Setup`: records in collation order give circles in collation order. */
  lemma SortedSurnames(cs: seq<Circle>, ss: seq<Surname>, collation: string -> real)
    requires RecordsOf(cs) == ss
    requires Ascending(ss, ByName(collation))
    ensures forall i, j :: 0 <= i < j < |cs| ==> collation(cs[i].surname) <= collation(cs[j].surname)
  {
    forall i, j | 0 <= i < j < |cs|
      ensures collation(cs[i].surname) <= collation(cs[j].surname)
    {
      assert Record(cs[i]) == ss[i] && Record(cs[j]) == ss[j];
      assert ByName(collation)(ss[i]) <= ByName(collation)(ss[j]);
    }
  }
}
