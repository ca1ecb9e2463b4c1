/** The data `setup` builds from the two tables before any layout: the general surname
    list, sorted, and the assembly members' surnames with their counts. */
module Records {
  import opened Basics
  import opened Text
  import opened Sorting

  /** A table row as the sketch reads it: the surname cell (absent when missing) and the
      `float` of the Total cell (absent when it is NaN). */
  datatype Row = Row(name: Option<string>, total: Option<real>)

  /** One general surname record. */
  datatype Surname = Surname(name: string, total: real)

  /** One assembly-member record, its name trimmed and upper-cased. */
  datatype EliteEntry = EliteEntry(name: string, total: real)

  /** Everything the layouts read: the sorted surnames, the elite records in table order,
      the set of elite names, and the largest general total. */
  datatype Dataset = Dataset(
    surnames: seq<Surname>,
    elite: seq<EliteEntry>,
    eliteSet: set<string>,
    maxTotal: real)

  /** A row is used when its name is present and non-empty and its total is a number. */
  predicate Usable(row: Row) {
    row.name.Some? && row.name.value != [] && row.total.Some?
  }

  /** The usable rows, in table order, each made into a record. */
  function Collect<T>(rows: seq<Row>, make: (string, real) -> T): seq<T> {
    var idx := Where(rows, Usable);
    seq(|idx|, k requires 0 <= k < |idx| => make(rows[idx[k]].name.value, rows[idx[k]].total.value))
  }

  /** The key an elite name is stored under: trimmed, then upper-cased. */
  function EliteKey(name: string): string {
    Upper(Trim(name))
  }

  /** The general table's records: one per usable row, in table order, with
      the name as written. */
  function LoadSurnames(rows: seq<Row>): (ss: seq<Surname>)
    ensures |ss| == |Where(rows, Usable)|
    ensures forall k :: 0 <= k < |ss| ==>
              var row := rows[Where(rows, Usable)[k]];
              ss[k] == Surname(row.name.value, row.total.value) && ss[k].name != []
  {
    Collect(rows, (n: string, t: real) => Surname(n, t))
  }

  /** The elite table's records: one per usable row, in table order, under
      its trimmed upper-case key. */
  function LoadElite(rows: seq<Row>): (es: seq<EliteEntry>)
    ensures |es| == |Where(rows, Usable)|
    ensures forall k :: 0 <= k < |es| ==>
              var row := rows[Where(rows, Usable)[k]];
              es[k] == EliteEntry(EliteKey(row.name.value), row.total.value)
  {
    Collect(rows, (n: string, t: real) => EliteEntry(EliteKey(n), t))
  }

  function Names(es: seq<EliteEntry>): (ns: seq<string>)
    ensures |ns| == |es| && forall i :: 0 <= i < |es| ==> ns[i] == es[i].name
  {
    seq(|es|, i requires 0 <= i < |es| => es[i].name)
  }

  /** The elite count of a surname: the total
      of the first elite record whose name is the upper-cased surname, and 0 when there is
      none. (A found total of 0 also gives 0, which is the same number.) */
  function EliteTotal(es: seq<EliteEntry>, surname: string): (t: real)
    ensures (forall k :: 0 <= k < |es| ==> es[k].name != Upper(surname)) ==> t == 0.0
    ensures forall k :: 0 <= k < |es| && es[k].name == Upper(surname)
                        && (forall j :: 0 <= j < k ==> es[j].name != Upper(surname))
                        ==> t == es[k].total
  {
    var k := IndexOf(Names(es), Upper(surname));
    if k < |es| then es[k].total else 0.0
  }

  /** A surname spelled exactly as the `k`-th elite name is stored finds a record of that
      name: upper-casing an elite key leaves it as it is, so the look-up stops at the
      first record of that name, at or before `k`. */
  lemma EliteKeyFindsItself(rows: seq<Row>, k: nat)
    requires k < |LoadElite(rows)|
    ensures var es := LoadElite(rows);
            var j := IndexOf(Names(es), es[k].name);
            j <= k && es[j].name == es[k].name && EliteTotal(es, es[k].name) == es[j].total
  {
    var es := LoadElite(rows);
    var row := rows[Where(rows, Usable)[k]];
    UpperIdempotent(Trim(row.name.value));
    assert Upper(es[k].name) == es[k].name;
    assert Names(es)[k] == es[k].name;
  }

  /** The largest total of a non-empty list of records. */
  function MaxTotal(ss: seq<Surname>): (m: real)
    requires |ss| > 0
    ensures forall i :: 0 <= i < |ss| ==> ss[i].total <= m
    ensures exists i :: 0 <= i < |ss| && ss[i].total == m
  {
    if |ss| == 1 then ss[0].total
    else
      var rest := MaxTotal(ss[1..]);
      assert forall i :: 1 <= i < |ss| ==> ss[i] == ss[1..][i - 1];
      if ss[0].total < rest then rest else ss[0].total
  }

  /** The sort key for the surname list: `localeCompare` of two names has the sign of the
      difference of their `collation` values. */
  function ByName(collation: string -> real): Surname -> real {
    (s: Surname) => collation(s.name)
  }

  /** The loading part of `setup`: filter both tables, key the elite names, sort the
      general list and take its largest total (0 stands in for the `-Infinity` of an empty
      list, which no layout reads). */
  function LoadDataset(eliteRows: seq<Row>, rows: seq<Row>, collation: string -> real): (d: Dataset)
    ensures multiset(d.surnames) == multiset(LoadSurnames(rows))
    ensures Ascending(d.surnames, ByName(collation))
    ensures forall i :: 0 <= i < |d.surnames| ==> d.surnames[i].name != []
    ensures d.elite == LoadElite(eliteRows)
    ensures forall key :: key in d.eliteSet <==> key in Names(d.elite)
    ensures |d.surnames| > 0 ==> d.maxTotal == MaxTotal(d.surnames)
  {
    var elite := LoadElite(eliteRows);
    var loaded := LoadSurnames(rows);
    var sorted := SortBy(loaded, ByName(collation));
    PermutedNamesNonEmpty(loaded, sorted);
    var eliteSet := set e | e in elite :: e.name;
    assert forall key :: key in eliteSet <==> key in Names(elite) by {
      forall key ensures key in eliteSet <==> key in Names(elite) {
        if key in Names(elite) {
          var i :| 0 <= i < |elite| && Names(elite)[i] == key;
          assert elite[i] in elite;
        }
      }
    }
    Dataset(sorted, elite, eliteSet, if |sorted| == 0 then 0.0 else MaxTotal(sorted))
  }

  /** Helper for `LoadDataset`: a rearrangement keeps every name non-empty. */
  lemma PermutedNamesNonEmpty(a: seq<Surname>, b: seq<Surname>)
    requires forall k :: 0 <= k < |a| ==> a[k].name != []
    requires multiset(b) == multiset(a)
    ensures forall i :: 0 <= i < |b| ==> b[i].name != []
  {
    forall i | 0 <= i < |b|
      ensures b[i].name != []
    {
      assert b[i] in multiset(a);
      var k :| 0 <= k < |a| && a[k] == b[i];
    }
  }
}
