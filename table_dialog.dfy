/**
 * The sorting state of a table dialog: the comparator with its configured
 * column and direction, the remembered direction of every column, the
 * marker the table header shows, and the body, which a header click sorts
 * and a refresh replaces (and sorts again once a sort has been configured).
 */
module TableDialog {
  import opened TableSort

  datatype Option<T> = None | Some(value: T)

  /** The direction arrow of the sort column (SWT.UP, SWT.DOWN, or none yet). */
  datatype Direction = Unset | Up | Down

  /** Every row has exactly one cell per header column. */
  predicate RowsFit(rows: seq<Row>, width: nat) {
    forall k :: 0 <= k < |rows| ==> |rows[k]| == width
  }

  /** A permutation of fitting rows fits too. */
  lemma RowsFitPermutation(a: seq<Row>, b: seq<Row>, width: nat)
    requires multiset(a) == multiset(b) && RowsFit(b, width)
    ensures RowsFit(a, width)
  {
    forall k | 0 <= k < |a| ensures |a[k]| == width {
      assert a[k] in multiset(b);
      var j :| 0 <= j < |b| && b[j] == a[k];
    }
  }

  /** The first position at or after `from` whose header is `text`, or 0 if there is none. */
  function FindFrom(header: seq<string>, text: string, from: nat): (r: nat)
    requires from <= |header|
    ensures text in header[from..] ==> from <= r < |header| && header[r] == text && text !in header[from..r]
    ensures text !in header[from..] ==> r == 0
    decreases |header| - from
  {
    if from == |header| then 0
    else if header[from] == text then
      assert header[from..from] == [];
      from
    else
      assert header[from..] == [header[from]] + header[from + 1..];
      var r := FindFrom(header, text, from + 1);
      assert text in header[from + 1..] ==> header[from..r] == [header[from]] + header[from + 1..r];
      r
  }

  /** The column a header text selects: its first occurrence, falling back to column 0. */
  function ColumnIndex(header: seq<string>, text: string): (r: nat)
    ensures text in header ==> r < |header| && header[r] == text && text !in header[..r]
    ensures text !in header ==> r == 0
  {
    assert header[0..] == header;
    FindFrom(header, text, 0)
  }

  /** The loop of sortTableItems(TableColumn) that looks up the clicked column by its text. */
  method HeaderIndex(header: seq<string>, text: string) returns (index: nat)
    ensures text in header ==> index < |header| && header[index] == text && text !in header[..index]
    ensures text !in header ==> index == 0
    ensures index == ColumnIndex(header, text)
  {
    index := 0;
    var i := 0;
    while i < |header|
      invariant 0 <= i <= |header|
      invariant ColumnIndex(header, text) == FindFrom(header, text, i)
    {
      if header[i] == text {
        index := i;
        return;
      }
      i := i + 1;
    }
  }

  /** TableComparator: the comparator of the table body, configured by header clicks. */
  class TableComparator {
    /** Whether a column or a direction has ever been set. */
    var confflg: bool
    /** The column compared. */
    var index: int
    /** True for ascending. */
    var order: bool
    /** How many times setIndex or setOrder has run on this comparator. */
    ghost var setterCalls: nat

    /** The flag records whether a setter has ever run. */
    ghost predicate Valid()
      reads this
    {
      confflg <==> setterCalls > 0
    }

    constructor ()
      ensures Valid() && setterCalls == 0
      ensures !confflg && index == 0 && !order
    {
      confflg := false;
      index := 0;
      order := false;
      setterCalls := 0;
    }

    method SetIndex(index: int)
      modifies this
      ensures Valid() && setterCalls == old(setterCalls) + 1
      ensures this.index == index && order == old(order)
      ensures confflg
    {
      this.index := index;
      confflg := true;
      setterCalls := setterCalls + 1;
    }

    method SetOrder(order: bool)
      modifies this
      ensures Valid() && setterCalls == old(setterCalls) + 1
      ensures this.order == order && index == old(index)
      ensures confflg
    {
      this.order := order;
      confflg := true;
      setterCalls := setterCalls + 1;
    }

    /** getHasSetConfig: true exactly when a column or a direction has been set at least once. */
    predicate HasSetConfig(): (r: bool)
      reads this
      requires Valid()
      ensures r <==> setterCalls > 0
    {
      confflg
    }
  }

  /**
   * AbstractTableDialog, reduced to its sorting state. A table column is
   * identified by its label text; the body is what updateTableBody last
   * produced, in the order the table shows.
   */
  class AbstractTableDialog {
    const header: seq<string>
    /** The remembered direction of every column (true for ascending). */
    const orderflgs: array<bool>
    const comparator: TableComparator
    var body: seq<Row>
    /** The column the table header marks as sorted. */
    var sortColumn: Option<string>
    var sortDirection: Direction

    ghost predicate Valid()
      reads this, comparator
    {
      && orderflgs.Length == |header|
      && comparator.Valid()
      && RowsFit(body, |header|)
      && (comparator.confflg ==> 0 <= comparator.index < |header|)
    }

    /** The field initialisers, followed by the first updateTableBody of open(). */
    constructor (header: seq<string>, body: seq<Row>)
      requires RowsFit(body, |header|)
      ensures Valid() && fresh(orderflgs) && fresh(comparator)
      ensures this.header == header && this.body == body
      ensures forall k :: 0 <= k < orderflgs.Length ==> !orderflgs[k]
      ensures !comparator.HasSetConfig()
      ensures sortColumn == None && sortDirection == Unset
    {
      this.header := header;
      this.body := body;
      orderflgs := new bool[|header|](_ => false);
      comparator := new TableComparator();
      sortColumn := None;
      sortDirection := Unset;
    }

    /**
     * sortTableItems(index, headerColumn): flips the clicked column's
     * direction, forgets every other column's, configures the comparator
     * and sorts the body.
     */
    method SortTableItems(index: int, column: string)
      requires Valid() && 0 <= index < |header|
      modifies this, orderflgs, comparator
      ensures Valid()
      ensures orderflgs[index] == !old(orderflgs[index])
      ensures forall k :: 0 <= k < orderflgs.Length && k != index ==> !orderflgs[k]
      ensures comparator.HasSetConfig() && comparator.index == index && comparator.order == orderflgs[index]
      ensures sortColumn == Some(column) && sortDirection == (if orderflgs[index] then Up else Down)
      ensures multiset(body) == multiset(old(body)) && SortedBy(body, index, orderflgs[index])
    {
      var orderflg := !orderflgs[index];
      for i := 0 to orderflgs.Length
        modifies orderflgs
        invariant forall k :: 0 <= k < i ==> !orderflgs[k]
      {
        orderflgs[i] := false;
      }
      orderflgs[index] := orderflg;
      sortColumn := Some(column);
      sortDirection := if orderflg then Up else Down;
      comparator.SetIndex(index);
      comparator.SetOrder(orderflg);
      var sorted := InsertionSort(body, comparator.index, comparator.order);
      RowsFitPermutation(sorted, body, |header|);
      body := sorted;
    }

    /** sortTableItems(headerColumn): sorts by the first column whose header is the clicked label. */
    method SortTableItemsByColumn(column: string)
      requires Valid() && |header| > 0
      modifies this, orderflgs, comparator
      ensures Valid()
      ensures var index := ColumnIndex(header, column);
        && orderflgs[index] == !old(orderflgs[index])
        && (forall k :: 0 <= k < orderflgs.Length && k != index ==> !orderflgs[k])
        && comparator.HasSetConfig() && comparator.index == index && comparator.order == orderflgs[index]
        && sortColumn == Some(column) && sortDirection == (if orderflgs[index] then Up else Down)
        && multiset(body) == multiset(old(body)) && SortedBy(body, index, orderflgs[index])
    {
      var index := HeaderIndex(header, column);
      SortTableItems(index, column);
    }

    /**
     * reloadTable: the body is replaced by what updateTableBody produces
     * (`updated`) and sorted again only once the comparator has been
     * configured; the sort marker is saved and restored around it.
     */
    method ReloadTable(updated: seq<Row>)
      requires Valid() && RowsFit(updated, |header|)
      modifies this
      ensures Valid()
      ensures comparator.HasSetConfig() ==>
        multiset(body) == multiset(updated) && SortedBy(body, comparator.index, comparator.order)
      ensures !comparator.HasSetConfig() ==> body == updated
      ensures sortColumn == old(sortColumn) && sortDirection == old(sortDirection)
    {
      var saved := sortColumn;
      sortColumn := None;
      body := updated;
      if comparator.HasSetConfig() {
        var sorted := InsertionSort(updated, comparator.index, comparator.order);
        RowsFitPermutation(sorted, updated, |header|);
        body := sorted;
      }
      sortColumn := saved;
    }
  }

  /** A refresh before any click keeps the fetched order. */
  method RefreshSession() {
    var d := new AbstractTableDialog(["No.", "Name"], [["10", "a"], ["2", "b"]]);
    d.ReloadTable([["10", "a"], ["2", "b"], ["1", ""]]);
    assert d.body == [["10", "a"], ["2", "b"], ["1", ""]];
  }

  /**
   * Clicking one column alternates ascending and descending; clicking
   * another column and then coming back starts ascending again.
   */
  method ClickSession() {
    var d := new AbstractTableDialog(["No.", "Name"], []);
    assert ColumnIndex(d.header, "No.") == 0 by { assert d.header[..0] == []; }
    assert ColumnIndex(d.header, "Name") == 1 by { assert d.header[..1] == ["No."]; }

    d.SortTableItemsByColumn("No.");
    assert d.orderflgs[0] && !d.orderflgs[1] && d.sortDirection == Up;
    d.SortTableItemsByColumn("No.");
    assert !d.orderflgs[0] && d.sortDirection == Down;
    d.SortTableItemsByColumn("Name");
    assert d.orderflgs[1] && !d.orderflgs[0];
    d.SortTableItemsByColumn("No.");
    assert d.orderflgs[0] && !d.orderflgs[1];
  }
}
