/**
  The PPE (EPI) tree of the issuance window and its two views of "chosen":
  the per-row `checked`/`unchecked` tag that draws the checkbox, and the
  widget's native multi-row selection. A row is identified by its position in
  the tree; the selection is the set of positions the widget has selected.
  The three handlers that keep both views in lockstep are `Click` (the
  checkbox column), `Reconcile` (the selection-changed event) and `ClearAll`
  (the heading of the checkbox column).
 */
module Selection {

  import opened Results

  /** One row of the tree: the item code and description as loaded, and
      whether its tag is `checked`. */
  datatype Row = Row(code: string, description: string, checked: bool)

  datatype Tree = Tree(rows: seq<Row>, selection: set<nat>)

  /** The column identifier of the checkbox column. */
  const CheckboxColumn: string := "#0"

  /** The widget only ever selects rows it holds. */
  predicate WellFormed(t: Tree) {
    forall i :: i in t.selection ==> i < |t.rows|
  }

  /** The lockstep invariant: a row is checked exactly when it is selected. */
  predicate Consistent(t: Tree) {
    && WellFormed(t)
    && forall i :: 0 <= i < |t.rows| ==> (t.rows[i].checked <==> i in t.selection)
  }

  /** The positions of the rows whose tag is `checked`. */
  function Chosen(t: Tree): set<nat> {
    set i: nat | i < |t.rows| && t.rows[i].checked
  }

  /** Under the invariant the checked rows are the selection. */
  lemma ConsistentChosen(t: Tree)
    requires Consistent(t)
    ensures Chosen(t) == t.selection
  {
  }

  /** The tree as loaded: every row is inserted with the `unchecked` tag and
      nothing is selected. Codes are kept as given: the loader strips them
      before inserting (app.py:473), so a code never carries the surrounding
      whitespace that `int()` would otherwise skip and `ParseInt` refuses. */
  function Load(items: seq<(string, string)>): (t: Tree)
    ensures |t.rows| == |items| && Consistent(t) && Chosen(t) == {}
    ensures forall i :: 0 <= i < |items| ==> t.rows[i].code == items[i].0 && t.rows[i].description == items[i].1
  {
    Tree(seq(|items|, i requires 0 <= i < |items| => Row(items[i].0, items[i].1, false)), {})
  }

  /** Every row keeps its code and description. */
  predicate SameItems(a: seq<Row>, b: seq<Row>) {
    |a| == |b| && forall i :: 0 <= i < |a| ==> a[i].code == b[i].code && a[i].description == b[i].description
  }

  /** A click on the tree: the column and the row under the mouse (`None`
      when the mouse is not over a row). The result's second component says
      whether the handler consumed the click (returned "break"). */
  function Click(t: Tree, column: string, row: Option<nat>): (r: (Tree, bool))
    ensures SameItems(t.rows, r.0.rows)
    ensures r.1 <==> column == CheckboxColumn && row.Some? && row.value < |t.rows|
    ensures !r.1 ==> r.0 == t
    ensures r.1 ==> var i := row.value;
      && r.0.rows[i].checked == !t.rows[i].checked
      && (forall j :: 0 <= j < |t.rows| && j != i ==> r.0.rows[j] == t.rows[j])
      && r.0.selection == (if t.rows[i].checked then t.selection - {i} else t.selection + {i})
    ensures r.1 ==> (r.0.rows[row.value].checked <==> row.value in r.0.selection)
    ensures Consistent(t) ==> Consistent(r.0)
  {
    if column == CheckboxColumn && row.Some? && row.value < |t.rows| then
      var i := row.value;
      var cur := t.rows[i];
      if cur.checked then
        (Tree(t.rows[i := cur.(checked := false)], t.selection - {i}), true)
      else
        (Tree(t.rows[i := cur.(checked := true)], t.selection + {i}), true)
    else (t, false)
  }

  /** The selection-changed handler, stated row by row: every tag is set from
      membership in the selection. */
  function Reconcile(t: Tree): (r: Tree)
    ensures r.selection == t.selection
    ensures SameItems(t.rows, r.rows)
    ensures forall i :: 0 <= i < |r.rows| ==> (r.rows[i].checked <==> i in t.selection)
    ensures WellFormed(t) ==> Consistent(r)
    ensures WellFormed(t) ==> Chosen(r) == t.selection
  {
    Tree(seq(|t.rows|, i requires 0 <= i < |t.rows| => t.rows[i].(checked := i in t.selection)), t.selection)
  }

  /** The rows whose tag disagrees with the selection. */
  function Disagreeing(t: Tree): set<nat> {
    set i: nat | i < |t.rows| && t.rows[i].checked != (i in t.selection)
  }

  /** The loop of the selection-changed handler: it walks the rows in tree
      order and rewrites a row's tag only when it disagrees with the
      selection. `rewritten` records the rows it wrote. */
  method ReconcileRows(t: Tree) returns (rows: seq<Row>, rewritten: set<nat>)
    ensures rows == Reconcile(t).rows
    ensures rewritten == Disagreeing(t)
    ensures forall i :: 0 <= i < |rows| && i !in rewritten ==> rows[i] == t.rows[i]
  {
    rows := t.rows;
    rewritten := {};
    var i := 0;
    while i < |t.rows|
      invariant 0 <= i <= |t.rows| && |rows| == |t.rows|
      invariant forall j :: 0 <= j < i ==> rows[j] == t.rows[j].(checked := j in t.selection)
      invariant forall j :: i <= j < |rows| ==> rows[j] == t.rows[j]
      invariant rewritten == set j: nat | j < i && t.rows[j].checked != (j in t.selection)
    {
      var shouldBeChecked := i in t.selection;
      if rows[i].checked != shouldBeChecked {
        rows := rows[i := rows[i].(checked := shouldBeChecked)];
        rewritten := rewritten + {i};
      }
      i := i + 1;
    }
  }

  /** Reconciling a tree whose views already agree changes nothing. */
  lemma ReconcileConsistentIsIdentity(t: Tree)
    requires Consistent(t)
    ensures Reconcile(t) == t
  {
    assert Reconcile(t).rows == t.rows;
  }

  /** The clear-all handler: every tag becomes `unchecked`, then every row of
      the tree is removed from the selection. */
  function ClearAll(t: Tree): (r: Tree)
    ensures SameItems(t.rows, r.rows)
    ensures forall i :: 0 <= i < |r.rows| ==> !r.rows[i].checked
    ensures forall i :: i in r.selection ==> i in t.selection && i >= |t.rows|
    ensures WellFormed(t) ==> r.selection == {} && Consistent(r) && Chosen(r) == {}
  {
    var rows := seq(|t.rows|, i requires 0 <= i < |t.rows| => t.rows[i].(checked := false));
    // `selection_remove` of every row keeps only identifiers that are not rows.
    Tree(rows, set i | i in t.selection && i >= |t.rows|)
  }

  /** What the user can do to the tree. `SelectRows` is any change the widget
      makes to its own selection (plain click, ctrl-click, drag, keyboard);
      the widget can only select rows it holds. */
  datatype Event =
    | ClickAt(column: string, row: Option<nat>)
    | SelectRows(rows: set<nat>)
    | ClearAllClicked

  /** One event: the handler runs, and because it changes the widget's
      selection the selection-changed handler runs after it. */
  function Step(t: Tree, e: Event): Tree {
    match e
    case ClickAt(column, row) => Reconcile(Click(t, column, row).0)
    case SelectRows(rows) => Reconcile(Tree(t.rows, set i: nat | i in rows && i < |t.rows|))
    case ClearAllClicked => Reconcile(ClearAll(t))
  }

  function Run(t: Tree, events: seq<Event>): Tree
    decreases |events|
  {
    if events == [] then t else Run(Step(t, events[0]), events[1..])
  }

  /** Every event keeps the items and leaves the two views in agreement. */
  lemma StepKeepsConsistent(t: Tree, e: Event)
    requires WellFormed(t)
    ensures SameItems(t.rows, Step(t, e).rows)
    ensures Consistent(Step(t, e))
  {
  }

  /** The checkbox and clear-all handlers already restore the invariant on
      their own, so the selection-changed handler that follows them rewrites
      nothing. */
  lemma HandlersNeedNoReconcile(t: Tree, column: string, row: Option<nat>)
    requires Consistent(t)
    ensures Disagreeing(Click(t, column, row).0) == {}
    ensures Disagreeing(ClearAll(t)) == {}
  {
  }

  /** After any sequence of events the checked rows are exactly the selected
      rows, and every selected row is a row of the tree. */
  lemma {:induction false} RunKeepsConsistent(t: Tree, events: seq<Event>)
    requires Consistent(t)
    ensures SameItems(t.rows, Run(t, events).rows)
    ensures Consistent(Run(t, events))
    ensures Chosen(Run(t, events)) == Run(t, events).selection
    decreases |events|
  {
    if events == [] {
      ConsistentChosen(t);
    } else {
      var t' := Step(t, events[0]);
      StepKeepsConsistent(t, events[0]);
      RunKeepsConsistent(t', events[1..]);
    }
  }
}
