/**
  The draft of an issuance: opening it from the checked rows of the PPE tree,
  editing one line's quantity, and finalizing it into the committed lines.
  A draft holds the line items (`itens_data` in the program) and, beside them,
  the quantity column the draft window shows for each line.
 */
module LineItems {

  import opened Results
  import opened Text
  import opened Selection

  /** The employee row chosen in the employee list: name, company and tax id. */
  datatype Employee = Employee(name: string, company: string, taxId: string)

  /** One line item: the item code as an integer, its description and the
      quantity to deliver. */
  datatype Line = Line(code: int, description: string, qty: nat)

  datatype Draft = Draft(employee: Employee, lines: seq<Line>, shown: seq<nat>)

  datatype DraftError =
    | NoEmployee
    | NothingChecked
    | InvalidCode(code: string)
    | InvalidQuantity(text: string)
    | NothingToDeliver

  /** The draft window shows, for every line, the quantity the line holds. */
  predicate Agrees(d: Draft) {
    |d.shown| == |d.lines| && forall i :: 0 <= i < |d.lines| ==> d.shown[i] == d.lines[i].qty
  }

  /** The positions of the checked rows, in tree order. */
  function CheckedIndices(rows: seq<Row>): (idx: seq<nat>)
    ensures forall k :: 0 <= k < |idx| ==> idx[k] < |rows| && rows[idx[k]].checked
    ensures forall k, m :: 0 <= k < m < |idx| ==> idx[k] < idx[m]
    ensures forall i :: 0 <= i < |rows| && rows[i].checked ==> i in idx
    decreases |rows|
  {
    if rows == [] then []
    else
      var prefix := CheckedIndices(rows[..|rows| - 1]);
      if rows[|rows| - 1].checked then prefix + [|rows| - 1] else prefix
  }

  /** A line per listed row, with the code parsed and quantity 1; the first
      code that does not parse stops the construction. */
  function BuildLines(rows: seq<Row>, idx: seq<nat>): (r: Result<seq<Line>, DraftError>)
    requires forall k :: 0 <= k < |idx| ==> idx[k] < |rows|
    ensures r.Ok? <==> forall k :: 0 <= k < |idx| ==> ParseInt(rows[idx[k]].code).Some?
    ensures r.Ok? ==> |r.value| == |idx|
    ensures r.Ok? ==> forall k :: 0 <= k < |idx| ==>
      && Some(r.value[k].code) == ParseInt(rows[idx[k]].code)
      && r.value[k].description == rows[idx[k]].description
      && r.value[k].qty == 1
    ensures r.Err? ==> exists k :: (0 <= k < |idx| && ParseInt(rows[idx[k]].code).None?
      && r.error == InvalidCode(rows[idx[k]].code)
      && forall m :: 0 <= m < k ==> ParseInt(rows[idx[m]].code).Some?)
    decreases |idx|
  {
    if idx == [] then Ok([])
    else
      var row := rows[idx[0]];
      match ParseInt(row.code)
      case None => Err(InvalidCode(row.code))
      case Some(code) =>
        var rest := BuildLines(rows, idx[1..]);
        if rest.Err? then
          assert exists k :: (1 <= k < |idx| && ParseInt(rows[idx[k]].code).None?
            && rest.error == InvalidCode(rows[idx[k]].code)
            && forall m :: 0 <= m < k ==> ParseInt(rows[idx[m]].code).Some?) by {
            var k :| 0 <= k < |idx[1..]| && ParseInt(rows[idx[1..][k]].code).None?
              && rest.error == InvalidCode(rows[idx[1..][k]].code)
              && forall m :: 0 <= m < k ==> ParseInt(rows[idx[1..][m]].code).Some?;
            assert forall m :: 0 <= m < k + 1 ==> ParseInt(rows[idx[m]].code).Some? by {
              forall m | 0 <= m < k + 1
                ensures ParseInt(rows[idx[m]].code).Some?
              {
                if m > 0 {
                  assert idx[m] == idx[1..][m - 1];
                }
              }
            }
            assert idx[k + 1] == idx[1..][k];
          }
          Err(rest.error)
        else
          Ok([Line(code, row.description, 1)] + rest.value)
  }

  /** Opening the quantities window. It is refused when no employee is
      selected, then when no row is checked; otherwise it lists the checked
      rows in tree order, each with quantity 1. A checked row whose code is
      not an integer makes the opening fail. */
  function OpenDraft(employee: Option<Employee>, tree: Tree): (r: Result<Draft, DraftError>)
    ensures employee.None? ==> r == Err(NoEmployee)
    ensures employee.Some? && Chosen(tree) == {} ==> r == Err(NothingChecked)
    ensures r.Ok? <==> (employee.Some? && Chosen(tree) != {}
      && forall i :: 0 <= i < |tree.rows| && tree.rows[i].checked ==> ParseInt(tree.rows[i].code).Some?)
    ensures r.Ok? ==> r.value.employee == employee.value && Agrees(r.value)
    ensures r.Ok? ==> var idx := CheckedIndices(tree.rows);
      && |r.value.lines| == |idx|
      && forall k :: 0 <= k < |idx| ==>
        && Some(r.value.lines[k].code) == ParseInt(tree.rows[idx[k]].code)
        && r.value.lines[k].description == tree.rows[idx[k]].description
        && r.value.lines[k].qty == 1
  {
    if employee.None? then Err(NoEmployee)
    else
      var idx := CheckedIndices(tree.rows);
      if idx == [] then
        assert forall i :: 0 <= i < |tree.rows| ==> !tree.rows[i].checked;
        Err(NothingChecked)
      else
        assert idx[0] in Chosen(tree);
        BuildCheckedLinesOk(tree.rows);
        match BuildLines(tree.rows, idx)
        case Err(e) => Err(e)
        case Ok(lines) => Ok(Draft(employee.value, lines, seq(|lines|, _ => 1)))
  }

  /** The lines of the checked rows can be built exactly when every checked
      row's code is an integer. */
  lemma BuildCheckedLinesOk(rows: seq<Row>)
    ensures BuildLines(rows, CheckedIndices(rows)).Ok?
      <==> forall i :: 0 <= i < |rows| && rows[i].checked ==> ParseInt(rows[i].code).Some?
  {
    var idx := CheckedIndices(rows);
    if BuildLines(rows, idx).Ok? {
      forall i | 0 <= i < |rows| && rows[i].checked
        ensures ParseInt(rows[i].code).Some?
      {
        var k :| 0 <= k < |idx| && idx[k] == i;
      }
    }
  }

  /** The set of elements of a sequence of row positions. */
  function Elems(s: seq<nat>): set<nat> {
    set x | x in s
  }

  /** A strictly increasing sequence has as many elements as the set of its elements. */
  lemma {:induction false} IncreasingCardinality(idx: seq<nat>)
    requires forall k, m :: 0 <= k < m < |idx| ==> idx[k] < idx[m]
    ensures |Elems(idx)| == |idx|
    decreases |idx|
  {
    if idx != [] {
      var front := idx[..|idx| - 1];
      assert forall k :: 0 <= k < |front| ==> front[k] == idx[k];
      IncreasingCardinality(front);
      var last := idx[|idx| - 1];
      assert last !in Elems(front) by {
        forall k | 0 <= k < |front| ensures front[k] != last {
          assert front[k] == idx[k];
        }
      }
      assert Elems(idx) == Elems(front) + {last} by {
        assert idx == front + [last];
      }
    }
  }

  /** When the two views of the tree agree, an opened draft has one line per
      selected row, taken in tree order. */
  lemma DraftFollowsSelection(employee: Option<Employee>, tree: Tree)
    requires Consistent(tree)
    requires OpenDraft(employee, tree).Ok?
    ensures Elems(CheckedIndices(tree.rows)) == tree.selection
    ensures |OpenDraft(employee, tree).value.lines| == |tree.selection|
  {
    var idx := CheckedIndices(tree.rows);
    IncreasingCardinality(idx);
    assert Elems(idx) == tree.selection;
  }

  /** The quantity typed into the draft window: stripped, an empty entry
      counts as "0", and anything that is not a non-negative integer is refused. */
  function ParseQuantity(text: string): (r: Result<nat, DraftError>)
    ensures r.Err? ==> r.error == InvalidQuantity(text)
    ensures AllWhitespace(text) ==> r == Ok(0)
    ensures !AllWhitespace(text) ==>
      (r.Ok? <==> IsIntegerLiteral(Strip(text)) && ParseInt(Strip(text)).value >= 0)
    ensures r.Ok? && !AllWhitespace(text) ==> ParseInt(Strip(text)) == Some(r.value as int)
  {
    var stripped := Strip(text);
    var entry := if stripped == [] then "0" else stripped;
    ZeroReadsAsZero();
    match ParseInt(entry)
    case None => Err(InvalidQuantity(text))
    case Some(q) => if q < 0 then Err(InvalidQuantity(text)) else Ok(q)
  }

  /** A non-negative quantity written in decimal, with any whitespace around
      it, is read back as itself. */
  lemma QuantityRoundTrip(pre: string, n: nat, post: string)
    requires AllWhitespace(pre) && AllWhitespace(post)
    ensures ParseQuantity(pre + IntToString(n) + post) == Ok(n)
  {
    IntToStringUnpadded(n);
    StripPadded(pre, IntToString(n), post);
    IntToStringRoundTrip(n);
  }

  /** A negative quantity is refused. */
  lemma NegativeQuantityRefused(pre: string, i: int, post: string)
    requires AllWhitespace(pre) && AllWhitespace(post) && i < 0
    ensures ParseQuantity(pre + IntToString(i) + post) == Err(InvalidQuantity(pre + IntToString(i) + post))
  {
    IntToStringUnpadded(i);
    StripPadded(pre, IntToString(i), post);
    IntToStringRoundTrip(i);
  }

  /** Text with a character other than a digit after its first character is
      refused, which covers fractions such as "1.5". */
  lemma NonDigitQuantityRefused(text: string, k: nat)
    requires !AllWhitespace(text)
    requires 0 < k < |Strip(text)| && !IsDigit(Strip(text)[k])
    ensures ParseQuantity(text).Err?
  {
    var st := Strip(text);
    assert !IsIntegerLiteral(st) by {
      if st[0] == '+' || st[0] == '-' {
        assert st[1..][k - 1] == st[k];
      }
    }
  }

  /** An entry that is already stripped reads as the integer it spells,
      refused when negative. */
  lemma ReadsAs(text: string, v: int)
    requires Strip(text) == text && text != [] && ParseInt(text) == Some(v)
    ensures ParseQuantity(text) == (if v < 0 then Err(InvalidQuantity(text)) else Ok(v))
  {
  }

  /** "3" is accepted as 3. */
  lemma Three()
    ensures ParseQuantity("3") == Ok(3)
  {
    ReadsAs("3", 3);
  }

  /** "42" is accepted as 42. */
  lemma FortyTwo()
    ensures ParseQuantity("42") == Ok(42)
  {
    assert NatToString(42) == "42" by {
      assert NatToString(4) == "4";
    }
    QuantityRoundTrip("", 42, "");
    assert "" + "42" + "" == "42";
  }

  /** Text without whitespace is its own strip. */
  lemma Unpadded(t: string)
    requires t != [] && forall k :: 0 <= k < |t| ==> !IsWhitespace(t[k])
    ensures Strip(t) == t
  {
    StripPadded("", t, "");
    assert "" + t + "" == t;
  }

  /** An empty or blank entry reads as 0. */
  lemma BlankExamples()
    ensures ParseQuantity("") == Ok(0) && ParseQuantity("  ") == Ok(0)
  {
  }

  /** Letters are refused. The text is a parameter fixed by the precondition
      rather than a literal in the ensures, which keeps the proof small. */
  lemma LettersRefused(t: string)
    requires t == "abc"
    ensures ParseQuantity(t).Err?
  {
    assert !IsWhitespace(t[0]) && !IsWhitespace(t[1]) && !IsWhitespace(t[2]);
    Unpadded(t);
    assert !IsDigit(t[0]) && t[0] != '+' && t[0] != '-';
    RefusedAsText(t);
  }

  /** A fraction is refused (the text is fixed as in `LettersRefused`). */
  lemma FractionRefused(t: string)
    requires t == "1.5"
    ensures ParseQuantity(t).Err?
  {
    assert !IsWhitespace(t[0]) && !IsWhitespace(t[1]) && !IsWhitespace(t[2]);
    Unpadded(t);
    assert !IsDigit(t[1]) && t[0] != '+' && t[0] != '-';
    RefusedAsText(t);
  }

  /** A negative number is refused. */
  lemma MinusOne()
    ensures ParseQuantity("-1").Err?
  {
    MinusOneSpelling();
    MinusOneRefused();
    assert "" + "-1" + "" == "-1";
  }

  lemma MinusOneSpelling()
    ensures IntToString(-1) == "-1"
  {
    assert NatToString(1) == "1";
  }

  lemma MinusOneRefused()
    ensures ParseQuantity("" + IntToString(-1) + "").Err?
  {
    NegativeQuantityRefused("", -1, "");
  }

  /** An entry that is already stripped and is not an integer is refused. */
  lemma RefusedAsText(text: string)
    requires Strip(text) == text && text != [] && ParseInt(text) == None
    ensures ParseQuantity(text).Err?
  {
  }

  /** The first line whose code is `code`, as the program's `for … break` finds it. */
  function FirstWithCode(lines: seq<Line>, code: int): (r: Option<nat>)
    ensures r.Some? ==> (r.value < |lines| && lines[r.value].code == code
      && forall m :: 0 <= m < r.value ==> lines[m].code != code)
    ensures r.None? ==> forall m :: 0 <= m < |lines| ==> lines[m].code != code
    decreases |lines|
  {
    if lines == [] then None
    else if lines[0].code == code then Some(0)
    else
      match FirstWithCode(lines[1..], code)
      case None => None
      case Some(j) => Some(j + 1)
  }

  /** Editing the quantity of row `row` of the draft window, as written: the
      window shows the new quantity on that row, but the quantity is stored on
      the first line that has the same code, which is another line when two
      lines share a code. */
  function EditByCode(d: Draft, row: nat, text: string): (r: Result<Draft, DraftError>)
    requires |d.shown| == |d.lines| && row < |d.lines|
    ensures r.Err? <==> ParseQuantity(text).Err?
    ensures r.Err? ==> r.error == InvalidQuantity(text)
    ensures r.Ok? ==> var q := ParseQuantity(text).value;
      && r.value.employee == d.employee
      && r.value.shown == d.shown[row := q]
      && |r.value.lines| == |d.lines|
      && exists j :: (0 <= j <= row && j == FirstWithCode(d.lines, d.lines[row].code).value
        && r.value.lines == d.lines[j := d.lines[j].(qty := q)])
  {
    match ParseQuantity(text)
    case Err(e) => Err(e)
    case Ok(q) =>
      var j := FirstWithCode(d.lines, d.lines[row].code).value;
      Ok(Draft(d.employee, d.lines[j := d.lines[j].(qty := q)], d.shown[row := q]))
  }

  /** Editing the quantity of row `row`, corrected: the quantity is stored on
      the line of that row. */
  function EditAt(d: Draft, row: nat, text: string): (r: Result<Draft, DraftError>)
    requires |d.shown| == |d.lines| && row < |d.lines|
    ensures r.Err? <==> ParseQuantity(text).Err?
    ensures r.Err? ==> r.error == InvalidQuantity(text)
    ensures r.Ok? ==> var q := ParseQuantity(text).value;
      && r.value.employee == d.employee
      && |r.value.lines| == |d.lines|
      && r.value.lines[row] == d.lines[row].(qty := q)
      && (forall m :: 0 <= m < |d.lines| && m != row ==> r.value.lines[m] == d.lines[m])
    ensures r.Ok? && Agrees(d) ==> Agrees(r.value)
  {
    match ParseQuantity(text)
    case Err(e) => Err(e)
    case Ok(q) =>
      var e := Draft(d.employee, d.lines[row := d.lines[row].(qty := q)], d.shown[row := q]);
      assert forall m :: 0 <= m < |d.lines| && m != row ==> e.lines[m] == d.lines[m] && e.shown[m] == d.shown[m];
      Ok(e)
  }

  predicate UniqueCodes(lines: seq<Line>) {
    forall i, j :: 0 <= i < j < |lines| ==> lines[i].code != lines[j].code
  }

  /** With distinct codes the program's edit is the corrected one. */
  lemma EditByCodeIsEditAtWhenCodesUnique(d: Draft, row: nat, text: string)
    requires |d.shown| == |d.lines| && row < |d.lines|
    requires UniqueCodes(d.lines)
    ensures EditByCode(d, row, text) == EditAt(d, row, text)
  {
    var j := FirstWithCode(d.lines, d.lines[row].code).value;
    assert j == row;
  }

  /** When an earlier line has the same code as the edited row, a quantity
      different from the row's current one is stored on the earlier line: the
      window then shows a quantity the draft does not hold. */
  lemma EditByCodeLosesDuplicateEdit(d: Draft, row: nat, j: nat, text: string)
    requires Agrees(d) && row < |d.lines|
    requires j < row && d.lines[j].code == d.lines[row].code
    requires ParseQuantity(text).Ok? && ParseQuantity(text).value != d.lines[row].qty
    ensures EditByCode(d, row, text).Ok?
    ensures EditByCode(d, row, text).value.lines[row] == d.lines[row]
    ensures !Agrees(EditByCode(d, row, text).value)
  {
    var r := EditByCode(d, row, text).value;
    var first := FirstWithCode(d.lines, d.lines[row].code).value;
    assert first <= j;
    assert r.shown[row] != r.lines[row].qty;
  }

  /** A run of quantity edits in the draft window with the corrected edit,
      each the row edited and the text typed. A refused entry leaves the draft
      as it was (the window keeps the entry open and warns); a row that does
      not exist is ignored. */
  function ApplyEdits(d: Draft, edits: seq<(nat, string)>): (r: Draft)
    requires |d.shown| == |d.lines|
    ensures r.employee == d.employee && |r.lines| == |d.lines| && |r.shown| == |d.shown|
    ensures forall i :: 0 <= i < |d.lines| ==>
      r.lines[i].code == d.lines[i].code && r.lines[i].description == d.lines[i].description
    ensures Agrees(d) ==> Agrees(r)
    decreases |edits|
  {
    if edits == [] then d
    else
      var (row, text) := edits[0];
      var next := if row < |d.lines| && EditAt(d, row, text).Ok? then EditAt(d, row, text).value else d;
      ApplyEdits(next, edits[1..])
  }

  /** With the corrected edit, the last accepted entry for a row is the
      quantity that row ends with. */
  lemma {:induction false} LastEditWins(d: Draft, edits: seq<(nat, string)>, row: nat, text: string)
    requires |d.shown| == |d.lines| && row < |d.lines| && ParseQuantity(text).Ok?
    requires forall k :: 0 <= k < |edits| ==> edits[k].0 != row
    ensures ApplyEdits(d, [(row, text)] + edits).lines[row].qty == ParseQuantity(text).value
    decreases |edits|
  {
    var d' := EditAt(d, row, text).value;
    assert ([(row, text)] + edits)[0] == (row, text);
    assert ([(row, text)] + edits)[1..] == edits;
    assert ApplyEdits(d, [(row, text)] + edits) == ApplyEdits(d', edits);
    assert d'.lines[row].qty == ParseQuantity(text).value;
    OtherEditsKeepRow(d', edits, row);
  }

  /** With the corrected edit, edits of other rows leave a row's line alone. */
  lemma {:induction false} OtherEditsKeepRow(d: Draft, edits: seq<(nat, string)>, row: nat)
    requires |d.shown| == |d.lines| && row < |d.lines|
    requires forall k :: 0 <= k < |edits| ==> edits[k].0 != row
    ensures ApplyEdits(d, edits).lines[row] == d.lines[row]
    decreases |edits|
  {
    if edits != [] {
      var (r, text) := edits[0];
      var next := if r < |d.lines| && EditAt(d, r, text).Ok? then EditAt(d, r, text).value else d;
      OtherEditsKeepRow(next, edits[1..], row);
    }
  }

  /** The same run with the program's edit, which stores each quantity on the
      first line with the edited row's code. */
  function ApplyEditsAsWritten(d: Draft, edits: seq<(nat, string)>): (r: Draft)
    requires |d.shown| == |d.lines|
    ensures r.employee == d.employee && |r.lines| == |d.lines| && |r.shown| == |d.shown|
    ensures forall i :: 0 <= i < |d.lines| ==>
      r.lines[i].code == d.lines[i].code && r.lines[i].description == d.lines[i].description
    decreases |edits|
  {
    if edits == [] then d
    else
      var (row, text) := edits[0];
      var next := if row < |d.lines| && EditByCode(d, row, text).Ok? then EditByCode(d, row, text).value else d;
      ApplyEditsAsWritten(next, edits[1..])
  }

  /** With distinct codes the program's run of edits is the corrected run, so
      it keeps the window in agreement with the lines. */
  lemma {:induction false} AsWrittenRunWhenCodesUnique(d: Draft, edits: seq<(nat, string)>)
    requires |d.shown| == |d.lines| && UniqueCodes(d.lines)
    ensures ApplyEditsAsWritten(d, edits) == ApplyEdits(d, edits)
    ensures Agrees(d) ==> Agrees(ApplyEditsAsWritten(d, edits))
    decreases |edits|
  {
    if edits != [] {
      var (row, text) := edits[0];
      var next := if row < |d.lines| && EditAt(d, row, text).Ok? then EditAt(d, row, text).value else d;
      if row < |d.lines| {
        EditByCodeIsEditAtWhenCodesUnique(d, row, text);
        EditAtKeepsCodes(d, row, text);
      }
      assert UniqueCodes(next.lines) && |next.shown| == |next.lines|;
      AsWrittenRunWhenCodesUnique(next, edits[1..]);
    }
  }

  /** The corrected edit keeps every code, so distinct codes stay distinct. */
  lemma EditAtKeepsCodes(d: Draft, row: nat, text: string)
    requires |d.shown| == |d.lines| && row < |d.lines|
    ensures EditAt(d, row, text).Ok? ==>
      forall m :: 0 <= m < |d.lines| ==> EditAt(d, row, text).value.lines[m].code == d.lines[m].code
    ensures EditAt(d, row, text).Ok? && UniqueCodes(d.lines) ==> UniqueCodes(EditAt(d, row, text).value.lines)
  {
    var r := EditAt(d, row, text);
    if r.Ok? {
      var e := r.value;
      assert e.lines[row].code == d.lines[row].code;
      assert forall m :: 0 <= m < |d.lines| ==> e.lines[m].code == d.lines[m].code;
    }
  }

  /** With distinct codes, the program's run also ends with the last accepted
      entry for a row as that row's quantity. */
  lemma LastEditWinsAsWritten(d: Draft, edits: seq<(nat, string)>, row: nat, text: string)
    requires |d.shown| == |d.lines| && row < |d.lines| && ParseQuantity(text).Ok?
    requires UniqueCodes(d.lines)
    requires forall k :: 0 <= k < |edits| ==> edits[k].0 != row
    ensures ApplyEditsAsWritten(d, [(row, text)] + edits).lines[row].qty == ParseQuantity(text).value
  {
    AsWrittenRunWhenCodesUnique(d, [(row, text)] + edits);
    LastEditWins(d, edits, row, text);
  }

  /** The lines with a quantity above zero, in their original order. */
  function Positive(lines: seq<Line>): (r: seq<Line>)
    ensures |r| <= |lines|
    ensures forall x :: x in r <==> x in lines && x.qty > 0
    decreases |lines|
  {
    if lines == [] then []
    else (if lines[0].qty > 0 then [lines[0]] else []) + Positive(lines[1..])
  }

  /** Filtering distributes over concatenation, so relative order is kept. */
  lemma {:induction false} PositiveAppend(a: seq<Line>, b: seq<Line>)
    ensures Positive(a + b) == Positive(a) + Positive(b)
    decreases |a|
  {
    if a == [] {
      assert a + b == b;
    } else {
      assert (a + b)[1..] == a[1..] + b;
      PositiveAppend(a[1..], b);
    }
  }

  /** Finalizing the draft: lines with quantity zero are dropped, and an
      issuance with nothing left is refused. */
  function Finalize(lines: seq<Line>): (r: Result<seq<Line>, DraftError>)
    ensures r.Err? <==> forall i :: 0 <= i < |lines| ==> lines[i].qty == 0
    ensures r.Err? ==> r.error == NothingToDeliver
    ensures r.Ok? ==> r.value == Positive(lines) && r.value != []
    ensures r.Ok? ==> forall k :: 0 <= k < |r.value| ==> r.value[k].qty > 0
  {
    var kept := Positive(lines);
    if kept == [] then
      assert forall i :: 0 <= i < |lines| ==> lines[i].qty == 0 by {
        forall i | 0 <= i < |lines| ensures lines[i].qty == 0 {
          assert lines[i] in lines;
        }
      }
      Err(NothingToDeliver)
    else
      assert kept[0] in lines;
      Ok(kept)
  }

  /** Quantities 0, 2, 0, 5 commit the second and the fourth line, in that order. */
  lemma FinalizeExample(a: Line, b: Line, c: Line, d: Line)
    requires a.qty == 0 && b.qty == 2 && c.qty == 0 && d.qty == 5
    ensures Finalize([a, b, c, d]) == Ok([b, d])
  {
    var s := [a, b, c, d];
    assert s[1..] == [b, c, d] && s[1..][1..] == [c, d] && s[1..][1..][1..] == [d];
    assert Positive([d]) == [d] by {
      assert [d][1..] == [];
    }
    assert Positive([c, d]) == [d];
    assert Positive([b, c, d]) == [b, d];
    assert Positive(s) == [b, d];
  }
}
