/**
  The delivery receipt: the HTML item table built from the committed lines,
  and the substitution of the four placeholders of the receipt template in
  the fixed order employee name, company, date, item table, into a template
  that may hold its placeholders anywhere and any number of times. Values
  are inserted as they are, without HTML escaping.

  The table's markup is kept in a `Layout` record so that its structure can be
  stated once for any markup and then applied to the program's own.
 */
module Receipt {

  import opened Text
  import opened Replace
  import opened LineItems

  /** The fixed text around the rows and around the three cells of a row. */
  datatype Layout = Layout(
    header: string,
    codeOpen: string,
    descriptionOpen: string,
    quantityOpen: string,
    rowClose: string,
    footer: string)

  /** The markup of the receipt's item table. */
  const Html: Layout := Layout(
    "\n"
    + "        <table border=\"1\" cellpadding=\"8\" cellspacing=\"0\" style=\"width:100%; border-collapse: collapse; margin-top: 20px;\">\n"
    + "            <thead>\n"
    + "                <tr style=\"background-color: #f0f0f0;\">\n"
    + "                    <th style=\"text-align: center;\">C\U{F3}digo</th>\n"
    + "                    <th style=\"text-align: left;\">Descri\U{E7}\U{E3}o do EPI</th>\n"
    + "                    <th style=\"text-align: center;\">Quantidade</th>\n"
    + "                </tr>\n"
    + "            </thead>\n"
    + "            <tbody>\n"
    + "        ",
    "\n"
    + "                <tr>\n"
    + "                    <td style=\"text-align: center;\">",
    "</td>\n"
    + "                    <td>",
    "</td>\n"
    + "                    <td style=\"text-align: center;\">",
    "</td>\n"
    + "                </tr>\n"
    + "            ",
    "\n"
    + "            </tbody>\n"
    + "        </table>\n"
    + "        ")

  /** The row of one line: code, description and quantity, each spelled as
      Python's `str` spells it. */
  function RowOf(layout: Layout, l: Line): string {
    layout.codeOpen + IntToString(l.code)
    + layout.descriptionOpen + l.description
    + layout.quantityOpen + IntToString(l.qty)
    + layout.rowClose
  }

  function RowsOf(layout: Layout, lines: seq<Line>): string
    decreases |lines|
  {
    if lines == [] then "" else RowsOf(layout, lines[..|lines| - 1]) + RowOf(layout, lines[|lines| - 1])
  }

  function TableOf(layout: Layout, lines: seq<Line>): string {
    layout.header + RowsOf(layout, lines) + layout.footer
  }

  /** The receipt's item table. */
  function Table(lines: seq<Line>): string {
    TableOf(Html, lines)
  }

  /** The rows of two runs of lines are the rows of the first run followed by
      the rows of the second. */
  lemma {:induction false} RowsAppend(layout: Layout, a: seq<Line>, b: seq<Line>)
    ensures RowsOf(layout, a + b) == RowsOf(layout, a) + RowsOf(layout, b)
    decreases |b|
  {
    if b == [] {
      assert a + b == a;
    } else {
      var b' := b[..|b| - 1];
      assert (a + b)[..|a + b| - 1] == a + b';
      assert (a + b)[|a + b| - 1] == b[|b| - 1];
      RowsAppend(layout, a, b');
      var x := RowOf(layout, b[|b| - 1]);
      Associative(RowsOf(layout, a), RowsOf(layout, b'), x);
    }
  }

  /** The table is the header, one row per line in the order given, and the
      footer: line `k`'s row sits between the rows of the lines before it and
      the rows of the lines after it. */
  lemma TableRowAt(layout: Layout, lines: seq<Line>, k: nat)
    requires k < |lines|
    ensures TableOf(layout, lines)
      == layout.header + RowsOf(layout, lines[..k]) + RowOf(layout, lines[k]) + RowsOf(layout, lines[k + 1..]) + layout.footer
  {
    assert lines == lines[..k] + [lines[k]] + lines[k + 1..];
    RowsAppend(layout, lines[..k] + [lines[k]], lines[k + 1..]);
    RowsAppend(layout, lines[..k], [lines[k]]);
    assert RowsOf(layout, [lines[k]]) == RowOf(layout, lines[k]) by {
      assert [lines[k]][..0] == [];
    }
    var x, y, z := RowsOf(layout, lines[..k]), RowOf(layout, lines[k]), RowsOf(layout, lines[k + 1..]);
    Associative(layout.header, x + y, z);
    Associative(layout.header, x, y);
  }

  lemma OccursInMiddle(a: string, x: string, b: string)
    ensures Occurs(a + x + b, x)
  {
    assert (a + x + b)[|a|..|a| + |x|] == x;
    assert MatchAt(a + x + b, x, |a|);
  }

  /** An occurrence stays an occurrence when text is added on either side. */
  lemma OccursWithin(a: string, m: string, b: string, x: string)
    requires Occurs(m, x)
    ensures Occurs(a + m + b, x)
  {
    var i: nat :| i <= |m| && MatchAt(m, x, i);
    assert (a + m + b)[|a| + i..|a| + i + |x|] == m[i..i + |x|];
    assert MatchAt(a + m + b, x, |a| + i);
  }

  lemma OccursAtEnd(s: string, x: string)
    ensures Occurs(s + x, x)
  {
    assert (s + x)[|s|..|s| + |x|] == x;
    assert MatchAt(s + x, x, |s|);
  }

  lemma OccursExtend(s: string, t: string, x: string)
    requires Occurs(s, x)
    ensures Occurs(s + t, x)
  {
    var i: nat :| i <= |s| && MatchAt(s, x, i);
    assert (s + t)[i..i + |x|] == s[i..i + |x|];
    assert MatchAt(s + t, x, i);
  }

  /** A row carries its line's code, description and quantity verbatim. */
  lemma RowShowsLine(layout: Layout, l: Line)
    ensures Occurs(RowOf(layout, l), IntToString(l.code))
    ensures Occurs(RowOf(layout, l), l.description)
    ensures Occurs(RowOf(layout, l), IntToString(l.qty))
  {
    var code, qty := IntToString(l.code), IntToString(l.qty);
    var co, a, b, c := layout.codeOpen, layout.descriptionOpen, layout.quantityOpen, layout.rowClose;
    var s1 := co + code;
    var s2 := s1 + a;
    var s3 := s2 + l.description;
    var s4 := s3 + b;
    var s5 := s4 + qty;
    assert RowOf(layout, l) == s5 + c;
    OccursAtEnd(co, code);
    OccursExtend(s1, a, code);
    OccursExtend(s2, l.description, code);
    OccursExtend(s3, b, code);
    OccursExtend(s4, qty, code);
    OccursExtend(s5, c, code);
    OccursAtEnd(s2, l.description);
    OccursExtend(s3, b, l.description);
    OccursExtend(s4, qty, l.description);
    OccursExtend(s5, c, l.description);
    OccursAtEnd(s4, qty);
    OccursExtend(s5, c, qty);
  }

  /** The table carries every line's row, cells in place. */
  lemma TableShowsRow(layout: Layout, lines: seq<Line>, k: nat)
    requires k < |lines|
    ensures Occurs(TableOf(layout, lines), RowOf(layout, lines[k]))
  {
    TableRowAt(layout, lines, k);
    var head := layout.header + RowsOf(layout, lines[..k]);
    var row := RowOf(layout, lines[k]);
    var tail := RowsOf(layout, lines[k + 1..]) + layout.footer;
    Associative(head + row, RowsOf(layout, lines[k + 1..]), layout.footer);
    OccursInMiddle(head, row, tail);
  }

  /** The table carries every line's code, description and quantity verbatim. */
  lemma TableShowsLine(layout: Layout, lines: seq<Line>, k: nat)
    requires k < |lines|
    ensures Occurs(TableOf(layout, lines), IntToString(lines[k].code))
    ensures Occurs(TableOf(layout, lines), lines[k].description)
    ensures Occurs(TableOf(layout, lines), IntToString(lines[k].qty))
  {
    TableRowAt(layout, lines, k);
    var head := layout.header + RowsOf(layout, lines[..k]);
    var row := RowOf(layout, lines[k]);
    var tail := RowsOf(layout, lines[k + 1..]) + layout.footer;
    Associative(head + row, RowsOf(layout, lines[k + 1..]), layout.footer);
    RowShowsLine(layout, lines[k]);
    OccursWithin(head, row, tail, IntToString(lines[k].code));
    OccursWithin(head, row, tail, lines[k].description);
    OccursWithin(head, row, tail, IntToString(lines[k].qty));
  }

  /** A placeholder of the template: a key between double braces. */
  function Placeholder(key: string): string {
    "{{" + key + "}}"
  }

  /** A placeholder key: not empty and without braces. */
  predicate IsKey(key: string) {
    key != [] && forall k :: 0 <= k < |key| ==> key[k] != '{' && key[k] != '}'
  }

  const NameKey: string := "NOME_FUNCIONARIO"
  const CompanyKey: string := "NOME_DA_EMPRESA"
  const DateKey: string := "DATA_HOJE"
  const TableKey: string := "TABELA_DE_ITENS"

  /** The keys in the order the receipt substitutes them. */
  const Keys: seq<string> := [NameKey, CompanyKey, DateKey, TableKey]

  predicate DistinctKeys(keys: seq<string>) {
    && (forall i :: 0 <= i < |keys| ==> IsKey(keys[i]))
    && (forall i, j :: 0 <= i < j < |keys| ==> keys[i] != keys[j])
  }

  lemma ReceiptKeysDistinct()
    ensures DistinctKeys(Keys)
  {
    assert NameKey[5] != CompanyKey[5];
    assert |NameKey| != |DateKey| && |CompanyKey| != |DateKey| && |DateKey| != |TableKey|;
    assert NameKey[0] != TableKey[0] && CompanyKey[0] != TableKey[0];
  }

  /** Successive `str.replace` calls: each key's placeholder is replaced, at
      every occurrence, in the text the previous replacements produced. */
  function Substitute(s: string, bindings: seq<(string, string)>): string
    decreases |bindings|
  {
    if bindings == [] then s
    else Substitute(ReplaceAll(s, Placeholder(bindings[0].0), bindings[0].1), bindings[1..])
  }

  /** The receipt markup: the template with the name, company, date and table
      placeholders replaced, in that order. */
  function Render(template: string, name: string, company: string, date: string, lines: seq<Line>): string {
    var withName := ReplaceAll(template, Placeholder(NameKey), name);
    var withCompany := ReplaceAll(withName, Placeholder(CompanyKey), company);
    var withDate := ReplaceAll(withCompany, Placeholder(DateKey), date);
    ReplaceAll(withDate, Placeholder(TableKey), Table(lines))
  }

  function Zip(keys: seq<string>, values: seq<string>): (r: seq<(string, string)>)
    requires |keys| == |values|
    ensures |r| == |keys| && forall i :: 0 <= i < |r| ==> r[i] == (keys[i], values[i])
  {
    seq(|keys|, i requires 0 <= i < |keys| => (keys[i], values[i]))
  }

  /** The values the receipt puts in place of `Keys`. */
  function Values(name: string, company: string, date: string, lines: seq<Line>): seq<string> {
    [name, company, date, Table(lines)]
  }

  /** The four replacements of the receipt are the substitution of its four
      keys, one after the other. */
  lemma RenderIsSubstitute(template: string, name: string, company: string, date: string, lines: seq<Line>)
    ensures Render(template, name, company, date, lines)
      == Substitute(template, Zip(Keys, Values(name, company, date, lines)))
  {
    var b := Zip(Keys, Values(name, company, date, lines));
    var s1 := ReplaceAll(template, Placeholder(NameKey), name);
    var s2 := ReplaceAll(s1, Placeholder(CompanyKey), company);
    var s3 := ReplaceAll(s2, Placeholder(DateKey), date);
    var s4 := ReplaceAll(s3, Placeholder(TableKey), Table(lines));
    assert b[0] == (NameKey, name) && b[1] == (CompanyKey, company);
    assert b[2] == (DateKey, date) && b[3] == (TableKey, Table(lines));
    assert b[1..][1..][1..][1..] == [];
    assert Substitute(s4, b[1..][1..][1..][1..]) == s4;
    assert Substitute(s3, b[1..][1..][1..]) == s4;
    assert Substitute(s2, b[1..][1..]) == s4;
    assert Substitute(s1, b[1..]) == s4;
  }

  /** No placeholder can start inside the text, whatever follows it: every
      opening brace is followed, within the text, by a character other than
      an opening brace. Text without braces and style rules such as
      `body { margin: 0 }` are inert; text holding `{{` or ending in `{` is not. */
  predicate Inert(s: string) {
    forall k :: 0 <= k < |s| && s[k] == '{' ==> k + 1 < |s| && s[k + 1] != '{'
  }

  predicate AllInert(ss: seq<string>) {
    forall i :: 0 <= i < |ss| ==> Inert(ss[i])
  }

  /** Text without an opening brace is inert. */
  lemma NoBraceInert(s: string)
    requires forall k :: 0 <= k < |s| ==> s[k] != '{'
    ensures Inert(s)
  {
  }

  /** Inert texts stay inert when put side by side. */
  lemma InertAppend(a: string, b: string)
    requires Inert(a) && Inert(b)
    ensures Inert(a + b)
  {
    forall k | 0 <= k < |a + b| && (a + b)[k] == '{'
      ensures k + 1 < |a + b| && (a + b)[k + 1] != '{'
    {
      if k >= |a| {
        assert (a + b)[k] == b[k - |a|];
        assert k + 1 < |a + b| ==> (a + b)[k + 1] == b[k + 1 - |a|];
      }
    }
  }

  /** A single differing character rules out a match. */
  lemma DifferAt(s: string, p: string, i: nat, k: nat)
    requires k < |p| && (i + k < |s| ==> s[i + k] != p[k])
    ensures !MatchAt(s, p, i)
  {
    if i + |p| <= |s| {
      assert s[i..i + |p|][k] == s[i + k];
    }
  }

  /** No placeholder starts inside inert text. */
  lemma InertNoMatch(a: string, b: string, key: string)
    requires Inert(a)
    ensures forall i: nat :: i < |a| ==> !MatchAt(a + b, Placeholder(key), i)
  {
    forall i: nat | i < |a|
      ensures !MatchAt(a + b, Placeholder(key), i)
    {
      if a[i] == '{' {
        assert (a + b)[i + 1] == a[i + 1];
        DifferAt(a + b, Placeholder(key), i, 1);
      } else {
        DifferAt(a + b, Placeholder(key), i, 0);
      }
    }
  }

  /** Inert text holds no placeholder at all. */
  lemma InertHasNoPlaceholder(s: string, key: string)
    requires Inert(s)
    ensures !Occurs(s, Placeholder(key))
  {
    InertNoMatch(s, "", key);
    assert s + "" == s;
  }

  /** An inert prefix is copied through by every replacement. */
  lemma SkipInert(a: string, b: string, key: string, r: string)
    requires Inert(a)
    ensures ReplaceAll(a + b, Placeholder(key), r) == a + ReplaceAll(b, Placeholder(key), r)
  {
    InertNoMatch(a, b, key);
    ReplaceAllSkip(a, b, Placeholder(key), r);
  }

  /** Inert text passes every replacement unchanged. */
  lemma InertUnchanged(s: string, key: string, r: string)
    requires Inert(s)
    ensures ReplaceAll(s, Placeholder(key), r) == s
  {
    SkipInert(s, "", key, r);
    assert s + "" == s;
  }

  /** One placeholder never matches where another one starts. */
  lemma DistinctPlaceholdersDoNotMatch(x: string, y: string, b: string)
    requires IsKey(x) && IsKey(y) && x != y
    ensures forall i: nat :: i < |Placeholder(x)| ==> !MatchAt(Placeholder(x) + b, Placeholder(y), i)
  {
    var px, py := Placeholder(x), Placeholder(y);
    var s := px + b;
    forall i: nat | i < |px|
      ensures !MatchAt(s, py, i)
    {
      if i == 0 {
        if |y| < |x| {
          DifferAt(s, py, 0, |y| + 2);
        } else if |y| > |x| {
          DifferAt(s, py, 0, |x| + 2);
        } else {
          var k :| 0 <= k < |x| && x[k] != y[k];
          DifferAt(s, py, 0, k + 2);
        }
      } else if i == 1 {
        DifferAt(s, py, 1, 1);
      } else {
        DifferAt(s, py, i, 0);
      }
    }
  }

  /** An inert prefix followed by another key's placeholder is copied through. */
  lemma PassOver(a: string, x: string, b: string, y: string, r: string)
    requires Inert(a) && IsKey(x) && IsKey(y) && x != y
    ensures ReplaceAll(a + Placeholder(x) + b, Placeholder(y), r)
      == a + Placeholder(x) + ReplaceAll(b, Placeholder(y), r)
  {
    var px, py := Placeholder(x), Placeholder(y);
    Associative(a, px, b);
    SkipInert(a, px + b, y, r);
    DistinctPlaceholdersDoNotMatch(x, y, b);
    ReplaceAllSkip(px, b, py, r);
    Associative(a, px, ReplaceAll(b, py, r));
  }

  /** An inert prefix followed by the key's own placeholder: the
      placeholder is replaced and the scan resumes after it. */
  lemma HitAfter(a: string, y: string, b: string, r: string)
    requires Inert(a)
    ensures ReplaceAll(a + Placeholder(y) + b, Placeholder(y), r)
      == a + r + ReplaceAll(b, Placeholder(y), r)
  {
    var py := Placeholder(y);
    Associative(a, py, b);
    SkipInert(a, py + b, y, r);
    ReplaceAllHit(py, b, r);
    Associative(a, r, ReplaceAll(b, py, r));
  }

  /** A template: texts with one placeholder between neighbours. */
  function Fill(texts: seq<string>, keys: seq<string>): string
    requires |texts| == |keys| + 1
    decreases |keys|
  {
    if keys == [] then texts[0] else texts[0] + Placeholder(keys[0]) + Fill(texts[1..], keys[1..])
  }

  /** The same texts with values in place of the placeholders. */
  function Weave(texts: seq<string>, values: seq<string>): string
    requires |texts| == |values| + 1
    decreases |values|
  {
    if values == [] then texts[0] else texts[0] + values[0] + Weave(texts[1..], values[1..])
  }

  /** A position of a template being filled: still the placeholder of a
      key, or already the value put in its place. */
  datatype Slot = Pending(key: string) | Filled(value: string)

  /** What the slots show in the text. */
  function Shown(slots: seq<Slot>): (r: seq<string>)
    ensures |r| == |slots|
  {
    seq(|slots|, i requires 0 <= i < |slots| =>
      if slots[i].Pending? then Placeholder(slots[i].key) else slots[i].value)
  }

  /** The slots of a template: one pending slot per placeholder. */
  function Pendings(keys: seq<string>): (r: seq<Slot>)
    ensures |r| == |keys|
  {
    seq(|keys|, i requires 0 <= i < |keys| => Pending(keys[i]))
  }

  /** Slots a further replacement can pass over: pending slots hold keys and
      filled slots hold inert values. */
  predicate Ready(slots: seq<Slot>) {
    forall i :: 0 <= i < |slots| ==>
      if slots[i].Pending? then IsKey(slots[i].key) else Inert(slots[i].value)
  }

  /** One replacement on the slots: the pending slots of key `y` receive `r`. */
  function Fills(slots: seq<Slot>, y: string, r: string): (f: seq<Slot>)
    ensures |f| == |slots|
  {
    seq(|slots|, i requires 0 <= i < |slots| => if slots[i] == Pending(y) then Filled(r) else slots[i])
  }

  /** The successive replacements on the slots. */
  function FillsAll(slots: seq<Slot>, bindings: seq<(string, string)>): (f: seq<Slot>)
    ensures |f| == |slots|
    decreases |bindings|
  {
    if bindings == [] then slots else FillsAll(Fills(slots, bindings[0].0, bindings[0].1), bindings[1..])
  }

  /** The value of the first binding of `key`, or the key's own placeholder
      when no binding names it. */
  function Lookup(bindings: seq<(string, string)>, key: string): string
    decreases |bindings|
  {
    if bindings == [] then Placeholder(key)
    else if bindings[0].0 == key then bindings[0].1
    else Lookup(bindings[1..], key)
  }

  /** Every key of a template looked up in the bindings. */
  function LookupAll(bindings: seq<(string, string)>, keys: seq<string>): (r: seq<string>)
    ensures |r| == |keys|
  {
    seq(|keys|, i requires 0 <= i < |keys| => Lookup(bindings, keys[i]))
  }

  /** A template is its texts woven with its placeholders. */
  lemma {:induction false} FillIsWeave(texts: seq<string>, keys: seq<string>)
    requires |texts| == |keys| + 1
    ensures Fill(texts, keys) == Weave(texts, Shown(Pendings(keys)))
    decreases |keys|
  {
    if keys != [] {
      FillIsWeave(texts[1..], keys[1..]);
      assert Shown(Pendings(keys))[1..] == Shown(Pendings(keys[1..]));
    }
  }

  /** One replacement over inert texts and ready slots fills exactly the
      pending slots of its key and keeps everything else. */
  lemma {:induction false} ReplaceSlots(texts: seq<string>, slots: seq<Slot>, y: string, r: string)
    requires |texts| == |slots| + 1 && AllInert(texts) && Ready(slots) && IsKey(y)
    ensures ReplaceAll(Weave(texts, Shown(slots)), Placeholder(y), r) == Weave(texts, Shown(Fills(slots, y, r)))
    decreases |slots|
  {
    if slots == [] {
      InertUnchanged(texts[0], y, r);
    } else {
      var shown, after := Shown(slots), Shown(Fills(slots, y, r));
      assert shown[1..] == Shown(slots[1..]);
      assert after[1..] == Shown(Fills(slots[1..], y, r));
      assert Ready(slots[1..]) && AllInert(texts[1..]);
      ReplaceSlots(texts[1..], slots[1..], y, r);
      var rest := Weave(texts[1..], shown[1..]);
      match slots[0]
      case Pending(k) =>
        if k == y {
          HitAfter(texts[0], y, rest, r);
        } else {
          PassOver(texts[0], k, rest, y, r);
        }
      case Filled(v) =>
        InertAppend(texts[0], v);
        SkipInert(texts[0] + v, rest, y, r);
    }
  }

  /** The substitution over inert texts and ready slots is the successive
      filling of the slots, provided every value but the last is inert. */
  lemma {:induction false} SubstituteSlots(texts: seq<string>, slots: seq<Slot>, bindings: seq<(string, string)>)
    requires |texts| == |slots| + 1 && AllInert(texts) && Ready(slots)
    requires forall j :: 0 <= j < |bindings| ==> IsKey(bindings[j].0)
    requires forall j :: 0 <= j < |bindings| - 1 ==> Inert(bindings[j].1)
    ensures Substitute(Weave(texts, Shown(slots)), bindings) == Weave(texts, Shown(FillsAll(slots, bindings)))
    decreases |bindings|
  {
    if bindings != [] {
      var y, r := bindings[0].0, bindings[0].1;
      ReplaceSlots(texts, slots, y, r);
      if |bindings| > 1 {
        assert Inert(r);
        assert Ready(Fills(slots, y, r));
        SubstituteSlots(texts, Fills(slots, y, r), bindings[1..]);
      }
    }
  }

  /** After the successive fillings, a slot that was pending shows the value
      of the first binding of its key, or its placeholder when none names it. */
  lemma {:induction false} FillsAllShows(slots: seq<Slot>, bindings: seq<(string, string)>, i: nat)
    requires i < |slots|
    ensures Shown(FillsAll(slots, bindings))[i]
      == if slots[i].Pending? then Lookup(bindings, slots[i].key) else slots[i].value
    decreases |bindings|
  {
    if bindings != [] {
      FillsAllShows(Fills(slots, bindings[0].0, bindings[0].1), bindings[1..], i);
    }
  }

  /** Substituting into any template, whose placeholders may come in any
      order, repeat, or name keys that no binding names, puts in place of
      each placeholder the value of the first binding of its key, leaves a
      placeholder no binding names as it is, and keeps the texts between,
      provided the texts and every value but the last are inert. */
  lemma SubstituteFill(texts: seq<string>, keys: seq<string>, bindings: seq<(string, string)>)
    requires |texts| == |keys| + 1 && AllInert(texts)
    requires forall i :: 0 <= i < |keys| ==> IsKey(keys[i])
    requires forall j :: 0 <= j < |bindings| ==> IsKey(bindings[j].0)
    requires forall j :: 0 <= j < |bindings| - 1 ==> Inert(bindings[j].1)
    ensures Substitute(Fill(texts, keys), bindings) == Weave(texts, LookupAll(bindings, keys))
  {
    var slots := Pendings(keys);
    FillIsWeave(texts, keys);
    SubstituteSlots(texts, slots, bindings);
    forall i | 0 <= i < |keys|
      ensures Shown(FillsAll(slots, bindings))[i] == LookupAll(bindings, keys)[i]
    {
      FillsAllShows(slots, bindings, i);
    }
    assert Shown(FillsAll(slots, bindings)) == LookupAll(bindings, keys);
  }

  /** Text holding none of the placeholders passes the substitution unchanged. */
  lemma {:induction false} SubstituteWithoutPlaceholders(s: string, bindings: seq<(string, string)>)
    requires forall i :: 0 <= i < |bindings| ==> !Occurs(s, Placeholder(bindings[i].0))
    ensures Substitute(s, bindings) == s
    decreases |bindings|
  {
    if bindings != [] {
      ReplaceAllNoMatch(s, Placeholder(bindings[0].0), bindings[0].1);
      SubstituteWithoutPlaceholders(s, bindings[1..]);
    }
  }

  /** What the receipt puts in place of a key's placeholder: the name,
      company, date or table for the four receipt keys, and the placeholder
      itself for any other key. */
  function ValueOf(key: string, name: string, company: string, date: string, table: string): string {
    if key == NameKey then name
    else if key == CompanyKey then company
    else if key == DateKey then date
    else if key == TableKey then table
    else Placeholder(key)
  }

  /** The values the receipt puts in place of a template's placeholders. */
  function Filling(keys: seq<string>, name: string, company: string, date: string, table: string): (r: seq<string>)
    ensures |r| == |keys|
  {
    seq(|keys|, i requires 0 <= i < |keys| => ValueOf(keys[i], name, company, date, table))
  }

  /** Looking a key up in the receipt's four bindings gives its value. */
  lemma LookupReceipt(key: string, name: string, company: string, date: string, table: string)
    ensures Lookup(Zip(Keys, [name, company, date, table]), key) == ValueOf(key, name, company, date, table)
  {
    var b := Zip(Keys, [name, company, date, table]);
    assert b[0] == (NameKey, name) && b[1] == (CompanyKey, company);
    assert b[2] == (DateKey, date) && b[3] == (TableKey, table);
    assert b[1..][1..][1..][1..] == [];
    assert Lookup(b[1..][1..][1..], key) == if key == TableKey then table else Placeholder(key);
    assert Lookup(b[1..][1..], key) == if key == DateKey then date else Lookup(b[1..][1..][1..], key);
    assert Lookup(b[1..], key) == if key == CompanyKey then company else Lookup(b[1..][1..], key);
  }

  /** Any receipt template: inert text around placeholders of any keys, in
      any order and any number of times. With an inert name, company and date,
      each name, company, date and table placeholder is replaced by its value,
      any other placeholder stays, and the text between is kept. */
  lemma RenderFill(texts: seq<string>, keys: seq<string>, name: string, company: string, date: string, lines: seq<Line>)
    requires |texts| == |keys| + 1 && AllInert(texts)
    requires forall i :: 0 <= i < |keys| ==> IsKey(keys[i])
    requires Inert(name) && Inert(company) && Inert(date)
    ensures Render(Fill(texts, keys), name, company, date, lines)
      == Weave(texts, Filling(keys, name, company, date, Table(lines)))
  {
    var table := Table(lines);
    var b := Zip(Keys, [name, company, date, table]);
    ReceiptKeysDistinct();
    RenderIsSubstitute(Fill(texts, keys), name, company, date, lines);
    assert forall j :: 0 <= j < |b| ==> IsKey(b[j].0);
    assert b[0].1 == name && b[1].1 == company && b[2].1 == date;
    SubstituteFill(texts, keys, b);
    forall i | 0 <= i < |keys|
      ensures LookupAll(b, keys)[i] == Filling(keys, name, company, date, table)[i]
    {
      LookupReceipt(keys[i], name, company, date, table);
    }
    assert LookupAll(b, keys) == Filling(keys, name, company, date, table);
  }

  /** The usual template, holding the name, company, date and table
      placeholders once each in that order, renders to its text with the
      employee's name, the company, the date and the item table in their places. */
  lemma RenderEachOnce(texts: seq<string>, name: string, company: string, date: string, lines: seq<Line>)
    requires |texts| == 5 && AllInert(texts)
    requires Inert(name) && Inert(company) && Inert(date)
    ensures Render(Fill(texts, Keys), name, company, date, lines) == Weave(texts, Values(name, company, date, lines))
  {
    ReceiptKeysDistinct();
    RenderFill(texts, Keys, name, company, date, lines);
    FillingOfKeys(name, company, date, Table(lines));
  }

  /** The four receipt keys, in order, receive the four values. */
  lemma FillingOfKeys(name: string, company: string, date: string, table: string)
    ensures Filling(Keys, name, company, date, table) == [name, company, date, table]
  {
    ValueOfReceiptKeys(name, company, date, table);
  }

  /** A template without any of the four placeholders passes through unchanged. */
  lemma RenderWithoutPlaceholders(template: string, name: string, company: string, date: string, lines: seq<Line>)
    requires forall i :: 0 <= i < |Keys| ==> !Occurs(template, Placeholder(Keys[i]))
    ensures Render(template, name, company, date, lines) == template
  {
    RenderIsSubstitute(template, name, company, date, lines);
    SubstituteWithoutPlaceholders(template, Zip(Keys, Values(name, company, date, lines)));
  }

  /** The replacements run over the text the earlier ones produced: a value
      that spells a later key's placeholder is itself replaced, while one that
      spells an earlier key's placeholder stays as it is. */
  lemma SubstituteOrder(x: string, y: string, v: string, w: string)
    requires IsKey(x) && IsKey(y) && x != y
    ensures Substitute(Placeholder(x), [(x, Placeholder(y)), (y, w)]) == w
    ensures Substitute(Placeholder(y), [(x, v), (y, Placeholder(x))]) == Placeholder(x)
  {
    var px, py := Placeholder(x), Placeholder(y);
    assert px + "" == px && py + "" == py;
    // A value spelling the later key's placeholder.
    ReplaceAllHit(px, "", py);
    assert ReplaceAll(px, px, py) == py;
    ReplaceAllHit(py, "", w);
    assert ReplaceAll(py, py, w) == w;
    assert Substitute(w, []) == w;
    assert [(x, py), (y, w)][1..] == [(y, w)] && [(y, w)][1..] == [];
    assert Substitute(py, [(y, w)]) == w;
    // A value spelling the earlier key's placeholder.
    DistinctPlaceholdersDoNotMatch(y, x, "");
    ReplaceAllSkip(py, "", px, v);
    assert ReplaceAll(py, px, v) == py;
    ReplaceAllHit(py, "", px);
    assert ReplaceAll(py, py, px) == px;
    assert Substitute(px, []) == px;
    assert [(x, v), (y, px)][1..] == [(y, px)] && [(y, px)][1..] == [];
    assert Substitute(py, [(y, px)]) == px;
  }

  /** Text found inside a part of a string is found in the string. */
  lemma OccursTransitive(s: string, m: string, x: string)
    requires Occurs(s, m) && Occurs(m, x)
    ensures Occurs(s, x)
  {
    var i: nat :| i <= |s| && MatchAt(s, m, i);
    var j: nat :| j <= |m| && MatchAt(m, x, j);
    assert forall t :: 0 <= t < |x| ==> s[i + j + t] == m[j + t] == x[t] by {
      forall t | 0 <= t < |x| ensures s[i + j + t] == m[j + t] == x[t] {
        assert s[i..i + |m|][j + t] == s[i + j + t];
        assert m[j..j + |x|][t] == m[j + t];
      }
    }
    assert s[i + j..i + j + |x|] == x;
    assert MatchAt(s, x, i + j);
  }

  /** Every value appears in the woven text. */
  lemma {:induction false} WeaveShowsValues(texts: seq<string>, values: seq<string>, k: nat)
    requires |texts| == |values| + 1 && k < |values|
    ensures Occurs(Weave(texts, values), values[k])
    decreases k
  {
    var rest := Weave(texts[1..], values[1..]);
    if k == 0 {
      OccursInMiddle(texts[0], values[0], rest);
    } else {
      WeaveShowsValues(texts[1..], values[1..], k - 1);
      assert values[1..][k - 1] == values[k];
      OccursWithin(texts[0] + values[0], rest, "", values[k]);
      assert texts[0] + values[0] + rest + "" == Weave(texts, values);
    }
  }

  /** Inert texts woven with inert values give inert text. */
  lemma {:induction false} WeaveInert(texts: seq<string>, values: seq<string>)
    requires |texts| == |values| + 1 && AllInert(texts) && AllInert(values)
    ensures Inert(Weave(texts, values))
    decreases |values|
  {
    if values != [] {
      WeaveInert(texts[1..], values[1..]);
      InertAppend(texts[0], values[0]);
      InertAppend(texts[0] + values[0], Weave(texts[1..], values[1..]));
    }
  }

  /** The markup around the rows and cells holds no `{{` and ends in no `{`. */
  predicate LayoutInert(layout: Layout) {
    && Inert(layout.header) && Inert(layout.codeOpen) && Inert(layout.descriptionOpen)
    && Inert(layout.quantityOpen) && Inert(layout.rowClose) && Inert(layout.footer)
  }

  /** A decimal spelling has no brace. */
  lemma IntToStringInert(i: int)
    ensures Inert(IntToString(i))
  {
    var d := NatToString(if i < 0 then -i else i);
    assert forall k :: 0 <= k < |d| ==> IsDigit(d[k]);
    if i < 0 {
      assert forall k :: 0 < k < |IntToString(i)| ==> IntToString(i)[k] == d[k - 1];
    }
    NoBraceInert(IntToString(i));
  }

  lemma RowInert(layout: Layout, l: Line)
    requires LayoutInert(layout) && Inert(l.description)
    ensures Inert(RowOf(layout, l))
  {
    var code, qty := IntToString(l.code), IntToString(l.qty);
    IntToStringInert(l.code);
    IntToStringInert(l.qty);
    InertAppend(layout.codeOpen, code);
    InertAppend(layout.codeOpen + code, layout.descriptionOpen);
    InertAppend(layout.codeOpen + code + layout.descriptionOpen, l.description);
    InertAppend(layout.codeOpen + code + layout.descriptionOpen + l.description, layout.quantityOpen);
    InertAppend(layout.codeOpen + code + layout.descriptionOpen + l.description + layout.quantityOpen, qty);
    InertAppend(layout.codeOpen + code + layout.descriptionOpen + l.description + layout.quantityOpen + qty, layout.rowClose);
  }

  /** With inert markup and inert descriptions the table is inert. */
  lemma {:induction false} TableInert(layout: Layout, lines: seq<Line>)
    requires LayoutInert(layout)
    requires forall k :: 0 <= k < |lines| ==> Inert(lines[k].description)
    ensures Inert(RowsOf(layout, lines)) && Inert(TableOf(layout, lines))
    decreases |lines|
  {
    if lines != [] {
      var init := lines[..|lines| - 1];
      assert forall k :: 0 <= k < |init| ==> init[k] == lines[k];
      TableInert(layout, init);
      RowInert(layout, lines[|lines| - 1]);
      InertAppend(RowsOf(layout, init), RowOf(layout, lines[|lines| - 1]));
    }
    InertAppend(layout.header, RowsOf(layout, lines));
    InertAppend(layout.header + RowsOf(layout, lines), layout.footer);
  }

  /** A receipt rendered from any template whose placeholders are all receipt
      placeholders, with inert text, name, company, date and table, holds no
      placeholder of any key: every placeholder was filled. */
  lemma RenderFillsEveryPlaceholder(texts: seq<string>, keys: seq<string>, name: string, company: string, date: string, lines: seq<Line>)
    requires |texts| == |keys| + 1 && AllInert(texts)
    requires forall i :: 0 <= i < |keys| ==> keys[i] in Keys
    requires Inert(name) && Inert(company) && Inert(date) && Inert(Table(lines))
    ensures forall key :: !Occurs(Render(Fill(texts, keys), name, company, date, lines), Placeholder(key))
  {
    ReceiptKeysDistinct();
    RenderFill(texts, keys, name, company, date, lines);
    WovenReceiptFilled(texts, keys, name, company, date, Table(lines));
  }

  lemma WovenReceiptFilled(texts: seq<string>, keys: seq<string>, name: string, company: string, date: string, table: string)
    requires |texts| == |keys| + 1 && AllInert(texts)
    requires forall i :: 0 <= i < |keys| ==> keys[i] in Keys
    requires Inert(name) && Inert(company) && Inert(date) && Inert(table)
    ensures forall key :: !Occurs(Weave(texts, Filling(keys, name, company, date, table)), Placeholder(key))
  {
    var values := Filling(keys, name, company, date, table);
    assert AllInert(values);
    WeaveInert(texts, values);
    InertHasNoPlaceholders(Weave(texts, values));
  }

  lemma InertHasNoPlaceholders(s: string)
    requires Inert(s)
    ensures forall key :: !Occurs(s, Placeholder(key))
  {
    forall key
      ensures !Occurs(s, Placeholder(key))
    {
      InertHasNoPlaceholder(s, key);
    }
  }

  /** Text that contains the table shows every line's fields. */
  lemma ShowsLineThroughTable(out: string, lines: seq<Line>, k: nat)
    requires Occurs(out, Table(lines)) && k < |lines|
    ensures Occurs(out, RowOf(Html, lines[k]))
    ensures Occurs(out, IntToString(lines[k].code))
    ensures Occurs(out, lines[k].description)
    ensures Occurs(out, IntToString(lines[k].qty))
  {
    TableShowsLine(Html, lines, k);
    TableShowsRow(Html, lines, k);
    OccursTransitive(out, Table(lines), RowOf(Html, lines[k]));
    OccursTransitive(out, Table(lines), IntToString(lines[k].code));
    OccursTransitive(out, Table(lines), lines[k].description);
    OccursTransitive(out, Table(lines), IntToString(lines[k].qty));
  }

  /** A receipt shows the employee's name, the company, the date and the
      whole table, each wherever its placeholder appears in the template. */
  lemma RenderShowsValues(texts: seq<string>, keys: seq<string>, name: string, company: string, date: string, lines: seq<Line>)
    requires |texts| == |keys| + 1 && AllInert(texts)
    requires forall j :: 0 <= j < |keys| ==> IsKey(keys[j])
    requires Inert(name) && Inert(company) && Inert(date)
    ensures var out := Render(Fill(texts, keys), name, company, date, lines);
      && (NameKey in keys ==> Occurs(out, name))
      && (CompanyKey in keys ==> Occurs(out, company))
      && (DateKey in keys ==> Occurs(out, date))
      && (TableKey in keys ==> Occurs(out, Table(lines)))
  {
    RenderFill(texts, keys, name, company, date, lines);
    WovenShowsValues(texts, keys, name, company, date, Table(lines));
  }

  /** Every receipt key of the template shows its value in the woven text. */
  lemma WovenShowsValues(texts: seq<string>, keys: seq<string>, name: string, company: string, date: string, table: string)
    requires |texts| == |keys| + 1
    ensures var out := Weave(texts, Filling(keys, name, company, date, table));
      && (NameKey in keys ==> Occurs(out, name))
      && (CompanyKey in keys ==> Occurs(out, company))
      && (DateKey in keys ==> Occurs(out, date))
      && (TableKey in keys ==> Occurs(out, table))
  {
    ValueOfReceiptKeys(name, company, date, table);
    if NameKey in keys {
      WovenShowsKey(texts, keys, name, company, date, table, NameKey);
    }
    if CompanyKey in keys {
      WovenShowsKey(texts, keys, name, company, date, table, CompanyKey);
    }
    if DateKey in keys {
      WovenShowsKey(texts, keys, name, company, date, table, DateKey);
    }
    if TableKey in keys {
      WovenShowsKey(texts, keys, name, company, date, table, TableKey);
    }
  }

  lemma WovenShowsKey(texts: seq<string>, keys: seq<string>, name: string, company: string, date: string, table: string, key: string)
    requires |texts| == |keys| + 1 && key in keys
    ensures Occurs(Weave(texts, Filling(keys, name, company, date, table)), ValueOf(key, name, company, date, table))
  {
    var i :| 0 <= i < |keys| && keys[i] == key;
    WeaveShowsValues(texts, Filling(keys, name, company, date, table), i);
  }

  /** The four receipt keys differ from one another. */
  lemma KeysDiffer()
    ensures NameKey != CompanyKey && NameKey != DateKey && NameKey != TableKey
    ensures CompanyKey != DateKey && CompanyKey != TableKey && DateKey != TableKey
  {
    assert |NameKey| == 16 && |CompanyKey| == 15 && |DateKey| == 9 && |TableKey| == 15;
    assert CompanyKey[0] != TableKey[0];
  }

  /** Each receipt key receives its own value. */
  lemma ValueOfReceiptKeys(name: string, company: string, date: string, table: string)
    ensures ValueOf(NameKey, name, company, date, table) == name
    ensures ValueOf(CompanyKey, name, company, date, table) == company
    ensures ValueOf(DateKey, name, company, date, table) == date
    ensures ValueOf(TableKey, name, company, date, table) == table
  {
    KeysDiffer();
  }

  /** ... and, when the template holds the table placeholder, every committed
      line's row, and so its code, description and quantity. */
  lemma RenderShowsLine(texts: seq<string>, keys: seq<string>, name: string, company: string, date: string, lines: seq<Line>, k: nat)
    requires |texts| == |keys| + 1 && AllInert(texts)
    requires forall j :: 0 <= j < |keys| ==> IsKey(keys[j])
    requires Inert(name) && Inert(company) && Inert(date)
    requires TableKey in keys && k < |lines|
    ensures var out := Render(Fill(texts, keys), name, company, date, lines);
      && Occurs(out, RowOf(Html, lines[k]))
      && Occurs(out, IntToString(lines[k].code))
      && Occurs(out, lines[k].description)
      && Occurs(out, IntToString(lines[k].qty))
  {
    RenderShowsValues(texts, keys, name, company, date, lines);
    ShowsLineThroughTable(Render(Fill(texts, keys), name, company, date, lines), lines, k);
  }

  /** Jane Doe of Acme receives item 7, "Gloves", quantity 3: whatever the
      template's layout, as long as it holds the four placeholders, the
      receipt names her and the company, carries the date, and its table
      holds the row with 7, "Gloves" and 3 in the code, description and
      quantity cells. */
  lemma RenderExample(texts: seq<string>, keys: seq<string>, name: string, company: string, date: string, gloves: Line)
    requires |texts| == |keys| + 1 && AllInert(texts)
    requires forall j :: 0 <= j < |keys| ==> IsKey(keys[j])
    requires NameKey in keys && CompanyKey in keys && DateKey in keys && TableKey in keys
    requires name == "Jane Doe" && company == "Acme" && date == "01/02/2030"
    requires gloves == Line(7, "Gloves", 3)
    ensures var out := Render(Fill(texts, keys), name, company, date, [gloves]);
      && Occurs(out, "Jane Doe") && Occurs(out, "Acme") && Occurs(out, "01/02/2030")
      && Occurs(out, Html.codeOpen + "7" + Html.descriptionOpen + "Gloves" + Html.quantityOpen + "3" + Html.rowClose)
  {
    ExampleIsInert(name, company, date);
    ExampleNames(texts, keys, name, company, date, [gloves]);
    ExampleLine(texts, keys, name, company, date, gloves);
  }

  lemma ExampleNames(texts: seq<string>, keys: seq<string>, name: string, company: string, date: string, lines: seq<Line>)
    requires |texts| == |keys| + 1 && AllInert(texts)
    requires forall j :: 0 <= j < |keys| ==> IsKey(keys[j])
    requires NameKey in keys && CompanyKey in keys && DateKey in keys
    requires Inert(name) && Inert(company) && Inert(date)
    ensures var out := Render(Fill(texts, keys), name, company, date, lines);
      Occurs(out, name) && Occurs(out, company) && Occurs(out, date)
  {
    RenderShowsValues(texts, keys, name, company, date, lines);
  }

  lemma ExampleIsInert(name: string, company: string, date: string)
    requires name == "Jane Doe" && company == "Acme" && date == "01/02/2030"
    ensures Inert(name) && Inert(company) && Inert(date)
  {
    NoBraceInert(name);
    NoBraceInert(company);
    NoBraceInert(date);
  }

  lemma ExampleLine(texts: seq<string>, keys: seq<string>, name: string, company: string, date: string, gloves: Line)
    requires |texts| == |keys| + 1 && AllInert(texts)
    requires forall j :: 0 <= j < |keys| ==> IsKey(keys[j])
    requires Inert(name) && Inert(company) && Inert(date)
    requires TableKey in keys && gloves == Line(7, "Gloves", 3)
    ensures Occurs(Render(Fill(texts, keys), name, company, date, [gloves]),
      Html.codeOpen + "7" + Html.descriptionOpen + "Gloves" + Html.quantityOpen + "3" + Html.rowClose)
  {
    RenderShowsLine(texts, keys, name, company, date, [gloves], 0);
    SpellsSeven();
    SpellsThree();
  }

  lemma SpellsSeven()
    ensures IntToString(7) == "7"
  {
  }

  lemma SpellsThree()
    ensures IntToString(3) == "3"
  {
  }
}
