/** The bridge between a host-page matching table and the widget: the rows
    of the table are read into terms, definitions and the answer inputs; the
    input values are decoded from the form's 1-based numbering; every
    widget notice is written back into the input it names. The page itself
    (document queries, the React root, the `input` event) is abstracted to
    the rows and the input fields. */
module MatchingLesson {
  import opened JsText
  import opened MatchingState
  import opened MatchingExercise

  /** An `<input>` of the host form. Only its value changes. */
  class InputField {
    const name: string
    /** The `type` attribute, empty when absent. */
    const kind: string
    var value: string

    constructor (name: string, kind: string, value: string)
      ensures this.name == name && this.kind == kind && this.value == value
    {
      this.name := name;
      this.kind := kind;
      this.value := value;
    }
  }

  /** A `matching_answer` element: its `ident` attribute (absent is `None`)
      and its text content. */
  datatype AnswerCell = AnswerCell(ident: Option<string>, text: string)

  /** One `<tr>` of the table: the first `matching_answer`, the text of the
      first `.matching_question`, and its inputs in document order. */
  datatype Row = Row(answer: Option<AnswerCell>, question: Option<string>, inputs: seq<InputField>)

  /** A host table: its rows, the processed mark and its visibility. */
  class Table {
    const rows: seq<Row>
    var processed: bool
    var hidden: bool

    constructor (rows: seq<Row>, processed: bool)
      ensures this.rows == rows && this.processed == processed && !hidden
    {
      this.rows := rows;
      this.processed := processed;
      hidden := false;
    }
  }

  // ------------------------------------------------------------- row reading

  predicate StartsWith(s: string, prefix: string) {
    |prefix| <= |s| && s[..|prefix|] == prefix
  }

  /** `input[name^="ans_"]:not([type="hidden"])`. */
  predicate IsAnswerInput(f: InputField) {
    StartsWith(f.name, "ans_") && f.kind != "hidden"
  }

  /** The first answer input of a row, if any. */
  function AnswerInput(inputs: seq<InputField>): (r: Option<InputField>)
    ensures r.Some? ==> r.value in inputs && IsAnswerInput(r.value)
  {
    if inputs == [] then None
    else if IsAnswerInput(inputs[0]) then Some(inputs[0])
    else
      var r := AnswerInput(inputs[1..]);
      assert forall i :: 1 <= i < |inputs| ==> inputs[i] == inputs[1..][i - 1];
      r
  }

  /** A row has no answer input exactly when none of its inputs qualifies. */
  lemma {:induction false} AnswerInputNone(inputs: seq<InputField>)
    ensures AnswerInput(inputs).None? <==> forall i :: 0 <= i < |inputs| ==> !IsAnswerInput(inputs[i])
  {
    if inputs != [] {
      AnswerInputNone(inputs[1..]);
      assert forall i :: 1 <= i < |inputs| ==> inputs[i] == inputs[1..][i - 1];
    }
  }

  /** The answer input is the first input that qualifies. */
  lemma {:induction false} AnswerInputIsFirst(inputs: seq<InputField>, i: int)
    requires 0 <= i < |inputs| && IsAnswerInput(inputs[i])
    requires forall j :: 0 <= j < i ==> !IsAnswerInput(inputs[j])
    ensures AnswerInput(inputs) == Some(inputs[i])
  {
    if i > 0 {
      AnswerInputIsFirst(inputs[1..], i - 1);
    }
  }

  /** What a row takes part with: its term cell, its definition text and
      its answer input. */
  datatype Entry = Entry(answer: AnswerCell, question: string, input: InputField)

  /** A row takes part only with a term, a definition and an answer input. */
  function EntryOf(row: Row): (r: Option<Entry>)
    ensures r.Some? <==> row.answer.Some? && row.question.Some? && AnswerInput(row.inputs).Some?
    ensures r.Some? ==> r.value.input == AnswerInput(row.inputs).value
  {
    match AnswerInput(row.inputs)
    case Some(input) =>
      if row.answer.Some? && row.question.Some? then Some(Entry(row.answer.value, row.question.value, input)) else None
    case None => None
  }

  /** The entries of the contributing rows, in table order. */
  function Entries(rows: seq<Row>): (r: seq<Entry>)
    ensures |r| <= |rows|
  {
    if rows == [] then []
    else
      var prefix := Entries(rows[..|rows| - 1]);
      match EntryOf(rows[|rows| - 1])
      case Some(e) => prefix + [e]
      case None => prefix
  }

  /** The positions of the contributing rows, one per entry. */
  function EntryRows(rows: seq<Row>): (idx: seq<int>)
    ensures |idx| == |Entries(rows)|
  {
    if rows == [] then []
    else
      var prefix := EntryRows(rows[..|rows| - 1]);
      if EntryOf(rows[|rows| - 1]).Some? then prefix + [|rows| - 1] else prefix
  }

  /** The `k`-th entry is what the row at the `k`-th contributing position
      yields. */
  lemma {:induction false} EntryRowPick(rows: seq<Row>, k: int)
    requires 0 <= k < |EntryRows(rows)|
    ensures 0 <= EntryRows(rows)[k] < |rows|
    ensures EntryOf(rows[EntryRows(rows)[k]]) == Some(Entries(rows)[k])
  {
    var n := |rows| - 1;
    var front := rows[..n];
    if k < |EntryRows(front)| {
      EntryRowPick(front, k);
      assert EntryRows(rows)[k] == EntryRows(front)[k] && Entries(rows)[k] == Entries(front)[k];
      assert front[EntryRows(front)[k]] == rows[EntryRows(front)[k]];
    }
  }

  /** The contributing positions are strictly increasing: entries keep the
      table order. */
  lemma {:induction false} EntryRowsOrdered(rows: seq<Row>)
    ensures forall k :: 0 <= k < |EntryRows(rows)| ==> 0 <= EntryRows(rows)[k] < |rows|
    ensures forall k, l :: 0 <= k < l < |EntryRows(rows)| ==> EntryRows(rows)[k] < EntryRows(rows)[l]
  {
    if rows != [] {
      EntryRowsOrdered(rows[..|rows| - 1]);
    }
  }

  /** Every row that has a term, a definition and an answer input takes
      part. */
  lemma {:induction false} EntryRowsComplete(rows: seq<Row>)
    ensures forall j :: 0 <= j < |rows| && EntryOf(rows[j]).Some? ==> j in EntryRows(rows)
  {
    if rows != [] {
      var front := rows[..|rows| - 1];
      EntryRowsComplete(front);
      assert forall j :: 0 <= j < |front| ==> front[j] == rows[j];
    }
  }

  /** The entries are exactly what the accepted rows yield. */
  lemma EntriesMembers(rows: seq<Row>)
    ensures forall e :: e in Entries(rows) <==> exists j :: 0 <= j < |rows| && EntryOf(rows[j]) == Some(e)
  {
    var idx := EntryRows(rows);
    forall e | e in Entries(rows)
      ensures exists j :: 0 <= j < |rows| && EntryOf(rows[j]) == Some(e)
    {
      var k :| 0 <= k < |Entries(rows)| && Entries(rows)[k] == e;
      EntryRowPick(rows, k);
    }
    forall e, j | 0 <= j < |rows| && EntryOf(rows[j]) == Some(e)
      ensures e in Entries(rows)
    {
      EntryRowsComplete(rows);
      var k :| 0 <= k < |idx| && idx[k] == j;
      EntryRowPick(rows, k);
    }
  }

  lemma EntriesStep(rows: seq<Row>, n: int)
    requires 0 <= n < |rows|
    ensures EntryOf(rows[n]).Some? ==> Entries(rows[..n + 1]) == Entries(rows[..n]) + [EntryOf(rows[n]).value]
    ensures EntryOf(rows[n]).None? ==> Entries(rows[..n + 1]) == Entries(rows[..n])
  {
    assert rows[..n + 1][..n] == rows[..n];
  }

  /** `Number(term.getAttribute('ident'))`: an absent attribute is `null`,
      which `Number` reads as 0. */
  function Ident(ident: Option<string>): (r: Option<int>)
  {
    match ident
    case None => Some(0)
    case Some(s) => Number(s)
  }

  /** The form's answer value as a 0-based term index: an empty (trimmed)
      value and a value `parseInt` cannot read are null; any other value is
      one less than the number it starts with, so "0" gives -1. */
  function Decode(value: string): (r: Option<int>)
  {
    var u := Trim(value);
    if u == [] then None
    else match ParseInt(u)
      case None => None
      case Some(n) => Some(n - 1)
  }

  /** What `updateInput` writes for a term index: the empty string for null,
      otherwise the 1-based number. */
  function Encode(t: Option<int>): (s: string)
    ensures s == [] <==> t.None?
    ensures t.Some? ==> ParseInt(s) == Some(t.value + 1)
  {
    match t
    case None => ""
    case Some(n) =>
      ParseIntOfIntToString(n + 1);
      IntToString(n + 1)
  }

  /** Decoding reads back whatever `updateInput` wrote, for every term index
      and for null. */
  lemma DecodeEncode(t: Option<int>)
    ensures Decode(Encode(t)) == t
  {
    if t.Some? {
      var s := IntToString(t.value + 1);
      TrimKeeps(s);
      ParseIntOfIntToString(t.value + 1);
    }
  }

  /** A blank value is null. */
  lemma DecodeBlank(value: string)
    requires AllWhitespace(value)
    ensures Decode(value) == None
  {
    assert TrimStart(value) == [];
  }

  /** Whatever white space surrounds it, a number `n` in the form is the
      term index `n - 1`. */
  lemma DecodeOfNumber(w1: string, n: int, w2: string)
    requires AllWhitespace(w1) && AllWhitespace(w2)
    ensures Decode(w1 + IntToString(n) + w2) == Some(n - 1)
  {
    var s := IntToString(n);
    TrimSpec(w1, s, w2);
    ParseIntOfIntToString(n);
    assert Trim(w1 + s + w2) == s != [];
  }

  /** A value whose text starts with neither a sign nor a digit is null. */
  lemma DecodeNotANumber(w1: string, c: char, tail: string)
    requires AllWhitespace(w1)
    requires !IsWhitespace(c) && !IsDigit(c) && c != '-' && c != '+'
    ensures Decode(w1 + [c] + tail) == None
  {
    var u := Trim(w1 + [c] + tail);
    assert w1 + [c] + tail == w1 + ([c] + tail);
    TrimStartSkips(w1, [c] + tail);
    TrimStartKeeps([c] + tail);
    TrailingStartKeepsFirst([c] + tail);
    assert u[0] == c;
    ParseIntNotANumber([], c, u[1..]);
    assert [] + [c] + u[1..] == u;
  }

  /** "0" is the term index -1, not an error. */
  lemma DecodeZero()
    ensures Decode("0") == Some(-1)
  {
    DecodeEncode(Some(-1));
    assert IntToString(0) == "0";
  }

  /** An `ident` attribute written by `toString` reads back as its number;
      a missing or blank one is 0. */
  lemma IdentOfNumber(n: int, blank: string)
    requires AllWhitespace(blank)
    ensures Ident(Some(IntToString(n))) == Some(n)
    ensures Ident(None) == Some(0) && Ident(Some(blank)) == Some(0)
  {
    NumberOfIntToString(n);
    NumberOfBlank(blank);
  }

  /** The term the `i`-th contributing row yields. */
  function TermOf(e: Entry, i: int): Term
  {
    Term(Ident(e.answer.ident), i, Trim(e.answer.text))
  }

  /** The definition the `i`-th contributing row yields, its stored term
      decoded from `value`, what the row's answer input holds. */
  function DefinitionOf(e: Entry, value: string, i: int): Definition
  {
    Definition(i, Decode(value), Trim(e.question))
  }

  /** The answer inputs of the entries, in order. */
  function InputsOf(es: seq<Entry>): seq<InputField>
  {
    seq(|es|, i requires 0 <= i < |es| => es[i].input)
  }

  /** The terms the entries yield, the `i`-th with index `i`. */
  function TermsOf(es: seq<Entry>): seq<Term>
  {
    seq(|es|, i requires 0 <= i < |es| => TermOf(es[i], i))
  }

  /** The definitions the entries yield, the `i`-th with index `i`, given
      the values their answer inputs hold. */
  function DefinitionsOf(es: seq<Entry>, values: seq<string>): seq<Definition>
    requires |values| == |es|
  {
    seq(|es|, i requires 0 <= i < |es| => DefinitionOf(es[i], values[i], i))
  }

  /** Adding one entry extends the three sequences by what it yields. */
  lemma CollectedSnoc(es: seq<Entry>, values: seq<string>, e: Entry, value: string)
    requires |values| == |es|
    ensures InputsOf(es + [e]) == InputsOf(es) + [e.input]
    ensures TermsOf(es + [e]) == TermsOf(es) + [TermOf(e, |es|)]
    ensures DefinitionsOf(es + [e], values + [value]) == DefinitionsOf(es, values) + [DefinitionOf(e, value, |es|)]
  {
    assert (es + [e])[..|es|] == es;
    assert (values + [value])[..|es|] == values;
  }

  /** `values` is what the inputs hold, one value per input. */
  predicate Snapshot(inputs: seq<InputField>, values: seq<string>)
    reads inputs
  {
    |values| == |inputs| && forall i :: 0 <= i < |inputs| ==> values[i] == inputs[i].value
  }

  lemma SnapshotSnoc(inputs: seq<InputField>, values: seq<string>, x: InputField)
    requires Snapshot(inputs, values)
    ensures Snapshot(inputs + [x], values + [x.value])
  {
  }

  /** Reads the rows in order, skipping rows without a term, a definition or
      an answer input. */
  method CollectRows(rows: seq<Row>) returns (terms: seq<Term>, definitions: seq<Definition>, inputs: seq<InputField>, ghost values: seq<string>)
    ensures inputs == InputsOf(Entries(rows))
    ensures Snapshot(inputs, values)
    ensures terms == TermsOf(Entries(rows))
    ensures definitions == DefinitionsOf(Entries(rows), values)
    ensures |terms| == |definitions| == |inputs|
    ensures forall i :: 0 <= i < |terms| ==> terms[i].index == i && definitions[i].index == i
  {
    terms, definitions, inputs, values := [], [], [], [];
    ghost var es: seq<Entry> := [];
    for n := 0 to |rows|
      invariant es == Entries(rows[..n])
      invariant inputs == InputsOf(es)
      invariant Snapshot(inputs, values)
      invariant terms == TermsOf(es)
      invariant definitions == DefinitionsOf(es, values)
    {
      EntriesStep(rows, n);
      var entry := EntryOf(rows[n]);
      if entry.Some? {
        var e := entry.value;
        var value := e.input.value;
        CollectedSnoc(es, values, e, value);
        SnapshotSnoc(inputs, values, e.input);
        terms := terms + [TermOf(e, |terms|)];
        definitions := definitions + [DefinitionOf(e, value, |terms| - 1)];
        inputs := inputs + [e.input];
        values := values + [value];
        es := es + [e];
      }
    }
    assert rows[..|rows|] == rows;
  }

  /** `setupMatchingExercise(table)`: a table carrying the processed mark is
      left alone; otherwise it is marked, and unless it has no rows its rows
      are read, a widget is seeded from them and the table is hidden. */
  method SetupMatchingExercise(table: Table) returns (widget: Option<MatchingExercise>, inputs: seq<InputField>, ghost values: seq<string>)
    modifies table
    ensures old(table.processed) ==> widget.None? && inputs == [] && unchanged(table)
    ensures !old(table.processed) ==> table.processed
    ensures !old(table.processed) && table.rows == [] ==> widget.None? && inputs == [] && table.hidden == old(table.hidden)
    ensures !old(table.processed) && table.rows != [] ==>
              && widget.Some? && fresh(widget.value) && table.hidden
              && inputs == InputsOf(Entries(table.rows))
              && widget.value.terms == TermsOf(Entries(table.rows))
              && |values| == |inputs| && (forall i :: 0 <= i < |inputs| ==> values[i] == inputs[i].value)
              && widget.value.definitions == DefinitionsOf(Entries(table.rows), values)
              && widget.value.mapping == Seed(widget.value.definitions)
              && widget.value.notices == [] && widget.value.selected == None && !widget.value.swapped
  {
    widget, inputs, values := None, [], [];
    if table.processed {
      return;
    }
    table.processed := true;
    if |table.rows| == 0 {
      return;
    }
    var terms, definitions;
    terms, definitions, inputs, values := CollectRows(table.rows);
    var w := new MatchingExercise(definitions, terms);
    widget := Some(w);
    table.hidden := true;
  }

  /** What the inputs hold, in order. */
  function Values(inputs: seq<InputField>): (r: seq<string>)
    reads inputs
    ensures Snapshot(inputs, r)
  {
    seq(|inputs|, i reads inputs requires 0 <= i < |inputs| => inputs[i].value)
  }

  /** No input element appears twice. */
  predicate Distinct(inputs: seq<InputField>) {
    forall i, j :: 0 <= i < j < |inputs| ==> inputs[i] != inputs[j]
  }

  /** `updateInput(d, t)`: writes the encoded term into input `d`; an index
      with no input changes nothing. On distinct inputs this is `Apply` on
      the values they hold. */
  method UpdateInput(inputs: seq<InputField>, d: int, t: Option<int>)
    modifies if 0 <= d < |inputs| then {inputs[d]} else {}
    ensures 0 <= d < |inputs| ==> inputs[d].value == Encode(t)
    ensures 0 <= d < |inputs| ==>
              forall i :: 0 <= i < |inputs| && inputs[i] != inputs[d] ==> inputs[i].value == old(inputs[i].value)
    ensures !(0 <= d < |inputs|) ==> forall i :: 0 <= i < |inputs| ==> inputs[i].value == old(inputs[i].value)
    ensures Distinct(inputs) ==> Values(inputs) == Apply(old(Values(inputs)), Notice(d, t))
  {
    if 0 <= d < |inputs| {
      inputs[d].value := Encode(t);
    }
  }

  // ------------------------------------------------- keeping the form in sync

  /** The input values after one notice: `updateInput` on a snapshot. */
  function Apply(values: seq<string>, n: Notice): (r: seq<string>)
    ensures |r| == |values|
    ensures forall i :: 0 <= i < |values| && i != n.definition ==> r[i] == values[i]
    ensures 0 <= n.definition < |values| ==> Decode(r[n.definition]) == n.term
  {
    if 0 <= n.definition < |values| then
      DecodeEncode(n.term);
      values[n.definition := Encode(n.term)]
    else values
  }

  /** The input values after a run of notices, in order. */
  function ApplyAll(values: seq<string>, ns: seq<Notice>): (r: seq<string>)
    ensures |r| == |values|
  {
    if ns == [] then values else Apply(ApplyAll(values, ns[..|ns| - 1]), ns[|ns| - 1])
  }

  /** Every input decodes to the term its definition holds in `m`. */
  predicate InSync(values: seq<string>, m: Mapping) {
    forall i :: 0 <= i < |values| ==> Decode(values[i]) == Lookup(m, i)
  }

  /** The seeded widget agrees with the form it was read from. */
  lemma SeedInSync(values: seq<string>, definitions: seq<Definition>)
    requires |definitions| == |values|
    requires forall i :: 0 <= i < |definitions| ==> definitions[i].index == i && definitions[i].matchedTermIndex == Decode(values[i])
    ensures InSync(values, Seed(definitions))
  {
    forall i | 0 <= i < |values|
      ensures Decode(values[i]) == Lookup(Seed(definitions), i)
    {
      assert LastWithIndex(definitions, i);
      SeedValue(definitions, i);
    }
  }

  /** The widget a table sets up agrees with the inputs it was read from:
      definition `i` holds what input `i` decodes to. */
  lemma SetupInSync(es: seq<Entry>, values: seq<string>)
    requires |values| == |es|
    ensures InSync(values, Seed(DefinitionsOf(es, values)))
  {
    SeedInSync(values, DefinitionsOf(es, values));
  }

  /** Applying the clears of a drop leaves each scanned displaced input
      blank and every other input as it was. */
  lemma {:induction false} ApplyClears(values: seq<string>, m: Mapping, d: int, t: int, ks: seq<int>)
    ensures forall i :: 0 <= i < |values| ==>
              ApplyAll(values, ClearNotices(m, d, t, ks))[i] ==
              (if i in ks && Displaces(m, d, t, i) then Encode(None) else values[i])
  {
    if ks != [] {
      var prefix := ks[..|ks| - 1];
      var k := ks[|ks| - 1];
      ApplyClears(values, m, d, t, prefix);
      var ns := ClearNotices(m, d, t, ks);
      var ps := ClearNotices(m, d, t, prefix);
      assert forall i :: i in ks <==> i in prefix || i == k;
      if Displaces(m, d, t, k) {
        assert ns == ps + [Notice(k, None)];
        assert ns[..|ns| - 1] == ps;
      } else {
        assert ns == ps;
      }
    }
  }

  /** The notices of a drop, written into a form that agreed with the
      widget, leave it agreeing with the widget's new mapping. */
  lemma DropInSync(values: seq<string>, m: Mapping, d: int, t: int)
    requires InSync(values, m)
    ensures InSync(ApplyAll(values, DropNotices(m, d, t)), DropResult(m, d, t))
  {
    var first := Apply(values, Notice(d, Some(t)));
    var ks := Ascending(m.Keys);
    var clears := ClearNotices(m, d, t, ks);
    var ns := DropNotices(m, d, t);
    ApplyAllAppend(values, [Notice(d, Some(t))], clears);
    assert ns == [Notice(d, Some(t))] + clears;
    assert ApplyAll(values, [Notice(d, Some(t))]) == first by {
      assert [Notice(d, Some(t))][..0] == [];
    }
    ApplyClears(first, m, d, t, ks);
    var r := DropResult(m, d, t);
    var after := ApplyAll(values, ns);
    forall i | 0 <= i < |after|
      ensures Decode(after[i]) == Lookup(r, i)
    {
      if Displaces(m, d, t, i) {
        assert i in ks;
        DecodeEncode(None);
      } else if i == d {
        assert after[i] == first[i];
      } else {
        assert after[i] == values[i];
      }
    }
  }

  lemma {:induction false} ApplyAllAppend(values: seq<string>, a: seq<Notice>, b: seq<Notice>)
    ensures ApplyAll(values, a + b) == ApplyAll(ApplyAll(values, a), b)
    decreases |b|
  {
    if b == [] {
      assert a + b == a;
    } else {
      assert (a + b)[..|a + b| - 1] == a + b[..|b| - 1];
      ApplyAllAppend(values, a, b[..|b| - 1]);
    }
  }

  /** The notice of a removal, written into a form that agreed with the
      widget, leaves it agreeing with the new mapping; an absent key sends
      no notice and changes nothing. */
  lemma RemoveInSync(values: seq<string>, m: Mapping, d: int)
    requires InSync(values, m)
    ensures d in m ==> InSync(Apply(values, Notice(d, None)), RemoveResult(m, d))
    ensures d !in m ==> InSync(values, RemoveResult(m, d))
  {
    var r := RemoveResult(m, d);
    if d in m {
      var after := Apply(values, Notice(d, None));
      forall i | 0 <= i < |after|
        ensures Decode(after[i]) == Lookup(r, i)
      {
        if i == d {
          assert Decode(after[i]) == None;
        } else {
          assert after[i] == values[i];
        }
      }
    } else {
      assert r == m;
    }
  }
}
