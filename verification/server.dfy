/** The server side of the application (app.py): the destination check of
    `submit_automata` (lines 31-53), which either builds the automaton or
    answers with every problem found, and the transition-table cell format
    of `generar_tabla_transiciones` (line 96). */
module Server {
  import opened Results
  import opened Seqs
  import opened Text
  import opened Automata

  /** One (symbol, destination) pair of a state's transition object, in the
      order the request lists them. */
  datatype Cell = Cell(symbol: Symbol, dest: Dest)

  /** One state's transition object. */
  datatype StateRow = StateRow(state: Label, cells: seq<Cell>)

  /** The fields of the request body: `estados`, `alfabeto`, `transiciones`
      (in request order), `estado_inicial`, `estados_finales`. */
  datatype Request = Request(
    states: seq<Label>,
    alphabet: seq<Symbol>,
    rows: seq<StateRow>,
    start: Label,
    accepting: seq<Label>)

  /** A problem the check reports for one (state, symbol) entry. */
  datatype SubmitError =
    | DuplicateDestinations(state: Label, symbol: Symbol, labels: seq<Label>)
    | UnknownDestination(state: Label, symbol: Symbol, name: Label)

  /** The text of each problem (lines 40, 44 and 47). */
  function Message(e: SubmitError): string {
    match e
    case DuplicateDestinations(q, a, xs) =>
      "El estado '" + q + "' con el símbolo '" + a + "' tiene estados destino duplicados: " + Join(xs, ", ") + "."
    case UnknownDestination(q, a, x) =>
      "La transición desde el estado '" + q + "' con el símbolo '" + a + "' apunta a un estado inexistente: '" + x + "'."
  }

  /** `d and d not in estados`: a non-empty label that is not a listed
      state. The empty label is never reported. */
  predicate Unknown(states: seq<Label>, x: Label) {
    x != "" && x !in states
  }

  /** Lines 42-44: one error per element of the list that is an unknown
      label, in list order, so a label repeated in the list is reported
      as often as it occurs. */
  function UnknownErrors(states: seq<Label>, q: Label, a: Symbol, xs: seq<Label>): (r: seq<SubmitError>)
    ensures forall e :: e in r ==> e.UnknownDestination? && e.state == q && e.symbol == a && Unknown(states, e.name)
    ensures forall x :: multiset(r)[UnknownDestination(q, a, x)] == if Unknown(states, x) then multiset(xs)[x] else 0
    decreases |xs|
  {
    if xs == [] then []
    else
      var prefix := xs[..|xs| - 1];
      var x := xs[|xs| - 1];
      assert xs == prefix + [x];
      UnknownErrors(states, q, a, prefix) + (if Unknown(states, x) then [UnknownDestination(q, a, x)] else [])
  }

  /** Lines 36-47 for the entry of state `q`: a list is reported once if it
      repeats a label, then once per unknown label; a scalar is reported if
      it is an unknown label. */
  function CellErrors(states: seq<Label>, q: Label, c: Cell): seq<SubmitError> {
    match c.dest
    case Many(xs) =>
      (if HasDuplicates(xs) then [DuplicateDestinations(q, c.symbol, xs)] else [])
        + UnknownErrors(states, q, c.symbol, xs)
    case Scalar(x) =>
      if Unknown(states, x) then [UnknownDestination(q, c.symbol, x)] else []
  }

  /** Lines 35-47: the errors of one state's entries, in entry order. */
  function RowErrors(states: seq<Label>, q: Label, cells: seq<Cell>): seq<SubmitError>
    decreases |cells|
  {
    if cells == [] then []
    else RowErrors(states, q, cells[..|cells| - 1]) + CellErrors(states, q, cells[|cells| - 1])
  }

  /** Lines 31-47: the errors of every entry, in request order. */
  function Errors(states: seq<Label>, rows: seq<StateRow>): seq<SubmitError>
    decreases |rows|
  {
    if rows == [] then []
    else
      var row := rows[|rows| - 1];
      Errors(states, rows[..|rows| - 1]) + RowErrors(states, row.state, row.cells)
  }

  /** An entry the check accepts: a list without repetition whose labels are
      all empty or listed states, or a scalar that is empty or a listed
      state. The state and the symbol the entry belongs to play no part. */
  ghost predicate CellValid(states: seq<Label>, d: Dest) {
    match d
    case Many(xs) => Distinct(xs) && forall i :: 0 <= i < |xs| ==> !Unknown(states, xs[i])
    case Scalar(x) => !Unknown(states, x)
  }

  /** Every entry of one state is accepted. */
  ghost predicate RowValid(states: seq<Label>, cells: seq<Cell>) {
    forall j :: 0 <= j < |cells| ==> CellValid(states, cells[j].dest)
  }

  /** Every entry of every state is accepted. */
  ghost predicate RowsValid(states: seq<Label>, rows: seq<StateRow>) {
    forall i :: 0 <= i < |rows| ==> RowValid(states, rows[i].cells)
  }

  /** A list entry is reported for repetition exactly once when it repeats a
      label and never otherwise, and each unknown label once per occurrence. */
  lemma CellErrorCounts(states: seq<Label>, q: Label, a: Symbol, xs: seq<Label>)
    ensures var r := CellErrors(states, q, Cell(a, Many(xs)));
      && multiset(r)[DuplicateDestinations(q, a, xs)] == (if Distinct(xs) then 0 else 1)
      && forall x :: multiset(r)[UnknownDestination(q, a, x)] == if Unknown(states, x) then multiset(xs)[x] else 0
  {
    var u := UnknownErrors(states, q, a, xs);
    assert DuplicateDestinations(q, a, xs) !in u;
  }

  /** An entry yields no error exactly when the check accepts it. */
  lemma CellErrorsEmpty(states: seq<Label>, q: Label, c: Cell)
    ensures CellErrors(states, q, c) == [] <==> CellValid(states, c.dest)
  {
    if c.dest.Many? {
      var xs := c.dest.labels;
      var u := UnknownErrors(states, q, c.symbol, xs);
      if u != [] {
        var e := u[0];
        assert multiset(u)[e] > 0;
        assert multiset(xs)[e.name] > 0;
        assert e.name in xs;
      }
      if i :| 0 <= i < |xs| && Unknown(states, xs[i]) {
        assert multiset(u)[UnknownDestination(q, c.symbol, xs[i])] > 0;
      }
    }
  }

  /** A state's entries yield no error exactly when each is accepted. */
  lemma {:induction false} RowErrorsEmpty(states: seq<Label>, q: Label, cells: seq<Cell>)
    ensures RowErrors(states, q, cells) == [] <==> RowValid(states, cells)
    decreases |cells|
  {
    if cells != [] {
      var prefix := cells[..|cells| - 1];
      RowErrorsEmpty(states, q, prefix);
      CellErrorsEmpty(states, q, cells[|cells| - 1]);
      RowValidSnoc(states, cells);
    }
  }

  /** The entries of a state are all accepted exactly when those before the
      last one are and the last one is. */
  lemma RowValidSnoc(states: seq<Label>, cells: seq<Cell>)
    requires |cells| > 0
    ensures RowValid(states, cells) <==> RowValid(states, cells[..|cells| - 1]) && CellValid(states, cells[|cells| - 1].dest)
  {
    var prefix := cells[..|cells| - 1];
    assert forall j :: 0 <= j < |prefix| ==> prefix[j] == cells[j];
  }

  /** The request yields no error exactly when every entry is accepted. */
  lemma {:induction false} ErrorsEmpty(states: seq<Label>, rows: seq<StateRow>)
    ensures Errors(states, rows) == [] <==> RowsValid(states, rows)
    decreases |rows|
  {
    if rows != [] {
      var prefix := rows[..|rows| - 1];
      var row := rows[|rows| - 1];
      ErrorsEmpty(states, prefix);
      RowErrorsEmpty(states, row.state, row.cells);
      assert RowsValid(states, rows) <==> RowsValid(states, prefix) && RowValid(states, row.cells) by {
        assert forall i :: 0 <= i < |prefix| ==> prefix[i] == rows[i];
      }
    }
  }

  /** No entry after position `i` is for the same symbol: the entry a
      dictionary built in list order keeps. */
  predicate LastSymbol(cells: seq<Cell>, i: int)
    requires 0 <= i < |cells|
  {
    forall j :: i < j < |cells| ==> cells[j].symbol != cells[i].symbol
  }

  /** No object after position `i` is for the same state. */
  predicate LastState(rows: seq<StateRow>, i: int)
    requires 0 <= i < |rows|
  {
    forall j :: i < j < |rows| ==> rows[j].state != rows[i].state
  }

  /** A state's entries as the dictionary Python builds from the request:
      a symbol listed twice keeps its last entry. */
  function CellsMap(cells: seq<Cell>): (r: map<Symbol, Dest>)
    ensures r.Keys == set c | c in cells :: c.symbol
    ensures forall i :: 0 <= i < |cells| && LastSymbol(cells, i) ==> r[cells[i].symbol] == cells[i].dest
    decreases |cells|
  {
    if cells == [] then map[]
    else
      var c := cells[|cells| - 1];
      assert cells == cells[..|cells| - 1] + [c];
      CellsMap(cells[..|cells| - 1])[c.symbol := c.dest]
  }

  /** `transiciones` as the dictionary Python builds from the request: a
      state listed twice keeps its last object. */
  function ToTransitions(rows: seq<StateRow>): (t: Transitions)
    ensures t.Keys == set r | r in rows :: r.state
    ensures forall i :: 0 <= i < |rows| && LastState(rows, i) ==> t[rows[i].state] == CellsMap(rows[i].cells)
    decreases |rows|
  {
    if rows == [] then map[]
    else
      var row := rows[|rows| - 1];
      assert rows == rows[..|rows| - 1] + [row];
      ToTransitions(rows[..|rows| - 1])[row.state := CellsMap(row.cells)]
  }

  /** Every message, joined by line breaks (line 50). */
  function Messages(errors: seq<SubmitError>): (r: seq<string>)
    ensures |r| == |errors|
    ensures forall i :: 0 <= i < |r| ==> r[i] == Message(errors[i])
  {
    seq(|errors|, i requires 0 <= i < |errors| => Message(errors[i]))
  }

  /** Lines 31-53: the automaton of the request when every entry is
      accepted, otherwise the messages of every problem joined by line
      breaks. */
  function Submit(req: Request): (r: Result<Automaton, string>)
    ensures r.Success? <==> RowsValid(req.states, req.rows)
    ensures r.Success? ==>
      && r.value.states == req.states && r.value.alphabet == req.alphabet
      && r.value.start == req.start && r.value.accepting == Elems(req.accepting)
      && r.value.transitions.Keys == (set row | row in req.rows :: row.state)
      && r.value.transitions == ToTransitions(req.rows)
    ensures r.Failure? ==> r.error == Join(Messages(Errors(req.states, req.rows)), "\n")
  {
    ErrorsEmpty(req.states, req.rows);
    var errors := Errors(req.states, req.rows);
    if errors != [] then Failure(Join(Messages(errors), "\n"))
    else Success(Automaton(req.states, req.alphabet, ToTransitions(req.rows), req.start, Elems(req.accepting)))
  }

  /** Looking up a built automaton (`obtener_transiciones`) gives, for a
      state and a symbol, the entry of the last object listed for the state
      and, in it, the last entry listed for the symbol. The automaton is
      built exactly when every entry is accepted. */
  lemma SubmitLookup(req: Request, i: int, j: int)
    requires RowsValid(req.states, req.rows)
    requires 0 <= i < |req.rows| && LastState(req.rows, i)
    requires 0 <= j < |req.rows[i].cells| && LastSymbol(req.rows[i].cells, j)
    ensures Lookup(Submit(req).value, req.rows[i].state, req.rows[i].cells[j].symbol) == Some(req.rows[i].cells[j].dest)
  {
    var t := Submit(req).value.transitions;
    assert t[req.rows[i].state] == CellsMap(req.rows[i].cells);
  }

  /** Line 96: the text of the table cell for an entry: a list joined by
      commas, a non-empty scalar itself, and `-` for no entry or the empty
      scalar. */
  function FormatCell(d: Option<Dest>): string {
    match d
    case Some(Many(xs)) => Join(xs, ",")
    case Some(Scalar(x)) => if x != "" then x else "-"
    case None => "-"
  }

  /** Splitting the cell text of a list at its commas gives the list back,
      when the list is non-empty and no label holds a comma. */
  lemma FormatListSplit(xs: seq<Label>)
    requires |xs| >= 1
    requires forall i :: 0 <= i < |xs| ==> ',' !in xs[i]
    ensures Split(FormatCell(Some(Many(xs))), ',') == xs
  {
    SplitJoin(xs, ',');
  }

  /** The cell text of a non-empty scalar is the label; no entry and the
      empty scalar both show `-`, and so do the lists `[]` and `[""]` show
      the same empty text. */
  lemma FormatCellCases(x: Label)
    ensures x != "" ==> FormatCell(Some(Scalar(x))) == x
    ensures FormatCell(Some(Scalar(""))) == FormatCell(None) == "-"
    ensures FormatCell(Some(Many([]))) == FormatCell(Some(Many([""]))) == ""
  {
  }

  /** The cell of the table for state `q` and symbol `a` (lines 95-96): the
      looked-up entry, formatted. */
  function TableCell(m: Automaton, q: Label, a: Symbol): (r: string)
    ensures (q !in m.transitions || a !in m.transitions[q]) ==> r == "-"
    ensures q in m.transitions && a in m.transitions[q] && m.transitions[q][a].Many? ==>
              r == Join(m.transitions[q][a].labels, ",")
  {
    FormatCell(Lookup(m, q, a))
  }
}
