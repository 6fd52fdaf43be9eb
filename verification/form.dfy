/** The page side of the application (static/programa.js): the parsing of
    the comma-separated fields (lines 2-5), the form check of
    `generarTablaTransiciones` (lines 7-37) with the table of inputs it
    produces (lines 39-52), and the parsing of one transition cell
    (line 77). */
module Form {
  import opened Results
  import opened Seqs
  import opened Text
  import opened Automata
  import opened Server

  /** `.map(e => e.trim())`. */
  function TrimAll(parts: seq<string>): (r: seq<string>)
    ensures |r| == |parts|
    ensures forall i :: 0 <= i < |r| ==> r[i] == Trim(parts[i])
  {
    seq(|parts|, i requires 0 <= i < |parts| => Trim(parts[i]))
  }

  /** Trimming never adds a character. */
  lemma TrimSub(s: string, c: char)
    requires c !in s
    ensures c !in Trim(s)
  {
  }

  /** Lines 2, 3 and 5: `value.split(',').map(e => e.trim())`. There is
      always at least one piece, one more than there are commas, and every
      piece is trimmed and free of commas. */
  function ParseList(s: string): (r: seq<string>)
    ensures |r| == multiset(s)[','] + 1
    ensures forall i :: 0 <= i < |r| ==> ',' !in r[i] && Trimmed(r[i])
  {
    var parts := Split(s, ',');
    var r := TrimAll(parts);
    forall i | 0 <= i < |r|
      ensures ',' !in r[i] && Trimmed(r[i])
    {
      TrimSub(parts[i], ',');
      TrimmedFixed(parts[i]);
    }
    r
  }

  /** Trimmed pieces are left alone by trimming each of them. */
  lemma TrimAllTrimmed(xs: seq<string>)
    requires forall i :: 0 <= i < |xs| ==> Trimmed(xs[i])
    ensures TrimAll(xs) == xs
  {
    forall i | 0 <= i < |xs|
      ensures Trim(xs[i]) == xs[i]
    {
      TrimmedFixed(xs[i]);
    }
  }

  /** Parsing a comma-joined list of trimmed, comma-free pieces gives the
      pieces back. */
  lemma ParseJoin(xs: seq<string>)
    requires |xs| >= 1
    requires forall i :: 0 <= i < |xs| ==> ',' !in xs[i] && Trimmed(xs[i])
    ensures ParseList(Join(xs, ",")) == xs
  {
    SplitJoin(xs, ',');
    TrimAllTrimmed(xs);
  }

  /** Joining a parsed list with commas and parsing it again gives the same
      list. */
  lemma ParseListStable(s: string)
    ensures ParseList(Join(ParseList(s), ",")) == ParseList(s)
  {
    ParseJoin(ParseList(s));
  }

  /** Line 77: a transition cell is trimmed, split at its commas and each
      piece trimmed. */
  function ParseCell(value: string): (r: seq<Label>)
    ensures |r| >= 1
    ensures forall i :: 0 <= i < |r| ==> ',' !in r[i] && Trimmed(r[i])
  {
    ParseList(Trim(value))
  }

  /** A cell that is already trimmed is split as it stands. */
  lemma ParseCellTrimmed(value: string)
    requires Trim(value) == value
    ensures ParseCell(value) == ParseList(value)
  {
  }

  /** A cell left blank, or holding white space only, becomes the list
      holding the one empty label. */
  lemma ParseCellBlank(value: string)
    requires forall i :: 0 <= i < |value| ==> IsJsSpace(value[i])
    ensures ParseCell(value) == [""]
  {
    assert Trim(value) == "" by {
      TrimBlank(value);
    }
    ParseListEmpty();
  }

  /** The empty text is the list of one empty piece. */
  lemma ParseListEmpty()
    ensures ParseList("") == [""]
  {
    assert Split("", ',') == [""];
    assert TrimAll([""]) == [Trim("")];
    assert Trim("") == "";
  }

  /** The server's table text for a list entry, typed back into a cell of
      the page, parses to the same list when the list is non-empty and its
      labels are trimmed and free of commas, as every label the page sends
      is. */
  lemma CellRoundTrip(xs: seq<Label>)
    requires |xs| >= 1
    requires forall i :: 0 <= i < |xs| ==> ',' !in xs[i] && Trimmed(xs[i])
    ensures ParseCell(FormatCell(Some(Many(xs)))) == xs
  {
    var j := Join(xs, [',']);
    assert Trim(j) == j by {
      JoinTrimmed(xs, ',');
      TrimmedFixed(j);
    }
    assert ParseList(j) == xs by {
      ParseJoin(xs);
    }
    ParseCellTrimmed(j);
    FormatList(xs);
  }

  /** The cell text of a list is its comma join. */
  lemma FormatList(xs: seq<Label>)
    ensures FormatCell(Some(Many(xs))) == Join(xs, [','])
  {
  }

  /** The text fields of the form. */
  datatype Fields = Fields(states: string, alphabet: string, start: string, accepting: string)

  /** The fields after parsing. */
  datatype Parsed = Parsed(states: seq<Label>, alphabet: seq<Symbol>, start: Label, accepting: seq<Label>)

  /** Lines 2-5: the three lists are parsed, the start is trimmed. */
  function ParseFields(f: Fields): Parsed {
    Parsed(ParseList(f.states), ParseList(f.alphabet), Trim(f.start), ParseList(f.accepting))
  }

  /** A problem the form check reports. */
  datatype FormError =
    | DuplicateStates
    | DuplicateSymbols
    | StartNotAState
    | AcceptingNotAState(name: Label)

  /** The text of each problem (lines 12, 18, 23 and 29). */
  function Alert(e: FormError): string {
    match e
    case DuplicateStates => "No se permiten estados duplicados."
    case DuplicateSymbols => "No se permiten símbolos duplicados en el alfabeto."
    case StartNotAState => "El estado inicial debe pertenecer a los estados ingresados."
    case AcceptingNotAState(x) => "El estado aceptador '" + x + "' no pertenece a los estados ingresados."
  }

  /** Lines 27-31: one error per entry of the accepting list that is not a
      state, in list order, so a bad entry repeated is reported as often as
      it occurs. */
  function BadAccepting(states: seq<Label>, accepting: seq<Label>): (r: seq<FormError>)
    ensures forall e :: e in r ==> e.AcceptingNotAState? && e.name !in states
    ensures forall x :: multiset(r)[AcceptingNotAState(x)] == if x in states then 0 else multiset(accepting)[x]
    decreases |accepting|
  {
    if accepting == [] then []
    else
      var prefix := accepting[..|accepting| - 1];
      var x := accepting[|accepting| - 1];
      assert accepting == prefix + [x];
      BadAccepting(states, prefix) + (if x !in states then [AcceptingNotAState(x)] else [])
  }

  /** Lines 9-31: the problems in the order the page finds them. */
  function FormErrors(p: Parsed): seq<FormError> {
    Flag(HasDuplicates(p.states), DuplicateStates)
      + Flag(HasDuplicates(p.alphabet), DuplicateSymbols)
      + Flag(p.start !in p.states, StartNotAState)
      + BadAccepting(p.states, p.accepting)
  }

  /** The one error `e` when the check `c` fails, nothing otherwise. */
  function Flag(c: bool, e: FormError): (r: seq<FormError>)
    ensures forall y :: multiset(r)[y] == if c && y == e then 1 else 0
  {
    if c then [e] else []
  }

  /** The form is acceptable: no state or symbol repeats, and the start and
      every accepting entry are states. */
  ghost predicate FormOk(p: Parsed) {
    && Distinct(p.states) && Distinct(p.alphabet)
    && p.start in p.states
    && forall i :: 0 <= i < |p.accepting| ==> p.accepting[i] in p.states
  }

  /** Repeated states give one error however many repeat, and so do
      repeated symbols; a start that is not a state gives one error; each
      accepting entry that is not a state gives one error per occurrence. */
  lemma FormErrorCounts(p: Parsed)
    ensures var r := FormErrors(p);
      && multiset(r)[DuplicateStates] == (if Distinct(p.states) then 0 else 1)
      && multiset(r)[DuplicateSymbols] == (if Distinct(p.alphabet) then 0 else 1)
      && multiset(r)[StartNotAState] == (if p.start in p.states then 0 else 1)
      && forall x :: multiset(r)[AcceptingNotAState(x)] == if x in p.states then 0 else multiset(p.accepting)[x]
  {
    var b := BadAccepting(p.states, p.accepting);
    FlagCounts(HasDuplicates(p.states), HasDuplicates(p.alphabet), p.start !in p.states, b);
  }

  /** The counts of a list of errors built as `FormErrors` builds it, from
      the outcomes of the three checks and the accepting-entry errors. */
  lemma FlagCounts(c1: bool, c2: bool, c3: bool, b: seq<FormError>)
    requires forall e :: e in b ==> e.AcceptingNotAState?
    ensures var r := Flag(c1, DuplicateStates) + Flag(c2, DuplicateSymbols) + Flag(c3, StartNotAState) + b;
      && multiset(r)[DuplicateStates] == (if c1 then 1 else 0)
      && multiset(r)[DuplicateSymbols] == (if c2 then 1 else 0)
      && multiset(r)[StartNotAState] == (if c3 then 1 else 0)
      && forall x :: multiset(r)[AcceptingNotAState(x)] == multiset(b)[AcceptingNotAState(x)]
  {
    var d1 := Flag(c1, DuplicateStates);
    var d2 := Flag(c2, DuplicateSymbols);
    var d3 := Flag(c3, StartNotAState);
    assert DuplicateStates !in b && DuplicateSymbols !in b && StartNotAState !in b;
    CountConcat(d1, d2, d3, b, DuplicateStates);
    CountConcat(d1, d2, d3, b, DuplicateSymbols);
    CountConcat(d1, d2, d3, b, StartNotAState);
    forall x
      ensures multiset(d1 + d2 + d3 + b)[AcceptingNotAState(x)] == multiset(b)[AcceptingNotAState(x)]
    {
      CountConcat(d1, d2, d3, b, AcceptingNotAState(x));
    }
  }

  /** Occurrences in a concatenation of four lists add up. */
  lemma CountConcat<T>(a: seq<T>, b: seq<T>, c: seq<T>, d: seq<T>, x: T)
    ensures multiset(a + b + c + d)[x] == multiset(a)[x] + multiset(b)[x] + multiset(c)[x] + multiset(d)[x]
  {
  }

  /** The form yields no error exactly when it is acceptable. */
  lemma FormErrorsEmpty(p: Parsed)
    ensures FormErrors(p) == [] <==> FormOk(p)
  {
    var b := BadAccepting(p.states, p.accepting);
    if b != [] {
      var e := b[0];
      assert multiset(b)[e] > 0;
      assert e.name in p.accepting;
    }
    if i :| 0 <= i < |p.accepting| && p.accepting[i] !in p.states {
      assert multiset(b)[AcceptingNotAState(p.accepting[i])] > 0;
    }
  }

  /** The name of the input for state `q` and symbol `a` (line 49). */
  function InputName(q: Label, a: Symbol): string {
    q + "," + a
  }

  /** Line 71 reads the state and the symbol back from an input's name by
      splitting it at its commas; for comma-free names, as every parsed
      state and symbol is, that gives exactly the two. */
  lemma InputNameSplit(q: Label, a: Symbol)
    requires ',' !in q && ',' !in a
    ensures Split(InputName(q, a), ',') == [q, a]
  {
    SplitCons(q, a, ',');
    SplitNone(a, ',');
  }

  /** One row of the generated table: a state and the names of its inputs. */
  datatype InputRow = InputRow(state: Label, inputs: seq<string>)

  /** Lines 39-52: one row per state, one input per symbol of the alphabet. */
  function InputTable(states: seq<Label>, alphabet: seq<Symbol>): (r: seq<InputRow>)
    ensures |r| == |states|
    ensures forall i :: 0 <= i < |r| ==> r[i].state == states[i] && |r[i].inputs| == |alphabet|
    ensures forall i, j :: 0 <= i < |r| && 0 <= j < |alphabet| ==> r[i].inputs[j] == InputName(states[i], alphabet[j])
  {
    seq(|states|, i requires 0 <= i < |states| =>
      InputRow(states[i], seq(|alphabet|, j requires 0 <= j < |alphabet| => InputName(states[i], alphabet[j]))))
  }

  /** The texts of the problems, in order. */
  function Alerts(errors: seq<FormError>): (r: seq<string>)
    ensures |r| == |errors|
    ensures forall i :: 0 <= i < |r| ==> r[i] == Alert(errors[i])
  {
    seq(|errors|, i requires 0 <= i < |errors| => Alert(errors[i]))
  }

  /** Lines 2-52: the table of inputs when the form is acceptable, otherwise
      the alert text listing every problem. */
  function TransitionForm(f: Fields): (r: Result<seq<InputRow>, string>)
    ensures r.Success? <==> FormOk(ParseFields(f))
    ensures r.Success? ==> r.value == InputTable(ParseFields(f).states, ParseFields(f).alphabet)
    ensures r.Failure? ==> r.error == "Errores:\n" + Join(Alerts(FormErrors(ParseFields(f))), "\n")
  {
    var p := ParseFields(f);
    var errors := FormErrors(p);
    FormErrorsEmpty(p);
    if errors != [] then Failure("Errores:\n" + Join(Alerts(errors), "\n"))
    else Success(InputTable(p.states, p.alphabet))
  }

  /** Every input of the table built from comma-free states and symbols
      (as `ParseList` makes them, so every table an accepted form produces)
      reads back, at line 71, as the state of its row and the symbol of its
      column. */
  lemma InputTableRoundTrip(states: seq<Label>, alphabet: seq<Symbol>)
    requires forall i :: 0 <= i < |states| ==> ',' !in states[i]
    requires forall j :: 0 <= j < |alphabet| ==> ',' !in alphabet[j]
    ensures var rows := InputTable(states, alphabet);
      forall i, j :: 0 <= i < |rows| && 0 <= j < |alphabet| ==>
        Split(rows[i].inputs[j], ',') == [states[i], alphabet[j]]
  {
    var rows := InputTable(states, alphabet);
    forall i, j | 0 <= i < |rows| && 0 <= j < |alphabet|
      ensures Split(rows[i].inputs[j], ',') == [states[i], alphabet[j]]
    {
      InputNameSplit(states[i], alphabet[j]);
    }
  }
}
