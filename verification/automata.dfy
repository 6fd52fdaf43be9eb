/** The automaton value of backend/automata.py (`Automata`): its data, the
    determinism check `es_deterministico`, the lookup `obtener_transiciones`,
    and the ghost language semantics used to state what subset construction
    preserves. */
module Automata {
  import opened Results
  import opened Seqs

  /** A state name. */
  type Label = string

  /** A symbol of the input alphabet. */
  type Symbol = string

  /** A transition entry: the source stores either one destination label (a
      scalar, as the converted automaton does) or a list of them (as the page
      sends, one element per comma-separated field, `""` included). */
  datatype Dest = Scalar(name: Label) | Many(labels: seq<Label>)

  /** `transiciones`: state -> symbol -> entry; a missing key means "no entry". */
  type Transitions = map<Label, map<Symbol, Dest>>

  /** `Automata(estados, alfabeto, transiciones, estado_inicial, estados_finales)`.
      The source keeps `estados_finales` as a list but only ever asks
      whether a label is in it, so it is a set here. The constructor checks
      nothing. */
  datatype Automaton = Automaton(
    states: seq<Label>,
    alphabet: seq<Symbol>,
    transitions: Transitions,
    start: Label,
    accepting: set<Label>)

  /** The labels an entry names: the scalar itself, or every element of the list. */
  function DestLabels(d: Dest): set<Label> {
    match d
    case Scalar(x) => {x}
    case Many(xs) => Elems(xs)
  }

  /** An entry that offers a choice: a list with more than one element,
      even if its elements repeat. */
  ghost predicate Branches(d: Dest) {
    d.Many? && |d.labels| > 1
  }

  /** No entry of the table offers a choice. */
  ghost predicate Deterministic(t: Transitions) {
    forall q, a :: q in t && a in t[q] ==> !Branches(t[q][a])
  }

  /** `es_deterministico`: scans every (state, symbol) entry and answers false
      as soon as one is a list of length above one. Scalars, empty and
      one-element lists, and missing entries never make it false. */
  method IsDeterministic(m: Automaton) returns (r: bool)
    ensures r <==> Deterministic(m.transitions)
  {
    var t := m.transitions;
    var todo := t.Keys;
    while todo != {}
      invariant todo <= t.Keys
      invariant forall q, a :: q in t && q !in todo && a in t[q] ==> !Branches(t[q][a])
      decreases todo
    {
      var q :| q in todo;
      var row := t[q];
      var symbols := row.Keys;
      while symbols != {}
        invariant symbols <= row.Keys
        invariant forall a :: a in row && a !in symbols ==> !Branches(row[a])
        decreases symbols
      {
        var a :| a in symbols;
        var d := row[a];
        if d.Many? && |d.labels| > 1 {
          return false;
        }
        symbols := symbols - {a};
      }
      todo := todo - {q};
    }
    return true;
  }

  /** `obtener_transiciones(estado, simbolo)`: the stored entry when the state
      has one for the symbol, `None` otherwise. */
  function Lookup(m: Automaton, q: Label, a: Symbol): (r: Option<Dest>)
    ensures r.Some? <==> q in m.transitions && a in m.transitions[q]
    ensures r.Some? ==> r.value == m.transitions[q][a]
  {
    if q in m.transitions && a in m.transitions[q] then Some(m.transitions[q][a]) else None
  }

  /** The labels reachable from the set `s` on symbol `a`: the union of the
      entries of its members, where a member without an entry adds nothing. */
  ghost function Step(t: Transitions, s: set<Label>, a: Symbol): set<Label> {
    set q, x | q in s && q in t && a in t[q] && x in DestLabels(t[q][a]) :: x
  }

  /** The labels reachable from `s` by reading the word `w`, one symbol at a time. */
  ghost function Reach(t: Transitions, s: set<Label>, w: seq<Symbol>): set<Label>
    decreases |w|
  {
    if w == [] then s else Step(t, Reach(t, s, w[..|w| - 1]), w[|w| - 1])
  }

  /** Every symbol of `w` belongs to the alphabet. */
  ghost predicate OverAlphabet(w: seq<Symbol>, alphabet: seq<Symbol>) {
    forall i :: 0 <= i < |w| ==> w[i] in alphabet
  }

  /** The automaton accepts `w`: `w` is over its alphabet and reading it from
      the start can end in an accepting state. A label without an entry, known
      state or not, is a dead end. */
  ghost predicate Accepts(m: Automaton, w: seq<Symbol>) {
    OverAlphabet(w, m.alphabet) && Reach(m.transitions, {m.start}, w) * m.accepting != {}
  }

  /** One step from a single state is the looked-up entry's labels, or nothing
      when `obtener_transiciones` answers `None`. */
  lemma LookupStep(m: Automaton, q: Label, a: Symbol)
    ensures Step(m.transitions, {q}, a) ==
              match Lookup(m, q, a)
              case None => {}
              case Some(d) => DestLabels(d)
  {
    var t := m.transitions;
    if q in t && a in t[q] {
      forall x | x in DestLabels(t[q][a])
        ensures x in Step(t, {q}, a)
      {
      }
    }
  }

  /** Nothing is reachable from no state. */
  lemma ReachEmpty(t: Transitions, w: seq<Symbol>)
    ensures Reach(t, {}, w) == {}
    decreases |w|
  {
    if w != [] {
      ReachEmpty(t, w[..|w| - 1]);
    }
  }

  /** Reading a word and then one more symbol is one step from where the word led. */
  lemma ReachSnoc(t: Transitions, s: set<Label>, w: seq<Symbol>, a: Symbol)
    ensures Reach(t, s, w + [a]) == Step(t, Reach(t, s, w), a)
  {
    assert (w + [a])[..|w|] == w;
  }
}
