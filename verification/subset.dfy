/** The exploration half of `convertir_a_deterministico` (backend/automata.py,
    lines 35-84): a stack of sets of state labels, popped one at a time; for
    each symbol the union of the members' entries becomes the target set,
    named on first sight and pushed when first discovered. */
module Subset {
  import opened Seqs
  import opened Worklist
  import opened Text
  import opened Automata

  /** A set of original labels, the identity of a state of the converted automaton
      (the source's `frozenset`). */
  type StateSet = set<Label>

  /** The generated name `f"Q{k}"`: `Q` followed by decimal digits. */
  function FreshName(k: nat): (r: Label)
    ensures |r| >= 2 && r[0] == 'Q'
    ensures forall i :: 1 <= i < |r| ==> '0' <= r[i] <= '9'
  {
    "Q" + Decimal(k)
  }

  /** Different counters give different generated names. */
  lemma FreshNameInjective(j: nat, k: nat)
    ensures FreshName(j) == FreshName(k) ==> j == k
  {
    if FreshName(j) == FreshName(k) {
      assert FreshName(j)[1..] == Decimal(j);
      assert FreshName(k)[1..] == Decimal(k);
      DecimalInjective(j, k);
    }
  }

  /** The first counter value from `c` on whose generated name is not in
      `avoid`; with nothing to avoid, `c` itself. */
  function NextFree(avoid: set<Label>, c: nat): (k: nat)
    ensures c <= k && FreshName(k) !in avoid
    ensures forall j: nat :: c <= j < k ==> FreshName(j) in avoid
    decreases avoid
  {
    if FreshName(c) in avoid then
      var k := NextFree(avoid - {FreshName(c)}, c + 1);
      FreshNameInjective(k, c);
      k
    else c
  }

  /** The name map the source starts from: each state's singleton is named
      after the state. */
  function InitialNames(states: seq<Label>): map<StateSet, Label>
    decreases |states|
  {
    if states == [] then map[]
    else
      var q := states[|states| - 1];
      InitialNames(states[..|states| - 1])[{q} := q]
  }

  /** The initial name map holds exactly the singletons of states, each named after its state. */
  lemma {:induction false} InitialNamesSpec(states: seq<Label>)
    ensures forall q :: q in states ==> {q} in InitialNames(states) && InitialNames(states)[{q}] == q
    ensures forall s :: s in InitialNames(states) ==> exists q :: q in states && s == {q}
    decreases |states|
  {
    if states != [] {
      var init := states[..|states| - 1];
      InitialNamesSpec(init);
      assert states == init + [states[|states| - 1]];
      forall q | q in states
        ensures {q} in InitialNames(states) && InitialNames(states)[{q}] == q
      {
        if q != states[|states| - 1] {
          assert q in init;
          assert {q} != {states[|states| - 1]};
        }
      }
    }
  }

  /** The exploration starts from the set holding only the start label. */
  function StartSet(m: Automaton): StateSet {
    {m.start}
  }

  /** The name the start set receives: the start's own name when it is a
      listed state, otherwise the first generated name not in `avoid`. */
  function StartName(m: Automaton, avoid: set<Label>): Label {
    if m.start in m.states then m.start else FreshName(NextFree(avoid, 1))
  }

  /** The variables of the exploration loop: the generated names to skip
      (none in the source), `estado_nombre_map`, `nombre_actual`,
      `nuevos_estados`, `por_procesar`, the key order and the contents of
      `nuevas_transiciones`, and `nuevos_estados_finales`. */
  datatype Exploration = Exploration(
    avoid: set<Label>,
    names: map<StateSet, Label>,
    counter: nat,
    discovered: seq<StateSet>,
    pending: seq<StateSet>,
    order: seq<StateSet>,
    table: map<StateSet, map<Symbol, StateSet>>,
    finals: set<StateSet>)

  /** Every label any entry of the table names. */
  ghost function AllLabels(t: Transitions): set<Label> {
    set q, a, x | q in t && a in t[q] && x in DestLabels(t[q][a]) :: x
  }

  /** The labels a discovered set can hold: the start and every destination label. */
  ghost function Universe(m: Automaton): set<Label> {
    {m.start} + AllLabels(m.transitions)
  }

  /** An arbitrary element of a non-empty set. */
  ghost function Pick(s: set<Label>): Label
    requires s != {}
  {
    var x :| x in s; x
  }

  /** All subsets of `u`. */
  ghost function Powerset(u: set<Label>): set<StateSet>
    decreases u
  {
    if u == {} then {{}}
    else
      var x := Pick(u);
      var p := Powerset(u - {x});
      p + set y | y in p :: y + {x}
  }

  /** Every subset of `u` is in its powerset. */
  lemma {:induction false} InPowerset(y: StateSet, u: set<Label>)
    requires y <= u
    ensures y in Powerset(u)
    decreases u
  {
    if u != {} {
      var x := Pick(u);
      var p := Powerset(u - {x});
      InPowerset(y - {x}, u - {x});
      assert y - {x} in p;
      assert Powerset(u) == p + set z | z in p :: z + {x};
      if x in y {
        assert y == (y - {x}) + {x};
        assert (y - {x}) + {x} in set z | z in p :: z + {x};
      } else {
        assert y == y - {x};
      }
    } else {
      assert y == {};
    }
  }

  /** One step never leaves the labels the table mentions. */
  lemma StepInUniverse(m: Automaton, s: StateSet, a: Symbol)
    ensures Step(m.transitions, s, a) <= Universe(m)
  {
  }

  /** `row` is the finished transition row of `s` for the symbols in
      `symbols`: a symbol has an entry exactly when the union is non-empty,
      and the entry is that union. */
  ghost predicate RowMatches(m: Automaton, s: StateSet, row: map<Symbol, StateSet>, symbols: set<Symbol>) {
    && row.Keys <= symbols
    && (forall a :: a in symbols ==> (a in row <==> Step(m.transitions, s, a) != {}))
    && (forall a :: a in row ==> row[a] == Step(m.transitions, s, a))
  }

  /** The name map during the run. */
  ghost predicate NamesInv(m: Automaton, init: map<StateSet, Label>, w: Exploration, num: map<StateSet, nat>) {
    && Numbering(init, FreshName, w.avoid, w.names, Elems(w.discovered), num, w.counter)
    && StartSet(m) in w.names && w.names[StartSet(m)] == StartName(m, w.avoid)
  }

  /** The worklist, the discovered sets and the table during the run: the
      bookkeeping of the lists, the shape of the table, the accepting sets
      as the recorded targets holding an accepting label (lines 83-84), and
      every discovered set a non-empty set of labels the automaton mentions. */
  ghost predicate WorkInv(m: Automaton, w: Exploration) {
    && Bookkeeping(StartSet(m), w.discovered, w.pending, w.order, w.table.Keys)
    && Shape(w.table, w.discovered, w.pending)
    && w.finals == Marked(m.accepting, w.table)
    && (forall s :: s in w.discovered ==> s != {} && s <= Universe(m))
  }

  /** Every processed set other than those in `except` has its finished row. */
  ghost predicate RowsDone(m: Automaton, w: Exploration, except: set<StateSet>) {
    forall s :: s in w.table && s !in w.pending && s !in except ==>
      RowMatches(m, s, w.table[s], Elems(m.alphabet))
  }

  /** `paths` holds, for every discovered set, a word over the alphabet that
      leads from the start set to exactly that set. */
  ghost predicate PathsInv(m: Automaton, w: Exploration, paths: map<StateSet, seq<Symbol>>) {
    forall s :: s in w.discovered ==>
      s in paths && OverAlphabet(paths[s], m.alphabet) && Reach(m.transitions, StartSet(m), paths[s]) == s
  }

  /** Adding one member to a set adds that member's one-step labels. */
  lemma StepInsert(t: Transitions, s: StateSet, q: Label, a: Symbol)
    ensures Step(t, s + {q}, a) == Step(t, s, a) + Step(t, {q}, a)
  {
  }

  /** Lines 59-67: the union, over the members of `s`, of their entries for
      `a`, where a list adds all its elements and a scalar adds itself
      (`""` included). */
  method Union(t: Transitions, s: StateSet, a: Symbol) returns (u: StateSet)
    ensures u == Step(t, s, a)
  {
    u := {};
    var todo := s;
    while todo != {}
      invariant todo <= s
      invariant u == Step(t, s - todo, a)
      decreases todo
    {
      var q :| q in todo;
      StepInsert(t, s - todo, q, a);
      LookupStep(Automaton([], [], t, q, {}), q, a);
      if q in t && a in t[q] {
        match t[q][a]
        case Many(xs) => u := u + Elems(xs);
        case Scalar(x) => u := u + {x};
      }
      assert s - (todo - {q}) == (s - todo) + {q};
      todo := todo - {q};
    }
    assert s - todo == s;
  }

  /** Lines 70-84 for one non-empty union `target` reached from `s` on `a`:
      name the target if it is new, record the transition, push the target
      if it was never discovered, and mark it accepting if it holds an
      accepting label. A set already named keeps its name; a new one gets
      the first generated name from the counter on that is not to be
      skipped, and the counter moves past it. */
  function Record(m: Automaton, w: Exploration, s: StateSet, a: Symbol, target: StateSet): (w': Exploration)
    requires s in w.table
    ensures forall x :: x in w.names ==> x in w'.names && w'.names[x] == w.names[x]
    ensures target in w'.names
    ensures w'.avoid == w.avoid
    ensures target !in w.names ==> var k := NextFree(w.avoid, w.counter);
      w'.names[target] == FreshName(k) && w'.counter == k + 1
    ensures target in w.names ==> w'.counter == w.counter
    ensures target in w'.discovered && w'.table.Keys == w.table.Keys
    ensures target in w.discovered ==> w'.pending == w.pending
    ensures target !in w.discovered ==> w'.pending == w.pending + [target]
  {
    var k := NextFree(w.avoid, w.counter);
    var names := if target in w.names then w.names else w.names[target := FreshName(k)];
    var counter := if target in w.names then w.counter else k + 1;
    var table := w.table[s := w.table[s][a := target]];
    var discovered := if target in w.discovered then w.discovered else w.discovered + [target];
    var pending := if target in w.discovered then w.pending else w.pending + [target];
    var finals := if target * m.accepting != {} then w.finals + {target} else w.finals;
    assert a in table[s];
    Exploration(w.avoid, names, counter, discovered, pending, w.order, table, finals)
  }

  /** The facts `Record` keeps for the names. */
  lemma RecordNames(m: Automaton, init: map<StateSet, Label>, w: Exploration, num: map<StateSet, nat>, s: StateSet, a: Symbol, target: StateSet)
    returns (num': map<StateSet, nat>)
    requires NamesInv(m, init, w, num)
    requires s in w.table
    ensures NamesInv(m, init, Record(m, w, s, a, target), num')
  {
    if target in w.names {
      num' := num;
      RecordNamesKnown(m, init, w, num, s, a, target);
    } else {
      num' := num[target := NextFree(w.avoid, w.counter)];
      RecordNamesFresh(m, init, w, num, s, a, target);
    }
  }

  /** A target that already has a name keeps the name map and the counter. */
  lemma RecordNamesKnown(m: Automaton, init: map<StateSet, Label>, w: Exploration, num: map<StateSet, nat>, s: StateSet, a: Symbol, target: StateSet)
    requires NamesInv(m, init, w, num)
    requires s in w.table && target in w.names
    ensures NamesInv(m, init, Record(m, w, s, a, target), num)
  {
    var w' := Record(m, w, s, a, target);
    assert w'.names == w.names && w'.counter == w.counter;
    if target !in w.discovered {
      ElemsSnoc(w.discovered, target);
      assert w'.discovered == w.discovered + [target];
    } else {
      assert w'.discovered == w.discovered;
    }
    assert Elems(w'.discovered) == Elems(w.discovered) + {target};
    NumberingKnown(init, FreshName, w.avoid, w.names, Elems(w.discovered), num, w.counter, target);
  }

  /** A target without a name gets the next generated name not to be
      skipped, distinct from every name made before. */
  lemma RecordNamesFresh(m: Automaton, init: map<StateSet, Label>, w: Exploration, num: map<StateSet, nat>, s: StateSet, a: Symbol, target: StateSet)
    requires NamesInv(m, init, w, num)
    requires s in w.table && target !in w.names
    ensures NamesInv(m, init, Record(m, w, s, a, target), num[target := NextFree(w.avoid, w.counter)])
  {
    var w' := Record(m, w, s, a, target);
    var k := NextFree(w.avoid, w.counter);
    assert target !in w.discovered;
    assert w'.discovered == w.discovered + [target];
    ElemsSnoc(w.discovered, target);
    assert w'.names == w.names[target := FreshName(k)];
    NumberingFresh(init, FreshName, w.avoid, w.names, Elems(w.discovered), num, w.counter, target, k);
  }

  /** Recording a non-empty union keeps the worklist invariant: a target
      never discovered before is appended to the discovered sets and pushed
      on the worklist, once. */
  lemma RecordWork(m: Automaton, w: Exploration, s: StateSet, a: Symbol, target: StateSet)
    requires WorkInv(m, w)
    requires s in w.table && s !in w.pending
    requires a in w.table[s] ==> w.table[s][a] == target
    requires target != {} && target <= Universe(m)
    ensures WorkInv(m, Record(m, w, s, a, target))
  {
    var w' := Record(m, w, s, a, target);
    if target in w.discovered {
      assert w'.discovered == w.discovered && w'.pending == w.pending;
    } else {
      assert w'.discovered == w.discovered + [target] && w'.pending == w.pending + [target];
      BookkeepingPush(StartSet(m), w.discovered, w.pending, w.order, w.table.Keys, target);
      ElemsSnoc(w.discovered, target);
      assert target !in w.table;
    }
    assert w'.table == w.table[s := w.table[s][a := target]];
    ShapeRecord(w.table, w.discovered, w.pending, s, a, target, w'.discovered, w'.pending);
    MarkedRecord(m.accepting, w.table, s, a, target);
  }

  /** Recording keeps a path to every discovered set: the new target is
      reached by the path to `s` followed by `a`. */
  lemma RecordPaths(m: Automaton, w: Exploration, paths: map<StateSet, seq<Symbol>>, s: StateSet, i: nat)
    returns (paths': map<StateSet, seq<Symbol>>)
    requires PathsInv(m, w, paths)
    requires s in w.table && s in w.discovered && i < |m.alphabet|
    ensures PathsInv(m, Record(m, w, s, m.alphabet[i], Step(m.transitions, s, m.alphabet[i])), paths')
  {
    var a := m.alphabet[i];
    var t := m.transitions;
    var target := Step(t, s, a);
    var w' := Record(m, w, s, a, target);
    ReachSnoc(t, StartSet(m), paths[s], a);
    if target in w.discovered {
      paths' := paths;
      assert w'.discovered == w.discovered;
    } else {
      paths' := paths[target := paths[s] + [a]];
      assert w'.discovered == w.discovered + [target];
      forall x | x in w'.discovered
        ensures x in paths' && OverAlphabet(paths'[x], m.alphabet)
                && Reach(t, StartSet(m), paths'[x]) == x
      {
        if x == target {
          assert paths'[x] == paths[s] + [a];
        } else {
          assert x in w.discovered;
        }
      }
    }
    assert PathsInv(m, w', paths');
  }

  /** Recording the union for the `i`-th symbol extends the row of `s` by that
      symbol and leaves every other row alone. */
  lemma RecordRows(m: Automaton, w: Exploration, s: StateSet, i: nat)
    requires s in w.table && s !in w.pending
    requires i < |m.alphabet|
    requires Step(m.transitions, s, m.alphabet[i]) !in w.discovered ==> Step(m.transitions, s, m.alphabet[i]) !in w.table
    requires Step(m.transitions, s, m.alphabet[i]) != {}
    requires RowsDone(m, w, {s})
    requires RowMatches(m, s, w.table[s], Elems(m.alphabet[..i]))
    ensures var w' := Record(m, w, s, m.alphabet[i], Step(m.transitions, s, m.alphabet[i]));
      RowsDone(m, w', {s}) && RowMatches(m, s, w'.table[s], Elems(m.alphabet[..i + 1]))
  {
    var a := m.alphabet[i];
    var target := Step(m.transitions, s, a);
    var w' := Record(m, w, s, a, target);
    ElemsPrefix(m.alphabet, i);
    assert w'.table == w.table[s := w.table[s][a := target]];
    assert w'.pending == w.pending || w'.pending == w.pending + [target];
    assert RowsDone(m, w', {s});
    RowMatchesExtend(m, s, w.table[s], Elems(m.alphabet[..i]), a);
  }

  /** Entering the non-empty step for one more symbol extends a matching row. */
  lemma RowMatchesExtend(m: Automaton, s: StateSet, row: map<Symbol, StateSet>, symbols: set<Symbol>, a: Symbol)
    requires RowMatches(m, s, row, symbols)
    requires Step(m.transitions, s, a) != {}
    ensures RowMatches(m, s, row[a := Step(m.transitions, s, a)], symbols + {a})
  {
  }

  /** The state of the scan over the alphabet for the popped set `s`, after
      the first `i` symbols: the names, paths and worklist invariants hold,
      every row but that of `s` is finished, the row of `s` is finished for
      the first `i` symbols, and every set discovered meanwhile is pending. */
  ghost predicate ScanInv(m: Automaton, init: map<StateSet, Label>, w0: Exploration, w: Exploration, num: map<StateSet, nat>,
                          paths: map<StateSet, seq<Symbol>>, s: StateSet, i: nat)
  {
    && i <= |m.alphabet|
    && NamesInv(m, init, w, num) && PathsInv(m, w, paths)
    && ScanWorkInv(m, w0, w, s, i)
  }

  /** The worklist part of `ScanInv`. */
  ghost predicate ScanWorkInv(m: Automaton, w0: Exploration, w: Exploration, s: StateSet, i: nat)
    requires i <= |m.alphabet|
  {
    && WorkInv(m, w)
    && RowsDone(m, w, {s})
    && s in w.discovered && s !in w.pending && s in w.table
    && RowMatches(m, s, w.table[s], Elems(m.alphabet[..i]))
    && |w0.discovered| <= |w.discovered|
    && |w.pending| - |w0.pending| == |w.discovered| - |w0.discovered|
  }

  /** One symbol with a non-empty union: the worklist part. */
  lemma ScanRecordWork(m: Automaton, w0: Exploration, w: Exploration, s: StateSet, i: nat)
    requires i < |m.alphabet| && Step(m.transitions, s, m.alphabet[i]) != {}
    requires ScanWorkInv(m, w0, w, s, i)
    ensures ScanWorkInv(m, w0, Record(m, w, s, m.alphabet[i], Step(m.transitions, s, m.alphabet[i])), s, i + 1)
  {
    var a := m.alphabet[i];
    var target := Step(m.transitions, s, a);
    var w' := Record(m, w, s, a, target);
    StepInUniverse(m, s, a);
    RecordWork(m, w, s, a, target);
    RecordRows(m, w, s, i);
  }

  /** One symbol with a non-empty union. */
  lemma ScanRecord(m: Automaton, init: map<StateSet, Label>, w0: Exploration, w: Exploration, num: map<StateSet, nat>,
                   paths: map<StateSet, seq<Symbol>>, s: StateSet, i: nat)
    returns (num': map<StateSet, nat>, paths': map<StateSet, seq<Symbol>>)
    requires ScanInv(m, init, w0, w, num, paths, s, i)
    requires i < |m.alphabet| && Step(m.transitions, s, m.alphabet[i]) != {}
    ensures ScanInv(m, init, w0, Record(m, w, s, m.alphabet[i], Step(m.transitions, s, m.alphabet[i])), num', paths', s, i + 1)
  {
    num' := RecordNames(m, init, w, num, s, m.alphabet[i], Step(m.transitions, s, m.alphabet[i]));
    paths' := RecordPaths(m, w, paths, s, i);
    ScanRecordWork(m, w0, w, s, i);
  }

  /** One symbol with an empty union: nothing is recorded. */
  lemma ScanSkip(m: Automaton, init: map<StateSet, Label>, w0: Exploration, w: Exploration, num: map<StateSet, nat>,
                 paths: map<StateSet, seq<Symbol>>, s: StateSet, i: nat)
    requires ScanInv(m, init, w0, w, num, paths, s, i)
    requires i < |m.alphabet| && Step(m.transitions, s, m.alphabet[i]) == {}
    ensures ScanInv(m, init, w0, w, num, paths, s, i + 1)
  {
    RowSkip(m, s, w.table[s], i);
  }

  /** An empty union leaves the row without an entry for the symbol. */
  lemma RowSkip(m: Automaton, s: StateSet, row: map<Symbol, StateSet>, i: nat)
    requires i < |m.alphabet| && Step(m.transitions, s, m.alphabet[i]) == {}
    requires RowMatches(m, s, row, Elems(m.alphabet[..i]))
    requires m.alphabet[i] !in row
    ensures RowMatches(m, s, row, Elems(m.alphabet[..i + 1]))
  {
    ElemsPrefix(m.alphabet, i);
  }

  /** Lines 58-84 for one popped set `s`: every symbol of the alphabet in
      order, recording a transition whenever the union is non-empty. */
  method ProcessSet(m: Automaton, ghost init: map<StateSet, Label>, w0: Exploration, s: StateSet,
                    ghost num0: map<StateSet, nat>, ghost paths0: map<StateSet, seq<Symbol>>)
    returns (w: Exploration, ghost num: map<StateSet, nat>, ghost paths: map<StateSet, seq<Symbol>>)
    requires NamesInv(m, init, w0, num0) && WorkInv(m, w0) && PathsInv(m, w0, paths0)
    requires RowsDone(m, w0, {s})
    requires s in w0.discovered && s !in w0.pending && s in w0.table && w0.table[s] == map[]
    ensures w.avoid == w0.avoid
    ensures NamesInv(m, init, w, num) && WorkInv(m, w) && PathsInv(m, w, paths)
    ensures RowsDone(m, w, {})
    ensures |w0.discovered| <= |w.discovered|
    ensures |w.pending| - |w0.pending| == |w.discovered| - |w0.discovered|
  {
    w, num, paths := w0, num0, paths0;
    var i := 0;
    while i < |m.alphabet|
      invariant w.avoid == w0.avoid
      invariant ScanInv(m, init, w0, w, num, paths, s, i)
    {
      var a := m.alphabet[i];
      var target := Union(m.transitions, s, a);
      if target != {} {
        num, paths := ScanRecord(m, init, w0, w, num, paths, s, i);
        w := Record(m, w, s, a, target);
      } else {
        ScanSkip(m, init, w0, w, num, paths, s, i);
      }
      i := i + 1;
    }
    PrefixWhole(m.alphabet);
  }

  /** Lines 35-53: the name map with the start set named, the start set
      discovered, pending and given an empty row. */
  function Start(m: Automaton, avoid: set<Label>): (w: Exploration)
    ensures w.avoid == avoid
    ensures StartSet(m) in w.names && w.names[StartSet(m)] == StartName(m, avoid)
    ensures w.discovered == w.pending == w.order == [StartSet(m)]
    ensures w.table == map[StartSet(m) := map[]] && w.finals == {}
  {
    var init := InitialNames(m.states);
    InitialNamesSpec(m.states);
    if StartSet(m) in init then
      Exploration(avoid, init, 1, [StartSet(m)], [StartSet(m)], [StartSet(m)], map[StartSet(m) := map[]], {})
    else
      var k := NextFree(avoid, 1);
      Exploration(avoid, init[StartSet(m) := FreshName(k)], k + 1, [StartSet(m)], [StartSet(m)], [StartSet(m)],
                  map[StartSet(m) := map[]], {})
  }

  /** The invariants hold at the start, with no processed set yet. */
  lemma StartInv(m: Automaton, avoid: set<Label>)
    returns (num: map<StateSet, nat>, paths: map<StateSet, seq<Symbol>>)
    ensures var w := Start(m, avoid);
      && NamesInv(m, InitialNames(m.states), w, num) && WorkInv(m, w) && PathsInv(m, w, paths)
      && RowsDone(m, w, {})
  {
    num := StartNames(m, avoid);
    paths := map[StartSet(m) := []];
    StartWork(m, avoid);
    assert Reach(m.transitions, StartSet(m), []) == StartSet(m);
  }

  /** At the start only the start set has a counter value, and only when
      it has no name of its own. */
  lemma StartNames(m: Automaton, avoid: set<Label>) returns (num: map<StateSet, nat>)
    ensures NamesInv(m, InitialNames(m.states), Start(m, avoid), num)
  {
    if StartSet(m) in InitialNames(m.states) {
      num := map[];
      StartNamesOwn(m, avoid);
    } else {
      num := map[StartSet(m) := NextFree(avoid, 1)];
      StartNamesFresh(m, avoid);
    }
  }

  /** A start set named after its own state takes no counter value. */
  lemma StartNamesOwn(m: Automaton, avoid: set<Label>)
    requires StartSet(m) in InitialNames(m.states)
    ensures NamesInv(m, InitialNames(m.states), Start(m, avoid), map[])
  {
    assert Elems(Start(m, avoid).discovered) == {StartSet(m)};
  }

  /** A start set without a name of its own takes the first free counter value. */
  lemma StartNamesFresh(m: Automaton, avoid: set<Label>)
    requires StartSet(m) !in InitialNames(m.states)
    ensures NamesInv(m, InitialNames(m.states), Start(m, avoid), map[StartSet(m) := NextFree(avoid, 1)])
  {
    assert Elems(Start(m, avoid).discovered) == {StartSet(m)};
  }

  /** At the start the worklist invariants hold and no row is due yet. */
  lemma StartWork(m: Automaton, avoid: set<Label>)
    ensures WorkInv(m, Start(m, avoid)) && RowsDone(m, Start(m, avoid), {})
  {
    var w := Start(m, avoid);
    assert Elems(w.discovered) == {StartSet(m)};
    assert Targets(w.table) == {};
  }

  /** Lines 55-56: pop the top of the stack and give it an empty row; a set
      that was not yet a key of the table enters its key order. */
  function Pop(w: Exploration): (w': Exploration)
    requires |w.pending| > 0
    ensures w'.avoid == w.avoid && w'.pending == w.pending[..|w.pending| - 1]
    ensures w'.table == w.table[w.pending[|w.pending| - 1] := map[]]
  {
    var s := w.pending[|w.pending| - 1];
    w.(pending := w.pending[..|w.pending| - 1],
       order := if s in w.table then w.order else w.order + [s],
       table := w.table[s := map[]])
  }

  /** Popping keeps the invariants and leaves the popped set ready for its scan. */
  lemma PopInv(m: Automaton, init: map<StateSet, Label>, w: Exploration, num: map<StateSet, nat>,
               paths: map<StateSet, seq<Symbol>>)
    requires NamesInv(m, init, w, num) && WorkInv(m, w) && PathsInv(m, w, paths)
    requires RowsDone(m, w, {})
    requires |w.pending| > 0
    ensures var s := w.pending[|w.pending| - 1]; var w' := Pop(w);
      && NamesInv(m, init, w', num) && WorkInv(m, w') && PathsInv(m, w', paths)
      && RowsDone(m, w', {s})
      && s in w'.discovered && s !in w'.pending && s in w'.table && w'.table[s] == map[]
      && |w'.discovered| == |w.discovered| && |w'.pending| == |w.pending| - 1
  {
    PopWork(m, w);
    PopRows(m, w);
  }

  /** Popping keeps the worklist invariant. */
  lemma PopWork(m: Automaton, w: Exploration)
    requires WorkInv(m, w)
    requires |w.pending| > 0
    ensures var s := w.pending[|w.pending| - 1]; var w' := Pop(w);
      && WorkInv(m, w')
      && s in w'.discovered && s !in w'.pending && s in w'.table && w'.table[s] == map[]
  {
    var s := w.pending[|w.pending| - 1];
    var w' := Pop(w);
    BookkeepingPop(StartSet(m), w.discovered, w.pending, w.order, w.table.Keys);
    ShapePop(w.table, w.discovered, w.pending);
    MarkedEmptyRow(m.accepting, w.table, s);
    ElemsDropLast(w.pending);
    assert w'.table.Keys == w.table.Keys + {s};
  }

  /** Popping leaves every finished row alone. */
  lemma PopRows(m: Automaton, w: Exploration)
    requires RowsDone(m, w, {})
    requires |w.pending| > 0 && Distinct(w.pending)
    ensures RowsDone(m, Pop(w), {w.pending[|w.pending| - 1]})
  {
    ElemsDropLast(w.pending);
  }

  /** There are no more discovered sets than subsets of the labels the
      automaton mentions. */
  lemma DiscoveredBound(m: Automaton, w: Exploration)
    requires WorkInv(m, w)
    ensures |w.discovered| <= |Powerset(Universe(m))|
  {
    forall x | x in Elems(w.discovered)
      ensures x in Powerset(Universe(m))
    {
      InPowerset(x, Universe(m));
    }
    DistinctBound(w.discovered, Powerset(Universe(m)));
  }

  /** Lines 35-84: the whole exploration. When the stack is empty, the table
      has exactly the discovered sets as keys, each with its finished row;
      it is closed under its transitions; the accepting sets are the
      recorded targets holding an accepting label; every discovered set has
      a name and a word over the alphabet leading to it. No generated name
      is in `avoid`. */
  method Explore(m: Automaton, avoid: set<Label>) returns (w: Exploration, ghost num: map<StateSet, nat>, ghost paths: map<StateSet, seq<Symbol>>)
    ensures w.avoid == avoid
    ensures NamesInv(m, InitialNames(m.states), w, num) && WorkInv(m, w) && PathsInv(m, w, paths)
    ensures w.pending == []
    ensures w.table.Keys == Elems(w.discovered)
    ensures forall s :: s in w.table ==> RowMatches(m, s, w.table[s], Elems(m.alphabet))
  {
    ghost var init := InitialNames(m.states);
    w := Start(m, avoid);
    num, paths := StartInv(m, avoid);
    while |w.pending| > 0
      invariant w.avoid == avoid
      invariant NamesInv(m, init, w, num) && WorkInv(m, w) && PathsInv(m, w, paths)
      invariant RowsDone(m, w, {})
      decreases |Powerset(Universe(m))| - |w.discovered|, |w.pending|
    {
      DiscoveredBound(m, w);
      var s := w.pending[|w.pending| - 1];
      PopInv(m, init, w, num, paths);
      w := Pop(w);
      w, num, paths := ProcessSet(m, init, w, s, num, paths);
      DiscoveredBound(m, w);
    }
  }
}
