/** The renaming half of `convertir_a_deterministico` (backend/automata.py,
    lines 86-106) and what the whole conversion computes: an automaton with
    one scalar entry per (state, symbol) at most, accepting the same
    non-empty words as the original. */
module Determinize {
  import opened Seqs
  import opened Worklist
  import opened Automata
  import opened Subset

  /** What the exploration leaves behind: the invariants of the run, an
      empty stack, every discovered set a key of the table with its finished
      row. */
  ghost predicate Explored(m: Automaton, w: Exploration, num: map<StateSet, nat>, paths: map<StateSet, seq<Symbol>>) {
    && NamesInv(m, InitialNames(m.states), w, num) && WorkInv(m, w) && PathsInv(m, w, paths)
    && w.pending == []
    && w.table.Keys == Elems(w.discovered)
    && (forall s :: s in w.table ==> RowMatches(m, s, w.table[s], Elems(m.alphabet)))
  }

  /** The table can be renamed: its keys, in key order, all have names and
      every recorded target and accepting set is a key. */
  ghost predicate Renamable(m: Automaton, w: Exploration) {
    && w.table.Keys == Elems(w.order)
    && w.table.Keys <= w.names.Keys
    && (forall s, a :: s in w.table && a in w.table[s] ==> w.table[s][a] in w.table)
    && w.finals <= w.table.Keys
    && StartSet(m) in w.names
  }

  /** Lines 91-94: the renamed row of one set: for each symbol of the
      alphabet with a non-empty target, the target's name as a scalar. */
  function RenameRow(m: Automaton, names: map<StateSet, Label>, row: map<Symbol, StateSet>): (r: map<Symbol, Dest>)
    requires forall a :: a in row ==> row[a] in names
    ensures forall a :: a in r <==> a in row && a in m.alphabet && row[a] != {}
    ensures forall a :: a in r ==> r[a] == Scalar(names[row[a]])
  {
    map a | a in row && a in m.alphabet && row[a] != {} :: Scalar(names[row[a]])
  }

  /** Every entry of the table is a scalar, for a symbol of `alphabet`. */
  ghost predicate ScalarRows(t: Transitions, alphabet: seq<Symbol>) {
    && (forall q, a :: q in t && a in t[q] ==> t[q][a].Scalar?)
    && (forall q :: q in t ==> t[q].Keys <= Elems(alphabet))
  }

  /** The renamed row of every key of the table. */
  function RenamedRows(m: Automaton, w: Exploration): (rows: map<StateSet, map<Symbol, Dest>>)
    requires Renamable(m, w)
    ensures rows.Keys == w.table.Keys
    ensures forall s :: s in rows ==> rows[s] == RenameRow(m, w.names, w.table[s])
  {
    map s | s in w.table :: RenameRow(m, w.names, w.table[s])
  }

  /** Lines 86-106: the converted automaton. Walking the table in key order,
      each set's renamed row is stored under the set's name (a name enters
      the state list at its first insertion, and a later set with the same
      name replaces the row); the start is the start set's name and the
      accepting states are the names of the accepting sets. */
  function Rename(m: Automaton, w: Exploration): (dfa: Automaton)
    requires Renamable(m, w)
    ensures dfa.alphabet == m.alphabet && dfa.start == w.names[StartSet(m)]
    ensures Distinct(dfa.states) && Elems(dfa.states) == dfa.transitions.Keys
    ensures |w.order| > 0 ==> |dfa.states| > 0 && dfa.states[0] == w.names[w.order[0]]
    ensures ScalarRows(dfa.transitions, m.alphabet)
  {
    var r := Rekey(w.order, w.names, RenamedRows(m, w));
    RekeyedScalar(m, w);
    Automaton(r.keys, m.alphabet, r.rows, w.names[StartSet(m)], set s | s in w.finals :: w.names[s])
  }

  /** Every row the re-keying keeps is some set's renamed row, so its
      entries are scalars for symbols of the alphabet. */
  lemma RekeyedScalar(m: Automaton, w: Exploration)
    requires Renamable(m, w)
    ensures ScalarRows(Rekey(w.order, w.names, RenamedRows(m, w)).rows, m.alphabet)
  {
    var rows := RenamedRows(m, w);
    var t: Transitions := Rekey(w.order, w.names, rows).rows;
    forall q | q in t
      ensures (forall a :: a in t[q] ==> t[q][a].Scalar?) && t[q].Keys <= Elems(m.alphabet)
    {
      var s :| s in w.order && w.names[s] == q && rows[s] == t[q];
      assert t[q] == RenameRow(m, w.names, w.table[s]);
    }
  }

  /** No generated name `Qk` (counting from 1, as the numbering does) is
      the name of an original state. The source does not check this; when it fails, two different sets can receive the
      same name and the renamed table merges their rows. */
  ghost predicate NoCollision(m: Automaton) {
    forall k: nat :: k >= 1 ==> FreshName(k) !in m.states
  }

  /** Every generated name that is the name of an original state is one the
      exploration skips. With nothing skipped this is `NoCollision`; skipping
      the state names makes it hold for every automaton. */
  ghost predicate Unclashed(m: Automaton, avoid: set<Label>) {
    forall k: nat :: k >= 1 && FreshName(k) in m.states ==> FreshName(k) in avoid
  }

  /** Different discovered sets get different names. */
  ghost predicate NamesDistinct(w: Exploration) {
    forall s, s' :: s in w.order && s' in w.order && s != s' && s in w.names && s' in w.names ==> w.names[s] != w.names[s']
  }

  /** The name map is injective on the sets it names when the generated
      names do not clash with the states': the states' own names are
      distinct, generated names are distinct, and no generated name in use
      is a state's name. */
  lemma NamesInjective(m: Automaton, w: Exploration, num: map<StateSet, nat>, s: StateSet, s': StateSet)
    requires Unclashed(m, w.avoid)
    requires NamesInv(m, InitialNames(m.states), w, num)
    requires s in w.names && s' in w.names && s != s'
    ensures w.names[s] != w.names[s']
  {
    var init := InitialNames(m.states);
    InitialNamesSpec(m.states);
    forall i: nat, j: nat | i != j
      ensures FreshName(i) != FreshName(j)
    {
      FreshNameInjective(i, j);
    }
    forall x, y | x in init && y in init && x != y
      ensures init[x] != init[y]
    {
      var q :| q in m.states && x == {q};
      var q' :| q' in m.states && y == {q'};
    }
    forall n: nat, x | x in init && n >= 1 && FreshName(n) !in w.avoid
      ensures FreshName(n) != init[x]
    {
      var q :| q in m.states && x == {q};
    }
    NumberingInjective(init, FreshName, w.avoid, w.names, Elems(w.discovered), num, w.counter, s, s');
  }

  /** The facts about a finished table the renaming lemmas use: it can be
      renamed, its key order has no repetition, its sets have distinct
      names, the start set is a key, and every row is finished. */
  ghost predicate Settled(m: Automaton, w: Exploration) {
    && Renamable(m, w) && Distinct(w.order) && NamesDistinct(w)
    && StartSet(m) in w.table
    && (forall s :: s in w.table ==> RowMatches(m, s, w.table[s], Elems(m.alphabet)))
  }

  /** A finished exploration can be renamed, with the start set first in key order. */
  lemma ExploredRenamable(m: Automaton, w: Exploration, num: map<StateSet, nat>, paths: map<StateSet, seq<Symbol>>)
    requires Explored(m, w, num, paths)
    ensures Renamable(m, w) && Distinct(w.order) && |w.order| > 0 && w.order[0] == StartSet(m)
  {
    assert Targets(w.table) <= Elems(w.discovered);
  }

  /** Without a clash of names, a finished exploration is settled. */
  lemma ExploredSettled(m: Automaton, w: Exploration, num: map<StateSet, nat>, paths: map<StateSet, seq<Symbol>>)
    requires Explored(m, w, num, paths) && Unclashed(m, w.avoid)
    ensures Settled(m, w)
  {
    ExploredRenamable(m, w, num, paths);
    forall s, s' | s in w.order && s' in w.order && s != s' && s in w.names && s' in w.names
      ensures w.names[s] != w.names[s']
    {
      NamesInjective(m, w, num, s, s');
    }
  }

  /** With distinct names, the renamed automaton's table holds, under the
      name of each key of the finished table, exactly that key's renamed row. */
  lemma RenameSpec(m: Automaton, w: Exploration, s: StateSet)
    requires Renamable(m, w) && Distinct(w.order) && NamesDistinct(w)
    requires s in w.table
    ensures var dfa := Rename(m, w);
      w.names[s] in dfa.transitions && dfa.transitions[w.names[s]] == RenameRow(m, w.names, w.table[s])
  {
    RekeySpec(w.order, w.names, RenamedRows(m, w));
  }

  /** One step of the renamed automaton from the name of a key: the name of
      the union the original reaches from that set, or nothing when the union
      is empty. */
  lemma RenamedStep(m: Automaton, w: Exploration, s: StateSet, a: Symbol)
    requires Settled(m, w)
    requires s in w.table && a in m.alphabet
    ensures var u := Step(m.transitions, s, a);
      Step(Rename(m, w).transitions, {w.names[s]}, a) == if u == {} then {} else {w.names[u]}
  {
    var dfa := Rename(m, w);
    RenameSpec(m, w, s);
    LookupStep(dfa, w.names[s], a);
  }

  /** Reading a word over the alphabet, the renamed automaton is in the
      single state named after the set of labels the original reaches, or in
      no state when that set is empty; a non-empty reached set is a key. */
  lemma {:induction false} Simulate(m: Automaton, w: Exploration, word: seq<Symbol>)
    requires Settled(m, w)
    requires OverAlphabet(word, m.alphabet)
    ensures var r := Reach(m.transitions, StartSet(m), word);
      var d := Reach(Rename(m, w).transitions, {Rename(m, w).start}, word);
      && (r == {} ==> d == {})
      && (r != {} ==> r in w.table && d == {w.names[r]})
    decreases |word|
  {
    if word != [] {
      var prefix := word[..|word| - 1];
      var a := word[|word| - 1];
      assert OverAlphabet(prefix, m.alphabet) by {
        forall i | 0 <= i < |prefix|
          ensures prefix[i] in m.alphabet
        {
          assert prefix[i] == word[i];
        }
      }
      assert a in m.alphabet;
      Simulate(m, w, prefix);
      var r := Reach(m.transitions, StartSet(m), prefix);
      if r != {} {
        RenamedStep(m, w, r, a);
        var u := Step(m.transitions, r, a);
        if u != {} {
          assert w.table[r][a] == u;
        }
      }
    }
  }

  /** The renamed automaton accepts a word exactly when the word is over the
      alphabet and the set of labels it leads to in the original is a
      non-empty set marked accepting. */
  lemma AcceptsRenamed(m: Automaton, w: Exploration, word: seq<Symbol>)
    requires Settled(m, w)
    ensures var r := Reach(m.transitions, StartSet(m), word);
      Accepts(Rename(m, w), word) <==> OverAlphabet(word, m.alphabet) && r != {} && r in w.finals
  {
    var dfa := Rename(m, w);
    var r := Reach(m.transitions, StartSet(m), word);
    if OverAlphabet(word, m.alphabet) {
      Simulate(m, w, word);
      var d := Reach(dfa.transitions, {dfa.start}, word);
      if r != {} {
        assert d == {w.names[r]};
        assert w.names[r] in dfa.accepting <==> r in w.finals by {
          if w.names[r] in dfa.accepting {
            var f :| f in w.finals && w.names[f] == w.names[r];
            assert f in w.order && r in w.order;
          }
        }
        if w.names[r] in dfa.accepting {
          assert w.names[r] in d * dfa.accepting;
        } else {
          assert d * dfa.accepting == {};
        }
      } else {
        assert d == {};
      }
    }
  }

  /** A non-empty set of labels reached by a non-empty word over the alphabet
      is a recorded transition target. */
  lemma ReachTarget(m: Automaton, w: Exploration, word: seq<Symbol>)
    requires Settled(m, w)
    requires OverAlphabet(word, m.alphabet) && |word| > 0
    requires Reach(m.transitions, StartSet(m), word) != {}
    ensures Reach(m.transitions, StartSet(m), word) in Targets(w.table)
  {
    var prefix := word[..|word| - 1];
    var a := word[|word| - 1];
    assert OverAlphabet(prefix, m.alphabet) by {
      forall i | 0 <= i < |prefix|
        ensures prefix[i] in m.alphabet
      {
        assert prefix[i] == word[i];
      }
    }
    Simulate(m, w, prefix);
    var r := Reach(m.transitions, StartSet(m), prefix);
    var u := Reach(m.transitions, StartSet(m), word);
    assert u == Step(m.transitions, r, a);
    assert r in w.table;
    assert w.table[r][a] == u;
  }

  /** Some non-empty word over the alphabet leads from the start back to
      exactly the start alone. */
  ghost predicate StartReentered(m: Automaton) {
    exists word :: |word| > 0 && OverAlphabet(word, m.alphabet) && Reach(m.transitions, {m.start}, word) == {m.start}
  }

  /** A recorded transition into the start set gives a non-empty word
      leading back to the start alone: the word to the recording set
      followed by the symbol. */
  lemma TargetReentered(m: Automaton, w: Exploration, paths: map<StateSet, seq<Symbol>>)
    requires PathsInv(m, w, paths) && w.table.Keys == Elems(w.discovered)
    requires forall s :: s in w.table ==> RowMatches(m, s, w.table[s], Elems(m.alphabet))
    requires StartSet(m) in Targets(w.table)
    ensures StartReentered(m)
  {
    var s, a :| s in w.table && a in w.table[s] && w.table[s][a] == StartSet(m);
    assert s in w.discovered && a in Elems(m.alphabet);
    ReenterBy(m, paths[s], a);
  }

  /** A word followed by one symbol that leads back to the start alone is a
      witness of re-entry. */
  lemma ReenterBy(m: Automaton, p: seq<Symbol>, a: Symbol)
    requires OverAlphabet(p, m.alphabet) && a in m.alphabet
    requires Step(m.transitions, Reach(m.transitions, StartSet(m), p), a) == StartSet(m)
    ensures StartReentered(m)
  {
    var word := p + [a];
    ReachSnoc(m.transitions, StartSet(m), p, a);
    assert OverAlphabet(word, m.alphabet) by {
      forall i | 0 <= i < |word|
        ensures word[i] in m.alphabet
      {
        if i < |p| {
          assert word[i] == p[i];
        }
      }
    }
    assert Reach(m.transitions, {m.start}, word) == {m.start};
  }

  /** A non-empty word leading back to the start alone makes the start set a
      recorded transition target. */
  lemma ReenteredTarget(m: Automaton, w: Exploration)
    requires Settled(m, w)
    requires StartReentered(m)
    ensures StartSet(m) in Targets(w.table)
  {
    var word :| |word| > 0 && OverAlphabet(word, m.alphabet) && Reach(m.transitions, {m.start}, word) == {m.start};
    ReachTarget(m, w, word);
  }

  /** The renamed table, when names do not clash: a non-empty word is
      accepted exactly when the original accepts it, and the empty word
      exactly when the start is accepting and some non-empty word leads back
      to the start alone. */
  lemma RenamedLanguage(m: Automaton, w: Exploration, num: map<StateSet, nat>, paths: map<StateSet, seq<Symbol>>)
    requires Explored(m, w, num, paths) && Unclashed(m, w.avoid)
    ensures forall word :: |word| > 0 ==> (Accepts(Rename(m, w), word) <==> Accepts(m, word))
    ensures Accepts(Rename(m, w), []) <==> m.start in m.accepting && StartReentered(m)
  {
    ExploredSettled(m, w, num, paths);
    forall word | |word| > 0
      ensures Accepts(Rename(m, w), word) <==> Accepts(m, word)
    {
      AcceptsRenamed(m, w, word);
      if OverAlphabet(word, m.alphabet) && Reach(m.transitions, StartSet(m), word) != {} {
        ReachTarget(m, w, word);
      }
    }
    AcceptsRenamed(m, w, []);
    if StartSet(m) in Targets(w.table) {
      TargetReentered(m, w, paths);
    }
    if StartReentered(m) {
      ReenteredTarget(m, w);
    }
  }

  /** Every state of the renamed automaton, when names do not clash, is the name
      of a discovered set and is reached by the word that led to that set. */
  lemma RenamedReachable(m: Automaton, w: Exploration, num: map<StateSet, nat>, paths: map<StateSet, seq<Symbol>>, q: Label)
    requires Explored(m, w, num, paths) && Unclashed(m, w.avoid)
    requires q in Rename(m, w).states
    ensures exists word :: OverAlphabet(word, m.alphabet) && Reach(Rename(m, w).transitions, {Rename(m, w).start}, word) == {q}
  {
    var s := RenamedSource(m, w, num, paths, q);
    Simulate(m, w, paths[s]);
    assert Reach(Rename(m, w).transitions, {Rename(m, w).start}, paths[s]) == {q};
  }

  /** Every state of the renamed automaton is the name of a discovered
      set, which its recorded word reaches. */
  lemma RenamedSource(m: Automaton, w: Exploration, num: map<StateSet, nat>, paths: map<StateSet, seq<Symbol>>, q: Label)
    returns (s: StateSet)
    requires Explored(m, w, num, paths) && Unclashed(m, w.avoid)
    requires q in Rename(m, w).states
    ensures Settled(m, w) && s in w.discovered && s in w.names && w.names[s] == q
    ensures s in paths && OverAlphabet(paths[s], m.alphabet) && Reach(m.transitions, StartSet(m), paths[s]) == s
    ensures s != {}
  {
    ExploredSettled(m, w, num, paths);
    var rows := RenamedRows(m, w);
    var r := Rekey(w.order, w.names, rows);
    assert q in r.rows;
    s :| s in w.order && w.names[s] == q && rows[s] == r.rows[q];
    assert s in Elems(w.discovered);
  }

  /** When names do not clash, every state of the renamed automaton is reachable. */
  lemma RenamedAllReachable(m: Automaton, w: Exploration, num: map<StateSet, nat>, paths: map<StateSet, seq<Symbol>>)
    requires Explored(m, w, num, paths) && Unclashed(m, w.avoid)
    ensures forall q :: q in Rename(m, w).states ==>
              exists word :: OverAlphabet(word, m.alphabet) && Reach(Rename(m, w).transitions, {Rename(m, w).start}, word) == {q}
  {
    forall q | q in Rename(m, w).states
      ensures exists word :: OverAlphabet(word, m.alphabet) && Reach(Rename(m, w).transitions, {Rename(m, w).start}, word) == {q}
    {
      RenamedReachable(m, w, num, paths, q);
    }
  }

  /** The shape of the renamed automaton of a finished exploration: it
      starts at the start set's name, listed first, and is deterministic. */
  lemma ExploredShape(m: Automaton, w: Exploration, num: map<StateSet, nat>, paths: map<StateSet, seq<Symbol>>)
    requires Explored(m, w, num, paths)
    ensures Renamable(m, w)
    ensures var dfa := Rename(m, w);
      && dfa.start == StartName(m, w.avoid) && |dfa.states| > 0 && dfa.states[0] == dfa.start
      && Deterministic(dfa.transitions)
  {
    ExploredRenamable(m, w, num, paths);
    ScalarDeterministic(Rename(m, w).transitions, m.alphabet);
  }

  /** A table of scalars offers no choice. */
  lemma ScalarDeterministic(t: Transitions, alphabet: seq<Symbol>)
    requires ScalarRows(t, alphabet)
    ensures Deterministic(t)
  {
    forall q, a | q in t && a in t[q]
      ensures !Branches(t[q][a])
    {
      assert t[q][a].Scalar?;
    }
  }

  /** `convertir_a_deterministico` as written. The result has the same
      alphabet, starts at the start set's name, lists that start first and
      every state once, and has one scalar entry at most per state and
      symbol, so it is deterministic. Given no collision, every state is
      reachable, a non-empty word is accepted exactly when the original
      accepts it, and the empty word exactly when the start is accepting
      and some non-empty word leads back to the start alone. */
  method Determinize(m: Automaton) returns (dfa: Automaton)
    ensures dfa.alphabet == m.alphabet && dfa.start == StartName(m, {})
    ensures |dfa.states| > 0 && dfa.states[0] == dfa.start
    ensures Distinct(dfa.states) && Elems(dfa.states) == dfa.transitions.Keys
    ensures ScalarRows(dfa.transitions, m.alphabet) && Deterministic(dfa.transitions)
    ensures NoCollision(m) ==> forall q :: q in dfa.states ==>
              exists word :: OverAlphabet(word, m.alphabet) && Reach(dfa.transitions, {dfa.start}, word) == {q}
    ensures NoCollision(m) ==> forall word :: |word| > 0 ==> (Accepts(dfa, word) <==> Accepts(m, word))
    ensures NoCollision(m) ==> (Accepts(dfa, []) <==> m.start in m.accepting && StartReentered(m))
  {
    var w: Exploration;
    ghost var num, paths;
    w, num, paths := Explore(m, {});
    ExploredShape(m, w, num, paths);
    dfa := Rename(m, w);
    if NoCollision(m) {
      assert Unclashed(m, w.avoid);
      RenamedLanguage(m, w, num, paths);
      RenamedAllReachable(m, w, num, paths);
    }
  }

  /** The accepting sets with the start set added when the start is accepting. */
  function WithStartFinal(m: Automaton, w: Exploration): Exploration {
    if m.start in m.accepting then w.(finals := w.finals + {StartSet(m)}) else w
  }

  /** Adding the start set to the accepting sets keeps the table settled. */
  lemma WithStartFinalSettled(m: Automaton, w: Exploration)
    requires Settled(m, w)
    ensures Settled(m, WithStartFinal(m, w))
  {
  }

  /** With the start set marked accepting, the renamed automaton accepts a
      word exactly when the original does. */
  lemma FixedAccepts(m: Automaton, w: Exploration, word: seq<Symbol>)
    requires Settled(m, w) && w.finals == Marked(m.accepting, w.table)
    ensures Renamable(m, WithStartFinal(m, w))
    ensures Accepts(Rename(m, WithStartFinal(m, w)), word) <==> Accepts(m, word)
  {
    WithStartFinalSettled(m, w);
    var w' := WithStartFinal(m, w);
    AcceptsRenamed(m, w', word);
    var r := Reach(m.transitions, StartSet(m), word);
    assert Accepts(m, word) <==> OverAlphabet(word, m.alphabet) && r * m.accepting != {};
    if OverAlphabet(word, m.alphabet) && r != {} {
      if |word| > 0 {
        ReachTarget(m, w, word);
      }
      FinalsWithStart(m, w, r);
    }
  }

  /** With the start set added, a recorded target or the start set is
      accepting exactly when it holds an accepting label. */
  lemma FinalsWithStart(m: Automaton, w: Exploration, r: StateSet)
    requires w.finals == Marked(m.accepting, w.table)
    requires r in Targets(w.table) || r == StartSet(m)
    ensures r in WithStartFinal(m, w).finals <==> r * m.accepting != {}
  {
    if r in Targets(w.table) {
      MarkedMember(m.accepting, w.table, r);
    }
    if r == StartSet(m) && m.start in m.accepting {
      assert m.start in r * m.accepting;
    }
  }

  /** The corrected renaming, when names do not clash, accepts exactly the
      words the original accepts, the empty word included. */
  lemma FixedLanguage(m: Automaton, w: Exploration, num: map<StateSet, nat>, paths: map<StateSet, seq<Symbol>>)
    requires Explored(m, w, num, paths) && Unclashed(m, w.avoid)
    ensures Renamable(m, WithStartFinal(m, w))
    ensures forall word :: Accepts(Rename(m, WithStartFinal(m, w)), word) <==> Accepts(m, word)
  {
    ExploredSettled(m, w, num, paths);
    WithStartFinalSettled(m, w);
    forall word
      ensures Accepts(Rename(m, WithStartFinal(m, w)), word) <==> Accepts(m, word)
    {
      FixedAccepts(m, w, word);
    }
  }

  /** `convertir_a_deterministico` corrected twice: generated names skip
      the names of the original states, and the start set is marked
      accepting when the start is accepting. Same shape as `Determinize`;
      it accepts exactly the words the original accepts, for every
      automaton. */
  method DeterminizeFixed(m: Automaton) returns (dfa: Automaton)
    ensures dfa.alphabet == m.alphabet && dfa.start == StartName(m, Elems(m.states))
    ensures |dfa.states| > 0 && dfa.states[0] == dfa.start
    ensures Distinct(dfa.states) && Elems(dfa.states) == dfa.transitions.Keys
    ensures ScalarRows(dfa.transitions, m.alphabet) && Deterministic(dfa.transitions)
    ensures forall word :: Accepts(dfa, word) <==> Accepts(m, word)
  {
    var w: Exploration;
    ghost var num, paths;
    w, num, paths := Explore(m, Elems(m.states));
    ExploredShape(m, w, num, paths);
    ScalarDeterministic(Rename(m, WithStartFinal(m, w)).transitions, m.alphabet);
    dfa := Rename(m, WithStartFinal(m, w));
    FixedLanguage(m, w, num, paths);
  }

  /** One accepting state `p`, no transitions, alphabet `a`. */
  function LoneAccepting(): Automaton {
    Automaton(["p"], ["a"], map[], "p", {"p"})
  }

  /** No generated name is `p`. */
  lemma LoneNoCollision()
    ensures NoCollision(LoneAccepting())
  {
    forall k: nat
      ensures FreshName(k) !in LoneAccepting().states
    {
      assert FreshName(k)[0] == 'Q';
    }
  }

  /** A state may be called `Q0`: the numbering starts at 1, so `Q0` is
      never generated and no name collides. */
  lemma QZeroNoCollision()
    ensures NoCollision(Automaton(["Q0"], ["a"], map[], "Q0", {"Q0"}))
    ensures FreshName(0) == "Q0"
  {
    assert FreshName(0) == "Q" + "0";
    forall k: nat | k >= 1
      ensures FreshName(k) != "Q0"
    {
      FreshNameInjective(k, 0);
    }
  }

  /** On `LoneAccepting` the as-written conversion loses the empty word: the
      original accepts it, the converted automaton does not, because the
      start set is never a recorded target and so never marked accepting.
      The corrected conversion keeps it. */
  lemma StartAcceptanceLost(w: Exploration, num: map<StateSet, nat>, paths: map<StateSet, seq<Symbol>>)
    requires Explored(LoneAccepting(), w, num, paths)
    ensures Accepts(LoneAccepting(), [])
    ensures !Accepts(Rename(LoneAccepting(), w), [])
    ensures Accepts(Rename(LoneAccepting(), WithStartFinal(LoneAccepting(), w)), [])
  {
    var m := LoneAccepting();
    LoneNoCollision();
    assert Unclashed(m, w.avoid);
    RenamedLanguage(m, w, num, paths);
    FixedLanguage(m, w, num, paths);
    assert Reach(m.transitions, {m.start}, []) == {"p"};
  }
}
