/** A small automaton whose state names collide with the names that
    `convertir_a_deterministico` (backend/automata.py, lines 40-41 and 72-74)
    generates, and what that collision does. The facts that need no
    exploration come first: the sets of states its words reach and the two
    words `aa` and `ba` it tells apart. Then what every finished
    exploration of it looks like: the generated name of `{p, Q1}` is `Q1`,
    the name the state `Q1` already gives to `{Q1}`, so the renamed table
    (lines 86-96) keeps one row for both sets. Last, the conclusion: the
    conversion as written changes the accepted language. */
module NameClash {
  import opened Seqs
  import opened Text
  import opened Worklist
  import opened Automata
  import opened Subset
  import opened Determinize

  /** States `p` and `Q1`, alphabet `a`, `b`; from `p`, `a` leads to both
      states and `b` to `Q1`; `Q1` has no entries and is accepting. */
  function Clash(): Automaton {
    Automaton(["p", "Q1"], ["a", "b"],
              map["p" := map["a" := Many(["p", "Q1"]), "b" := Many(["Q1"])]],
              "p", {"Q1"})
  }

  /** One step of `Clash` from a set of its states. */
  lemma ClashStep(s: set<Label>, x: Symbol)
    requires s <= {"p", "Q1"}
    ensures Step(Clash().transitions, s, x) ==
              if "p" in s && x == "a" then {"p", "Q1"} else if "p" in s && x == "b" then {"Q1"} else {}
  {
    var t := Clash().transitions;
    var rest := s - {"p"};
    assert Step(t, rest, x) == {};
    if "p" in s {
      StepInsert(t, rest, "p", x);
      assert s == rest + {"p"};
      LookupStep(Clash(), "p", x);
      assert Elems(["p", "Q1"]) == {"p", "Q1"} && Elems(["Q1"]) == {"Q1"};
    } else {
      assert s == rest;
    }
  }

  /** The three non-empty sets of `Clash`'s states that a word can reach. */
  predicate ClashSet(s: StateSet) {
    s == {"p"} || s == {"Q1"} || s == {"p", "Q1"}
  }

  /** Every word leads from `p` to one of those sets or to none. */
  lemma {:induction false} ClashReach(word: seq<Symbol>)
    ensures var r := Reach(Clash().transitions, {"p"}, word); ClashSet(r) || r == {}
    decreases |word|
  {
    if word != [] {
      ClashReach(word[..|word| - 1]);
      ClashStep(Reach(Clash().transitions, {"p"}, word[..|word| - 1]), word[|word| - 1]);
    }
  }

  /** The labels of `Clash` are different strings. */
  lemma ClashLabels()
    ensures "p" != "Q1" && "a" != "b"
  {
    assert "p"[0] != "Q1"[0] && "a"[0] != "b"[0];
  }

  /** Nothing is reachable from `{Q1}`. */
  lemma ClashStepQ1(x: Symbol)
    ensures Step(Clash().transitions, {"Q1"}, x) == {}
  {
    ClashLabels();
    ClashStep({"Q1"}, x);
  }

  /** A renamed row in which `a` and `b` both lead to `Q1`. */
  predicate ClashDfaRow(row: map<Symbol, Dest>) {
    "a" in row && "b" in row && row["a"] == Scalar("Q1") && row["b"] == Scalar("Q1")
  }

  /** The automaton accepts `aa` and rejects `ba`, as `Clash` does. */
  ghost predicate TellsApart(m: Automaton) {
    Accepts(m, ["a", "a"]) && !Accepts(m, ["b", "a"])
  }

  /** `Clash` accepts `aa` (through `{p, Q1}`) and rejects `ba` (`{Q1}` has
      no entry for `a`). */
  lemma ClashOriginal()
    ensures TellsApart(Clash())
  {
    ClashAcceptsA();
    ClashRejectsB();
  }

  /** `Clash` accepts `aa`, which leads to `{p, Q1}`. */
  lemma ClashAcceptsA()
    ensures Accepts(Clash(), ["a", "a"])
  {
    ClashReachTwo("a");
    assert "Q1" in {"p", "Q1"} * Clash().accepting;
  }

  /** `Clash` rejects `ba`, which leads nowhere. */
  lemma ClashRejectsB()
    ensures !Accepts(Clash(), ["b", "a"])
  {
    ClashReachTwo("b");
  }

  /** Reading `x` and then `a` from `p`: `a` leads back to `{p, Q1}`, `b`
      to `{Q1}` and then nowhere. */
  lemma ClashReachTwo(x: Symbol)
    requires x == "a" || x == "b"
    ensures x == "a" ==> Reach(Clash().transitions, {"p"}, [x, "a"]) == {"p", "Q1"}
    ensures x == "b" ==> Reach(Clash().transitions, {"p"}, [x, "a"]) == {}
  {
    var t := Clash().transitions;
    ClashLabels();
    ReachSnoc(t, {"p"}, [], x);
    ReachSnoc(t, {"p"}, [x], "a");
    assert [x] + ["a"] == [x, "a"];
    ClashStep({"p"}, x);
    if x == "a" {
      ClashStep({"p", "Q1"}, "a");
    } else {
      ClashStepQ1("a");
    }
  }

  /** An automaton of the merged shape rejects `aa` when `Q1` has no entry
      for `a`, and otherwise accepts `ba`. */
  lemma ClashWords(dfa: Automaton)
    requires ClashMerged(dfa)
    ensures !TellsApart(dfa)
  {
    var t := dfa.transitions;
    ReachSnoc(t, {"p"}, [], "a");
    ReachSnoc(t, {"p"}, [], "b");
    ReachSnoc(t, {"p"}, ["a"], "a");
    ReachSnoc(t, {"p"}, ["b"], "a");
    assert ["a"] + ["a"] == ["a", "a"] && ["b"] + ["a"] == ["b", "a"];
    LookupStep(dfa, "p", "a");
    LookupStep(dfa, "p", "b");
    LookupStep(dfa, "Q1", "a");
    assert Reach(t, {"p"}, ["a"]) == Reach(t, {"p"}, ["b"]) == {"Q1"};
    if "a" !in t["Q1"] {
      assert Reach(t, {"p"}, ["a", "a"]) == {};
    } else {
      assert Reach(t, {"p"}, ["b", "a"]) == {"Q1"};
      assert "Q1" in Reach(t, {"p"}, ["b", "a"]) * dfa.accepting;
    }
  }

  /** An automaton over `a`, `b` starting at `p`, where `a` and `b` lead
      from `p` to `Q1`, `Q1` is accepting, and `Q1` either has no entry
      for `a` or the same row as `p`. */
  predicate ClashMerged(dfa: Automaton) {
    && dfa.start == "p" && dfa.alphabet == ["a", "b"] && "Q1" in dfa.accepting
    && "p" in dfa.transitions && ClashDfaRow(dfa.transitions["p"])
    && "Q1" in dfa.transitions && ("a" !in dfa.transitions["Q1"] || ClashDfaRow(dfa.transitions["Q1"]))
  }
  /** A row in which `a` leads to `{p, Q1}` and `b` to `{Q1}`. */
  predicate ClashRowFull(row: map<Symbol, StateSet>) {
    "a" in row && "b" in row && row["a"] == {"p", "Q1"} && row["b"] == {"Q1"}
  }

  /** `{p}` is named `p`, and `{Q1}` and `{p, Q1}` are both named `Q1`. */
  predicate ClashNamed(names: map<StateSet, Label>) {
    && {"p"} in names && {"Q1"} in names && {"p", "Q1"} in names
    && names[{"p"}] == "p"
    && names[{"Q1"}] == names[{"p", "Q1"}] == "Q1"
  }

  /** What every finished exploration of `Clash` looks like: only the sets
      `{p}`, `{Q1}` and `{p, Q1}` are discovered, all three of them; from
      `{p}` and from `{p, Q1}`, `a` leads to `{p, Q1}` and `b` to `{Q1}`,
      while `{Q1}` has no entry for `a`; `{Q1}` and `{p, Q1}` are marked
      accepting. */
  ghost predicate ClashFacts(w: Exploration) {
    && Renamable(Clash(), w) && {"p", "Q1"} in w.discovered
    && w.finals == Marked(Clash().accepting, w.table)
    && w.table.Keys == Elems(w.discovered) && (forall s :: s in w.discovered ==> ClashSet(s))
    && {"p"} in w.table && {"Q1"} in w.table && {"p", "Q1"} in w.table
    && ClashRowFull(w.table[{"p"}]) && ClashRowFull(w.table[{"p", "Q1"}])
    && "a" !in w.table[{"Q1"}]
  }

  /** Every finished exploration of `Clash` has the shape `ClashFacts`. */
  lemma ClashExplored(w: Exploration, num: map<StateSet, nat>, paths: map<StateSet, seq<Symbol>>)
    requires Explored(Clash(), w, num, paths)
    ensures ClashFacts(w)
  {
    var p, q, pq := {"p"}, {"Q1"}, {"p", "Q1"};
    ExploredRenamable(Clash(), w, num, paths);
    ClashDiscovered(w, paths);
    ClashRow(p, w.table[p]);
    assert pq in w.table && q in w.table;
    ClashRow(pq, w.table[pq]);
    ClashRowQ1(w.table[q]);
  }

  /** A word leads to every discovered set, so each is one of the three. */
  lemma ClashDiscovered(w: Exploration, paths: map<StateSet, seq<Symbol>>)
    requires PathsInv(Clash(), w, paths)
    requires forall s :: s in w.discovered ==> s != {}
    ensures forall s :: s in w.discovered ==> ClashSet(s)
  {
    forall s | s in w.discovered
      ensures ClashSet(s)
    {
      ClashReach(paths[s]);
    }
  }

  /** The finished row of a set of `Clash`'s states holding `p`. */
  lemma ClashRow(s: StateSet, row: map<Symbol, StateSet>)
    requires RowMatches(Clash(), s, row, Elems(Clash().alphabet))
    requires "p" in s && s <= {"p", "Q1"}
    ensures ClashRowFull(row)
  {
    assert "a" in Elems(Clash().alphabet) && "b" in Elems(Clash().alphabet);
    ClashStep(s, "a");
    ClashStep(s, "b");
  }

  /** The finished row of `{Q1}` has no entry for `a`. */
  lemma ClashRowQ1(row: map<Symbol, StateSet>)
    requires RowMatches(Clash(), {"Q1"}, row, Elems(Clash().alphabet))
    ensures "a" !in row
  {
    assert "a" in Elems(Clash().alphabet);
    ClashStepQ1("a");
  }

  /** With nothing skipped, the generated name of `{p, Q1}` is `Q1`, the
      name the state `Q1` already gives to `{Q1}`. */
  lemma ClashNames(w: Exploration, num: map<StateSet, nat>)
    requires NamesInv(Clash(), InitialNames(Clash().states), w, num) && w.avoid == {}
    requires forall s :: s in w.discovered ==> ClashSet(s)
    requires {"p", "Q1"} in w.discovered
    ensures ClashNamed(w.names)
  {
    ClashNumbering(w.names, Elems(w.discovered), num, w.counter);
  }

  /** The name map of `Clash` once `{p, Q1}` is found, when only sets of
      `Clash`'s states are found and nothing is skipped. */
  lemma ClashNumbering(names: map<StateSet, Label>, found: set<StateSet>, num: map<StateSet, nat>, counter: nat)
    requires Numbering(InitialNames(Clash().states), FreshName, {}, names, found, num, counter)
    requires forall k :: k in found ==> ClashSet(k)
    requires {"p", "Q1"} in found
    ensures ClashNamed(names)
  {
    var init := InitialNames(Clash().states);
    ClashInit();
    ClashCounted(init, names, found, num);
    NumberingSingle(init, names, found, num, counter, {"p", "Q1"});
    FirstFreshName();
  }

  /** The initial names of `Clash`: `{p}` is `p`, `{Q1}` is `Q1`, and no
      other set is named. */
  lemma ClashInit()
    ensures var init := InitialNames(Clash().states);
      && {"p"} in init && init[{"p"}] == "p"
      && {"Q1"} in init && init[{"Q1"}] == "Q1"
      && forall k :: k in init ==> k == {"p"} || k == {"Q1"}
  {
    var m := Clash();
    InitialNamesSpec(m.states);
    assert "p" in m.states && "Q1" in m.states;
    forall k | k in InitialNames(m.states)
      ensures k == {"p"} || k == {"Q1"}
    {
      var q :| q in m.states && k == {q};
    }
  }

  /** The only set of `Clash`'s states that the counter names is `{p, Q1}`. */
  lemma ClashCounted(init: map<StateSet, Label>, names: map<StateSet, Label>, found: set<StateSet>, num: map<StateSet, nat>)
    requires forall k :: k in init ==> k == {"p"} || k == {"Q1"}
    requires {"p"} in init && {"Q1"} in init
    requires forall k :: k in found ==> ClashSet(k)
    requires {"p", "Q1"} in found
    requires names.Keys == init.Keys + found && num.Keys == names.Keys - init.Keys
    ensures {"p", "Q1"} in num && forall k :: k in num ==> k == {"p", "Q1"}
  {
    ClashLabels();
    assert {"p", "Q1"} != {"p"} by {
      assert "Q1" !in {"p"};
    }
    assert {"p", "Q1"} != {"Q1"} by {
      assert "p" !in {"Q1"};
    }
  }

  /** With nothing skipped and a single set named by the counter, that set
      has the first generated name. */
  lemma NumberingSingle(init: map<StateSet, Label>, names: map<StateSet, Label>, found: set<StateSet>,
                        num: map<StateSet, nat>, counter: nat, k: StateSet)
    requires Numbering(init, FreshName, {}, names, found, num, counter)
    requires k in num && forall x :: x in num ==> x == k
    ensures names[k] == FreshName(1)
  {
    assert 1 in num.Values;
  }

  /** The first generated name is `Q1`. */
  lemma FirstFreshName()
    ensures FreshName(1) == "Q1"
  {
    assert Decimal(1) == [DigitChar(1)];
  }

  /** The renamed row of a set whose row is that of `{p}`. */
  lemma ClashRenameRow(w: Exploration, k: StateSet)
    requires Renamable(Clash(), w) && k in w.table
    requires ClashRowFull(w.table[k]) && ClashNamed(w.names)
    ensures ClashDfaRow(RenameRow(Clash(), w.names, w.table[k]))
  {
    ClashLabels();
    assert "a" in Clash().alphabet && "b" in Clash().alphabet;
  }

  /** With nothing skipped, an exploration of `Clash` of the shape
      `ClashFacts` renames to an automaton that accepts `ba` or rejects
      `aa`: `Q1` carries the row of `{Q1}` or that of `{p, Q1}`, whichever
      the key order stores last. */
  lemma ClashMergedOf(w: Exploration, num: map<StateSet, nat>)
    requires NamesInv(Clash(), InitialNames(Clash().states), w, num) && w.avoid == {}
    requires ClashFacts(w)
    ensures !TellsApart(Rename(Clash(), w))
  {
    ClashNames(w, num);
    assert forall s :: s in w.table ==> ClashSet(s);
    ClashRenameRows(w);
    ClashFinal(w);
    ClashWords(Rename(Clash(), w));
  }

  /** The rows of the converted automaton of `Clash`. */
  lemma ClashRenameRows(w: Exploration)
    requires Renamable(Clash(), w) && ClashNamed(w.names)
    requires forall s :: s in w.table ==> ClashSet(s)
    requires {"p"} in w.table && {"Q1"} in w.table && {"p", "Q1"} in w.table
    requires ClashRowFull(w.table[{"p"}]) && ClashRowFull(w.table[{"p", "Q1"}])
    requires "a" !in w.table[{"Q1"}]
    ensures var t := Rename(Clash(), w).transitions;
      && "p" in t && ClashDfaRow(t["p"])
      && "Q1" in t && ("a" !in t["Q1"] || ClashDfaRow(t["Q1"]))
  {
    var m := Clash();
    var rows := RenamedRows(m, w);
    var r := Rekey(w.order, w.names, rows);
    assert Rename(m, w).transitions == r.rows;
    ClashLabels();
    assert {"p"} in w.order && {"Q1"} in w.order;
    var kp :| kp in w.order && w.names[kp] == "p" && rows[kp] == r.rows["p"];
    assert kp in w.table;
    ClashNamedOnly(w.names, kp);
    ClashRenameRow(w, kp);
    var kq :| kq in w.order && w.names[kq] == "Q1" && rows[kq] == r.rows["Q1"];
    assert kq in w.table;
    ClashNamedOnly(w.names, kq);
    if kq == {"Q1"} {
      assert "a" !in rows[kq];
    } else {
      ClashRenameRow(w, kq);
    }
  }

  /** Only `{p}` is named `p`; the other two sets are named `Q1`. */
  lemma ClashNamedOnly(names: map<StateSet, Label>, k: StateSet)
    requires ClashNamed(names) && ClashSet(k)
    ensures names[k] == "p" <==> k == {"p"}
    ensures names[k] == "Q1" <==> k == {"Q1"} || k == {"p", "Q1"}
  {
    ClashLabels();
  }

  /** `Q1` is an accepting state of the converted automaton of `Clash`. */
  lemma ClashFinal(w: Exploration)
    requires Renamable(Clash(), w) && ClashNamed(w.names)
    requires w.finals == Marked(Clash().accepting, w.table)
    requires {"p"} in w.table && ClashRowFull(w.table[{"p"}])
    ensures "Q1" in Rename(Clash(), w).accepting
  {
    var pq := {"p", "Q1"};
    assert pq in Targets(w.table);
    MarkedMember(Clash().accepting, w.table, pq);
    assert "Q1" in pq * Clash().accepting;
  }

  /** The as-written conversion changes the language of `Clash`: the
      original accepts `aa` and rejects `ba`, while the converted automaton,
      whose state `Q1` merges `{Q1}` and `{p, Q1}`, rejects `aa` or accepts
      `ba`, depending on which of the two sets was renamed last. */
  lemma CollisionChangesLanguage(w: Exploration, num: map<StateSet, nat>, paths: map<StateSet, seq<Symbol>>)
    requires Explored(Clash(), w, num, paths) && w.avoid == {}
    ensures TellsApart(Clash()) && !TellsApart(Rename(Clash(), w))
  {
    ClashConverted(w, num, paths);
    ClashOriginal();
  }

  /** The converted automaton of `Clash` rejects `aa` or accepts `ba`. */
  lemma ClashConverted(w: Exploration, num: map<StateSet, nat>, paths: map<StateSet, seq<Symbol>>)
    requires Explored(Clash(), w, num, paths) && w.avoid == {}
    ensures !TellsApart(Rename(Clash(), w))
  {
    ClashExplored(w, num, paths);
    ClashMergedOf(w, num);
  }
}
