/** The bookkeeping of a worklist exploration, independent of what the
    explored keys are: the list of keys found so far, the stack of keys still
    to process, the order in which keys entered the table, and the table of
    recorded transitions between keys. */
module Worklist {
  import opened Seqs

  /** For each recorded key, the key recorded for each symbol. */
  type Table<K, A> = map<K, map<A, K>>

  /** Every key recorded as a transition target. */
  ghost function Targets<K, A>(table: Table<K, A>): set<K> {
    set s, a | s in table && a in table[s] :: table[s][a]
  }

  /** The recorded targets sharing an element with `marks`. */
  ghost function Marked<L, A>(marks: set<L>, table: Table<set<L>, A>): set<set<L>> {
    set t | t in Targets(table) && t * marks != {}
  }

  /** A recorded target is marked exactly when it shares an element with `marks`. */
  lemma MarkedMember<L, A>(marks: set<L>, table: Table<set<L>, A>, t: set<L>)
    requires t in Targets(table)
    ensures t in Marked(marks, table) <==> t * marks != {}
  {
  }

  /** The lists of the exploration: `discovered` holds each key found, in
      discovery order, starting with `start`; `pending` is the stack of found
      keys not yet processed; `order` lists the keys of the table in the
      order they entered it, which is `start` followed by the processed keys. */
  ghost predicate Bookkeeping<K>(start: K, discovered: seq<K>, pending: seq<K>, order: seq<K>, keys: set<K>) {
    && Distinct(discovered) && Distinct(pending) && Distinct(order)
    && |discovered| > 0 && discovered[0] == start
    && |order| > 0 && order[0] == start
    && Elems(pending) <= Elems(discovered)
    && keys == Elems(order)
    && Elems(order) == {start} + (Elems(discovered) - Elems(pending))
  }

  /** A pending key in the table has no transitions yet, and every recorded
      target has been found. */
  ghost predicate Shape<K, A>(table: Table<K, A>, discovered: seq<K>, pending: seq<K>) {
    && (forall s :: s in table && s in pending ==> table[s] == map[])
    && (forall s, a :: s in table && a in table[s] ==> table[s][a] in discovered)
  }

  /** Finding a new key appends it to the found keys and pushes it. */
  lemma BookkeepingPush<K>(start: K, discovered: seq<K>, pending: seq<K>, order: seq<K>, keys: set<K>, k: K)
    requires Bookkeeping(start, discovered, pending, order, keys)
    requires k !in discovered
    ensures Bookkeeping(start, discovered + [k], pending + [k], order, keys)
  {
    ElemsSnoc(discovered, k);
    ElemsSnoc(pending, k);
    assert (discovered + [k])[0] == start;
    assert k != start;
    assert (Elems(discovered) + {k}) - (Elems(pending) + {k}) == Elems(discovered) - Elems(pending);
  }

  /** Popping the top key `s` of the stack moves it among the processed keys:
      it enters the table order unless it is already a key. */
  lemma BookkeepingPop<K>(start: K, discovered: seq<K>, pending: seq<K>, order: seq<K>, keys: set<K>)
    requires Bookkeeping(start, discovered, pending, order, keys)
    requires |pending| > 0
    ensures var s := pending[|pending| - 1];
      Bookkeeping(start, discovered, pending[..|pending| - 1], if s in keys then order else order + [s], keys + {s})
  {
    var s := pending[|pending| - 1];
    var rest := pending[..|pending| - 1];
    ElemsDropLast(pending);
    assert s in Elems(discovered);
    if s !in keys {
      ElemsSnoc(order, s);
      assert (order + [s])[0] == start;
    }
  }

  /** Recording `target` for `a` in the row of a processed key `s` keeps the
      shape, given that the target is found and is pushed if it is new. */
  lemma ShapeRecord<K, A>(table: Table<K, A>, discovered: seq<K>, pending: seq<K>, s: K, a: A, target: K,
                          discovered': seq<K>, pending': seq<K>)
    requires Shape(table, discovered, pending)
    requires s in table && s !in pending
    requires Elems(discovered) <= Elems(discovered') && target in discovered'
    requires pending' == pending || (pending' == pending + [target] && target !in table)
    ensures Shape(table[s := table[s][a := target]], discovered', pending')
  {
    var table' := table[s := table[s][a := target]];
    forall x, b | x in table' && b in table'[x]
      ensures table'[x][b] in discovered'
    {
      if x != s || b != a {
        assert table[x][b] in Elems(discovered);
      }
    }
  }

  /** Popping the top key and giving it an empty row, if it has none, keeps
      the shape. */
  lemma ShapePop<K, A>(table: Table<K, A>, discovered: seq<K>, pending: seq<K>)
    requires Shape(table, discovered, pending)
    requires |pending| > 0
    ensures Shape(table[pending[|pending| - 1] := map[]], discovered, pending[..|pending| - 1])
  {
    var s := pending[|pending| - 1];
    var table' := table[s := map[]];
    assert forall x :: x in pending[..|pending| - 1] ==> x in pending;
    forall x, b | x in table' && b in table'[x]
      ensures table'[x][b] in discovered
    {
      assert x != s;
    }
  }

  /** Giving an empty row to a key whose row is empty or absent records no
      new target. */
  lemma TargetsEmptyRow<K, A>(table: Table<K, A>, s: K)
    requires s in table ==> table[s] == map[]
    ensures Targets(table[s := map[]]) == Targets(table)
  {
    var table' := table[s := map[]];
    forall t | t in Targets(table')
      ensures t in Targets(table)
    {
      var s', a' :| s' in table' && a' in table'[s'] && table'[s'][a'] == t;
      assert table[s'][a'] == t;
    }
    forall t | t in Targets(table)
      ensures t in Targets(table')
    {
      var s', a' :| s' in table && a' in table[s'] && table[s'][a'] == t;
      assert table'[s'][a'] == t;
    }
  }

  /** Recording `target` for a symbol whose entry is absent or already
      `target` adds exactly `target` to the recorded targets. */
  lemma TargetsRecord<K, A>(table: Table<K, A>, s: K, a: A, target: K)
    requires s in table
    requires a in table[s] ==> table[s][a] == target
    ensures Targets(table[s := table[s][a := target]]) == Targets(table) + {target}
  {
    var table' := table[s := table[s][a := target]];
    forall t | t in Targets(table')
      ensures t in Targets(table) + {target}
    {
      var s', a' :| s' in table' && a' in table'[s'] && table'[s'][a'] == t;
      if s' != s || a' != a {
        assert table[s'][a'] == t;
      }
    }
    forall t | t in Targets(table)
      ensures t in Targets(table')
    {
      var s', a' :| s' in table && a' in table[s'] && table[s'][a'] == t;
      assert table'[s'][a'] == t;
    }
    assert target == table'[s][a];
  }

  /** The marked targets after recording `target`: it joins them exactly
      when it shares an element with `marks`. */
  lemma MarkedRecord<L, A>(marks: set<L>, table: Table<set<L>, A>, s: set<L>, a: A, target: set<L>)
    requires s in table
    requires a in table[s] ==> table[s][a] == target
    ensures Marked(marks, table[s := table[s][a := target]])
         == if target * marks != {} then Marked(marks, table) + {target} else Marked(marks, table)
  {
    TargetsRecord(table, s, a, target);
  }

  /** Giving an empty row to a key whose row is empty or absent marks nothing new. */
  lemma MarkedEmptyRow<L, A>(marks: set<L>, table: Table<set<L>, A>, s: set<L>)
    requires s in table ==> table[s] == map[]
    ensures Marked(marks, table[s := map[]]) == Marked(marks, table)
  {
    TargetsEmptyRow(table, s);
  }

  /** A name map built from `init` by giving each key of `found` outside
      `init` a generated name `gen(n)`. `num` records the counter value `n`
      each generated name was made from: all of them from 1 up to below
      `counter`, none giving a name in `avoid`, and every such value whose
      name is not in `avoid` used by some key. */
  ghost predicate Numbering<K, V>(init: map<K, V>, gen: nat -> V, avoid: set<V>, names: map<K, V>, found: set<K>,
                                  num: map<K, nat>, counter: nat) {
    && counter >= 1
    && (forall k :: k in init ==> k in names && names[k] == init[k])
    && names.Keys == init.Keys + found
    && num.Keys == names.Keys - init.Keys
    && (forall k :: k in num ==> 1 <= num[k] < counter && names[k] == gen(num[k]) && gen(num[k]) !in avoid)
    && (forall k, k' :: k in num && k' in num && k != k' ==> num[k] != num[k'])
    && (forall n: nat :: 1 <= n < counter && gen(n) !in avoid ==> n in num.Values)
  }

  /** Finding a key that already has a name changes nothing. */
  lemma NumberingKnown<K, V>(init: map<K, V>, gen: nat -> V, avoid: set<V>, names: map<K, V>, found: set<K>,
                             num: map<K, nat>, counter: nat, k: K)
    requires Numbering(init, gen, avoid, names, found, num, counter)
    requires k in names
    ensures Numbering(init, gen, avoid, names, found + {k}, num, counter)
  {
  }

  /** Finding a key without a name gives it the generated name of `n`, the
      first counter value from `counter` on whose name is not in `avoid`. */
  lemma NumberingFresh<K, V>(init: map<K, V>, gen: nat -> V, avoid: set<V>, names: map<K, V>, found: set<K>,
                             num: map<K, nat>, counter: nat, k: K, n: nat)
    requires Numbering(init, gen, avoid, names, found, num, counter)
    requires k !in names
    requires counter <= n && gen(n) !in avoid
    requires forall j: nat :: counter <= j < n ==> gen(j) in avoid
    ensures Numbering(init, gen, avoid, names[k := gen(n)], found + {k}, num[k := n], n + 1)
  {
    FreshKeys(init, gen, avoid, names, found, num, counter, k, n);
    FreshRange(init, gen, avoid, names, found, num, counter, k, n);
    FreshDistinct(init, gen, avoid, names, found, num, counter, k, n);
    FreshCovers(init, gen, avoid, names, found, num, counter, k, n);
  }

  /** Step of `NumberingFresh`: the new key joins the found keys and the
      keys with a counter value. */
  lemma FreshKeys<K, V>(init: map<K, V>, gen: nat -> V, avoid: set<V>, names: map<K, V>, found: set<K>,
                        num: map<K, nat>, counter: nat, k: K, n: nat)
    requires Numbering(init, gen, avoid, names, found, num, counter)
    requires k !in names
    requires counter <= n && gen(n) !in avoid
    requires forall j: nat :: counter <= j < n ==> gen(j) in avoid
    ensures names[k := gen(n)].Keys == init.Keys + (found + {k})
    ensures num[k := n].Keys == names[k := gen(n)].Keys - init.Keys
  {
    assert k !in init;
  }

  /** Step of `NumberingFresh`: every counter value stays in range and gives
      the key's name. */
  lemma FreshRange<K, V>(init: map<K, V>, gen: nat -> V, avoid: set<V>, names: map<K, V>, found: set<K>,
                         num: map<K, nat>, counter: nat, k: K, n: nat)
    requires Numbering(init, gen, avoid, names, found, num, counter)
    requires k !in names
    requires counter <= n && gen(n) !in avoid
    requires forall j: nat :: counter <= j < n ==> gen(j) in avoid
    ensures var num', names' := num[k := n], names[k := gen(n)];
      forall x :: x in num' ==> 1 <= num'[x] < n + 1 && names'[x] == gen(num'[x]) && gen(num'[x]) !in avoid
  {
    var num', names' := num[k := n], names[k := gen(n)];
    forall x | x in num'
      ensures 1 <= num'[x] < n + 1 && names'[x] == gen(num'[x]) && gen(num'[x]) !in avoid
    {
      if x != k {
        assert num'[x] == num[x] && names'[x] == names[x];
      }
    }
  }

  /** Step of `NumberingFresh`: no counter value is used twice. */
  lemma FreshDistinct<K, V>(init: map<K, V>, gen: nat -> V, avoid: set<V>, names: map<K, V>, found: set<K>,
                            num: map<K, nat>, counter: nat, k: K, n: nat)
    requires Numbering(init, gen, avoid, names, found, num, counter)
    requires k !in names
    requires counter <= n && gen(n) !in avoid
    requires forall j: nat :: counter <= j < n ==> gen(j) in avoid
    ensures var num' := num[k := n];
      forall x, y :: x in num' && y in num' && x != y ==> num'[x] != num'[y]
  {
    var num' := num[k := n];
    forall x, y | x in num' && y in num' && x != y
      ensures num'[x] != num'[y]
    {
      if x != k && y != k {
        assert num'[x] == num[x] && num'[y] == num[y];
      } else if x == k {
        assert y in num && num'[y] == num[y] < counter;
      } else {
        assert x in num && num'[x] == num[x] < counter;
      }
    }
  }

  /** Step of `NumberingFresh`: every counter value below `n + 1` whose name
      is outside `avoid` is used. */
  lemma FreshCovers<K, V>(init: map<K, V>, gen: nat -> V, avoid: set<V>, names: map<K, V>, found: set<K>,
                          num: map<K, nat>, counter: nat, k: K, n: nat)
    requires Numbering(init, gen, avoid, names, found, num, counter)
    requires k !in names
    requires counter <= n && gen(n) !in avoid
    requires forall j: nat :: counter <= j < n ==> gen(j) in avoid
    ensures forall j: nat :: 1 <= j < n + 1 && gen(j) !in avoid ==> j in num[k := n].Values
  {
    var num' := num[k := n];
    forall j: nat | 1 <= j < n + 1 && gen(j) !in avoid
      ensures j in num'.Values
    {
      if j == n {
        assert num'[k] == j;
      } else {
        assert j < counter;
        var x :| x in num && num[x] == j;
        assert x != k && num'[x] == j;
      }
    }
  }

  /** Generated names never clash with each other; when the initial names
      are distinct and no generated name from counter 1 on outside `avoid`
      equals one of them, the whole name map is injective. Counter 0 is
      never used, so its name may equal an initial name. */
  lemma NumberingInjective<K, V>(init: map<K, V>, gen: nat -> V, avoid: set<V>, names: map<K, V>, found: set<K>,
                                 num: map<K, nat>, counter: nat, k: K, k': K)
    requires Numbering(init, gen, avoid, names, found, num, counter)
    requires forall x, y :: x in init && y in init && x != y ==> init[x] != init[y]
    requires forall n: nat, x :: x in init && n >= 1 && gen(n) !in avoid ==> gen(n) != init[x]
    requires forall i: nat, j: nat :: i != j ==> gen(i) != gen(j)
    requires k in names && k' in names && k != k'
    ensures names[k] != names[k']
  {
    if k in num && k' in num {
      assert num[k] != num[k'];
    }
  }

  /** A table re-keyed by name: the names of the keys in the order they were
      first inserted, and for each name its row. */
  datatype Rekeyed<V, R> = Rekeyed(keys: seq<V>, rows: map<V, R>)

  /** Walks `order`, inserting each key's row under the key's name as a
      Python dict assignment does: a name enters the key list at its first
      insertion and a later key with the same name replaces the row. */
  function Rekey<K, V, R>(order: seq<K>, names: map<K, V>, rows: map<K, R>): (r: Rekeyed<V, R>)
    requires forall k :: k in order ==> k in names && k in rows
    ensures Distinct(r.keys) && Elems(r.keys) == r.rows.Keys
    ensures |order| > 0 ==> |r.keys| > 0 && r.keys[0] == names[order[0]]
    ensures forall k :: k in order ==> names[k] in r.rows
    ensures forall v :: v in r.rows ==> exists k :: k in order && names[k] == v && rows[k] == r.rows[v]
    decreases |order|
  {
    if order == [] then Rekeyed([], map[])
    else
      var prefix := order[..|order| - 1];
      var k := order[|order| - 1];
      assert order == prefix + [k];
      var prev := Rekey(prefix, names, rows);
      ElemsSnoc(prev.keys, names[k]);
      Rekeyed(if names[k] in prev.rows then prev.keys else prev.keys + [names[k]], prev.rows[names[k] := rows[k]])
  }

  /** When different keys have different names, re-keying keeps one entry
      per key, in key order, each with the key's own row. */
  lemma {:induction false} RekeySpec<K, V, R>(order: seq<K>, names: map<K, V>, rows: map<K, R>)
    requires forall k :: k in order ==> k in names && k in rows
    requires Distinct(order)
    requires forall x, y :: x in order && y in order && x != y ==> names[x] != names[y]
    ensures |Rekey(order, names, rows).keys| == |order|
    ensures forall j :: 0 <= j < |order| ==> Rekey(order, names, rows).keys[j] == names[order[j]]
    ensures forall k :: k in order ==> names[k] in Rekey(order, names, rows).rows && Rekey(order, names, rows).rows[names[k]] == rows[k]
    decreases |order|
  {
    if order != [] {
      ElemsDropLast(order);
      RekeySpec(order[..|order| - 1], names, rows);
      RekeyKeysStep(order, names, rows);
      RekeyRowsStep(order, names, rows);
    }
  }

  /** Step of `RekeySpec` for the key list: a last key whose name is new
      appends that name. */
  lemma RekeyKeysStep<K, V, R>(order: seq<K>, names: map<K, V>, rows: map<K, R>)
    requires forall k :: k in order ==> k in names && k in rows
    requires |order| > 0 && Distinct(order)
    requires forall x, y :: x in order && y in order && x != y ==> names[x] != names[y]
    requires var prefix := order[..|order| - 1]; var prev := Rekey(prefix, names, rows);
      |prev.keys| == |prefix| && forall j :: 0 <= j < |prefix| ==> prev.keys[j] == names[prefix[j]]
    ensures |Rekey(order, names, rows).keys| == |order|
    ensures forall j :: 0 <= j < |order| ==> Rekey(order, names, rows).keys[j] == names[order[j]]
  {
    var prefix := order[..|order| - 1];
    var k := order[|order| - 1];
    var prev := Rekey(prefix, names, rows);
    forall j | 0 <= j < |prefix|
      ensures prev.keys[j] != names[k]
    {
      assert prefix[j] == order[j] && order[j] != k;
    }
    assert names[k] !in prev.keys;
    var r := Rekey(order, names, rows);
    assert r.keys == prev.keys + [names[k]];
    forall j | 0 <= j < |order|
      ensures r.keys[j] == names[order[j]]
    {
      if j < |prefix| {
        assert r.keys[j] == prev.keys[j] == names[prefix[j]];
        assert order[j] == prefix[j];
      } else {
        assert j == |prefix| && r.keys[j] == names[k] && order[j] == k;
      }
    }
  }

  /** Step of `RekeySpec` for the rows: the last key's row is stored under
      its name and, names being different, no earlier row is replaced. */
  lemma RekeyRowsStep<K, V, R>(order: seq<K>, names: map<K, V>, rows: map<K, R>)
    requires forall k :: k in order ==> k in names && k in rows
    requires |order| > 0
    requires forall x, y :: x in order && y in order && x != y ==> names[x] != names[y]
    requires var prefix := order[..|order| - 1]; var prev := Rekey(prefix, names, rows);
      forall k :: k in prefix ==> names[k] in prev.rows && prev.rows[names[k]] == rows[k]
    ensures forall k :: k in order ==> names[k] in Rekey(order, names, rows).rows && Rekey(order, names, rows).rows[names[k]] == rows[k]
  {
    var prefix := order[..|order| - 1];
    var k := order[|order| - 1];
    assert order == prefix + [k];
    var r := Rekey(order, names, rows);
    assert r.rows == Rekey(prefix, names, rows).rows[names[k] := rows[k]];
    forall x | x in order
      ensures names[x] in r.rows && r.rows[names[x]] == rows[x]
    {
      if x != k {
        assert x in prefix;
      }
    }
  }
}
