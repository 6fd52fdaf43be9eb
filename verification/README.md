# Finite automata: validation and subset construction

This project models the core of a small web application for finite automata.
The user types in the states, the alphabet, the start state and the accepting
states of an automaton, then fills in a transition table. The browser checks
the form and builds the table (`static/programa.js`). The server checks every
transition destination and builds an `Automata` value (`app.py`). That class
(`backend/automata.py`) answers whether the automaton is deterministic, looks
up single transitions and converts a nondeterministic automaton into a
deterministic one by subset construction.

The Dafny modules follow that structure:

- `Results` (results.dfy) holds `Option` and `Result`. They stand for Python's `None` and for an error answer or browser alert.
- `Seqs` (seqs.dfy) holds sets of elements and the absence of repetition. It also holds the duplicate test `len(xs) != len(set(xs))`.
- `Text` (text.dfy) holds JavaScript's `trim()` and `split(',')` and Python's `sep.join(...)`. It also holds the decimal rendering inside `f"Q{n}"`.
- `Automata` (automata.dfy) holds the automaton value, `es_deterministico` and `obtener_transiciones`. It also holds a ghost language semantics (`Step`, `Reach`, `Accepts`). That semantics exists only to state what the conversion preserves.
- `Worklist` (worklist.dfy) holds the generic facts about the exploration lists and the name numbering. It also holds the re-keying of the table by name as a Python dict does it.
- `Subset` (subset.dfy) holds the exploration half of `convertir_a_deterministico`. This is the stack of state sets, the union per symbol, the naming and the accepting marks. It is the method `Explore`, with its loop invariants.
- `Determinize` (determinize.dfy) holds the renaming half of the conversion and what the whole conversion computes. It also holds a corrected conversion and a concrete input on which the start set loses its acceptance.
- `NameClash` (nameclash.dfy) holds a small automaton with a state named `Q1` and what it accepts. It also holds what every finished exploration of it looks like and what renaming that exploration gives. Together these show that on that automaton the conversion as written changes the accepted language.
- `Server` (server.dfy) holds the destination check of `submit_automata` and the construction of the automaton. It also holds the cell formatter of `generar_tabla_transiciones`.
- `Form` (form.dfy) holds the form check and input table of `generarTablaTransiciones`. It also holds the parsing of fields and transition cells.

A transition entry is either a scalar label or a list of labels
(`Dest = Scalar | Many`). The page always sends lists, one element per
comma-separated piece, so an empty cell is `[""]`. The converted automaton
holds scalars. The empty label `""` is an ordinary member of a destination
set, as it is in the source's union.

The exploration takes a set of generated names to skip. The source skips
none, and `Determinize` passes the empty set. The corrected conversion
`DeterminizeFixed` skips the states' own names. Names do not clash when every
generated name equal to a state's own name is skipped (`Unclashed`). With
nothing skipped, that means no state is named `Q1`, `Q2`, and so on
(`NoCollision`). The numbering starts at 1, so a state named `Q0` never
clashes. Without this condition the source's conversion can change the
accepted language (second finding), so the language and reachability
lemmas about the renaming assume it.

Where the code and the written description of the system differ, the model
follows the code:

- The converted automaton lists its states in the key order of `nuevas_transiciones`. That is the start set first, then the sets in the order they are popped from the stack. It is not discovery order. `Rename` and `Rekey` model that order.
- A set is marked accepting only when it is the target of a recorded transition. The start set is never checked on its own. See the first finding below.
- Generated names `Q1`, `Q2`, ... are not checked against the states' own names, although line 33 says the new names continue from the original ones. See the second finding below.
- There is no membership decider and no dead-state pruning in the class. `Accepts` is a ghost definition used only in contracts.

## Model

| member | source | states |
|---|---|---|
| Automata.IsDeterministic | backend/automata.py:9-18 | The answer is true exactly when no (state, symbol) entry is a list of more than one element. Scalars, empty lists, one-element lists and missing entries never make it false. A list with a repeated label does. |
| Automata.Lookup | backend/automata.py:20-27 | The result is present exactly when the state has an entry for the symbol, and then it is the stored entry unchanged. |
| Automata.LookupStep | backend/automata.py:61-67 | One step from a single state is the set of labels of its looked-up entry, or nothing when there is no entry. |
| Text.Trim | static/programa.js:2-5 | The result of `trim()` neither starts nor ends with white space. |
| Text.TrimSlice | static/programa.js:2-5 | The result of `trim()` is the slice of the input that starts right after its leading white space. |
| Text.TrimCuts | static/programa.js:2-5 | Only white space is cut away, before and after the result. |
| Text.TrimIdempotent | static/programa.js:72-77 | Trimming twice is trimming once, which is why the cell value that is trimmed, split and trimmed again has no white-space edges. |
| Text.Split | static/programa.js:2-5 | `split(',')` gives one piece more than there are separators, and no piece holds the separator. |
| Text.Join | app.py:96 | No contract of its own: `sep.join(parts)`. `Text.JoinSplit`, `Text.SplitJoin` and `Text.JoinTrimmed` characterise it. |
| Text.JoinSplit | static/programa.js:2-5 | Joining the pieces of a split with the same separator gives the input back. |
| Text.SplitJoin | app.py:96 | Splitting a join gives the pieces back when there is at least one piece and none holds the separator. |
| Text.JoinTrimmed | app.py:96 | Joining pieces without white-space edges, with a separator that is not white space, gives a string without white-space edges. |
| Text.Decimal | backend/automata.py:46 | The decimal text of a number is non-empty and made of digits only. |
| Text.DecimalInjective | backend/automata.py:46 | Different counter values render as different decimal texts. |
| Seqs.HasDuplicates | app.py:39 | `len(xs) != len(set(xs))` holds exactly when some element repeats. |
| Subset.FreshName | backend/automata.py:46 | A generated name is `Q` followed by at least one decimal digit. |
| Subset.FreshNameInjective | backend/automata.py:46 | Different counter values give different names `Qk`. |
| Subset.NextFree | backend/automata.py:72-74 | The counter value used is the first one, from the current counter on, whose name is not to be skipped. With nothing to skip, as in the source, it is the current counter. |
| Subset.InitialNamesSpec | backend/automata.py:40 | The initial name map holds exactly the singletons of the states, each named after its state. |
| Subset.Union | backend/automata.py:58-67 | The loop over the members of a set builds exactly the set of labels one step reaches on the symbol. A member without an entry adds nothing, a list adds all its elements and a scalar adds itself, `""` included. |
| Subset.Record | backend/automata.py:69-84 | Handling a non-empty union keeps every existing name. It names the target only if the target had no name: with the first free counter value, which is the counter itself when nothing is skipped. The counter then moves past that value. The target is pushed exactly when it had never been discovered. |
| Subset.Start | backend/automata.py:35-52 | The start set is named after the start state when that is a listed state, and with the first free generated name otherwise (`Q1` when nothing is skipped). It is then the only discovered set, the only pending set and the only key of the table, with an empty row. |
| Subset.Pop | backend/automata.py:54-56 | Popping removes the top of the stack and gives the popped set an empty row. |
| Subset.PopInv | backend/automata.py:54-56 | Popping keeps the naming, worklist and path invariants, and leaves the popped set discovered, off the stack and with an empty row. |
| Subset.ProcessSet | backend/automata.py:58-84 | Scanning the alphabet for a popped set finishes its row. The stack grows by exactly the number of newly discovered sets, and all invariants are kept. |
| Subset.DiscoveredBound | backend/automata.py:78-80 | No set is discovered twice, so there are no more discovered sets than subsets of the labels the automaton mentions. This bound makes the loop terminate. |
| Subset.Explore | backend/automata.py:35-84 | When the stack is empty, the table keys are exactly the discovered sets, each pushed once. Every row has an entry for a symbol exactly when the union on it is non-empty, and that entry is the union. The accepting sets are exactly the recorded targets that hold an accepting label. Every discovered set has a name under the numbering rule and is reached from the start set by a word over the alphabet. |
| Worklist.MarkedMember | backend/automata.py:82-84 | A recorded target is marked accepting exactly when it shares a label with the accepting states. |
| Worklist.NumberingKnown | backend/automata.py:72 | A set that already has a name keeps the name map and the counter as they are. |
| Worklist.NumberingFresh | backend/automata.py:72-74 | A set without a name gets the name made from the first counter value whose name is not skipped, and the counter moves past it. Every counter value below the new counter is then used or skipped. |
| Worklist.NumberingInjective | backend/automata.py:40-74 | Generated names never clash with each other. When no generated name from counter 1 on, outside the skipped ones, is a state's own name, different sets have different names. |
| Worklist.Rekey | backend/automata.py:87-96 | Storing each row under its set's name as a dict does gives a key list without repetition that matches the stored names. The first key is the first set's name, and every stored row is the row of some set with that name. |
| Worklist.RekeySpec | backend/automata.py:87-96 | When names are distinct, the renamed table has one key per set, in the same order, each holding that set's own row. |
| Determinize.RenameRow | backend/automata.py:91-94 | A renamed row has an entry for a symbol exactly when the symbol is in the alphabet and the set's target on it is non-empty. That entry is the target's name as a scalar. |
| Determinize.Rename | backend/automata.py:86-106 | The converted automaton keeps the alphabet and starts at the start set's name. Its state list has no repetition and matches the table keys, with the start set's name first. Every entry is a scalar for a symbol of the alphabet. |
| Determinize.NamesInjective | backend/automata.py:40-74 | When every generated name from `Q1` on that equals a state's name is skipped, different sets get different names. A state named `Q0` needs no skipping. |
| Determinize.QZeroNoCollision | backend/automata.py:41 | The counter starts at 1, so `Q0` is never generated: an automaton whose only state is `Q0` has no name collision. |
| Determinize.RenameSpec | backend/automata.py:87-94 | With distinct names, the converted table holds each explored set's renamed row under the set's name. |
| Determinize.RenamedStep | backend/automata.py:88-94 | From a set's name, one step of the converted automaton reaches the name of the original union, or nothing when the union is empty. |
| Determinize.Simulate | backend/automata.py:54-94 | After any word over the alphabet, the converted automaton is in the single state named after the set the original reaches. When that set is empty it is in no state. |
| Determinize.AcceptsRenamed | backend/automata.py:82-97 | The converted automaton accepts a word exactly when the word is over the alphabet and the reached set is non-empty and marked accepting. |
| Determinize.RenamedLanguage | backend/automata.py:29-106 | When names do not clash, a non-empty word is accepted exactly when the original accepts it. The empty word is accepted exactly when the start is accepting and some non-empty word leads back to the start alone. |
| Determinize.RenamedAllReachable | backend/automata.py:54-96 | When names do not clash, every state of the converted automaton is reached from its start by some word over the alphabet. |
| Determinize.ExploredShape | backend/automata.py:48-105 | The converted automaton starts at the start set's name, lists it first and is deterministic. |
| Determinize.ScalarDeterministic | backend/automata.py:14-18 | A table whose entries are all scalars passes `es_deterministico`. |
| Determinize.Determinize | backend/automata.py:29-106 | This is the whole conversion as written. The result has the same alphabet and starts at the start set's name, which is listed first. Every state is listed once and every entry is a scalar, so the result is deterministic. When no state is named `Qk` with `k` at least 1, every state is reachable. Under the same condition, non-empty words are accepted exactly as by the original, and the empty word only when the start is accepting and re-entered. |
| Determinize.WithStartFinal | backend/automata.py:82-84 | No contract of its own: the correction, which also marks the start set accepting when the start state is accepting. `Determinize.FixedAccepts` and `Determinize.FixedLanguage` characterise it. |
| Determinize.FixedAccepts | backend/automata.py:82-84 | With the start set also marked accepting when the start state is accepting, the converted automaton accepts a word exactly when the original does. |
| Determinize.FixedLanguage | backend/automata.py:82-84 | When names do not clash, the renaming with the start set marked accepting accepts exactly the original's words, the empty word included. |
| Determinize.DeterminizeFixed | backend/automata.py:29-106 | The corrected conversion skips the states' own names when generating names and marks the start set accepting when the start is. It has the same shape as `Determinize` and accepts exactly the words the original accepts, for every automaton. |
| Determinize.StartAcceptanceLost | backend/automata.py:44-49 | On one accepting state with no transitions, the original accepts the empty word and the conversion as written does not. The corrected conversion does. |
| Server.UnknownErrors | app.py:42-44 | Each element of a list destination that is a non-empty label and not a state gives one error per occurrence, and nothing else gives one. |
| Server.CellErrorCounts | app.py:37-44 | A list destination with a repeated label gives exactly one repetition error, and a list without repetition gives none. |
| Server.CellErrorsEmpty | app.py:36-47 | One entry gives no error exactly when it is accepted. A list must be repetition-free with every label empty or a state. A scalar must be empty or a state. |
| Server.RowErrorsEmpty | app.py:35-47 | One state's entries give no error exactly when each entry is accepted. |
| Server.ErrorsEmpty | app.py:34-47 | The whole request gives no error exactly when every entry of every state is accepted. The source state and the symbol of an entry are never checked. |
| Server.CellsMap | app.py:35 | The dictionary of one state's entries has exactly the listed symbols as keys. Each symbol holds the destination of its last listed entry. |
| Server.ToTransitions | app.py:34 | The transitions dictionary has exactly the listed states as keys. Each state holds the entries of its last listed object. |
| Server.Submit | app.py:31-53 | The automaton is built exactly when every entry is accepted. It carries the request's states, alphabet, start and accepting labels, and the transitions dictionary of the request. Otherwise the answer is every error message, in order, joined by line breaks. |
| Server.SubmitLookup | app.py:53 | In a built automaton, `obtener_transiciones` gives for a state and a symbol the destination listed last for that symbol in the state's last listed object. |
| Server.Message | app.py:40-47 | No contract of its own: the text of each error. `Server.Submit` states that the error answer is these texts in order. |
| Server.CellErrors | app.py:36-47 | No contract of its own: the errors of one entry. `Server.CellErrorCounts` and `Server.CellErrorsEmpty` characterise it. |
| Server.RowErrors | app.py:35-47 | No contract of its own: the errors of one state's entries, in entry order. `Server.RowErrorsEmpty` characterises it. |
| Server.Errors | app.py:34-47 | No contract of its own: the errors of every entry, in request order. `Server.ErrorsEmpty` characterises it. |
| Server.FormatCell | app.py:96 | No contract of its own: the cell text. `Server.FormatListSplit`, `Server.FormatCellCases` and `Server.TableCell` characterise it. |
| Server.FormatListSplit | app.py:96 | Splitting the cell text of a non-empty list of comma-free labels at its commas gives the list back. |
| Server.FormatCellCases | app.py:96 | A non-empty scalar shows as itself. No entry and the empty scalar both show `-`. The lists `[]` and `[""]` both show as the empty text. |
| Server.TableCell | app.py:95-96 | A missing entry shows `-`, and a list entry shows its labels joined by commas. |
| Form.ParseList | static/programa.js:2-5 | A field gives one piece more than it has commas, and every piece is comma-free and has no white-space edges. |
| Form.ParseJoin | static/programa.js:2-5 | Parsing the comma join of trimmed, comma-free pieces gives the pieces back. |
| Form.ParseListStable | static/programa.js:2-5 | Parsing the comma join of a parsed field gives the same list again. |
| Form.ParseCell | static/programa.js:72-77 | A cell always gives at least one label, and every label is comma-free and has no white-space edges. |
| Form.ParseCellBlank | static/programa.js:72-77 | A blank or all-white-space cell becomes the one-element list `[""]`. |
| Form.CellRoundTrip | static/programa.js:72-77 | The server's cell text for a non-empty list of trimmed, comma-free labels parses back to the same list. |
| Form.ParseFields | static/programa.js:2-5 | No contract of its own: the four fields trimmed and split. `Form.ParseList`, `Text.Trim` and `Form.TransitionForm` characterise it. |
| Form.Alert | static/programa.js:12-29 | No contract of its own: the text of each alert. `Form.TransitionForm` states that the alert lists these texts in order. |
| Form.FormErrors | static/programa.js:9-31 | No contract of its own: the problems found, in order. `Form.FormErrorCounts` and `Form.FormErrorsEmpty` characterise it. |
| Form.BadAccepting | static/programa.js:27-31 | Each accepting entry that is not a state gives one error per occurrence, and nothing else gives one. |
| Form.FlagCounts | static/programa.js:9-31 | Each of the three checks contributes its error exactly once when it fails and never otherwise. The accepting-entry errors keep their counts. |
| Form.FormErrorCounts | static/programa.js:9-31 | Repeated states give exactly one error however many repeat, and so do repeated symbols. A start that is not a state gives one error. Each accepting entry that is not a state gives one error per occurrence. |
| Form.FormErrorsEmpty | static/programa.js:9-37 | The form gives no error exactly when no state or symbol repeats and the start and every accepting entry are states. |
| Form.InputName | static/programa.js:49 | No contract of its own: the input name `state,symbol`. `Form.InputNameSplit` characterises it. |
| Form.InputNameSplit | static/programa.js:49 | The input name `state,symbol` splits back into exactly the state and the symbol when neither holds a comma. |
| Form.InputTable | static/programa.js:39-52 | The table has one row per state, in order, and one input per symbol, named after the state and the symbol. |
| Form.TransitionForm | static/programa.js:7-52 | The table is produced exactly when the form is acceptable. Otherwise the alert lists every problem in the order found. |
| Form.InputTableRoundTrip | static/programa.js:46-52 | Every input of the table built from comma-free states and symbols, as parsed fields always are, reads back as the state of its row and the symbol of its column. |
| NameClash.ClashOriginal | backend/automata.py:29-106 | The automaton with states `p` and `Q1` used below accepts `aa` and rejects `ba`. |
| NameClash.ClashWords | backend/automata.py:86-96 | An automaton in which `a` and `b` lead from `p` to an accepting `Q1` and `Q1` carries either no entry for `a` or the row of `p` cannot accept `aa` while rejecting `ba`. |
| NameClash.ClashExplored | backend/automata.py:35-84 | Every finished exploration of that automaton discovers exactly `{p}`, `{Q1}` and `{p, Q1}`. Its rows for `{p}` and `{p, Q1}` lead on `a` to `{p, Q1}` and on `b` to `{Q1}`, and `{Q1}` has no entry for `a`. |
| NameClash.ClashNames | backend/automata.py:40-47 | With nothing skipped, `{p, Q1}` receives the generated name `Q1`, the name `{Q1}` already has. |
| NameClash.ClashMergedOf | backend/automata.py:86-97 | Renaming such an exploration with nothing skipped gives an automaton that rejects `aa` or accepts `ba`. |
| NameClash.ClashConverted | backend/automata.py:29-106 | The conversion as written of that automaton rejects `aa` or accepts `ba`. |
| NameClash.CollisionChangesLanguage | backend/automata.py:40-41 | The original accepts `aa` and rejects `ba`, and the conversion as written does not do both, so it changes the accepted language. |

## Left out

- Flask routing, the JSON request and response, the global `automata_global` and the `try`/`except` around the handler are left out because they are web plumbing. A request is given as parsed lists and strings. JSON values other than strings and lists of strings are not modelled.
- Graphviz rendering and the HTML assembly around the one cell rule are left out because they are a foreign library and presentation.
- The DOM, `FormData`, `alert`, `fetch` and image reloading in the page are left out because they are user-interface and network I/O. The alert text and the generated table are results instead.
- `enviarAutomata` beyond reading an input's name and parsing a cell's value is left out. The three list fields are parsed as in `generarTablaTransiciones`.
- `validar_cadena` is left out because app.py calls it but the class does not define it. Acceptance is a ghost definition used only to state what the conversion preserves.
- `Automata.__init__` checks nothing, so it is the datatype constructor. The source keeps `estados_finales` as a list but only tests membership in it, so `accepting` is a set. The order in which the converted automaton lists its accepting states (set iteration order) is therefore not modelled.
- A JSON object with a repeated key keeps its last value. `CellsMap` and `ToTransitions` model that, but the check loop then sees only the surviving entry, and the model checks every listed entry.
- The exact `Qk` numbering is modelled only by its rule. The counter moves past each value it uses, and a named set keeps its name. Which set gets which number depends on the stack order, and only the collision example relies on it, where a single set is numbered.
- The `es_deterministico` call and the message chosen from it after construction (app.py lines 54-64) are left out because they are response plumbing. `Automata.IsDeterministic` models the check itself.
- Determinize.Determinize: the language and reachability claims are stated only when no state is named `Q1`, `Q2`, and so on (`Q0` is allowed). With such a state, a generated name can equal a state's own name, and the renamed table then merges the rows of two sets. The model reproduces that merging (`Rekey`); the second finding shows one automaton on which it changes the language.

## Findings

| source | as written | input that shows it | evidently intended | confidence | as-written member | corrected member |
|---|---|---|---|---|---|---|
| backend/automata.py:44-49 | Only sets reached by a recorded transition are tested for acceptance (lines 82-84), so the start set is accepting only when some non-empty word leads back to it. | States `[p]`, alphabet `[a]`, no transitions, start `p`, accepting `{p}`. The original accepts the empty word; the converted automaton does not. | The start set is accepting whenever the start state is accepting, so the conversion accepts the same language. | not executed | Determinize.StartAcceptanceLost | Determinize.DeterminizeFixed |
| backend/automata.py:40-41 | Generated names start at `Q1` whatever the states are called, so a generated name can equal a state's own name, and renaming (lines 86-96) then stores two sets under one name. | States `[p, Q1]`, alphabet `[a, b]`, start `p`, accepting `{Q1}`; from `p`, `a` leads to `[p, Q1]` and `b` to `[Q1]`. `{p, Q1}` is named `Q1`, like `{Q1}`. The original accepts `aa` and rejects `ba`; the converted automaton rejects `aa` or accepts `ba`. | Generated names continue past the states' own names (line 33), so different sets keep different names and the language is kept. | not executed | NameClash.CollisionChangesLanguage | Determinize.DeterminizeFixed |
