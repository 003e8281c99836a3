# SMILES checker — a Dafny model of its validation core

The system checks SMILES strings, the line notation for molecules. A
grammar (an LALR parser generated with the SLY library) reduces the tokens
of a string. Its actions call a *parser manager*, which keeps the state of
one parse:

- the last atom;
- the open and closed ring-closure numbers and the atom that opened each;
- the current chain;
- the molecular graph the manager builds.

A chemistry layer does two jobs:

- it builds atoms from a periodic table, where each element has an
  electron-configuration string such as `1s2 2s2 2p6 3s1`;
- it checks bracket atoms (`[NH4+]`) for a stable valence shell: the octet
  rule, or the duet rule for the first shell.

The repository holds three generations of this code, and all of them are
modelled here:

- **current** (`src/smiles_checker/...`): the parser manager, the graph
  and its `Chemistry` helpers, per-subshell electron bookkeeping with
  charge adjustment, and the `generate_combinations` / `getAttributes`
  helpers of the grammar;
- **older** (`src/validator/...`, `src/chem/chem.py`): a smaller parser
  manager with a "closed ring reused" error, the lexer's symbol ordering,
  the `chains` / `chain` / `internal_bracket` rule values, and a per-layer
  valence check;
- **oldest** (`chem.py`, `yacc.py` at the root): organic atoms, reading a
  configuration, and a layer-by-layer valence check.

The periodic table is a parameter, never loaded from a file. It appears as
`Structure.PeriodicTable`, holding the symbol list and a map from symbol to
configuration, and as a plain `map<string, string>` for the oldest code.
Python exceptions are values of `Wrappers.Error`:

- `ParserException(rule, message)` for the project's own parser errors;
- `Raised(message)` for a plain `Exception`;
- `Builtin(kind)` for `KeyError`, `IndexError`, `NameError`,
  `AttributeError`, `TypeError`, `ValueError` and `UnboundLocalError`;
- `NotModelled` for the few paths listed under "Left out".

Every fallible operation returns `Result`.

Module layout:

| module | file | models |
|---|---|---|
| `Wrappers`, `PyStr`, `Values` | wrappers.dfy, pystr.dfy, values.dfy | Option/Result/Error; the Python `str` and `int` operations used (`split`, `join`, `int`, `lower`, `title`, `rstrip`, string order); Python values flowing through grammar actions and their truthiness |
| `Orbitals` | orbitals.dfy | `_parse_electron_configuration` of `chemistry.py`: orbital tokens to a subshell map |
| `Atomic` | atomic.dfy | `Atom` of `atomic.py`: noble-gas stripping, derived shell fields, subshell getters |
| `BracketAtoms` | bracket_atom.dfy | `BracketAtom` of `atomic.py`: charge adjustment, octet rule, `compute_valency` |
| `Structure` | structure.dfy | `Graph` and `Chemistry` of `structure.py` |
| `Manager` | parser_manager.dfy | `ParserManager` of `src/smiles_checker/validator/parser_manager.py` |
| `Combinations` | combinations.dfy | `generate_combinations` (all three grammar files) and `getAttributes` |
| `Lexer` | lexer.dfy | `src/validator/lex.py` |
| `LegacyChem` | legacy_chem.dfy | `src/chem/chem.py` |
| `LegacyManager` | legacy_parser_manager.dfy | `src/validator/parser_manager.py` |
| `LegacyGrammar` | legacy_grammar.dfy | the `chains`, `chain` and `internal_bracket` rules of `src/validator/yacc.py` |
| `RootChem` | root_chem.dfy | the root `chem.py` |

Where the code and its tests or docstrings disagree, the model follows
the code. Each such case is listed under "Left out" or in the table.

## Model

| member | source | states |
|---|---|---|
| PyStr.PyInt | src/validator/parser_manager.py:139 | `int(s)` of a digit string succeeds exactly when `s` is a non-empty run of ASCII digits, and the value is non-negative |
| PyStr.SplitJoin | src/smiles_checker/validator/yacc.py:24 | `split()` undoes a space-join of words, so a rule written back from its parts splits into the same parts |
| PyStr.JoinInjective | src/smiles_checker/validator/yacc.py:39 | two word lists whose space-joins are equal are equal, so distinct productions give distinct strings |
| PyStr.TitleCaseIdempotent | src/smiles_checker/chem/structure.py:177-178 | `title()` applied twice equals applying it once, so a title-cased symbol is left alone |
| PyStr.RStrip | src/smiles_checker/validator/yacc.py:27-28 | `rstrip("?")` returns a prefix without a trailing `?`, and only `?` characters were removed |
| PyStr.LexLessTotal | src/validator/lex.py:19 | string order is total on distinct strings, so `sorted` has a unique result |
| PyStr.LexLessTransitive | src/validator/lex.py:19 | string order is transitive |
| PyStr.ProperPrefixLess | src/validator/lex.py:19 | a proper prefix sorts before the longer string |
| PyStr.JoinSplitOn | chem.py:27 | joining the pieces of `split(' ')` with `' '` rebuilds the string |
| PyStr.SplitOnJoin | chem.py:27 | `split(' ')` of a space-join of space-free words gives back the words |
| Orbitals.LetterOf | src/smiles_checker/chem/chemistry.py:13 | the class `[spdf]`: a letter is recognised exactly when it is one of the four |
| Orbitals.Upsert | src/smiles_checker/chem/chemistry.py:18 | assigning `(n, l) ↦ e`: the result holds `e` at that key, every other key keeps its value, and the map stays canonical |
| Orbitals.ParseOrbital | src/smiles_checker/chem/chemistry.py:13-17 | a token not starting with a digit has no match, and a matched count is never negative |
| Orbitals.ParseOrbitalSpec | src/smiles_checker/chem/chemistry.py:13-17 | a token matches exactly when it is digits, one of `s p d f`, digits, then anything not a digit; the groups are then the two numbers and the letter |
| Orbitals.UnknownLetterUnmatched | src/smiles_checker/chem/chemistry.py:13-17 | `12x3` has no match: the letter must be one of `s p d f` |
| Orbitals.ParseAll | src/smiles_checker/chem/chemistry.py:6-19 | the result is a canonical subshell map, and every entry comes from a matching token |
| Orbitals.ParseOrbitals | src/smiles_checker/chem/chemistry.py:11-19 | the dictionary-filling loop computes `ParseAll` |
| Orbitals.ParseAllLookup | src/smiles_checker/chem/chemistry.py:12-18 | each key holds the count of the last matching token for it; non-matching tokens leave no trace; an empty list gives the empty map |
| Orbitals.UnmatchedSkipped | src/smiles_checker/chem/chemistry.py:14 | appending a token that does not match changes nothing |
| Orbitals.LookupIn | src/smiles_checker/chem/chemistry.py:18 | a key's lookup in a canonical map is `Some(e)` exactly when the entry is present |
| Orbitals.ParseShowEntry | src/smiles_checker/chem/chemistry.py:13 | a rendered orbital `n l e`, followed by anything not starting with a digit, parses back to the entry, so trailing characters are ignored |
| Orbitals.ParseRender | src/smiles_checker/chem/chemistry.py:6-19 | parsing the rendering of any canonical map gives the map back |
| Atomic.LetterRun | src/smiles_checker/chem/atomic.py:13 | the length of the leading `[A-Za-z]+` run, the longest one |
| Atomic.NobleAt | src/smiles_checker/chem/atomic.py:13 | a non-zero match length means the text starts with `[` |
| Atomic.CoreLength | src/smiles_checker/chem/atomic.py:13 | a core `[` letters `]` with its blanks at the start of the text is matched in full |
| Atomic.NobleAtSpec | src/smiles_checker/chem/atomic.py:13 | the match length is non-zero exactly when the text starts with `[`, one or more letters, `]` and blanks, and is then the length of all of them |
| Atomic.RunsOfCore | src/smiles_checker/chem/atomic.py:13 | `[Gas]` followed by blanks matches exactly that far |
| Atomic.NobleCoreDropped | src/smiles_checker/chem/atomic.py:13 | removing cores deletes `[Gas]` and its trailing blanks and keeps the rest |
| Atomic.StripNoble | src/smiles_checker/chem/atomic.py:13 | removing cores never lengthens the text and leaves text without `[` alone |
| Atomic.StripNoblePlain | src/smiles_checker/chem/atomic.py:13 | text before the first `[` is kept unchanged in front of what follows |
| Atomic.NobleCoreAfter | src/smiles_checker/chem/atomic.py:13 | a core after any text without `[` is removed with its blanks, and the text before it is kept |
| Atomic.BareBracketKept | src/smiles_checker/chem/atomic.py:13 | a `[` that opens no core is kept and the scan goes on after it |
| Atomic.TrimStart | src/smiles_checker/chem/atomic.py:13 | the part of `strip()` that removes leading blanks: a suffix starting with no blank, everything before it blank |
| Atomic.Strip | src/smiles_checker/chem/atomic.py:13 | `strip()` keeps one run of the text, with only whitespace before and after it and no whitespace at either of its ends |
| Atomic.TrimEnd | src/smiles_checker/chem/atomic.py:13 | the part of `strip()` that removes trailing blanks: a prefix ending with no blank |
| Atomic.ParseConfiguration | src/smiles_checker/chem/atomic.py:6-25 | the subshell map of a configuration string is always canonical |
| Atomic.ParseElectronConfiguration | src/smiles_checker/chem/atomic.py:11-25 | the loop computes `ParseConfiguration` |
| Atomic.ParseConfigurationRender | src/smiles_checker/chem/atomic.py:6-25 | the configuration string written from a canonical map parses back to that map |
| Atomic.RenderAt | src/smiles_checker/chem/atomic.py:17 | the i-th rendered token is the i-th entry written out |
| Atomic.OuterShell | src/smiles_checker/chem/atomic.py:67 | `valency_layer` is the largest `n` present, and it is attained |
| Atomic.Layers | src/smiles_checker/chem/atomic.py:74-76 | `layers` holds exactly the shells present, ascending, with the outermost last |
| Atomic.ElectronsOf | src/smiles_checker/chem/atomic.py:77-80 | `electrons_by_layers[i]` is the electron total of `layers[i]` |
| Atomic.ElectronsByLayersTotal | src/smiles_checker/chem/atomic.py:77-80 | the per-layer totals add up to the atom's electron count |
| Atomic.ElectronsOfOtherShells | src/smiles_checker/chem/atomic.py:78 | a subshell outside the listed layers does not change their totals |
| Atomic.LettersTotal | src/smiles_checker/chem/atomic.py:82-86 | the four per-letter totals account for every electron |
| Atomic.MakeAtom | src/smiles_checker/chem/atomic.py:52-80 | with no subshells every derived field is zero or empty; otherwise `valency_layer` is the largest shell, `electrons_in_valency` is the electron total of that shell, `layers` is exactly the shells present in ascending order (`Layers`), `electrons_by_layers` holds each of those shells' totals (`ElectronsOf`), and the totals sum to the electron count |
| Atomic.TotalElectronsInSubshell | src/smiles_checker/chem/atomic.py:82-86 | the sum of one letter over all shells, 0 for a non-letter |
| Atomic.ElectronsInSpecificSubshell | src/smiles_checker/chem/atomic.py:88-95 | the scan returns the count of the named `(n, s)`, or 0 when absent |
| Atomic.NamedEntryUnique | src/smiles_checker/chem/atomic.py:92-94 | at most one subshell answers the scan, so its result does not depend on the set's order |
| BracketAtoms.MaxElectronsInSubshell | src/smiles_checker/chem/atomic.py:201-206 | capacity `2(2ℓ+1)` (2, 6, 10, 14) for s, p, d, f, and 0 otherwise |
| BracketAtoms.Capacity | src/smiles_checker/chem/atomic.py:201-206 | a letter's capacity is that of its one-letter string |
| BracketAtoms.NextSubshell | src/smiles_checker/chem/atomic.py:193-199 | s→p→d→f, and `f` or anything unknown wraps to `s` |
| BracketAtoms.RemoveOutermostSpec | src/smiles_checker/chem/atomic.py:129-142 | removing `q` keeps the map canonical, removes `min(q, total)` electrons, changes only the outermost subshells, empties and deletes every subshell outside the one it stops in, deletes that one too when it is left with none, and never deletes a non-empty one |
| BracketAtoms.RemoveElectrons | src/smiles_checker/chem/atomic.py:129-142 | the outermost-first loop computes `RemoveOutermost` |
| BracketAtoms.FillInnermost | src/smiles_checker/chem/atomic.py:150-157 | filling existing subshells keeps their number |
| BracketAtoms.FillExisting | src/smiles_checker/chem/atomic.py:150-157 | the innermost-first loop computes `FillInnermost` and its leftover |
| BracketAtoms.AddInnermostSpec | src/smiles_checker/chem/atomic.py:144-175 | adding `q` keeps the map canonical and adds exactly `q` electrons; a subshell changes only after every inner one is full; new subshells appear only when all existing ones are full, and they are `s` subshells of at most 2 |
| BracketAtoms.AddElectrons | src/smiles_checker/chem/atomic.py:144-175 | filling, then the shell-opening loop, computes `AddInnermost` |
| BracketAtoms.AdjustForCharge | src/smiles_checker/chem/atomic.py:123-175 | the charge-adjusted map is canonical; a charge `+q` leaves `total - min(q, total)` electrons and a charge `-q` leaves `total + q` |
| BracketAtoms.MakeBracketAtom | src/smiles_checker/chem/atomic.py:119-187 | with no charge the atom is the plain `Atom` plus its fields; with a charge the subshells are the charge-adjusted map (`AdjustForCharge`), `valency_layer` is its largest shell and `electrons_in_valency` that shell's total, while `layers` and `electrons_by_layers` keep their uncharged values; an emptied map gives zeros |
| BracketAtoms.BracketAtomElectrons | src/smiles_checker/chem/atomic.py:123-175 | charge `+q` removes `min(q, total)` electrons and charge `-q` adds `q` |
| BracketAtoms.ComputeValencyExactly | src/smiles_checker/chem/atomic.py:208-224 | `compute_valency(bonds)` (`BracketAtoms.ComputeValency`) holds for exactly one bond count: what the valence electrons and hydrogens (none when absent) lack of 2 (first shell) or 8 |
| Structure.ConnectKeys | src/smiles_checker/chem/structure.py:37-40 | an edge adds its new atoms as keys in insertion order and keeps the graph well formed |
| Structure.ConnectCount | src/smiles_checker/chem/structure.py:41-42 | after an edge, the number of `y` in `adj[x]` still equals the number of `x` in `adj[y]` |
| Structure.ConnectOthers | src/smiles_checker/chem/structure.py:33-42 | no other atom's neighbour list changes |
| Structure.ConnectConsistent | src/smiles_checker/chem/structure.py:41-42 | the graph stays symmetric |
| Structure.ConnectDegree | src/smiles_checker/chem/structure.py:41-42 | each edge adds exactly 2 to the total adjacency length, also for a self-loop |
| Structure.Dfs | src/smiles_checker/chem/structure.py:52-58 | the recursive search appends distinct unvisited atoms, starting with the given one, each after one of its neighbours (`Linked`), and leaves every newly visited atom's neighbours visited |
| Structure.LinkedReachable | src/smiles_checker/chem/structure.py:52-58 | in a list where each atom follows one of its neighbours, every atom is reachable from the first by a path of edges |
| Structure.LinkedConnected | src/smiles_checker/chem/structure.py:52-58 | such a list is connected: every member is reachable from its first atom |
| Structure.Graph.constructor | src/smiles_checker/chem/structure.py:23-24 | an empty graph with no cycles |
| Structure.Graph.AddCycle | src/smiles_checker/chem/structure.py:26-31 | appends the cycle and leaves the adjacency lists unchanged |
| Structure.Graph.AddEdge | src/smiles_checker/chem/structure.py:33-42 | the new graph is `Connect` of the old one, whose properties are the lemmas above |
| Structure.Graph.GetAcyclicSubgraphs | src/smiles_checker/chem/structure.py:44-66 | every key is in exactly one list; each list is closed under neighbours and connected (every member reachable from its first atom); lists start at successive first-unvisited keys in insertion order |
| Structure.AllValent | src/smiles_checker/chem/structure.py:80-83 | the loop answers true exactly when every listed bracket atom passes `compute_valency()` |
| Structure.Graph.CheckValencyForAba | src/smiles_checker/chem/structure.py:68-83 | true exactly when every bracket-atom vertex passes `compute_valency()`; plain atoms and an empty graph pass |
| Structure.Graph.Huckel | src/smiles_checker/chem/structure.py:85-97 | true exactly when every recorded cycle passes the 4n+2 rule |
| Structure.HuckelFourNPlusTwo | src/smiles_checker/chem/structure.py:94 | the rule `(pi - 2) % 4 == 0` holds exactly when `pi = 4n + 2` for some integer `n` |
| Structure.PiElectronsArePSubshells | src/smiles_checker/chem/structure.py:91-93 | a cycle's π electrons are the sum of its atoms' p-subshell totals |
| Structure.BracketAtomsOf | src/smiles_checker/chem/structure.py:73-78 | the selection keeps exactly the bracket atoms |
| Structure.NumberOfElectronsPerBond | src/smiles_checker/chem/structure.py:116-131 | `=`→2, `#`→3, `$`→4, `/` `\` `-`→1, `.`→0, and "Invalid Bond" for anything else |
| Structure.ChemAtom | src/smiles_checker/chem/structure.py:166-187 | title-cases first, rejects a symbol not in the table with "Invalid Symbol", raises KeyError for one without a configuration, else builds the plain atom |
| Structure.ChemAtomIgnoresCase | src/smiles_checker/chem/structure.py:177-181 | the factory gives the same answer for a symbol and its title-cased form |
| Structure.ChemBracketAtom | src/smiles_checker/chem/structure.py:189-210 | checks the raw symbol first, then title-cases it and marks the atom aromatic when that changed it |
| Structure.BracketRejectsUntitled | src/smiles_checker/chem/structure.py:200-201 | with a title-case table, a lower-case bracket symbol is always rejected |
| Structure.ValidateValencyBracket | src/smiles_checker/chem/structure.py:212-237 | fails exactly when the symbol is missing from the symbol table or from the configuration table; otherwise `compute_valency()` of the bracket atom, with hcount and charge defaulting to 0 |
| Structure.ValidateAromacity | src/smiles_checker/chem/structure.py:239-246 | for a given graph: all cycles pass Hückel and all bracket atoms pass the valence check |
| Manager.RemoveFirstDistinct | src/smiles_checker/validator/parser_manager.py:56 | `list.remove` on a duplicate-free list removes exactly that number |
| Manager.RingTokenValid | src/smiles_checker/validator/parser_manager.py:54-68 | a ring token keeps the invariant (no duplicates, opening atoms only for open numbers); closing moves the number to the end of the closed list; opening adds it; no other number changes |
| Manager.RingTokenFails | src/smiles_checker/validator/parser_manager.py:54-63 | a ring token fails exactly when the number is open but no opening atom was recorded |
| Manager.RingOpenThenClose | src/smiles_checker/validator/parser_manager.py:54-68 | a number opened after an atom closes on its next use and returns to its previous state |
| Manager.RingOpenedWithoutAtom | src/smiles_checker/validator/parser_manager.py:64-68 | a number opened before any atom is open but has no opening atom, so closing it fails |
| Manager.ChainBondLabel | src/smiles_checker/validator/parser_manager.py:48-49 | a chain bond is labelled with the written bond, else `-` |
| Manager.BondLabelsAgree | src/smiles_checker/validator/parser_manager.py:48-61 | a chain bond and a ring-closing bond get the same label unless no bond is written and both atoms are aromatic |
| Manager.RingBondLabel | src/smiles_checker/validator/parser_manager.py:58-61 | the ring label is the written bond, else `:` exactly when both atoms are aromatic, else `-` |
| Manager.ParserManager.constructor | src/smiles_checker/validator/parser_manager.py:10-15 | every list, map and the last atom start empty |
| Manager.ParserManager.Reset | src/smiles_checker/validator/parser_manager.py:27-35 | back to the initial state |
| Manager.ParserManager.Chain | src/smiles_checker/validator/parser_manager.py:37-74 | an atom wins: it is bonded to the last atom if any, becomes the last atom and is returned; a ring number opens or closes as in `RingToken` and adds the ring bond; neither raises `ParserException("chain")`; the chain and the cycles are untouched |
| Manager.ParserManager.DotProxy | src/smiles_checker/validator/parser_manager.py:76-85 | a dot disconnects: no last atom, and the atom is appended to the chain |
| Manager.ParserManager.InnerBranch | src/smiles_checker/validator/parser_manager.py:87-123 | the last atom, chain and rings are as on entry; one edge to the branch's first atom is added only for a written bond other than `.` |
| Manager.ParserManager.ValidateBranch | src/smiles_checker/validator/parser_manager.py:125-151 | "Unclosed ring numbers" whenever a number is open; true without graph checks for an empty chain; otherwise the missing `validate_graph` raises |
| Manager.ParserManager.InternalBracket | src/smiles_checker/validator/parser_manager.py:153-169 | the bracket atom built by `Chemistry.BracketAtom` is appended to the chain; a failure leaves the chain alone |
| Manager.ParserManager.Atom | src/smiles_checker/validator/parser_manager.py:191-206 | a non-string passes through; a symbol becomes a plain atom, appended to the chain and made the last atom; the rings are untouched |
| Manager.RingNumber | src/smiles_checker/validator/parser_manager.py:208-269 | succeeds exactly when the digits are well formed and their value is ≥ 1, and returns that value; "%" alone and a third digit after a plain digit raise their own messages |
| Manager.Int | src/smiles_checker/validator/parser_manager.py:271-279 | the concatenated digits' value, an error when they are not all digits |
| Manager.HCount | src/smiles_checker/validator/parser_manager.py:281-297 | 1 with no digit, the digit's value otherwise, and "Invalid hydrogen count" for a non-digit |
| Manager.Charge | src/smiles_checker/validator/parser_manager.py:299-327 | a lone sign gives ±1, `++`/`--` give ±2, a count `n` gives ±n, and a second sign that differs raises "Charge mismatch" |
| Manager.ChargeFailsOnlyOnMismatch | src/smiles_checker/validator/parser_manager.py:311-315 | the only failure is a mismatched second sign |
| Manager.Chiral | src/smiles_checker/validator/parser_manager.py:329-339 | "counterclockwise" exactly for `@@`, "clockwise" otherwise |
| Manager.Fifteen | src/smiles_checker/validator/parser_manager.py:341-361 | two digits are read as one number and raise "Cannot exceed 15" above 15; one digit gives its value |
| Manager.Listify | src/smiles_checker/validator/parser_manager.py:171-189 | the result is always a list starting with the base: `[base]` for no tail, `[base] + tail` for a list tail, `[base, tail]` otherwise |
| Combinations.CombinationsOf | src/smiles_checker/validator/yacc.py:12-41 | one space-joined production per word list of `Words`, in the same order |
| Combinations.GenerateCombinations | src/smiles_checker/validator/yacc.py:24-41 | the nested loops compute `CombinationsOf`; the same function is `generate_combinations` of src/validator/yacc.py:7-33 and yacc.py:10-26 |
| Combinations.CombinationCount | src/smiles_checker/validator/yacc.py:32-33 | there are exactly 2^k productions for k optional parts |
| Combinations.ChooseCount | src/smiles_checker/validator/yacc.py:33 | `combinations(optional, i)` yields C(k, i) choices |
| Combinations.ChooseShape | src/smiles_checker/validator/yacc.py:33 | every choice is strictly increasing in position and of size i |
| Combinations.BinomSumAll | src/smiles_checker/validator/yacc.py:32 | the sizes 0..k together give 2^k |
| Combinations.EveryCombinationKeepsRequired | src/smiles_checker/validator/yacc.py:34-38 | every production is an order-preserving subsequence of the stripped parts and contains every required part |
| Combinations.FirstCombination | src/smiles_checker/validator/yacc.py:32-39 | with distinct names the first production is the required parts alone |
| Combinations.LastCombination | src/smiles_checker/validator/yacc.py:32-39 | the last production is every part |
| Combinations.LevelsCount | src/smiles_checker/validator/yacc.py:32-33 | the first m rounds of the outer loop yield C(k,0) + ... + C(k,m-1) productions |
| Combinations.ChooseDistinct | src/smiles_checker/validator/yacc.py:33 | `combinations` never yields the same index choice twice |
| Combinations.LevelsChoices | src/smiles_checker/validator/yacc.py:32-39 | the k-th production of the first m rounds keeps the optional names at the k-th index choice of `Choices` |
| Combinations.WordsBySize | src/smiles_checker/validator/yacc.py:32-39 | the productions come in order of how many optional parts they keep: the k-th is built from an increasing index choice, and the choice sizes never decrease along the list |
| Combinations.ChoicesInjective | src/smiles_checker/validator/yacc.py:34-38 | with distinct part names, two different choices of optional parts give two different productions |
| Combinations.NoRepeatedWords | src/smiles_checker/validator/yacc.py:12-41 | with distinct part names, no word list is produced twice |
| Combinations.NoRepeatedCombinations | src/smiles_checker/validator/yacc.py:12-41 | with distinct, non-empty part names, `generate_combinations` returns no string twice |
| Combinations.DocstringExample | src/smiles_checker/validator/yacc.py:16-17 | "X? Y Z?" gives "Y", "X Y", "Y Z", "X Y Z" in that order |
| Combinations.BracketRuleCombinations | src/validator/yacc.py:89 | the bracket rules of both older grammars (also yacc.py:61) give 32 productions, each containing `symbol` |
| Combinations.GetAttributes | src/smiles_checker/validator/yacc.py:44-61 | a list of names gives a list of the same length and order, with None for a missing attribute; the same function is src/validator/yacc.py:36-53 |
| Lexer.UnescapeEscape | src/validator/lex.py:8 | `re.escape` is undone by dropping its backslashes, so no symbol is lost |
| Lexer.EscapePlain | src/validator/lex.py:8 | alphanumeric symbols are not changed by escaping |
| Lexer.EscapeGuardsBar | src/validator/lex.py:8-10 | every bar character left after escaping is preceded by a backslash, so only the joining bars separate alternatives |
| Lexer.GenerateRegexFromList | src/validator/lex.py:5-10 | the loop joins the escaped elements with the bar character in input order |
| Lexer.RegexAlternatives | src/validator/lex.py:5-10 | splitting the pattern at its bars gives back the elements, when none holds a special character |
| Lexer.SortDescSpec | src/validator/lex.py:19 | `sorted(..., reverse=True)` is descending and a permutation |
| Lexer.SortedUnique | src/validator/lex.py:19 | only one descending arrangement of a multiset exists |
| Lexer.SortDescOrderFree | src/validator/lex.py:19 | sorting ignores the input order |
| Lexer.GenerateLower | src/validator/lex.py:13-19 | the loop returns the input sorted descending followed by its lower-cased copies sorted descending |
| Lexer.GenerateLowerShape | src/validator/lex.py:13-19 | 2n items: the first half a permutation of the input, the second of its lower-cased copies |
| Lexer.LongerBeforePrefix | src/validator/lex.py:19 | in descending order a symbol precedes each of its proper prefixes |
| Lexer.GenerateLowerPrefersLonger | src/validator/lex.py:19-31 | for capitalised symbols the whole token list puts "Cl" before "C" and "cl" before "c", so the alternation tries the longer symbol first |
| Lexer.SemiSymbolOrderFree | src/validator/lex.py:22-31 | any order of `set(tp) - set("H")` gives the same pattern |
| Lexer.SemiSymbolNoHydrogen | src/validator/lex.py:22 | neither "H" nor "h" is an atom token |
| Lexer.LowerAllMultiset | src/validator/lex.py:15-17 | lower-casing permutations gives permutations |
| Lexer.SemiBondRegex | src/validator/lex.py:23-32 | the bond pattern is the five bonds `=`, `#`, `$`, `/`, `\` with `#`, `$` and the backslash escaped, joined by bars; `-` and `:` are not among them |
| LegacyChem.ShellOf | src/chem/chem.py:36 | the shell is character 0 as a digit; an empty orbital is IndexError |
| LegacyChem.CountOf | src/chem/chem.py:39 | the count is character 2 as a digit; a shorter orbital is IndexError |
| LegacyChem.Shells | src/chem/chem.py:36 | every orbital's shell is read, or the reading fails |
| LegacyChem.LayerCount | src/chem/chem.py:37-43 | the valence count is the sum of the counts of the orbitals in that shell, and never negative |
| LegacyChem.LayersFromSpec | src/chem/chem.py:45-48 | the layers are the distinct shells, strictly descending |
| LegacyChem.ParseAtom | src/chem/chem.py:29-53 | the string form is split on spaces; `valency_layer` is the largest shell; `electrons_by_layers` has one entry per layer and all are 0, because line 51 compares a character with an integer |
| LegacyChem.ParsedLayers | src/chem/chem.py:45-48 | the first layer is the valence layer |
| LegacyChem.EmptyConfigurationString | src/chem/chem.py:34-36 | an empty configuration string raises IndexError |
| LegacyChem.SameSymbolSameAtom | src/chem/chem.py:55-61 | equality and hash look only at the symbol: atoms with the same symbol compare equal even when their fields differ |
| LegacyChem.FirstAboveSpec | src/chem/chem.py:146-154 | the scan stops at the first layer holding more than `-acc` once the earlier layers are added, and finds none only when no layer does |
| LegacyChem.FirstAboveExists | src/chem/chem.py:146-150 | when the layers hold more than `-acc`, the scan stops at some layer |
| LegacyChem.ZeroLayersNeverAbove | src/chem/chem.py:146-150 | with all layers 0 and `acc ≤ 0` the scan finds nothing |
| LegacyChem.PositiveOutcome | src/chem/chem.py:174-184 | when the valence layer can take `acc` more electrons, stable exactly when that fills it; a layer number outside the table is IndexError |
| LegacyChem.LegacyBracketAtom.constructor | src/chem/chem.py:65-98 | copies the atom's fields and the given counts |
| LegacyChem.LegacyBracketAtom.HandleNegativeAcc | src/chem/chem.py:136-162 | the earlier layers are zeroed and the first layer above `-acc` decides by the octet rule; when none does, every layer is dropped and reading the first one is IndexError |
| LegacyChem.LegacyBracketAtom.ComputeValency | src/chem/chem.py:114-134 | missing counts become 0; fewer electrons than `-acc` is unstable; otherwise the negative or positive handler decides |
| LegacyChem.NewBracketAtom | src/chem/chem.py:85-98 | the new atom's `solo_valency` is `compute_valency()`; since all layers are 0, a charge above the hydrogen count gives False |
| LegacyChem.BracketBase | src/chem/chem.py:306-330 | "Invalid Symbol" for a symbol not in the table; the atom is title-cased and aromatic exactly when that changed it |
| LegacyChem.ValidateValencyBracket | src/chem/chem.py:332-358 | unknown symbols fail; a charge above the hydrogen count is always invalid; otherwise only the first branch of the adding path decides |
| RootChem.OrganicAtomsShape | chem.py:4-5 | 20 symbols: the ten lower-cased forms, then the ten symbols; neither "H" nor "h" |
| RootChem.OrganicAtomsSpelled | chem.py:4-5 | `organic_atoms` spelled out |
| RootChem.GetElectricConfig | chem.py:21-34 | KeyError for a missing symbol; the pieces of `split(' ')` and the valence-layer count (the sum of character 2 over the largest shell) |
| RootChem.ConfigReadersAgree | chem.py:21-34 | the oldest reader and the `src/chem/chem.py` one agree on the pieces, the valence count and every error |
| RootChem.FirstChars | chem.py:47 | the layer keys are the first characters; an empty orbital is IndexError |
| RootChem.MaxChar | chem.py:49-50 | the largest character present |
| RootChem.DescCharsMembers | chem.py:47-50 | the sorted layers are exactly the distinct first characters |
| RootChem.DescCharsSorted | chem.py:49-50 | and they are strictly descending |
| RootChem.LayerTotal | chem.py:53 | a layer's total exists exactly when every orbital of that layer has a count digit, and is non-negative |
| RootChem.ElectronLayers | chem.py:52-54 | one non-negative total per layer, in layer order |
| RootChem.CheckValency | chem.py:37-80 | the method computes `CheckValencySpec`: per-layer totals, False when they are fewer than `-acc`, the removing scan for negative `acc`, the adding rounds otherwise |
| RootChem.NegativeScan | chem.py:60-69 | the loop computes `NegativeVerdict`: at the first layer above `-acc`, stable when it reaches 8 or is the last layer with 2; no such layer gives False |
| RootChem.PositiveRounds | chem.py:71-80 | the loop computes `PositiveScan`, which reads `x` unbound (UnboundLocalError) when an overflowing layer does not make exactly 8 |
| RootChem.NegativeScanDecides | chem.py:56-65 | once the total-electron test passes with negative `acc`, the scan always reaches a deciding layer, so line 69 is never reached |
| RootChem.DrainedScanFails | chem.py:61-69 | when the layers hold exactly `-acc` electrons no layer is above the running `acc` |
| RootChem.PositiveScanNeverCompletes | chem.py:71-80 | with two or more layers, the adding rounds never end with False: the layer list grows until the capacity index goes out of range |
| RootChem.ZeroFrontScan | chem.py:71-80 | once the first layer is empty, the rounds end with False exactly when `acc` fits every capacity they reach |
| RootChem.OneLayerScan | chem.py:71-80 | a single layer `e` ends the rounds with False exactly when `e + acc <= 2` and `acc - e <= 2` |
| RootChem.HydrogenScan | chem.py:71-80 | hydrogen, `1s1` with one hydrogen, ends the rounds with False |
| RootChem.ValidateValencyBracket | chem.py:83-92 | a missing symbol is KeyError; with no hydrogens and no charge, valid exactly when the valence count is 8 or the symbol is "He"; otherwise `check_valency` |
| LegacyManager.FillNone | src/validator/parser_manager.py:7-16 | arguments padded with None to the arity, extras dropped |
| LegacyManager.FillNoneIdempotent | src/validator/parser_manager.py:13-15 | padding twice equals padding once, and a full argument list is unchanged |
| LegacyManager.RingStep | src/validator/parser_manager.py:141-150 | an open number closes and moves to the end of the closed list; a closed one raises "Ring number already closed"; a new one opens |
| LegacyManager.RingStepValid | src/validator/parser_manager.py:141-150 | the open and closed lists stay disjoint and duplicate-free, earlier closes are kept, and the number is open exactly when it was new |
| LegacyManager.RingLifecycle | src/validator/parser_manager.py:141-152 | the first use opens, the second closes, the third raises |
| LegacyManager.LegacyInt | src/validator/parser_manager.py:155-163 | a missing digit is a TypeError in `join`; otherwise the concatenated digits' value |
| LegacyManager.RingValue | src/validator/parser_manager.py:136-139 | `%` reads both digits, anything else is `int` of the token |
| LegacyManager.RingValueAcceptsZero | src/validator/parser_manager.py:136-139 | the older manager accepts ring number 0, which the current one rejects |
| LegacyManager.LegacyParserManager.constructor | src/validator/parser_manager.py:42-44 | all three lists empty |
| LegacyManager.LegacyParserManager.Reset | src/validator/parser_manager.py:46-51 | empties the ring lists and leaves the chain alone |
| LegacyManager.LegacyParserManager.RingNumber | src/validator/parser_manager.py:125-152 | reads the number, then applies `RingStep`; a failure leaves both lists unchanged |
| LegacyManager.Chain | src/validator/parser_manager.py:53-70 | with no bond: the atom, else the ring number, else the dot proxy; `:` before an upper-case atom raises NameError (the message names an undefined variable); otherwise `[atom, electrons of bond]` |
| LegacyManager.AromaticBondFails | src/validator/parser_manager.py:65-70 | an aromatic bond never passes: before an upper-case atom it raises, and `:` is not in the bond table |
| LegacyManager.Listify | src/validator/parser_manager.py:83-100 | the base itself for no tail, `[base] + tail` for a list, `[base, tail]` otherwise |
| LegacyManager.ListifyVersions | src/validator/parser_manager.py:95 | the two managers differ only for a missing tail, where the current one wraps the base in a list |
| LegacyManager.Atom | src/validator/parser_manager.py:103-122 | non-strings, single characters and organic symbols pass; other two-letter symbols split into two organic letters or raise NameError; other lengths raise ValueError in the unpacking |
| LegacyManager.NoOrganicA | chem.py:4-5 | no organic symbol ends in `a` |
| LegacyManager.AtomExamples | src/validator/parser_manager.py:112-122 | "cc" splits, "Cl" and "C" pass, "Na" raises |
| LegacyManager.HCount | src/validator/parser_manager.py:165-174 | 1 for a missing or empty digit, `int` of it otherwise |
| LegacyManager.HCountVersions | src/validator/parser_manager.py:174 | the two managers accept the same digits and agree on them |
| LegacyManager.Charge | src/validator/parser_manager.py:176-198 | no mismatch check: `+-` gives -2, `++` 2, `-n` gives -n, a lone sign ±1 |
| LegacyManager.ChargeVersions | src/validator/parser_manager.py:186-198 | agrees with the current manager wherever that succeeds, and gives ±2 where it raises "Charge mismatch" |
| LegacyManager.Chiral | src/validator/parser_manager.py:200-211 | "counterclockwise" exactly when a second symbol is present |
| LegacyManager.ChiralVersions | src/validator/parser_manager.py:211 | on `@` and `@@` both managers agree |
| LegacyManager.FifteenExamples | src/validator/parser_manager.py:214-234 | "1" gives 1, "12" gives 12, "17" raises "Cannot exceed 15" |
| LegacyGrammar.ChainsRule | src/validator/yacc.py:75-83 | a lone chain unchanged, `[first] + rest` for a list, `[first, rest]` otherwise |
| LegacyGrammar.ChainsIsListify | src/validator/yacc.py:75-83 | the rule is `listify`, except that a following chain that reduced to None is kept |
| LegacyGrammar.ChainRule | src/validator/yacc.py:103-113 | a one-symbol production passes its value; `:` before an upper-case atom raises; `bond rnum` has no `atom` (AttributeError); otherwise `[atom, electrons of bond]` |
| LegacyGrammar.ChainRuleIsManagerChain | src/validator/yacc.py:103-113 | the rule and the manager's `chain` agree on `bond atom`, except that the manager's message raises NameError |
| LegacyGrammar.ChainBondFailures | src/validator/yacc.py:103-113 | no bond before a ring number and no aromatic bond passes |
| LegacyGrammar.OptionalInt | src/validator/yacc.py:96 | None or an integer is handed on |
| LegacyGrammar.InternalBracketRule | src/validator/yacc.py:89-99 | grammar-only mode gives None; otherwise a non-string symbol, a failing valence check and a passing one are told apart as in `BracketOutcome` |
| LegacyGrammar.BracketOutcomeIsNone | src/validator/yacc.py:96-99 | a bracket rule that passes reduces to None |
| LegacyGrammar.ExcessChargeRejected | src/validator/yacc.py:96-99 | every bracket atom whose charge exceeds its hydrogen count is rejected, whatever the element |

## Left out

- The SLY lexer and parser classes, and the grammar decorators of all three grammar files, are not modelled: they are a foreign library's LALR machinery. Each rule's value logic that calls into modelled code is modelled (`LegacyGrammar`, `Combinations.GetAttributes`). The current grammar also calls manager methods (`line`, `chain_branch`, `bracket_atom`) that do not exist.
- `validate_smiles` / `validateSMILES` are left out. They are thin wrappers around the parser.
- Reading the periodic-table JSON files and building module-level singletons (`chemistry`, `chem`, `parser_manager`) is file I/O. The table is a parameter instead.
- The source's regular expressions are written out as character scans: the noble-gas core pattern, the orbital pattern and `re.escape`. The model covers ASCII only. `re.escape` is modelled on the characters it escapes in the symbols used.
- PyStr.PyInt: reads only plain ASCII digit strings. Python's `int` also accepts a sign, surrounding blanks, underscores and other Unicode digits, which the grammar never produces.
- `Chemistry.validate_aromacity` reads a `mol_graph` that is never assigned, so the graph is a parameter of `Structure.ValidateAromacity`. The parser manager's `chem.mol_graph` is treated the same way.
- Graph edges carry no bond label, because `Graph.add_edge` takes two atoms. The manager still computes the label (`ChainBondLabel`, `RingBondLabel`).
- Manager.ParserManager.InnerBranch: a branch whose first element is truthy but not an atom (a ring number or a nested list) returns `NotModelled`. Such an element is not a graph vertex, and `inner_branch_content` is ignored.
- Manager.Charge: requires the first sign to be `+` or `-`, which the grammar guarantees.
- `__enter__` / `__exit__` of the current manager are left out: `__exit__` has the wrong signature for a context manager.
- `print` calls are dropped.
- The two loops of `BracketAtom.__post_init__` (`BracketAtoms.RemoveElectrons`, `BracketAtoms.FillExisting`) work on an immutable sequence. They collect the subshells they have passed instead of deleting or updating dictionary entries in place. Aliasing of the dictionary is therefore not modelled.
- The `ParserException` record of src/smiles_checker/exceptions.py is the `ParserException` error value; its `parameter` text is dropped. Messages of plain exceptions keep their interpolated text ("Invalid Bond " + bond, "Invalid Symbol " + symbol, the aromatic-bond message with the atom), with one exception: `LegacyGrammar.BracketOutcome` and `LegacyGrammar.InternalBracketRule` keep only the fixed text "Invalid valency in Bracket" of `internal_bracket` in src/validator/yacc.py:98-99, without the bracketed attribute list, and give "Invalid Symbol" when the symbol attribute is not a string.
- `solo_valency` of `atomic.py` is not stored: it is `BracketAtoms.ComputeValency(a, 0)`, and it is not part of equality.
- `layers` of `atomic.py` is `tuple(set)`. It is modelled in ascending order, the order CPython gives a set of small non-negative integers. Dictionary and set iteration elsewhere is modelled in insertion or sorted order, as the code depends on it.
- LegacyChem.PositiveOutcome: the overflow loops of `_handle_positive_acc` (src/chem/chem.py:185-222) return `NotModelled`. They use an undefined name `electon` and pass electron counts as list positions.
- The older manager's `internal_bracket` (src/validator/parser_manager.py:72-80) is not modelled. It reads undefined names and always raises NameError.
- The older manager's class-level lists, shared by every instance, are per-instance fields.
- The older manager's `chem` import is taken to be the root `chem.py` for `organic_atoms`, with the bond table of `Chem.number_of_electrons_per_bond` (src/chem/chem.py:235-250, the same as the current one). The module that `import chem` resolves to is not part of this model.
- LegacyGrammar.OptionalInt: a `hcount` or `charge` value that is neither None nor an integer returns `NotModelled`. The grammar only produces those two.
- The attribute lookup on a SLY production (`getattr(rules, name, None)`) is a map from attribute name to value.
- The positive branch of the root `chem.py` `check_valency` is modelled in full (`RootChem.PositiveScan`), including the unbound `x` it reads when an overflowing layer does not make exactly 8.
- Tests that contradict the code are not followed. Examples: the order of `listify`, `@@` for `chiral`, a symbol-only `atom`, and a three-argument `add_edge`.
