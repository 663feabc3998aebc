# pypsbuilder topology and scriptfile core in Dafny

pypsbuilder builds pseudosection phase diagrams by driving THERMOCALC. This
project models the discrete bookkeeping behind it and proves properties of that model.

- **Sections.** A section holds invariant points (a phase set with two phases of
  zero mode, the "out" pair) and univariant lines (a phase set, one out phase and the
  ids of the points they begin and end at, `0` for an open end), each in an
  id-keyed dictionary that keeps insertion order. The model covers:
  - the label of an entity;
  - the four lines that leave a point;
  - the test for whether a line passes through a point;
  - id lookup with polymorph-equivalent out sets;
  - the face grouping and depth-first cycle search that find closed areas.
- **Scriptfile editing.** THERMOCALC scriptfile blocks between `%{PSB…-BEGIN}` and
  `%{PSB…-END}` markers are rewritten in two forms:
  - the text form of the 3.5 interface;
  - the line form of the 3.4 interface and of `update_guesses`.
  
  The old block is returned, and the bulk lines are built.
- **Scriptfile and output parsing.**
  - The scripts dictionary, with its bulk and inexcess checks.
  - The variance read from THERMOCALC output.
  - The status summary of a log file.
- **Explorer helpers.**
  - The clipped grid neighbourhood and the solution counts.
  - The end points of a set of lines.
  - The data-source bitmask and the drawpd end labels.
  - The expression evaluator.
- **Project set-up.** The name sanitising and the set and system prompts of `tcprojinit`.
- **Builder GUI rules.**
  - The recent-project list and the guarded removal of a point.
  - The autoconnect offer and the end-point editor's choices.
  - The dogmin id, and the phase and out selection.
  - The legacy table-row builder.
- **Project file.** The row lookups and the assembly of a trimmed line.

Python behaviour is modelled explicitly where the code depends on it:

- dictionaries iterate in insertion order (`Registries.Registry`);
- `str.strip`, `split`, `splitlines` and `int()` (including `_` separators) follow
  Python 3;
- exceptions become `Err` values of `Wrappers.Result`, naming the Python exception
  (`KeyError`, `ValueError`, `IndexError`, `UnboundLocalError`, `TypeError`,
  `ScriptfileError`);
- a loop variable that outlives its loop (the `e` of `construct_areas`) is carried
  from face to face.

File reads and writes become a string (or a list of lines) in and out. Interactive
prompts become a list of answers.

## Model

| member | source | states |
|---|---|---|
| Topology.LabelWords | pypsbuilder/psclasses.py:758-761 | read back word by word, a label is the sorted phases minus excess, a lone `-`, then the sorted out phases |
| Topology.LabelInjective | pypsbuilder/psclasses.py:758-761 | two labels under one excess are equal only when their shown phases and their out sets are equal |
| Topology.SwitchTwice | pypsbuilder/psclasses.py:939-943 | swapping a polymorph in an out set twice gives the out set back |
| Topology.AllUnilinesAsWritten | pypsbuilder/psclasses.py:808-831 | the code as written: raises unless the point has exactly two out phases, and then yields four assemblages |
| Topology.AllUnilinesAsWrittenDegenerate | pypsbuilder/psclasses.py:814-826 | for the point {sill, ky, g, bi} with out {g, bi} the code as written yields an assemblage with no out phase |
| Topology.AllUnilines | pypsbuilder/psclasses.py:808-831 | the corrected rule raises exactly when the out set is not a pair, and otherwise yields four assemblages |
| Topology.AllUnilinesPlain | pypsbuilder/psclasses.py:827-831 | with no polymorph pair in the phases, a point with out {a, b} yields exactly (phases, {a}), (phases, {b}), (phases − {b}, {a}) and (phases − {a}, {b}), and the written and corrected rules agree |
| Topology.AllUnilinesContained | pypsbuilder/psclasses.py:818-831 | every line the corrected rule yields has one out phase and passes through the point it came from |
| Topology.ContainsInv | pypsbuilder/psclasses.py:863-890 | raises unless the point has two out phases; a direct match is accepted, and with no polymorph boundary the answer is exactly the direct match |
| Topology.ContainsInvPlain | pypsbuilder/psclasses.py:864-875 | with no polymorph pair, a line passes through a point iff: phases are equal and one point-out phase is not the line's out; or line phases = point phases − {b} and out {a}; or the same with a and b swapped |
| Topology.ContainsInvIffListed | pypsbuilder/psclasses.py:863-890 | with no polymorph pair, a one-out line passes through a point iff it is one of the point's four lines |
| Topology.AddInv | pypsbuilder/psclasses.py:925-927 | the point is stored under the key with its id set to the key; every other point and every line is unchanged |
| Topology.AddUni | pypsbuilder/psclasses.py:929-931 | the line is stored under the key with its id set to the key; every other line and every point is unchanged |
| Topology.GetIdInv | pypsbuilder/psclasses.py:933-952 | new iff no stored point has the same phases and an out pair equal up to a polymorph swap; a new id is one above every key (1 for none); otherwise the key of the first matching point in insertion order, with its stored out pair |
| Topology.GetIdUni | pypsbuilder/psclasses.py:954-971 | new iff no stored line has the same phases and an out equal up to poly − out; a new id is one above every key; otherwise the key of the first matching line in insertion order, with its stored out |
| Topology.GetIdInvStored | pypsbuilder/tests/test_pclasses.py:213-224 | among points with pairwise different assemblages, looking up a stored point answers its own key |
| Topology.GetIdUniStored | pypsbuilder/tests/test_pclasses.py:213-224 | among lines with pairwise different assemblages, looking up a stored line answers its own key |
| Topology.SameInvSymmetric | pypsbuilder/psclasses.py:939-950 | when a stored point matches a query, each out pair is among the pairs equivalent to the other, so the matching is symmetric |
| Topology.SameUniSymmetric | pypsbuilder/psclasses.py:958-969 | when a stored line matches a query, the query's out is among the outs equivalent to the stored line's |
| Topology.AddNewInv | pypsbuilder/psclasses.py:925-952 | storing a new point under the id the lookup offers keeps points distinct, and the lookup then finds it under that id |
| Topology.AddNewUni | pypsbuilder/psclasses.py:929-971 | storing a new line under the id the lookup offers keeps lines distinct, and the lookup then finds it under that id |
| Areas.Faces | pypsbuilder/psclasses.py:1075-1094 | a line index is listed under a face exactly when the face is one of that line's faces |
| Areas.FaceKeys | pypsbuilder/psclasses.py:1077-1094 | a phase set is among a line's face keys iff it is the line's phases, its phases minus out, or, for each polymorph pair among its phases, its phases minus the members of that pair it does not have out |
| Areas.AddToFaces | pypsbuilder/psclasses.py:1079-1094 | registering a line under face keys adds exactly those keys and lists the line under each, keeping every earlier listing |
| Areas.FaceRegistration | pypsbuilder/psclasses.py:1076-1094 | a line is registered in the face of its phases, in the face of its phases minus out, and in one face per polymorph pair among its phases, and in no other |
| Areas.AddLine | pypsbuilder/psclasses.py:1034-1053 | adding a line to a face graph keeps the coordinate ids already known; it raises `ValueError` (the max of an empty key list) exactly when an open end needs a fresh id and no id is known |
| Areas.SyntheticFresh | pypsbuilder/psclasses.py:1036-1043 | an open end gets a synthetic vertex id that no known vertex has |
| Areas.FaceGraph | pypsbuilder/psclasses.py:1033-1053 | the graph of a face's lines is well formed, and its only failure is the `ValueError` of an empty `max` |
| Areas.Search | pypsbuilder/psclasses.py:1020-1063 | the search path visits distinct vertices of the graph, and when no cycle is found it has visited every vertex |
| Areas.SearchFindsParallelPair | pypsbuilder/psclasses.py:1021-1031 | two lines joining the same two points form a cycle the search finds, with path [1, 2] |
| Areas.SearchFindsTriangle | pypsbuilder/psclasses.py:1021-1063 | a triangle of three lines is found as a cycle with path [1, 2, 3] |
| Areas.SearchChainOpen | pypsbuilder/psclasses.py:1021-1063 | a chain of two lines has no cycle, and the path lists its three points |
| Areas.FaceStep | pypsbuilder/psclasses.py:1096-1128 | a bounded area has the face's phases, distinct vertices and one edge per vertex; a bad topology is logged with the edge list of the found path, which has a gap (`None`) where two consecutive vertices share no line; `UnboundLocalError` only when `e` was never bound |
| Areas.CycleEdges | pypsbuilder/psclasses.py:1098-1103 | edge k of a cycle is the line indexed by vertex k and the next vertex round the cycle, or a gap when no line joins them |
| Areas.BoundedSides | pypsbuilder/psclasses.py:1098-1108 | every vertex of a bounded area has coordinates, and edge k is the line that joins vertex k to the next one round the cycle |
| Areas.NoLoopLooksUpAll | pypsbuilder/psclasses.py:1112-1120 | with no cycle and at least two vertices, the face raises `KeyError` exactly when some vertex has no coordinates |
| Areas.NoLoopOneVertex | pypsbuilder/psclasses.py:1112-1120 | with no cycle and at most one vertex, the face raises `UnboundLocalError` exactly when no earlier face bound `e` (the loop variable is stale otherwise), and is otherwise a face with no loop |
| Areas.ConstructAreas | pypsbuilder/psclasses.py:1064-1129 | with no lines or no points there are no areas and no log |
| Areas.FaceLoop | pypsbuilder/psclasses.py:1095-1129 | the raising form of the loop over faces never logs a bad topology |
| Areas.StrictIffNoLog | pypsbuilder/utils.py:196-210 | over the same faces, the raising loop succeeds iff the logging loop logs nothing, and then both give the same areas |
| Areas.StrictMatchesLogged | pypsbuilder/utils.py:204-210 | the older construct_areas succeeds iff the newer one logs no topology error, and then gives the same areas |
| Scriptfile.CutAt | pypsbuilder/tcapi.py:623-624 | a successful cut splits the text as before + BEGIN + inside + END + after, where BEGIN occurs nowhere else and END occurs in neither inside nor after; every failure is a `ValueError` |
| Scriptfile.ReadBlock | pypsbuilder/tcapi.py:623-625 | reading a block fails exactly when the markers do not split the text |
| Scriptfile.GlueReads | pypsbuilder/tcapi.py:623-627 | after a block is written, the text around it is unchanged and reading the block gives the written lines |
| Scriptfile.Returns | pypsbuilder/tcapi.py:661-668 | the result is the old calcs, the old guesses, both as a pair, or nothing, according to the two flags |
| Scriptfile.UpdateScriptfileAsWritten | pypsbuilder/tcapi.py:597-668 | the code as written: errors are a marker `ValueError` or the `IndexError` of a one-row bulk; the text is unchanged when nothing is written |
| Scriptfile.BulkOverwrittenAsWritten | pypsbuilder/tcapi.py:648-657 | given both a bulk and xsteps, the code as written leaves the bulk block holding the stored bulk's step lines (empty unless that bulk has three rows), while the corrected edit leaves the requested bulk's lines there |
| Scriptfile.BulkPartAsWritten | pypsbuilder/tcapi.py:635-657 | the bulk edit as written raises only a marker `ValueError` or the one-row-bulk `IndexError` |
| Scriptfile.BulkPart | pypsbuilder/tcapi.py:635-647 | the corrected bulk edit raises only a marker `ValueError` or the one-row-bulk `IndexError` |
| Scriptfile.UpdateScriptfile | pypsbuilder/tcapi.py:597-668 | the corrected edit raises only a marker `ValueError` or the one-row-bulk `IndexError`, and leaves the text unchanged when nothing is written |
| Scriptfile.UpdateReadsBack | pypsbuilder/tcapi.py:622-647 | on a file with the three blocks, each block reads back as the given lines when lines were given, or as its old lines otherwise |
| LineEdit.Replace | pypsbuilder/tcapi.py:1229-1237 | a replacement happens exactly when both markers are present |
| LineEdit.ReplaceReadsBack | pypsbuilder/tcapi.py:1229-1237 | when the first BEGIN comes before the first END, lines up to BEGIN and from END are kept, the given lines sit between them, and reading the block back gives those lines |
| LineEdit.ReplaceIdempotent | pypsbuilder/tcapi.py:1234-1237 | writing the same block twice gives the same lines as writing it once |
| LineEdit.StripTerminated | pypsbuilder/tcapi.py:1233-1236 | guesses with no surrounding white space come back unchanged after being newline-terminated and stripped |
| LineEdit.DogminLines | pypsbuilder/tcapi.py:1241-1246 | the dogmin block is one `dogmin` line, followed by the `which` and window lines when phases are given |
| LineEdit.SetbulkLines | pypsbuilder/tcapi.py:1253-1258 | a two-row bulk gives two `setbulk` lines and any other a single one; an empty bulk raises `IndexError` |
| LineEdit.UpdateScriptfile34 | pypsbuilder/tcapi.py:1196-1269 | raises only for an empty bulk; unchanged when nothing is written; returns the stripped old guesses, or `UnboundLocalError` when they were asked for without both markers |
| LineEdit.UpdateGuesses34 | pypsbuilder/tcapi.py:1234-1237 | new guesses are written only when both markers are present; the lines are unchanged otherwise |
| LineEdit.GuessesRoundTrip34 | pypsbuilder/tcapi.py:1229-1237 | asking for the old guesses after writing guesses returns the guesses written |
| LineEdit.UpdateGuesses | pypsbuilder/utils.py:349-363 | nothing is written exactly when the BEGIN marker or the END marker occurs in no line |
| LineEdit.UpdateGuessesAgrees | pypsbuilder/utils.py:353-363 | when markers occur only at line starts, `update_guesses` and the 3.4 guess edit give the same lines |
| LineEdit.UpdateGuessesShape | pypsbuilder/utils.py:353-363 | the output is the lines up to the first BEGIN line, each guess with a newline, then the lines from the first END line |
| Directives.CompactHas | pypsbuilder/tcapi.py:327 | a non-empty stripped line is kept iff some input line strips to it |
| Directives.StarPrefixStripped | pypsbuilder/tcapi.py:327-328 | the lines before `*` are non-empty and already stripped |
| Directives.BeforeStar | pypsbuilder/tcapi.py:328 | succeeds iff a line is `*`, and then returns the lines before the first `*`; otherwise `ValueError` |
| Directives.Parse | pypsbuilder/tcapi.py:339-341 | a line yields no directive exactly when it is blank before its first `%` |
| Directives.CheckTags | pypsbuilder/tcapi.py:330-335 | accepted iff all three marker pairs are present; otherwise the first missing pair's `ScriptfileError` message |
| Directives.ParseShape | pypsbuilder/tcapi.py:339-348 | a parsed directive has a non-empty keyword with no space or `%`, and a non-empty argument with no `%` |
| Directives.DictionaryByKey | pypsbuilder/tcapi.py:337-348 | a keyword is a key iff some line names it, and its value is the arguments of the lines since its last bare reset, in order |
| Directives.DictionaryOfOnly | pypsbuilder/tcapi.py:338-346 | a keyword named only in one stretch of lines, with no reset, maps to that stretch's arguments |
| Directives.ParseBulk | pypsbuilder/tcapi.py:364-373 | `ScriptfileError` when there is no bulk or it does not have 2 or 3 lines; otherwise the rows are split into words, the third truncated to the first's length |
| Directives.BulkRoundTrip | pypsbuilder/tcapi.py:636-647 | reading the bulk lines written into a scriptfile gives back the bulk that was written |
| Directives.ParseInexcess | pypsbuilder/tcapi.py:390-397 | any `setexcess` or a bare `inexcess` raises `ScriptfileError`; no keyword gives nothing; otherwise the first line's words minus `no` |
| Directives.InexcessRoundTrip | pypsbuilder/tcapi.py:393-395 | reading an `inexcess` line written for a set of phases gives that set back (`inexcess no` for none) |
| Directives.VarianceRoundTrip | pypsbuilder/tcapi.py:898-901 | the integer written between `(` and `?` is the one read back |
| Directives.VarianceOf | pypsbuilder/tcapi.py:900 | a line yields a variance only when it holds `(` and `?`; every failure is a `ValueError` |
| Directives.FirstVariance | pypsbuilder/tcapi.py:898-901 | nothing iff no line carries the variance phrase; otherwise the integer of the first line that does, or its `ValueError` |
| Directives.CalcVariance | pypsbuilder/tcapi.py:888-902 | the only error is the `ValueError` of the variance parse |
| Directives.ParseVariance | pypsbuilder/utils.py:366-370 | `UnboundLocalError` exactly for empty output; any other error is a `ValueError` |
| Directives.ParseVarianceAgrees | pypsbuilder/utils.py:366-370 | `parse_variance` agrees with `calc_variance` when a variance line exists, and otherwise parses the last line |
| Directives.LogStatus | pypsbuilder/utils.py:304-345 | `bombed` with variance -1 if any line has `BOMBED`; otherwise it raises iff the variance or some ` P(kbar)` block cannot be read; `ok` iff a block exists, `nir` otherwise; a variance other than -1 is the first one in the log |
| Directives.HeaderOnlyRaises | pypsbuilder/utils.py:316-320 | a log that is only a ` P(kbar)` header raises `IndexError` |
| Directives.ReadBlocks | pypsbuilder/utils.py:316-341 | reading the blocks succeeds iff every ` P(kbar)` block has the lines the parse indexes, and otherwise raises `IndexError` |
| Directives.LogVarianceAgrees | pypsbuilder/utils.py:312-315 | on ASCII output the log status reads the same variance as `calc_variance`, with -1 for none |
| Explorer.NeighsExactly | pypsbuilder/psexplorer.py:58-71 | a cell is a neighbour iff it is in bounds, is not the cell itself, and differs by at most 1 in each coordinate |
| Explorer.NeighsCount | pypsbuilder/psexplorer.py:58-71 | the neighbour count is the product of the row and column offset counts, minus one |
| Explorer.NeighsInteriorEdgeCorner | pypsbuilder/psexplorer.py:58-71 | on a grid of at least 3×3: 8 neighbours inside, 5 on an edge, 3 at a corner |
| Explorer.GridCounts | pypsbuilder/psexplorer.py:51-56 | ok, failed and unsolved add up to the grid size |
| Explorer.GridCountsNone | pypsbuilder/psexplorer.py:51-56 | the unsolved count is the number of cells with status neither 1 nor 0 |
| Explorer.InvsFromEdges | pypsbuilder/psexplorer.py:160-161 | `KeyError` exactly when some edge is not a line; never contains 0 |
| Explorer.InvsFromEdgesExactly | pypsbuilder/psexplorer.py:160-161 | a point is in the result iff it is non-zero and begins or ends one of the given lines |
| Explorer.DropGroupsSuffix | pypsbuilder/psexplorer.py:328 | removing the `(…)` groups from `phase(comp)` leaves `phase` |
| Explorer.CollectData | pypsbuilder/psexplorer.py:325-341 | empty unless the stripped phase is in the key; otherwise it holds as many points as the selected sources hold, and points stay paired with data |
| Explorer.CollectDataByBits | pypsbuilder/psexplorer.py:329-340 | collecting with a mask equals collecting with bit 0, bit 1 and bit 2 alone, in that order |
| Explorer.EndLabel | pypsbuilder/psexplorer.py:822-829 | an end label is never empty |
| Explorer.EndLabelReads | pypsbuilder/psexplorer.py:825-829 | a connected end's label is `i` followed by the point id, which `int` reads back |
| Explorer.EndLabelInjective | pypsbuilder/psexplorer.py:822-829 | different ids at the same end get different labels |
| Explorer.EndLabelHead | pypsbuilder/psexplorer.py:822-829 | a label starts with `i` iff the end is connected |
| Explorer.EvalAsWritten | pypsbuilder/psexplorer.py:937-952 | the evaluator as written: a unary operator raises `KeyError` (no entry in the operator table), any other node type raises `TypeError` |
| Explorer.UnaryMinusRaises | pypsbuilder/psexplorer.py:945-951 | the evaluator as written raises `KeyError` on `-1.0` |
| Explorer.Eval | pypsbuilder/psexplorer.py:937-952 | errors are only `KeyError` (unknown name or operator) or `TypeError` (unsupported node) |
| Explorer.EvalSupported | pypsbuilder/psexplorer.py:937-952 | evaluation succeeds iff every name is known and every operator is one of the table's or unary ±, and its value is the reference reading of the tree |
| Explorer.EvalAgreesWithoutUnary | pypsbuilder/psexplorer.py:937-952 | on expressions without unary operators the corrected and written evaluators agree |
| Explorer.EvalNegates | pypsbuilder/psexplorer.py:945-946 | `-e` evaluates iff `e` does, to the negated value |
| Numerals.PyInt | pypsbuilder/tcinit.py:81 | `int()` succeeds iff the stripped, unsigned text is digit groups joined by single `_`; every failure is a `ValueError` |
| Numerals.SeparatorDropped | pypsbuilder/tcinit.py:81 | `int("1_0")` is 10 |
| Numerals.DoubleSeparatorRaises | pypsbuilder/tcinit.py:81 | `int("1__0")` raises |
| Numerals.EdgeSeparatorRaises | pypsbuilder/tcinit.py:81 | `int("_1")` and `int("1_")` raise |
| Numerals.IntToStringRoundTrip | pypsbuilder/tcapi.py:900 | `int()` reads back every integer that `str` formats |
| Numerals.IntToStringInjective | pypsbuilder/psexplorer.py:825-829 | different integers are formatted differently |
| ProjectInit.CleanName | pypsbuilder/tcinit.py:56-63 | the name holds only `_`, ASCII letters and digits |
| ProjectInit.CleanNameOfSpaced | pypsbuilder/tcinit.py:59-63 | a non-empty answer of allowed characters and spaces becomes the answer with each space turned into `_` |
| ProjectInit.CleanNameIdempotent | pypsbuilder/tcinit.py:56-63 | cleaning a non-empty cleaned name changes nothing |
| ProjectInit.CleanNameOfAllowed | pypsbuilder/tcinit.py:63 | a non-empty name of allowed characters is kept as it is |
| ProjectInit.CleanNameEmpty | pypsbuilder/tcinit.py:56-57 | an empty answer becomes `project` |
| ProjectInit.NameProblem | pypsbuilder/tcinit.py:64-69 | a name is accepted iff its length is 1 to 8 |
| ProjectInit.AskName | pypsbuilder/tcinit.py:54-69 | the first accepted answer is taken, with the number of answers read; nothing when no answer is accepted |
| ProjectInit.FirstNameTaken | pypsbuilder/tcinit.py:54-69 | an accepted first answer is taken after one prompt |
| ProjectInit.AskChoice | pypsbuilder/tcinit.py:73-84 | the first answer that reads as a number from 1 to the count is taken; earlier answers are all rejected |
| ProjectInit.ChoiceOfNumeral | pypsbuilder/tcinit.py:77-82 | a formatted integer is accepted iff it lies from 1 to the count, and is then that choice |
| ProjectInit.EmptyAnswerIsFirst | pypsbuilder/tcinit.py:79-80 | an empty answer chooses 1 |
| ProjectInit.FirstAnswerTaken | pypsbuilder/tcinit.py:78-82 | an empty first answer chooses 1 after one prompt |
| ProjectInit.PickSystem | pypsbuilder/tcinit.py:87-126 | the system is one of the set's systems; the metabasite set needs no prompt |
| ProjectInit.PickSystemReads | pypsbuilder/tcinit.py:111-125 | the chosen number picks that entry of the set's system list |
| ProjectInit.PickSet | pypsbuilder/tcinit.py:71-126 | the project keeps its name, and its dataset and system fit the chosen set |
| ProjectInit.PickSetReads | pypsbuilder/tcinit.py:71-126 | the set chosen by number and the system chosen after it make up the project |
| ProjectInit.Setup | pypsbuilder/tcinit.py:52-126 | the name has 1 to 8 allowed characters, the dataset is the chosen set's dataset, and the system belongs to the set |
| ProjectInit.SetupReads | pypsbuilder/tcinit.py:52-85 | the set prompt reads the answers left after the name prompt |
| ProjectInit.SetupDefaults | pypsbuilder/tcinit.py:52-103 | three empty answers give `project`, metapelite, dataset `62`, system `mp50MnNCKFMASHTO` |
| Builders.RecentUpdate | pypsbuilder/psbuilders.py:505-509 | the list is non-empty, at most 15 long, headed by the project, and holds nothing new but the project |
| Builders.RecentUpdateReference | pypsbuilder/psbuilders.py:505-509 | on a duplicate-free list the update is: the project, then the list without it, cut to 15 |
| Builders.RecentUpdateDistinct | pypsbuilder/psbuilders.py:1527-1531 | a duplicate-free list stays duplicate-free |
| Builders.RecentIdempotent | pypsbuilder/psbuilders.py:505-509 | updating twice with one project is updating once |
| Builders.RecentKeepsAll | pypsbuilder/psbuilders.py:505-509 | below the cap nothing is lost: the result holds exactly the project and the old entries |
| Builders.RemoveInv | pypsbuilder/psbuilders.py:881-911 | refused iff a user-defined line begins or ends at the point; declined when not confirmed; on removal the point is gone |
| Builders.RemoveInvDetaches | pypsbuilder/psbuilders.py:898-906 | after a removal no line refers to the point, no line is deleted, lines not at the point and other points are unchanged |
| Builders.Detach | pypsbuilder/psbuilders.py:899-905 | a detached line keeps its phases, out and kind, no longer refers to the point, and is unchanged when it did not |
| Builders.DetachAll | pypsbuilder/psbuilders.py:898-905 | every line is detached from the point, in the same order, and none is added or dropped |
| Builders.AutoconnectOffered | pypsbuilder/psbuilders.py:831-836 | autoconnect is offered only for a line with an open end |
| Builders.AutoconnectOfferedIff | pypsbuilder/psbuilders.py:831-836 | offered iff the line has an open end, every point has two out phases, and exactly two points lie on the line |
| Builders.CandidateKeysErr | pypsbuilder/psbuilders.py:833 | collecting the candidates raises iff some stored point does not have two out phases |
| Builders.CandidateKeysCount | pypsbuilder/psbuilders.py:833-834 | the candidate list has one entry per point the line passes through |
| Builders.CandidateKeys | pypsbuilder/psbuilders.py:833 | raises iff some point does not have two out phases; otherwise lists, without repeats, exactly the points the line passes through |
| Builders.UniConnect | pypsbuilder/psbuilders.py:839-842 | the line begins at the first candidate and ends at the second; nothing else changes |
| Builders.AutoconnectEnds | pypsbuilder/psbuilders.py:839-841 | after autoconnect the line begins and ends at two different stored points, each on the line |
| Builders.DogminId | pypsbuilder/psbuilders.py:1778-1782 | the new dogmin id is positive, unused, and 1 when there are none |
| Builders.DogminIdIsNext | pypsbuilder/psbuilders.py:1778-1782 | the new dogmin id is one above the largest key |
| Builders.EditorChoices | pypsbuilder/psbuilders.py:3107-3124 | for a calculated line the choices start with 0 |
| Builders.EditorChoicesExactly | pypsbuilder/psbuilders.py:3115-3124 | 0 is offered iff the line is not user-defined, and a point is offered iff it is not the other end and lies on the line |
| Builders.Checked | pypsbuilder/psbuilders.py:658-662 | the selection is exactly the names of the checked rows |
| Builders.PhasesOut | pypsbuilder/psbuilders.py:657-668 | the phases are the checked phases together with the excess, and the out set is the checked out phases |
| Legacy.GetId | pypsbuilder/psbuilder.py:1513-1533 | new iff there is no assemblage or no row has its phases and out, and then one above the largest row id; otherwise the first matching row's id |
| Legacy.GetIdUni | pypsbuilder/psbuilder.py:1513-1522 | a new line id exceeds every row id |
| Legacy.GetIdInv | pypsbuilder/psbuilder.py:1524-1533 | a new point id exceeds the id of every row after the placeholder row |
| Legacy.GetIdStored | pypsbuilder/psbuilder.py:1516-1520 | among rows with distinct assemblages, looking up a row's assemblage answers its id |
| Legacy.GetIdNew | pypsbuilder/psbuilder.py:1515-1522 | a new id collides with no row, and is 1 for an empty table |
| Legacy.SetEnd | pypsbuilder/psbuilder.py:1810-1820 | an edit is rejected iff the new value is non-zero and equals the other end; otherwise it sets only the edited end |
| Legacy.SetEndProper | pypsbuilder/psbuilder.py:1810-1820 | an accepted edit never puts both ends of a line on one point |
| Legacy.AddUserUni | pypsbuilder/psbuilder.py:1218-1269 | refused for too few points exactly when at most one point offers the line; an added line has distinct ends; a new line is appended, and a known line has its listed row rewritten |
| Legacy.UserCandidates | pypsbuilder/psbuilder.py:1225-1229 | a point is offered iff its row holds the line's phases and out phases |
| Legacy.RewriteListed | pypsbuilder/psbuilder.py:1244-1248 | exactly one row, the one with the id, is rewritten as a user-defined line with the chosen ends |
| Legacy.ListedId | pypsbuilder/psbuilder.py:1239-1248 | a line the lookup finds is listed under the id it answers |
| Legacy.UniLookup | pypsbuilder/psbuilder.py:1753 | every line id maps to a row holding that id, and only line ids are keys |
| Legacy.InvLookup | pypsbuilder/psbuilder.py:1686 | every key maps to a row after the placeholder holding that id |
| Legacy.InvLookupRows | pypsbuilder/psbuilder.py:1686 | with distinct ids each row after the placeholder is found at its own index |
| Legacy.UniLookupRows | pypsbuilder/psbuilder.py:1753 | with distinct ids each line row is found at its own index |
| Legacy.RowsDeletable | pypsbuilder/psbuilder.py:1153-1156 | a point row is deletable iff no user-defined line row begins or ends at it |
| Legacy.RemoveInvRow | pypsbuilder/psbuilder.py:1150-1172 | refused iff a user-defined row is at the point; declined when not confirmed; a removal drops one point row and rebuilds the lookup |
| Legacy.RemoveInvRowDetaches | pypsbuilder/psbuilder.py:1164-1170 | after a removal no line row refers to the point, rows not at it are unchanged, and every other point row is kept |
| ProjectFile.LineLookup | pypsbuilder/utils.py:29-32 | every key is a line id and maps to a row holding that id |
| ProjectFile.LineLookupRow | pypsbuilder/utils.py:29-32 | with distinct ids each line row is found at its own index |
| ProjectFile.EndPoint | pypsbuilder/utils.py:102-111 | an open end adds nothing; a connected end adds the point's first coordinate, or raises `KeyError` for an unknown point |
| ProjectFile.TrimmedComputed | pypsbuilder/utils.py:100-120 | a calculated line is its begin point (if connected), the inclusive slice from begix to endix, then its end point (if connected) |
| ProjectFile.TrimmedManualOpen | pypsbuilder/utils.py:115-117 | a user-defined line with both ends open is its raw coordinates |
| ProjectFile.TrimmedManualConnected | pypsbuilder/utils.py:115-120 | a user-defined line with a connected end is only its end points |

## Left out

- Floating point:
  - coordinates and calculated values are a type parameter or `real`;
  - the `{:g}` formatting of the 3.4 x-values and of the dogmin window is taken as pre-formatted strings;
  - `float()` conversions are not modelled.
- Explorer.Eval: the numpy `divide` and `power` functions are parameters, so division by zero and overflow follow whatever numpy does. `add`, `subtract` and `multiply` are real arithmetic.
- ProjectInit.CleanName: characters of 128 and above are dropped, in place of NFKD normalisation followed by an ASCII encode. It agrees with the source on ASCII input but not on accented letters, which NFKD would reduce to their base letter.
- Areas.ConstructAreas:
  - When a face has no cycle, the permutation search for a chain that crosses the diagram range is modelled only up to the coordinate lookups of its first permutation (`KeyError`, and an unbound or stale `e`).
  - The range test and the `tedges`/`tphases` results it produces are not modelled.
  - Vertices are point ids, not coordinates.
- Areas.Search: that a found cycle is a real cycle of the graph is shown on concrete graphs only (SearchFindsParallelPair, SearchFindsTriangle, SearchChainOpen), not proved for every graph.
- ProjectFile.TrimmedComputed: `begix` and `endix` are taken as stored. The shapely projection in `trim_uni` that computes them is not part of this model.
- Directives.LogStatus:
  - The reading of each ` P(kbar)` block is modelled as the lines it indexes being present (`BlockReadable`).
  - The `float()` conversions, the token counts within those lines and a `KeyError` from `data[phase]` are not modelled.
  - The returned points, results and output are not modelled.
- Numerals.PyInt: only ASCII digits are digits. Python's `int()` also accepts other Unicode decimal digits.
- The other checks of `TC35API.__init__` are not modelled: `axfile` and its file, `diagramPT` floats, `omit`, the dataset and version probes, and the used-bulk parse of the output. They read files or floats.
- `tcprojinit`:
  - The project-directory prompt reads the file system and is not modelled.
  - The prompts repeat forever on bad input; the model reads a finite list of answers and returns nothing when they run out.
  - The prefs and scriptfile templates written at the end are not modelled.
- `format_label` (pypsbuilder/psbuilder.py:1394-1397) is the same expression as `PseudoBase.label` and is modelled by Topology.Label.
- The legacy recent list (pypsbuilder/psbuilder.py:791-795) is the same code as Builders.RecentUpdate.
- The legacy `ComboDelegate.createEditor` filter (pypsbuilder/psbuilder.py:1788-1805) is not modelled.
- `trim_uni` calls after an end changes, and the plotting and status messages of the GUI handlers, are not modelled.
- Running THERMOCALC and drawpd (`runtc`, `rundr`, `runprog`), file, pickle and gzip I/O, the Qt GUI, matplotlib, networkx, shapely, and numpy/scipy gridding and interpolation are not modelled.

## Findings

| source | as written | input that shows it | evidently intended | confidence | as-written member | corrected member |
|---|---|---|---|---|---|---|
| pypsbuilder/psclasses.py:814-826 | the polymorph branch is taken whenever a polymorph pair lies among the phases and differs from the out pair, even when it shares no phase with the out pair | point {sill, ky, g, bi} with out {g, bi}: yields (phases, {}) and lines with two out phases | take the polymorph branch only on a polymorphic boundary (pair among the phases, not the out pair, sharing a phase with it), as `contains_inv` does at line 879 | not executed | Topology.AllUnilinesAsWritten, Topology.AllUnilinesAsWrittenDegenerate | Topology.AllUnilines, Topology.AllUnilinesPlain, Topology.AllUnilinesContained |
| pypsbuilder/tcapi.py:648-657 | when `xsteps` is given the bulk block is rewritten from the stored `self.bulk`, after and over the block just written from the requested `bulk` | `update_scriptfile(bulk=[r0, r1, r2], xsteps=20)` with a stored bulk of two rows: the block ends up empty | the block holds the requested bulk, its third line suffixed with `xsteps` | not executed | Scriptfile.UpdateScriptfileAsWritten, Scriptfile.BulkPartAsWritten, Scriptfile.BulkOverwrittenAsWritten | Scriptfile.UpdateScriptfile, Scriptfile.BulkPart, Scriptfile.UpdateReadsBack |
| pypsbuilder/psexplorer.py:945-951 | a unary operator node is dispatched to `ops`, which has no entry for unary operators | `eval_expr("-1", {})` raises `KeyError` | unary minus and plus evaluate to the negated or unchanged operand | not executed | Explorer.EvalAsWritten, Explorer.UnaryMinusRaises | Explorer.Eval, Explorer.EvalSupported, Explorer.EvalNegates |
