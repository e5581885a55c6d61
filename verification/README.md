# refu: verified models of the compiler and its argument library

refu is a compiler written in C.  This project models the parts of it that keep linked state
consistent over whole runs, together with two algorithms of its bundled argument library, and
proves what they are for.  `dafny verify dfyconfig.toml` checks everything.

| files | what is modelled |
|---|---|
| `Permute.dfy`, `GetoptSpec.dfy`, `GetoptSpelling.dfy`, `Getopt.dfy` | the in-place rotation of two argument blocks by cycle leaders, the option reader that drives it, and command lines as they are written |
| `TrexSyntax.dfy`, `TrexSemantics.dfy`, `TrexLayout.dfy`, `TrexSpelling.dfy`, `TrexCompile.dfy`, `TrexAnswers.dfy`, `TrexLaws.dfy`, `TrexMatch.dfy` | the T-Rex regular expressions: the parser that fills an index-linked node array, the matcher that runs over it, and where its answers are the language of the pattern |
| `Scope.dfy`, `ScopePaths.dfy` | symbol tables in the two passes of the analyzer, one linking them, the other jumping to stored ones, and what that means along a path of nodes |
| `DepGraph.dfy`, `Modules.dfy`, `Lookup.dfy` | module dependencies by a three-colour search, and the recursive symbol lookup whose termination rests on it |
| `RirCode.dfy`, `RirLowering.dfy`, `RirConvert.dfy` | lowering of integer expressions and assignments to RIR, and the conversion of a boolean to a string, which splits the control flow |
| `TypeSpec.dfy`, `TypeWalk.dfy`, `TypeUsers.dfy`, `TypeCreation.dfy` | the lock-step walk of a type description and an n-ary type, its users, and the creation of types from descriptions |
| `MatchSpec.dfy`, `Match.dfy`, `MatchGaps.dfy` | coverage of match expressions |
| `Info.dfy`, `Lines.dfy`, `TypeSet.dfy` | message snapshots and rollback, the line index of a source, the ordered array of a type set |
| `Wrappers.dfy`, `TypeOps.dfy`, `Arith.dfy` | options, type operators, facts about products and remainders |

Code that changes state step by step is a class or a method here, with loops where the C code has
loops; each method is proved against a specification on values, and the laws are lemmas about that
specification.

Where the code does not do what its documentation or a reader would expect, the model follows the
code and the difference is stated as a lemma:

- An exact long option name is ambiguous when two longer names stand before it in the table
  (`ExactCanLose`, with the exact condition in `ExactWinsIff`).
- The matcher never takes a decision back.  Of alternatives the first that spans anything is taken
  (`FirstAlternative`), so `(a|ab)c` rejects "abc" (`AlternativeKept`); a repetition ends at the first place
  where what follows begins (`RepetitionThen`), so `a*ab` rejects "aaab" (`RunTooShort`).  Exactly the
  language is accepted where the text allows one way at every choice (`SureExact`, `EndingExact`).
- Elements such as `.` take the terminator of the text for a character, so `.*` rejects the empty text
  (`DotStarRejectsEmpty`, with the exact condition in `ListReaches`), as does `.|$` (`TerminatorTaken`).
- `\b` compares a character inside the text with the next one, not with the one before (`BoundaryInside`,
  `BoundaryOff`).
- The class parser checks a range by comparing the index of the node of its low end, not its
  character, with the high end.  So `ListFits`, which says when a pattern's ranges are allowed, depends
  on the place of a set in the pattern, and a range may run backwards (`RangesDependOnPlace`).
- A negative number, whether computed or copied from a signed variable, arrives in a wider variable
  as a positive one, because widening is by zeros (`NegativeWidened`, `NegativeCopied`).  The value of a
  variable is here that of its type, two's complement for the signed ones; `ExactIff` says when the bits
  of the exact value are stored, `ArrivesIff` when the variable then holds the exact value.
- The walk of a type along a description ignores which operators the type has and operands beyond
  those of the description (`CompletesIff`, `LayoutNotCompared`), although `include/ast/type.h` says
  that false is returned for a different layout; so `type_equals_ast_node` finds a sum equal to the
  description of a product (`EqualityIsTooWide`, with the exact condition in `TypeEqualsAstNode`).
- That test is also how a module's existing types are found, so a description can be given another
  type: one operator over identifiers gets the first type of the module that covers its own
  (`SimpleCreated`), a nested description its own type exactly when no search on the way meets another
  type that passes (`CreatedIff`), and even an empty module can go wrong (`FreshModuleDisturbed`).
- A leaf without a name goes by the name of the leaf before it (`UnnamedTakesName`).
- The index that the RIR computes for a member is that of a leaf.  It is the position of the operand that
  holds the leaf exactly when all operands before are leaves and the leaf is the first of its operand; and
  that operand has the type given by type checking exactly when it is a leaf itself
  (`IndexIsOperandIff`; `NestedIndexIsOff` and `NestedIndexIsRight` for a product that is not flat).
- A match case that names a declared type is refused although it covers values, because names are looked
  through in the type matched but not in the pattern (`NamedPatternRefused`); and `_`, which
  `docs/reference.rst:450` calls any value, matches no product or function (`WildcardMissesProducts`).
  The patterns that match exactly what they cover are those without names and `_`, unless a pattern covers
  no value of any sum-free type (`AgreesIff`).
- A match with cases on a type without sums is always refused, since all its parts, being none, count as
  matched from the start (`SumFreeCase`, `TypecheckSumFree`).
- A match case that repeats an earlier one is accepted while other parts are left
  (`RepeatedCaseIsUseful`).  A sum behind a name counts as matched once one of its operands is, so that all
  parts can be matched while a value is uncovered (`NamedSumGap`).  There is no such gap, for any list of
  patterns, exactly when each type inside an operand is, up to names, all that some operand has inside
  (`NoGapIff`); for this it is not needed that every operand has one type inside (`PinnedByOthers`).
- The ordered array of a type set has operands before the types they belong to, in whatever order the set is
  visited, exactly when operands are nested one level deep (`OperandsFirstIff`); a chain of three types
  visited from the outside in breaks it (`ChainBreaks`).

## Model

| member | source | states |
|---|---|---|
| Permute.GcdIsGreatest | lib/argtable/argtable3.c:389-405 | the result of the Euclidean loop divides both block lengths and no common divisor is larger |
| Permute.ComputeGcd | lib/argtable/argtable3.c:392-405 | the loop computes the greatest common divisor of the functional definition, for all inputs with a positive second argument |
| Permute.CyclesCover | lib/argtable/argtable3.c:423-441 | for any two non-empty blocks, the gcd(n1,n2) cycles of length (n1+n2)/gcd(n1,n2) cover every position exactly once, and a step of the walk goes to the next rank of the same cycle |
| Permute.PermuteArgs | lib/argtable/argtable3.c:407-442 | in place, the second block comes to stand before the first, each in its own order, and nothing else of the array moves |
| GetoptSpec.ExactWinsIff | lib/argtable/argtable3.c:469-497 | an exact long option name is found if and only if at most one abbreviation match stands before it |
| GetoptSpec.AbbreviationOnlyIfUnique | lib/argtable/argtable3.c:469-497 | without an exact name, the search finds the abbreviated option when there is one, none when there is none, and is ambiguous when there are several |
| GetoptSpec.AbbreviationIs | lib/argtable/argtable3.c:473-481 | a key abbreviates exactly the names that go on behind it; a single letter does not where it may be a short option |
| GetoptSpec.ExactCanLose | lib/argtable/argtable3.c:469-497 | two longer names listed first make an exact name ambiguous |
| GetoptSpec.ReadOptionLocal | lib/argtable/argtable3.c:678-755 | what an option reads depends only on the arguments from its own on, so that moving earlier ones is harmless |
| GetoptSpec.StablePartition | lib/argtable/argtable3.c:567-755 | the parse gives each argument one role, and options with the arguments they take, and operands, keep their order |
| GetoptSpelling.RoundTrip | lib/argtable/argtable3.c:567-755 | what is written is read: for any list of clusters, values attached or apart, optional values left out, long options by name or abbreviation with their values, `-W`, operands and errors (unknown letter, unknown or ambiguous name, missing or unwanted argument), the parse of the spelling has exactly their answers, values, table entries, complaints and operands; in all three modes, and with one dash for long options too |
| GetoptSpelling.SearchFinds | lib/argtable/argtable3.c:469-497 | a name before which at most one entry is abbreviated, or the only abbreviation, is found |
| Getopt.FirstCharacter | lib/argtable/argtable3.c:584-590 | "+" and POSIXLY_CORRECT stop at the first operand, "-" delivers operands in place, and neither character is an option |
| Getopt.BlockMoved | lib/argtable/argtable3.c:643-649 | the rotation of the operand block behind the options read since keeps the invariant that ties nonopt_start, nonopt_end and optind |
| Getopt.Reader.SearchTable | lib/argtable/argtable3.c:469-497 | the loop over the table gives the answer of the specified search |
| Getopt.Reader.ParseLongOptions | lib/argtable/argtable3.c:449-561 | one long option: code, argument, index, optopt, flag and the new optind are those of the specification, also in every error case |
| Getopt.Reader.ParseShortOption | lib/argtable/argtable3.c:699-754 | one letter of a cluster of short options, with -W and optional arguments, likewise |
| Getopt.Reader.GetoptInternal | lib/argtable/argtable3.c:567-755 | one call keeps the invariant of the run in every reachable state, or ends the run with the vector partitioned |
| Getopt.Reader.RunGetoptLong | lib/argtable/argtable3.c:4026-4033 | a whole run to the final -1 delivers the options of the original vector in order and leaves the program name, the option arguments and the operands, each in original order, with optind at the first operand, in all three modes; of a vector that spells a command line it delivers that command line |
| TrexLayout.ElemFrame | lib/argtable/argtable3.c:2992-3007 | appending or changing other nodes does not disturb the nodes of an element |
| TrexLayout.ElemLinked | lib/argtable/argtable3.c:3218-3221 | writing the next link of the root of an element links the element and nothing else |
| TrexCompile.Compiler.CharNode | lib/argtable/argtable3.c:3044-3080 | a character, an escape or a character kind is read exactly when it stands in the text, and its node is built |
| TrexCompile.Compiler.Class | lib/argtable/argtable3.c:3082-3129 | a bracketed class is read exactly as spelled, for every set the grammar allows, and its members are linked in order |
| TrexCompile.Compiler.Quantifier | lib/argtable/argtable3.c:3179-3210 | the quantifier spelled in the text is read, and the bounds are the two packed into a greedy node |
| TrexCompile.Compiler.Atom | lib/argtable/argtable3.c:3144-3177 | groups, classes, the dot and single characters: the tree that the text spells is read and laid out |
| TrexCompile.Compiler.Element | lib/argtable/argtable3.c:3211-3224 | the elements that the text spells, each with its quantifier, are read as one list and linked |
| TrexCompile.Compiler.List | lib/argtable/argtable3.c:3226-3249 | the list that the text spells, with its alternatives, is read and laid out, whatever the nesting |
| TrexCompile.Compiler.ReadItems | lib/argtable/argtable3.c:3091-3124 | the loop over the members of a class reads exactly the members spelled, ranges and the characters around them included |
| TrexCompile.Compiler.ParseNumber | lib/argtable/argtable3.c:3131-3142 | numbers of up to nine digits are read to their last digit with their value, longer ones are refused |
| TrexSpelling.ElemsSpelled | lib/argtable/argtable3.c:3218-3221 | the character behind an element tells whether the list goes on, for every list of the grammar |
| TrexSpelling.AtomSpelled | lib/argtable/argtable3.c:3147-3177 | the first character of an atom's spelling tells its kind |
| TrexSpelling.RangesDependOnPlace | lib/argtable/argtable3.c:3094-3099 | a set allowed near the beginning is refused behind many nodes, and a backward range is allowed |
| TrexCompile.CompileTo | lib/argtable/argtable3.c:3459-3505 | whichever tree spells the pattern, that tree is what is compiled |
| TrexCompile.Compile | lib/argtable/argtable3.c:3459-3505 | a pattern compiles if and only if it is the spelling of a tree of the grammar whose ranges are allowed, and the node array then holds exactly such a tree |
| TrexCompile.MatchPattern | lib/argtable/argtable3.c:2723-2728 | a text accepted is in the language of the pattern's tree; for patterns without repetition and alternation exactly those texts are accepted |
| TrexMatch.MatchMember | lib/argtable/argtable3.c:3274-3305 | one member of a class accepts a character exactly when the item denotes it |
| TrexMatch.MatchClass | lib/argtable/argtable3.c:3274-3305 | the walk along the links accepts exactly the characters of the set |
| TrexMatch.MatchSingle | lib/argtable/argtable3.c:3413-3454 | a node for one character or position answers exactly where its element ends |
| TrexMatch.MatchNode | lib/argtable/argtable3.c:3307-3456 | every call gives the answer specified on the tree and terminates on every compiled pattern and text; an answer is a stretch that the subtree spans, and for rigid subtrees there is an answer exactly where there is such a stretch |
| TrexMatch.MatchGreedy | lib/argtable/argtable3.c:3312-3361 | the greedy case with its bounds and its look-ahead at later siblings gives the specified answer, nullable bodies included |
| TrexMatch.MatchTurns | lib/argtable/argtable3.c:3325-3356 | the loop makes the specified number of turns and ends where they end |
| TrexMatch.Match | lib/argtable/argtable3.c:3515-3525 | acceptance is sound for every pattern; exact for patterns without repetition and alternation and wherever the text allows one way at every choice; for alternatives, grouped and nested in any way, the text is accepted iff the first alternative that spans anything spans all of it; exact up to `ListReaches` for those that end in a repetition of single characters |
| TrexMatch.DotStarRejectsEmpty | lib/argtable/argtable3.c:3325-3356 | `.*` denotes the empty text but does not accept it |
| TrexSemantics.SpansIff | lib/argtable/argtable3.c:3307-3456 | the matches are the stretches spanned that end inside the text |
| TrexSemantics.KindChars | lib/argtable/argtable3.c:3251-3273 | the characters of each character kind |
| TrexSemantics.KindComplements | lib/argtable/argtable3.c:3251-3273 | each capital kind is the complement of its small letter |
| TrexSemantics.SameCharLaws | lib/argtable/argtable3.c:3293-3301 | which characters a character takes, with and without regard to case |
| TrexSemantics.RangeEnds | lib/argtable/argtable3.c:3278-3287 | which characters a range takes |
| TrexSemantics.BoundaryInside | lib/argtable/argtable3.c:3404-3412 | inside the text a boundary is where a character and the next one differ in being space |
| TrexSyntax.EscapedChars | lib/argtable/argtable3.c:3045-3080 | the escapes by their character codes |
| TrexSyntax.QuantBounds | lib/argtable/argtable3.c:3179-3210 | the bounds of every quantifier, for numbers written in decimal |
| TrexSyntax.NumberOfDecimal | lib/argtable/argtable3.c:3131-3142 | a number written in decimal is read as that number |
| TrexSyntax.ConstructsWritten | lib/argtable/argtable3.c:3144-3249 | how anchors, the dot, kinds, boundaries, groups and alternatives are written |
| TrexSyntax.QuantWritten | lib/argtable/argtable3.c:3179-3210 | how quantifiers are written |
| TrexSyntax.SetWritten | lib/argtable/argtable3.c:3082-3129 | how sets are written |
| TrexSyntax.ItemsWritten | lib/argtable/argtable3.c:3091-3124 | how the members of a set are written, one behind the other |
| TrexSyntax.AlternativesAllowed | lib/argtable/argtable3.c:3226-3249 | alternatives in a repeated group are a pattern |
| TrexSyntax.AnchorsAllowed | lib/argtable/argtable3.c:3226-3249 | `^.*$` is a pattern |
| TrexSyntax.CountAllowed | lib/argtable/argtable3.c:3179-3210 | `\d{1,3}` is a pattern |
| TrexSyntax.GroupAllowed | lib/argtable/argtable3.c:3147-3160 | `(?:\.)` is a pattern |
| TrexSyntax.BoundaryAllowed | lib/argtable/argtable3.c:3060-3068 | `\ba` is a pattern |
| TrexSyntax.SetsAllowed | lib/argtable/argtable3.c:3082-3129 | `[a-f_]` and `[^a-f_]` are patterns |
| TrexAnswers.AnswerSpans | lib/argtable/argtable3.c:3307-3456 | whatever is decided on the way, an answer is a stretch that the tree spans |
| TrexLaws.EitherIsFirst | lib/argtable/argtable3.c:3362-3380 | of two rigid alternatives the first is answered if it spans anything, else the second, else none |
| TrexLaws.FirstAlternative | lib/argtable/argtable3.c:3362-3380 | of any number of rigid alternatives, grouped and nested in any way, the first that spans anything is answered |
| TrexLaws.SpansInside | lib/argtable/argtable3.c:3421-3454 | patterns that do not take the terminator span nothing but what they match |
| TrexLaws.RepMatched | lib/argtable/argtable3.c:3325-3361 | a repetition of single characters spans exactly the runs of them whose length is within its bounds |
| TrexLaws.RepetitionThen | lib/argtable/argtable3.c:3312-3361 | a repetition of a rigid element in front of a rigid list ends at the first place where no further turn is possible, the bound or the end of the text is reached, or the count is enough and the next element is there; and the list matches from there |
| TrexLaws.GroupedRepetitionThen | lib/argtable/argtable3.c:3381-3403 | in a group the repetition looks ahead behind the group, but not inside an alternative |
| TrexLaws.SureExact | lib/argtable/argtable3.c:3307-3456 | where alternatives exclude each other, repetitions cannot go on where what follows begins, or are fixed in number, the answers inside the text are exactly the matches |
| TrexLaws.EndingExact | lib/argtable/argtable3.c:3307-3456 | the same for whole patterns whose last element is any repetition of single characters, up to `ListReaches` |
| TrexLaws.AlternativeKept | lib/argtable/argtable3.c:3362-3380 | the alternatives a and ab in a group, with c behind it, reject "abc" |
| TrexLaws.RunTooShort | lib/argtable/argtable3.c:3334-3352 | `a*ab` rejects "aaab" |
| TrexLaws.GroupsLookAhead | lib/argtable/argtable3.c:3334-3352 | `(a*)ab` and `(a*)+ab` accept "aab", but not as an alternative |
| TrexLaws.TerminatorTaken | lib/argtable/argtable3.c:3418-3420 | the alternatives `.` and `$` reject the empty text |
| Scope.Analyzer.SwapCurrent | include/analyzer/symbol_table.h:216-224 | the new table becomes current, its parent is the old current one, and it takes over that one's function; no other link changes |
| Scope.Analyzer.FirstPassDo | src/analyzer/analyzer_pass1.c:223-318 | entering a node makes current the table that lexical nesting calls for, with parent and function links |
| Scope.Analyzer.Ascend | src/analyzer/analyzer_pass1.c:320-368 | leaving a node restores the table around it, except for declarations in implementations and patterns of match cases |
| Scope.Analyzer.FirstPass | src/ast/ast_utils.c:42-65 | a walk of any subtree restores the parent stack and, up to those exceptions, the current table, and links every table to its parent and its innermost function; it fails exactly when a node of the subtree fails |
| Scope.Analyzer.Descend | src/analyzer/analyzer_pass1.c:370-405 | the second pass jumps to the table that nesting calls for, through stored links only |
| Scope.Analyzer.TypecheckPass | src/ast/ast_utils.c:67-107 | while no pre-callback fails, the second walk processes every node under the lexical table and function, and restores the stack; it stops early exactly at the first fatal result and goes on after other errors |
| Scope.PassesAgree | src/analyzer/analyzer_pass1.c:223-405 | both passes see every node under the same table, but for the entry to implementations and match cases |
| Scope.AnalyzeModule | src/analyzer/analyzer_pass1.c:407-423 | over a whole module: both traces are the lexical ones, so a return statement is checked against its innermost function; the result is Ok exactly when all post-callbacks are, and fatal exactly when one of them is |
| ScopePaths.SeenAt | src/analyzer/analyzer_pass1.c:223-405 | in both passes each node is left under the table of the last scope on its path and in the last function declaration or implementation on it, or none; it is entered under the same, but in the first pass implementations and match cases |
| ScopePaths.StoredLinks | include/analyzer/symbol_table.h:216-224 | the table of a node is linked to that of the last scope around it, and to the last function on its path |
| DepGraph.OrderedIsAcyclic | src/compiler.c:261-328 | a graph with a topological order has no cycle |
| DepGraph.RankOfDependency | src/compiler.c:299-328 | a dependency has a smaller rank in a topological order |
| DepGraph.ClosesCycle | src/compiler.c:261-297 | meeting a temporary mark during the search exhibits a cycle |
| DepGraph.SearchDone | src/compiler.c:299-328 | a finished search has every module exactly once with its dependencies before it |
| Modules.Compiler.GetModuleIndex | src/compiler.c:233-247 | the loop finds the index of the very module |
| Modules.Compiler.VisitUnmarkedModule | src/compiler.c:261-297 | a visit extends the sorted list by a module after its dependencies, or there is a cycle |
| Modules.Compiler.ResolveDependencies | src/compiler.c:299-328 | succeeds if and only if the dependency graph is acyclic, and the sorted list is then a topological order of all modules; it terminates on every graph |
| Modules.Compiler.DetermineDependencies | src/module.c:213-238 | the dependency list is that of the imports in order, with the standard library for the main module; an unknown import fails |
| Modules.DependsIs | src/module.c:213-238 | the k-th dependency is the module named by the k-th import; with the library asked for, and only then, the main module and only it depends on it behind its imports; it fails iff a name is missing |
| Modules.Compiler.PreprocessFronts | src/compiler.c:330-380 | succeeds if and only if module names are distinct, imports exist and dependencies have no cycle |
| Lookup.SymbolTables.LookupRecord | src/analyzer/symbol_table.c:311-352 | after dependency resolution the recursion terminates, with the rank of the module as measure, and answers the first hit of the search order |
| Lookup.SearchedIff | src/analyzer/symbol_table.c:311-352 | the tables searched are exactly the chain and the chains of all modules reached along dependencies not called like the name |
| Lookup.NothingFoundIff | src/analyzer/symbol_table.c:311-352 | nothing is found iff none of these tables has the name |
| Lookup.FirstDependencyWins | src/analyzer/symbol_table.c:340-350 | when the chain has not the name, the answer is that of the first dependency in the list, not called so, whose own lookup finds it |
| Lookup.ChainIs | src/analyzer/symbol_table.c:322-338 | the chain goes from each table to its parent, up to the root |
| Lookup.InnermostWins | src/analyzer/symbol_table.c:311-352 | a binding on the parent chain that no inner table has is the answer |
| Lookup.FirstHitIsFirst | src/analyzer/symbol_table.c:311-352 | the answer is the record of the first table in the search order that has the name |
| Lookup.NoHitIffNone | src/analyzer/symbol_table.c:311-352 | nothing is found if and only if no table of the search order has the name |
| Lookup.SymbolTables.AddNode | src/analyzer/symbol_table.c:205-245 | a name is refused exactly when the table itself has it; otherwise one record is added |
| Lookup.AddedRecord | src/analyzer/symbol_table.c:205-245 | a record added is found from its table, and other names are found as before |
| RirCode.RunConcat | src/backend/llvm_ast.c:300-330 | running a concatenation is running its parts one after the other |
| RirCode.KeepsTemps | src/ir/rir_expression.c:32-56 | code does not touch the temporaries numbered before it |
| RirCode.Widths | src/backend/llvm_conversion.c:57-68 | the number of values of every integer type, and which are signed |
| RirLowering.ApplyMod | src/backend/llvm_operators.c:97-121 | fixed-width addition, subtraction and multiplication of reduced operands give the reduced exact result |
| RirLowering.EvalIs | src/ir/rir_binaryop.c:239-290 | the exact value is that of integer addition, subtraction and multiplication, over values in the range of the variables' types |
| RirLowering.NarrowestIs | src/ir/rir_binaryop.c:70-85 | the surviving width is the least of the operands |
| RirLowering.AssignedInOrder | src/ir/rir_binaryop.c:239-290 | assignments take effect one after the other, each on its variable only |
| RirLowering.ReadAdded | src/ir/rir_binaryop.c:54-69 | a read slipped in ahead of an operation keeps both operands' values |
| RirLowering.ConvertAdded | src/ir/rir_binaryop.c:70-85 | narrowing an operand keeps its value modulo the smaller width, and the other operand |
| RirLowering.Builder.BinaryopInit | src/ir/rir_binaryop.c:45-90 | after reads and conversion both operands have one type, of the smaller width, and still stand for the two sides |
| RirLowering.Builder.ProcessExpression | src/ir/rir_binaryop.c:239-290 | the instructions emitted for any tree of +, - and * compute the exact integer value modulo the width of its narrowest operand, define each temporary once and before its uses, and leave memory alone |
| RirLowering.Builder.WriteInit | src/ir/rir_expression.c:113-143 | the value to store is converted to the variable's type and keeps the bits that both widths have |
| RirLowering.Builder.ProcessAll | src/ir/rir_binaryop.c:239-290 | any run of assignments leaves exactly the memory that assigning the exact values, cut to the surviving width, would leave |
| RirLowering.ExactIff | src/backend/llvm_conversion.c:57-68 | the bits stored are those of the exact value of the variables' numbers, two's complement for signed types, if and only if that value, reduced to the variable's width, fits the width that survives the narrowest operand |
| RirLowering.ArrivesIff | src/backend/llvm_conversion.c:57-68 | the variable holds the exact value if and only if the value is in the range of its type and, when an operand is narrower, is not negative and fits that operand's width |
| RirLowering.NegativeWidened | src/backend/llvm_conversion.c:57-68 | -1 computed in eight bits is 255 in a 32-bit variable |
| RirLowering.NegativeCopied | src/backend/llvm_conversion.c:57-68 | so is -1 copied from an 8-bit signed variable |
| RirConvert.DiamondRuns | src/ir/rir_convert.c:46-128 | from the end of the old block every run reaches the join in two jumps, with "true" in the memory iff the condition was true and "false" iff it was false, and all else as before |
| RirConvert.DiamondClosed | src/ir/rir_convert.c:46-128 | in the new graph every block but the current one has its one exit, into the graph |
| RirConvert.AllConverted | src/ir/rir_convert.c:46-128 | after any run of conversions and other instructions the memory of each conversion holds "true" iff its boolean is true and "false" iff it is false, every boolean emitted has its value, and everything older than the run is unchanged |
| RirConvert.EffectIff | src/ir/rir_convert.c:46-128 | a run goes through if and only if every boolean converted is there at the beginning or emitted before |
| RirConvert.Context.SplitOnBool | src/ir/rir_convert.c:46-128 | exactly three blocks are added, in the order taken, fallthrough, join, and the join is current although creating a block changes the current one |
| RirConvert.Context.ConvertAll | src/ir/rir_convert.c:13-133 | any run of conversions with other instructions between them, 2^n paths for n conversions: control reaches the current block with what the run calls for, two jumps for each conversion, and the graph closed |
| TypeSpec.OwnType | src/ast/ast_type_traversal.c:171-254 | along its own type, a description of any alternation of operators is walked to the end, each leaf once from left to right with its type |
| TypeSpec.CompletesIff | src/ast/ast_type_traversal.c:135-241 | along any type, the walk completes if and only if the type has at least the nesting of the description's own type |
| TypeSpec.FrontierKept | src/types/type_creation.c:228-314 | the type of a description has its identifiers, in order |
| TypeSpec.TypeOfNormal | src/types/type_creation.c:228-314 | no operation in it is an operand of one with the same operator |
| TypeSpec.Bracketing | src/types/type_creation.c:228-314 | brackets in a run of one operator make no difference, and stay under another operator |
| TypeSpec.UnnamedTakesName | src/ast/ast_type_traversal.c:171-241 | a leaf goes by its name, and one without a name by the name before it |
| TypeSpec.LayoutNotCompared | include/ast/type.h:43-59 | a type with another operator and an operand more is walked to the end |
| TypeWalk.Traversal.GoUp | src/ast/ast_type_traversal.c:88-109 | after either side of an operator the stacks are back at that operator's operands, one further |
| TypeWalk.Traversal.Pre | src/ast/ast_type_traversal.c:135-169 | before a side, a level is entered exactly when the operator changes; it fails exactly when the operands have run out |
| TypeWalk.Traversal.ForeachArgDo | src/ast/ast_type_traversal.c:171-241 | with its stacks of types and indices the walk makes the planned visits up to the first that the callback stops |
| TypeWalk.ForeachLeafArg | src/ast/ast_type_traversal.c:243-254 | true exactly when no callback stopped and the types did not run out; the callback's argument is that of the visits made |
| TypeWalk.ForeachLeafOfOwnType | src/ast/ast_type_traversal.c:243-254 | an always-true callback meets each leaf exactly once, left to right, with the corresponding type |
| TypeUsers.TypecheckMemberAccess | src/analyzer/typecheck.c:236-330 | the type of the first leaf under the member's name, or the error |
| TypeUsers.RirMemberAccess | src/ir/rir_binaryop.c:165-214 | the index of the first leaf under the member's name, or the error |
| TypeUsers.MemberAccess | src/ir/rir_binaryop.c:178-237 | both passes find a member or neither does; the RIR reads the operand that the member is in, with the type given by type checking, if and only if neither that operand nor one before it has an operator inside |
| TypeUsers.LeavesAreOperandsIff | src/ir/rir_binaryop.c:165-214 | the leaves of a product are its operands, all of them, if and only if it is flat |
| TypeUsers.IndexIsOperandIff | src/ir/rir_binaryop.c:165-214 | for each leaf and the operand that holds it: the index is the position of the operand iff the operands before are leaves and the leaf is the first in its operand; the types agree iff the operand is a leaf; both iff no operand up to this one has an operator inside |
| TypeUsers.NestedIndexIsOff | src/ir/rir_binaryop.c:165-214 | behind a nested sum the index is beyond the operands |
| TypeUsers.NestedIndexIsRight | src/ir/rir_binaryop.c:165-214 | in front of one, and for its first leaf, the index is the position of the operand although the product is not flat |
| TypeUsers.TypeEqualsAstNode | src/types/type_comparisons.c:569-594 | true exactly when the type covers that of the description; among types of the same layout, exactly when it is that type |
| TypeUsers.EqualityIsTooWide | src/types/type_comparisons.c:584-594 | a sum with more operands is found equal to the description of a product |
| TypeCreation.Creation.LookupOrCreate | src/types/type_creation.c:283-314 | the stack of unfinished operations and the module's set, searched and added to on the way, end up as specified; in particular runs of one operator are flattened at any nesting |
| TypeCreation.Creation.GetOrCreateType | src/types/type_creation.c:588-620 | the first type of the set that covers that of the description, or a created one, which is added; operations being filled are left alone |
| TypeCreation.CreatedIff | src/types/type_creation.c:588-620 | what is found or created for any description is its own type if and only if no search on the way meets another type that passes first |
| TypeCreation.LookedUpIff | src/types/type_creation.c:283-314 | the same for a lookup outside of any operation; identifiers are never searched for |
| TypeCreation.SimpleCreated | src/types/type_creation.c:588-620 | for one operator over identifiers: the first type of the module that covers its type, else that type; so its own type if and only if no other one that covers it stands first |
| TypeCreation.FoundFirst | src/types/type_creation.c:598-608 | the type found is the first, in the order of visiting, that covers that of the description |
| TypeCreation.FreshModuleDisturbed | src/types/type_creation.c:588-620 | in a module without types, whatever the order of visiting, a pair behind a sum of three is given the type of the sum |
| MatchSpec.MatchesIffCovers | src/analyzer/typecheck_matchexpr.c:158-263 | inside a sum-free type a pattern matches if and only if it covers the values of the type and has no name and no `_` where the type has an operator |
| MatchSpec.AgreesIff | src/analyzer/typecheck_matchexpr.c:158-263 | a pattern matches exactly the sum-free types whose values it covers if and only if it has no name and no `_`, or has a name and covers nothing of any such type |
| MatchSpec.ElementaryMatched | src/analyzer/typecheck_matchexpr.c:158-179 | `_` and its own name match an elementary type, behind names of it too |
| MatchSpec.FlatBookkeeping | src/analyzer/typecheck_matchexpr.c:14-68 | for a flat sum the parts are its operands and matching records exactly the operands matched |
| Match.MatchingCtx.MatchTypes | src/analyzer/typecheck_matchexpr.c:158-263 | the recursive matching answers and records what the specification says, for all types, stopping at the first operand of a product that fails |
| Match.MatchingCtx.TypecheckMatchcase | src/analyzer/typecheck_matchexpr.c:265-324 | a case is refused exactly when it matches nothing, or when it matches and all parts were matched before; the first refusal ends the checks |
| Match.MatchingCtx.Compare | src/analyzer/typecheck_matchexpr.c:93-131 | the parts reported are exactly those not matched |
| Match.MatchesIffCoversSome | src/analyzer/typecheck_matchexpr.c:182-205 | a case matches a flat sum if and only if it covers and can read some operand; it then covers some value, and if it can read all operands the converse holds |
| Match.MatchedIffCoversAll | src/analyzer/typecheck_matchexpr.c:93-131 | all parts are matched if and only if every operand is covered by a case that can read it; every value is then covered, and for readable cases the converse holds |
| Match.TypecheckMatch | src/analyzer/typecheck_matchexpr.c:265-371 | on a flat sum an accepted match covers every value; every verdict is the one the values call for as the cases are read, and for readable cases as they are meant: accepted if and only if every value is covered and each case covers some value while some were uncovered |
| Match.SumFreeCase | src/analyzer/typecheck_matchexpr.c:265-324 | on a sum-free type the first case is refused, as useless if it matches and as not matching otherwise |
| Match.TypecheckSumFree | src/analyzer/typecheck_matchexpr.c:265-371 | a match on a sum-free type is accepted only without cases |
| Match.RepeatedCaseIsUseful | src/analyzer/typecheck_matchexpr.c:265-324 | a case all of whose values were covered before is not refused while other parts are left |
| Match.NamedPatternRefused | src/analyzer/typecheck_matchexpr.c:158-179 | the case d on i32 or d covers a value and is refused |
| Match.WildcardMissesProducts | src/analyzer/typecheck_matchexpr.c:158-263 | `_` covers every value of i32 or (i32, i32) but leaves the pair unmatched |
| Match.NamedSumGap | src/analyzer/typecheck_matchexpr.c:182-205 | with a sum behind a name all parts can be matched while a value is uncovered |
| MatchGaps.PartsMatchedIff | src/analyzer/typecheck_matchexpr.c:182-205 | of a sum whose operands are sum-free or names of flat sums, all parts are matched if and only if each operand is matched by some case |
| MatchGaps.NoGapIff | src/analyzer/typecheck_matchexpr.c:93-131 | for such a sum, all parts matched means every value covered, for all lists of cases, if and only if each type inside an operand is, up to names, all that some operand has inside |
| MatchGaps.NoGapBehindNames | src/analyzer/typecheck_matchexpr.c:158-205 | the same for a name of such a sum |
| MatchGaps.UniformHasNoGap | src/analyzer/typecheck_matchexpr.c:182-205 | it is enough that no operand has two different types inside |
| MatchGaps.PinnedByOthers | src/analyzer/typecheck_matchexpr.c:182-205 | but not needed: a, b, or a name for a or b |
| Info.RollbackRestores | src/info/info.c:99-123 | a push, any well-nested run and the matching rollback leave the messages and the snapshots as they were |
| Info.PopKeeps | src/info/info.c:107-111 | with a pop instead, the messages of the run stay |
| Info.MessagesAdded | src/info/info.c:62-83 | messages added stand behind the others, in order |
| Info.CutSaved | src/info/info.c:113-123 | a cut at the last mark leaves every earlier mark in the list and in its place |
| Info.InfoCtx.Rollback | src/info/info.c:113-123 | the loop that removes messages from the end restores the list saved by the matching push |
| Info.InfoCtx.RunAll | src/info/info.c:62-123 | on any run of operations the machine with marks does what the machine with full copies does |
| Lines.LineOfIff | src/inpstr.c:57-96 | the number of newlines before an offset is the line whose beginning is the last at or before it |
| Lines.NewlinesAll | src/inpstr.c:20-49 | every newline of the text is in the index |
| Lines.InpStr.FromSource | src/inpstr.c:20-49 | the index holds the beginning of every line |
| Lines.InpStr.PtrToLineCol | src/inpstr.c:57-96 | every offset up to the end of the text, and no other, has a line and a column, which lead back to it |
| Lines.InpStr.RoundTrip | src/inpfile.c:143-151 | a line beginning plus a column inside the line is found as that line and column |
| TypeSet.ToOrderedArray | src/analyzer/type_set.c:63-103 | for any set and order of visiting every type comes once, in the order specified; operands before the types they belong to, if operands are nested one level deep |
| TypeSet.OperandsFirstIff | src/analyzer/type_set.c:79-103 | operands come first for every order of visiting if and only if operands are nested one level deep |
| TypeSet.ChainBreaks | src/analyzer/type_set.c:79-103 | three types, each an operand of the next, visited from the outside in, come in a wrong order |

## Left out

- Help and glossary printing, dates, command-line scan functions, file reading and process spawning: no hard property.
- Warnings that getopt prints, and `opterr`; a NULL table of long options.  A long option whose value is -1 is excluded, since -1 is getopt's end marker.
- TrexMatch.Match: completeness is false of a matcher without backtracking and is stated for the patterns named in its row; of repetitions of groups with choices inside, and of repetitions followed by such groups, only soundness.
- GetoptSpelling.RoundTrip: the argument `-` where `-` is itself an option letter, and option strings in which a letter of a cluster is `-`.
- TrexCompile.MatchPattern: a pattern that does not compile accepts nothing; the C code goes on to match with a null pointer.
- Captures of the T-Rex matcher, the growth of its node array and its search functions.  A lone backslash at the end of a pattern is an error in the model; the C code reads on behind the terminator.
- Scope.Analyzer.TypecheckPass: runs in which a pre-callback fails are excluded, since the parent stack is not popped on that path.
- Lookup.SymbolTables.LookupRecord: runs before dependencies are resolved are excluded, since the recursion need not end there.
- Floats, division, comparisons, strings and arrays in RIR, and the LLVM builder; only the meaning of zero extension, truncation and fixed-width +, - and * is modelled.  Constants are 64 bits wide.
- Conversion of numeric constants to strings (formatting).
- TypeUsers.TypecheckMemberAccess: the checks on the left operand and the lookup of its description, which come before.
- TypeUsers.RirMemberAccess: the lookups before the index and the instruction emitted after it.
- TypeCreation.Creation.LookupOrCreate: names that are not defined, generics, and declarations; where in the order of visiting a new type goes is left open, so the results hold for every order.
- Match.TypecheckMatch: patterns with sums, match expressions inside others (they share one context), and sums inside products, where the bookkeeping does not mean coverage.
- The type kept for each case, beyond its never being a sum.
- `info_ctx_rem_messages`, which relies on a count that removal never lowers, and `info_ctx_flush`, which removes messages that marks may point to.
- Lines.InpStr.PtrToLineCol: columns count bytes, as for ASCII text; offsets before the text, which wrap around in C, are not modelled.
- Ownership, the lexer and parser of refu, memory pools, allocation failure and destruction.
