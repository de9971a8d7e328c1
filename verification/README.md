# A model of the fbthrift compiler core

The fbthrift compiler reads interface files that include one another, indexes
their definitions, rewrites files through codemods, and prints what it knows in
several textual forms. This project models the parts of that compiler whose
guarantees cross loops, recursion and mutable state, and proves those guarantees
for every input and every run:

- **Include-graph traversals** (`Programs`, `IncludeGraph`, `CodeGeneration`,
  `SchemaModel`, `SchemaOrder`, `AstSchema`).
  Recursive code generation marks *paths*, schema generation numbers *programs*
  and *definitions*. Both are depth-first walks over graphs that may be cyclic.
- **Name resolution by two indexes** (`ScopeIdentifier`, `SymbolIndexes`, `Writers`,
  `NameResolution`, `ResolutionAgreement`, `SharedNames`, `LocalAnswers`, `SymbolTable`). Every
  program has its own index and all programs share a flat one. The project says
  exactly when the two answers agree.
- **The codemod edit engine** (`Lexicographic`, `Replacements`, `Insertions`,
  `FileManager`, `AnnotationRanges`). One ordered pass over a set of replacements,
  against one-at-a-time splicing.
- **The source manager** (`SourceText`, `SourceCache`, `SourceOrigins`, `SourceManager`). Line
  offsets with binary search, the cache of sources and the cache of resolved includes.
- **Printers with inverses** (`TreePrinter`/`TreeReader`, `JsonPrinter`/`JsonReader`,
  `Escaping`, `PackageUri`, `NameCase`, with `DecimalText`, `Splitting` and `Bytes`).
  For each a reader written from the format alone recovers what was printed.
- **Small stateful indexes** (`EnumValues`, `StructuredFields`, `StructuralId` with
  `Permutations`, `CommonPackage`).

Code that changes things step by step is written as classes and methods with
loops; each method is proved against a function or predicate that does not mention
the steps, and the laws are lemmas about those.

Where the code does less than its comments or callers suggest, the code is kept,
the input that shows it is given, and the exact condition is proved:

- The order in which programs are added is kept so that names shared by several
  programs resolve as in the shared index (thrift/compiler/ast/t_global_scope.h:203-206).
  Whatever is shared and whatever is included, the two resolutions agree if and only if
  the registration that the shared index answers with is the program's own, or
  that of the included program added last among those that know the name
  (`SharedNameAgreesIff`). A program is added before it is parsed, so one that
  includes another of its own name is added first and writes last, and the answers
  differ (`NestedProgramsDisagree`).
- Even with distinct names they disagree on a definition of a program that was not
  included (`NotIncludedDisagrees`) and on an enum that competes with a program
  (`OwnEnumDisagrees`); `ResolutionsAgreeIff` says exactly when they do not.
- `to_json` writes nothing for an identifier and turns every key into a string. A value is
  recovered, up to keys as strings, if and only if no identifier stands in it as a value
  (`RoundTripIff`), and to the letter if and only if besides all its keys are strings
  (`ExactRoundTripIff`). Every other value shares its text with a different one, so
  no reader can do better (`TextIsShared`, `JsonReader.NoReaderRecovers`). A trailing
  identifier vanishes without a trace (`TrailingIdentifierVanishes`).
- The text hashed for a structural id is meant to hold the type of every field
  (thrift/compiler/generate/t_concat_generator.cc:128-129), but holds its unscoped name,
  which is empty for every container: `list<i32>` and `map<string, string>` are the
  same to it (`ContainersConfused`, `TypeIsNotTold`). It tells the outlines of the
  fields, no more and no less (`HashedTextTellsOutlines`).
- An answer of `get_file` reached through a resolved include is not final: a
  virtual file of that name displaces it (`AnswerIsFinalIff`, `AnswerDisplaced`). And an
  include, once resolved, is resolved for every program, whatever directories that
  one sees (`CachedIncludeIsFreshIff`, `SecondProgramMisled`).
- A package name with a closing slash has an empty last path segment, yet the URIs
  built from it are valid (`ParsedUriValidIff`, `ClosingSlashIsValid`).

Other conditions are met by everything that reaches the code at this commit, and
are stated so that they stay known:

- Recursive generation is complete if and only if the reachable programs have distinct
  paths (`CompleteIffPathsDistinct`, `SharedPathMisses`, `SharedPathRuns`). Programs of
  one path arise only where missing includes are allowed; only the codemods allow
  them (thrift/compiler/codemod/codemod.cc:43), and those generate nothing.
- An empty last part such as `A.`, and an enum value without a name, are treated
  differently by the two indexes (`EmptyLastPartDisagrees`, `EmptyNameAgreesIff`,
  `EmptyValueNameDisagrees`). The lexer yields neither: it wants the start of an
  identifier after each dot (thrift/compiler/parse/lexer.cc:90-92).
- `remove` deletes the separator behind an annotation if and only if it is a comma. The
  grammar also allows a semicolon (thrift/compiler/parse/parser.cc:317-353), which
  would stay behind: `(a; b)` becomes `(; b)` (`SeparatorTakenIff`,
  `SemicolonRemains`). The parser reads such lists and returns none of them
  (thrift/compiler/parse/parser.cc:354), so `remove` gets no range from parsed text.

Exceptions, failed checks and null results of the source are values here: `None`,
`false`, or a constructor of their own. Programs and definition nodes are numbers
standing for addresses.

## Model

| member | source | states |
|---|---|---|
| `CodeGeneration.Compiler.GenerateRecursively` | thrift/compiler/compiler.cc:561-588 | For every finite include graph, cyclic or not, the recursion ends, never enters a marked path, enters only programs reachable from its argument, keeps the marked paths equal to the paths of the entered programs, and stops at the first failure with nothing generated after it |
| `CodeGeneration.Compiler.Mark` | thrift/compiler/compiler.cc:567-570 | Marking an unmarked path keeps the marked paths in step with the entered programs, whose paths stay distinct |
| `CodeGeneration.Compiler.GenerateIncludes` | thrift/compiler/compiler.cc:572-584 | The loop over the includes follows the plan of the walk, and at a failure has followed it so far |
| `CodeGeneration.Compiler.GenerateInclude` | thrift/compiler/compiler.cc:573-583 | An include with a marked path is skipped, any other generated recursively |
| `CodeGeneration.Compiler.GenerateSingle` | thrift/compiler/compiler.cc:586-587 | Generating a program whose includes are all marked keeps the invariant: every include of every generated program is represented by a program generated earlier or still open above it |
| `CodeGeneration.Compiler.GenerateBundle` | thrift/compiler/compiler.cc:601-630 | From the root: no program twice, only reachable ones, includes settled before includers; on success the root and a representative of every include are there and the log is that of the depth-first walk over unmarked paths, includes in order; on failure the last program generated is the first that failed and the log a first part of that walk's |
| `CodeGeneration.CompleteIffPathsDistinct` | thrift/compiler/compiler.cc:554-588 | A successful run generates exactly the reachable programs if and only if no two of them share a path |
| `CodeGeneration.SharedPathMisses` | thrift/compiler/compiler.cc:572-575 | With two included programs of one path, every successful run leaves a reachable program out |
| `CodeGeneration.SharedPathRuns` | thrift/compiler/compiler.cc:561-588 | There is such a run |
| `CodeGeneration.DependenciesFirst` | thrift/compiler/compiler.cc:572-587 | In every run, failed or not, a generated program from which no cycle is reachable comes after all its transitive includes |
| `IncludeGraph.ClosedHoldsReachable` | thrift/compiler/compiler.cc:572-584 | A set of programs closed under inclusion holds everything reachable from its members; both traversals get their completeness from it |
| `AstSchema.Builder.Build` | thrift/compiler/generate/t_ast_generator.cc:486-487 | Succeeds if and only if no two definitions of the reachable programs share a key, generated ones counting only with the option; then each reachable program has one entry with id = position + 1, in the order in which a depth-first walk meets them, its include ids lead to its includes in order, and the definitions are all of those programs', or without the option the written ones, in the order in which the walk leaves the programs, kind by kind; each entry's definition ids and keys lead to the whole declaration list, or the written part of it, in order |
| `AstSchema.Builder.VisitRoot` | thrift/compiler/generate/t_ast_generator.cc:486-487 | The walk from the root gives programs and definitions their order, and fails only if two reachable kept definitions share a key |
| `AstSchema.Builder.Visit` | thrift/compiler/generate/t_ast_generator.cc:251-306 | Visiting an unnumbered program gives it the next position, numbers only programs it reaches, leaves earlier entries alone and never fails a lookup; failure means two reachable kept definitions share a key |
| `AstSchema.Builder.Enter` | thrift/compiler/generate/t_ast_generator.cc:252-263 | The new entry has id = position + 1 and both program indexes stay in step with the list |
| `AstSchema.Builder.VisitIncludes` | thrift/compiler/generate/t_ast_generator.cc:271-278 | After the loop the entry's include ids lead to the program's includes, in order, although the list of entries grew in between |
| `AstSchema.Builder.VisitNext` | thrift/compiler/generate/t_ast_generator.cc:272-277 | One include is walked if it is new and its id listed |
| `AstSchema.Builder.VisitInclude` | thrift/compiler/generate/t_ast_generator.cc:273-276 | An include that is numbered is skipped; a new one is visited, as the walk does, and its declaration-order list filled in, and entries made before stay as they were |
| `AstSchema.Builder.PushInclude` | thrift/compiler/generate/t_ast_generator.cc:277-277 | Appending the id of a numbered program extends what the include ids lead to by that program and finishes or breaks no other entry |
| `AstSchema.Builder.AddDefinition` | thrift/compiler/generate/t_ast_generator.cc:308-334 | A definition, unless generated and generated ones are left out, is appended under id = position + 1 in all indexes; it fails exactly on a key already taken by another kept definition |
| `AstSchema.Builder.AddDefinitions` | thrift/compiler/ast/ast_visitor.h:230-253 | Walking the children appends each kept definition exactly once: services, interactions, structs and unions, exceptions, typedefs, enums, constants, each kind as declared |
| `AstSchema.Builder.Populate` | thrift/compiler/generate/t_ast_generator.cc:176-190 | No `.at` lookup fails, the entry becomes fully described, and every other entry is unchanged |
| `AstSchema.Builder.ListDefinitions` | thrift/compiler/generate/t_ast_generator.cc:181-189 | The listed ids and keys lead to all declared definitions, or without the option to those not generated, in declaration order |
| `AstSchema.Builder.FinishedSchema` | thrift/compiler/generate/t_ast_generator.cc:486-500 | When nothing is open or pending the schema describes the root's whole reachable graph and no keys clash |
| `SchemaModel.DescribedAsChosen` | thrift/compiler/generate/t_ast_generator.cc:182-184 | What the option for generated definitions decides about what is held and listed |
| `SchemaOrder.GroupsAreKinds` | thrift/compiler/ast/ast_visitor.h:230-253 | The order of the kinds |
| `Replacements.LessIsStrictTotalOrder` | thrift/compiler/codemod/file_manager.h:76-89 | The order on replacements is irreflexive, total and transitive |
| `Replacements.OrderIsDetermined` | thrift/compiler/codemod/file_manager.h:124-130 | A set of replacements has one iteration order, so insertion order does not matter |
| `FileManager.Manager.Add` | thrift/compiler/codemod/file_manager.h:130-130 | Insertion keeps the order strict and adds exactly the one replacement to the set |
| `FileManager.Manager.GetNewContent` | thrift/compiler/codemod/file_manager.cc:61-90 | The overlap check passes if and only if all pairs are non-crossing; then the result is what splicing one at a time from the last gives, of the old length plus all size changes, and at every offset shows the includes inserted there, then the other insertions, both by text, then what replaces the text that starts there |
| `Insertions.SplicedIsShown` | thrift/compiler/codemod/file_manager.h:76-89 | Applying the set shows its replacements in that order at every offset that none covers |
| `Insertions.ForwardIsSplicing` | thrift/compiler/codemod/file_manager.cc:74-88 | Applying the replacements first to last gives what applying them last to first does |
| `Lexicographic.LessIff` | thrift/compiler/codemod/file_manager.h:88-88 | Texts are ordered by their first difference, a proper prefix first |
| `Replacements.PassIsSplicing` | thrift/compiler/codemod/file_manager.cc:70-89 | The text built by the single forward pass equals backward splicing |
| `Replacements.SplicedLength` | thrift/compiler/codemod/file_manager.cc:82-89 | Length is conserved up to the sum of the size changes |
| `FileManager.Manager.ExpandOverWhitespaces` | thrift/compiler/codemod/file_manager.cc:126-147 | The three loops reach the ends of the maximal runs of whitespace (and commas, when two-sided) around the range |
| `FileManager.Manager.Remove` | thrift/compiler/codemod/file_manager.cc:106-123 | Adds exactly the deletion of the annotation's removal range |
| `FileManager.Manager.Extent` | thrift/compiler/codemod/file_manager.cc:210-218 | The least begin and greatest end of the annotations, each attained |
| `FileManager.Manager.RemoveAllAnnotations` | thrift/compiler/codemod/file_manager.cc:209-230 | Adds exactly the one deletion that spans all annotations; without any annotation the source reads beyond the text and nothing is defined |
| `FileManager.RemovalsNeverCross` | thrift/compiler/codemod/file_manager.cc:106-123 | For any separated annotation list and any subset removed in any order, the deletions are in bounds and never cross |
| `AnnotationRanges.RemovalsApartIff` | thrift/compiler/codemod/file_manager.cc:106-147 | The ranges of two successive annotations stay apart if and only if the text between them is empty or holds a non-space; the separator that the grammar demands is what makes lists safe |
| `AnnotationRanges.SeparatorTakenIff` | thrift/compiler/codemod/file_manager.cc:110-122 | Of the two separators the grammar allows, the one behind a removed annotation goes with it if and only if it is a comma |
| `AnnotationRanges.SemicolonRemains` | thrift/compiler/codemod/file_manager.cc:112-122 | Removing the first annotation of `(a; b)` gives `(; b)` |
| `AnnotationRanges.RemovalCoversOnly` | thrift/compiler/codemod/file_manager.cc:110-122 | Beyond one annotation only whitespace, commas and one pair of parentheses around it are deleted |
| `AnnotationRanges.RemovalIs` | thrift/compiler/codemod/file_manager.cc:106-147 | The range exactly: the whitespace around, and up to two commas behind or the parentheses directly around |
| `AnnotationRanges.SoleMemberTakesListIff` | thrift/compiler/codemod/file_manager.cc:110-120 | The sole member takes the whole list if and only if nothing else stands in it but whitespace and, directly before the closing parenthesis, at most one comma |
| `AnnotationRanges.RemovalOfAllIs` | thrift/compiler/codemod/file_manager.cc:220-229 | The range for all annotations exactly |
| `AnnotationRanges.SpacesAre` | thrift/compiler/codemod/file_manager.cc:128-144 | Whitespace by its ASCII codes |
| `AnnotationRanges.RemovalStaysInList` | thrift/compiler/codemod/file_manager.cc:106-147 | Removing any members of a parenthesised list leaves the others whole and deletes besides only whitespace and commas, or, for the sole member of a list, that list's parentheses |
| `AnnotationRanges.TakenPairIsWhole` | thrift/compiler/codemod/file_manager.cc:114-120 | A removal takes parentheses only for the sole member of a list, and then deletes exactly from the opening to the closing one |
| `AnnotationRanges.ListIsOrdered` | thrift/compiler/codemod/file_manager.cc:106-123 | The removal ranges of any two members of a list keep the list's order without overlap |
| `AnnotationRanges.RemovalOfAllTakesParentheses` | thrift/compiler/codemod/file_manager.cc:220-229 | Removing all annotations removes exactly the parenthesised list if and only if only whitespace precedes the first and only whitespace and commas follow the last |
| `ScopeIdentifier.FormatParse` | thrift/compiler/ast/scope_identifier.cc:41-60 | Formatting what was parsed gives every text back |
| `ScopeIdentifier.ParseFormat` | thrift/compiler/ast/scope_identifier.cc:88-97 | Parsing what was formatted gives the identifier back if and only if no part but the last of three holds a dot |
| `SymbolIndexes.LocalIsGlobalSlice` | thrift/compiler/ast/t_global_scope.cc:69-79 | After every run of registrations a program with a unique name finds in its own index exactly what the shared index holds under that name, at every key but the empty name |
| `SymbolIndexes.EmptyNameAgreesIff` | thrift/compiler/ast/program_scope.h:77-92 | Under the empty name they agree if and only if something was defined there or no enum value is unnamed |
| `SymbolIndexes.NoEmptySubdefinition` | thrift/compiler/ast/program_scope.h:77-83 | No run stores anything under an empty second part |
| `SymbolIndexes.UnknownScopeIsEmpty` | thrift/compiler/ast/t_global_scope.cc:69-79 | No run stores anything in the shared index under a name that no registering program bears |
| `SymbolIndexes.EmptyValueNameDisagrees` | thrift/compiler/ast/t_global_scope.cc:71-78 | The shortest run on which they do not: one enum value with an empty name |
| `SymbolIndexes.BareNameIff` | thrift/compiler/ast/program_scope.h:83-92 | In runs without unnamed values a name can be used bare if and only if some registration introduced it, as a definition or as an enum value |
| `SymbolIndexes.AmbiguousIff` | thrift/compiler/ast/program_scope.h:85-107 | In runs without unnamed values a value name is marked ambiguous if and only if it is not `UNKNOWN` and an enum value of that name was registered after the name had been introduced |
| `NameResolution.IndexesExtend` | thrift/compiler/ast/t_program.cc:99-105 | One registration takes both indexes from those of a run to those of the longer run |
| `NameResolution.RedefinedExtend` | thrift/compiler/ast/program_scope.h:91-106 | One registration takes the marked value names from those of a run to those of the longer run |
| `NameResolution.ScopesExtend` | thrift/compiler/ast/t_program.cc:276-291 | Entering a scope and re-sorting keeps every list ordered by priority, every entry justified by an include, and every include, aliased or not, offered |
| `ResolutionAgreement.SliceOf` | thrift/compiler/ast/t_global_scope.h:163-171 | With distinct program names each program's index is the shared index's slice for its name; under the empty name it may hold more |
| `ResolutionAgreement.SearchAsksBearer` | thrift/compiler/ast/t_program.cc:192-207 | Searching the scopes under a name asks the one program of that name if it is included, unless an alias of that name answers or stops the search |
| `ResolutionAgreement.SearchIsSlice` | thrift/compiler/ast/t_program.cc:192-223 | So it finds what the shared index holds under that name |
| `ResolutionAgreement.EmptySubNotFound` | thrift/compiler/ast/t_program.cc:209-223 | An enum value with an empty last part is never found locally |
| `ResolutionAgreement.ResolutionsAgreeIff` | thrift/compiler/ast/t_program.cc:172-251 | With distinct names, after every run every identifier is resolved through an alias or the two resolutions agree if and only if it names nothing of a program not included or hidden behind an alias, no enum of the program itself competes with a program of that name, and a part left empty finds the same in both indexes |
| `ResolutionAgreement.NotIncludedDisagrees` | thrift/compiler/ast/t_program.cc:190-240 | `q.T` of a program `q` that is not included is found by the shared index only |
| `ResolutionAgreement.OwnEnumDisagrees` | thrift/compiler/ast/t_program.cc:183-240 | `q.T` is the program's own enum value to itself and a definition of the included program `q` to the shared index |
| `ResolutionAgreement.EmptyLastPartDisagrees` | thrift/compiler/ast/t_program.cc:179-247 | The failing case of that condition for an empty last part: `A.` finds nothing locally while the shared index answers with the program's own `A` |
| `Writers.LocalDecided` | thrift/compiler/ast/program_scope.h:77-92 | A program's index holds what its last write of the key registered or, for want of one, its first offer of the key as a bare enum value |
| `Writers.GlobalDecided` | thrift/compiler/ast/t_global_scope.cc:69-79 | The shared index holds the same of all programs that bear the name, unnamed values left out |
| `Writers.DeciderIff` | thrift/compiler/ast/t_global_scope.cc:71-78 | The position that decides is the last write or the first offer, and there is none exactly when nobody knows the key |
| `Writers.DecidesAlone` | thrift/compiler/ast/t_program.cc:99-105 | The registration that decides in the shared index decides in its own program's index |
| `SharedNames.NestedProgramsDisagree` | thrift/compiler/parse/parse_ast.cc:1122-1131 | Two programs of one name, the first including the second: an includer of both finds the inner definition and the shared index the outer |
| `SharedNames.SearchDecided` | thrift/compiler/ast/t_program.cc:194-204 | A search by priority ends at the registration that decides in the program added last of those listed that know the key |
| `SharedNames.SearchIs` | thrift/compiler/ast/t_program.cc:192-223 | A search that no alias answers finds exactly the registration that decides in the program added last of the included ones that know the key |
| `SharedNames.OthersListed` | thrift/compiler/ast/t_program.cc:276-291 | Past the aliases the list of a scope holds exactly the included programs of that name, in the order they were added, if they were added before |
| `SharedNames.SharedNameAgreesIff` | thrift/compiler/ast/t_program.cc:172-251 | Whatever names are shared and whatever is included, an identifier is resolved through an alias or the same both ways if and only if the registration that the shared index answers with is the program's own or else the one that the search finds |
| `SharedNames.AlignedWithDecider` | thrift/compiler/ast/t_program.cc:190-240 | That is, for no enum value of the program itself: the last writer of the key, or the first to offer it as a bare value, is included and was added last of the included programs that know the key |
| `SharedNames.SharedNameAgrees` | thrift/compiler/ast/t_program.cc:172-251 | The case of programs that register in blocks in the order they were added, in which the resolutions always agree |
| `LocalAnswers.LocalAnswer` | thrift/compiler/ast/t_program.cc:172-224 | Every local answer: the program's own registration that decides; else for a two-part identifier one of the programs included under the alias, whose deciding registration answers or nothing does; else, or if no aliased program knows a three-part one, the deciding registration of the included program added last of those that know it |
| `LocalAnswers.OneAliasAnswersIff` | thrift/compiler/ast/t_program.cc:194-218 | The one program included under an alias answers, through the alias, if and only if it knows the key; if it does not, a two-part identifier finds nothing |
| `LocalAnswers.AliasFinds` | thrift/compiler/ast/t_program.cc:194-198 | With a program included as `x` that defines `T`, `x.T` is found through the alias |
| `LocalAnswers.GlobalAnswer` | thrift/compiler/ast/t_program.cc:226-251 | Every answer of the shared index is the registration that decides among the programs of the name, or none if nobody knows the key |
| `SymbolTable.Compilation.AddDefinition` | thrift/compiler/ast/t_program.cc:46-97 | Registering a definition keeps both indexes, the marked names and all scopes those of the longer run |
| `SymbolTable.Compilation.AddEnumDefinition` | thrift/compiler/ast/t_program.cc:99-105 | Registering an enum value does the same, its bare form included, and marks it when the bare form was taken |
| `SymbolTable.Compilation.IsAmbiguousEnumValue` | thrift/compiler/ast/program_scope.h:110-112 | Answers by the history of registrations, not by the set that tracks it |
| `SymbolTable.Compilation.AddProgram` | thrift/compiler/ast/t_global_scope.cc:58-63 | A program is numbered once, the numbers stay distinct, and every scope list stays justified |
| `SymbolTable.Compilation.GlobalPriority` | thrift/compiler/ast/t_global_scope.cc:81-89 | A numbered program's priority is its place and below the root's; any other program gets the root's |
| `SymbolTable.Compilation.AddInclude` | thrift/compiler/ast/t_program.cc:276-291 | The target joins the includes of the program, or those under the alias, the scopes account for it, and no other program's scopes change |
| `SymbolTable.Compilation.WithScope` | thrift/compiler/ast/t_program.cc:277-288 | The list under the name or alias gains the entry and is again in priority order |
| `SymbolTable.Compilation.Find` | thrift/compiler/ast/t_program.h:317-340 | Returns what the run of registrations and the includes demand: the local answer if the shared index is switched off or an alias answers, else the answer of the shared index; a mismatch is recorded exactly when both are consulted and differ, so under distinct names exactly for the identifiers that are not agreeable |
| `SymbolTable.SortByPriority` | thrift/compiler/ast/t_program.h:77-80 | The same entries by falling priority |
| `TreePrinter.DrawBranches` | thrift/common/tree_printer.cc:34-54 | The in-place drawing puts a connector at the deepest active level, a bar at every other active one and spaces elsewhere |
| `TreePrinter.GenerateIndentation` | thrift/common/tree_printer.cc:28-66 | A bar appears at a level if and only if that branch still has later siblings, then the node's connector |
| `TreePrinter.Printer.PrintRecursively` | thrift/common/tree_printer.cc:70-89 | Prints the reference lines of the subtree and leaves `active` as the levels still open, strictly increasing, without the node's own level if it was the last child |
| `TreePrinter.Printer.PrintChildren` | thrift/common/tree_printer.cc:84-88 | Prints the children's lines and closes their level with the last child |
| `TreeReader.ReadPrinted` | thrift/common/tree_printer.cc:70-95 | A reader of the printed lines gives back every tree without newlines |
| `TreeReader.ReadHoldsNone` | thrift/common/tree_printer.cc:76-76 | Nothing that can be read back holds a newline |
| `TreeReader.ReadBackIff` | thrift/common/tree_printer.cc:70-101 | The output reads back to the tree if and only if no text in it holds a newline |
| `TreeReader.NoReaderRecovers` | thrift/common/tree_printer.cc:70-95 | No reader recovers all trees: every tree with children prints as the single node that holds its lines |
| `TreeReader.ToString` | thrift/common/tree_printer.cc:91-101 | Printing with the shared `active` stack yields the reference lines of the tree |
| `TreeReader.SmallTreePrinted` | thrift/common/tree_printer.cc:28-89 | What a tree of four nodes looks like |
| `JsonPrinter.ToJson` | thrift/compiler/generate/json.cc:40-81 | The nested loops compute the reference text |
| `JsonPrinter.StringifyList` | thrift/compiler/generate/json.cc:41-48 | The list loop, with its trimming, computes the reference text |
| `JsonPrinter.StringifyMap` | thrift/compiler/generate/json.cc:50-62 | The map loop, with its trimming, computes the reference text |
| `JsonPrinter.JsonQuoteAscii` | thrift/compiler/generate/json.cc:83-116 | The quoting loop writes every byte in its escaped form between quotes |
| `JsonPrinter.RTrimInPlace` | thrift/compiler/generate/json.cc:31-37 | Leaves a prefix that does not end in a space or comma and drops nothing but spaces and commas |
| `JsonReader.TrimmedList` | thrift/compiler/generate/json.cc:43-47 | At every list `rtrim` removes exactly the one trailing separator |
| `JsonReader.TrimmedMap` | thrift/compiler/generate/json.cc:52-61 | At every map `rtrim` removes exactly the one trailing separator |
| `JsonReader.ReadPrintedChars` | thrift/compiler/generate/json.cc:89-116 | Every byte string is read back from its quoted form by section 7 of RFC 8259, `\u00XX` being byte XX |
| `JsonReader.EscapeLength` | thrift/compiler/generate/json.cc:92-111 | A byte is escaped only if it has to be, by one character in six cases and by its code in all others |
| `JsonReader.ReadPrinted` | thrift/compiler/generate/json.cc:40-81 | A value free of identifiers and doubles is read back from its text, whatever follows it, non-string keys having become strings |
| `JsonReader.RoundTripIff` | thrift/compiler/generate/json.cc:64-80 | A value free of doubles is recovered, up to keys as strings, if and only if no identifier stands in it as a value |
| `JsonReader.ExactRoundTripIff` | thrift/compiler/generate/json.cc:50-80 | It is recovered to the letter if and only if no identifier stands in it as a value and all its keys are strings |
| `JsonReader.TextIsShared` | thrift/compiler/generate/json.cc:50-80 | Every value with an identifier anywhere, in keys at any depth too, or with a key that is no string, shares its text with a different value, so no reader whatever recovers both |
| `JsonReader.NoReaderRecovers` | thrift/compiler/generate/json.cc:77-80 | With an identifier standing as a value the two differ even up to keys as strings |
| `JsonReader.TrailingIdentifierVanishes` | thrift/compiler/generate/json.cc:41-48 | An identifier at the end of a list leaves the text as it was without it |
| `SourceText.GetLineOffsets` | thrift/compiler/source_location.cc:70-86 | The offsets are the starts of all lines, none cut to 32 bits |
| `SourceText.UpperBound` | thrift/compiler/source_location.cc:249-250 | Binary search finds the first element above the bound |
| `SourceText.LineAndColumn` | thrift/compiler/source_location.cc:249-253 | The line is one plus the newlines before the offset and the column the distance from the line start plus one |
| `SourceText.LocationsOrderedLikeOffsets` | thrift/compiler/source_location.cc:249-254 | Line and column order locations as offsets do and determine the offset |
| `SourceCache.StepKeeps` | thrift/compiler/source_location.cc:178-220 | Every operation keeps file names and source ids in bijection with views equal to stored text, keeps found relative includes readable, and changes nothing cached |
| `SourceCache.RunKeeps` | thrift/compiler/source_location.cc:158-348 | The same over every run of operations |
| `SourceCache.FoundIncludeStaysReadable` | thrift/compiler/source_location.cc:287-348 | Once a relative include is found, every later `get_file` on it succeeds, whatever happened in between |
| `SourceCache.AnswerIsFinalIff` | thrift/compiler/source_location.cc:178-208 | A successful answer of `get_file` stays the same over every later run if and only if, before the call, the name was a key or its path was not |
| `SourceCache.AnswerDisplaced` | thrift/compiler/source_location.cc:178-220 | A run from the empty manager that ends in a displaced answer |
| `SourceCache.CachedIncludeIsFreshIff` | thrift/compiler/source_location.cc:291-343 | The cached answer for a relative include is what a search for this program would find if and only if the cached path is the first its directories offer, or the include is a source resolved to itself |
| `SourceCache.SecondProgramMisled` | thrift/compiler/source_location.cc:291-296 | A run after which a program that sees only another directory gets the first program's file |
| `SourceCache.GetFileKeeps` | thrift/compiler/source_location.cc:178-208 | `get_file` succeeds if and only if the name is cached or its path readable, and its view shows a stored source |
| `SourceOrigins.EverySourceBrought` | thrift/compiler/source_location.cc:198-219 | In every run from the empty manager each source holds the content of the virtual file added under its name, or what the backend holds under the path its name stood for when it was read |
| `SourceOrigins.GetFileShows` | thrift/compiler/source_location.cc:178-208 | What `get_file` answers, told by the backend |
| `SourceOrigins.IncludeIsFound` | thrift/compiler/source_location.cc:287-348 | What `find_include_file` answers, told by the backend and the directories |
| `SourceCache.ViewRefersToSource` | thrift/compiler/source_location.cc:158-169 | Every cached view has a source, of that name and with that text |
| `SourceManager.Manager.AddSource` | thrift/compiler/source_location.cc:158-169 | The new source gets the next id, its line offsets and an entry under its name |
| `SourceManager.Manager.GetFile` | thrift/compiler/source_location.cc:178-208 | Keeps the caches consistent and growing, and answers with the source of that name, else that of the path the name was resolved to, else a new source that shows what the backend holds under that path, or nothing if it holds nothing |
| `SourceManager.Manager.AddVirtualFile` | thrift/compiler/source_location.cc:210-220 | Keeps the caches consistent and growing, fails if and only if the name is present, and answers with a stored source of that content |
| `SourceManager.Manager.TrySearchPath` | thrift/compiler/source_location.cc:257-285 | Finds the include under one directory if and only if it can be read there |
| `SourceManager.Manager.FindIncludeFile` | thrift/compiler/source_location.cc:287-348 | Keeps the caches consistent and growing; answers with what is known, the include itself if it is a source, its canonical form if absolute, else what the program's own directory offers, else what the first search path offers that offers anything, else nothing; a success is remembered and, if relative, readable |
| `SourceManager.Manager.SearchDirectories` | thrift/compiler/source_location.cc:328-343 | What the directory of the program, or of what it was itself resolved to, offers, whatever the search paths hold; else what the first search path offers that offers anything |
| `SourceManager.Manager.SearchPaths` | thrift/compiler/source_location.cc:338-343 | The first search path under which the include can be read |
| `SourceManager.Manager.ResolveLocation` | thrift/compiler/source_location.cc:237-255 | Answers if and only if the location refers to a source, with its name, line and column |
| `EnumValues.Enum.UpdateUnused` | thrift/compiler/ast/t_enum.cc:69-78 | Keeps the tracked number the least one from 113 on that no value uses |
| `EnumValues.Enum.AppendValue` | thrift/compiler/ast/t_enum.cc:33-51 | A written number is kept, an implicit one is 0 if first and else the predecessor's plus one; fails exactly when that would pass the 32-bit range and then changes nothing |
| `EnumValues.Enum.SetValues` | thrift/compiler/ast/t_enum.cc:23-31 | The values are those declared, numbered as written or by succession, up to the first that overflows; all indexes match them |
| `EnumValues.Enum.FindValue` | thrift/compiler/ast/t_enum.cc:53-59 | Agrees with a first-match scan in declaration order |
| `EnumValues.UnusedIsSmall` | thrift/compiler/ast/t_enum.cc:69-78 | The unused number is at most 113 plus the number of distinct numbers in use |
| `StructuredFields.Structured.FindById` | thrift/compiler/ast/t_structured.cc:27-36 | The partition point of the id order, and whether the id is there |
| `StructuredFields.Structured.TryAppendField` | thrift/compiler/ast/t_structured.cc:40-54 | Fails if and only if the id is used and then changes nothing; otherwise the index stays strictly increasing and a permutation of the fields |
| `StructuredFields.Structured.GetFieldById` | thrift/compiler/ast/t_structured.cc:64-67 | Binary search agrees with a scan of the fields |
| `StructuralId.HashableKeys` | thrift/compiler/generate/t_concat_generator.cc:126-145 | The text hashed is the sorted descriptions of the fields, each terminated |
| `StructuralId.SmallTypeDescribed` | thrift/compiler/generate/t_concat_generator.cc:132-137 | What the descriptions of two fields look like |
| `StructuralId.FieldOrderIrrelevant` | thrift/compiler/generate/t_concat_generator.cc:126-145 | The text hashed is the same for every order of the fields |
| `StructuralId.HashedTextTellsOutlines` | thrift/compiler/generate/t_concat_generator.cc:126-145 | With names free of commas and colons two texts are equal if and only if the fields have the same ids, names, type names and qualifiers but for their order |
| `StructuralId.HashedTextDeterminesFields` | thrift/compiler/generate/t_concat_generator.cc:126-145 | Among fields of which no two differ in nothing but their types, if and only if the fields are the same but for their order |
| `StructuralId.TypeIsNotTold` | thrift/compiler/generate/t_concat_generator.cc:134-135 | The type of any field can be exchanged for a different one of the same name without a trace |
| `StructuralId.ContainersConfused` | thrift/compiler/ast/t_container.h:23-29 | Fields of type `list<i32>` and `map<string, string>` have one description |
| `Permutations.MappedReflects` | thrift/compiler/generate/t_concat_generator.cc:132-140 | Lists whose members a function tells apart are the same but for their order if their images are |
| `StructuralId.DelimiterConfuses` | thrift/compiler/generate/t_concat_generator.cc:134-135 | With a comma in a name, different fields can have one description |
| `StructuralId.SortedOrderIsDetermined` | thrift/compiler/generate/t_concat_generator.cc:139-140 | A multiset of texts has one sorted order |
| `CommonPackage.AnyDomain` | thrift/compiler/codemod/package_generator.h:232-242 | The domain of the first namespace that has one, else the default |
| `CommonPackage.Finder.ProcessPath` | thrift/compiler/codemod/package_generator.h:263-298 | After every path seen the map holds its count and last domain and the leader is the best path so far |
| `CommonPackage.Finder.CountAgain` | thrift/compiler/codemod/package_generator.h:278-297 | The comparison with the current leader alone picks the best path again |
| `CommonPackage.Finder.FindCommonPackage` | thrift/compiler/codemod/package_generator.h:256-335 | A path seen at least twice, most often of all, longest among those and the first of these to be seen that often; the result splits at its first slash into the domain last seen with the path, or the fallback, and the path; empty if and only if no path repeats |
| `CommonPackage.OccurrencesAre` | thrift/compiler/codemod/package_generator.h:300-318 | A path is seen with a domain exactly when a namespace of that domain has it, as written or without the language name |
| `CommonPackage.BestIsUnique` | thrift/compiler/codemod/package_generator.h:289-297 | There is only one such path |
| `CommonPackage.LeadExtends` | thrift/compiler/codemod/package_generator.h:287-297 | The online choice of the best path equals the choice over all paths seen |
| `Splitting.SplitJoin` | thrift/compiler/ast/t_package.cc:46-60 | Splitting undoes joining for parts free of the delimiter |
| `Splitting.SplitConcat` | thrift/compiler/ast/t_package.cc:55-63 | Splitting two texts joined by the delimiter gives the parts of both |
| `DecimalText.DecimalInjective` | thrift/compiler/generate/t_concat_generator.cc:134-135 | Different integers have different texts |
| `PackageUri.SplitLoop` | thrift/common/universal_name.cc:136-150 | The loop yields every part, empty ones included |
| `PackageUri.GenPrefix` | thrift/compiler/ast/t_package.cc:27-44 | The prefix is the dotted domain, the slashed path and a closing slash |
| `PackageUri.GenDomain` | thrift/compiler/ast/t_package.cc:30-36 | The first loop joins the labels |
| `PackageUri.FromParts` | thrift/compiler/ast/t_package.cc:81-85 | A package built from parts carries them and their prefix |
| `PackageUri.ParseNameIff` | thrift/compiler/ast/t_package.cc:55-85 | Building a package, taking its name and parsing it gives domain, path and prefix back if and only if the parts hold no delimiter and the last one is not empty |
| `PackageUri.ValidateUniversalName` | thrift/common/universal_name.cc:176-206 | Accepts exactly the names of at least two valid domain labels, one valid path segment and a valid type segment |
| `PackageUri.CharactersAre` | thrift/common/universal_name.cc:69-79 | The characters of domains, paths and types by their ASCII codes |
| `PackageUri.ComponentsNeeded` | thrift/common/universal_name.cc:81-122 | Two labels make a domain and one does not, one segment makes a path and none does not, and no part may be empty |
| `PackageUri.UriValidIff` | thrift/compiler/ast/t_package.cc:74-85 | For a package built from parts, the URI of a slash-free type name is a universal name if and only if domain, path and type name are each valid |
| `PackageUri.ParsedUriValidIff` | thrift/compiler/ast/t_package.cc:55-79 | For a package parsed from any name likewise, a closing slash leaving the URI valid |
| `PackageUri.ClosingSlashIsValid` | thrift/compiler/ast/t_package.cc:55-79 | The package `a.b/c/` has an invalid path and its URI for `T` is valid |
| `Escaping.GetEscapedString` | thrift/compiler/generate/common.h:53-91 | The loop escapes every byte, in both modes |
| `Escaping.ReadEscaped` | thrift/compiler/generate/common.h:53-91 | Reading by section 6.4.4.4 of ISO/IEC 9899:2011 gives every byte string back, in both modes |
| `Escaping.EscapedIsSafe` | thrift/compiler/generate/common.h:57-90 | In both modes no control character, question mark or bare quote is left, and in octal mode nothing but ASCII |
| `Escaping.EscapedByteLength` | thrift/compiler/generate/common.h:58-87 | A byte is escaped only if it has to be, by one character in four cases and by three octal digits in all others |
| `Escaping.Escape` | thrift/common/detail/string.cc:21-51 | The loop escapes every character |
| `Escaping.UnescapeEscaped` | thrift/common/detail/string.cc:21-51 | The escaper has a left inverse on all strings |
| `Escaping.EscapedHoldsNone` | thrift/common/detail/string.cc:24-48 | No line break, tab, feed or bare apostrophe is left in the output |
| `NameCase.Underscore` | thrift/compiler/generate/t_concat_generator.h:252-261 | The inserting loop ends although the string grows, turns each later capital into an underscore and its small letter, and leaves no capital |
| `NameCase.Camelcase` | thrift/compiler/generate/t_concat_generator.h:270-292 | Drops underscores, raises the character after each run of them, and the first one if asked to |
| `NameCase.CamelUndoesUnderscoreIff` | thrift/compiler/generate/t_concat_generator.h:252-292 | `camelcase` undoes `underscore` on a non-empty name if and only if it holds no underscore and does not start with a capital |
| `NameCase.CapitalizedCamelUndoesUnderscoreIff` | thrift/compiler/generate/t_concat_generator.h:223-292 | With the first letter capitalised it does so if and only if the name holds no underscore and does not start with a small letter |

## Left out

- Command line, metrics, file output and the generators themselves: the success of generating one program is a parameter that may depend on everything generated before.
- `gen_schema` in hash mode and with `only_root_program_`, source ranges, interned values and the schematizer's own output: only ids, keys and the lists that refer to them are modelled.
- Placeholder typedefs, URIs, `program_scopes_` and the node-kind casts of `find`: they would add independent maps and easy lemmas.
- SharedNames.SharedNameAgreesIff: requires that included programs of the name were added to the shared scope first, as only the root program was not; programs included before would tie in priority, and their order would be left to `std::sort`. It also takes every registration to register a node of its own.
- SymbolTable.Compilation.AddProgram: requires fewer programs than the reserved 64-bit priorities, as memory does.
- The per-program objects are one class holding maps keyed by program, so ownership and aliasing between them are not modelled.
- FileManager.Manager.GetNewContent: requires replacements in bounds, as the fields' comments demand.
- `add_include`, `get_line_leading_whitespace`, `set_namespace` and the individual codemods: each adds one replacement at a position read off the syntax tree.
- Ordered containers and `std::sort` are modelled by insertion into a sequence; only the resulting order is claimed, not the cost.
- JsonReader.ReadPrinted: leaves out doubles, whose text comes from a formatting library.
- Tree texts are sequences of code points, so the byte length of box characters is not modelled.
- Files, directories, path joining and canonical paths are an unchanging oracle whose `exists` agrees with its `read_file`; long Windows paths are not modelled.
- SourceCache.FoundIncludeStaysReadable: says nothing of absolute includes, which are resolved by the file system and not by the backend.
- Texts of 2^32 bytes or more and the overflow of source ids: offsets and sizes below that bound are required where the source stores 32 bits.
- `find_const_by_name`, whose index `set_values` does not clear, and the overflow of `unused_`, which needs two thousand million values.
- `is_sealed` on recursive types, and the hash after the structural text.
- CommonPackage.Finder.FindCommonPackage: takes the paths and domains that regular expressions derive from a namespace as given.
- `get_package_from_common_identifiers` and `get_ordered_common_identifiers`: separate heuristics over the same paths.
