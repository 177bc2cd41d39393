# QuickFixHelper, modelled in Dafny

This project models the core of `QuickFixHelper` from SonarJava's `java-checks`. Quick-fix rules use it to rewrite Java source. It has three parts:

- **Token adjacency** (`TokenLocator`). `nextToken` and `previousToken` find the token just after or just before the text of a subtree. They climb to the parent when the node is the last (or first) child. Otherwise they scan the siblings and skip empty productions. The syntax tree is an arena: a node is an index into a sequence and records its parent index, its child indices and its optional first and last tokens. `Linked` states the shape of a parsed tree: links agree both ways; children are distinct; a parent comes before its children in the arena. That last point is why the climb terminates, and the two walks require nothing more. `TokensOrdered` adds that a child's tokens lie within its parent's and that siblings are in source order. The ordering guarantees of the walks hold under it.
- **Range text** (`SourceText`). `contentForRange` and `contentForTree` rebuild the text between two tokens from the lines of the file. The lines are a parameter here, not the scanner context.
- **Import planning** (`ImportPlanner`). The class `ImportSupplier` indexes the non-static imports of a compilation unit. For a required type it decides whether an import is needed, and if so which text to insert and where. It caches each answer per type name. The source's final fields are `const` fields. `cachedResults` is the only mutable field. A ghost `unit` records the compilation unit the index was built from, and `Valid()` ties the fields to it.

`JavaStrings` models the `String` operations the helper relies on: `compareTo`, `lastIndexOf`, `endsWith(".*")` and `typeToPackageName`. Strings are sequences of Unicode scalar values (Dafny's `char`). `CompareTo` follows Java's definition: the difference of the first differing characters, or else of the lengths.

`String.compareTo` puts `.` (46) before `a` (97), so `aa.A` sorts after `a.B` and is inserted after it; `ImportPlanner.InsertionIndexExamples` proves this.

## Model

| member | source | states |
|---|---|---|
| `JavaStrings.CompareTo` | java-checks/src/main/java/org/sonar/java/checks/helpers/QuickFixHelper.java:268 | `compareTo` is zero exactly when the two strings are equal |
| `JavaStrings.CompareToIsLexicographic` | java-checks/src/main/java/org/sonar/java/checks/helpers/QuickFixHelper.java:268 | `compareTo` is negative exactly when the first string is a proper prefix of the second, or has the smaller character at the first position where they differ |
| `JavaStrings.CompareToAntisymmetric` | java-checks/src/main/java/org/sonar/java/checks/helpers/QuickFixHelper.java:268 | swapping the arguments of `compareTo` negates the result |
| `JavaStrings.CompareToTransitive` | java-checks/src/main/java/org/sonar/java/checks/helpers/QuickFixHelper.java:268 | "at most" and "strictly before" under `compareTo` are transitive |
| `JavaStrings.LastIndexOf` | java-checks/src/main/java/org/sonar/java/checks/helpers/QuickFixHelper.java:263 | returns -1 exactly when the character is absent; otherwise a position holding it, with none after |
| `JavaStrings.PackageOf` | java-checks/src/main/java/org/sonar/java/checks/helpers/QuickFixHelper.java:262-264 | the package is the prefix of the type name that stops just before its last `.` |
| `JavaStrings.StarNameSplits` | java-checks/src/main/java/org/sonar/java/checks/helpers/QuickFixHelper.java:187-188 | a name ending in `.*` is its package followed by `.*` |
| `JavaStrings.PackageOfStarName` | java-checks/src/main/java/org/sonar/java/checks/helpers/QuickFixHelper.java:187-188 | the package recorded for the wildcard import `p.*` is `p` |
| `TokenLocator.IndexOf` | java-checks/src/main/java/org/sonar/java/checks/helpers/QuickFixHelper.java:75 | `indexOf` returns the first position holding the node |
| `TokenLocator.FirstTokenFrom` | java-checks/src/main/java/org/sonar/java/checks/helpers/QuickFixHelper.java:75-81 | the forward scan finds nothing exactly when every later sibling is empty; otherwise it returns the first token of the earliest sibling that has one |
| `TokenLocator.LastTokenBefore` | java-checks/src/main/java/org/sonar/java/checks/helpers/QuickFixHelper.java:95-100 | the backward scan finds nothing exactly when every earlier sibling is empty; otherwise it returns the last token of the nearest sibling that has one |
| `TokenLocator.NextToken` | java-checks/src/main/java/org/sonar/java/checks/helpers/QuickFixHelper.java:64-83 | for a node with tokens in a tree whose tokens are ordered, the next token exists and does not start before the node's last token; the walk itself needs only the tree's links |
| `TokenLocator.PreviousToken` | java-checks/src/main/java/org/sonar/java/checks/helpers/QuickFixHelper.java:85-102 | for a node with tokens in a tree whose tokens are ordered, the previous token exists and does not start after the node's first token; the walk itself needs only the tree's links |
| `TokenLocator.RootTokens` | java-checks/src/main/java/org/sonar/java/checks/helpers/QuickFixHelper.java:64-68 | for the root, `nextToken` is its own last token and `previousToken` its own first token |
| `TokenLocator.TokensOfEdgeChild` | java-checks/src/main/java/org/sonar/java/checks/helpers/QuickFixHelper.java:69-73 | the last child gets its parent's next token; the first child gets its parent's previous token |
| `TokenLocator.NextTokenOfInnerChild` | java-checks/src/main/java/org/sonar/java/checks/helpers/QuickFixHelper.java:74-82 | a child that is not last gets the first token of the earliest following sibling that has one; if all following siblings are empty, it gets its own last token and does not climb |
| `TokenLocator.PreviousTokenOfInnerChild` | java-checks/src/main/java/org/sonar/java/checks/helpers/QuickFixHelper.java:95-101 | a child that is not first gets the last token of the nearest preceding sibling that has one; if all preceding siblings are empty, it gets its parent's previous token |
| `TokenLocator.PreviousTokenAcrossNestedEmptyProductions` | java-checks/src/main/java/org/sonar/java/checks/helpers/QuickFixHelper.java:95-101 | with empty earlier siblings at three nested levels, the previous token of the innermost node is found by climbing three times, to the token before the outermost of them |
| `SourceText.JoinLinesSnoc` | java-checks/src/main/java/org/sonar/java/checks/helpers/QuickFixHelper.java:128-132 | joining one more piece appends a `"\n"` and that piece, which is what each loop step adds |
| `SourceText.SplitJoinLines` | java-checks/src/main/java/org/sonar/java/checks/helpers/QuickFixHelper.java:124-132 | pieces that hold no `"\n"` are recovered by splitting their join at `"\n"` |
| `SourceText.RangePieces` | java-checks/src/main/java/org/sonar/java/checks/helpers/QuickFixHelper.java:121-132 | a multi-line range has one piece per line: the tail of the first line from the first token's column, each middle line whole, and the head of the last line up to the end of the end token |
| `SourceText.ContentForRange` | java-checks/src/main/java/org/sonar/java/checks/helpers/QuickFixHelper.java:108-135 | the `StringBuilder` loop yields the substring of one line for a single-line range, or the range's pieces joined with `"\n"` |
| `SourceText.ContentForTree` | java-checks/src/main/java/org/sonar/java/checks/helpers/QuickFixHelper.java:104-106 | the text of a subtree is the range from its first token to its last |
| `SourceText.SingleLineRange` | java-checks/src/main/java/org/sonar/java/checks/helpers/QuickFixHelper.java:115-118 | a single-line range has length `endColumn + len(endText) - firstColumn`, and its characters are those of that line from the first column on |
| `SourceText.MultiLineRangeSplits` | java-checks/src/main/java/org/sonar/java/checks/helpers/QuickFixHelper.java:120-133 | when the lines hold no `"\n"`, the multi-line text splits back into its pieces: one `"\n"` after every piece except the last |
| `ImportPlanner.ComparatorIsTotalPreorder` | java-checks/src/main/java/org/sonar/java/checks/helpers/QuickFixHelper.java:268 | `ImportWithName.COMPARATOR` is total and transitive |
| `ImportPlanner.NonStaticImports` | java-checks/src/main/java/org/sonar/java/checks/helpers/QuickFixHelper.java:177-182 | an entry is kept exactly when it comes from a non-static `IMPORT` clause, with that clause's name and node |
| `ImportPlanner.NamesOfNonStaticImports` | java-checks/src/main/java/org/sonar/java/checks/helpers/QuickFixHelper.java:177-182 | the kept names are exactly the names of the unit's non-static imports |
| `ImportPlanner.InsertByName` | java-checks/src/main/java/org/sonar/java/checks/helpers/QuickFixHelper.java:183 | inserting adds exactly the one entry |
| `ImportPlanner.InsertByNameSorted` | java-checks/src/main/java/org/sonar/java/checks/helpers/QuickFixHelper.java:183 | inserting into a sorted list keeps it sorted |
| `ImportPlanner.SortByName` | java-checks/src/main/java/org/sonar/java/checks/helpers/QuickFixHelper.java:183 | the sorted list is a permutation of the imports |
| `ImportPlanner.SortByNameSorted` | java-checks/src/main/java/org/sonar/java/checks/helpers/QuickFixHelper.java:183 | the sorted list is in ascending `compareTo` order of names |
| `ImportPlanner.ExactNamesMembers` | java-checks/src/main/java/org/sonar/java/checks/helpers/QuickFixHelper.java:186-191 | a name is an imported type exactly when it is an import name that does not end in `.*` |
| `ImportPlanner.StarPackagesMembers` | java-checks/src/main/java/org/sonar/java/checks/helpers/QuickFixHelper.java:186-189 | a package is star-imported exactly when `package.*` is an import name |
| `ImportPlanner.IndexImports` | java-checks/src/main/java/org/sonar/java/checks/helpers/QuickFixHelper.java:184-192 | the `forEach` loop fills `importedTypes` and `starImportPackages` with the exact names and the wildcard packages of the list |
| `ImportPlanner.InsertionIndex` | java-checks/src/main/java/org/sonar/java/checks/helpers/QuickFixHelper.java:228-235 | the scan stops after the imports that sort strictly before the required type, at the first one that does not |
| `ImportPlanner.InsertionIndexSeparates` | java-checks/src/main/java/org/sonar/java/checks/helpers/QuickFixHelper.java:228-235 | in a sorted list without the type, every import before the stop sorts strictly before the type and every import from the stop on sorts strictly after it |
| `ImportPlanner.InsertionKeepsOrder` | java-checks/src/main/java/org/sonar/java/checks/helpers/QuickFixHelper.java:228-242 | placing the new import where the scan stops keeps the import list sorted |
| `ImportPlanner.InsertionIndexExamples` | java-checks/src/main/java/org/sonar/java/checks/helpers/QuickFixHelper.java:228-242 | with `a.B` and `c.D`, the types `b.X` and `aa.A` go between them and `z.Y` goes after `c.D` |
| `ImportPlanner.ImportSupplier.constructor` | java-checks/src/main/java/org/sonar/java/checks/helpers/QuickFixHelper.java:166-193 | builds the index of the unit: its package and first type; its non-static imports sorted by name; the exact and wildcard sets; an empty cache |
| `ImportPlanner.ImportSupplier.SortedNamesAreImportedNames` | java-checks/src/main/java/org/sonar/java/checks/helpers/QuickFixHelper.java:173-192 | the sorted import list holds exactly the names of the unit's non-static imports |
| `ImportPlanner.ImportSupplier.RequiresImportOf` | java-checks/src/main/java/org/sonar/java/checks/helpers/QuickFixHelper.java:246-260 | no import is needed exactly when the type is imported by name, its package is imported with `.*`, or its package is the file's package; otherwise, including in a file without a package, one is needed |
| `ImportPlanner.ImportSupplier.ImportEditWithoutImports` | java-checks/src/main/java/org/sonar/java/checks/helpers/QuickFixHelper.java:214-226 | with no non-static imports: `"\n\nimport T;"` goes after the package declaration; failing that, `"import T;\n\n"` goes before the first type; failing that, there is no edit |
| `ImportPlanner.ImportSupplier.ImportEditAmongImports` | java-checks/src/main/java/org/sonar/java/checks/helpers/QuickFixHelper.java:228-242 | with imports: `"\nimport T;"` goes after the last import that sorts strictly before T, or else `"import T;\n"` goes before the first import; every import past the anchor sorts strictly after T |
| `ImportPlanner.ImportSupplier.LocateNewImportEdit` | java-checks/src/main/java/org/sonar/java/checks/helpers/QuickFixHelper.java:209-243 | the scan returns the planned edit: none when no import is needed, else the placement above |
| `ImportPlanner.ImportSupplier.NewImportEdit` | java-checks/src/main/java/org/sonar/java/checks/helpers/QuickFixHelper.java:202-204 | returns the planned edit, returns the cached answer on a repeated query, and only adds that answer to the cache; nothing else changes |

## Left out

- Java strings are UTF-16: `compareTo`'s sign and value, string lengths and the column arithmetic of `contentForRange` (QuickFixHelper.java:112-113) agree with this model only on text without supplementary-plane characters, which Java stores as two code units.
- `newIssue`, `internalContext` and `newImportSupplier` (lines 56-62 and 151-153) are casts and a factory call into the reporting and scanner API. There is no logic to model; the `ImportSupplier` constructor takes the compilation unit directly.
- The file lines come from `JavaFileScannerContext.getFileLines()` in the source. Here they are a `seq<string>` parameter.
- `ExpressionsHelper.concatenate` is not part of this model. Package names and import names are given as strings on the compilation unit.
- `JavaTextEdit` is an anchor node plus the text. Resolving it to a line and column is not modelled.
- `String.format` is written as string concatenation.
- The `HashMap` cache is used by one thread only; concurrent access is not modelled.
- Exceptions are preconditions. `typeToPackageName` needs a `.` in the name. `contentForRange` needs line numbers and columns inside the file lines. `contentForTree` needs a subtree that has tokens. The token walks need a well-formed tree: the source fails or misbehaves when a node is missing from its parent's children.
- `ImportPlanner.SortByName`: proved sorted and a permutation of its input. It is not proved stable, although the insertion sort keeps equal names in their original order, as `Stream.sorted` does. This decides which of several identically named imports anchors an edit.
- Java `int` arithmetic on columns, and `endColumn + text.length()` overflowing, are not modelled. Integers are unbounded.
- Tree nodes are compared by index. This matches the source's reference `equals` on trees.
