/**
 * QuickFixHelper.ImportSupplier: decides whether a quick fix that refers to
 * a type needs a new import in the file, and if so where the import goes
 * and what text to insert. Tree nodes are referred to by their index.
 */
module ImportPlanner {
  import opened Wrappers
  import opened JavaStrings

  /** An entry of the import list: an import declaration, or a stray ';' (kind EMPTY_STATEMENT). */
  datatype ImportClause =
    | Import(tree: nat, isStatic: bool, qualifiedName: string)
    | EmptyImport(tree: nat)

  datatype PackageDeclaration = PackageDeclaration(tree: nat, packageName: string)

  /** The parts of a compilation unit the supplier looks at; `types` are the top-level type nodes. */
  datatype CompilationUnit = CompilationUnit(
    packageDeclaration: Option<PackageDeclaration>,
    imports: seq<ImportClause>,
    types: seq<nat>)

  /** A non-static import with its full name. */
  datatype ImportWithName = ImportWithName(importName: string, tree: nat)

  /** JavaTextEdit.insertAfterTree / insertBeforeTree: text anchored to a tree node. */
  datatype TextEdit = InsertAfter(anchor: nat, text: string) | InsertBefore(anchor: nat, text: string)

  function PackageNameOf(cut: CompilationUnit): Option<string> {
    match cut.packageDeclaration
    case None => None
    case Some(d) => Some(d.packageName)
  }

  /** The names of the non-static imports of a compilation unit. */
  ghost function ImportedNames(cut: CompilationUnit): set<string> {
    set c | c in cut.imports && c.Import? && !c.isStatic :: c.qualifiedName
  }

  /** ImportWithName.COMPARATOR: imports ordered by the compareTo of their names. */
  function CompareImports(i1: ImportWithName, i2: ImportWithName): int {
    CompareTo(i1.importName, i2.importName)
  }

  /** The comparator is a total preorder, so sorting by it is well defined. */
  lemma ComparatorIsTotalPreorder(a: ImportWithName, b: ImportWithName, c: ImportWithName)
    ensures CompareImports(a, b) <= 0 || CompareImports(b, a) <= 0
    ensures CompareImports(a, b) <= 0 && CompareImports(b, c) <= 0 ==> CompareImports(a, c) <= 0
  {
    CompareToAntisymmetric(a.importName, b.importName);
    if CompareImports(a, b) <= 0 && CompareImports(b, c) <= 0 {
      CompareToTransitive(a.importName, b.importName, c.importName);
    }
  }

  ghost predicate SortedByName(s: seq<ImportWithName>) {
    forall i, j | 0 <= i < j < |s| :: CompareImports(s[i], s[j]) <= 0
  }

  function Names(s: seq<ImportWithName>): set<string> {
    set w | w in s :: w.importName
  }

  /** The filter of the constructor: keep the non-static IMPORT clauses, with their names. */
  function NonStaticImports(clauses: seq<ImportClause>): (r: seq<ImportWithName>)
    ensures forall w :: w in r <==> Import(w.tree, false, w.importName) in clauses
  {
    if clauses == [] then []
    else
      var c := clauses[0];
      assert clauses == [c] + clauses[1..];
      (if c.Import? && !c.isStatic then [ImportWithName(c.qualifiedName, c.tree)] else [])
      + NonStaticImports(clauses[1..])
  }

  lemma NamesOfNonStaticImports(cut: CompilationUnit)
    ensures Names(NonStaticImports(cut.imports)) == ImportedNames(cut)
  {
    var s := NonStaticImports(cut.imports);
    forall x | x in ImportedNames(cut) ensures x in Names(s) {
      var c :| c in cut.imports && c.Import? && !c.isStatic && c.qualifiedName == x;
      assert ImportWithName(x, c.tree) in s;
    }
  }

  /** Inserts `w` into a list after every entry that does not sort after it. */
  function InsertByName(w: ImportWithName, s: seq<ImportWithName>): (r: seq<ImportWithName>)
    ensures multiset(r) == multiset(s) + multiset{w}
  {
    if s == [] then [w]
    else if CompareImports(s[0], w) <= 0 then
      assert s == [s[0]] + s[1..];
      [s[0]] + InsertByName(w, s[1..])
    else [w] + s
  }

  lemma {:induction false} InsertByNameSorted(w: ImportWithName, s: seq<ImportWithName>)
    requires SortedByName(s)
    ensures SortedByName(InsertByName(w, s))
  {
    if s == [] {
    } else if CompareImports(s[0], w) <= 0 {
      var rest := InsertByName(w, s[1..]);
      InsertByNameSorted(w, s[1..]);
      forall j | 0 <= j < |rest| ensures CompareImports(s[0], rest[j]) <= 0 {
        assert rest[j] in multiset(rest);
        if rest[j] != w {
          assert rest[j] in multiset(s[1..]);
        }
      }
    } else {
      CompareToAntisymmetric(s[0].importName, w.importName);
      forall j | 0 < j < |s| ensures CompareImports(w, s[j]) <= 0 {
        ComparatorIsTotalPreorder(w, s[0], s[j]);
      }
    }
  }

  /** Stream.sorted(COMPARATOR), as an insertion sort. */
  function SortByName(s: seq<ImportWithName>): (r: seq<ImportWithName>)
    ensures multiset(r) == multiset(s)
  {
    if s == [] then []
    else
      assert s == s[..|s| - 1] + [s[|s| - 1]];
      InsertByName(s[|s| - 1], SortByName(s[..|s| - 1]))
  }

  /** The sorted import list is in ascending order of names. */
  lemma {:induction false} SortByNameSorted(s: seq<ImportWithName>)
    ensures SortedByName(SortByName(s))
  {
    if s != [] {
      SortByNameSorted(s[..|s| - 1]);
      InsertByNameSorted(s[|s| - 1], SortByName(s[..|s| - 1]));
    }
  }

  /** The names of the imports that are not wildcards (the importedTypes set). */
  function ExactNames(s: seq<ImportWithName>): set<string> {
    if s == [] then {}
    else
      var w := s[|s| - 1];
      ExactNames(s[..|s| - 1]) + (if EndsWithStar(w.importName) then {} else {w.importName})
  }

  /** The packages of the wildcard imports (the starImportPackages set). */
  function StarPackages(s: seq<ImportWithName>): set<string> {
    if s == [] then {}
    else
      var w := s[|s| - 1];
      StarPackages(s[..|s| - 1])
      + (if EndsWithStar(w.importName) then StarNameSplits(w.importName); {PackageOf(w.importName)} else {})
  }

  /** An exactly imported type is an import name that is not a wildcard. */
  lemma {:induction false} ExactNamesMembers(s: seq<ImportWithName>, x: string)
    ensures x in ExactNames(s) <==> x in Names(s) && !EndsWithStar(x)
  {
    if s != [] {
      var init := s[..|s| - 1];
      assert s == init + [s[|s| - 1]];
      assert Names(s) == Names(init) + {s[|s| - 1].importName};
      ExactNamesMembers(init, x);
    }
  }

  /** A star-imported package is one whose `.*` import is in the list. */
  lemma {:induction false} StarPackagesMembers(s: seq<ImportWithName>, p: string)
    ensures p in StarPackages(s) <==> p + ".*" in Names(s)
  {
    if s != [] {
      var init := s[..|s| - 1];
      var w := s[|s| - 1];
      assert s == init + [w];
      assert Names(s) == Names(init) + {w.importName};
      StarPackagesMembers(init, p);
      PackageOfStarName(p);
      if EndsWithStar(w.importName) {
        StarNameSplits(w.importName);
      }
    }
  }

  /**
   * The position the placement loop stops at: the number of leading imports
   * whose names sort strictly before `requiredType`.
   */
  function InsertionIndex(s: seq<ImportWithName>, requiredType: string): (k: nat)
    ensures k <= |s|
    ensures forall i :: 0 <= i < k ==> CompareTo(requiredType, s[i].importName) > 0
    ensures k < |s| ==> CompareTo(requiredType, s[k].importName) <= 0
  {
    if s == [] || CompareTo(requiredType, s[0].importName) <= 0 then 0
    else 1 + InsertionIndex(s[1..], requiredType)
  }

  /** Placing a new import at the insertion index keeps a sorted list sorted. */
  lemma InsertionKeepsOrder(s: seq<ImportWithName>, w: ImportWithName)
    requires SortedByName(s)
    ensures var k := InsertionIndex(s, w.importName);
      SortedByName(s[..k] + [w] + s[k..])
  {
    var k := InsertionIndex(s, w.importName);
    var r := s[..k] + [w] + s[k..];
    forall i, j | 0 <= i < j < |r| ensures CompareImports(r[i], r[j]) <= 0 {
      if j < k || i > k {
        assert CompareImports(r[i], r[j]) == CompareImports(s[if i < k then i else i - 1], s[j - 1]) || j < k;
      } else if i == k {
        ComparatorIsTotalPreorder(w, s[k], s[j - 1]);
      } else if j == k {
        CompareToAntisymmetric(w.importName, s[i].importName);
      } else {
        CompareToAntisymmetric(w.importName, s[i].importName);
        ComparatorIsTotalPreorder(s[i], w, s[j - 1]);
      }
    }
  }

  /**
   * With imports `a.B` and `c.D`, a new `b.X` goes between them and `z.Y`
   * after `c.D`. So does `aa.A`: compareTo puts '.' (46) before 'a' (97),
   * so `a.B` sorts before `aa.A`.
   */
  lemma InsertionIndexExamples()
    ensures var s := [ImportWithName("a.B", 1), ImportWithName("c.D", 2)];
      && InsertionIndex(s, "b.X") == 1
      && InsertionIndex(s, "z.Y") == 2
      && InsertionIndex(s, "aa.A") == 1
  {
    assert CompareTo("b.X", "a.B") == 1 && CompareTo("b.X", "c.D") == -1;
    assert CompareTo("z.Y", "a.B") == 25 && CompareTo("z.Y", "c.D") == 23;
    assert CompareTo("aa.A", "a.B") == 51 && CompareTo("aa.A", "c.D") == -2;
  }

  /**
   * In a sorted list that does not hold `requiredType`, the insertion index
   * splits the names into those strictly before it and those strictly after.
   */
  lemma InsertionIndexSeparates(s: seq<ImportWithName>, requiredType: string)
    requires SortedByName(s) && requiredType !in Names(s)
    ensures var k := InsertionIndex(s, requiredType);
      && (forall i :: 0 <= i < k ==> CompareTo(s[i].importName, requiredType) < 0)
      && (forall i :: k <= i < |s| ==> CompareTo(requiredType, s[i].importName) < 0)
  {
    var k := InsertionIndex(s, requiredType);
    forall i | 0 <= i < k ensures CompareTo(s[i].importName, requiredType) < 0 {
      CompareToAntisymmetric(s[i].importName, requiredType);
    }
    forall i | k <= i < |s| ensures CompareTo(requiredType, s[i].importName) < 0 {
      assert s[i].importName in Names(s);
      ComparatorIsTotalPreorder(ImportWithName(requiredType, 0), s[k], s[i]);
    }
  }

  /**
   * The forEach of the constructor: files each sorted import under the
   * exactly imported types or, for a wildcard, under the star-imported
   * packages.
   */
  method IndexImports(sorted: seq<ImportWithName>) returns (importedTypes: set<string>, starImportPackages: set<string>)
    ensures importedTypes == ExactNames(sorted)
    ensures starImportPackages == StarPackages(sorted)
  {
    importedTypes, starImportPackages := {}, {};
    for i := 0 to |sorted|
      invariant importedTypes == ExactNames(sorted[..i])
      invariant starImportPackages == StarPackages(sorted[..i])
    {
      var w := sorted[i];
      ghost var prefix := sorted[..i + 1];
      assert prefix[..|prefix| - 1] == sorted[..i] && prefix[|prefix| - 1] == w;
      if EndsWithStar(w.importName) {
        StarNameSplits(w.importName);
        starImportPackages := starImportPackages + {PackageOf(w.importName)};
      } else {
        importedTypes := importedTypes + {w.importName};
      }
    }
    assert sorted[..|sorted|] == sorted;
  }

  /**
   * The import planner of one compilation unit. The final fields of the
   * source are constants; only the cache of answers changes.
   */
  class ImportSupplier {
    /** The compilation unit the supplier was built from. */
    ghost const unit: CompilationUnit

    const packageDeclaration: Option<nat>
    const packageName: Option<string>
    const firstType: Option<nat>
    const sortedNonStaticImports: seq<ImportWithName>
    const importedTypes: set<string>
    const starImportPackages: set<string>

    var cachedResults: map<string, Option<TextEdit>>

    /** The fields are the index the constructor builds from `unit`. */
    ghost predicate Valid() {
      && packageDeclaration == (match unit.packageDeclaration case None => None case Some(d) => Some(d.tree))
      && packageName == PackageNameOf(unit)
      && firstType == (if |unit.types| == 0 then None else Some(unit.types[0]))
      && SortedByName(sortedNonStaticImports)
      && multiset(sortedNonStaticImports) == multiset(NonStaticImports(unit.imports))
      && importedTypes == ExactNames(sortedNonStaticImports)
      && starImportPackages == StarPackages(sortedNonStaticImports)
    }

    /** Every cached answer is the answer the planner computes. */
    ghost predicate CacheConsistent()
      reads this
    {
      && Valid()
      && forall t | t in cachedResults :: Queryable(t) && cachedResults[t] == ImportEditFor(t)
    }

    constructor (cut: CompilationUnit)
      ensures unit == cut && Valid()
      ensures cachedResults == map[]
      ensures CacheConsistent()
    {
      unit := cut;
      packageDeclaration := match cut.packageDeclaration case None => None case Some(d) => Some(d.tree);
      packageName := PackageNameOf(cut);
      firstType := if |cut.types| == 0 then None else Some(cut.types[0]);
      var sorted := SortByName(NonStaticImports(cut.imports));
      SortByNameSorted(NonStaticImports(cut.imports));
      var exact, stars := IndexImports(sorted);
      sortedNonStaticImports := sorted;
      importedTypes := exact;
      starImportPackages := stars;
      cachedResults := map[];
    }

    /**
     * The names requiresImportOf accepts without throwing: an exactly
     * imported name, or one with a '.' to cut the package from.
     */
    predicate Queryable(requiredType: string) {
      requiredType in importedTypes || '.' in requiredType
    }

    /** The sorted list holds exactly the names of the non-static imports of the unit. */
    lemma SortedNamesAreImportedNames()
      requires Valid()
      ensures Names(sortedNonStaticImports) == ImportedNames(unit)
    {
      var s := sortedNonStaticImports;
      var u := NonStaticImports(unit.imports);
      NamesOfNonStaticImports(unit);
      forall x ensures x in Names(s) <==> x in Names(u) {
        if x in Names(s) {
          var w :| w in s && w.importName == x;
          assert w in multiset(s);
        }
        if x in Names(u) {
          var w :| w in u && w.importName == x;
          assert w in multiset(u);
        }
      }
    }

    /** What the index fields say about the imports of the unit. */
    lemma IndexMeaning(requiredType: string)
      requires Valid()
      ensures requiredType in importedTypes <==>
        requiredType in ImportedNames(unit) && !EndsWithStar(requiredType)
      ensures '.' in requiredType ==>
        (PackageOf(requiredType) in starImportPackages <==> PackageOf(requiredType) + ".*" in ImportedNames(unit))
      ensures EndsWithStar(requiredType) ==> '.' in requiredType && PackageOf(requiredType) + ".*" == requiredType
    {
      var s := sortedNonStaticImports;
      SortedNamesAreImportedNames();
      ExactNamesMembers(s, requiredType);
      if '.' in requiredType {
        StarPackagesMembers(s, PackageOf(requiredType));
      }
      if EndsWithStar(requiredType) {
        StarNameSplits(requiredType);
      }
    }

    /**
     * requiresImportOf: no import is needed exactly when the type is
     * imported by name, its package is imported with a wildcard, or it
     * lies in the file's own package.
     */
    function RequiresImportOf(requiredType: string): (r: bool)
      requires Valid() && Queryable(requiredType)
      ensures !r <==>
        || requiredType in ImportedNames(unit)
        || ('.' in requiredType &&
             (|| PackageOf(requiredType) + ".*" in ImportedNames(unit)
              || PackageNameOf(unit) == Some(PackageOf(requiredType))))
    {
      IndexMeaning(requiredType);
      if requiredType in importedTypes then false
      else
        var requiredPackage := PackageOf(requiredType);
        if requiredPackage in starImportPackages then false
        else packageName != Some(requiredPackage)
    }

    /** The answer locateNewImportEdit computes. */
    function ImportEditFor(requiredType: string): Option<TextEdit>
      requires Valid() && Queryable(requiredType)
    {
      if !RequiresImportOf(requiredType) then None
      else if |sortedNonStaticImports| == 0 then
        if packageDeclaration.Some? then
          Some(InsertAfter(packageDeclaration.value, "\n\nimport " + requiredType + ";"))
        else if firstType.Some? then
          Some(InsertBefore(firstType.value, "import " + requiredType + ";\n\n"))
        else None
      else
        var k := InsertionIndex(sortedNonStaticImports, requiredType);
        if k > 0 then Some(InsertAfter(sortedNonStaticImports[k - 1].tree, "\nimport " + requiredType + ";"))
        else Some(InsertBefore(sortedNonStaticImports[0].tree, "import " + requiredType + ";\n"))
    }

    /**
     * In a file without non-static imports the new import goes two lines
     * after the package declaration, else two lines before the first type,
     * else nowhere.
     */
    lemma ImportEditWithoutImports(requiredType: string)
      requires Valid() && Queryable(requiredType) && RequiresImportOf(requiredType)
      requires ImportedNames(unit) == {}
      ensures unit.packageDeclaration.Some? ==>
        ImportEditFor(requiredType) == Some(InsertAfter(unit.packageDeclaration.value.tree, "\n\nimport " + requiredType + ";"))
      ensures unit.packageDeclaration.None? && |unit.types| > 0 ==>
        ImportEditFor(requiredType) == Some(InsertBefore(unit.types[0], "import " + requiredType + ";\n\n"))
      ensures unit.packageDeclaration.None? && |unit.types| == 0 ==> ImportEditFor(requiredType) == None
    {
      SortedNamesAreImportedNames();
      assert forall w | w in sortedNonStaticImports :: w.importName in Names(sortedNonStaticImports);
    }

    /**
     * With imports present, the new import is anchored at the last import
     * that sorts strictly before it (after it), or at the first import
     * (before it): every import before the anchor point sorts before the
     * new one and every import after it sorts after, so the list stays
     * sorted.
     */
    lemma ImportEditAmongImports(requiredType: string)
      requires Valid() && Queryable(requiredType) && RequiresImportOf(requiredType)
      requires |sortedNonStaticImports| > 0
      ensures var s := sortedNonStaticImports;
        var k := InsertionIndex(s, requiredType);
        && (forall i :: 0 <= i < k ==> CompareTo(s[i].importName, requiredType) < 0)
        && (forall i :: k <= i < |s| ==> CompareTo(requiredType, s[i].importName) < 0)
        && ImportEditFor(requiredType) ==
             if k > 0 then Some(InsertAfter(s[k - 1].tree, "\nimport " + requiredType + ";"))
             else Some(InsertBefore(s[0].tree, "import " + requiredType + ";\n"))
    {
      SortedNamesAreImportedNames();
      InsertionIndexSeparates(sortedNonStaticImports, requiredType);
    }

    /** locateNewImportEdit, with its scan of the sorted imports. */
    method LocateNewImportEdit(requiredType: string) returns (edit: Option<TextEdit>)
      requires Valid() && Queryable(requiredType)
      ensures edit == ImportEditFor(requiredType)
    {
      if !RequiresImportOf(requiredType) {
        return None;
      }
      if |sortedNonStaticImports| == 0 {
        if packageDeclaration.Some? {
          return Some(InsertAfter(packageDeclaration.value, "\n\nimport " + requiredType + ";"));
        }
        if firstType.Some? {
          return Some(InsertBefore(firstType.value, "import " + requiredType + ";\n\n"));
        }
        return None;
      }
      var lastCheckedImport: Option<nat> := None;
      var i := 0;
      while i < |sortedNonStaticImports|
        invariant 0 <= i <= |sortedNonStaticImports|
        invariant forall j :: 0 <= j < i ==> CompareTo(requiredType, sortedNonStaticImports[j].importName) > 0
        invariant lastCheckedImport == if i == 0 then None else Some(sortedNonStaticImports[i - 1].tree)
      {
        if CompareTo(requiredType, sortedNonStaticImports[i].importName) <= 0 {
          break;
        }
        lastCheckedImport := Some(sortedNonStaticImports[i].tree);
        i := i + 1;
      }
      InsertionIndexUnique(sortedNonStaticImports, requiredType, i);
      if lastCheckedImport.Some? {
        return Some(InsertAfter(lastCheckedImport.value, "\nimport " + requiredType + ";"));
      }
      return Some(InsertBefore(sortedNonStaticImports[0].tree, "import " + requiredType + ";\n"));
    }

    /**
     * newImportEdit: the answer for a type is computed on its first query
     * and served from the cache afterwards, so repeated queries agree.
     */
    method NewImportEdit(requiredType: string) returns (edit: Option<TextEdit>)
      requires CacheConsistent() && Queryable(requiredType)
      modifies this
      ensures CacheConsistent()
      ensures edit == ImportEditFor(requiredType)
      ensures requiredType in old(cachedResults) ==> edit == old(cachedResults)[requiredType]
      ensures cachedResults == old(cachedResults)[requiredType := edit]
    {
      if requiredType in cachedResults {
        edit := cachedResults[requiredType];
      } else {
        edit := LocateNewImportEdit(requiredType);
        cachedResults := cachedResults[requiredType := edit];
      }
    }
  }

  /** The insertion index is the only position with smaller names before it and a name not smaller at it. */
  lemma InsertionIndexUnique(s: seq<ImportWithName>, requiredType: string, k: nat)
    requires k <= |s|
    requires forall i :: 0 <= i < k ==> CompareTo(requiredType, s[i].importName) > 0
    requires k < |s| ==> CompareTo(requiredType, s[k].importName) <= 0
    ensures k == InsertionIndex(s, requiredType)
  {
  }
}
