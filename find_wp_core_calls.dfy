/**
 * `FindWPCoreCalls::postAutoloadDump`, the newer copy of the WordPress
 * reference scan. Its guards are those of `IsolateWordPressReferences`, and
 * its two visitors (`_stubsNodeVisitor`, `_projectNodeVisitor`) and their
 * `type_to_string_array` have the same statements as `ReferencesPopulator`
 * and `ReferencesCheckerPopulator`, so they are the classes of
 * `IsolateReferences` here, with a name's first part read as PHP-Parser 4
 * reads it. It writes `wp-references.json` only, not `wp-stubs.json`.
 *
 * As written, the action hands variables it never assigned
 * (`$wp_classes`, `$wp_functions`, then `$project_wp_classes`,
 * `$project_wp_functions`) to constructors whose parameters are declared
 * `array &$x`. Passing an unassigned variable by reference creates it as
 * `null`, and `null` is not an `array`, so the first constructor call raises a
 * `TypeError` whenever the guards pass. `PostAutoloadDumpAsWritten` models
 * that; `PostAutoloadDump` is the action with the four lists starting as
 * `array()`, as in `IsolateWordPressReferences`.
 */
module FindWPCoreCalls {
  import opened PhpBuiltins
  import opened PhpAst
  import opened IsolateReferences
  import Isolate = IsolateWordPressReferences

  /** A PHP local at a call site: never assigned, or holding a list. */
  datatype PhpVar = Unassigned | ArrayValue(items: seq<string>)

  /** Binding a local to a parameter declared `array &$x`: an unassigned
      local becomes `null`, which the `array` type rejects. */
  datatype Binding = Bound(items: seq<string>) | TypeError

  function BindArrayByReference(v: PhpVar): (r: Binding)
    ensures r.TypeError? <==> v.Unassigned?
    ensures v.ArrayValue? ==> r == Bound(v.items)
  {
    match v
    case Unassigned => TypeError
    case ArrayValue(items) => Bound(items)
  }

  /** The result of one run: skipped, an uncaught `TypeError` thrown by the
      constructor of the named visitor, or the contents of
      `wp-references.json`. */
  datatype Outcome = Skipped(reason: Isolate.Skip) | Thrown(visitor: string) | Written(references: Found)

  /** The action, given what the four locals hold when they are handed to
      the visitors' constructors: the guards, the stubs walk appending to
      `$wp_classes`/`$wp_functions`, the project walk appending to
      `$project_wp_classes`/`$project_wp_functions`, then de-duplication. */
  function Run(env: Isolate.Environment, wpClasses: PhpVar, wpFunctions: PhpVar,
               projectClasses: PhpVar, projectFunctions: PhpVar,
               stubs: seq<Node>, files: seq<seq<Node>>): Outcome {
    match Isolate.Guard(env)
    case Some(reason) => Skipped(reason)
    case None =>
      match (BindArrayByReference(wpClasses), BindArrayByReference(wpFunctions))
      case (Bound(c), Bound(f)) =>
        var wp := Found(c, f).Then(StubsPass(stubs));
        (match (BindArrayByReference(projectClasses), BindArrayByReference(projectFunctions))
         case (Bound(pc), Bound(pf)) =>
           Written(Isolate.Unique(Found(pc, pf).Then(Isolate.FilesPass(wp.classes, wp.functions, files))))
         case _ => Thrown("_projectNodeVisitor"))
      case _ => Thrown("_stubsNodeVisitor")
  }

  /** Where a run ends, whatever the four locals hold: the guards decide a
      skip; past them, the stubs visitor's constructor throws when either of
      its lists is unassigned, the project visitor's constructor throws when
      the stubs lists are bound and either project list is unassigned, and
      the action writes only when all four are bound. */
  lemma RunEnds(env: Isolate.Environment, wpClasses: PhpVar, wpFunctions: PhpVar,
                projectClasses: PhpVar, projectFunctions: PhpVar,
                stubs: seq<Node>, files: seq<seq<Node>>)
    ensures Run(env, wpClasses, wpFunctions, projectClasses, projectFunctions, stubs, files).Skipped?
            <==> Isolate.Guard(env).Some?
    ensures Run(env, wpClasses, wpFunctions, projectClasses, projectFunctions, stubs, files) == Thrown("_stubsNodeVisitor")
            <==> Isolate.Guard(env).None? && (wpClasses.Unassigned? || wpFunctions.Unassigned?)
    ensures Run(env, wpClasses, wpFunctions, projectClasses, projectFunctions, stubs, files) == Thrown("_projectNodeVisitor")
            <==> Isolate.Guard(env).None? && wpClasses.ArrayValue? && wpFunctions.ArrayValue?
                 && (projectClasses.Unassigned? || projectFunctions.Unassigned?)
    ensures Run(env, wpClasses, wpFunctions, projectClasses, projectFunctions, stubs, files).Written?
            <==> Isolate.Guard(env).None? && wpClasses.ArrayValue? && wpFunctions.ArrayValue?
                 && projectClasses.ArrayValue? && projectFunctions.ArrayValue?
  {
  }

  /** The action as written: none of the four locals is assigned before
      the constructor calls. */
  function PostAutoloadDumpAsWritten(env: Isolate.Environment, stubs: seq<Node>, files: seq<seq<Node>>): Outcome {
    Run(env, Unassigned, Unassigned, Unassigned, Unassigned, stubs, files)
  }

  /** The action as intended: the four locals start as `array()`. */
  function FindCoreCalls(env: Isolate.Environment, stubs: seq<Node>, files: seq<seq<Node>>): Outcome {
    Run(env, ArrayValue([]), ArrayValue([]), ArrayValue([]), ArrayValue([]), stubs, files)
  }

  /** As written, the action never writes anything: it returns early, or it
      dies at the first visitor's constructor exactly when the guards pass. */
  lemma AsWrittenNeverWrites(env: Isolate.Environment, stubs: seq<Node>, files: seq<seq<Node>>)
    ensures !PostAutoloadDumpAsWritten(env, stubs, files).Written?
    ensures PostAutoloadDumpAsWritten(env, stubs, files) == Thrown("_stubsNodeVisitor")
            <==> env.devMode && !Isolate.CiSet(env.ci) && env.stubsFileExists
  {
  }

  /** A concrete run: in dev mode, with `CI` unset and the stubs installed,
      the as-written action throws even for an empty stubs file and no
      project files, where the intended action writes empty lists. */
  lemma AsWrittenThrowsOnEmptyProject()
    ensures PostAutoloadDumpAsWritten(Isolate.Environment(true, None, true), [], []) == Thrown("_stubsNodeVisitor")
    ensures FindCoreCalls(Isolate.Environment(true, None, true), [], []) == Written(Found([], []))
  {
    assert StubsPass([]) == Nothing;
    assert Isolate.FilesPass([], [], []) == Nothing;
    assert ArrayUnique([]) == [];
  }

  /** The corrected action: the four lists start empty. */
  method PostAutoloadDump(env: Isolate.Environment, stubs: seq<Node>, files: seq<seq<Node>>) returns (outcome: Outcome)
    ensures outcome == FindCoreCalls(env, stubs, files)
  {
    if !env.devMode {
      return Skipped(Isolate.NotDevMode);
    }
    if Isolate.CiSet(env.ci) {
      return Skipped(Isolate.DisabledByEnvironment);
    }
    if !env.stubsFileExists {
      return Skipped(Isolate.StubsMissing);
    }
    var wpStubsVisitor := new ReferencesPopulator([], []);
    wpStubsVisitor.Traverse(stubs);
    var wpClasses := wpStubsVisitor.classes;
    var wpFunctions := wpStubsVisitor.functions;
    assert Found([], []).Then(StubsPass(stubs)) == Found(wpClasses, wpFunctions);

    var found := Isolate.CheckProjectFiles(wpClasses, wpFunctions, files);
    assert Found([], []).Then(found) == found;
    return Written(Isolate.Unique(found));
  }

  /** The corrected action skips for the same reasons as
      `IsolateWordPressReferences` and otherwise writes the same
      `wp-references.json`. */
  lemma SameReferencesAsIsolate(env: Isolate.Environment, stubs: seq<Node>, files: seq<seq<Node>>)
    ensures FindCoreCalls(env, stubs, files).Skipped? <==> Isolate.Isolate(env, stubs, files).Skipped?
    ensures FindCoreCalls(env, stubs, files).Skipped? ==>
              FindCoreCalls(env, stubs, files).reason == Isolate.Isolate(env, stubs, files).reason
    ensures !FindCoreCalls(env, stubs, files).Thrown?
    ensures FindCoreCalls(env, stubs, files).Written? ==>
              FindCoreCalls(env, stubs, files).references == Isolate.Isolate(env, stubs, files).references
  {
    if Isolate.Guard(env).None? {
      var wp := StubsPass(stubs);
      assert Found([], []).Then(wp) == wp;
      var found := Isolate.FilesPass(wp.classes, wp.functions, files);
      assert Found([], []).Then(found) == found;
      assert FindCoreCalls(env, stubs, files) == Written(Isolate.Unique(found));
      assert Isolate.Isolate(env, stubs, files) == Isolate.Written(wp, Isolate.Unique(found));
    }
  }
}
