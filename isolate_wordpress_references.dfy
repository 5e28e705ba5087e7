/**
 * `IsolateWordPressReferences::postAutoloadDump`, the Composer
 * `post-autoload-dump` action that lists the WordPress classes and functions
 * a project uses.
 *
 * After three guards (dev mode, the `CI` environment variable, the stubs
 * file being present) it walks the WordPress stubs with a
 * `ReferencesPopulator`, writes the raw lists to `wp-stubs.json`, walks every
 * project file with one `ReferencesCheckerPopulator`, and writes the
 * de-duplicated found lists to `wp-references.json`.
 *
 * The stubs and project files arrive already parsed, in the order Finder
 * yields them; what is written is returned as an `Outcome`.
 */
module IsolateWordPressReferences {
  import opened PhpBuiltins
  import opened PhpAst
  import opened IsolateReferences

  /** What the action reads from the Composer event and the environment:
      `isDevMode()`, `getenv('CI')` (`None` when unset) and whether
      `vendor/php-stubs/wordpress-stubs/wordpress-stubs.php` is a file. */
  datatype Environment = Environment(devMode: bool, ci: Option<string>, stubsFileExists: bool)

  /** PHP truthiness of `getenv('CI')`: unset, `""` and `"0"` are false. */
  predicate CiSet(ci: Option<string>) {
    ci.Some? && ci.value != "" && ci.value != "0"
  }

  /** Why the action returned early; each case is one console message. */
  datatype Skip = NotDevMode | DisabledByEnvironment | StubsMissing

  /** The three early returns, tested in source order. */
  function Guard(env: Environment): (r: Option<Skip>)
    ensures r.None? <==> env.devMode && !CiSet(env.ci) && env.stubsFileExists
    ensures r == Some(NotDevMode) <==> !env.devMode
    ensures r == Some(DisabledByEnvironment) <==> env.devMode && CiSet(env.ci)
    ensures r == Some(StubsMissing) <==> env.devMode && !CiSet(env.ci) && !env.stubsFileExists
  {
    if !env.devMode then Some(NotDevMode)
    else if CiSet(env.ci) then Some(DisabledByEnvironment)
    else if !env.stubsFileExists then Some(StubsMissing)
    else None
  }

  /** The result of one run: skipped, or the contents of `wp-stubs.json`
      and of `wp-references.json`. */
  datatype Outcome = Skipped(reason: Skip) | Written(stubs: Found, references: Found)

  /** `array_values(array_unique($list, SORT_STRING))` on both lists. */
  function Unique(f: Found): Found {
    Found(ArrayUnique(f.classes), ArrayUnique(f.functions))
  }

  /** What one `ReferencesCheckerPopulator` gathers over the project files,
      visited one after the other. */
  function FilesPass(refClasses: seq<string>, refFunctions: seq<string>, files: seq<seq<Node>>): Found {
    if files == [] then Nothing
    else FilesPass(refClasses, refFunctions, files[..|files| - 1])
           .Then(ProjectPass(refClasses, refFunctions, files[|files| - 1]))
  }

  /** What a run of the action writes. */
  function Isolate(env: Environment, stubs: seq<Node>, files: seq<seq<Node>>): Outcome {
    match Guard(env)
    case Some(reason) => Skipped(reason)
    case None =>
      var wp := StubsPass(stubs);
      Written(wp, Unique(FilesPass(wp.classes, wp.functions, files)))
  }

  /** The project pass: one `ReferencesCheckerPopulator`, with both found
      lists starting empty, walks every project file in turn. */
  method CheckProjectFiles(wpClasses: seq<string>, wpFunctions: seq<string>, files: seq<seq<Node>>)
    returns (found: Found)
    ensures found == FilesPass(wpClasses, wpFunctions, files)
  {
    var projectFilesVisitor := new ReferencesCheckerPopulator(wpClasses, wpFunctions, [], []);
    var i := 0;
    while i < |files|
      invariant 0 <= i <= |files|
      invariant projectFilesVisitor.classes == wpClasses && projectFilesVisitor.functions == wpFunctions
      invariant projectFilesVisitor.projectClasses == FilesPass(wpClasses, wpFunctions, files[..i]).classes
      invariant projectFilesVisitor.projectFunctions == FilesPass(wpClasses, wpFunctions, files[..i]).functions
    {
      assert files[..i + 1][..i] == files[..i];
      projectFilesVisitor.Traverse(files[i]);
      i := i + 1;
    }
    assert files[..i] == files;
    found := Found(projectFilesVisitor.projectClasses, projectFilesVisitor.projectFunctions);
  }

  /** The action itself: the guards, the stubs walk, one checker walk per
      project file, then de-duplication. */
  method PostAutoloadDump(env: Environment, stubs: seq<Node>, files: seq<seq<Node>>) returns (outcome: Outcome)
    ensures outcome == Isolate(env, stubs, files)
  {
    if !env.devMode {
      return Skipped(NotDevMode);
    }
    if CiSet(env.ci) {
      return Skipped(DisabledByEnvironment);
    }
    if !env.stubsFileExists {
      return Skipped(StubsMissing);
    }
    var wpStubsVisitor := new ReferencesPopulator([], []);
    wpStubsVisitor.Traverse(stubs);
    var wpClasses := wpStubsVisitor.classes;
    var wpFunctions := wpStubsVisitor.functions;
    assert Found(wpClasses, wpFunctions) == StubsPass(stubs);

    var found := CheckProjectFiles(wpClasses, wpFunctions, files);
    return Written(Found(wpClasses, wpFunctions), Unique(found));
  }

  lemma {:induction false} FilesPassClasses(refClasses: seq<string>, refFunctions: seq<string>,
                                            files: seq<seq<Node>>, x: string)
    ensures x in FilesPass(refClasses, refFunctions, files).classes <==>
            exists f :: 0 <= f < |files| && x in ProjectPass(refClasses, refFunctions, files[f]).classes
  {
    if files != [] {
      var init := files[..|files| - 1];
      FilesPassClasses(refClasses, refFunctions, init, x);
      if x in ProjectPass(refClasses, refFunctions, files[|files| - 1]).classes {
        assert 0 <= |files| - 1 < |files|;
      }
      forall f | 0 <= f < |init| ensures init[f] == files[f] {
      }
    }
  }

  lemma {:induction false} FilesPassFunctions(refClasses: seq<string>, refFunctions: seq<string>,
                                              files: seq<seq<Node>>, x: string)
    ensures x in FilesPass(refClasses, refFunctions, files).functions <==>
            exists f :: 0 <= f < |files| && x in ProjectPass(refClasses, refFunctions, files[f]).functions
  {
    if files != [] {
      var init := files[..|files| - 1];
      FilesPassFunctions(refClasses, refFunctions, init, x);
      if x in ProjectPass(refClasses, refFunctions, files[|files| - 1]).functions {
        assert 0 <= |files| - 1 < |files|;
      }
      forall f | 0 <= f < |init| ensures init[f] == files[f] {
      }
    }
  }

  /** A run writes exactly when the three guards pass, and then
      `wp-stubs.json` holds the stubs' declared names, raw: in stubs order
      and with any repetitions. */
  lemma WritesIffGuardsPass(env: Environment, stubs: seq<Node>, files: seq<seq<Node>>)
    ensures Isolate(env, stubs, files).Written? <==> env.devMode && !CiSet(env.ci) && env.stubsFileExists
    ensures Isolate(env, stubs, files).Written? ==> Isolate(env, stubs, files).stubs == StubsPass(stubs)
    ensures Isolate(env, stubs, files).Skipped? ==> Guard(env) == Some(Isolate(env, stubs, files).reason)
  {
  }

  /** A name is in the class list of `wp-stubs.json` exactly when the stubs
      declare a class of that name outside any class body. */
  lemma StubsManifest(env: Environment, stubs: seq<Node>, files: seq<seq<Node>>, name: string)
    requires Isolate(env, stubs, files).Written?
    ensures name in Isolate(env, stubs, files).stubs.classes <==> exists path :: DeclaresClassAt(stubs, path, name)
    ensures name in Isolate(env, stubs, files).stubs.functions <==> exists path :: DeclaresFunctionAt(stubs, path, name)
  {
    StubsPassClasses(stubs, name);
    StubsPassFunctions(stubs, name);
  }

  /** The class list of `wp-references.json` has no repetitions, and holds a
      string exactly when some project file uses it as a class (in a
      signature, `extends`, `new`, `instanceof` or a static call) and the
      stubs declare, outside any class body, a class whose name equals it
      ignoring case. */
  lemma ClassReferencesManifest(env: Environment, stubs: seq<Node>, files: seq<seq<Node>>, x: string)
    requires Isolate(env, stubs, files).Written?
    ensures NoDuplicates(Isolate(env, stubs, files).references.classes)
    ensures x in Isolate(env, stubs, files).references.classes <==>
            (exists f, path :: 0 <= f < |files| && OffersClassAt(files[f], path, x)) &&
            exists r, path :: DeclaresClassAt(stubs, path, r) && SameIgnoringCase(x, r)
  {
    var wp := StubsPass(stubs);
    var found := FilesPass(wp.classes, wp.functions, files);
    ArrayUniqueSpec(found.classes);
    FilesPassClasses(wp.classes, wp.functions, files, x);
    if x in found.classes {
      var f :| 0 <= f < |files| && x in ProjectPass(wp.classes, wp.functions, files[f]).classes;
      ProjectPassClasses(wp.classes, wp.functions, files[f], x);
      var path :| OffersClassAt(files[f], path, x);
      var r :| r in wp.classes && SameIgnoringCase(x, r);
      StubsPassClasses(stubs, r);
      var rpath :| DeclaresClassAt(stubs, rpath, r);
    }
    if (exists f, path :: 0 <= f < |files| && OffersClassAt(files[f], path, x)) &&
       exists r, path :: DeclaresClassAt(stubs, path, r) && SameIgnoringCase(x, r) {
      var f, path :| 0 <= f < |files| && OffersClassAt(files[f], path, x);
      var r, rpath :| DeclaresClassAt(stubs, rpath, r) && SameIgnoringCase(x, r);
      StubsPassClasses(stubs, r);
      ProjectPassClasses(wp.classes, wp.functions, files[f], x);
    }
  }

  /** The function list of `wp-references.json` has no repetitions, and
      holds a string exactly when some project file calls a function by that
      name and the stubs declare, outside any class body, a function whose
      name equals it ignoring case. */
  lemma FunctionReferencesManifest(env: Environment, stubs: seq<Node>, files: seq<seq<Node>>, x: string)
    requires Isolate(env, stubs, files).Written?
    ensures NoDuplicates(Isolate(env, stubs, files).references.functions)
    ensures x in Isolate(env, stubs, files).references.functions <==>
            (exists f, path :: 0 <= f < |files| && OffersFunctionAt(files[f], path, x)) &&
            exists r, path :: DeclaresFunctionAt(stubs, path, r) && SameIgnoringCase(x, r)
  {
    var wp := StubsPass(stubs);
    var found := FilesPass(wp.classes, wp.functions, files);
    ArrayUniqueSpec(found.functions);
    FilesPassFunctions(wp.classes, wp.functions, files, x);
    if x in found.functions {
      var f :| 0 <= f < |files| && x in ProjectPass(wp.classes, wp.functions, files[f]).functions;
      ProjectPassFunctions(wp.classes, wp.functions, files[f], x);
      var path :| OffersFunctionAt(files[f], path, x);
      var r :| r in wp.functions && SameIgnoringCase(x, r);
      StubsPassFunctions(stubs, r);
      var rpath :| DeclaresFunctionAt(stubs, rpath, r);
    }
    if (exists f, path :: 0 <= f < |files| && OffersFunctionAt(files[f], path, x)) &&
       exists r, path :: DeclaresFunctionAt(stubs, path, r) && SameIgnoringCase(x, r) {
      var f, path :| 0 <= f < |files| && OffersFunctionAt(files[f], path, x);
      var r, rpath :| DeclaresFunctionAt(stubs, rpath, r) && SameIgnoringCase(x, r);
      StubsPassFunctions(stubs, r);
      ProjectPassFunctions(wp.classes, wp.functions, files[f], x);
    }
  }
}
