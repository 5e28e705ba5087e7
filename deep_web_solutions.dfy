/**
 * The php-scoper configuration for the Deep Web Solutions framework
 * components (`deep-web-solutions.inc.php`):
 *
 * - the framework components installed under the vendor directory;
 * - the WordPress classes and functions listed by the components' own
 *   reference manifests, merged and de-duplicated;
 * - one Finder per installed component;
 * - a patcher that takes the scoping prefix back off every reference to a
 *   WordPress function or class, and drops `use` lines importing a
 *   prefixed WordPress class.
 *
 * The file system is a set of existing directories, `getenv('dws_vendorDir')`
 * is a string (empty when unset), and the reference manifests arrive already
 * decoded, in Finder order.
 */
module DeepWebSolutionsScoper {
  import opened PhpBuiltins
  import opened IsolateReferences

  /** `$dws_framework_component_files` */
  const ComponentFiles: seq<string> := ["*.php", "LICENSE", "composer.json", "*.pot", "*.po", "*.mo", "*.svg"]

  /** `$dws_framework_components` */
  const Components: seq<string> := [
    "wp-framework-bootstrapper", "wp-framework-helpers", "wp-framework-foundations",
    "wp-framework-utilities", "wp-framework-core", "wp-framework-settings",
    "wp-framework-woocommerce"
  ]

  // ---------------------------------------------------------------------------
  // Installed components
  // ---------------------------------------------------------------------------

  /** The directory whose presence keeps a component. */
  function ComponentDir(vendorDir: string, component: string): string {
    vendorDir + "/deep-web-solutions/" + component
  }

  /** The components, in their listed order, whose directory exists. */
  function Installed(components: seq<string>, vendorDir: string, dirs: set<string>): seq<string> {
    if components == [] then []
    else
      var last := components[|components| - 1];
      Installed(components[..|components| - 1], vendorDir, dirs)
      + (if ComponentDir(vendorDir, last) in dirs then [last] else [])
  }

  /** The `foreach`/`unset` loop: drops every component whose directory is
      missing, keeping the others in order. */
  method KeepInstalled(vendorDir: string, dirs: set<string>) returns (kept: seq<string>)
    ensures kept == Installed(Components, vendorDir, dirs)
  {
    kept := [];
    var i := 0;
    while i < |Components|
      invariant 0 <= i <= |Components|
      invariant kept == Installed(Components[..i], vendorDir, dirs)
    {
      var component := Components[i];
      if ComponentDir(vendorDir, component) in dirs {
        kept := kept + [component];
      }
      assert Components[..i + 1][..i] == Components[..i];
      i := i + 1;
    }
    assert Components[..i] == Components;
  }

  /** A component is kept exactly when it is listed and its directory
      exists; the kept list has no repetitions when the list has none, as
      the framework's list does. */
  lemma {:induction false} InstalledSpec(components: seq<string>, vendorDir: string, dirs: set<string>, c: string)
    ensures c in Installed(components, vendorDir, dirs) <==> c in components && ComponentDir(vendorDir, c) in dirs
    ensures NoDuplicates(components) ==> NoDuplicates(Installed(components, vendorDir, dirs))
  {
    if components != [] {
      var init := components[..|components| - 1];
      var last := components[|components| - 1];
      InstalledSpec(init, vendorDir, dirs, c);
      assert components == init + [last];
      if NoDuplicates(components) {
        InstalledSpec(init, vendorDir, dirs, last);
        assert last !in init;
        InstalledNoDuplicates(init, vendorDir, dirs);
      }
    }
  }

  lemma {:induction false} InstalledNoDuplicates(components: seq<string>, vendorDir: string, dirs: set<string>)
    requires NoDuplicates(components)
    ensures NoDuplicates(Installed(components, vendorDir, dirs))
  {
    if components != [] {
      var init := components[..|components| - 1];
      var last := components[|components| - 1];
      assert components == init + [last];
      assert NoDuplicates(init) by {
        forall i, j | 0 <= i < j < |init| ensures init[i] != init[j] {
          assert init[i] == components[i] && init[j] == components[j];
        }
      }
      InstalledNoDuplicates(init, vendorDir, dirs);
      InstalledSpec(init, vendorDir, dirs, last);
      forall i | 0 <= i < |init| ensures init[i] != last {
        assert components[i] == init[i];
      }
    }
  }

  // ---------------------------------------------------------------------------
  // Reference lists
  // ---------------------------------------------------------------------------

  /** `array_merge` of every manifest's lists, in Finder order. */
  function Merge(manifests: seq<Found>): Found {
    if manifests == [] then Nothing
    else Merge(manifests[..|manifests| - 1]).Then(manifests[|manifests| - 1])
  }

  /** The merge loop followed by `array_unique` on both lists. */
  method MergeReferences(manifests: seq<Found>) returns (classes: seq<string>, functions: seq<string>)
    ensures classes == ArrayUnique(Merge(manifests).classes)
    ensures functions == ArrayUnique(Merge(manifests).functions)
  {
    classes := [];
    functions := [];
    var i := 0;
    while i < |manifests|
      invariant 0 <= i <= |manifests|
      invariant classes == Merge(manifests[..i]).classes
      invariant functions == Merge(manifests[..i]).functions
    {
      classes := classes + manifests[i].classes;
      functions := functions + manifests[i].functions;
      assert manifests[..i + 1][..i] == manifests[..i];
      i := i + 1;
    }
    assert manifests[..i] == manifests;
    classes := ArrayUnique(classes);
    functions := ArrayUnique(functions);
  }

  lemma {:induction false} MergeMembership(manifests: seq<Found>, x: string)
    ensures x in Merge(manifests).classes <==> exists m :: m in manifests && x in m.classes
    ensures x in Merge(manifests).functions <==> exists m :: m in manifests && x in m.functions
  {
    if manifests != [] {
      var init := manifests[..|manifests| - 1];
      MergeMembership(init, x);
      assert manifests == init + [manifests[|manifests| - 1]];
    }
  }

  /** The reference lists hold each name listed by any manifest exactly once
      (comparing case-sensitively, unlike the scan that produced them). */
  lemma ReferenceLists(manifests: seq<Found>, x: string)
    ensures NoDuplicates(ArrayUnique(Merge(manifests).classes))
    ensures NoDuplicates(ArrayUnique(Merge(manifests).functions))
    ensures x in ArrayUnique(Merge(manifests).classes) <==> exists m :: m in manifests && x in m.classes
    ensures x in ArrayUnique(Merge(manifests).functions) <==> exists m :: m in manifests && x in m.functions
  {
    MergeMembership(manifests, x);
    ArrayUniqueSpec(Merge(manifests).classes);
    ArrayUniqueSpec(Merge(manifests).functions);
  }

  // ---------------------------------------------------------------------------
  // Finders
  // ---------------------------------------------------------------------------

  /** `Finder::create()->files()->in($dir)->exclude($exclude)->name($names)` */
  datatype FinderSpec = FinderSpec(dir: string, exclude: seq<string>, names: seq<string>)

  /** The directory a component's Finder searches, relative to the working
      directory (not the `dws_vendorDir` the installation test uses). */
  function FinderDir(component: string): string {
    "vendor/deep-web-solutions/" + component
  }

  /** The `finders` entry: `array_map` over the kept components. */
  function Finders(kept: seq<string>): seq<FinderSpec> {
    seq(|kept|, i requires 0 <= i < |kept| => FinderSpec(FinderDir(kept[i]), ["tests"], ComponentFiles))
  }

  lemma FinderDirInjective(a: string, b: string)
    requires FinderDir(a) == FinderDir(b)
    ensures a == b
  {
    var n := |"vendor/deep-web-solutions/"|;
    assert a == FinderDir(a)[n..];
    assert b == FinderDir(b)[n..];
  }

  /** There is one Finder per installed component and no other: a Finder
      searches a component's directory exactly when that component is
      listed and its directory exists; every Finder skips `tests` and takes
      the component file patterns. */
  lemma FindersSpec(vendorDir: string, dirs: set<string>, c: string)
    ensures var fs := Finders(Installed(Components, vendorDir, dirs));
            (forall i :: 0 <= i < |fs| ==> fs[i].exclude == ["tests"] && fs[i].names == ComponentFiles) &&
            ((exists i :: 0 <= i < |fs| && fs[i].dir == FinderDir(c)) <==>
               c in Components && ComponentDir(vendorDir, c) in dirs) &&
            (forall i, j :: 0 <= i < j < |fs| ==> fs[i].dir != fs[j].dir)
    ensures var kept := Installed(Components, vendorDir, dirs);
            var fs := Finders(kept);
            |fs| == |kept| &&
            forall i :: 0 <= i < |fs| ==> fs[i].dir == FinderDir(kept[i]) && ComponentDir(vendorDir, kept[i]) in dirs
  {
    var kept := Installed(Components, vendorDir, dirs);
    var fs := Finders(kept);
    InstalledSpec(Components, vendorDir, dirs, c);
    forall i | 0 <= i < |fs| ensures fs[i].dir == FinderDir(kept[i]) && ComponentDir(vendorDir, kept[i]) in dirs {
      InstalledSpec(Components, vendorDir, dirs, kept[i]);
    }
    assert NoDuplicates(Components);
    if exists i :: 0 <= i < |fs| && fs[i].dir == FinderDir(c) {
      var i :| 0 <= i < |fs| && fs[i].dir == FinderDir(c);
      FinderDirInjective(kept[i], c);
    }
    if c in Components && ComponentDir(vendorDir, c) in dirs {
      var i :| 0 <= i < |kept| && kept[i] == c;
      assert fs[i].dir == FinderDir(c);
    }
    forall i, j | 0 <= i < j < |fs| ensures fs[i].dir != fs[j].dir {
      if fs[i].dir == fs[j].dir {
        FinderDirInjective(kept[i], kept[j]);
      }
    }
  }

  // ---------------------------------------------------------------------------
  // The patcher
  // ---------------------------------------------------------------------------

  /** `\Prefix\fn(` becomes `\fn(`. */
  function FunctionRewrite(prefix: string, function_: string): Rewrite {
    Rewrite("\\" + prefix + "\\" + function_ + "(", "\\" + function_ + "(")
  }

  /** `use Prefix\Class;` is dropped. */
  function UseRewrite(prefix: string, class_: string): Rewrite {
    Rewrite("use " + prefix + "\\" + class_ + ";", "")
  }

  /** `\Prefix\Class` becomes `\Class`. */
  function ClassRewrite(prefix: string, class_: string): Rewrite {
    Rewrite("\\" + prefix + "\\" + class_, "\\" + class_)
  }

  /** The `str_replace` calls of the first loop, in order. */
  function FunctionRewrites(prefix: string, functions: seq<string>): seq<Rewrite> {
    if functions == [] then []
    else FunctionRewrites(prefix, functions[..|functions| - 1]) + [FunctionRewrite(prefix, functions[|functions| - 1])]
  }

  /** The `str_replace` calls of the second loop, in order. */
  function ClassRewrites(prefix: string, classes: seq<string>): seq<Rewrite> {
    if classes == [] then []
    else
      var last := classes[|classes| - 1];
      ClassRewrites(prefix, classes[..|classes| - 1]) + [UseRewrite(prefix, last), ClassRewrite(prefix, last)]
  }

  /** Every `str_replace` call the patcher makes, in order. */
  function PatcherRewrites(prefix: string, functions: seq<string>, classes: seq<string>): seq<Rewrite> {
    FunctionRewrites(prefix, functions) + ClassRewrites(prefix, classes)
  }

  lemma ApplyOne(r: Rewrite, subject: string)
    ensures ApplyAll([r], subject) == StrReplace(r.search, r.replace, subject)
  {
    assert [r][1..] == [];
  }

  /** The patcher closure, with its captured reference lists as parameters;
      the file path is not used. */
  method Patch(filePath: string, prefix: string, content: string, functions: seq<string>, classes: seq<string>)
    returns (patched: string)
    ensures patched == ApplyAll(PatcherRewrites(prefix, functions, classes), content)
  {
    patched := content;
    var i := 0;
    while i < |functions|
      invariant 0 <= i <= |functions|
      invariant patched == ApplyAll(FunctionRewrites(prefix, functions[..i]), content)
    {
      var function_ := functions[i];
      ApplyAllAppend(FunctionRewrites(prefix, functions[..i]), [FunctionRewrite(prefix, function_)], content);
      ApplyOne(FunctionRewrite(prefix, function_), patched);
      assert functions[..i + 1][..i] == functions[..i];
      patched := StrReplace("\\" + prefix + "\\" + function_ + "(", "\\" + function_ + "(", patched);
      i := i + 1;
    }
    assert functions[..i] == functions;
    ghost var afterFunctions := patched;
    var j := 0;
    while j < |classes|
      invariant 0 <= j <= |classes|
      invariant patched == ApplyAll(ClassRewrites(prefix, classes[..j]), afterFunctions)
    {
      var class_ := classes[j];
      var pair := [UseRewrite(prefix, class_), ClassRewrite(prefix, class_)];
      ApplyAllAppend(ClassRewrites(prefix, classes[..j]), pair, afterFunctions);
      ApplyAllAppend([pair[0]], [pair[1]], patched);
      assert [pair[0]] + [pair[1]] == pair;
      ApplyOne(pair[0], patched);
      assert classes[..j + 1][..j] == classes[..j];
      patched := StrReplace("use " + prefix + "\\" + class_ + ";", "", patched);
      ApplyOne(pair[1], patched);
      patched := StrReplace("\\" + prefix + "\\" + class_, "\\" + class_, patched);
      j := j + 1;
    }
    assert classes[..j] == classes;
    ApplyAllAppend(FunctionRewrites(prefix, functions), ClassRewrites(prefix, classes), content);
  }

  lemma {:induction false} FunctionRewritesIndex(prefix: string, functions: seq<string>)
    ensures |FunctionRewrites(prefix, functions)| == |functions|
    ensures forall k :: 0 <= k < |functions| ==> FunctionRewrites(prefix, functions)[k] == FunctionRewrite(prefix, functions[k])
  {
    if functions != [] {
      FunctionRewritesIndex(prefix, functions[..|functions| - 1]);
    }
  }

  lemma {:induction false} ClassRewritesIndex(prefix: string, classes: seq<string>)
    ensures |ClassRewrites(prefix, classes)| == 2 * |classes|
    ensures forall k :: 0 <= k < |classes| ==>
              ClassRewrites(prefix, classes)[2 * k] == UseRewrite(prefix, classes[k]) &&
              ClassRewrites(prefix, classes)[2 * k + 1] == ClassRewrite(prefix, classes[k])
  {
    if classes != [] {
      ClassRewritesIndex(prefix, classes[..|classes| - 1]);
    }
  }

  /** Every rewrite of the patcher, whatever the prefix (even an empty one),
      has a non-empty needle longer than its replacement, and every needle
      contains the prefix followed by a backslash. */
  lemma PatcherRewritesShape(prefix: string, functions: seq<string>, classes: seq<string>)
    ensures Shrinking(PatcherRewrites(prefix, functions, classes))
    ensures forall k :: 0 <= k < |PatcherRewrites(prefix, functions, classes)| ==>
              Occurs(prefix + "\\", PatcherRewrites(prefix, functions, classes)[k].search)
  {
    var fr := FunctionRewrites(prefix, functions);
    var cr := ClassRewrites(prefix, classes);
    var rs := fr + cr;
    FunctionRewritesIndex(prefix, functions);
    ClassRewritesIndex(prefix, classes);
    var marker := prefix + "\\";
    forall k | 0 <= k < |rs|
      ensures |rs[k].replace| < |rs[k].search|
      ensures Occurs(marker, rs[k].search)
    {
      if k < |fr| {
        var search := "\\" + prefix + "\\" + functions[k] + "(";
        assert rs[k] == FunctionRewrite(prefix, functions[k]);
        assert search[1..1 + |marker|] == marker;
        assert OccursAt(marker, search, 1);
      } else {
        var c := (k - |fr|) / 2;
        assert rs[k] == cr[k - |fr|];
        if (k - |fr|) % 2 == 0 {
          assert k - |fr| == 2 * c;
          var search := "use " + prefix + "\\" + classes[c] + ";";
          assert rs[k] == UseRewrite(prefix, classes[c]);
          assert search[4..4 + |marker|] == marker;
          assert OccursAt(marker, search, 4);
        } else {
          assert k - |fr| == 2 * c + 1;
          var search := "\\" + prefix + "\\" + classes[c];
          assert rs[k] == ClassRewrite(prefix, classes[c]);
          assert search[1..1 + |marker|] == marker;
          assert OccursAt(marker, search, 1);
        }
      }
    }
  }

  /** The patcher only ever removes text: the file never grows, it shrinks
      whenever some rewrite finds its needle, and it is returned unchanged
      otherwise. */
  lemma PatchShrinks(prefix: string, content: string, functions: seq<string>, classes: seq<string>)
    ensures |ApplyAll(PatcherRewrites(prefix, functions, classes), content)| <= |content|
    ensures AnyFires(PatcherRewrites(prefix, functions, classes), content) ==>
              |ApplyAll(PatcherRewrites(prefix, functions, classes), content)| < |content|
    ensures !AnyFires(PatcherRewrites(prefix, functions, classes), content) ==>
              ApplyAll(PatcherRewrites(prefix, functions, classes), content) == content
  {
    PatcherRewritesShape(prefix, functions, classes);
    ApplyAllShrinking(PatcherRewrites(prefix, functions, classes), content);
  }

  /** A file that never mentions the prefix followed by a backslash is left
      as it is, whatever the reference lists. */
  lemma PatchNeedsPrefix(prefix: string, content: string, functions: seq<string>, classes: seq<string>)
    requires !Occurs(prefix + "\\", content)
    ensures ApplyAll(PatcherRewrites(prefix, functions, classes), content) == content
  {
    PatcherRewritesShape(prefix, functions, classes);
    ApplyAllUntouched(PatcherRewrites(prefix, functions, classes), prefix + "\\", content);
  }

  /** With no reference names the patcher is the identity. */
  lemma PatchWithoutReferences(prefix: string, content: string)
    ensures ApplyAll(PatcherRewrites(prefix, [], []), content) == content
  {
    assert PatcherRewrites(prefix, [], []) == [];
  }

  /** The function-call needle can only start inside an earlier occurrence
      of itself when a `(` occurs before its end. */
  lemma FunctionNeedleUnbordered(prefix: string, function_: string)
    requires '(' !in prefix && '(' !in function_
    ensures Unbordered(FunctionRewrite(prefix, function_).search)
  {
    var needle := FunctionRewrite(prefix, function_).search;
    var n := |needle|;
    forall i | 0 <= i < n - 1 ensures needle[i] != '(' {
      if 1 <= i < 1 + |prefix| {
        assert needle[i] == prefix[i - 1];
      } else if 2 + |prefix| <= i {
        assert needle[i] == function_[i - 2 - |prefix|];
      }
    }
    forall k | 0 < k < n ensures needle[k..] != needle[..n - k] {
      assert needle[k..][n - k - 1] == '(';
      assert needle[..n - k][n - k - 1] == needle[n - k - 1];
    }
  }

  /** Calls of one reference function: in a file made of stretches that do
      not contain `\Prefix\fn(`, joined by that call, every call loses its
      prefix and nothing else changes, provided neither the prefix nor the
      function name contains `(`. */
  lemma PatchStripsFunctionCalls(prefix: string, function_: string, parts: seq<string>)
    requires |parts| > 0 && '(' !in prefix && '(' !in function_
    requires forall k :: 0 <= k < |parts| ==> !Occurs(FunctionRewrite(prefix, function_).search, parts[k])
    ensures ApplyAll(PatcherRewrites(prefix, [function_], []), Join(parts, FunctionRewrite(prefix, function_).search))
            == Join(parts, "\\" + function_ + "(")
  {
    var r := FunctionRewrite(prefix, function_);
    FunctionNeedleUnbordered(prefix, function_);
    StrReplaceJoin(r.search, r.replace, parts);
    assert [function_][..0] == [];
    assert FunctionRewrites(prefix, [function_]) == [r];
    assert PatcherRewrites(prefix, [function_], []) == [r];
    ApplyOne(r, Join(parts, r.search));
  }
}
