# WordPress reference scanner and php-scoper patchers, in Dafny

This project models the part of `deep-web-solutions/wordpress-configs` that
finds which WordPress classes and functions a plugin uses, and the php-scoper
patchers that consume that list. The model covers four pieces:

- **The two AST visitors.**
  - `ReferencesPopulator` (and its copy `_stubsNodeVisitor`) collects the
    class and function names the WordPress stubs declare. It does not enter
    class bodies.
  - `ReferencesCheckerPopulator` (and its copy `_projectNodeVisitor`) walks a
    project file. For every identifier that a function or method signature,
    a function call, an `extends`, a `new`, an `instanceof` or a static call
    uses, it records the project's spelling once for each stub name equal to
    it ignoring ASCII case.
- **The two Composer `post-autoload-dump` actions.**
  - `IsolateWordPressReferences::postAutoloadDump` runs the guards, the stubs
    pass, the project pass over every file and the case-sensitive
    de-duplication. It writes `wp-stubs.json` and `wp-references.json`.
  - `FindWPCoreCalls::postAutoloadDump` is its newer copy.
- **`deep-web-solutions.inc.php`.** The installed framework components, the
  merged and de-duplicated reference lists, one Finder per component, and
  the patcher. The patcher takes the scoping prefix back off WordPress
  function calls and class names and drops `use Prefix\Class;` lines.
- **`pdf-generation.inc.php`.** The Dompdf patcher, which adds the prefix to
  quoted `Dompdf\` namespace strings.

The files are organised as follows:

- `php_builtins.dfy` models the PHP built-ins these files rely on:
  - `strtolower` as ASCII lower-casing;
  - `str_replace` as one left-to-right pass of non-overlapping replacements,
    and its array form as its pairs applied one after the other;
  - `array_unique` as keeping the first occurrence, comparing strings exactly.
- `php_ast.dfy` holds the PHP-Parser node kinds the visitors look at, plus a
  catch-all `Other`. It also models the traverser as a pre-order walk that
  honours `DONT_TRAVERSE_CHILDREN`.
- Each visitor is a Dafny `class` whose lists are fields its methods append
  to. Each method is proved against a specification function over the
  visited nodes: `StubsPass`, `CheckedIn` and `ProjectPass`.
- The pipelines are methods proved equal to functions over the parsed
  stubs, the parsed project files and the environment: `Isolate` and
  `FindCoreCalls`.
- The patchers are rewrite lists applied with `ApplyAll`. The
  `deep-web-solutions.inc.php` patcher, a loop that reassigns `$content`, is
  a method proved equal to `ApplyAll` over its rewrite list.

## Model

| member | source | states |
|---|---|---|
| PhpBuiltins.SameIgnoringCaseMeaning | src/composer/IsolateReferences/ReferencesCheckerPopulator.php:82 | `strtolower($a) === strtolower($b)`: the strings have the same length and agree at every position after ASCII lower-casing |
| PhpBuiltins.StrReplaceLength | src/php-scoper/deep-web-solutions.inc.php:49 | the length after `str_replace` is the old length plus, for each occurrence replaced, the difference between the replacement's length and the needle's |
| PhpBuiltins.ReplaceCountPositiveIffOccurs | src/php-scoper/deep-web-solutions.inc.php:49 | `str_replace` replaces at least once exactly when the needle occurs in the subject |
| PhpBuiltins.StrReplaceAbsent | src/php-scoper/deep-web-solutions.inc.php:49 | a subject in which the needle does not occur is returned unchanged |
| PhpBuiltins.StrReplaceJoin | src/php-scoper/deep-web-solutions.inc.php:49 | for a needle with no border, in text made of needle-free parts joined by the needle, every occurrence becomes the replacement and nothing else changes |
| PhpBuiltins.ApplyAllGrowing | src/php-scoper/pdf-generation.inc.php:29-33 | when every pair of an array `str_replace` has a replacement longer than its needle, the result is never shorter than the input, is strictly longer when any pair fires, and equals the input otherwise |
| PhpBuiltins.ApplyAllShrinking | src/php-scoper/deep-web-solutions.inc.php:48-54 | when every replacement is shorter than its needle, the result is never longer than the input, is strictly shorter when any replacement fires, and equals the input otherwise |
| PhpBuiltins.ApplyAllUntouched | src/php-scoper/pdf-generation.inc.php:29-33 | if every needle contains a marker string that the subject does not contain, the rewrites leave the subject unchanged |
| PhpBuiltins.ArrayUniqueSpec | src/composer/IsolateWordPressReferences.php:88-89 | `array_unique` gives a list with no duplicates and the same members as its input, in first-occurrence order |
| PhpBuiltins.ArrayUniqueIdentity | src/composer/IsolateWordPressReferences.php:88-89 | `array_unique` leaves a list without duplicates unchanged |
| PhpAst.PreorderAppend | src/composer/IsolateWordPressReferences.php:80-82 | walking two node lists one after the other visits exactly what walking their concatenation visits, in the same order |
| PhpAst.PreorderReached | src/composer/IsolateReferences/ReferencesPopulator.php:77 | every node the traverser enters is reached by a path of child indexes that passes through no node whose children are skipped |
| PhpAst.ReachedPreorder | src/composer/IsolateReferences/ReferencesPopulator.php:77 | every node such a path reaches is entered by the traverser |
| PhpAst.PreorderReach | src/composer/IsolateReferences/ReferencesPopulator.php:77 | a node is visited exactly when some path of child indexes reaches it without passing through a node whose children are skipped |
| IsolateReferences.StubsPassAppend | src/composer/IsolateReferences/ReferencesPopulator.php:55-58 | walking more nodes only appends to both lists: the earlier entries stay in place, in order |
| IsolateReferences.StubsPassClasses | src/composer/IsolateReferences/ReferencesPopulator.php:75-77 | a name is in the class list exactly when a class of that name is declared at some path that runs through no class |
| IsolateReferences.StubsPassFunctions | src/composer/IsolateReferences/ReferencesPopulator.php:80-82 | a name is in the function list exactly when a function of that name is declared at some path that runs through no class |
| IsolateReferences.ClassBodyIgnored | src/composer/IsolateReferences/ReferencesPopulator.php:75-78 | a class contributes its name and nothing from its body, whatever the body holds |
| IsolateReferences.ReferencesPopulator.constructor | src/composer/IsolateReferences/ReferencesPopulator.php:55-58 | the visitor starts with the caller's lists |
| IsolateReferences.ReferencesPopulator.EnterNode | src/composer/IsolateReferences/ReferencesPopulator.php:74-85 | a class appends its name to the class list only and returns DONT_TRAVERSE_CHILDREN; a function appends its name to the function list only and returns null; any other node changes nothing and returns null |
| IsolateReferences.ReferencesPopulator.Traverse | src/composer/IsolateWordPressReferences.php:56-60 | the lists grow by exactly the names `StubsPass` collects from the walked nodes |
| IsolateReferences.TypeToStringArray | src/composer/IsolateReferences/ReferencesCheckerPopulator.php:151-171 | the result is empty exactly for an absent type, a lone identifier or an empty union; a union gives one string per member, in order; a nullable type gives its inner type's single string; a name gives its first part |
| IsolateReferences.MatchingCount | src/composer/IsolateReferences/ReferencesCheckerPopulator.php:80-86 | the nested loops record a string as many times as it appears among the candidates, multiplied by the number of reference names equal to it ignoring case |
| IsolateReferences.MatchingMembership | src/composer/IsolateReferences/ReferencesCheckerPopulator.php:80-86 | a string is recorded exactly when it is a candidate and equals some reference name ignoring case |
| IsolateReferences.MatchingSingle | src/composer/IsolateReferences/ReferencesCheckerPopulator.php:110-114 | testing one name records it, in the project's spelling, once per reference name equal to it ignoring case |
| IsolateReferences.SignatureMembership | src/composer/IsolateReferences/ReferencesCheckerPopulator.php:76-101 | a signature records a string exactly when its return type or a parameter type yields it and it equals a reference class ignoring case |
| IsolateReferences.CheckedInMembership | src/composer/IsolateReferences/ReferencesCheckerPopulator.php:75-135 | one node records a class (or function) string exactly when its kind offers it to the class (or function) test and it equals a reference class (or function) ignoring case |
| IsolateReferences.FuncCallRecordsPerMatch | src/composer/IsolateReferences/ReferencesCheckerPopulator.php:102-108 | a named call records no class, and records its first name part once per reference function equal to it ignoring case |
| IsolateReferences.NewChecksOnlyPlainNames | src/composer/IsolateReferences/ReferencesCheckerPopulator.php:109-132 | `new` with a fully-qualified or relative name records nothing, and with a plain name records its first part, and nothing else, once per matching reference class; `instanceof`, static calls and `extends` accept any kind of name and likewise record only its first part, once per matching reference class |
| IsolateReferences.ProjectPassAppend | src/composer/IsolateReferences/ReferencesCheckerPopulator.php:55-58 | walking more nodes only appends to the found lists |
| IsolateReferences.ProjectPassClasses | src/composer/IsolateReferences/ReferencesCheckerPopulator.php:75-135 | a file records a class string exactly when some node at any depth offers it to the class test and it equals a reference class ignoring case |
| IsolateReferences.ProjectPassFunctions | src/composer/IsolateReferences/ReferencesCheckerPopulator.php:102-108 | a file records a function string exactly when some call at any depth names it and it equals a reference function ignoring case |
| IsolateReferences.ReferencesCheckerPopulator.constructor | src/composer/IsolateReferences/ReferencesCheckerPopulator.php:55-59 | the reference lists are copies that never change, and the found lists start as the caller's |
| IsolateReferences.ReferencesCheckerPopulator.EnterNode | src/composer/IsolateReferences/ReferencesCheckerPopulator.php:75-135 | always returns null, leaves the reference lists alone, and appends to the found lists exactly what `CheckedIn` says for the node's kind |
| IsolateReferences.ReferencesCheckerPopulator.RecordSignature | src/composer/IsolateReferences/ReferencesCheckerPopulator.php:76-101 | appends the return type's matches, then each parameter's matches, to the class list only |
| IsolateReferences.ReferencesCheckerPopulator.RecordTypeOf | src/composer/IsolateReferences/ReferencesCheckerPopulator.php:91-100 | a type that yields no strings records nothing; otherwise its matches are appended to the class list |
| IsolateReferences.ReferencesCheckerPopulator.RecordTypes | src/composer/IsolateReferences/ReferencesCheckerPopulator.php:80-86 | the nested loops append `Matching(classes, types)` to the class list only |
| IsolateReferences.ReferencesCheckerPopulator.RecordClass | src/composer/IsolateReferences/ReferencesCheckerPopulator.php:110-115 | the loop over reference classes appends the name once per match, to the class list only |
| IsolateReferences.ReferencesCheckerPopulator.RecordFunction | src/composer/IsolateReferences/ReferencesCheckerPopulator.php:103-108 | the loop over reference functions appends the name once per match, to the function list only |
| IsolateReferences.ReferencesCheckerPopulator.Traverse | src/composer/IsolateWordPressReferences.php:80-82 | the found lists grow by exactly `ProjectPass` of the walked file |
| IsolateWordPressReferences.Guard | src/composer/IsolateWordPressReferences.php:31-44 | the action goes on exactly when in dev mode, `CI` is unset or falsy, and the stubs file exists; the reported reason is the first guard that fails, in source order |
| IsolateWordPressReferences.CheckProjectFiles | src/composer/IsolateWordPressReferences.php:72-82 | one checker, with both found lists starting empty, walking every project file in turn gathers exactly `FilesPass` of the stubs' lists over the files |
| IsolateWordPressReferences.PostAutoloadDump | src/composer/IsolateWordPressReferences.php:27-92 | the action writes exactly what `Isolate` describes: the guards, then the stubs pass, then the project pass over every file with both accumulators starting empty, then de-duplication |
| IsolateWordPressReferences.FilesPassClasses | src/composer/IsolateWordPressReferences.php:80-82 | the found class list holds a string exactly when some project file records it |
| IsolateWordPressReferences.FilesPassFunctions | src/composer/IsolateWordPressReferences.php:80-82 | the found function list holds a string exactly when some project file records it |
| IsolateWordPressReferences.WritesIffGuardsPass | src/composer/IsolateWordPressReferences.php:31-69 | output is written exactly when the guards pass; `wp-stubs.json` then holds the stubs pass's raw lists; a skip reports the guard that failed |
| IsolateWordPressReferences.StubsManifest | src/composer/IsolateWordPressReferences.php:53-69 | `wp-stubs.json` lists a class (or function) exactly when the stubs declare one of that name outside any class body |
| IsolateWordPressReferences.ClassReferencesManifest | src/composer/IsolateWordPressReferences.php:72-91 | the class list of `wp-references.json` has no duplicates and holds a string exactly when some project file uses it as a class and the stubs declare a class equal to it ignoring case |
| IsolateWordPressReferences.FunctionReferencesManifest | src/composer/IsolateWordPressReferences.php:72-91 | the function list of `wp-references.json` has no duplicates and holds a string exactly when some project file calls it and the stubs declare a function equal to it ignoring case |
| FindWPCoreCalls.RunEnds | composer/FindWPCoreCalls.php:28-73 | whatever the four locals hold, a run is skipped exactly when a guard fails; past the guards it throws in the stubs visitor's constructor exactly when `$wp_classes` or `$wp_functions` is unassigned, throws in the project visitor's constructor exactly when those two are bound and a project list is unassigned, and writes exactly when all four are bound |
| FindWPCoreCalls.AsWrittenNeverWrites | composer/FindWPCoreCalls.php:28-73 | as written, the action never writes `wp-references.json`; it throws in the stubs visitor's constructor exactly when the guards pass |
| FindWPCoreCalls.AsWrittenThrowsOnEmptyProject | composer/FindWPCoreCalls.php:49 | in dev mode, with `CI` unset and the stubs present, the as-written action throws even on empty input, where the corrected one writes empty lists |
| FindWPCoreCalls.PostAutoloadDump | composer/FindWPCoreCalls.php:27-74 | the corrected action writes exactly what `FindCoreCalls` describes: the guards, both passes with lists starting empty, then de-duplication |
| FindWPCoreCalls.SameReferencesAsIsolate | composer/FindWPCoreCalls.php:77-194 | the corrected action skips for the same reasons as `IsolateWordPressReferences`, never throws, and otherwise writes the same `wp-references.json` |
| DeepWebSolutionsScoper.KeepInstalled | src/php-scoper/deep-web-solutions.inc.php:6-11 | the `unset` loop keeps exactly `Installed(Components, ...)` |
| DeepWebSolutionsScoper.InstalledSpec | src/php-scoper/deep-web-solutions.inc.php:7-11 | a component is kept exactly when it is listed and its vendor directory exists; a list without repetitions stays without repetitions |
| DeepWebSolutionsScoper.MergeReferences | src/php-scoper/deep-web-solutions.inc.php:13-24 | the merge loop and `array_unique` give the de-duplicated concatenation of every manifest's lists, in file order |
| DeepWebSolutionsScoper.MergeMembership | src/php-scoper/deep-web-solutions.inc.php:17-21 | the merged lists hold a name exactly when some manifest lists it |
| DeepWebSolutionsScoper.ReferenceLists | src/php-scoper/deep-web-solutions.inc.php:23-24 | the reference lists have no duplicates and hold exactly the names some manifest lists |
| DeepWebSolutionsScoper.FinderDirInjective | src/php-scoper/deep-web-solutions.inc.php:35 | distinct components get distinct Finder directories |
| DeepWebSolutionsScoper.FindersSpec | src/php-scoper/deep-web-solutions.inc.php:34-36 | there is one Finder per installed component and no other: the i-th Finder searches the i-th installed component's directory, which exists, and a component has a Finder exactly when it is installed; Finder directories are distinct; every Finder excludes `tests` and takes the component file patterns |
| DeepWebSolutionsScoper.Patch | src/php-scoper/deep-web-solutions.inc.php:47-57 | the patcher applies every function rewrite first, then for each class the `use` removal and the class rewrite, in list order |
| DeepWebSolutionsScoper.FunctionRewritesIndex | src/php-scoper/deep-web-solutions.inc.php:48-50 | the first loop makes one rewrite per reference function, in order |
| DeepWebSolutionsScoper.ClassRewritesIndex | src/php-scoper/deep-web-solutions.inc.php:51-54 | the second loop makes two rewrites per reference class, the `use` removal before the class rewrite |
| DeepWebSolutionsScoper.PatcherRewritesShape | src/php-scoper/deep-web-solutions.inc.php:49-53 | for any prefix, every needle is longer than its replacement and contains the prefix followed by a backslash |
| DeepWebSolutionsScoper.PatchShrinks | src/php-scoper/deep-web-solutions.inc.php:47-56 | the patched file is never longer than the input, is strictly shorter when any rewrite fired, and equals the input otherwise |
| DeepWebSolutionsScoper.PatchNeedsPrefix | src/php-scoper/deep-web-solutions.inc.php:47-56 | a file that never contains the prefix followed by a backslash is returned unchanged, whatever the reference lists |
| DeepWebSolutionsScoper.PatchWithoutReferences | src/php-scoper/deep-web-solutions.inc.php:47-56 | with empty reference lists the patcher returns its content unchanged |
| DeepWebSolutionsScoper.FunctionNeedleUnbordered | src/php-scoper/deep-web-solutions.inc.php:49 | when neither the prefix nor the function name contains `(`, two occurrences of the needle `\Prefix\fn(` cannot overlap |
| DeepWebSolutionsScoper.PatchStripsFunctionCalls | src/php-scoper/deep-web-solutions.inc.php:48-50 | every `\Prefix\fn(` call in the file becomes `\fn(` and nothing else changes |
| PdfGenerationScoper.PdfRewritesShape | src/php-scoper/pdf-generation.inc.php:30-31 | for any prefix, even an empty one, each of the four needles is shorter than its replacement and contains `Dompdf\` |
| PdfGenerationScoper.PdfPatchGrows | src/php-scoper/pdf-generation.inc.php:28-33 | the patched file is never shorter than the input, is strictly longer when any needle occurs, and equals the input otherwise; the file path plays no part |
| PdfGenerationScoper.PdfPatchNeedsDompdf | src/php-scoper/pdf-generation.inc.php:28-33 | content without `Dompdf\` is returned unchanged |
| PdfGenerationScoper.ApplyFour | src/php-scoper/pdf-generation.inc.php:29-33 | the four pairs are applied in array order, each to the previous result |
| PdfGenerationScoper.PdfPatchDoubleQuoted | src/php-scoper/pdf-generation.inc.php:30-31 | with a non-empty prefix that holds no quote and does not start with a backslash, every `"Dompdf\` becomes `"Prefix\\Dompdf\`, and the later pairs do not fire again on the inserted text |
| PdfGenerationScoper.PdfPatchEmptyPrefixCascade | src/php-scoper/pdf-generation.inc.php:29-33 | with an empty prefix, the first pair's output is the third pair's needle, so `"Dompdf\` ends up with four backslashes |

## Left out

- Parsing, lexer emulation and the PHP version each parser targets are not
  modelled. Stubs and project files arrive as lists of AST nodes.
- `NodeTraverser` is modelled only as a pre-order walk that honours
  `DONT_TRAVERSE_CHILDREN`. `leaveNode`, node replacement and the other
  visitor hooks are not used by these visitors.
- Reading and writing files and JSON encoding are abstracted. The written
  manifests are returned as values. Malformed or missing `classes`/`functions`
  keys in a reference manifest are not modelled: manifests arrive decoded.
- Composer events and console messages are abstracted. `isDevMode()` and
  `is_file()` are booleans, and a skip's message is its `Skip` reason.
- `getenv` is abstracted. `CI` is an optional string, read with PHP
  truthiness. `dws_vendorDir` is a plain string.
- The directories the Finders search are not walked. The project files
  arrive in the order a Finder yields them, and the installed directories
  are a set.
- The installation test looks under `dws_vendorDir`, while each Finder searches `vendor/...` relative to the
  working directory. The model keeps both as written and does not relate them.
- Only the node kinds the visitors test are distinguished. All other nodes
  are `Other`. In particular:
  - interfaces, traits and enums are not `Stmt\Class_` and are treated as
    `Other`;
  - an anonymous class (a `Class_` with no name) is not modelled;
  - intersection and DNF types inside a union are not modelled.
- `Name::$parts` was removed in PHP-Parser 5. The model follows the code,
  which reads `parts[0]`, as the name's first part.
- The inheritance between the visitors is not modelled as inheritance.
  `ReferencesCheckerPopulator` overrides `enterNode` without calling the
  parent, so the model gives it its own fields. The reference lists are
  `const` because the caller's arrays reach it by value.
- `_stubsNodeVisitor`, `_projectNodeVisitor` and the `type_to_string_array`
  in `composer/FindWPCoreCalls.php` have the same statements as the
  `IsolateReferences` classes. They are modelled once, by those classes,
  which read a name's first part as PHP-Parser 4 does.
- FindWPCoreCalls.SameReferencesAsIsolate, and its "never throws", hold
  only under PHP-Parser 4 name semantics. `composer/FindWPCoreCalls.php`
  targets PHP-Parser 5 (`createForVersion` at line 45,
  `NodeVisitor::DONT_TRAVERSE_CHILDREN` at line 92), where `Name::$parts`
  no longer exists and `->parts[0]` (lines 140, 147, 154, 162) reads
  `null`. Under `strict_types=1` (line 1), `strtolower(null)` at line 142
  then throws a `TypeError` at the first named function call whenever the
  stubs list any function, and the union closure at line 179 throws on a
  `Name` member because it returns `null` from a `: string` closure. At
  lines 186 and 190, `(array) null` is `[]`, so a `Name` or nullable
  `Name` signature type is silently dropped rather than checked. The
  model does not represent PHP-Parser 5 names, so it does not capture
  these failures.
- PHP's rule for binding an argument to an `array &$x` parameter (an
  unassigned local is created as `null`, which the `array` type rejects)
  is assumed by `FindWPCoreCalls.BindArrayByReference`, not proved.
- `array_unique` without `array_values`, in `deep-web-solutions.inc.php`,
  leaves gaps in the array keys. The model keeps only the order of the
  values, which is all the patcher's `foreach` observes.
- The Finder list in `pdf-generation.inc.php` is configuration data for
  php-scoper and is not modelled.
- PHP strings are byte strings; the model's `string` is a sequence of
  `char`, each `char` standing for one byte. `str_replace` and the
  ASCII-only `strtolower` work byte by byte, so nothing they do depends on
  this choice.
- `strtolower` is ASCII-only here. Locale-dependent lower-casing is not
  modelled.
- DeepWebSolutionsScoper.PatchStripsFunctionCalls covers one reference
  function with neither the prefix nor the function name containing `(`.
  It does not cover interaction between several reference names.
- PdfGenerationScoper.PdfPatchDoubleQuoted covers the double-quoted form
  only. The single-quoted and backslash-prefixed needles are covered only by
  the length and no-`Dompdf\` properties.
- `src/composer/PrefixDependencies.php`, `old/src/composer/PrefixDependencies.php`,
  `src/composer/DowngradePhp.php`, `src/rector/downgrade-php.php`,
  `src/php-scoper/dependency-injection.inc.php` and
  `quality-assurance/phpstan.dist.neon.php` are not part of this model. They
  create directories and env files, dispatch scripts, or hand configuration
  to Rector, php-scoper, Dotenv and PHPStan.

## Findings

| source | as written | input that shows it | evidently intended | confidence | as-written member | corrected member |
|---|---|---|---|---|---|---|
| composer/FindWPCoreCalls.php:49 | `$wp_classes` and `$wp_functions` (and, at line 56, `$project_wp_classes` and `$project_wp_functions`) are never assigned before they are passed to constructors declared `array &$x`; PHP creates them as `null`, which the `array` type rejects with a `TypeError` | any run in dev mode with `CI` unset and the WordPress stubs installed, even an empty stubs file and no project files | the four lists start as `array()`, as in `src/composer/IsolateWordPressReferences.php:53-54,72-73`, and the action writes `wp-references.json` | medium, not executed | FindWPCoreCalls.PostAutoloadDumpAsWritten (shown by FindWPCoreCalls.AsWrittenNeverWrites and FindWPCoreCalls.AsWrittenThrowsOnEmptyProject) | FindWPCoreCalls.PostAutoloadDump (equal to FindWPCoreCalls.FindCoreCalls; FindWPCoreCalls.SameReferencesAsIsolate) |
