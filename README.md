# A model of `DependenceController` (yii2-dependencies)

`DependenceController` is a Yii2 console command. It writes, for every
configured task, JSON lists of the CSS and JS files of the asset bundles
the task depends on. The front-end build tools (Grunt, Webpack) read these
lists. For each task the controller works in three stages:

1. It collects bundle names from the task's `src` entries:
   - a directory is scanned file by file (`*.php`, one level deep);
   - a fully qualified bundle class name (`...\FooAsset`) is taken as it is;
   - a file is classified by its basename as an asset class (`…Asset.php`),
     a controller (`…Controller.php`: the views its `render(...)` calls name
     are scanned) or a view (its `FooAsset::register(...)` calls are read).

   Names are appended only when not already present. Excluded names are
   removed at the end.
2. It resolves the names to bundles, then lists each bundle's declared JS
   and CSS files. An entry is kept when its `.min`-stripped name is not
   excluded and the file exists.
3. It writes `<task>-css.json`, `<task>-js.json` and `<task>.json` (CSS then
   JS), each only when non-empty. It then resets its list and data before
   the next task.

The model has seven modules:

- `Wrappers`: the `Option` and `Result` types.
- `Strings`: the PHP string primitives, on `seq<char>`.
  - `strrpos`, together with the truthiness test the code applies to it.
  - `str_replace` with an empty replacement, `basename`, `strtolower`,
    `trim` and `substr`.
- `Patterns`: the three regular expressions, as leftmost-match searches,
  each proved equal to a declarative statement of what the pattern matches.
- `Lists`: the guarded append `if (!in_array(...)) $l[] = ...` and
  `array_diff`.
  - The guarded append is proved equal to an independent first-occurrence
    de-duplication.
- `Scan`: each stage as a function of its inputs.
  - The environment is injected as a value: the filesystem (file lines and
    directory entries in `glob` order), the bundle registry and the view
    directory.
  - A scan returns the names it discovers, or the exception that stops it.
- `Dependence`: the controller as a class.
  - `bundles`, `css` and `js` are fields that the methods update in place,
    as the PHP methods update `$this->bundles` and `$this->data`.
  - Each method is proved against its `Scan` function.
  - The scanning methods are proved through the predicate `Follows`: on
    success the new list is the guarded append of the specified names;
    otherwise the specified exception is thrown, after names were only
    appended.
- `Properties`: properties that relate several stages.
  - The membership and order of a task's bundle list.
  - Which files a bundle contributes.
  - File classification.
  - How a `render` argument becomes a view path.
  - A complete run of one task.

Three points of the code that a reader might not expect:

- The file path of a bundle entry is built from the `.min`-stripped name
  (`DependenceController.php:204-211`), not from the declared name. So
  `b.min.js` is looked up as `b.js`.
- The combined `<task>.json` lists CSS before JS
  (`DependenceController.php:226-242`). The repository's functional test
  expects a JS file at index 0. `Properties.CommonManifestLast` states the
  order the code produces.
- `actionCreateList` expands JS before CSS for each bundle (lines 61-64).
  The data is kept per property, so this order does not change any list.

## Model

| member | source | states |
|---|---|---|
| `Strings.LastIndexOf` | DependenceController.php:126 | `strrpos`: returns the index of the last occurrence, with no occurrence after it, or none when the pattern does not occur |
| `Strings.StrrposTruthyIff` | DependenceController.php:126 | `if (strrpos($base, $pat))` passes exactly when the pattern occurs at a position greater than 0 |
| `Strings.StrrposOfItself` | DependenceController.php:126 | a basename that is exactly the pattern (such as `Asset.php`) fails the test, because index 0 reads as false |
| `Strings.StrrposTruthyLength` | DependenceController.php:131 | passing the test needs a basename longer than the pattern |
| `Strings.RemoveAll` | DependenceController.php:148 | `str_replace($pat, '', $s)`: never lengthens the string |
| `Strings.RemoveAllUnchangedIff` | DependenceController.php:148 | `str_replace` with an empty replacement changes the string exactly when the pattern occurs in it |
| `Strings.RemoveAllFirst` | DependenceController.php:148 | `str_replace` removes the first occurrence and goes on after it, so every later non-overlapping occurrence is removed too |
| `Strings.RemoveAllSuffix` | DependenceController.php:148 | removing `Controller.php` from `<w>Controller.php` gives `<w>` when the pattern does not start inside `<w>` |
| `Strings.Basename` | DependenceController.php:124 | `basename`: the result holds no separator and is no longer than the path |
| `Strings.BasenameOfChild` | DependenceController.php:113-114 | the basename of a `glob` result `dir/name` is `name` |
| `Strings.ToLower` | DependenceController.php:148 | `strtolower`: keeps the length, turns every upper-case ASCII letter into its lower-case letter, and keeps every other character |
| `Strings.Trim` | DependenceController.php:156 | `trim`: the result is the argument with a prefix and a suffix of strippable characters removed, and neither starts nor ends with a strippable character |
| `Strings.TrimUnchanged` | DependenceController.php:156 | an argument with non-strippable ends is its own trim |
| `Strings.DropEnds` | DependenceController.php:156 | `substr($s, 1, -1)`: the argument minus its first and last characters, or empty when it is shorter than 2 |
| `Strings.DropLast` | DependenceController.php:127 | `substr($s, 0, -4)`: the argument minus its last 4 characters, or empty when shorter |
| `Patterns.WordEnd` | DependenceController.php:179 | the longest run of `\w` characters from a position: all word characters, followed by a non-word character or the end |
| `Patterns.RegisterAtIff` | DependenceController.php:179 | `(\w+Asset)::register` matches at a position exactly when a word run, `Asset` and `::register` follow, and the capture runs up to the end of `Asset` |
| `Patterns.FirstRegisterFrom` | DependenceController.php:179 | the leftmost position with a match, with no match before it |
| `Patterns.RegisterCapture` | DependenceController.php:179 | the first group of the leftmost match: none exactly when the pattern matches nowhere in the line, otherwise a word of at least 6 characters ending in `Asset`, captured at a match with no match before it |
| `Patterns.RegisterCaptureWholeWord` | DependenceController.php:179 | the leftmost match captures a whole identifier: no word character precedes it |
| `Patterns.RegisterGuardNeverRejects` | DependenceController.php:180 | the `strlen(...) > 2` guard accepts every capture |
| `Patterns.RegisterLeading` | DependenceController.php:179 | a line that starts with `<Word>Asset::register` captures `<Word>Asset` |
| `Patterns.RegisterExample` | DependenceController.php:176-179 | `FooAsset::register($this);` captures `FooAsset` |
| `Patterns.DelimFrom` | DependenceController.php:152 | the lazy `.*?` stops at the first `)` or `,`, and fails when a line feed comes first |
| `Patterns.RenderAtIff` | DependenceController.php:152 | the render pattern matches at a position exactly when `render(`, then characters other than a line feed, then `)` or `,` follow; the capture runs up to the earliest delimiter |
| `Patterns.FirstRenderFrom` | DependenceController.php:152 | the leftmost position with a render match, with no match before it |
| `Patterns.RenderCapture` | DependenceController.php:152 | the first group of the leftmost match: none exactly when the pattern matches nowhere in the line, otherwise the capture at a match with no match before it |
| `Patterns.RenderExample` | DependenceController.php:152 | `render('a')` captures `'a'`, quotes included |
| `Patterns.AssetWithin` | DependenceController.php:91 | `Asset` occurs at some position of a range, or at none of them |
| `Patterns.ClassPathAtIff` | DependenceController.php:91 | the search at a position agrees with the pattern `\\(\w+Asset)`: a backslash, a word run and then `Asset` |
| `Patterns.FirstClassPathFrom` | DependenceController.php:91 | the leftmost position where the class-name pattern matches, with no match before it, or none when it matches nowhere |
| `Patterns.IsBundleClassPathIff` | DependenceController.php:91 | a source entry counts as a bundle class exactly when the pattern matches somewhere in it |
| `Patterns.BundleClassPathExample` | DependenceController.php:91 | `yii\web\YiiAsset` is recognised as a bundle class |
| `Patterns.NoBackslashNoClassPath` | DependenceController.php:91 | an entry without a backslash, such as a directory alias, is never a bundle class |
| `Lists.AddAllMembers` | DependenceController.php:128-130 | guarded appends add exactly the new names and never create a duplicate |
| `Lists.AddName` | DependenceController.php:128-130 | one guarded append keeps the list as a prefix and makes the name a member |
| `Lists.AddAll` | DependenceController.php:182-184 | guarded appends only ever extend the list |
| `Lists.AddAllConcat` | DependenceController.php:182-184 | appending two batches one after the other equals appending their concatenation |
| `Lists.Dedup` | DependenceController.php:92-94 | reference de-duplication: same members as its input, and no duplicate |
| `Lists.DedupOfNoDup` | DependenceController.php:92-94 | a duplicate-free list is its own de-duplication |
| `Lists.AddAllIsDedup` | DependenceController.php:92-94 | from a duplicate-free start, the guarded appends produce the first-occurrence de-duplication of everything seen, in order |
| `Lists.Without` | DependenceController.php:104 | `array_diff`: keeps exactly the elements not excluded, and keeps them duplicate-free |
| `Lists.WithoutIsSubsequence` | DependenceController.php:104 | the survivors of `array_diff` keep their relative order |
| `Lists.WithoutNothing` | DependenceController.php:103-105 | an empty exclude list changes nothing, which is why the code may skip the call |
| `Scan.EmptyValue` | DependenceController.php:43-47 | an option that passes the `isset`/`empty` check is set and non-empty |
| `Scan.EmptySetting` | DependenceController.php:81-86 | a `src` that passes the check yields at least one entry; one that fails yields only entries PHP counts as empty |
| `Scan.ThenAssoc` | DependenceController.php:87-100 | sequencing of scans is associative, so a scan may be split after any entry |
| `Scan.ThenUnit` | DependenceController.php:87-100 | a scan that finds nothing and throws nothing is the unit of sequencing |
| `Scan.ViewLineRefs` | DependenceController.php:179-181 | a view line registers at most one name |
| `Scan.ViewLineRefsShape` | DependenceController.php:181 | a registered name is the namespace followed by a run of word characters, at least 6 long, ending in `Asset` |
| `Scan.ViewRefs` | DependenceController.php:178-186 | every name a view registers is the namespace followed by a word run ending in `Asset`, at most one per line |
| `Scan.ViewFileRefs` | DependenceController.php:172-174 | scanning a view throws exactly when the file does not exist |
| `Scan.ControllerId` | DependenceController.php:148 | the controller id is no longer than the basename and holds no upper-case ASCII letter |
| `Scan.ViewFilePath` | DependenceController.php:154-156 | the view path starts with `<viewPath>/<id>/` and ends in `.php`; the argument loses at least 2 characters |
| `Scan.FileRefs` | DependenceController.php:122-136 | file classification can only fail with a missing-file exception |
| `Scan.ControllerLineRefs` | DependenceController.php:152-159 | one controller line can only fail with a missing-file exception |
| `Scan.ControllerRefs` | DependenceController.php:151-161 | a controller's lines can only fail with a missing-file exception |
| `Scan.ControllerFileRefs` | DependenceController.php:142-164 | a controller scan can only fail with a missing-file exception |
| `Scan.BundleNameOf` | DependenceController.php:127 | the bundle name is the namespace followed by the basename minus its last 4 characters, or the namespace alone for a shorter basename |
| `Scan.PathRefs` | DependenceController.php:113-115 | a directory scan can only fail with a missing-file exception |
| `Scan.PhpEntries` | DependenceController.php:113 | `glob('<dir>/*.php')` returns exactly the visible `.php` entries, as `dir/name` |
| `Scan.Glob` | DependenceController.php:113 | the entries of a directory are exactly its visible `.php` entries, as `dir/name`; a path that is not a directory has none |
| `Scan.SrcEntryRefs` | DependenceController.php:88-97 | one source entry can only fail with a missing-file exception |
| `Scan.SrcRefs` | DependenceController.php:87-100 | the scan of all source entries can only fail with a missing-file exception |
| `Scan.TaskBundles` | DependenceController.php:79-106 | `loadTask` throws the missing-`src` exception exactly when `src` is empty, and no excluded name survives |
| `Scan.StripMin` | DependenceController.php:204 | `str_replace('.min', '', $element)` never lengthens the name |
| `Scan.StripMinUnchangedIff` | DependenceController.php:204 | a declared name is used as it is exactly when `.min` does not occur in it |
| `Scan.ExpandEntry` | DependenceController.php:204-213 | one declared entry contributes at most one path |
| `Scan.Expand` | DependenceController.php:202-214 | a bundle contributes at most one path per declared entry, and only existing files |
| `Scan.Collect` | DependenceController.php:61-64 | every collected path exists |
| `Scan.LoadBundles` | DependenceController.php:60 | resolution succeeds exactly when every name is registered, keeps the names' order, and otherwise names an unknown bundle |
| `Scan.Manifests` | DependenceController.php:222-248 | each of the three files is written exactly when its list is non-empty, with the combined list CSS then JS, and never an empty file |
| `Scan.ManifestsLayout` | DependenceController.php:222-248 | the manifests are at most the three files, in the order CSS, JS, combined, one per non-empty list |
| `Scan.TaskRun` | DependenceController.php:55-66 | a task whose scan leaves no bundle writes nothing; a scan exception passes through; a task throws only a missing-`src`, missing-file or unknown-bundle exception, and writes at most three non-empty files |
| `Scan.RunTasks` | DependenceController.php:51-71 | no written manifest is empty, and the task loop throws only the exceptions a task can throw |
| `Scan.Run` | DependenceController.php:43-49 | a missing `configPath` or `namespaceAsset` aborts the run before anything is written; the `configPath` exception is thrown exactly when `configPath` is empty, the `namespaceAsset` one exactly when only `namespaceAsset` is |
| `Scan.ControllerRefsStops` | DependenceController.php:151-161 | an exception in a controller line ends the controller scan with that exception |
| `Scan.PathRefsStops` | DependenceController.php:113-115 | an exception in a directory entry ends the directory scan with that exception |
| `Scan.SrcRefsStops` | DependenceController.php:87-100 | an exception in a source entry ends `loadTask` with that exception |
| `Dependence.FollowsThen` | DependenceController.php:87-100 | a successful scan followed by one more step follows the two specifications sequenced |
| `Dependence.DependenceController.constructor` | DependenceController.php:21-31 | the controller starts with an empty bundle list and empty data |
| `Dependence.DependenceController.DoParseViewFile` | DependenceController.php:170-190 | `doParseViewFile` appends the registered names, guarded, line by line, or throws when the file is missing |
| `Dependence.DependenceController.DoParseControllerFile` | DependenceController.php:142-164 | `doParseControllerFile` scans each rendered view in line order and stops at the first missing one |
| `Dependence.DependenceController.DoParseControllerLine` | DependenceController.php:152-159 | one controller line scans the view its render argument names, when the argument is longer than 2 characters |
| `Dependence.DependenceController.DoParseFile` | DependenceController.php:122-136 | `doParseFile` adds the bundle an asset file names, or scans the file as a controller or a view |
| `Dependence.DependenceController.DoParsePath` | DependenceController.php:111-116 | `doParsePath` parses the directory's `*.php` entries in `glob` order |
| `Dependence.DependenceController.DoParseSrcEntry` | DependenceController.php:88-97 | a source entry is tested as a directory, then as a bundle class name (added verbatim), then as an existing file |
| `Dependence.DependenceController.LoadTask` | DependenceController.php:79-106 | `loadTask` leaves exactly the list `Scan.TaskBundles` specifies, or throws its exception |
| `Dependence.DependenceController.DoParseBundle` | DependenceController.php:197-216 | `doParseBunble` appends the bundle's expansion to the data of one property and leaves the other untouched |
| `Dependence.DependenceController.ParseBundles` | DependenceController.php:61-64 | the loop over the loaded bundles appends each property's collection |
| `Dependence.DependenceController.RunTask` | DependenceController.php:55-66 | one task writes the manifests `Scan.TaskRun` specifies, or throws its exception; it leaves the list `loadTask` specifies and extends the data by the loaded bundles' files (`TaskEffect`) |
| `Dependence.DependenceController.RunTaskAt` | DependenceController.php:51-71 | one pass of the task loop is one step of `Scan.RunTasks`: an exception ends the run, otherwise the next task starts from an empty list and empty data |
| `Dependence.DependenceController.CreateList` | DependenceController.php:38-72 | `actionCreateList` writes exactly the manifests of `Scan.Run` and throws its exception |
| `Dependence.DependenceController.RunTasksFrom` | DependenceController.php:51-71 | the task loop writes the manifests of every task in order, resetting the list and the data after each |
| `Properties.TaskBundlesMembers` | DependenceController.php:79-106 | a task's list holds exactly the earlier and the discovered names minus the excluded ones, without duplicates |
| `Properties.TaskBundlesOrder` | DependenceController.php:87-105 | the list keeps the order of first discovery: it is an ordered selection of the de-duplicated discoveries |
| `Properties.ExpandMembers` | DependenceController.php:202-214 | a path is contributed exactly when some declared entry's `.min`-stripped name is not excluded and exists under the source directory |
| `Properties.StripMinRemoves` | DependenceController.php:204 | `b.min.css` is read as `b.css` |
| `Properties.StripMinKeeps` | DependenceController.php:204 | `a.css` and `c.js` are unchanged |
| `Properties.AssetFileIsBundle` | DependenceController.php:126-130 | a file `<w>Asset.php` with non-empty `<w>` yields the bundle `namespace + <w>Asset` |
| `Properties.BareAssetFileIsView` | DependenceController.php:126-134 | a file named exactly `Asset.php` is scanned as a view |
| `Properties.ControllerFileIsController` | DependenceController.php:131-132 | a file `<w>Controller.php` that does not contain `Asset.php` is scanned as a controller |
| `Properties.ControllerIdOf` | DependenceController.php:148 | the id of `<w>Controller.php` is `<w>` in lower case when `Controller.php` does not start inside `<w>` |
| `Properties.ControllerIdExample` | DependenceController.php:148 | the id of `SiteController.php` is `site` |
| `Properties.ViewFilePathEnclosed` | DependenceController.php:154-156 | a render argument loses its first and last characters, whatever they are |
| `Properties.ViewFilePathQuoted` | DependenceController.php:154-156 | `'v'` renders `<viewPath>/<id>/v.php` |
| `Properties.ViewFilePathUnquoted` | DependenceController.php:154-156 | `render($view)` names the file `vie.php` |
| `Properties.ViewLineExample` | DependenceController.php:179-183 | with namespace `app\assets\`, `FooAsset::register($this);` registers `app\assets\FooAsset` |
| `Properties.CommonManifestLast` | DependenceController.php:242-247 | the combined manifest is written last and starts with the first CSS path |
| `Properties.SingleClassTask` | DependenceController.php:51-66 | a task whose only source is a registered class writes the manifests of that bundle's files |
| `Properties.OneTaskRun` | DependenceController.php:43-71 | a configuration with one task reports exactly what that task writes or throws |
| `Properties.ScenarioRun` | DependenceController.php:51-71 | the `a.css`/`b.min.css`/`c.js` example with `b.css` excluded writes `["src/a.css"]`, `["src/c.js"]` and both together |

## Left out

- `actionTemplate` is not modelled. It only writes a fixed configuration template to disk.
- `loadConfiguration` is not modelled. The configuration arrives already loaded as a `Config` value.
- `loadBundles` (inherited from Yii's `AssetController`) is modelled as a registry lookup that throws on an unknown name. Its expansion of `depends` and its publishing of bundles are not modelled.
- `Yii::getAlias` is the identity. `Yii::$app->getViewPath()` is a fixed value of the environment.
- Reading files is modelled as a given list of lines per file. A failing `fopen` is not modelled: an existing file always opens.
- Writing is modelled as the list of manifests (path and entries) a run produces.
  - The JSON encoding is not modelled.
  - A failing `file_put_contents` is not modelled.
  - The console messages (`stdout`) are not modelled.
- `glob` returns entries in the order the environment lists them. Its sorting is not modelled.
- `in_array` is called without its strict flag, so PHP compares loosely: two numeric strings such as `"10"` and `"1e1"` count as equal. The model compares names exactly. `array_diff` compares the string forms strictly, as the model does.
- PHP strings are byte strings. `strlen` (lines 153, 180), `substr` (lines 127, 156), `strtolower`, `trim` and `\w` count and test bytes. The model's strings are sequences of characters, so it agrees with the source on ASCII text only. For example, the render argument `éa` is 3 bytes long in UTF-8 and passes the `strlen(...) > 2` test in PHP, but it is 2 characters long in the model and does not.
- `property_exists` is taken as true: every bundle has `css` and `js` lists.
- Each line is matched on its own, as `fgets` returns it. A `render` or `register` call split over several lines is not modelled.
- Two loop bodies are separate methods in the model: one line of `doParseControllerFile` (`DoParseControllerLine`) and one source entry of `loadTask` (`DoParseSrcEntry`). So are the passes of the task loop (`RunTask`, `RunTasksFrom`). The PHP has them inline.
- Paths use `/` as `DIRECTORY_SEPARATOR`.
