/**
 * The scanner's behaviour as functions: what each stage of
 * `DependenceController` computes from its inputs. The filesystem, the
 * bundle registry and the application's view directory are injected as
 * values (`Env`); `Yii::getAlias` is the identity.
 *
 * Scanning functions return the bundle names they discover, in discovery
 * order and with repetitions (`Refs`); the controller appends them to its
 * list with the guarded append of `Lists.AddAll`.
 */
module Scan {
  import opened Wrappers
  import opened Strings
  import opened Patterns
  import opened Lists

  /** The exceptions the controller throws. */
  datatype Error =
    | MissingConfigPath
    | MissingNamespaceAsset
    | MissingSrc
    | NoSuchFile(path: string)
    | UnknownBundle(name: string)

  type Refs = Result<seq<string>, Error>

  /** A configuration value: unset (or null), a single string, or a list of strings. */
  datatype Setting = Absent | Scalar(text: string) | List(items: seq<string>)

  datatype Task = Task(name: string, src: Setting, exclude: Setting)

  /** The options the controller reads: `dependenceManager` and `task`. */
  datatype Config = Config(configPath: Option<string>, namespaceAsset: Option<string>, tasks: seq<Task>)

  /** What the registry yields for a bundle name: its directories and declared files. */
  datatype Bundle = Bundle(sourcePath: Option<string>, basePath: string, css: seq<string>, js: seq<string>)

  datatype Property = Css | Js

  /**
   * The filesystem as the scanner sees it: each file's lines (as `fgets`
   * returns them) and each directory's entry names, in the order `glob`
   * lists them.
   */
  datatype FileSystem = FileSystem(files: map<string, seq<string>>, dirs: map<string, seq<string>>) {
    predicate Exists(p: string) { p in files || p in dirs }
    predicate IsDir(p: string) { p in dirs }
    function Lines(p: string): seq<string> { if p in files then files[p] else [] }
    function Children(p: string): seq<string> { if p in dirs then dirs[p] else [] }
  }

  /** Everything outside the controller: filesystem, bundle registry, view directory. */
  datatype Env = Env(fs: FileSystem, registry: map<string, Bundle>, viewPath: string)

  /** One JSON file to write: its path and the array of paths it holds. */
  datatype Manifest = Manifest(path: string, entries: seq<string>)

  /** What a run produced: the manifests written, in order, and the exception that ended it, if any. */
  datatype Report = Report(written: seq<Manifest>, thrown: Option<Error>)

  // ---------------------------------------------------------------------
  // Configuration values

  /** PHP `!isset($v) || empty($v)` for a string option: unset, "" and "0" count as empty. */
  predicate EmptyValue(v: Option<string>)
    ensures !EmptyValue(v) ==> v.Some? && |v.value| > 0
  {
    v.None? || v.value == "" || v.value == "0"
  }

  /** PHP `!isset($task['src']) || empty($task['src'])`. */
  predicate EmptySetting(v: Setting)
    ensures !EmptySetting(v) ==> AsList(v) != []
    ensures EmptySetting(v) ==> forall e | e in AsList(v) :: e == "" || e == "0"
  {
    match v
    case Absent => true
    case Scalar(t) => t == "" || t == "0"
    case List(items) => items == []
  }

  /** `(array) $v` for a set value; an unset value gives the empty list. */
  function AsList(v: Setting): (r: seq<string>)
    ensures v.Scalar? ==> r == [v.text]
    ensures v.List? ==> r == v.items
    ensures v.Absent? ==> r == []
  {
    match v
    case Absent => []
    case Scalar(t) => [t]
    case List(items) => items
  }

  // ---------------------------------------------------------------------
  // Sequencing of scan results

  /** Run `a`, then `b`: the first exception wins, otherwise the discoveries concatenate. */
  function Then(a: Refs, b: Refs): (r: Refs)
    ensures a.Err? ==> r == a
    ensures a.Ok? && b.Err? ==> r == b
    ensures a.Ok? && b.Ok? ==> r == Ok(a.value + b.value)
  {
    match a
    case Err(_) => a
    case Ok(x) =>
      match b
      case Err(_) => b
      case Ok(y) => Ok(x + y)
  }

  /** Sequencing is associative: a scan may be split at any point. */
  lemma ThenAssoc(a: Refs, b: Refs, c: Refs)
    ensures Then(Then(a, b), c) == Then(a, Then(b, c))
  {
    if a.Ok? && b.Ok? && c.Ok? {
      AppendAssoc(a.value, b.value, c.value);
    }
  }

  /** A scan that finds nothing is the unit of sequencing. */
  lemma ThenUnit(a: Refs)
    ensures Then(Ok([]), a) == a && Then(a, Ok([])) == a
  {
    if a.Ok? {
      assert [] + a.value == a.value + [] == a.value;
    }
  }

  predicate OnlyMissingFiles(r: Refs) {
    r.Err? ==> r.error.NoSuchFile?
  }

  // ---------------------------------------------------------------------
  // View files (doParseViewFile)

  /** The bundle a single view line registers: `namespace + <Word>Asset` for the first match. */
  function ViewLineRefs(ns: string, line: string): (r: seq<string>)
    ensures |r| <= 1
  {
    match RegisterCapture(line)
    case Some(w) => if |w| > 2 then [ns + w] else []
    case None => []
  }

  lemma ViewLineRefsShape(ns: string, line: string)
    ensures forall n | n in ViewLineRefs(ns, line) :: |n| >= |ns| + 6 && n[..|ns|] == ns && EndsWith(n, "Asset")
    ensures forall n | n in ViewLineRefs(ns, line) :: forall k | |ns| <= k < |n| :: IsWordChar(n[k])
  {
    if ViewLineRefs(ns, line) != [] {
      PrefixedName(ns, RegisterCapture(line).value);
    }
  }

  /** The namespace followed by a captured name keeps the capture's shape after the namespace. */
  lemma PrefixedName(ns: string, w: string)
    requires |w| >= 6 && EndsWith(w, "Asset") && forall k | 0 <= k < |w| :: IsWordChar(w[k])
    ensures var n := ns + w; |n| >= |ns| + 6 && n[..|ns|] == ns && EndsWith(n, "Asset")
    ensures var n := ns + w; forall k | |ns| <= k < |n| :: IsWordChar(n[k])
  {
    assert (ns + w)[|ns + w| - 5..] == w[|w| - 5..];
    assert (ns + w)[..|ns|] == ns;
    forall k | |ns| <= k < |ns + w| ensures IsWordChar((ns + w)[k]) {
      assert (ns + w)[k] == w[k - |ns|];
    }
  }

  /** Bundle names registered by a view's lines, in line order. */
  function ViewRefs(ns: string, lines: seq<string>): (r: seq<string>)
    ensures |r| <= |lines|
    ensures forall n | n in r :: |n| >= |ns| + 6 && n[..|ns|] == ns && EndsWith(n, "Asset")
    ensures forall n | n in r :: forall k | |ns| <= k < |n| :: IsWordChar(n[k])
  {
    if lines == [] then []
    else
      var init := ViewRefs(ns, lines[..|lines| - 1]);
      var last := ViewLineRefs(ns, lines[|lines| - 1]);
      ViewLineRefsShape(ns, lines[|lines| - 1]);
      init + last
  }

  function ViewFileRefs(env: Env, ns: string, path: string): (r: Refs)
    ensures OnlyMissingFiles(r)
    ensures r.Err? <==> !env.fs.Exists(path)
  {
    if !env.fs.Exists(path) then Err(NoSuchFile(path))
    else Ok(ViewRefs(ns, env.fs.Lines(path)))
  }

  // ---------------------------------------------------------------------
  // Controller files (doParseControllerFile)

  /** `strtolower(str_replace('Controller.php', '', $basename))`. */
  function ControllerId(base: string): (r: string)
    ensures |r| <= |base|
    ensures forall i | 0 <= i < |r| :: !IsUpper(r[i])
  {
    ToLower(RemoveAll(base, "Controller.php"))
  }

  /** `<viewPath>/<controllerId>/<argument trimmed, first and last character dropped>.php`. */
  function ViewFilePath(viewPath: string, id: string, arg: string): (r: string)
    ensures |r| >= |viewPath| + |id| + 6
    ensures r[..|viewPath| + |id| + 2] == viewPath + "/" + id + "/"
    ensures EndsWith(r, ".php")
    ensures |arg| >= 2 ==> |r| <= |viewPath| + |id| + |arg| + 4
  {
    var r := viewPath + "/" + id + "/" + DropEnds(Trim(arg)) + ".php";
    assert r == (viewPath + "/" + id + "/") + (DropEnds(Trim(arg)) + ".php");
    r
  }

  /** The view a controller line renders, when its render argument is longer than 2 characters. */
  function ControllerLineView(viewPath: string, id: string, line: string): Option<string> {
    match RenderCapture(line)
    case Some(arg) => if |arg| > 2 then Some(ViewFilePath(viewPath, id, arg)) else None
    case None => None
  }

  function ControllerLineRefs(env: Env, ns: string, id: string, line: string): (r: Refs)
    ensures OnlyMissingFiles(r)
  {
    match ControllerLineView(env.viewPath, id, line)
    case Some(view) => ViewFileRefs(env, ns, view)
    case None => Ok([])
  }

  /** The bundles registered through the views a controller's lines render, in line order. */
  function ControllerRefs(env: Env, ns: string, id: string, lines: seq<string>): (r: Refs)
    ensures OnlyMissingFiles(r)
  {
    if lines == [] then Ok([])
    else Then(ControllerRefs(env, ns, id, lines[..|lines| - 1]),
              ControllerLineRefs(env, ns, id, lines[|lines| - 1]))
  }

  function ControllerFileRefs(env: Env, ns: string, path: string): (r: Refs)
    ensures OnlyMissingFiles(r)
  {
    if !env.fs.Exists(path) then Err(NoSuchFile(path))
    else ControllerRefs(env, ns, ControllerId(Basename(path)), env.fs.Lines(path))
  }

  // ---------------------------------------------------------------------
  // Any file (doParseFile)

  /** `namespace . substr($basename, 0, -4)`. */
  function BundleNameOf(ns: string, base: string): (r: string)
    ensures |base| >= 4 ==> r + base[|base| - 4..] == ns + base
    ensures |base| < 4 ==> r == ns
  {
    ns + DropLast(base, 4)
  }

  /** Classification by basename: bundle class, controller, or otherwise view. */
  function FileRefs(env: Env, ns: string, path: string): (r: Refs)
    ensures OnlyMissingFiles(r)
  {
    var base := Basename(path);
    if StrrposTruthy(base, "Asset.php") then Ok([BundleNameOf(ns, base)])
    else if StrrposTruthy(base, "Controller.php") then ControllerFileRefs(env, ns, path)
    else ViewFileRefs(env, ns, path)
  }

  // ---------------------------------------------------------------------
  // Directories (doParsePath) and source entries (loadTask)

  /** A name `glob('*.php')` matches: ends in `.php` and is not hidden. */
  predicate IsPhpName(n: string) {
    EndsWith(n, ".php") && n[0] != '.'
  }

  // The paths that `glob` of the pattern `<dir>/*.php` returns for the directory entries `names`.
  function PhpEntries(dir: string, names: seq<string>): (r: seq<string>)
    ensures forall f | f in r :: exists n | n in names :: IsPhpName(n) && f == dir + "/" + n
    ensures forall n | n in names && IsPhpName(n) :: dir + "/" + n in r
  {
    if names == [] then []
    else
      var rest := PhpEntries(dir, names[1..]);
      assert forall n | n in names[1..] :: n in names;
      if IsPhpName(names[0]) then [dir + "/" + names[0]] + rest else rest
  }

  function Glob(fs: FileSystem, dir: string): (r: seq<string>)
    ensures forall f | f in r :: exists n | n in fs.Children(dir) :: IsPhpName(n) && f == dir + "/" + n
    ensures forall n | n in fs.Children(dir) && IsPhpName(n) :: dir + "/" + n in r
    ensures !fs.IsDir(dir) ==> r == []
  {
    PhpEntries(dir, fs.Children(dir))
  }

  function PathRefs(env: Env, ns: string, files: seq<string>): (r: Refs)
    ensures OnlyMissingFiles(r)
  {
    if files == [] then Ok([])
    else Then(PathRefs(env, ns, files[..|files| - 1]), FileRefs(env, ns, files[|files| - 1]))
  }

  /**
   * One configured source entry, in the source's order of tests: a
   * directory, then a bundle class name (kept verbatim), then an existing
   * file; anything else is ignored.
   */
  function SrcEntryRefs(env: Env, ns: string, path: string): (r: Refs)
    ensures OnlyMissingFiles(r)
  {
    if env.fs.IsDir(path) then PathRefs(env, ns, Glob(env.fs, path))
    else if IsBundleClassPath(path) then Ok([path])
    else if env.fs.Exists(path) then FileRefs(env, ns, path)
    else Ok([])
  }

  function SrcRefs(env: Env, ns: string, srcs: seq<string>): (r: Refs)
    ensures OnlyMissingFiles(r)
  {
    if srcs == [] then Ok([])
    else Then(SrcRefs(env, ns, srcs[..|srcs| - 1]), SrcEntryRefs(env, ns, srcs[|srcs| - 1]))
  }

  /**
   * `loadTask`: the bundle list after scanning every source entry onto
   * `bs`, with excluded names removed afterwards.
   */
  function TaskBundles(env: Env, ns: string, src: Setting, exclude: seq<string>, bs: seq<string>): (r: Result<seq<string>, Error>)
    ensures r == Err(MissingSrc) <==> EmptySetting(src)
    ensures r.Ok? ==> forall n | n in r.value :: n !in exclude
  {
    if EmptySetting(src) then Err(MissingSrc)
    else
      match SrcRefs(env, ns, AsList(src))
      case Err(e) => Err(e)
      case Ok(refs) =>
        var all := AddAll(bs, refs);
        Ok(if |exclude| > 0 then Without(all, exclude) else all)
  }

  // ---------------------------------------------------------------------
  // Bundle expansion (doParseBunble)

  function SourceDir(b: Bundle): (r: string)
    ensures b.sourcePath.Some? ==> r == b.sourcePath.value
    ensures b.sourcePath.None? ==> r == b.basePath
  {
    match b.sourcePath
    case None => b.basePath
    case Some(p) => p
  }

  function Declared(b: Bundle, property: Property): seq<string> {
    match property
    case Css => b.css
    case Js => b.js
  }

  /** `str_replace('.min', '', $element)`. */
  function StripMin(element: string): (r: string)
    ensures |r| <= |element|
  {
    RemoveAll(element, ".min")
  }

  /** A declared name is used as it is exactly when `.min` does not occur in it. */
  lemma StripMinUnchangedIff(element: string)
    ensures StripMin(element) == element <==> forall k :: !OccursAt(element, ".min", k)
  {
    RemoveAllUnchangedIff(element, ".min");
  }

  /** The path one declared entry contributes: none when excluded or missing on disk. */
  function ExpandEntry(fs: FileSystem, dir: string, exclude: seq<string>, element: string): (r: seq<string>)
    ensures |r| <= 1
  {
    var name := StripMin(element);
    if name in exclude then []
    else
      var path := dir + "/" + name;
      if fs.Exists(path) then [path] else []
  }

  /** The paths a list of declared entries contributes, in declaration order. */
  function Expand(fs: FileSystem, dir: string, elements: seq<string>, exclude: seq<string>): (r: seq<string>)
    ensures |r| <= |elements|
    ensures forall p | p in r :: fs.Exists(p)
  {
    if elements == [] then []
    else Expand(fs, dir, elements[..|elements| - 1], exclude)
         + ExpandEntry(fs, dir, exclude, elements[|elements| - 1])
  }

  /** The paths all bundles contribute for one property, bundle by bundle. */
  function Collect(fs: FileSystem, bundles: seq<Bundle>, property: Property, exclude: seq<string>): (r: seq<string>)
    ensures forall p | p in r :: fs.Exists(p)
  {
    if bundles == [] then []
    else
      var b := bundles[|bundles| - 1];
      Collect(fs, bundles[..|bundles| - 1], property, exclude)
        + Expand(fs, SourceDir(b), Declared(b, property), exclude)
  }

  /** `loadBundles`: every name resolved through the registry; an unknown name throws. */
  function LoadBundles(registry: map<string, Bundle>, names: seq<string>): (r: Result<seq<Bundle>, Error>)
    ensures r.Ok? <==> forall n | n in names :: n in registry
    ensures r.Ok? ==> |r.value| == |names| && forall i | 0 <= i < |names| :: r.value[i] == registry[names[i]]
    ensures r.Err? ==> r.error.UnknownBundle? && r.error.name in names && r.error.name !in registry
  {
    if names == [] then Ok([])
    else if names[0] !in registry then Err(UnknownBundle(names[0]))
    else
      match LoadBundles(registry, names[1..])
      case Err(e) => Err(e)
      case Ok(rest) => Ok([registry[names[0]]] + rest)
  }

  // ---------------------------------------------------------------------
  // Manifests (doWriteFile)

  function CssManifestPath(configPath: string, task: string): string { configPath + "/" + task + "-css.json" }
  function JsManifestPath(configPath: string, task: string): string { configPath + "/" + task + "-js.json" }
  function CommonManifestPath(configPath: string, task: string): string { configPath + "/" + task + ".json" }

  /**
   * The files `doWriteFile` writes, in order: the CSS list, the JS list,
   * and their concatenation, each only when non-empty.
   */
  function Manifests(configPath: string, task: string, css: seq<string>, js: seq<string>): (r: seq<Manifest>)
    ensures css != [] <==> Manifest(CssManifestPath(configPath, task), css) in r
    ensures js != [] <==> Manifest(JsManifestPath(configPath, task), js) in r
    ensures css + js != [] <==> Manifest(CommonManifestPath(configPath, task), css + js) in r
    ensures forall m | m in r :: m.entries != []
    ensures r == [] <==> css == [] && js == []
  {
    var common := (if |css| > 0 then css else []) + (if |js| > 0 then js else []);
    (if |css| > 0 then [Manifest(CssManifestPath(configPath, task), css)] else [])
      + (if |js| > 0 then [Manifest(JsManifestPath(configPath, task), js)] else [])
      + (if |common| > 0 then [Manifest(CommonManifestPath(configPath, task), common)] else [])
  }

  /**
   * The manifests are exactly the non-empty ones of the three, in the
   * order CSS, JS, combined.
   */
  lemma ManifestsLayout(configPath: string, task: string, css: seq<string>, js: seq<string>)
    ensures var r := Manifests(configPath, task, css, js);
      |r| == (if css != [] then 1 else 0) + (if js != [] then 1 else 0) + (if css + js != [] then 1 else 0)
    ensures var r := Manifests(configPath, task, css, js);
      forall m | m in r :: m == Manifest(CssManifestPath(configPath, task), css)
                        || m == Manifest(JsManifestPath(configPath, task), js)
                        || m == Manifest(CommonManifestPath(configPath, task), css + js)
    ensures var r := Manifests(configPath, task, css, js);
      && (css != [] ==> r[0] == Manifest(CssManifestPath(configPath, task), css))
      && (js != [] ==> r[|r| - 2] == Manifest(JsManifestPath(configPath, task), js))
      && (r != [] ==> r[|r| - 1] == Manifest(CommonManifestPath(configPath, task), css + js))
  {
  }

  // ---------------------------------------------------------------------
  // The task loop (actionCreateList)

  /**
   * One task, starting from the controller's current bundle list and
   * data: scan, and when bundles remain, expand them (JS before CSS per
   * bundle) and write.
   */
  function TaskRun(env: Env, ns: string, configPath: string, task: Task,
                   bs: seq<string>, css: seq<string>, js: seq<string>): (r: Result<seq<Manifest>, Error>)
    ensures TaskBundles(env, ns, task.src, AsList(task.exclude), bs) == Ok([]) ==> r == Ok([])
    ensures TaskBundles(env, ns, task.src, AsList(task.exclude), bs).Err? ==>
              r == Err(TaskBundles(env, ns, task.src, AsList(task.exclude), bs).error)
    ensures r.Err? ==> r.error.MissingSrc? || r.error.NoSuchFile? || r.error.UnknownBundle?
    ensures r.Ok? ==> |r.value| <= 3 && forall m | m in r.value :: m.entries != []
  {
    var exclude := AsList(task.exclude);
    match TaskBundles(env, ns, task.src, exclude, bs)
    case Err(e) => Err(e)
    case Ok(names) =>
      if |names| == 0 then Ok([])
      else
        match LoadBundles(env.registry, names)
        case Err(e) => Err(e)
        case Ok(loaded) =>
          Ok(Manifests(configPath, task.name,
                       css + Collect(env.fs, loaded, Css, exclude),
                       js + Collect(env.fs, loaded, Js, exclude)))
  }

  function Prepend(ms: seq<Manifest>, r: Report): Report {
    Report(ms + r.written, r.thrown)
  }

  /** The tasks in order; every task after the first starts from an empty list and empty data. */
  function RunTasks(env: Env, ns: string, configPath: string, tasks: seq<Task>,
                    bs: seq<string>, css: seq<string>, js: seq<string>): (r: Report)
    ensures forall m | m in r.written :: m.entries != []
    ensures r.thrown.Some? ==> r.thrown.value.MissingSrc? || r.thrown.value.NoSuchFile? || r.thrown.value.UnknownBundle?
  {
    if tasks == [] then Report([], None)
    else
      match TaskRun(env, ns, configPath, tasks[0], bs, css, js)
      case Err(e) => Report([], Some(e))
      case Ok(ms) => Prepend(ms, RunTasks(env, ns, configPath, tasks[1..], [], [], []))
  }

  /** `actionCreateList` after the configuration is loaded. */
  function Run(env: Env, config: Config, bs: seq<string>, css: seq<string>, js: seq<string>): (r: Report)
    ensures EmptyValue(config.configPath) || EmptyValue(config.namespaceAsset) ==> r.written == [] && r.thrown.Some?
    ensures forall m | m in r.written :: m.entries != []
    ensures r.thrown == Some(MissingConfigPath) <==> EmptyValue(config.configPath)
    ensures r.thrown == Some(MissingNamespaceAsset) <==> !EmptyValue(config.configPath) && EmptyValue(config.namespaceAsset)
  {
    if EmptyValue(config.configPath) then Report([], Some(MissingConfigPath))
    else if EmptyValue(config.namespaceAsset) then Report([], Some(MissingNamespaceAsset))
    else RunTasks(env, config.namespaceAsset.value, config.configPath.value, config.tasks, bs, css, js)
  }

  // ---------------------------------------------------------------------
  // One more element of a scan

  lemma ViewRefsStep(ns: string, lines: seq<string>, i: nat)
    requires i < |lines|
    ensures ViewRefs(ns, lines[..i + 1]) == ViewRefs(ns, lines[..i]) + ViewLineRefs(ns, lines[i])
  {
    assert lines[..i + 1][..i] == lines[..i];
  }

  lemma ExpandStep(fs: FileSystem, dir: string, elements: seq<string>, i: nat, exclude: seq<string>)
    requires i < |elements|
    ensures Expand(fs, dir, elements[..i + 1], exclude)
         == Expand(fs, dir, elements[..i], exclude) + ExpandEntry(fs, dir, exclude, elements[i])
  {
    assert elements[..i + 1][..i] == elements[..i];
  }

  lemma ControllerRefsStep(env: Env, ns: string, id: string, lines: seq<string>, i: nat)
    requires i < |lines|
    ensures ControllerRefs(env, ns, id, lines[..i + 1])
         == Then(ControllerRefs(env, ns, id, lines[..i]), ControllerLineRefs(env, ns, id, lines[i]))
  {
    assert lines[..i + 1][..i] == lines[..i];
  }

  lemma PathRefsStep(env: Env, ns: string, files: seq<string>, i: nat)
    requires i < |files|
    ensures PathRefs(env, ns, files[..i + 1]) == Then(PathRefs(env, ns, files[..i]), FileRefs(env, ns, files[i]))
  {
    assert files[..i + 1][..i] == files[..i];
  }

  lemma SrcRefsStep(env: Env, ns: string, srcs: seq<string>, i: nat)
    requires i < |srcs|
    ensures SrcRefs(env, ns, srcs[..i + 1]) == Then(SrcRefs(env, ns, srcs[..i]), SrcEntryRefs(env, ns, srcs[i]))
  {
    assert srcs[..i + 1][..i] == srcs[..i];
  }

  lemma CollectStep(fs: FileSystem, loaded: seq<Bundle>, k: nat, property: Property, exclude: seq<string>)
    requires k < |loaded|
    ensures Collect(fs, loaded[..k + 1], property, exclude)
         == Collect(fs, loaded[..k], property, exclude)
            + Expand(fs, SourceDir(loaded[k]), Declared(loaded[k], property), exclude)
  {
    assert loaded[..k + 1][..k] == loaded[..k];
  }

  /** One more task: its manifests come first, and the next task starts from scratch. */
  lemma RunTasksStep(env: Env, ns: string, configPath: string, tasks: seq<Task>, i: nat,
                     bs: seq<string>, css: seq<string>, js: seq<string>)
    requires i < |tasks|
    ensures RunTasks(env, ns, configPath, tasks[i..], bs, css, js)
         == match TaskRun(env, ns, configPath, tasks[i], bs, css, js)
            case Err(e) => Report([], Some(e))
            case Ok(ms) => Prepend(ms, RunTasks(env, ns, configPath, tasks[i + 1..], [], [], []))
  {
    assert tasks[i..][0] == tasks[i] && tasks[i..][1..] == tasks[i + 1..];
  }

  /** What the task loop does with the outcome of task `i`: stop at its exception, or write and go on afresh. */
  lemma RunTasksNext(env: Env, ns: string, configPath: string, tasks: seq<Task>, i: nat,
                     bs: seq<string>, css: seq<string>, js: seq<string>,
                     ms: seq<Manifest>, thrown: Option<Error>)
    requires i < |tasks|
    requires match TaskRun(env, ns, configPath, tasks[i], bs, css, js)
             case Ok(written) => thrown.None? && ms == written
             case Err(e) => thrown == Some(e) && ms == []
    ensures thrown.Some? ==> RunTasks(env, ns, configPath, tasks[i..], bs, css, js) == Report([], thrown)
    ensures thrown.None? ==> RunTasks(env, ns, configPath, tasks[i..], bs, css, js)
                             == Prepend(ms, RunTasks(env, ns, configPath, tasks[i + 1..], [], [], []))
  {
    RunTasksStep(env, ns, configPath, tasks, i, bs, css, js);
  }

  /** Writing `ms` after `written` is writing `written + ms`. */
  lemma PrependPrepend(written: seq<Manifest>, ms: seq<Manifest>, r: Report)
    ensures Prepend(written, Prepend(ms, r)) == Prepend(written + ms, r)
  {
    AppendAssoc(written, ms, r.written);
  }

  // ---------------------------------------------------------------------
  // Exceptions stop a scan: an exception in a prefix is the exception of the whole.

  lemma {:induction false} ControllerRefsStops(env: Env, ns: string, id: string, lines: seq<string>, k: nat)
    requires k <= |lines| && ControllerRefs(env, ns, id, lines[..k]).Err?
    ensures ControllerRefs(env, ns, id, lines) == ControllerRefs(env, ns, id, lines[..k])
    decreases |lines| - k
  {
    if k < |lines| {
      assert lines[..k + 1][..k] == lines[..k];
      ControllerRefsStops(env, ns, id, lines, k + 1);
    } else {
      assert lines[..k] == lines;
    }
  }

  lemma {:induction false} PathRefsStops(env: Env, ns: string, files: seq<string>, k: nat)
    requires k <= |files| && PathRefs(env, ns, files[..k]).Err?
    ensures PathRefs(env, ns, files) == PathRefs(env, ns, files[..k])
    decreases |files| - k
  {
    if k < |files| {
      assert files[..k + 1][..k] == files[..k];
      PathRefsStops(env, ns, files, k + 1);
    } else {
      assert files[..k] == files;
    }
  }

  lemma {:induction false} SrcRefsStops(env: Env, ns: string, srcs: seq<string>, k: nat)
    requires k <= |srcs| && SrcRefs(env, ns, srcs[..k]).Err?
    ensures SrcRefs(env, ns, srcs) == SrcRefs(env, ns, srcs[..k])
    decreases |srcs| - k
  {
    if k < |srcs| {
      assert srcs[..k + 1][..k] == srcs[..k];
      SrcRefsStops(env, ns, srcs, k + 1);
    } else {
      assert srcs[..k] == srcs;
    }
  }
}
