/**
 * `DependenceController` as a class: the bundle-name list and the CSS/JS
 * data are fields the methods update step by step, as the PHP methods do
 * with `$this->bundles` and `$this->data`. Each method is proved against
 * the function of module `Scan` that specifies it.
 */
module Dependence {
  import opened Wrappers
  import opened Strings
  import opened Patterns
  import opened Lists
  import opened Scan

  /**
   * A scanning method followed its specification `spec`: on success it
   * threw nothing and appended the discovered names with the guarded
   * append; otherwise it threw the specified exception, having only
   * appended to the list before it did.
   */
  ghost predicate Follows(spec: Refs, thrown: Option<Error>, before: seq<string>, after: seq<string>) {
    match spec
    case Ok(refs) => thrown.None? && after == AddAll(before, refs)
    case Err(e) => thrown == Some(e) && before <= after
  }

  /** A scan that succeeded, followed by one more step, follows the two steps combined. */
  lemma FollowsThen(prev: Refs, step: Refs, before: seq<string>, mid: seq<string>, after: seq<string>, thrown: Option<Error>)
    requires Follows(prev, None, before, mid) && Follows(step, thrown, mid, after)
    ensures Follows(Then(prev, step), thrown, before, after)
  {
    if step.Ok? {
      AddAllConcat(before, prev.value, step.value);
    }
  }

  /**
   * What one task leaves in the controller's fields: the scanned bundle
   * list, and the data extended by the loaded bundles' CSS and JS files
   * (unchanged when the scan or the loading threw).
   */
  ghost predicate TaskEffect(env: Env, ns: string, task: Task, bs: seq<string>, css: seq<string>, js: seq<string>,
                             bs': seq<string>, css': seq<string>, js': seq<string>) {
    var exclude := AsList(task.exclude);
    match TaskBundles(env, ns, task.src, exclude, bs)
    case Err(_) => css' == css && js' == js
    case Ok(names) =>
      bs' == names
      && match LoadBundles(env.registry, names)
         case Ok(loaded) => css' == css + Collect(env.fs, loaded, Css, exclude)
                            && js' == js + Collect(env.fs, loaded, Js, exclude)
         case Err(_) => css' == css && js' == js
  }

  function Other(property: Property): Property {
    match property
    case Css => Js
    case Js => Css
  }

  class DependenceController {
    /** The filesystem, the bundle registry and the application's view directory. */
    const env: Env
    /** `$this->bundles`: bundle names found so far in the current task. */
    var bundles: seq<string>
    /** `$this->data['css']` and `$this->data['js']`. */
    var css: seq<string>
    var js: seq<string>

    constructor (env: Env)
      ensures this.env == env && bundles == [] && css == [] && js == []
    {
      this.env := env;
      bundles := [];
      css := [];
      js := [];
    }

    function Data(property: Property): seq<string>
      reads this
    {
      match property
      case Css => css
      case Js => js
    }

    /** `doParseViewFile`: registers `namespace + <Word>Asset` for each view line that calls `::register`. */
    method DoParseViewFile(ns: string, filename: string) returns (thrown: Option<Error>)
      modifies this`bundles
      ensures Follows(ViewFileRefs(env, ns, filename), thrown, old(bundles), bundles)
    {
      if !env.fs.Exists(filename) {
        return Some(NoSuchFile(filename));
      }
      var lines := env.fs.Lines(filename);
      var i := 0;
      assert lines[..0] == [];
      assert bundles == AddAll(old(bundles), []);
      while i < |lines|
        invariant 0 <= i <= |lines|
        invariant bundles == AddAll(old(bundles), ViewRefs(ns, lines[..i]))
      {
        ghost var mid := bundles;
        ghost var found := ViewLineRefs(ns, lines[i]);
        assert AddAll(old(bundles), ViewRefs(ns, lines[..i + 1])) == AddAll(mid, found) by {
          ViewRefsStep(ns, lines, i);
          AddAllConcat(old(bundles), ViewRefs(ns, lines[..i]), found);
        }
        var display := RegisterCapture(lines[i]);
        if display.Some? && |display.value| > 2 {
          var nameBundle := ns + display.value;
          assert found == [nameBundle];
          if nameBundle !in bundles {
            bundles := bundles + [nameBundle];
          }
          AddAllOne(mid, nameBundle);
        } else {
          assert found == [];
        }
        assert bundles == AddAll(mid, found);
        i := i + 1;
      }
      assert lines[..i] == lines;
      thrown := None;
    }

    /** `doParseControllerFile`: scans the view each `render(...)` line names. */
    method DoParseControllerFile(ns: string, filename: string) returns (thrown: Option<Error>)
      modifies this`bundles
      ensures Follows(ControllerFileRefs(env, ns, filename), thrown, old(bundles), bundles)
    {
      if !env.fs.Exists(filename) {
        return Some(NoSuchFile(filename));
      }
      var controllerId := ControllerId(Basename(filename));
      var lines := env.fs.Lines(filename);
      var i := 0;
      assert lines[..0] == [];
      assert bundles == AddAll(old(bundles), []);
      thrown := None;
      while i < |lines|
        invariant 0 <= i <= |lines| && thrown.None?
        invariant Follows(ControllerRefs(env, ns, controllerId, lines[..i]), None, old(bundles), bundles)
      {
        ghost var mid := bundles;
        ControllerRefsStep(env, ns, controllerId, lines, i);
        thrown := DoParseControllerLine(ns, controllerId, lines[i]);
        FollowsThen(ControllerRefs(env, ns, controllerId, lines[..i]), ControllerLineRefs(env, ns, controllerId, lines[i]),
                    old(bundles), mid, bundles, thrown);
        if thrown.Some? {
          ControllerRefsStops(env, ns, controllerId, lines, i + 1);
          return;
        }
        i := i + 1;
      }
      assert lines[..i] == lines;
    }

    /** One line of a controller: the view its `render(...)` call names, if any, is scanned. */
    method DoParseControllerLine(ns: string, controllerId: string, line: string) returns (thrown: Option<Error>)
      modifies this`bundles
      ensures Follows(ControllerLineRefs(env, ns, controllerId, line), thrown, old(bundles), bundles)
    {
      var display := RenderCapture(line);
      if display.Some? && |display.value| > 2 {
        var fileViewPath := ViewFilePath(env.viewPath, controllerId, display.value);
        assert ControllerLineView(env.viewPath, controllerId, line) == Some(fileViewPath);
        thrown := DoParseViewFile(ns, fileViewPath);
      } else {
        assert ControllerLineView(env.viewPath, controllerId, line) == None;
        assert bundles == AddAll(bundles, []);
        thrown := None;
      }
    }

    /** `doParseFile`: classifies a file by its basename and scans it accordingly. */
    method DoParseFile(ns: string, filename: string) returns (thrown: Option<Error>)
      modifies this`bundles
      ensures Follows(FileRefs(env, ns, filename), thrown, old(bundles), bundles)
    {
      var basename := Basename(filename);
      if StrrposTruthy(basename, "Asset.php") {
        var nameBundle := BundleNameOf(ns, basename);
        if nameBundle !in bundles {
          bundles := bundles + [nameBundle];
        }
        AddAllOne(old(bundles), nameBundle);
        thrown := None;
      } else if StrrposTruthy(basename, "Controller.php") {
        thrown := DoParseControllerFile(ns, filename);
      } else {
        thrown := DoParseViewFile(ns, filename);
      }
    }

    /** `doParsePath`: parses every `*.php` entry of a directory, in `glob` order. */
    method DoParsePath(ns: string, path: string) returns (thrown: Option<Error>)
      modifies this`bundles
      ensures Follows(PathRefs(env, ns, Glob(env.fs, path)), thrown, old(bundles), bundles)
    {
      var files := Glob(env.fs, path);
      var i := 0;
      assert files[..0] == [];
      assert bundles == AddAll(old(bundles), []);
      thrown := None;
      while i < |files|
        invariant 0 <= i <= |files| && thrown.None?
        invariant Follows(PathRefs(env, ns, files[..i]), None, old(bundles), bundles)
      {
        ghost var mid := bundles;
        PathRefsStep(env, ns, files, i);
        thrown := DoParseFile(ns, files[i]);
        FollowsThen(PathRefs(env, ns, files[..i]), FileRefs(env, ns, files[i]), old(bundles), mid, bundles, thrown);
        if thrown.Some? {
          PathRefsStops(env, ns, files, i + 1);
          return;
        }
        i := i + 1;
      }
      assert files[..i] == files;
    }

    /**
     * The body of the loop over source entries in `loadTask`: a directory
     * is parsed, a bundle class name is added verbatim, an existing file
     * is parsed, anything else is skipped.
     */
    method DoParseSrcEntry(ns: string, path: string) returns (thrown: Option<Error>)
      modifies this`bundles
      ensures Follows(SrcEntryRefs(env, ns, path), thrown, old(bundles), bundles)
    {
      if env.fs.IsDir(path) {
        thrown := DoParsePath(ns, path);
      } else if IsBundleClassPath(path) {
        if path !in bundles {
          bundles := bundles + [path];
        }
        AddAllOne(old(bundles), path);
        thrown := None;
      } else if env.fs.Exists(path) {
        thrown := DoParseFile(ns, path);
      } else {
        assert bundles == AddAll(old(bundles), []);
        thrown := None;
      }
    }

    /** `loadTask`: scans every source entry, then removes the excluded names. */
    method LoadTask(ns: string, src: Setting, excludeList: seq<string>) returns (thrown: Option<Error>)
      modifies this`bundles
      ensures match TaskBundles(env, ns, src, excludeList, old(bundles))
              case Ok(names) => thrown.None? && bundles == names
              case Err(e) => thrown == Some(e)
    {
      if EmptySetting(src) {
        return Some(MissingSrc);
      }
      var srcList := AsList(src);
      var i := 0;
      assert srcList[..0] == [];
      assert SrcRefs(env, ns, srcList[..0]) == Ok([]);
      assert bundles == AddAll(old(bundles), []);
      while i < |srcList|
        invariant 0 <= i <= |srcList|
        invariant Follows(SrcRefs(env, ns, srcList[..i]), None, old(bundles), bundles)
      {
        ghost var mid := bundles;
        SrcRefsStep(env, ns, srcList, i);
        var path := srcList[i];
        thrown := DoParseSrcEntry(ns, path);
        FollowsThen(SrcRefs(env, ns, srcList[..i]), SrcEntryRefs(env, ns, path), old(bundles), mid, bundles, thrown);
        if thrown.Some? {
          SrcRefsStops(env, ns, srcList, i + 1);
          return;
        }
        assert Follows(SrcRefs(env, ns, srcList[..i + 1]), None, old(bundles), bundles);
        i := i + 1;
      }
      assert srcList[..i] == srcList;
      if |excludeList| > 0 {
        bundles := Without(bundles, excludeList);
      }
      thrown := None;
    }

    /**
     * `doParseBunble`: appends to `data[property]` the path of every
     * declared entry whose `.min`-stripped name is not excluded and exists.
     */
    method DoParseBundle(bundle: Bundle, property: Property, exclude: seq<string>)
      modifies this`css, this`js
      ensures Data(property) == old(Data(property)) + Expand(env.fs, SourceDir(bundle), Declared(bundle, property), exclude)
      ensures Data(Other(property)) == old(Data(Other(property)))
    {
      var sourcePath := if bundle.sourcePath.None? then bundle.basePath else bundle.sourcePath.value;
      var elements := Declared(bundle, property);
      var i := 0;
      assert elements[..0] == [];
      while i < |elements|
        invariant 0 <= i <= |elements|
        invariant Data(property) == old(Data(property)) + Expand(env.fs, sourcePath, elements[..i], exclude)
        invariant Data(Other(property)) == old(Data(Other(property)))
      {
        ghost var before := Data(property);
        ghost var entry := ExpandEntry(env.fs, sourcePath, exclude, elements[i]);
        ExpandStep(env.fs, sourcePath, elements, i, exclude);
        AppendAssoc(old(Data(property)), Expand(env.fs, sourcePath, elements[..i], exclude), entry);
        var basename := StripMin(elements[i]);
        if !(|exclude| > 0 && basename in exclude) {
          var filename := sourcePath + "/" + basename;
          if env.fs.Exists(filename) {
            assert entry == [filename];
            if property == Css {
              css := css + [filename];
            } else {
              js := js + [filename];
            }
          } else {
            assert entry == [] && before + entry == before;
          }
        } else {
          assert entry == [] && before + entry == before;
        }
        assert Data(property) == before + entry;
        i := i + 1;
      }
      assert elements[..i] == elements;
    }

    /** The loop of `actionCreateList` over the loaded bundles: JS, then CSS, bundle by bundle. */
    method ParseBundles(loaded: seq<Bundle>, exclude: seq<string>)
      modifies this`css, this`js
      ensures css == old(css) + Collect(env.fs, loaded, Css, exclude)
      ensures js == old(js) + Collect(env.fs, loaded, Js, exclude)
    {
      var k := 0;
      assert loaded[..0] == [];
      assert css == old(css) + [] && js == old(js) + [];
      while k < |loaded|
        invariant 0 <= k <= |loaded|
        invariant css == old(css) + Collect(env.fs, loaded[..k], Css, exclude)
        invariant js == old(js) + Collect(env.fs, loaded[..k], Js, exclude)
      {
        ghost var b := loaded[k];
        AppendAssoc(old(css), Collect(env.fs, loaded[..k], Css, exclude), Expand(env.fs, SourceDir(b), b.css, exclude));
        AppendAssoc(old(js), Collect(env.fs, loaded[..k], Js, exclude), Expand(env.fs, SourceDir(b), b.js, exclude));
        CollectStep(env.fs, loaded, k, Css, exclude);
        CollectStep(env.fs, loaded, k, Js, exclude);
        DoParseBundle(loaded[k], Js, exclude);
        DoParseBundle(loaded[k], Css, exclude);
        k := k + 1;
      }
      assert loaded[..k] == loaded;
    }

    /**
     * One pass of the task loop of `actionCreateList`, up to the reset:
     * scan the task's sources, and when bundles remain, load them, expand
     * their JS and CSS files and write the manifests.
     */
    method RunTask(ns: string, configPath: string, task: Task) returns (ms: seq<Manifest>, thrown: Option<Error>)
      modifies this`bundles, this`css, this`js
      ensures match TaskRun(env, ns, configPath, task, old(bundles), old(css), old(js))
              case Ok(written) => thrown.None? && ms == written
              case Err(e) => thrown == Some(e) && ms == []
      ensures TaskEffect(env, ns, task, old(bundles), old(css), old(js), bundles, css, js)
    {
      ms := [];
      var excludeList := AsList(task.exclude);
      thrown := LoadTask(ns, task.src, excludeList);
      if thrown.Some? {
        return;
      }
      if |bundles| > 0 {
        var loadedOrError := LoadBundles(env.registry, bundles);
        if loadedOrError.Err? {
          return [], Some(loadedOrError.error);
        }
        var loaded := loadedOrError.value;
        ParseBundles(loaded, excludeList);
        ms := Manifests(configPath, task.name, css, js);
      }
    }

    /**
     * `actionCreateList` after the configuration is loaded: validates the
     * two required options, then runs every task.
     */
    method CreateList(config: Config) returns (written: seq<Manifest>, thrown: Option<Error>)
      modifies this`bundles, this`css, this`js
      ensures Report(written, thrown) == Run(env, config, old(bundles), old(css), old(js))
      ensures thrown.None? && config.tasks != [] ==> bundles == [] && css == [] && js == []
    {
      if EmptyValue(config.configPath) {
        return [], Some(MissingConfigPath);
      }
      if EmptyValue(config.namespaceAsset) {
        return [], Some(MissingNamespaceAsset);
      }
      written, thrown := RunTasksFrom(config.namespaceAsset.value, config.configPath.value, config.tasks);
    }

    /** Task `i` of the loop, stated as one step of `RunTasks`. */
    method RunTaskAt(ns: string, configPath: string, tasks: seq<Task>, i: nat) returns (ms: seq<Manifest>, thrown: Option<Error>)
      requires i < |tasks|
      modifies this`bundles, this`css, this`js
      ensures thrown.Some? ==> RunTasks(env, ns, configPath, tasks[i..], old(bundles), old(css), old(js)) == Report([], thrown)
      ensures thrown.None? ==> RunTasks(env, ns, configPath, tasks[i..], old(bundles), old(css), old(js))
                               == Prepend(ms, RunTasks(env, ns, configPath, tasks[i + 1..], [], [], []))
    {
      ms, thrown := RunTask(ns, configPath, tasks[i]);
      RunTasksNext(env, ns, configPath, tasks, i, old(bundles), old(css), old(js), ms, thrown);
    }

    /** The task loop of `actionCreateList`: every task in turn, resetting the bundle list and the data after each. */
    method RunTasksFrom(ns: string, configPath: string, tasks: seq<Task>) returns (written: seq<Manifest>, thrown: Option<Error>)
      modifies this`bundles, this`css, this`js
      ensures Report(written, thrown) == RunTasks(env, ns, configPath, tasks, old(bundles), old(css), old(js))
      ensures thrown.None? && tasks != [] ==> bundles == [] && css == [] && js == []
    {
      written := [];
      ghost var total := RunTasks(env, ns, configPath, tasks, bundles, css, js);
      assert tasks[0..] == tasks;
      assert total == Prepend(written, total) by {
        assert [] + total.written == total.written;
      }
      var i := 0;
      thrown := None;
      while i < |tasks|
        invariant 0 <= i <= |tasks| && thrown.None?
        invariant i > 0 ==> bundles == [] && css == [] && js == []
        invariant total == Prepend(written, RunTasks(env, ns, configPath, tasks[i..], bundles, css, js))
      {
        var ms;
        ms, thrown := RunTaskAt(ns, configPath, tasks, i);
        if thrown.Some? {
          assert written + [] == written;
          return;
        }
        PrependPrepend(written, ms, RunTasks(env, ns, configPath, tasks[i + 1..], [], [], []));
        written := written + ms;
        css, js, bundles := [], [], [];
        i := i + 1;
      }
      assert tasks[i..] == [];
    }
  }
}
