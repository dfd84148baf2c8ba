/**
 * Properties of the scanner that relate several of its stages: what the
 * bundle list of a task holds and in which order, which files a bundle
 * contributes, how files are classified by name, how a controller's
 * render argument becomes a view path, and a complete run of one task.
 */
module Properties {
  import opened Wrappers
  import opened Strings
  import opened Patterns
  import opened Lists
  import opened Scan

  // ---------------------------------------------------------------------
  // The bundle list of a task (loadTask)

  /**
   * After a task's scan, the list holds exactly the names that were
   * already there or were discovered, minus the excluded ones, and never
   * a duplicate when it started without one.
   */
  lemma TaskBundlesMembers(env: Env, ns: string, src: Setting, exclude: seq<string>, bs: seq<string>)
    requires TaskBundles(env, ns, src, exclude, bs).Ok?
    ensures SrcRefs(env, ns, AsList(src)).Ok?
    ensures forall n :: n in TaskBundles(env, ns, src, exclude, bs).value
              <==> (n in bs || n in SrcRefs(env, ns, AsList(src)).value) && n !in exclude
    ensures NoDup(bs) ==> NoDup(TaskBundles(env, ns, src, exclude, bs).value)
  {
    var refs := SrcRefs(env, ns, AsList(src)).value;
    AddAllMembers(bs, refs);
  }

  /**
   * Starting from a duplicate-free list, the surviving names appear in the
   * order of their first discovery: the list is an order-preserving
   * selection from the first-occurrence de-duplication of everything seen.
   */
  lemma TaskBundlesOrder(env: Env, ns: string, src: Setting, exclude: seq<string>, bs: seq<string>)
    requires TaskBundles(env, ns, src, exclude, bs).Ok? && NoDup(bs)
    ensures SrcRefs(env, ns, AsList(src)).Ok?
    ensures IsSubsequence(TaskBundles(env, ns, src, exclude, bs).value, Dedup(bs + SrcRefs(env, ns, AsList(src)).value))
  {
    var refs := SrcRefs(env, ns, AsList(src)).value;
    var all := AddAll(bs, refs);
    AddAllIsDedup(bs, refs);
    if |exclude| > 0 {
      WithoutIsSubsequence(all, exclude);
    } else {
      WithoutNothing(all);
      WithoutIsSubsequence(all, []);
    }
  }

  // ---------------------------------------------------------------------
  // The files a bundle contributes (doParseBunble)

  /** Declared entry `e` contributes the path `p`: its `.min`-stripped name is not excluded and exists under `dir`. */
  predicate Contributes(fs: FileSystem, dir: string, exclude: seq<string>, e: string, p: string) {
    StripMin(e) !in exclude && p == dir + "/" + StripMin(e) && fs.Exists(p)
  }

  /** A path is in the expansion exactly when some declared entry contributes it. */
  lemma {:induction false} ExpandMembers(fs: FileSystem, dir: string, elements: seq<string>, exclude: seq<string>)
    ensures forall p :: p in Expand(fs, dir, elements, exclude)
              <==> exists k :: 0 <= k < |elements| && Contributes(fs, dir, exclude, elements[k], p)
  {
    if elements != [] {
      var n := |elements|;
      var init := elements[..n - 1];
      ExpandMembers(fs, dir, init, exclude);
      forall p ensures p in Expand(fs, dir, elements, exclude)
                       <==> exists k :: 0 <= k < n && Contributes(fs, dir, exclude, elements[k], p)
      {
        if k :| 0 <= k < n && Contributes(fs, dir, exclude, elements[k], p) {
          if k < n - 1 {
            assert init[k] == elements[k];
          }
        }
        if p in Expand(fs, dir, init, exclude) {
          var k :| 0 <= k < n - 1 && Contributes(fs, dir, exclude, init[k], p);
          assert elements[k] == init[k];
        }
        if p in ExpandEntry(fs, dir, exclude, elements[n - 1]) {
          assert Contributes(fs, dir, exclude, elements[n - 1], p);
        }
      }
    }
  }

  /** `.min` is removed where it occurs. */
  lemma StripMinRemoves()
    ensures StripMin("b.min.css") == "b.css"
  {
    assert "b.min.css"[1..] == ".min.css";
    assert OccursAt(".min.css", ".min", 0);
    assert ".min.css"[4..] == ".css";
    StripMinKeepsCss();
  }

  /** A name without `.min` is kept as it is. */
  lemma StripMinKeeps()
    ensures StripMin("a.css") == "a.css"
    ensures StripMin("c.js") == "c.js"
  {
    StripMinKeepsCss();
    assert "a.css"[1..] == ".css";
    RemoveAllShort(".js", ".min");
    assert "c.js"[1..] == ".js";
  }

  lemma StripMinKeepsCss()
    ensures RemoveAll(".css", ".min") == ".css"
  {
    RemoveAllShort("css", ".min");
    assert ".css"[1] != ".min"[1];
    assert ".css"[1..] == "css";
  }

  // ---------------------------------------------------------------------
  // File classification by basename (doParseFile)

  /** A file named `<Word>Asset.php` with a non-empty `<Word>` is a bundle: `namespaceAsset` + `<Word>Asset`. */
  lemma AssetFileIsBundle(env: Env, ns: string, path: string, w: string)
    requires w != [] && Basename(path) == w + "Asset.php"
    ensures FileRefs(env, ns, path) == Ok([ns + (w + "Asset")])
  {
    var base := w + "Asset.php";
    assert StrrposTruthy(base, "Asset.php") by {
      OccursIn(w, "Asset.php", []);
      assert w + "Asset.php" + [] == base;
      StrrposTruthyIff(base, "Asset.php");
    }
    assert DropLast(base, 4) == w + "Asset" by {
      AppendAssoc(w, "Asset", ".php");
      assert "Asset" + ".php" == "Asset.php";
      assert ((w + "Asset") + ".php")[..|base| - 4] == w + "Asset";
    }
  }

  /** A file named exactly `Asset.php` is not a bundle (the match at position 0 reads as false); it is scanned as a view. */
  lemma BareAssetFileIsView(env: Env, ns: string, path: string)
    requires Basename(path) == "Asset.php"
    ensures FileRefs(env, ns, path) == ViewFileRefs(env, ns, path)
  {
    StrrposOfItself("Asset.php");
    StrrposTruthyIff("Asset.php", "Controller.php");
  }

  /** A file named `<Word>Controller.php` that does not mention `Asset.php` is scanned as a controller. */
  lemma ControllerFileIsController(env: Env, ns: string, path: string, w: string)
    requires w != [] && Basename(path) == w + "Controller.php"
    requires forall k :: !OccursAt(w + "Controller.php", "Asset.php", k)
    ensures FileRefs(env, ns, path) == ControllerFileRefs(env, ns, path)
  {
    var base := w + "Controller.php";
    assert !StrrposTruthy(base, "Asset.php") by {
      StrrposTruthyIff(base, "Asset.php");
    }
    assert StrrposTruthy(base, "Controller.php") by {
      OccursIn(w, "Controller.php", []);
      assert w + "Controller.php" + [] == base;
      StrrposTruthyIff(base, "Controller.php");
    }
  }

  // ---------------------------------------------------------------------
  // Controller ids and view paths (doParseControllerFile)

  /**
   * The id of `<w>Controller.php`, when `Controller.php` does not start
   * inside `<w>`, is `<w>` in lower case.
   */
  lemma ControllerIdOf(w: string)
    requires forall k: nat :: k < |w| ==> !OccursAt(w + "Controller.php", "Controller.php", k)
    ensures ControllerId(w + "Controller.php") == ToLower(w)
  {
    var pat := "Controller.php";
    assert RemoveAll(w + pat, pat) == w by {
      RemoveAllSuffix(w, pat);
    }
  }

  /** The id of `SiteController.php` is `site`. */
  lemma ControllerIdExample()
    ensures ControllerId("SiteController.php") == "site"
  {
    var pat := "Controller.php";
    assert "SiteController.php" == "Site" + pat;
    forall k: nat | k < 4 ensures !OccursAt("Site" + pat, pat, k) {
      assert ("Site" + pat)[k] != pat[0];
    }
    ControllerIdOf("Site");
    assert ToLower("Site") == "site" by {
      assert "Site"[1..] == "ite";
      assert ToLower("ite") == "ite";
    }
  }

  /**
   * The render argument loses its first and last characters whatever
   * they are, once surrounding blanks are trimmed: `'v'` (or `"v"`)
   * renders `<viewPath>/<id>/v.php`.
   */
  lemma ViewFilePathEnclosed(viewPath: string, id: string, a: char, v: string, b: char)
    requires !IsTrimmed(a) && !IsTrimmed(b)
    ensures ViewFilePath(viewPath, id, [a] + v + [b]) == viewPath + "/" + id + "/" + v + ".php"
  {
    var arg := [a] + v + [b];
    TrimUnchanged(arg);
    assert arg[1..|arg| - 1] == v;
  }

  /** A quoted view name `'v'` renders `<viewPath>/<id>/v.php`. */
  lemma ViewFilePathQuoted(viewPath: string, id: string, v: string)
    ensures ViewFilePath(viewPath, id, "'" + v + "'") == viewPath + "/" + id + "/" + v + ".php"
  {
    ViewFilePathEnclosed(viewPath, id, '\'', v, '\'');
  }

  /**
   * An unquoted argument is cut all the same: `render($view)` names the
   * view file `vie.php`, which the view scan then reports missing unless
   * such a file exists.
   */
  lemma ViewFilePathUnquoted(viewPath: string, id: string)
    ensures ViewFilePath(viewPath, id, "$view") == viewPath + "/" + id + "/" + "vie" + ".php"
  {
    assert "$view" == ['$'] + "vie" + ['w'];
    ViewFilePathEnclosed(viewPath, id, '$', "vie", 'w');
  }

  /** With namespace `app\assets\`, the line `FooAsset::register($this);` registers `app\assets\FooAsset`. */
  lemma ViewLineExample()
    ensures ViewLineRefs("app\\assets\\", "Foo" + "Asset" + "::register" + "($this);") == ["app\\assets\\" + ("Foo" + "Asset")]
  {
    RegisterExample();
  }

  // ---------------------------------------------------------------------
  // Manifests (doWriteFile)

  /**
   * The common manifest is written last and lists the CSS paths before
   * the JS paths, so its first entry is a CSS path whenever there is one.
   */
  lemma CommonManifestLast(configPath: string, task: string, css: seq<string>, js: seq<string>)
    requires css + js != []
    ensures var r := Manifests(configPath, task, css, js);
      r != [] && r[|r| - 1] == Manifest(CommonManifestPath(configPath, task), css + js)
    ensures css != [] ==> (css + js)[0] == css[0]
  {
    var common := (if |css| > 0 then css else []) + (if |js| > 0 then js else []);
    assert common == css + js;
  }

  // ---------------------------------------------------------------------
  // A task naming one bundle class (actionCreateList)

  /**
   * A task whose only source entry is a registered bundle class, which is
   * neither a directory nor excluded, writes the manifests of that one
   * bundle's files, starting from an empty list and empty data.
   */
  lemma SingleClassTask(env: Env, ns: string, configPath: string, task: Task, cls: string)
    requires task.src == Scalar(cls) && cls != "" && cls != "0"
    requires !env.fs.IsDir(cls) && IsBundleClassPath(cls)
    requires cls !in AsList(task.exclude) && cls in env.registry
    ensures TaskRun(env, ns, configPath, task, [], [], [])
            == Ok(Manifests(configPath, task.name,
                            Expand(env.fs, SourceDir(env.registry[cls]), env.registry[cls].css, AsList(task.exclude)),
                            Expand(env.fs, SourceDir(env.registry[cls]), env.registry[cls].js, AsList(task.exclude))))
  {
    var ex := AsList(task.exclude);
    var b := env.registry[cls];
    SingleClassBundles(env, ns, task, cls);
    SingleLoad(env.registry, cls);
    SingleCollect(env.fs, b, Css, ex);
    SingleCollect(env.fs, b, Js, ex);
  }

  lemma SingleClassBundles(env: Env, ns: string, task: Task, cls: string)
    requires task.src == Scalar(cls) && cls != "" && cls != "0"
    requires !env.fs.IsDir(cls) && IsBundleClassPath(cls)
    requires cls !in AsList(task.exclude)
    ensures TaskBundles(env, ns, task.src, AsList(task.exclude), []) == Ok([cls])
  {
    SingleClassScan(env, ns, cls);
    AddAllOne([], cls);
    assert Without([cls], AsList(task.exclude)) == [cls] by {
      assert [cls][1..] == [];
    }
  }

  lemma SingleClassScan(env: Env, ns: string, cls: string)
    requires !env.fs.IsDir(cls) && IsBundleClassPath(cls)
    ensures SrcRefs(env, ns, [cls]) == Ok([cls])
  {
    assert [cls][..0] == [];
    assert SrcEntryRefs(env, ns, cls) == Ok([cls]);
    assert Then(Ok([]), Ok([cls])) == Ok([] + [cls]);
    assert [] + [cls] == [cls];
  }

  lemma SingleLoad(registry: map<string, Bundle>, cls: string)
    requires cls in registry
    ensures LoadBundles(registry, [cls]) == Ok([registry[cls]])
  {
    assert [cls][1..] == [];
    assert [registry[cls]] + [] == [registry[cls]];
  }

  lemma SingleCollect(fs: FileSystem, b: Bundle, property: Property, exclude: seq<string>)
    ensures Collect(fs, [b], property, exclude) == Expand(fs, SourceDir(b), Declared(b, property), exclude)
  {
    assert [b][..0] == [];
  }

  // The worked example: one task `test` naming `app\assets\AppAsset`,
  // whose files live under `src`, with `b.css` excluded.

  const ScenarioClass: string := "app\\assets\\AppAsset"
  const ScenarioBundle: Bundle := Bundle(Some("src"), "web", ["a.css", "b.min.css"], ["c.js"])
  const ScenarioFs: FileSystem :=
    FileSystem(map["src" + "/" + "a.css" := [], "src" + "/" + "b.css" := [], "src" + "/" + "c.js" := []], map[])
  const ScenarioTask: Task := Task("test", Scalar(ScenarioClass), List(["b.css"]))
  const ScenarioEnv: Env := Env(ScenarioFs, map[ScenarioClass := ScenarioBundle], "views")
  const ScenarioConfig: Config := Config(Some("build"), Some("app\\assets\\"), [ScenarioTask])

  lemma ScenarioClassIsBundle()
    ensures IsBundleClassPath(ScenarioClass)
  {
    assert ClassPathMatch(ScenarioClass, 10, 14);
    IsBundleClassPathIff(ScenarioClass);
  }

  /** `b.min.css` is read as `b.css`, which is excluded; `a.css` stays. */
  lemma ScenarioCss()
    ensures Expand(ScenarioFs, "src", ScenarioBundle.css, ["b.css"]) == ["src" + "/" + "a.css"]
  {
    ScenarioCssEntries();
    assert ["a.css", "b.min.css"][..1] == ["a.css"];
    assert ["a.css"][..0] == [];
  }

  lemma ScenarioCssEntries()
    ensures ExpandEntry(ScenarioFs, "src", ["b.css"], "a.css") == ["src" + "/" + "a.css"]
    ensures ExpandEntry(ScenarioFs, "src", ["b.css"], "b.min.css") == []
  {
    assert ExpandEntry(ScenarioFs, "src", ["b.css"], "a.css") == ["src" + "/" + "a.css"] by {
      StripMinKeeps();
    }
    assert ExpandEntry(ScenarioFs, "src", ["b.css"], "b.min.css") == [] by {
      StripMinRemoves();
    }
  }

  lemma ScenarioJs()
    ensures Expand(ScenarioFs, "src", ScenarioBundle.js, ["b.css"]) == ["src" + "/" + "c.js"]
  {
    StripMinKeeps();
    assert ["c.js"][..0] == [];
  }

  /** The one task of the example scans one bundle and writes its files. */
  lemma ScenarioTaskRun()
    ensures TaskRun(ScenarioEnv, "app\\assets\\", "build", ScenarioTask, [], [], [])
            == Ok(Manifests("build", "test", ["src" + "/" + "a.css"], ["src" + "/" + "c.js"]))
  {
    ScenarioClassIsBundle();
    ScenarioCss();
    ScenarioJs();
    SingleClassTask(ScenarioEnv, "app\\assets\\", "build", ScenarioTask, ScenarioClass);
  }

  /** The manifests of the example's CSS and JS lists. */
  lemma ScenarioManifests(a: string, c: string)
    ensures Manifests("build", "test", [a], [c])
            == [Manifest(CssManifestPath("build", "test"), [a]),
                Manifest(JsManifestPath("build", "test"), [c]),
                Manifest(CommonManifestPath("build", "test"), [a, c])]
  {
    assert [a] + [c] == [a, c];
  }

  /**
   * The run writes the CSS list, the JS list and their concatenation for
   * task `test` under `build`, and throws nothing.
   */
  lemma ScenarioRun()
    ensures Run(ScenarioEnv, ScenarioConfig, [], [], [])
            == Report([Manifest(CssManifestPath("build", "test"), ["src" + "/" + "a.css"]),
                       Manifest(JsManifestPath("build", "test"), ["src" + "/" + "c.js"]),
                       Manifest(CommonManifestPath("build", "test"), ["src" + "/" + "a.css", "src" + "/" + "c.js"])],
                      None)
  {
    ScenarioRunWrites(ScenarioEnv, ScenarioConfig);
    ScenarioManifests("src" + "/" + "a.css", "src" + "/" + "c.js");
  }

  lemma ScenarioRunWrites(env: Env, config: Config)
    requires env == ScenarioEnv && config == ScenarioConfig
    ensures Run(env, config, [], [], [])
            == Report(Manifests("build", "test", ["src" + "/" + "a.css"], ["src" + "/" + "c.js"]), None)
  {
    ScenarioTaskRun();
    OneTaskRunOk(env, "build", "app\\assets\\", ScenarioTask,
                 Manifests("build", "test", ["src" + "/" + "a.css"], ["src" + "/" + "c.js"]));
  }

  lemma OneTaskRunOk(env: Env, configPath: string, ns: string, task: Task, ms: seq<Manifest>)
    requires !EmptyValue(Some(configPath)) && !EmptyValue(Some(ns))
    requires TaskRun(env, ns, configPath, task, [], [], []) == Ok(ms)
    ensures Run(env, Config(Some(configPath), Some(ns), [task]), [], [], []) == Report(ms, None)
  {
    OneTaskRun(env, configPath, ns, task);
  }

  /** A configuration with a single task reports exactly what that task writes or throws. */
  lemma OneTaskRun(env: Env, configPath: string, ns: string, task: Task)
    requires !EmptyValue(Some(configPath)) && !EmptyValue(Some(ns))
    ensures Run(env, Config(Some(configPath), Some(ns), [task]), [], [], [])
            == match TaskRun(env, ns, configPath, task, [], [], [])
               case Err(e) => Report([], Some(e))
               case Ok(ms) => Report(ms, None)
  {
    var tasks := [task];
    RunTasksStep(env, ns, configPath, tasks, 0, [], [], []);
    assert tasks[0..] == tasks && tasks[1..] == [];
    assert RunTasks(env, ns, configPath, [], [], [], []) == Report([], None);
    match TaskRun(env, ns, configPath, task, [], [], [])
    case Err(e) =>
    case Ok(ms) =>
      assert Prepend(ms, Report([], None)) == Report(ms, None) by {
        assert ms + [] == ms;
      }
  }
}
