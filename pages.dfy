/**
 * The Pages object: the components registered from the manifest's imports,
 * the route counter, and the build-time operations that flatten the route
 * tree into per-path buckets and resolve each bucket into a render plan.
 *
 * The manifest read and the template library's parser are parameters of
 * New; the HTTP router is modelled by the map from path to the render plan
 * its handler would serve.
 */
module Pages {
  import opened Wrappers
  import opened Manifest
  import GoPath
  import opened Flatten
  import opened Render
  import opened Components

  /** The options New reads. */
  datatype Options = Options(jsonFilePath: string, enableSessionStore: bool, sessionKey: seq<bv8>)

  /** The manifest file, once read and decoded. */
  datatype ManifestFile = ManifestFile(imports: seq<Import>, routes: seq<Route>)

  /** Why New gives up. */
  datatype Failure =
    | BadKeyLength
    | ManifestFailed(message: string)
    | ImportFailed(built: Built)

  /** New's check of the session key: non-empty and a whole number of 8-byte blocks. */
  predicate KeyLengthOk(key: seq<bv8>)
  {
    |key| != 0 && |key| % 8 == 0
  }

  /**
   * The accepted lengths are exactly the positive multiples of 8: the 16,
   * 24 and 32 bytes the AES key sizes need, and also 8, 40, 48 and so on.
   */
  lemma KeyLengths(key: seq<bv8>)
    ensures KeyLengthOk(key) <==> exists m: nat :: m >= 1 && |key| == 8 * m
  {
    if KeyLengthOk(key) {
      var m := |key| / 8;
      assert |key| == 8 * m;
    }
  }

  /** A non-empty relative path is taken relative to `base`. */
  function AbsPath(base: string, p: string): string
  {
    if |p| > 0 && !GoPath.IsAbs(p) then GoPath.Join(base, p) else p
  }

  /** An import with both of its paths made absolute. */
  function Absolutize(base: string, imp: Import): Import
  {
    imp.(componentPath := AbsPath(base, imp.componentPath), templatePath := AbsPath(base, imp.templatePath))
  }

  /**
   * Under an absolute base, a named path ends up absolute, an absolute one
   * and an empty one are kept, and making an import absolute twice changes
   * nothing more.
   */
  lemma AbsPathShape(base: string, p: string)
    requires GoPath.IsAbs(base)
    ensures |p| > 0 ==> GoPath.IsAbs(AbsPath(base, p))
    ensures |p| == 0 || GoPath.IsAbs(p) ==> AbsPath(base, p) == p
    ensures AbsPath(base, AbsPath(base, p)) == AbsPath(base, p)
  {
    GoPath.JoinShape(base, p);
  }

  lemma AbsolutizeTwice(base: string, imp: Import)
    requires GoPath.IsAbs(base)
    ensures Absolutize(base, Absolutize(base, imp)) == Absolutize(base, imp)
    ensures Absolutize(base, imp).name == imp.name
    ensures |imp.templatePath| > 0 ==> GoPath.IsAbs(Absolutize(base, imp).templatePath)
    ensures |Absolutize(base, imp).templatePath| > 0 <==> |imp.templatePath| > 0
  {
    AbsPathShape(base, imp.componentPath);
    AbsPathShape(base, imp.templatePath);
  }

  // ---------------------------------------------------------------------------
  // The import loop of New

  /** The imports (as rewritten), components, partial registry and failure after the loop. */
  datatype Load = Load(
    imports: seq<Import>,
    components: map<string, Component>,
    partials: map<string, string>,
    failure: Option<Built>)

  /** New's loop over the imports, from the k-th on. */
  function LoadImports(base: string, imps: seq<Import>, k: nat, files: map<string, string>,
                       parse: string -> Result<Tpl>, comps: map<string, Component>,
                       parts: map<string, string>): Load
    requires k <= |imps|
    decreases |imps| - k
  {
    if k == |imps| then Load(imps, comps, parts, None)
    else
      var imp := Absolutize(base, imps[k]);
      var imps' := imps[k := imp];
      if |imps[k].templatePath| == 0 then LoadImports(base, imps', k + 1, files, parse, comps, parts)
      else
        var b := Build(imp, files, parse);
        var parts' := Registration(imp, files, parts);
        if b.Built? then LoadImports(base, imps', k + 1, files, parse, comps[imp.name := b.component], parts')
        else Load(imps', comps, parts', Some(b))
  }

  /** One turn of the loop: an import without a template is only rewritten. */
  lemma LoadSkip(base: string, imps: seq<Import>, k: nat, files: map<string, string>,
                 parse: string -> Result<Tpl>, comps: map<string, Component>, parts: map<string, string>)
    requires k < |imps| && |imps[k].templatePath| == 0
    ensures LoadImports(base, imps, k, files, parse, comps, parts)
         == LoadImports(base, imps[k := Absolutize(base, imps[k])], k + 1, files, parse, comps, parts)
  {
  }

  /** One turn of the loop: a component that builds is registered under its name. */
  lemma LoadGo(base: string, imps: seq<Import>, k: nat, files: map<string, string>,
               parse: string -> Result<Tpl>, comps: map<string, Component>, parts: map<string, string>,
               imp: Import, b: Built)
    requires k < |imps| && |imps[k].templatePath| > 0
    requires imp == Absolutize(base, imps[k]) && b == Build(imp, files, parse) && b.Built?
    ensures LoadImports(base, imps, k, files, parse, comps, parts)
         == LoadImports(base, imps[k := imp], k + 1, files, parse, comps[imp.name := b.component],
                        Registration(imp, files, parts))
  {
  }

  /** One turn of the loop: a component that fails to build stops it. */
  lemma LoadStop(base: string, imps: seq<Import>, k: nat, files: map<string, string>,
                 parse: string -> Result<Tpl>, comps: map<string, Component>, parts: map<string, string>,
                 imp: Import, b: Built)
    requires k < |imps| && |imps[k].templatePath| > 0
    requires imp == Absolutize(base, imps[k]) && b == Build(imp, files, parse) && !b.Built?
    ensures LoadImports(base, imps, k, files, parse, comps, parts)
         == Load(imps[k := imp], comps, Registration(imp, files, parts), Some(b))
  {
  }

  /** Import i registers a component: its template path is non-empty. */
  predicate Registers(imps: seq<Import>, i: int)
    requires 0 <= i < |imps|
  {
    |imps[i].templatePath| > 0
  }

  /** Import i registers a component and that component fails to build. */
  predicate FailsAt(base: string, imps: seq<Import>, i: int, files: map<string, string>, parse: string -> Result<Tpl>)
    requires 0 <= i < |imps|
  {
    Registers(imps, i) && !Build(Absolutize(base, imps[i]), files, parse).Built?
  }

  /**
   * One turn of the loop that does not stop it: import k is rewritten, and
   * when it registers, its component is stored under its name.
   */
  lemma LoadTurn(base: string, imps: seq<Import>, k: nat, files: map<string, string>,
                 parse: string -> Result<Tpl>, comps: map<string, Component>, parts: map<string, string>)
    returns (imp: Import, comps': map<string, Component>, parts': map<string, string>)
    requires k < |imps| && !FailsAt(base, imps, k, files, parse)
    ensures imp == Absolutize(base, imps[k])
    ensures LoadImports(base, imps, k, files, parse, comps, parts)
         == LoadImports(base, imps[k := imp], k + 1, files, parse, comps', parts')
    ensures !Registers(imps, k) ==> comps' == comps
    ensures Registers(imps, k) ==> comps' == comps[imp.name := Build(imp, files, parse).component]
  {
    imp := Absolutize(base, imps[k]);
    if Registers(imps, k) {
      comps', parts' := comps[imp.name := Build(imp, files, parse).component], Registration(imp, files, parts);
    } else {
      comps', parts' := comps, parts;
    }
  }

  /** The turn that stops the loop: the components so far, and the failure of import k. */
  lemma LoadHalt(base: string, imps: seq<Import>, k: nat, files: map<string, string>,
                 parse: string -> Result<Tpl>, comps: map<string, Component>, parts: map<string, string>)
    requires k < |imps| && FailsAt(base, imps, k, files, parse)
    ensures var l := LoadImports(base, imps, k, files, parse, comps, parts);
      l.imports == imps[k := Absolutize(base, imps[k])] && l.components == comps
      && l.failure == Some(Build(Absolutize(base, imps[k]), files, parse))
  {
  }

  /** The loop keeps every component registered under its own import name. */
  lemma {:induction false} LoadNamed(base: string, imps: seq<Import>, k: nat, files: map<string, string>,
                                     parse: string -> Result<Tpl>, comps: map<string, Component>,
                                     parts: map<string, string>)
    requires k <= |imps| && Named(comps)
    ensures Named(LoadImports(base, imps, k, files, parse, comps, parts).components)
    decreases |imps| - k
  {
    if k < |imps| {
      if FailsAt(base, imps, k, files, parse) {
        LoadHalt(base, imps, k, files, parse, comps, parts);
      } else {
        var imp, comps', parts' := LoadTurn(base, imps, k, files, parse, comps, parts);
        LoadNamed(base, imps[k := imp], k + 1, files, parse, comps', parts');
      }
    }
  }

  /** No import from k on registers a component named n. */
  predicate NoLaterName(imps: seq<Import>, k: int, n: string)
    requires 0 <= k
  {
    forall i :: k <= i < |imps| ==> !(Registers(imps, i) && imps[i].name == n)
  }

  /** Rewriting import k leaves what the imports from j > k on register alone. */
  lemma NoLaterUpdate(imps: seq<Import>, k: nat, j: nat, imp: Import, n: string)
    requires k < j && k < |imps| && NoLaterName(imps, j, n)
    ensures NoLaterName(imps[k := imp], j, n)
  {
    var imps' := imps[k := imp];
    forall i | j <= i < |imps'| ensures !(Registers(imps', i) && imps'[i].name == n) {
      assert imps'[i] == imps[i];
    }
  }

  /** Equal prefixes of length k + 1 have equal prefixes of length k. */
  lemma TakeShorter<T>(a: seq<T>, b: seq<T>, k: nat)
    requires k < |a| && k < |b| && a[..k + 1] == b[..k + 1]
    ensures a[..k] == b[..k]
  {
    assert a[..k] == a[..k + 1][..k];
    assert b[..k] == b[..k + 1][..k];
  }

  /** The loop leaves the imports before k alone and keeps their number. */
  lemma {:induction false} LoadImportsShape(base: string, imps: seq<Import>, k: nat, files: map<string, string>,
                                            parse: string -> Result<Tpl>, comps: map<string, Component>,
                                            parts: map<string, string>)
    requires k <= |imps|
    ensures var l := LoadImports(base, imps, k, files, parse, comps, parts);
      |l.imports| == |imps| && l.imports[..k] == imps[..k]
    decreases |imps| - k
  {
    if k < |imps| {
      var imps' := imps[k := Absolutize(base, imps[k])];
      assert imps'[..k] == imps[..k];
      if FailsAt(base, imps, k, files, parse) {
        LoadHalt(base, imps, k, files, parse, comps, parts);
      } else {
        var imp, comps', parts' := LoadTurn(base, imps, k, files, parse, comps, parts);
        LoadImportsShape(base, imps', k + 1, files, parse, comps', parts');
        TakeShorter(LoadImports(base, imps', k + 1, files, parse, comps', parts').imports, imps', k);
      }
    }
  }

  /** A name no later import registers keeps its component, or its absence. */
  lemma {:induction false} LoadKeeps(base: string, imps: seq<Import>, k: nat, files: map<string, string>,
                                     parse: string -> Result<Tpl>, comps: map<string, Component>,
                                     parts: map<string, string>, n: string)
    requires k <= |imps| && NoLaterName(imps, k, n)
    ensures var l := LoadImports(base, imps, k, files, parse, comps, parts);
      (n in l.components <==> n in comps) && (n in comps ==> l.components[n] == comps[n])
    decreases |imps| - k
  {
    if k < |imps| {
      if FailsAt(base, imps, k, files, parse) {
        LoadHalt(base, imps, k, files, parse, comps, parts);
      } else {
        var imp, comps', parts' := LoadTurn(base, imps, k, files, parse, comps, parts);
        assert Registers(imps, k) ==> imp.name != n;
        assert NoLaterName(imps, k + 1, n);
        NoLaterUpdate(imps, k, k + 1, imp, n);
        LoadKeeps(base, imps[k := imp], k + 1, files, parse, comps', parts', n);
      }
    }
  }

  /** A loop that does not fail does not stop at import k. */
  lemma LoadPasses(base: string, imps: seq<Import>, k: nat, files: map<string, string>,
                   parse: string -> Result<Tpl>, comps: map<string, Component>,
                   parts: map<string, string>)
    requires k < |imps| && LoadImports(base, imps, k, files, parse, comps, parts).failure.None?
    ensures !FailsAt(base, imps, k, files, parse)
  {
  }

  /**
   * When the loop succeeds, a later import with the same name overwrites:
   * the component under a name is the one built from the last import that
   * registers that name.
   */
  lemma {:induction false} LoadLastWins(base: string, imps: seq<Import>, k: nat, files: map<string, string>,
                                        parse: string -> Result<Tpl>, comps: map<string, Component>,
                                        parts: map<string, string>, i: nat)
    requires k <= i < |imps| && Registers(imps, i) && NoLaterName(imps, i + 1, imps[i].name)
    requires LoadImports(base, imps, k, files, parse, comps, parts).failure.None?
    ensures var l := LoadImports(base, imps, k, files, parse, comps, parts);
      var b := Build(Absolutize(base, imps[i]), files, parse);
      b.Built? && imps[i].name in l.components && l.components[imps[i].name] == b.component
    decreases |imps| - k
  {
    LoadPasses(base, imps, k, files, parse, comps, parts);
    if i == k {
      LoadLastHere(base, imps, k, files, parse, comps, parts);
    } else {
      var imp, comps', parts' := LoadTurn(base, imps, k, files, parse, comps, parts);
      var imps' := imps[k := imp];
      assert imps'[i] == imps[i];
      NoLaterUpdate(imps, k, i + 1, imp, imps[i].name);
      LoadLastWins(base, imps', k + 1, files, parse, comps', parts', i);
    }
  }

  /** LoadLastWins for the import the loop is at: what it stores, no later import replaces. */
  lemma LoadLastHere(base: string, imps: seq<Import>, k: nat, files: map<string, string>,
                     parse: string -> Result<Tpl>, comps: map<string, Component>, parts: map<string, string>)
    requires k < |imps| && Registers(imps, k) && NoLaterName(imps, k + 1, imps[k].name)
    requires !FailsAt(base, imps, k, files, parse)
    ensures var l := LoadImports(base, imps, k, files, parse, comps, parts);
      var b := Build(Absolutize(base, imps[k]), files, parse);
      b.Built? && imps[k].name in l.components && l.components[imps[k].name] == b.component
  {
    var imp, comps', parts' := LoadTurn(base, imps, k, files, parse, comps, parts);
    NoLaterUpdate(imps, k, k + 1, imp, imp.name);
    LoadKeeps(base, imps[k := imp], k + 1, files, parse, comps', parts', imp.name);
  }

  /**
   * The loop stops exactly when some import registers and fails to build,
   * and what it returns is a failure (LoadFirstFailure says whose).
   */
  lemma {:induction false} LoadFailure(base: string, imps: seq<Import>, k: nat, files: map<string, string>,
                                       parse: string -> Result<Tpl>, comps: map<string, Component>,
                                       parts: map<string, string>)
    requires k <= |imps|
    ensures var l := LoadImports(base, imps, k, files, parse, comps, parts);
      l.failure.Some? <==> exists i :: k <= i < |imps| && FailsAt(base, imps, i, files, parse)
    ensures var l := LoadImports(base, imps, k, files, parse, comps, parts);
      l.failure.Some? ==> !l.failure.value.Built?
    decreases |imps| - k
  {
    if k < |imps| {
      if FailsAt(base, imps, k, files, parse) {
        LoadHalt(base, imps, k, files, parse, comps, parts);
      } else {
        var imp, comps', parts' := LoadTurn(base, imps, k, files, parse, comps, parts);
        var imps' := imps[k := imp];
        LoadFailure(base, imps', k + 1, files, parse, comps', parts');
        forall i | k + 1 <= i < |imps| ensures FailsAt(base, imps', i, files, parse) == FailsAt(base, imps, i, files, parse) {
          assert imps'[i] == imps[i];
        }
      }
    }
  }

  /**
   * The failure the loop returns is that of the first import that registers
   * and fails to build.
   */
  lemma {:induction false} LoadFirstFailure(base: string, imps: seq<Import>, k: nat, files: map<string, string>,
                                            parse: string -> Result<Tpl>, comps: map<string, Component>,
                                            parts: map<string, string>, i: nat)
    requires k <= i < |imps| && FailsAt(base, imps, i, files, parse)
    requires forall j :: k <= j < i ==> !FailsAt(base, imps, j, files, parse)
    ensures LoadImports(base, imps, k, files, parse, comps, parts).failure
         == Some(Build(Absolutize(base, imps[i]), files, parse))
    decreases |imps| - k
  {
    if i == k {
      LoadHalt(base, imps, k, files, parse, comps, parts);
    } else {
      var imp, comps', parts' := LoadTurn(base, imps, k, files, parse, comps, parts);
      var imps' := imps[k := imp];
      assert imps'[i] == imps[i];
      assert FailsAt(base, imps', i, files, parse);
      forall j | k + 1 <= j < i ensures !FailsAt(base, imps', j, files, parse) {
        assert imps'[j] == imps[j];
        assert !FailsAt(base, imps, j, files, parse);
      }
      LoadFirstFailure(base, imps', k + 1, files, parse, comps', parts', i);
    }
  }

  // ---------------------------------------------------------------------------
  // The Pages object

  /** How BuildRouter ends. */
  datatype RouterOutcome =
    | Routed(handlers: map<string, Rendered>)
    | RouteFailed(message: string)
    | RoutePanic

  class Pages {
    var routeCount: int
    var components: map<string, Component>
    var imports: seq<Import>
    var routes: seq<Route>
    var base: string

    /** A fresh object: no components, no routes, the counter at zero. */
    constructor()
      ensures routeCount == 0 && components == map[] && imports == [] && routes == [] && base == ""
    {
      routeCount := 0;
      components := map[];
      imports := [];
      routes := [];
      base := "";
    }

    /**
     * iter: number the route, append its ancestors (and itself, for a
     * leaf) to the bucket of its path, then walk its children in order.
     */
    method Iter(h: Buckets, route: Route, basePath: string, parents: seq<RouteRef>) returns (r: Buckets)
      modifies this
      ensures State(r, routeCount) == Walk(State(h, old(routeCount)), route, basePath, parents)
      ensures components == old(components) && imports == old(imports)
      ensures routes == old(routes) && base == old(base)
      decreases route
    {
      routeCount := routeCount + 1;
      var me := RouteRef(routeCount, route);
      var newPath := GoPath.Join(basePath, route.path);
      if |route.path| > 1 && route.path[|route.path| - 1..] == "/" {
        newPath := newPath + "/";
      }
      assert newPath == NewPath(basePath, route.path) by {
        if |route.path| > 1 {
          assert route.path[|route.path| - 1..] == [route.path[|route.path| - 1]];
        }
      }
      r := h[newPath := Get(h, newPath) + parents];
      if |route.children| == 0 {
        r := r[newPath := r[newPath] + [me]];
      }
      if |route.children| > 0 {
        var ps := parents + [me];
        for k := 0 to |route.children|
          invariant WalkChildren(State(r, routeCount), route, k, newPath, ps)
                 == Walk(State(h, old(routeCount)), route, basePath, parents)
          invariant components == old(components) && imports == old(imports)
          invariant routes == old(routes) && base == old(base)
        {
          r := Iter(r, route.children[k], newPath, ps);
        }
      }
    }

    /**
     * RenderRoute: the render plan of one bucket, on a clone of the
     * layout's template.
     */
    method RenderRoute(layout: Component, bucket: seq<RouteRef>) returns (r: Rendered)
      ensures r == Loop(components, Start(layout.template), {}, bucket, 0)
    {
      ghost var goal := Loop(components, Start(layout.template), {}, bucket, 0);
      var body := layout.template.Clone();
      var requests: seq<Request> := [];
      var redirect := "";
      var done: set<int> := {};
      var cache := false;
      var page: map<string, Json> := map[];
      var k := 0;
      while k < |bucket|
        invariant 0 <= k <= |bucket|
        invariant redirect == ""
        invariant Loop(components, Acc(page, body, requests, cache), done, bucket, k) == goal
      {
        var route := bucket[k];
        if route.id in done {
          k := k + 1;
          continue;
        }
        ghost var before := Acc(page, body, requests, cache);
        done := done + {route.id};
        if !cache && route.route.cache {
          cache := route.route.cache;
        }
        if |route.route.redirect| > 0 {
          redirect := route.route.redirect;
          assert goal == Rendered(page, body, requests, redirect, cache, None);
          break;
        }
        page := route.route.page;
        var outlet := route.route.outlet;
        if |outlet| == 0 {
          outlet := DefaultOutlet;
        }
        requests := route.route.requests;
        if |route.route.component| > 0 {
          if route.route.component in components {
            body := body.RegisterPartial(outlet, "{{> " + components[route.route.component].imp.name + "}}");
          } else {
            return Rendered(route.route.page, body, requests, redirect, cache,
                            Some("component " + route.route.component + " doesn't exist"));
          }
        }
        assert Acc(page, body, requests, cache) == Step(components, before, route.route);
        k := k + 1;
      }
      return Rendered(page, body, requests, redirect, cache, None);
    }

    /** handleRoute up to its RenderRoute call: the layout choice and the error check. */
    method HandleRoute(path: string, bucket: seq<RouteRef>) returns (h: Handled)
      ensures h == Handle(components, bucket)
    {
      var layout := DefaultLayout;
      if |bucket| > 0 {
        var r := bucket[0];
        if |r.route.layout| > 0 {
          layout := r.route.layout;
        }
      }
      if layout !in components {
        return Crash;
      }
      var out := RenderRoute(components[layout], bucket);
      if out.err.Some? {
        return Failed(out.err.value);
      }
      return Serve(out);
    }

    /**
     * BuildRouter: flatten the route tree with the counter seeded at -1,
     * then resolve every bucket, in no fixed order; the first bucket that
     * fails ends the build with its error.
     */
    method BuildRouter() returns (handle: Buckets, out: RouterOutcome)
      modifies this
      ensures handle == WalkRoutes(State(map[], -1), routes, 0).h
      ensures routeCount == WalkRoutes(State(map[], -1), routes, 0).count
      ensures components == old(components) && routes == old(routes)
      ensures imports == old(imports) && base == old(base)
      ensures out.Routed? <==> forall p :: p in handle ==> Handle(components, handle[p]).Serve?
      ensures out.Routed? ==>
        out.handlers.Keys == handle.Keys
        && forall p :: p in handle ==> out.handlers[p] == Handle(components, handle[p]).rendered
      ensures out.RouteFailed? ==> exists p :: p in handle && Handle(components, handle[p]) == Failed(out.message)
      ensures out.RoutePanic? ==> exists p :: p in handle && Handle(components, handle[p]).Crash?
    {
      routeCount := -1;
      handle := map[];
      for k := 0 to |routes|
        invariant WalkRoutes(State(handle, routeCount), routes, k) == WalkRoutes(State(map[], -1), routes, 0)
        invariant components == old(components) && routes == old(routes)
        invariant imports == old(imports) && base == old(base)
      {
        handle := Iter(handle, routes[k], "/", []);
      }
      out := ResolveBuckets(handle);
    }

    /**
     * BuildRouter's second half: resolve every bucket, in no fixed order;
     * the first bucket that fails ends the build with its error.
     */
    method ResolveBuckets(handle: Buckets) returns (out: RouterOutcome)
      ensures out.Routed? <==> forall p :: p in handle ==> Handle(components, handle[p]).Serve?
      ensures out.Routed? ==>
        out.handlers.Keys == handle.Keys
        && forall p :: p in handle ==> out.handlers[p] == Handle(components, handle[p]).rendered
      ensures out.RouteFailed? ==> exists p :: p in handle && Handle(components, handle[p]) == Failed(out.message)
      ensures out.RoutePanic? ==> exists p :: p in handle && Handle(components, handle[p]).Crash?
    {
      var todo := handle.Keys;
      var handlers: map<string, Rendered> := map[];
      while todo != {}
        modifies {}
        invariant todo <= handle.Keys
        invariant handlers.Keys == handle.Keys - todo
        invariant forall p :: p in handlers ==> Handle(components, handle[p]) == Serve(handlers[p])
        decreases |todo|
      {
        var p :| p in todo;
        var h := HandleRoute(p, handle[p]);
        match h {
          case Crash =>
            return RoutePanic;
          case Failed(m) =>
            return RouteFailed(m);
          case Serve(rd) =>
            handlers := handlers[p := rd];
        }
        todo := todo - {p};
      }
      out := Routed(handlers);
    }

    /**
     * New's loop over the imports: make the paths of each import absolute
     * (in place), and for one that names a template build its component,
     * register it under the import's name, and stop at the first failure.
     */
    method RegisterImports(files: map<string, string>, parse: string -> Result<Tpl>, registry: PartialRegistry)
      returns (failure: Option<Built>)
      modifies this, registry
      ensures var l := LoadImports(base, old(imports), 0, files, parse, old(components), old(registry.partials));
        imports == l.imports && components == l.components && registry.partials == l.partials
        && failure == l.failure
      ensures base == old(base) && routes == old(routes) && routeCount == old(routeCount)
    {
      ghost var goal := LoadImports(base, imports, 0, files, parse, components, registry.partials);
      for k := 0 to |imports|
        invariant |imports| == old(|imports|)
        invariant LoadImports(base, imports, k, files, parse, components, registry.partials) == goal
        invariant base == old(base) && routes == old(routes) && routeCount == old(routeCount)
      {
        ghost var imps0, comps0, parts0 := imports, components, registry.partials;
        var imp := imports[k];
        imp := imp.(componentPath := AbsPath(base, imp.componentPath));
        if |imp.templatePath| > 0 {
          imp := imp.(templatePath := AbsPath(base, imp.templatePath));
          imports := imports[k := imp];
          var c := NewComponent(imp, files, parse, registry);
          if !c.Built? {
            LoadStop(base, imps0, k, files, parse, comps0, parts0, imp, c);
            return Some(c);
          }
          LoadGo(base, imps0, k, files, parse, comps0, parts0, imp, c);
          components := components[imp.name := c.component];
        } else {
          LoadSkip(base, imps0, k, files, parse, comps0, parts0);
          imports := imports[k := imp];
        }
      }
      assert goal == Load(imports, components, registry.partials, None);
      failure := None;
    }
  }

  /**
   * New: check the session key, read the manifest, take the base directory
   * from the manifest's path, and register a component for every import
   * that names a template, stopping at the first that fails.
   */
  method New(opt: Options, manifest: Result<ManifestFile>, files: map<string, string>,
             parse: string -> Result<Tpl>, registry: PartialRegistry) returns (p: Pages, err: Option<Failure>)
    modifies registry
    ensures fresh(p)
    ensures opt.enableSessionStore && !KeyLengthOk(opt.sessionKey) ==>
      err == Some(BadKeyLength) && p.components == map[] && p.imports == [] && p.routes == []
      && registry.partials == old(registry.partials)
    ensures (!opt.enableSessionStore || KeyLengthOk(opt.sessionKey)) && manifest.Err? ==>
      err == Some(ManifestFailed(manifest.error)) && p.components == map[] && p.imports == [] && p.routes == []
      && registry.partials == old(registry.partials)
    ensures (!opt.enableSessionStore || KeyLengthOk(opt.sessionKey)) && manifest.Ok? ==>
      var base := GoPath.Dir(opt.jsonFilePath);
      var l := LoadImports(base, manifest.value.imports, 0, files, parse, map[], old(registry.partials));
      p.base == base && p.routes == manifest.value.routes && p.imports == l.imports
      && p.components == l.components && registry.partials == l.partials
      && err == (if l.failure.Some? then Some(ImportFailed(l.failure.value)) else None)
  {
    p := new Pages();
    if opt.enableSessionStore {
      if |opt.sessionKey| == 0 || |opt.sessionKey| % 8 != 0 {
        return p, Some(BadKeyLength);
      }
    }
    if manifest.Err? {
      return p, Some(ManifestFailed(manifest.error));
    }
    p.imports := manifest.value.imports;
    p.routes := manifest.value.routes;
    p.base := GoPath.Dir(opt.jsonFilePath);
    var failed := p.RegisterImports(files, parse, registry);
    if failed.Some? {
      return p, Some(ImportFailed(failed.value));
    }
    err := None;
  }
}
