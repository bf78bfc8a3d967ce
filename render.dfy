/**
 * Rendering the routes of one path. RenderRoute walks the bucket of the
 * path in order, skips a route whose id it has already seen, ORs the cache
 * flags, stops at the first redirect, and otherwise takes the route's page
 * and requests and registers, on a clone of the layout's template, the
 * route's component as the partial of its outlet. A component the pages do
 * not know ends the walk with an error.
 *
 * `Loop` is the walk as RenderRoute performs it (the method
 * Pages.RenderRoute is proved against it). The reference is split in two
 * independent parts: `Firsts`, the bucket with repeated ids removed, and
 * `Flat`, the same walk over routes that are all distinct. The lemmas prove
 * `Loop` is `Flat` after `Firsts` and state in closed form what `Flat`
 * returns.
 */
module Render {
  import opened Wrappers
  import opened Manifest

  /** The outlet used when a route names none. */
  const DefaultOutlet := "router-outlet"

  /** The layout used when the first route of a path names none. */
  const DefaultLayout := "index"

  function Outlet(r: Route): string
  {
    if |r.outlet| == 0 then DefaultOutlet else r.outlet
  }

  /** The partial that includes the partial registered under `name`. */
  function Include(name: string): string
  {
    "{{> " + name + "}}"
  }

  function MissingComponent(name: string): string
  {
    "component " + name + " doesn't exist"
  }

  /** RenderRoute's six results: page variables, body, requests, redirect, cache flag, error. */
  datatype Rendered = Rendered(
    page: map<string, Json>,
    body: Tpl,
    requests: seq<Request>,
    redirect: string,
    cache: bool,
    err: Option<string>)

  /** The variables RenderRoute carries from one route to the next. */
  datatype Acc = Acc(page: map<string, Json>, body: Tpl, requests: seq<Request>, cache: bool)

  /** The walk starts from a clone of the layout's template and nil page and requests. */
  function Start(layout: Tpl): Acc
  {
    Acc(map[], layout.Clone(), [], false)
  }

  /** A route that ends the walk: it redirects, or names a component that is not there. */
  predicate Stops(comps: map<string, Component>, r: Route)
  {
    |r.redirect| > 0 || (|r.component| > 0 && r.component !in comps)
  }

  /** A route that registers its component's partial under outlet `n`. */
  predicate Writes(comps: map<string, Component>, r: Route, n: string)
  {
    |r.component| > 0 && r.component in comps && Outlet(r) == n
  }

  /** The body after a route that does not stop the walk. */
  function Register(comps: map<string, Component>, body: Tpl, r: Route): Tpl
  {
    if |r.component| > 0 && r.component in comps then
      body.RegisterPartial(Outlet(r), Include(comps[r.component].imp.name))
    else body
  }

  /** The variables after a route that does not stop the walk. */
  function Step(comps: map<string, Component>, a: Acc, r: Route): Acc
  {
    Acc(r.page, Register(comps, a.body, r), r.requests, a.cache || r.cache)
  }

  /** The results when route `r` stops the walk. */
  function Stop(a: Acc, r: Route): Rendered
  {
    var cache := a.cache || r.cache;
    if |r.redirect| > 0 then Rendered(a.page, a.body, a.requests, r.redirect, cache, None)
    else Rendered(r.page, a.body, r.requests, "", cache, Some(MissingComponent(r.component)))
  }

  /** The results when every route has been walked. */
  function Finish(a: Acc): Rendered
  {
    Rendered(a.page, a.body, a.requests, "", a.cache, None)
  }

  /** RenderRoute's loop from the k-th route, with the ids in `done` already seen. */
  function Loop(comps: map<string, Component>, a: Acc, done: set<int>, routes: seq<RouteRef>, k: nat): Rendered
    decreases |routes| - k
  {
    if k >= |routes| then Finish(a)
    else if routes[k].id in done then Loop(comps, a, done, routes, k + 1)
    else if Stops(comps, routes[k].route) then Stop(a, routes[k].route)
    else Loop(comps, Step(comps, a, routes[k].route), done + {routes[k].id}, routes, k + 1)
  }

  // ---------------------------------------------------------------------------
  // Reference, part one: the first route of every id

  /** The routes in order, each id kept the first time it is met, ids in `seen` dropped. */
  function Firsts(routes: seq<RouteRef>, seen: set<int>): seq<RouteRef>
    decreases |routes|
  {
    if routes == [] then []
    else if routes[0].id in seen then Firsts(routes[1..], seen)
    else [routes[0]] + Firsts(routes[1..], seen + {routes[0].id})
  }

  /** Entry i of the bucket is r, and no entry before it has r's id. */
  predicate FirstAt(routes: seq<RouteRef>, i: int, r: RouteRef)
  {
    0 <= i < |routes| && routes[i] == r && forall i' :: 0 <= i' < i ==> routes[i'].id != r.id
  }

  /** No two entries share an id, and none has an id in `seen`. */
  predicate Fresh(f: seq<RouteRef>, seen: set<int>)
  {
    (forall i, j :: 0 <= i < j < |f| ==> f[i].id != f[j].id)
    && (forall j :: 0 <= j < |f| ==> f[j].id !in seen)
  }

  /** Firsts keeps no id twice and none of the seen ones. */
  lemma {:induction false} FirstsDistinct(routes: seq<RouteRef>, seen: set<int>)
    ensures Fresh(Firsts(routes, seen), seen)
    decreases |routes|
  {
    if routes != [] {
      var r0, rest := routes[0], routes[1..];
      var seen' := if r0.id in seen then seen else seen + {r0.id};
      FirstsDistinct(rest, seen');
      var f, g := Firsts(routes, seen), Firsts(rest, seen');
      if r0.id !in seen {
        assert f == [r0] + g;
        forall i, j | 0 <= i < j < |f| ensures f[i].id != f[j].id {
          assert f[j] == g[j - 1];
          if i > 0 {
            assert f[i] == g[i - 1];
          }
        }
      }
    }
  }

  /** r is the first entry of `routes` with its id. */
  ghost predicate IsFirst(routes: seq<RouteRef>, r: RouteRef)
  {
    exists i :: FirstAt(routes, i, r)
  }

  /** Every entry of f is the first entry of `routes` with its id. */
  ghost predicate AllFirst(routes: seq<RouteRef>, f: seq<RouteRef>)
  {
    forall j :: 0 <= j < |f| ==> IsFirst(routes, f[j])
  }

  /** The j-th entry Firsts keeps is the first entry of the bucket with its id. */
  lemma {:induction false} FirstsEntry(routes: seq<RouteRef>, seen: set<int>, j: nat)
    requires j < |Firsts(routes, seen)|
    ensures IsFirst(routes, Firsts(routes, seen)[j])
    decreases |routes|
  {
    var r0, rest := routes[0], routes[1..];
    var seen' := if r0.id in seen then seen else seen + {r0.id};
    var f, g := Firsts(routes, seen), Firsts(rest, seen');
    assert f == if r0.id in seen then g else [r0] + g;
    if r0.id !in seen && j == 0 {
      assert FirstAt(routes, 0, f[0]);
    } else {
      var jj := if r0.id in seen then j else j - 1;
      assert f[j] == g[jj];
      FirstsEntry(rest, seen', jj);
      FirstsDistinct(rest, seen');
      var i :| FirstAt(rest, i, g[jj]);
      assert g[jj].id !in seen';
      forall i' | 0 <= i' < i + 1 ensures routes[i'].id != f[j].id {
        if i' > 0 {
          assert routes[i'] == rest[i' - 1];
        }
      }
      assert FirstAt(routes, i + 1, f[j]);
    }
  }

  /** Each entry Firsts keeps is the first entry of the bucket with its id. */
  lemma FirstsAreFirst(routes: seq<RouteRef>, seen: set<int>)
    ensures AllFirst(routes, Firsts(routes, seen))
  {
    forall j | 0 <= j < |Firsts(routes, seen)|
      ensures IsFirst(routes, Firsts(routes, seen)[j])
    {
      FirstsEntry(routes, seen, j);
    }
  }

  /** Every id of `routes` outside `seen` is the id of some entry of f. */
  ghost predicate Covers(routes: seq<RouteRef>, seen: set<int>, f: seq<RouteRef>)
  {
    forall i :: 0 <= i < |routes| && routes[i].id !in seen ==>
      exists j :: 0 <= j < |f| && f[j].id == routes[i].id
  }

  /** Every id of the bucket that was not seen is kept. */
  lemma {:induction false} FirstsCover(routes: seq<RouteRef>, seen: set<int>)
    ensures Covers(routes, seen, Firsts(routes, seen))
    decreases |routes|
  {
    if routes != [] {
      var r0, rest := routes[0], routes[1..];
      var seen' := if r0.id in seen then seen else seen + {r0.id};
      FirstsCover(rest, seen');
      var f, g := Firsts(routes, seen), Firsts(rest, seen');
      assert f == if r0.id in seen then g else [r0] + g;
      forall i | 0 <= i < |routes| && routes[i].id !in seen
        ensures exists j :: 0 <= j < |f| && f[j].id == routes[i].id
      {
        if routes[i].id == r0.id {
          assert f[0] == r0;
        } else {
          assert rest[i - 1] == routes[i];
          var j :| 0 <= j < |g| && g[j].id == routes[i].id;
          if r0.id in seen {
            assert f[j] == g[j];
          } else {
            assert f[j + 1] == g[j];
          }
        }
      }
    }
  }

  // ---------------------------------------------------------------------------
  // Reference, part two: the walk over distinct routes

  /** The walk over `rs`, with no id check. */
  function Flat(comps: map<string, Component>, a: Acc, rs: seq<RouteRef>): Rendered
    decreases |rs|
  {
    if rs == [] then Finish(a)
    else if Stops(comps, rs[0].route) then Stop(a, rs[0].route)
    else Flat(comps, Step(comps, a, rs[0].route), rs[1..])
  }

  /** RenderRoute's walk is the walk over the first route of every id. */
  lemma {:induction false} LoopIsFlat(comps: map<string, Component>, a: Acc, done: set<int>,
                                      routes: seq<RouteRef>, k: nat)
    requires k <= |routes|
    ensures Loop(comps, a, done, routes, k) == Flat(comps, a, Firsts(routes[k..], done))
    decreases |routes| - k
  {
    if k < |routes| {
      var r := routes[k];
      assert routes[k..][0] == r;
      assert routes[k..][1..] == routes[k + 1..];
      if r.id in done {
        LoopIsFlat(comps, a, done, routes, k + 1);
      } else if !Stops(comps, r.route) {
        LoopIsFlat(comps, Step(comps, a, r.route), done + {r.id}, routes, k + 1);
        var rest := Firsts(routes[k + 1..], done + {r.id});
        assert Firsts(routes[k..], done) == [r] + rest;
        assert ([r] + rest)[0] == r && ([r] + rest)[1..] == rest;
      }
    }
  }

  /** The index of the first route that stops the walk, or |rs| when none does. */
  function FirstStop(comps: map<string, Component>, rs: seq<RouteRef>): (j: nat)
    ensures j <= |rs|
    ensures forall i :: 0 <= i < j ==> !Stops(comps, rs[i].route)
    ensures j < |rs| ==> Stops(comps, rs[j].route)
    decreases |rs|
  {
    if rs == [] then 0
    else if Stops(comps, rs[0].route) then 0
    else 1 + FirstStop(comps, rs[1..])
  }

  /** The body after registering the partials of routes that do not stop the walk. */
  function Registered(comps: map<string, Component>, body: Tpl, rs: seq<RouteRef>): Tpl
    decreases |rs|
  {
    if rs == [] then body else Registered(comps, Register(comps, body, rs[0].route), rs[1..])
  }

  /** Some route of `rs`, at or before index `upto`, asks for caching. */
  predicate AnyCache(rs: seq<RouteRef>, upto: int)
  {
    exists i :: 0 <= i < |rs| && i <= upto && rs[i].route.cache
  }

  /**
   * What the walk over distinct routes returns, with j the first route that
   * stops it: the redirect of route j, or the missing-component error of
   * route j, or neither when no route stops; the cache flag ORed over every
   * route up to and including j; the page and requests of route j when its
   * component is missing, and otherwise of the last route before j; and the
   * body with the partials of the routes before j registered.
   */
  lemma FlatOutcome(comps: map<string, Component>, a: Acc, rs: seq<RouteRef>)
    ensures var out, j := Flat(comps, a, rs), FirstStop(comps, rs);
      var missing := j < |rs| && |rs[j].route.redirect| == 0;
      out.redirect == (if j < |rs| then rs[j].route.redirect else "")
      && out.err == (if missing then Some(MissingComponent(rs[j].route.component)) else None)
      && out.cache == (a.cache || AnyCache(rs, j))
      && out.page == (if missing then rs[j].route.page else if j > 0 then rs[j - 1].route.page else a.page)
      && out.requests == (if missing then rs[j].route.requests else if j > 0 then rs[j - 1].route.requests else a.requests)
      && out.body == Registered(comps, a.body, rs[..j])
  {
    FlatEnd(comps, a, rs);
    FlatCache(comps, a, rs);
    FlatPage(comps, a, rs);
    FlatRequests(comps, a, rs);
    FlatBody(comps, a, rs);
  }

  /** How the walk ends is decided by the first route that stops it. */
  lemma {:induction false} FlatEnd(comps: map<string, Component>, a: Acc, rs: seq<RouteRef>)
    ensures var out, j := Flat(comps, a, rs), FirstStop(comps, rs);
      out.redirect == (if j < |rs| then rs[j].route.redirect else "")
      && out.err == (if j < |rs| && |rs[j].route.redirect| == 0 then Some(MissingComponent(rs[j].route.component)) else None)
    decreases |rs|
  {
    if rs != [] && !Stops(comps, rs[0].route) {
      FlatEnd(comps, Step(comps, a, rs[0].route), rs[1..]);
      var j := FirstStop(comps, rs);
      if j < |rs| {
        assert rs[1..][j - 1] == rs[j];
      }
    }
  }

  /** One route more, at the front, for AnyCache. */
  lemma AnyCacheStep(rs: seq<RouteRef>, j: int)
    requires rs != [] && j >= 1
    ensures AnyCache(rs, j) == (rs[0].route.cache || AnyCache(rs[1..], j - 1))
  {
    var rest := rs[1..];
    if AnyCache(rs, j) && !rs[0].route.cache {
      var i :| 0 <= i < |rs| && i <= j && rs[i].route.cache;
      assert rest[i - 1] == rs[i];
    }
    if AnyCache(rest, j - 1) {
      var i :| 0 <= i < |rest| && i <= j - 1 && rest[i].route.cache;
      assert rs[i + 1] == rest[i];
    }
  }

  /** The cache flag is ORed over every route up to and including the one that stops. */
  lemma {:induction false} FlatCache(comps: map<string, Component>, a: Acc, rs: seq<RouteRef>)
    ensures Flat(comps, a, rs).cache == (a.cache || AnyCache(rs, FirstStop(comps, rs)))
    decreases |rs|
  {
    if rs == [] {
      assert !AnyCache(rs, 0);
    } else if Stops(comps, rs[0].route) {
      assert AnyCache(rs, 0) == rs[0].route.cache;
    } else {
      var a1 := Step(comps, a, rs[0].route);
      FlatCache(comps, a1, rs[1..]);
      AnyCacheStep(rs, FirstStop(comps, rs));
    }
  }

  /** The page comes from the stopping route when its component is missing, else from the route before. */
  lemma {:induction false} FlatPage(comps: map<string, Component>, a: Acc, rs: seq<RouteRef>)
    ensures var out, j := Flat(comps, a, rs), FirstStop(comps, rs);
      out.page == (if j < |rs| && |rs[j].route.redirect| == 0 then rs[j].route.page
                   else if j > 0 then rs[j - 1].route.page else a.page)
    decreases |rs|
  {
    if rs != [] && !Stops(comps, rs[0].route) {
      var rest := rs[1..];
      FlatPage(comps, Step(comps, a, rs[0].route), rest);
      var j := FirstStop(comps, rs);
      if j - 1 > 0 {
        assert rest[j - 2] == rs[j - 1];
      }
      if j - 1 < |rest| {
        assert rest[j - 1] == rs[j];
      }
    }
  }

  /** The requests, chosen like the page. */
  lemma {:induction false} FlatRequests(comps: map<string, Component>, a: Acc, rs: seq<RouteRef>)
    ensures var out, j := Flat(comps, a, rs), FirstStop(comps, rs);
      out.requests == (if j < |rs| && |rs[j].route.redirect| == 0 then rs[j].route.requests
                       else if j > 0 then rs[j - 1].route.requests else a.requests)
    decreases |rs|
  {
    if rs != [] && !Stops(comps, rs[0].route) {
      var rest := rs[1..];
      FlatRequests(comps, Step(comps, a, rs[0].route), rest);
      var j := FirstStop(comps, rs);
      if j - 1 > 0 {
        assert rest[j - 2] == rs[j - 1];
      }
      if j - 1 < |rest| {
        assert rest[j - 1] == rs[j];
      }
    }
  }

  /** The body has the partials of the routes before the stopping one registered. */
  lemma {:induction false} FlatBody(comps: map<string, Component>, a: Acc, rs: seq<RouteRef>)
    ensures Flat(comps, a, rs).body == Registered(comps, a.body, rs[..FirstStop(comps, rs)])
    decreases |rs|
  {
    if rs != [] && !Stops(comps, rs[0].route) {
      var rest := rs[1..];
      FlatBody(comps, Step(comps, a, rs[0].route), rest);
      var j := FirstStop(comps, rs);
      assert rs[..j][0] == rs[0] && rs[..j][1..] == rest[..j - 1];
    } else if rs != [] {
      assert rs[..0] == [];
    }
  }

  /** No route of `rs` writes outlet n. */
  predicate Untouched(comps: map<string, Component>, rs: seq<RouteRef>, n: string)
  {
    forall i :: 0 <= i < |rs| ==> !Writes(comps, rs[i].route, n)
  }

  /** Route i is the last route of `rs` that writes outlet n. */
  predicate LastWriter(comps: map<string, Component>, rs: seq<RouteRef>, n: string, i: int)
  {
    0 <= i < |rs| && Writes(comps, rs[i].route, n) && Untouched(comps, rs[i + 1..], n)
  }

  /** Registering partials leaves the template source untouched. */
  lemma {:induction false} RegisteredSource(comps: map<string, Component>, body: Tpl, rs: seq<RouteRef>)
    ensures Registered(comps, body, rs).source == body.source
    decreases |rs|
  {
    if rs != [] {
      RegisteredSource(comps, Register(comps, body, rs[0].route), rs[1..]);
    }
  }

  /** An outlet no route writes keeps the layout's own partial, or stays absent. */
  lemma {:induction false} RegisteredUntouched(comps: map<string, Component>, body: Tpl, rs: seq<RouteRef>,
                                               n: string)
    requires Untouched(comps, rs, n)
    ensures n in Registered(comps, body, rs).partials <==> n in body.partials
    ensures n in body.partials ==> Registered(comps, body, rs).partials[n] == body.partials[n]
    decreases |rs|
  {
    if rs != [] {
      var rest := rs[1..];
      forall i | 0 <= i < |rest| ensures !Writes(comps, rest[i].route, n) {
        assert rest[i] == rs[i + 1];
      }
      assert !Writes(comps, rs[0].route, n);
      RegisteredUntouched(comps, Register(comps, body, rs[0].route), rest, n);
    }
  }

  /** The partial of an outlet is the one its last writer registered. */
  lemma {:induction false} RegisteredLast(comps: map<string, Component>, body: Tpl, rs: seq<RouteRef>,
                                          n: string, i: int)
    requires LastWriter(comps, rs, n, i)
    ensures n in Registered(comps, body, rs).partials
    ensures Registered(comps, body, rs).partials[n] == Include(comps[rs[i].route.component].imp.name)
    decreases |rs|
  {
    var b1 := Register(comps, body, rs[0].route);
    var rest := rs[1..];
    if i == 0 {
      assert rs[1..] == rest;
      RegisteredUntouched(comps, b1, rest, n);
    } else {
      assert rest[i - 1] == rs[i];
      assert rest[i..] == rs[i + 1..];
      RegisteredLast(comps, b1, rest, n, i - 1);
    }
  }

  /**
   * RenderRoute in closed form: every result is fixed by the first route of
   * each id, the first of those that stops the walk, and the partials the
   * routes before it register.
   */
  lemma RenderOutcome(comps: map<string, Component>, layout: Tpl, routes: seq<RouteRef>)
    ensures var out, rs := Loop(comps, Start(layout), {}, routes, 0), Firsts(routes, {});
      var j := FirstStop(comps, rs);
      out == Flat(comps, Start(layout), rs)
      && out.redirect == (if j < |rs| then rs[j].route.redirect else "")
      && (out.err.Some? <==> j < |rs| && |rs[j].route.redirect| == 0)
      && out.cache == AnyCache(rs, j)
      && out.body.source == layout.source
  {
    var rs := Firsts(routes, {});
    assert routes[0..] == routes;
    LoopIsFlat(comps, Start(layout), {}, routes, 0);
    FlatOutcome(comps, Start(layout), rs);
    RegisteredSource(comps, layout, rs[..FirstStop(comps, rs)]);
  }

  /** Every component is registered under its own import name, as New registers them. */
  predicate Named(comps: map<string, Component>)
  {
    forall n :: n in comps ==> comps[n].imp.name == n
  }

  /**
   * With components registered under their own names, the partial of an
   * outlet is `{{> c}}` for the component c of its last writer.
   */
  lemma RegisteredNamed(comps: map<string, Component>, body: Tpl, rs: seq<RouteRef>, n: string, i: int)
    requires Named(comps) && LastWriter(comps, rs, n, i)
    ensures n in Registered(comps, body, rs).partials
    ensures Registered(comps, body, rs).partials[n] == "{{> " + rs[i].route.component + "}}"
  {
    RegisteredLast(comps, body, rs, n, i);
  }

  // ---------------------------------------------------------------------------
  // handleRoute's use of RenderRoute

  /** The layout of a path: the first route's, or the default. */
  function LayoutName(routes: seq<RouteRef>): (name: string)
    ensures |name| > 0
    ensures name == DefaultLayout || (|routes| > 0 && name == routes[0].route.layout)
    ensures |routes| > 0 && |routes[0].route.layout| > 0 ==> name == routes[0].route.layout
    ensures (|routes| == 0 || |routes[0].route.layout| == 0) ==> name == DefaultLayout
  {
    if |routes| > 0 && |routes[0].route.layout| > 0 then routes[0].route.layout else DefaultLayout
  }

  /** How handleRoute ends: its handler's rendered data, an error, or a nil dereference. */
  datatype Handled = Serve(rendered: Rendered) | Failed(message: string) | Crash

  function Handle(comps: map<string, Component>, routes: seq<RouteRef>): Handled
  {
    var name := LayoutName(routes);
    if name !in comps then Crash
    else
      var out := Loop(comps, Start(comps[name].template), {}, routes, 0);
      if out.err.Some? then Failed(out.err.value) else Serve(out)
  }

  /**
   * handleRoute crashes exactly when the layout is not a component; it fails
   * exactly when the first stopping route of the deduplicated bucket names a
   * missing component, with that component's name in the message; a served
   * path renders on the layout's template.
   */
  lemma HandleOutcome(comps: map<string, Component>, routes: seq<RouteRef>)
    ensures Handle(comps, routes).Crash? <==> LayoutName(routes) !in comps
    ensures LayoutName(routes) in comps ==>
      var rs := Firsts(routes, {});
      var j := FirstStop(comps, rs);
      var h := Handle(comps, routes);
      (h.Failed? <==> j < |rs| && |rs[j].route.redirect| == 0)
      && (h.Failed? ==> h.message == MissingComponent(rs[j].route.component))
      && (h.Serve? ==>
            h.rendered.body.source == comps[LayoutName(routes)].template.source && h.rendered.err.None?)
  {
    var name := LayoutName(routes);
    if name in comps {
      var layout := comps[name].template;
      RenderOutcome(comps, layout, routes);
      var rs := Firsts(routes, {});
      assert routes[0..] == routes;
      LoopIsFlat(comps, Start(layout), {}, routes, 0);
      FlatOutcome(comps, Start(layout), rs);
    }
  }
}
