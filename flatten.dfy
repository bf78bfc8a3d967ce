/**
 * The route-tree flattener: `iter` walks the route tree depth first,
 * numbers every route in pre-order, computes its concrete path, and appends
 * to the bucket of that path first the route's ancestors and then, for a
 * leaf, the route itself.
 *
 * `Walk` is what one call of `iter` does to the buckets and the counter
 * (the method Pages.Iter is proved against it). `Visits` is an independent
 * description, the pre-order list of the routes met with their ids, paths
 * and ancestors; `Apply` folds their contributions into the buckets. The
 * lemmas connect the two and state what the buckets hold.
 */
module Flatten {
  import opened Wrappers
  import opened Manifest
  import GoPath

  /** Path to the routes that render it, in order. */
  type Buckets = map<string, seq<RouteRef>>

  /** A missing bucket reads as the empty (nil) slice. */
  function Get(h: Buckets, p: string): seq<RouteRef>
  {
    if p in h then h[p] else []
  }

  /** Route.Path keeps a trailing slash that path.Join drops. */
  predicate KeepsSlash(p: string)
  {
    |p| > 1 && p[|p| - 1] == '/'
  }

  /** The concrete path of a route under `base`. */
  function NewPath(base: string, p: string): string
  {
    var j := GoPath.Join(base, p);
    if KeepsSlash(p) then j + "/" else j
  }

  /**
   * The path ends in '/' exactly when the route's own path asks for it, or
   * the joined path is the root itself; otherwise it is the plain join.
   */
  lemma NewPathSlash(base: string, p: string)
    requires base != ""
    ensures var np := NewPath(base, p);
      np != "" && (np[|np| - 1] == '/' <==> KeepsSlash(p) || GoPath.Join(base, p) == "/")
    ensures !KeepsSlash(p) ==> NewPath(base, p) == GoPath.Join(base, p)
    ensures GoPath.Rooted(base) ==> GoPath.Rooted(NewPath(base, p))
  {
    GoPath.JoinShape(base, p);
  }

  // ---------------------------------------------------------------------------
  // What `iter` does

  /** The bucket map and the route counter. */
  datatype State = State(h: Buckets, count: int)

  /** One call of `iter` on `route`, under `base`, below the ancestors `parents`. */
  function Walk(s: State, route: Route, base: string, parents: seq<RouteRef>): State
    decreases route, |route.children| + 1
  {
    var id := s.count + 1;
    var me := RouteRef(id, route);
    var np := NewPath(base, route.path);
    var h1 := s.h[np := Get(s.h, np) + parents];
    var h2 := if route.IsLeaf() then h1[np := h1[np] + [me]] else h1;
    WalkChildren(State(h2, id), route, 0, np, parents + [me])
  }

  /** The loop over the children of `parent`, from the k-th on. */
  function WalkChildren(s: State, parent: Route, k: nat, base: string, ps: seq<RouteRef>): State
    decreases parent, |parent.children| - k
  {
    if k >= |parent.children| then s
    else WalkChildren(Walk(s, parent.children[k], base, ps), parent, k + 1, base, ps)
  }

  /** BuildRouter's loop over the top-level routes, from the k-th on. */
  function WalkRoutes(s: State, routes: seq<Route>, k: nat): State
    decreases |routes| - k
  {
    if k >= |routes| then s
    else WalkRoutes(Walk(s, routes[k], "/", []), routes, k + 1)
  }

  // ---------------------------------------------------------------------------
  // Reference: the pre-order list of visits

  /** A route met by the walk: its numbered reference, its path, its ancestors. */
  datatype Visit = Visit(ref: RouteRef, path: string, parents: seq<RouteRef>)

  /** What a visit appends to the bucket of its path. */
  function Contribution(v: Visit): seq<RouteRef>
  {
    v.parents + (if v.ref.route.IsLeaf() then [v.ref] else [])
  }

  function Add(h: Buckets, v: Visit): Buckets
  {
    h[v.path := Get(h, v.path) + Contribution(v)]
  }

  function Apply(h: Buckets, vs: seq<Visit>): Buckets
    decreases |vs|
  {
    if vs == [] then h else Apply(Add(h, vs[0]), vs[1..])
  }

  /** The visits of the subtree of `route`, numbered after `c`. */
  function Visits(route: Route, base: string, parents: seq<RouteRef>, c: int): (vs: seq<Visit>)
    ensures |vs| >= 1
    decreases route, |route.children| + 1
  {
    var me := RouteRef(c + 1, route);
    var np := NewPath(base, route.path);
    [Visit(me, np, parents)] + ChildVisits(route, 0, np, parents + [me], c + 1)
  }

  function ChildVisits(parent: Route, k: nat, base: string, ps: seq<RouteRef>, c: int): seq<Visit>
    decreases parent, |parent.children| - k
  {
    if k >= |parent.children| then []
    else
      var v := Visits(parent.children[k], base, ps, c);
      v + ChildVisits(parent, k + 1, base, ps, c + |v|)
  }

  /** The visits of a forest of top-level routes, numbered after `c`. */
  function RouteVisits(routes: seq<Route>, k: nat, c: int): seq<Visit>
    decreases |routes| - k
  {
    if k >= |routes| then []
    else
      var v := Visits(routes[k], "/", [], c);
      v + RouteVisits(routes, k + 1, c + |v|)
  }

  lemma {:induction false} ApplyConcat(h: Buckets, a: seq<Visit>, b: seq<Visit>)
    ensures Apply(h, a + b) == Apply(Apply(h, a), b)
    decreases |a|
  {
    if a == [] {
      assert a + b == b;
    } else {
      assert (a + b)[0] == a[0];
      assert (a + b)[1..] == a[1..] + b;
      ApplyConcat(Add(h, a[0]), a[1..], b);
    }
  }

  /** Two folds in a row are one fold over both lists of visits. */
  lemma ApplyTwice(s: State, v: seq<Visit>, cv: seq<Visit>, w1: State, w2: State)
    requires w1 == State(Apply(s.h, v), s.count + |v|)
    requires w2 == State(Apply(w1.h, cv), w1.count + |cv|)
    ensures w2 == State(Apply(s.h, v + cv), s.count + |v + cv|)
  {
    ApplyConcat(s.h, v, cv);
  }

  /** `iter` is the fold of the visits' contributions, and counts one per visit. */
  lemma {:induction false} WalkIsApply(s: State, route: Route, base: string, parents: seq<RouteRef>)
    ensures Walk(s, route, base, parents)
         == State(Apply(s.h, Visits(route, base, parents, s.count)),
                  s.count + |Visits(route, base, parents, s.count)|)
    decreases route, |route.children| + 1
  {
    var id := s.count + 1;
    var me := RouteRef(id, route);
    var np := NewPath(base, route.path);
    var v := Visit(me, np, parents);
    var h1 := s.h[np := Get(s.h, np) + parents];
    var h2 := if route.IsLeaf() then h1[np := h1[np] + [me]] else h1;
    assert h2 == Add(s.h, v) by {
      if route.IsLeaf() {
        assert h1[np] + [me] == Get(s.h, np) + Contribution(v);
      } else {
        assert parents + [] == parents;
      }
    }
    var cv := ChildVisits(route, 0, np, parents + [me], id);
    WalkChildrenIsApply(State(h2, id), route, 0, np, parents + [me]);
    ApplyConcat(s.h, [v], cv);
    assert Apply(s.h, [v]) == h2 by {
      assert [v][1..] == [];
    }
  }

  lemma {:induction false} WalkChildrenIsApply(s: State, parent: Route, k: nat, base: string,
                                               ps: seq<RouteRef>)
    ensures WalkChildren(s, parent, k, base, ps)
         == State(Apply(s.h, ChildVisits(parent, k, base, ps, s.count)),
                  s.count + |ChildVisits(parent, k, base, ps, s.count)|)
    decreases parent, |parent.children| - k, 1
  {
    if k < |parent.children| {
      var s1, v := ChildTurn(s, parent, k, base, ps);
      WalkChildrenIsApply(s1, parent, k + 1, base, ps);
      ApplyTwice(s, v, ChildVisits(parent, k + 1, base, ps, s1.count), s1, WalkChildren(s1, parent, k + 1, base, ps));
    }
  }

  /** One turn of the loop over the children: the walk of child k is the fold of its visits. */
  lemma {:induction false} ChildTurn(s: State, parent: Route, k: nat, base: string, ps: seq<RouteRef>)
    returns (s1: State, v: seq<Visit>)
    requires k < |parent.children|
    ensures WalkChildren(s, parent, k, base, ps) == WalkChildren(s1, parent, k + 1, base, ps)
    ensures ChildVisits(parent, k, base, ps, s.count) == v + ChildVisits(parent, k + 1, base, ps, s1.count)
    ensures s1 == State(Apply(s.h, v), s.count + |v|)
    decreases parent, |parent.children| - k, 0
  {
    var child := parent.children[k];
    v := Visits(child, base, ps, s.count);
    s1 := Walk(s, child, base, ps);
    WalkIsApply(s, child, base, ps);
  }

  lemma {:induction false} WalkRoutesIsApply(s: State, routes: seq<Route>, k: nat)
    ensures WalkRoutes(s, routes, k)
         == State(Apply(s.h, RouteVisits(routes, k, s.count)),
                  s.count + |RouteVisits(routes, k, s.count)|)
    decreases |routes| - k
  {
    if k < |routes| {
      var s1, v := RouteTurn(s, routes, k);
      WalkRoutesIsApply(s1, routes, k + 1);
      ApplyTwice(s, v, RouteVisits(routes, k + 1, s1.count), s1, WalkRoutes(s1, routes, k + 1));
    }
  }

  /** One turn of BuildRouter's loop: the walk of route k is the fold of its visits. */
  lemma RouteTurn(s: State, routes: seq<Route>, k: nat) returns (s1: State, v: seq<Visit>)
    requires k < |routes|
    ensures WalkRoutes(s, routes, k) == WalkRoutes(s1, routes, k + 1)
    ensures RouteVisits(routes, k, s.count) == v + RouteVisits(routes, k + 1, s1.count)
    ensures s1 == State(Apply(s.h, v), s.count + |v|)
  {
    v := Visits(routes[k], "/", [], s.count);
    s1 := Walk(s, routes[k], "/", []);
    WalkIsApply(s, routes[k], "/", []);
  }

  // ---------------------------------------------------------------------------
  // Ids: pre-order numbering

  /** The i-th visit has id c + 1 + i. */
  predicate IdsFrom(vs: seq<Visit>, c: int)
  {
    forall i :: 0 <= i < |vs| ==> vs[i].ref.id == c + 1 + i
  }

  lemma IdsFromConcat(a: seq<Visit>, b: seq<Visit>, c: int)
    requires IdsFrom(a, c) && IdsFrom(b, c + |a|)
    ensures IdsFrom(a + b, c)
  {
    forall i | 0 <= i < |a + b| ensures (a + b)[i].ref.id == c + 1 + i {
      if i >= |a| {
        assert (a + b)[i] == b[i - |a|];
      } else {
        assert (a + b)[i] == a[i];
      }
    }
  }

  /** One increment per call of `iter`, in pre-order. */
  lemma {:induction false} VisitIds(route: Route, base: string, parents: seq<RouteRef>, c: int)
    ensures IdsFrom(Visits(route, base, parents, c), c)
    decreases route, |route.children| + 1
  {
    var me := RouteRef(c + 1, route);
    var np := NewPath(base, route.path);
    ChildVisitIds(route, 0, np, parents + [me], c + 1);
    IdsFromConcat([Visit(me, np, parents)], ChildVisits(route, 0, np, parents + [me], c + 1), c);
  }

  lemma {:induction false} ChildVisitIds(parent: Route, k: nat, base: string, ps: seq<RouteRef>, c: int)
    ensures IdsFrom(ChildVisits(parent, k, base, ps, c), c)
    decreases parent, |parent.children| - k
  {
    if k < |parent.children| {
      var v := Visits(parent.children[k], base, ps, c);
      VisitIds(parent.children[k], base, ps, c);
      ChildVisitIds(parent, k + 1, base, ps, c + |v|);
      IdsFromConcat(v, ChildVisits(parent, k + 1, base, ps, c + |v|), c);
    }
  }

  lemma {:induction false} RouteVisitIds(routes: seq<Route>, k: nat, c: int)
    ensures IdsFrom(RouteVisits(routes, k, c), c)
    decreases |routes| - k
  {
    if k < |routes| {
      var v := Visits(routes[k], "/", [], c);
      VisitIds(routes[k], "/", [], c);
      RouteVisitIds(routes, k + 1, c + |v|);
      IdsFromConcat(v, RouteVisits(routes, k + 1, c + |v|), c);
    }
  }

  // ---------------------------------------------------------------------------
  // Ancestors: a root-to-leaf chain of increasing ids

  /** Each entry is a child of the one before it, and ids increase. */
  predicate Chain(ps: seq<RouteRef>)
  {
    (forall i :: 0 <= i < |ps| - 1 ==> ps[i + 1].route in ps[i].route.children)
    && (forall i, j :: 0 <= i < j < |ps| ==> ps[i].id < ps[j].id)
  }

  /** `parents` followed by `route` is a chain, and every id so far is at most c. */
  predicate Below(parents: seq<RouteRef>, route: Route, c: int)
  {
    Chain(parents)
    && (forall i :: 0 <= i < |parents| ==> parents[i].id <= c)
    && (parents != [] ==> route in parents[|parents| - 1].route.children)
  }

  lemma ChainExtend(parents: seq<RouteRef>, route: Route, c: int)
    requires Below(parents, route, c)
    ensures Chain(parents + [RouteRef(c + 1, route)])
  {
  }

  /**
   * Every visit's ancestors start with `ps`, its id is above c, and its
   * ancestors followed by itself form a chain.
   */
  predicate Under(vs: seq<Visit>, ps: seq<RouteRef>, c: int)
  {
    forall i :: 0 <= i < |vs| ==>
      |ps| <= |vs[i].parents| && vs[i].parents[..|ps|] == ps
      && Chain(vs[i].parents + [vs[i].ref]) && vs[i].ref.id > c
  }

  lemma UnderConcat(a: seq<Visit>, b: seq<Visit>, ps: seq<RouteRef>, c: int, d: int)
    requires Under(a, ps, c) && Under(b, ps, d) && c <= d
    ensures Under(a + b, ps, c)
  {
    forall i | 0 <= i < |a + b|
      ensures |ps| <= |(a + b)[i].parents| && (a + b)[i].parents[..|ps|] == ps
      ensures Chain((a + b)[i].parents + [(a + b)[i].ref]) && (a + b)[i].ref.id > c
    {
      if i >= |a| {
        assert (a + b)[i] == b[i - |a|];
      } else {
        assert (a + b)[i] == a[i];
      }
    }
  }

  lemma UnderPrefix(vs: seq<Visit>, ps: seq<RouteRef>, me: RouteRef, c: int)
    requires Under(vs, ps + [me], c)
    ensures Under(vs, ps, c)
  {
    forall i | 0 <= i < |vs| ensures vs[i].parents[..|ps|] == ps {
      assert vs[i].parents[..|ps|] == vs[i].parents[..|ps| + 1][..|ps|];
      assert (ps + [me])[..|ps|] == ps;
    }
  }

  /**
   * Every visit's ancestors extend the ancestors of the walk's start, and
   * together with the visited route they form a root-to-leaf chain.
   */
  lemma {:induction false} VisitChains(route: Route, base: string, parents: seq<RouteRef>, c: int)
    requires Below(parents, route, c)
    ensures Under(Visits(route, base, parents, c), parents, c)
    decreases route, |route.children| + 1
  {
    var me := RouteRef(c + 1, route);
    var np := NewPath(base, route.path);
    var ps := parents + [me];
    ChainExtend(parents, route, c);
    var cv := ChildVisits(route, 0, np, ps, c + 1);
    ChildVisitChains(route, 0, np, ps, c + 1);
    UnderPrefix(cv, parents, me, c + 1);
    var v0 := Visit(me, np, parents);
    assert Under([v0], parents, c) by {
      assert [v0][0] == v0;
      assert v0.parents[..|parents|] == parents;
    }
    UnderConcat([v0], cv, parents, c, c + 1);
  }

  lemma {:induction false} ChildVisitChains(parent: Route, k: nat, base: string, ps: seq<RouteRef>, c: int)
    requires Chain(ps) && ps != [] && ps[|ps| - 1].route == parent
    requires forall i :: 0 <= i < |ps| ==> ps[i].id <= c
    ensures Under(ChildVisits(parent, k, base, ps, c), ps, c)
    decreases parent, |parent.children| - k
  {
    if k < |parent.children| {
      var child := parent.children[k];
      var v := Visits(child, base, ps, c);
      VisitChains(child, base, ps, c);
      ChildVisitChains(parent, k + 1, base, ps, c + |v|);
      UnderConcat(v, ChildVisits(parent, k + 1, base, ps, c + |v|), ps, c, c + |v|);
    }
  }

  /**
   * A visited route is in its own bucket entry exactly when it has no
   * children (its ancestors all have smaller ids, so they are not it).
   */
  lemma LeafIffOwn(v: Visit)
    requires Chain(v.parents + [v.ref])
    ensures v.ref in Contribution(v) <==> v.ref.route.IsLeaf()
  {
    var ch := v.parents + [v.ref];
    forall i | 0 <= i < |v.parents| ensures v.parents[i] != v.ref {
      assert ch[i] == v.parents[i];
      assert ch[i].id < ch[|v.parents|].id;
    }
  }

  // ---------------------------------------------------------------------------
  // Buckets

  /** The contributions of the visits at path p, in visit order. */
  function At(vs: seq<Visit>, p: string): seq<RouteRef>
    decreases |vs|
  {
    if vs == [] then []
    else (if vs[0].path == p then Contribution(vs[0]) else []) + At(vs[1..], p)
  }

  /**
   * A bucket after the walk is the bucket before it followed by what the
   * visits at its path contributed, in order: entries are only appended.
   */
  lemma {:induction false} ApplyBucket(h: Buckets, vs: seq<Visit>, p: string)
    ensures Get(Apply(h, vs), p) == Get(h, p) + At(vs, p)
    decreases |vs|
  {
    if vs == [] {
      assert Get(h, p) + [] == Get(h, p);
    } else {
      ApplyBucket(Add(h, vs[0]), vs[1..], p);
      var c := if vs[0].path == p then Contribution(vs[0]) else [];
      assert Get(Add(h, vs[0]), p) == Get(h, p) + c;
      assert Get(h, p) + c + At(vs[1..], p) == Get(h, p) + (c + At(vs[1..], p));
    }
  }

  /**
   * One call of `iter` only appends: every bucket before it is a prefix of
   * the same bucket after it, followed by what the visits at that path
   * contributed.
   */
  lemma WalkOnlyAppends(s: State, route: Route, base: string, parents: seq<RouteRef>, p: string)
    ensures var vs := Visits(route, base, parents, s.count);
      Get(Walk(s, route, base, parents).h, p) == Get(s.h, p) + At(vs, p)
  {
    WalkIsApply(s, route, base, parents);
    ApplyBucket(s.h, Visits(route, base, parents, s.count), p);
  }

  /** The walk's keys are the old keys and the path of every visit. */
  lemma {:induction false} ApplyKeys(h: Buckets, vs: seq<Visit>, p: string)
    ensures p in Apply(h, vs) <==> p in h || exists i :: 0 <= i < |vs| && vs[i].path == p
    decreases |vs|
  {
    if vs != [] {
      var rest := vs[1..];
      ApplyKeys(Add(h, vs[0]), rest, p);
      if exists i :: 0 <= i < |rest| && rest[i].path == p {
        var i :| 0 <= i < |rest| && rest[i].path == p;
        assert vs[i + 1].path == p;
      }
      if exists i :: 0 <= i < |vs| && vs[i].path == p {
        var i :| 0 <= i < |vs| && vs[i].path == p;
        if i > 0 {
          assert rest[i - 1].path == p;
        }
      }
    }
  }

  /**
   * BuildRouter's flattening, started on an empty map with the counter at
   * -1: the i-th route met in pre-order gets id i, the ids are pairwise
   * distinct, the counter ends at the number of routes minus one, the keys
   * are exactly the visited paths, and every bucket is what the visits at
   * its path contributed, in order.
   */
  lemma Flattening(routes: seq<Route>)
    ensures var s := WalkRoutes(State(map[], -1), routes, 0);
      var vs := RouteVisits(routes, 0, -1);
      s.count == |vs| - 1
      && (forall i :: 0 <= i < |vs| ==> vs[i].ref.id == i)
      && (forall i, j :: 0 <= i < j < |vs| ==> vs[i].ref.id != vs[j].ref.id)
      && (forall i :: 0 <= i < |vs| ==> vs[i].path in s.h)
      && (forall p :: p in s.h ==> exists i :: 0 <= i < |vs| && vs[i].path == p)
      && (forall p :: Get(s.h, p) == At(vs, p))
  {
    var vs := RouteVisits(routes, 0, -1);
    WalkRoutesIsApply(State(map[], -1), routes, 0);
    RouteVisitIds(routes, 0, -1);
    forall p ensures Get(Apply(map[], vs), p) == At(vs, p) {
      ApplyBucket(map[], vs, p);
      assert Get(map[], p) == [];
      assert [] + At(vs, p) == At(vs, p);
    }
    forall i | 0 <= i < |vs| ensures vs[i].path in Apply(map[], vs) {
      ApplyKeys(map[], vs, vs[i].path);
    }
    forall p | p in Apply(map[], vs) ensures exists i :: 0 <= i < |vs| && vs[i].path == p {
      ApplyKeys(map[], vs, p);
    }
  }

  /** Top-level visits start from no ancestors, so every visit's ancestors form a chain. */
  lemma {:induction false} RouteVisitChains(routes: seq<Route>, k: nat, c: int)
    ensures Under(RouteVisits(routes, k, c), [], c)
    decreases |routes| - k
  {
    if k < |routes| {
      var v := Visits(routes[k], "/", [], c);
      VisitChains(routes[k], "/", [], c);
      RouteVisitChains(routes, k + 1, c + |v|);
      UnderConcat(v, RouteVisits(routes, k + 1, c + |v|), [], c, c + |v|);
    }
  }
}
