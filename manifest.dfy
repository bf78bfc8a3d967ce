/**
 * The manifest's data: routes, their outbound requests, component imports,
 * and two stand-ins for the template library's values (a parsed template
 * with its partials, and a registered component).
 */
module Manifest {
  import opened Wrappers

  /** A JSON value, as found in a route's "page" object. */
  datatype Json =
    | JNull
    | JBool(b: bool)
    | JNumber(n: int)
    | JString(s: string)
    | JArray(items: seq<Json>)
    | JObject(fields: map<string, Json>)

  /** An outbound data request of a route (its HTTP method is `verb`); a nil body is None. */
  datatype Request = Request(url: string, verb: string, headers: map<string, string>, body: Option<string>)

  /**
   * A route of the manifest's tree. A nil "page" map or "requests" list is
   * the empty one. The run-time id lives beside the route, in RouteRef.
   */
  datatype Route = Route(
    path: string,
    component: string,
    layout: string,
    requests: seq<Request>,
    outlet: string,
    children: seq<Route>,
    page: map<string, Json>,
    redirect: string,
    cache: bool)
  {
    predicate IsLeaf() { |children| == 0 }
  }

  /** A route object after numbering: the route and the id written into it. */
  datatype RouteRef = RouteRef(id: int, route: Route)

  /** An import of the manifest: a component's template file and flags. */
  datatype Import = Import(
    templatePath: string,
    componentPath: string,
    name: string,
    isLayout: bool,
    render: bool,
    omitTags: bool)

  /**
   * A parsed template of the template library: its source text and the
   * partials registered on it (name to partial source).
   */
  datatype Tpl = Tpl(source: string, partials: map<string, string>)
  {
    /** Template.Clone: an independent copy; as a value it is the same. */
    function Clone(): Tpl
    {
      this
    }

    /** Template.RegisterPartial: `name` now resolves to `src`. */
    function RegisterPartial(name: string, src: string): (t: Tpl)
      ensures t.source == source
      ensures name in t.partials && t.partials[name] == src
      ensures forall n :: n in partials && n != name ==> n in t.partials && t.partials[n] == partials[n]
      ensures t.partials.Keys == partials.Keys + {name}
    {
      Tpl(source, partials[name := src])
    }
  }

  /** A registered component: its import and its parsed template. */
  datatype Component = Component(imp: Import, template: Tpl)
}
