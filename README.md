# pages — a verified model of the router builder, renderer and template tooling

`pages` is a Go web front end driven by a JSON manifest. The manifest lists
*imports* (components: a Handlebars template file, an optional script file, a
name and two flags) and a tree of *routes* (path, component, layout, outlet,
requests, page variables, redirect, cache flag, children). This project models
its core in Dafny and proves properties of the model:

- **Start-up** (`New`). Checks the session key's length, absolutises the
  import paths against the manifest's directory and builds every component.
  Building a component registers its partial in the template library's global
  registry, then parses its template. The first failure aborts start-up.
- **Route flattening** (`iter`, and `BuildRouter`'s seeding of the counter):
  - every route gets a fresh id from a counter that starts at -1;
  - every concrete path gets a bucket;
  - each node appends its ancestors to its own path's bucket, and a leaf
    also appends itself.
- **Rendering a bucket** (`RenderRoute`, and the layout choice in
  `handleRoute`). Clones the layout template and walks the bucket, skipping
  ids already seen. Redirect and cache flags are collected along the way. An
  outlet partial `{{> component}}` is registered per route. The walk stops
  at the first redirect or the first unknown component.
- **Mustache encoder and decoder** (`Encode` and `Decode`). They hide tags
  inside HTML comments `<!--stache:…-->` and bring them back.
- **Mustache-to-JavaScript compiler** (`Template.Compile`). A stack machine
  that turns section tags into JavaScript template-literal fragments, and
  other tags into `${…}` interpolations.

Files:

| file | contents |
|---|---|
| `wrappers.dfy` | Option and Result |
| `gopath.dfy` | Go's `path.Clean`, `path.Join` and `filepath.Dir` on slash-separated paths |
| `manifest.dfy` | routes, requests, imports, parsed templates and components as values |
| `mustache.dfy` | the tag pattern `reTemplate`, as a deterministic matcher, plus the left-to-right scan |
| `encoder.dfy` | `Encode`, `Decode` and their round trip |
| `template.dfy` | the compiler: the specification functions `Step` and `Run`, and `class Template` |
| `component.dfy` | `NewComponent`, and the partial registry as a class |
| `flatten.dfy` | the specification of `iter`, its list-of-visits reference, and what flattening guarantees |
| `render.dfy` | the specification of `RenderRoute`, its deduplicated reference, and `handleRoute`'s outcome |
| `pages.dfy` | `class Pages` (`Iter`, `BuildRouter`, `RenderRoute`, `HandleRoute`, the import loop) and `New` |

How state is modelled:

- State that the Go code updates in place keeps that form. `Pages` is a class
  with `routeCount`, `components`, `imports`, `routes` and `base` fields.
  `Template` is a class with `content`, `i` and `openFrames`. The template
  library's partial registry is a class too.
- Every method is proved equal to a specification function: `Walk`, `Loop`,
  `Handle`, `LoadImports`, `Build`, `Run`. The properties are lemmas about
  those functions.
- Files are a map from path to contents.
- The template parser is a function parameter.
- Go map iteration order is a nondeterministic choice.

## Model

| member | source | states |
|---|---|---|
| `GoPath.JoinShape` | pages.go:123 | `path.Join` yields a non-empty path with no trailing slash (except the root), rooted when its first argument is rooted |
| `Manifest.Tpl.RegisterPartial` | pages.go:431 | the name resolves to the new source, every other partial is unchanged, the key set grows by the name, the source is unchanged |
| `Mustache.SkipSpacesRun` | template.go:19 | the run skipped over consists of whitespace only |
| `Mustache.SkipNameRun` | template.go:19 | the run skipped over consists of name characters `[a-zA-Z-._]` only |
| `Mustache.MatchGrammar` | template.go:19 | the matcher returns m if and only if the first m.len characters are `{{`, white space, the prefix m.tag (empty or one of `> # / ^ !`), white space, the non-empty name m.name of `[a-zA-Z-._]`, white space and `}}` |
| `Mustache.MatchSound` | template.go:19 | what the matcher covers is a text of that grammar, with the matched groups |
| `Mustache.MatchComplete` | template.go:19 | every text of that grammar matches as one tag with its groups, whatever follows it |
| `Mustache.FirstTag` | template.go:47 | a position in bounds where a tag matches, or the end of the text |
| `Mustache.FirstTagFirst` | template.go:47 | no tag matches before that position, so it is the first match |
| `Mustache.MatchCanonical` | template.go:19 | `{{n}}` matches with an empty prefix and name n |
| `Mustache.MatchPrefixed` | template.go:19 | `{{p n}}` matches with prefix p and name n |
| `Mustache.MatchPrefixedTight` | template.go:19 | `{{pn}}` matches with prefix p and name n |
| `Mustache.MatchStopsAtLt` | template.go:19 | a match never extends over a `<` |
| `Mustache.MatchPrefix` | template.go:19 | a match depends only on the characters it covers |
| `Mustache.TagsConcat` | template.go:47 | the tags of `a + b` are those of a followed by those of b, when b starts at a `<` |
| `Encoder.StacheDropsPrefix` | encoder.go:13-19 | as written, the tag text is `{{name}}` whatever the prefix (the second `if` overwrites the first) |
| `Encoder.EncodeNoTags` | encoder.go:5-23 | text without tags is left unchanged |
| `Encoder.EncodeText` | encoder.go:5-23 | a head without `{` is copied and the rest is encoded on its own |
| `Encoder.EncodeContent` | encoder.go:9-11 | `{{content}}` and `{{p content}}` become the sentinel `<!--stache-content-->` |
| `Encoder.EncodeCanonical` | encoder.go:5-23 | `{{n}}` becomes `<!--stache:{{n}}-->` |
| `Encoder.EncodeTwiceNests` | encoder.go:5-23 | encoding is not idempotent: the tag inside a marker is wrapped again |
| `Encoder.MatchMarker` | encoder.go:27 | a decoder match starts with `<`, is at least as long as both marker halves plus a tag, and has a valid name |
| `Encoder.DecodeText` | encoder.go:26-37 | a head without `<` is copied and the rest is decoded on its own |
| `Encoder.DecodeKeepsSentinel` | encoder.go:26-37 | the content sentinel passes through the decoder unchanged |
| `Encoder.DecodeTag` | encoder.go:26-37 | decoding an encoded tag yields that tag in normal form and decodes the rest independently |
| `Encoder.CopiedNoMarker` | encoder.go:5-37 | a character the encoder copies never starts a marker in its output, so the decoder copies it back |
| `Encoder.DecodeEncode` | encoder.go:5-37 | for every text, HTML included, decoding the encoding gives the text with every tag in normal form (content tags become the sentinel) |
| `Encoder.NormalFixed` | encoder.go:13-19 | text whose tags are already in normal form is its own normal form |
| `Encoder.RoundTrip` | encoder.go:5-37 | decoding the encoding gives back every input whose tags are in normal form |
| `Encoder.ContentNotRestored` | encoder.go:9-11 | a content tag does not come back: it decodes to the sentinel |
| `Encoder.PrefixLost` | encoder.go:13-19 | as written, `{{p n}}` comes back as `{{n}}`, which differs from the input |
| `Encoder.PrefixKept` | encoder.go:13-19 | with `else if`, `{{p n}}` comes back unchanged |
| `TemplateCompiler.EvalEncapsulates` | template.go:107-122 | the encapsulated form is the plain form inside `${…}` |
| `TemplateCompiler.EvalOfTagName` | template.go:107-122 | a matched tag name never starts with `$`; it evaluates to `$$` for `.` and to `$$.name` otherwise |
| `TemplateCompiler.EscapeHead` | template.go:41 | escaping yields the empty text exactly for the empty text, and never starts with a backtick |
| `TemplateCompiler.UnescapeEscape` | template.go:41 | escaping backticks is undone by the reference inverse |
| `TemplateCompiler.EscapedBackticks` | template.go:41 | every backtick of the escaped text is preceded by a backslash |
| `TemplateCompiler.EscapeIdentity` | template.go:41 | text without backticks is left unchanged by escaping |
| `TemplateCompiler.Step` | template.go:79-105 | one tag panics iff it is `/` on an empty stack; otherwise `#`/`^` push a frame and output its start, `/` pops and outputs the end, and other tags leave the stack and output the interpolation |
| `TemplateCompiler.RunBeforeFirstTag` | template.go:47-56 | text before the first tag is copied to the output unchanged |
| `TemplateCompiler.RunFollowsTags` | template.go:47-56 | the compiler panics iff the stack run over the tag sequence underflows; otherwise the final stack is that run's |
| `TemplateCompiler.TagRunDepth` | template.go:95-105 | the final stack depth is the initial depth plus opens minus closes |
| `TemplateCompiler.PanicIffUnderflow` | template.go:100-101 | the run panics exactly when some prefix of the tags closes more blocks than are open at a `/` |
| `TemplateCompiler.Balanced` | template.go:95-105 | a tag sequence that never underflows and nets zero ends with an empty stack |
| `TemplateCompiler.TagTextNoBacktick` | template.go:19 | tag text contains no backtick, so escaping leaves tags intact |
| `TemplateCompiler.CloseFirstPanics` | template.go:87-101 | a template that starts with the tag `{{/v}}` panics, whatever follows it |
| `TemplateCompiler.OpenLeftUnclosed` | template.go:47-98 | `{{#v}}` with no close compiles without error and leaves one open frame |
| `TemplateCompiler.Template.constructor` | template.go:25 | a fresh template has empty content and no open frames |
| `TemplateCompiler.Template.PutFunc` | template.go:95-98 | pushes the frame and points `i` at it |
| `TemplateCompiler.Template.EndFunc` | template.go:100-105 | returns the end fragment, pops the top frame and points `i` at the new top |
| `TemplateCompiler.Template.Replace` | template.go:79-93 | the output and the new frame stack are exactly one `Step`, and a panic is exactly `Step`'s panic |
| `TemplateCompiler.Template.Compile` | template.go:37-77 | a panic iff `Run` panics on the escaped input; otherwise the content and the frames are `Run`'s |
| `TemplateCompiler.ConvertMustache` | template.go:24-28 | the compiled text of a fresh template inside backticks; a panic iff `Run` from an empty stack panics |
| `Components.UnwrapWrap` | component.go:38 | the element wrapper is undone by its reference inverse |
| `Components.PartialBodyKeeps` | component.go:34-42 | the partial is the raw template (Render and OmitTags), the template inside `<name>…</name>` (Render only), or the empty element whatever the template (no Render) |
| `Components.PartialRegistry.RegisterPartial` | component.go:36-41 | the registry maps the name to the new source, and nothing else changes |
| `Components.Build` | component.go:15-52 | building succeeds iff both files are readable and the template parses, and a built component carries its import |
| `Components.NewComponent` | component.go:15-52 | a failed template read, then a failed script read, register nothing; after both reads exactly the partial of the import is registered, even when parsing then fails with the prefixed message |
| `Flatten.NewPathSlash` | pages.go:123-126 | the concrete path is non-empty; it keeps a trailing slash exactly when the route path has one (and is longer than one) or the join is the root; it stays rooted |
| `Flatten.WalkIsApply` | pages.go:117-142 | a walk appends the contributions of its visits, in pre-order, and advances the counter by their number |
| `Flatten.WalkChildrenIsApply` | pages.go:135-140 | the same for the children loop |
| `Flatten.WalkRoutesIsApply` | pages.go:177-180 | the same for the loop over the top-level routes |
| `Flatten.WalkOnlyAppends` | pages.go:128-133 | a walk only appends: each bucket ends with its old entries followed by the contributions at that path |
| `Flatten.VisitIds` | pages.go:118-121 | the visits of a subtree have consecutive ids starting after the counter |
| `Flatten.ChildVisitIds` | pages.go:135-140 | the same for the children loop |
| `Flatten.RouteVisitIds` | pages.go:177-180 | the same for the top-level routes |
| `Flatten.VisitChains` | pages.go:128-140 | every visited route's ancestors form a chain of parent-child links with increasing ids, extending its caller's ancestors |
| `Flatten.ChildVisitChains` | pages.go:135-140 | the same for the children loop |
| `Flatten.RouteVisitChains` | pages.go:177-180 | the same for the top-level routes, from no ancestors |
| `Flatten.LeafIffOwn` | pages.go:128-133 | a route contributes itself to its bucket iff it is a leaf (ancestors are never the route itself) |
| `Flatten.ApplyBucket` | pages.go:128-133 | a bucket after a list of visits is its old content plus the contributions at that path, in order |
| `Flatten.ApplyKeys` | pages.go:128 | a path has a bucket iff it had one or some visit is at it |
| `Flatten.Flattening` | pages.go:144-180 | from no buckets and counter -1: ids are 0, 1, 2, … in visit order and distinct, the counter ends at the number of routes minus one, the buckets are exactly the visited paths, and each holds the contributions at its path |
| `Render.FirstsDistinct` | pages.go:404-407 | the routes the loop handles have distinct ids, none of them already done |
| `Render.FirstsEntry` | pages.go:404-407 | each handled route is the first occurrence of its id |
| `Render.FirstsAreFirst` | pages.go:404-407 | all handled routes are first occurrences |
| `Render.FirstsCover` | pages.go:404-407 | every id of the bucket that was not done before is handled |
| `Render.LoopIsFlat` | pages.go:399-437 | the loop with its `done` set equals the walk over the first occurrence of each id |
| `Render.FirstStop` | pages.go:414-434 | the index of the first route that redirects or names a missing component; none stops before it |
| `Render.FlatOutcome` | pages.go:390-440 | redirect, error, cache, page, requests and body are fixed by the first stopping route (see its doc comment) |
| `Render.RegisteredSource` | pages.go:391 | registering outlets never changes the layout's source |
| `Render.RegisteredUntouched` | pages.go:429-431 | an outlet no handled route writes keeps the layout's partial, or stays absent |
| `Render.RegisteredLast` | pages.go:429-431 | an outlet holds `{{> name}}` of the component of its last writer |
| `Render.RegisteredNamed` | pages.go:429-431 | with components keyed by their own names, that partial is `{{> c}}` for the route's component c |
| `Render.RenderOutcome` | pages.go:390-440 | RenderRoute in closed form over the deduplicated bucket: redirect, presence of an error, cache, and the layout's source |
| `Render.LayoutName` | pages.go:196-202 | the layout is the first route's layout when there is a first route and its layout is non-empty, and the default `index` otherwise |
| `Render.HandleOutcome` | pages.go:196-207 | a crash iff the layout is not a component; a failure iff the first stopping route names a missing component, with its message; a served path renders on the layout with no error |
| `Pages.KeyLengths` | pages.go:70-75 | the key is accepted iff its length is a positive multiple of 8 |
| `Pages.AbsPathShape` | pages.go:94-104 | under an absolute base, a non-empty path is made absolute, an absolute or empty path is kept, and absolutising is idempotent |
| `Pages.AbsolutizeTwice` | pages.go:93-104 | under an absolute base, absolutising an import is idempotent, keeps its name, makes a non-empty template path absolute and keeps emptiness |
| `Pages.LoadTurn` | pages.go:93-111 | a turn that does not stop the loop rewrites import k and, when it has a template, stores its component under its name; otherwise the components stay |
| `Pages.LoadHalt` | pages.go:105-108 | the turn whose component fails stops the loop with that failure and the components gathered so far |
| `Pages.LoadImportsShape` | pages.go:93-112 | the loop keeps the number of imports and leaves those before k alone |
| `Pages.LoadNamed` | pages.go:110 | every component is stored under its own import name |
| `Pages.LoadKeeps` | pages.go:93-112 | components under names no later import registers are kept |
| `Pages.LoadLastWins` | pages.go:106-110 | on success, a name holds the component of the last import with a template that uses the name |
| `Pages.LoadFailure` | pages.go:105-109 | the loop fails iff some import with a template fails to build, and the failure it reports is a read or parse failure |
| `Pages.LoadFirstFailure` | pages.go:93-109 | the failure the loop returns is the build failure of the first import that has a template and fails to build |
| `Pages.Pages.constructor` | pages.go:64-68 | an empty instance: no components, no imports, no routes |
| `Pages.Pages.Iter` | pages.go:117-142 | the buckets and counter after the recursion are those of `Walk`, and the other fields are unchanged |
| `Pages.Pages.RenderRoute` | pages.go:390-440 | the result is `Loop` over the bucket from the cloned layout |
| `Pages.Pages.HandleRoute` | pages.go:195-207 | the outcome is `Handle` on the bucket |
| `Pages.Pages.BuildRouter` | pages.go:144-190 | the buckets and counter are the `Walk` of all routes from -1; components, routes, imports and base are unchanged; success iff every bucket is served, with the handlers as rendered; a failure or crash comes from some bucket |
| `Pages.Pages.ResolveBuckets` | pages.go:182-189 | success iff every bucket is served, with exactly the buckets' paths as handler keys and the handlers as rendered; a failure or crash comes from some bucket |
| `Pages.Pages.RegisterImports` | pages.go:93-112 | imports, components, registry and failure are those of `LoadImports`, and nothing else changes |
| `Pages.New` | pages.go:63-115 | a bad key fails before anything else; a manifest failure stops next; on both of these error paths the instance has no components, imports or routes and the registry is unchanged; otherwise the base is the manifest's directory, routes come from the manifest, and imports, components, partials and the error are those of `LoadImports` |

## Left out

- HTTP serving: the mux router, the handler closures, `withMiddleware`, the
  requests, the page-variable substitution (`$name`) and the response
  writing. A served path is modelled as its `Rendered` value.
- The template library (the fork github.com/ales6164/raymond) is not part
  of this model. `Parse` is a function parameter. A parsed template is its
  source plus a partial map. `Clone` and `RegisterPartial` are modelled as
  values, and partial resolution at render time is left out.
- Registering a partial under a name that already has one replaces it, in
  this model. That holds both on a template (pages.go:431) and in the global
  registry (component.go:36-41). The fork's own behaviour is not visible here.
  Upstream raymond panics on a duplicate partial name. Under that behaviour,
  two routes of one bucket sharing an outlet (the default outlet of
  pages.go:423 included), or two imports with the same name, would panic.
  `Manifest.Tpl.RegisterPartial`, `Components.PartialRegistry.RegisterPartial`,
  `Render.RegisteredLast` and `Pages.LoadLastWins` rest on this assumption.
- The `stringify`, `trans`, `append` and `i18n` helpers in `BuildRouter`:
  they only register helpers with the library.
- util.go (`readAndUnmarshal`, `getHost`), template_functions.go,
  manifest.go and context.go are not part of this model.
- `replaceAllGroupFunc` and `reDecode` are used by template.go and
  encoder.go, but none of the repository files at hand declares them:
  - `replaceAllGroupFunc` is taken to be the usual left-to-right,
    non-overlapping replacement;
  - `reDecode` is taken to be `<!--stache:` followed by the `reTemplate`
    pattern and `-->`.
- Reading, unmarshalling and parsing the manifest are one `Result`
  parameter of `New`. An error becomes `ManifestFailed`.
- File reads are lookups in a map. A failed read reports its path instead of
  the OS error text.
- The session store itself (`sessions.NewCookieStore`): only the key check is
  modelled.
- `New` returns the partly filled instance on error. On the bad-key and
  manifest-failure paths the model states only that the instance has no
  components, imports or routes and that the registry is unchanged. A manifest
  that fails to decode is an `Err` value here, so fields that `json.Unmarshal`
  may fill before it reports a type error, and the manifest left behind when
  only the resources fail to decode, are not modelled. The model keeps no
  separate "returned anyway" pointer. Likewise, the half-built component that `NewComponent` returns
  beside an error is left out; only the error is modelled.
- `route.parents` is left out. The Go code writes it with a slice that later
  siblings may alias, but never reads it. The buckets copy the ancestor
  pointers when they append, so value semantics are faithful for them.
- Go map iteration order in `BuildRouter`'s handler loop is a
  nondeterministic choice. Which failing bucket is reported is therefore not
  determined.
- `Pages.Pages.BuildRouter`: has an extra `handle` out-parameter, the
  buckets, so its contract can talk about them.
- `Pages.Pages.RegisterImports`: the import loop of `New` is split out as its
  own method, over the same fields.
- The top-level manifest.go has no `Imports` field; the one in
  v2/manifest.go:10 holds pointers (`[]*Import`). The loop rewrites the paths
  through its loop variable, so the model writes the absolute paths back into
  `imports`, as those pointers would.
- Debug output. `dbgCtx` and `DebugConvertMustache` only write to a debug
  buffer, and `predefinedFuncCalls` is never used.
- A nil layout component in `handleRoute` (a nil dereference in Go) is the
  `Crash` outcome. A `/` tag on an empty stack (an index out of range) is the
  `Panic` result. Neither is a Go error value.
- `TemplateCompiler.EvalOfTagName`: the `$` branches of `evalMatchedVar` are
  modelled, but they cannot be reached from `Compile`, because names never
  contain `$`.

Where the design description and the code disagree, the model follows the
code:

- **Encoder round trip.** The decoder does not restore a tag's prefix
  (see Findings). A content tag comes back as the sentinel, not as the tag.
- **Mismatched close.** A close on an empty stack is a run-time panic, not a
  compile error.
- **Unclosed blocks.** An unclosed block is not an error: compilation
  succeeds with frames left open (`OpenLeftUnclosed`). A close does not check
  that its name matches the open block.
- **Outlets.** `RenderRoute` does not search for outlets, does not assemble
  templates recursively, and does not check self-containment. It only
  registers `{{> component}}` under the outlet name on the layout's clone,
  with no "outlet not found" error.
- **Duplicate routes in a bucket.** A bucket can hold the same ancestor more
  than once: once for every visit at that path. Deduplication by id happens
  in `RenderRoute` (`FirstsDistinct`), not in the flattener.
- **Session key.** The key check accepts any positive multiple of 8 bytes,
  such as 8 or 40. The options comment asks for 16, 24 or 32.
- **Failing bucket.** The first failing bucket aborts `BuildRouter`. That
  bucket is found in map order.

## Findings

| source | as written | input that shows it | evidently intended | confidence | as-written member | corrected member |
|---|---|---|---|---|---|---|
| encoder.go:13-19 (and the decoder at encoder.go:29-35) | the second `if len(val) > 0` always overwrites the prefixed form, so every tag is encoded and decoded without its prefix `#`, `/`, `^`, `>` or `!` | `{{# a}}` encodes to `<!--stache:{{a}}-->` and decodes to `{{a}}` | `else if`, keeping `{{# a}}`, so that decoding undoes encoding | not executed | `Encoder.PrefixLost` | `Encoder.PrefixKept` |

The corrected rule is the `KeepPrefix` value of `Encoder.StacheRule`. Under
it, `Encoder.RoundTrip` gives back every text whose tags are in normal form,
prefixed tags included.
