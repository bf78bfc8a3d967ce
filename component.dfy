/**
 * Building a component from an import: read the template file (and the
 * companion script, whose bytes are not kept), register the partial body
 * under the component's name in the template library's global partial
 * registry, then parse the template.
 *
 * Files are a map from path to contents (a path that is absent cannot be
 * read); the template library's parser is a function parameter.
 */
module Components {
  import opened Wrappers
  import opened Manifest

  /** `<name>` + inner + `</name>`. */
  function Wrap(name: string, inner: string): string
  {
    "<" + name + ">" + inner + "</" + name + ">"
  }

  /** Reference inverse of Wrap: the inner text of a `<name>…</name>` element. */
  function Unwrap(name: string, s: string): Option<string>
  {
    var open, close := "<" + name + ">", "</" + name + ">";
    if |s| >= |open| + |close| && s[..|open|] == open && s[|s| - |close|..] == close then
      Some(s[|open|..|s| - |close|])
    else None
  }

  lemma UnwrapWrap(name: string, inner: string)
    ensures Unwrap(name, Wrap(name, inner)) == Some(inner)
  {
    var open, close := "<" + name + ">", "</" + name + ">";
    var s := Wrap(name, inner);
    assert s == open + inner + close;
    assert s[..|open|] == open;
    assert s[|s| - |close|..] == close;
    assert s[|open|..|s| - |close|] == inner;
  }

  /** The partial a component registers, chosen by the Render and OmitTags flags. */
  function PartialBody(imp: Import, raw: string): string
  {
    if imp.render then
      if imp.omitTags then raw else Wrap(imp.name, raw)
    else Wrap(imp.name, "")
  }

  /**
   * What the partial keeps of the template: all of it when rendered (bare
   * or inside `<name>…</name>`), none of it otherwise, where it is the
   * empty element `<name></name>` whatever the template says.
   */
  lemma PartialBodyKeeps(imp: Import, raw: string)
    ensures imp.render && imp.omitTags ==> PartialBody(imp, raw) == raw
    ensures imp.render && !imp.omitTags ==> Unwrap(imp.name, PartialBody(imp, raw)) == Some(raw)
    ensures !imp.render ==> Unwrap(imp.name, PartialBody(imp, raw)) == Some("")
    ensures !imp.render ==> forall other :: PartialBody(imp, other) == PartialBody(imp, raw)
  {
    UnwrapWrap(imp.name, raw);
    UnwrapWrap(imp.name, "");
  }

  /** The template library's global registry of partials (name to source). */
  class PartialRegistry {
    var partials: map<string, string>

    constructor()
      ensures partials == map[]
    {
      partials := map[];
    }

    method RegisterPartial(name: string, src: string)
      modifies this
      ensures partials == old(partials)[name := src]
    {
      partials := partials[name := src];
    }
  }

  /** How NewComponent ends. */
  datatype Built =
    | Built(component: Component)
    | ReadFailed(path: string)
    | ParseFailed(message: string)

  /** The message of a parse failure. */
  function ParseError(templatePath: string, message: string): string
  {
    "error parsing file: " + templatePath + "; " + message
  }

  /** Both files of an import can be read (the script only when one is named). */
  predicate Readable(imp: Import, files: map<string, string>)
  {
    imp.templatePath in files && (|imp.componentPath| == 0 || imp.componentPath in files)
  }

  /** What NewComponent returns, as a value. */
  function Build(imp: Import, files: map<string, string>, parse: string -> Result<Tpl>): (b: Built)
    ensures b.Built? <==> Readable(imp, files) && parse(files[imp.templatePath]).Ok?
    ensures b.Built? ==> b.component.imp == imp
  {
    if imp.templatePath !in files then ReadFailed(imp.templatePath)
    else if |imp.componentPath| > 0 && imp.componentPath !in files then ReadFailed(imp.componentPath)
    else
      var parsed := parse(files[imp.templatePath]);
      if parsed.Err? then ParseFailed(ParseError(imp.templatePath, parsed.error))
      else Built(Component(imp, parsed.value))
  }

  /** The registry after NewComponent: one partial more once both files are read. */
  function Registration(imp: Import, files: map<string, string>, partials: map<string, string>): map<string, string>
  {
    if Readable(imp, files) then partials[imp.name := PartialBody(imp, files[imp.templatePath])]
    else partials
  }

  /**
   * NewComponent. A read failure returns before anything is registered
   * (template file first, then the companion script when one is named); after
   * both reads succeed exactly one partial is registered, under the
   * component's name, and stays registered even when parsing then fails.
   */
  method NewComponent(imp: Import, files: map<string, string>, parse: string -> Result<Tpl>,
                      registry: PartialRegistry) returns (r: Built)
    modifies registry
    ensures imp.templatePath !in files ==>
      r == ReadFailed(imp.templatePath) && registry.partials == old(registry.partials)
    ensures imp.templatePath in files && |imp.componentPath| > 0 && imp.componentPath !in files ==>
      r == ReadFailed(imp.componentPath) && registry.partials == old(registry.partials)
    ensures imp.templatePath in files && (|imp.componentPath| == 0 || imp.componentPath in files) ==>
      var raw := files[imp.templatePath];
      registry.partials == old(registry.partials)[imp.name := PartialBody(imp, raw)]
      && (parse(raw).Ok? ==> r == Built(Component(imp, parse(raw).value)))
      && (parse(raw).Err? ==> r == ParseFailed(ParseError(imp.templatePath, parse(raw).error)))
    ensures r == Build(imp, files, parse)
    ensures registry.partials == Registration(imp, files, old(registry.partials))
  {
    if imp.templatePath !in files {
      return ReadFailed(imp.templatePath);
    }
    var raw := files[imp.templatePath];
    if |imp.componentPath| > 0 {
      if imp.componentPath !in files {
        return ReadFailed(imp.componentPath);
      }
    }
    if imp.render {
      if imp.omitTags {
        registry.RegisterPartial(imp.name, raw);
      } else {
        registry.RegisterPartial(imp.name, "<" + imp.name + ">" + raw + "</" + imp.name + ">");
      }
    } else {
      registry.RegisterPartial(imp.name, "<" + imp.name + "></" + imp.name + ">");
      assert Wrap(imp.name, "") == "<" + imp.name + "></" + imp.name + ">";
    }
    var parsed := parse(raw);
    if parsed.Err? {
      return ParseFailed(ParseError(imp.templatePath, parsed.error));
    }
    r := Built(Component(imp, parsed.value));
  }
}
