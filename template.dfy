/**
 * The tag-to-JS-template-literal compiler. Compile escapes every backtick,
 * then replaces each reTemplate match, left to right, by the text `replace`
 * returns for it. `#name` and `^name` push a `funcWith` frame (forward or
 * reversed) and emit its start fragment; `/name` pops the top frame and
 * emits the end fragment; every other tag emits an interpolation.
 *
 * The pure part (evalMatchedVar, the frame fragments, the escaping and the
 * effect of one tag) is written as functions; the `Template` object whose
 * fields `content`, `i` and `opened` (here `openFrames`, as `opened` is a Dafny
 * keyword) the Go methods update is a class, and
 * its methods are proved against the function `Run`.
 */
module TemplateCompiler {
  import opened Wrappers
  import opened Mustache

  // ---------------------------------------------------------------------------
  // evalMatchedVar

  predicate HasDollar(v: string)
  {
    |v| > 0 && v[0] == '$'
  }

  /**
   * The JS expression for a tag name: a name starting with '$' is already an
   * expression, "." is the current item `$$`, anything else is a field of it.
   * With `encapsulate`, the expression becomes an interpolation `${...}`.
   */
  function EvalMatchedVar(v: string, encapsulate: bool): string
  {
    if encapsulate then
      if HasDollar(v) then "${" + v + "}"
      else if v == "." then "${$$}"
      else "${$$." + v + "}"
    else
      if HasDollar(v) then v
      else if v == "." then "$$"
      else "$$." + v
  }

  /** An encapsulated name is the interpolation of the plain one. */
  lemma EvalEncapsulates(v: string)
    ensures EvalMatchedVar(v, true) == "${" + EvalMatchedVar(v, false) + "}"
  {
  }

  /**
   * A name taken from a tag never starts with '$' (reTemplate names are
   * letters, '-', '.', '_'), so it is always resolved against `$$`.
   */
  lemma EvalOfTagName(v: string)
    requires IsName(v)
    ensures !HasDollar(v)
    ensures EvalMatchedVar(v, false) == (if v == "." then "$$" else "$$." + v)
  {
    assert IsNameChar(v[0]);
  }

  // ---------------------------------------------------------------------------
  // funcWith frames

  datatype FuncWith = FuncWith(matchedVar: string, reversed: bool)

  /** The start fragment: open an `arr` (or `rearr`) map over the frame's expression. */
  function Start(f: FuncWith): string
  {
    (if f.reversed then "${rearr`${" else "${arr`${")
      + f.matchedVar + "}`.map(($$, _i)=>{html`"
  }

  /** The end fragment closes the template literal and the map, whatever the frame. */
  const EndFragment: string := "`})}"

  function End(f: FuncWith): string
  {
    EndFragment
  }

  // ---------------------------------------------------------------------------
  // Escaping backticks

  function Escape(s: string): string
    decreases |s|
  {
    if s == [] then []
    else (if s[0] == '`' then "\\`" else [s[0]]) + Escape(s[1..])
  }

  /** Reference inverse of Escape: every "\`" back to "`". */
  function Unescape(s: string): string
    decreases |s|
  {
    if s == [] then []
    else if |s| >= 2 && s[0] == '\\' && s[1] == '`' then "`" + Unescape(s[2..])
    else [s[0]] + Unescape(s[1..])
  }

  lemma {:induction false} EscapeHead(s: string)
    ensures Escape(s) == [] <==> s == []
    ensures s != [] ==> Escape(s)[0] != '`'
  {
  }

  /** Escaping loses nothing: Unescape undoes it. */
  lemma {:induction false} UnescapeEscape(s: string)
    ensures Unescape(Escape(s)) == s
    decreases |s|
  {
    if s != [] {
      var e := Escape(s[1..]);
      UnescapeEscape(s[1..]);
      if s[0] == '`' {
        assert Escape(s) == "\\`" + e;
        assert ("\\`" + e)[2..] == e;
        assert Unescape(Escape(s)) == "`" + Unescape(e);
      } else {
        assert Escape(s) == [s[0]] + e;
        EscapeHead(s[1..]);
        assert ([s[0]] + e)[1..] == e;
        assert Unescape(Escape(s)) == [s[0]] + Unescape(e);
      }
      assert s == [s[0]] + s[1..];
    }
  }

  /** After escaping, every backtick is preceded by a backslash. */
  lemma {:induction false} EscapedBackticks(s: string)
    ensures forall k :: 0 <= k < |Escape(s)| && Escape(s)[k] == '`' ==>
      k > 0 && Escape(s)[k - 1] == '\\'
    decreases |s|
  {
    if s != [] {
      var e := Escape(s[1..]);
      EscapedBackticks(s[1..]);
      EscapeHead(s[1..]);
      var h := if s[0] == '`' then "\\`" else [s[0]];
      assert Escape(s) == h + e;
      forall k | 0 <= k < |h + e| && (h + e)[k] == '`'
        ensures k > 0 && (h + e)[k - 1] == '\\'
      {
        if k >= |h| {
          assert (h + e)[k] == e[k - |h|];
          if k > |h| {
            assert (h + e)[k - 1] == e[k - 1 - |h|];
          }
        }
      }
    }
  }

  // ---------------------------------------------------------------------------
  // The effect of one tag

  /** How a tag changes the stack depth. */
  function Delta(tag: string): int
  {
    if tag == "#" || tag == "^" then 1 else if tag == "/" then -1 else 0
  }

  datatype StepResult = Stepped(out: string, stack: seq<FuncWith>) | StepPanic

  /** What `replace` does with a tag, on a stack of open frames. */
  function Step(st: seq<FuncWith>, tag: string, v: string): (r: StepResult)
    ensures r.StepPanic? <==> tag == "/" && st == []
    ensures r.Stepped? ==> |r.stack| == |st| + Delta(tag)
    ensures r.Stepped? && Delta(tag) == 1 ==>
      r.stack[..|st|] == st
      && r.stack[|st|] == FuncWith(EvalMatchedVar(v, false), tag == "^")
      && r.out == Start(r.stack[|st|])
    ensures r.Stepped? && tag == "/" ==> r.stack == st[..|st| - 1] && r.out == EndFragment
    ensures r.Stepped? && Delta(tag) == 0 ==> r.stack == st && r.out == EvalMatchedVar(v, true)
  {
    if tag == "#" || tag == "^" then
      var f := FuncWith(EvalMatchedVar(v, false), tag == "^");
      Stepped(Start(f), st + [f])
    else if tag == "/" then
      if st == [] then StepPanic else Stepped(End(st[|st| - 1]), st[..|st| - 1])
    else
      Stepped(EvalMatchedVar(v, true), st)
  }

  // ---------------------------------------------------------------------------
  // A whole compile

  /** Compiled text and the frames still open, or a panic (a close on an empty stack). */
  datatype Outcome = Compiled(text: string, stack: seq<FuncWith>) | Panicked

  function Prepend(t: string, o: Outcome): Outcome
  {
    match o
    case Compiled(x, st) => Compiled(t + x, st)
    case Panicked => Panicked
  }

  lemma PrependNothing(o: Outcome)
    ensures Prepend([], o) == o
  {
    if o.Compiled? {
      assert [] + o.text == o.text;
    }
  }

  lemma PrependPrepend(a: string, b: string, o: Outcome)
    ensures Prepend(a, Prepend(b, o)) == Prepend(a + b, o)
  {
    if o.Compiled? {
      SeqAssoc(a, b, o.text);
    }
  }

  /** The replace-all of Compile, starting from the frames `st`. */
  function Run(st: seq<FuncWith>, s: string): Outcome
    decreases |s|
  {
    if s == [] then Compiled([], st)
    else
      match MatchTag(s)
      case Some(m) =>
        (match Step(st, m.tag, m.name)
         case StepPanic => Panicked
         case Stepped(out, st2) => Prepend(out, Run(st2, s[m.len..])))
      case None => Prepend([s[0]], Run(st, s[1..]))
  }

  lemma RunAtMatch(st: seq<FuncWith>, s: string)
    requires MatchTag(s).Some?
    ensures var m := MatchTag(s).value;
      Run(st, s) == match Step(st, m.tag, m.name)
                    case StepPanic => Panicked
                    case Stepped(out, st2) => Prepend(out, Run(st2, s[m.len..]))
  {
  }

  lemma RunStepped(st: seq<FuncWith>, s: string, m: TagMatch, out: string, st2: seq<FuncWith>)
    requires MatchTag(s) == Some(m) && Step(st, m.tag, m.name) == Stepped(out, st2)
    ensures Run(st, s) == Prepend(out, Run(st2, s[m.len..]))
  {
    RunAtMatch(st, s);
  }

  /** Run over a text that is exactly one tag. */
  lemma RunOneTag(st: seq<FuncWith>, s: string, out: string, st2: seq<FuncWith>)
    requires MatchTag(s).Some? && MatchTag(s).value.len == |s|
    requires Step(st, MatchTag(s).value.tag, MatchTag(s).value.name) == Stepped(out, st2)
    ensures Run(st, s) == Compiled(out, st2)
  {
    RunAtMatch(st, s);
    assert s[|s|..] == [];
    assert out + [] == out;
  }

  lemma RunPanics(st: seq<FuncWith>, s: string)
    requires MatchTag(s).Some?
    requires Step(st, MatchTag(s).value.tag, MatchTag(s).value.name) == StepPanic
    ensures Run(st, s) == Panicked
  {
    RunAtMatch(st, s);
  }

  lemma RunAtText(st: seq<FuncWith>, s: string)
    requires s != [] && MatchTag(s).None?
    ensures Run(st, s) == Prepend([s[0]], Run(st, s[1..]))
  {
  }

  /** Text before the first tag is copied unchanged. */
  lemma {:induction false} RunBeforeFirstTag(st: seq<FuncWith>, s: string)
    ensures Run(st, s) == Prepend(s[..FirstTag(s)], Run(st, s[FirstTag(s)..]))
    decreases |s|
  {
    if s == [] || MatchTag(s).Some? {
      PrependNothing(Run(st, s));
      assert s[..0] == [] && s[0..] == s;
    } else {
      var j := FirstTag(s[1..]);
      RunAtText(st, s);
      RunBeforeFirstTag(st, s[1..]);
      assert s[1..][j..] == s[1 + j..];
      PrependCons(s, j, Run(st, s), Run(st, s[1..]), Run(st, s[1 + j..]));
    }
  }

  /** One character, then `j` more of the tail, prepended, is the first `1 + j` characters prepended. */
  lemma PrependCons(s: string, j: nat, o: Outcome, o1: Outcome, o2: Outcome)
    requires 1 + j <= |s|
    requires o == Prepend([s[0]], o1) && o1 == Prepend(s[1..][..j], o2)
    ensures o == Prepend(s[..1 + j], o2)
  {
    PrependPrepend([s[0]], s[1..][..j], o2);
    assert s[..1 + j] == [s[0]] + s[1..][..j];
  }

  /** The frames a sequence of tags leaves open, or None when a close finds none. */
  function TagRun(st: seq<FuncWith>, ms: seq<TagMatch>): Option<seq<FuncWith>>
    decreases |ms|
  {
    if ms == [] then Some(st)
    else
      match Step(st, ms[0].tag, ms[0].name)
      case StepPanic => None
      case Stepped(_, st2) => TagRun(st2, ms[1..])
  }

  /** Opens minus closes. */
  function Net(ms: seq<TagMatch>): int
    decreases |ms|
  {
    if ms == [] then 0 else Delta(ms[0].tag) + Net(ms[1..])
  }

  /** The stack of a compile depends only on the tags found, not on the text around them. */
  lemma {:induction false} RunFollowsTags(st: seq<FuncWith>, s: string)
    ensures Run(st, s).Panicked? <==> TagRun(st, Tags(s)).None?
    ensures Run(st, s).Compiled? ==> Run(st, s).stack == TagRun(st, Tags(s)).value
    decreases |s|
  {
    if s != [] {
      if MatchTag(s).Some? {
        var m := MatchTag(s).value;
        TagsAtMatch(s);
        RunAtMatch(st, s);
        var ts := Tags(s);
        assert ts[0] == m && ts[1..] == Tags(s[m.len..]);
        match Step(st, m.tag, m.name)
        case StepPanic =>
        case Stepped(out, st2) =>
          RunFollowsTags(st2, s[m.len..]);
      } else {
        TagsAtText(s);
        RunAtText(st, s);
        RunFollowsTags(st, s[1..]);
      }
    }
  }

  /** Without a panic, the depth at the end is the depth at the start plus opens minus closes. */
  lemma {:induction false} TagRunDepth(st: seq<FuncWith>, ms: seq<TagMatch>)
    requires TagRun(st, ms).Some?
    ensures |TagRun(st, ms).value| == |st| + Net(ms)
    decreases |ms|
  {
    if ms != [] {
      var r := Step(st, ms[0].tag, ms[0].name);
      TagRunDepth(r.stack, ms[1..]);
    }
  }

  /**
   * A sequence of tags panics exactly when some close tag comes when the
   * depth reached so far is zero.
   */
  lemma {:induction false} PanicIffUnderflow(st: seq<FuncWith>, ms: seq<TagMatch>)
    ensures TagRun(st, ms).None? <==>
      exists k :: 0 <= k < |ms| && ms[k].tag == "/" && |st| + Net(ms[..k]) == 0
    decreases |ms|
  {
    if ms == [] {
    } else {
      var r := Step(st, ms[0].tag, ms[0].name);
      if r.StepPanic? {
        assert ms[..0] == [];
        assert ms[0].tag == "/" && |st| + Net(ms[..0]) == 0;
      } else {
        PanicIffUnderflow(r.stack, ms[1..]);
        UnderflowShift(|st|, ms);
      }
    }
  }

  /**
   * Past a first tag that is not an underflow, an underflow of ms is one of
   * the tail, at the depth the first tag leaves.
   */
  lemma UnderflowShift(n: int, ms: seq<TagMatch>)
    requires ms != [] && !(ms[0].tag == "/" && n == 0)
    ensures (exists k :: 0 <= k < |ms| && ms[k].tag == "/" && n + Net(ms[..k]) == 0)
        <==> (exists k :: 0 <= k < |ms[1..]| && ms[1..][k].tag == "/" && n + Delta(ms[0].tag) + Net(ms[1..][..k]) == 0)
  {
    var rest := ms[1..];
    forall k | 0 <= k < |rest|
      ensures ms[k + 1] == rest[k]
      ensures Net(ms[..k + 1]) == Delta(ms[0].tag) + Net(rest[..k])
    {
      assert ms[..k + 1][1..] == rest[..k];
    }
    if exists k :: 0 <= k < |ms| && ms[k].tag == "/" && n + Net(ms[..k]) == 0 {
      var k :| 0 <= k < |ms| && ms[k].tag == "/" && n + Net(ms[..k]) == 0;
      if k > 0 {
        assert rest[k - 1].tag == "/" && n + Delta(ms[0].tag) + Net(rest[..k - 1]) == 0;
      }
    }
    if exists k :: 0 <= k < |rest| && rest[k].tag == "/" && n + Delta(ms[0].tag) + Net(rest[..k]) == 0 {
      var k :| 0 <= k < |rest| && rest[k].tag == "/" && n + Delta(ms[0].tag) + Net(rest[..k]) == 0;
      assert ms[k + 1].tag == "/" && n + Net(ms[..k + 1]) == 0;
    }
  }

  /** Balanced tags close every frame: no panic and nothing left open. */
  lemma Balanced(ms: seq<TagMatch>)
    requires Net(ms) == 0
    requires forall k :: 0 <= k < |ms| && ms[k].tag == "/" ==> Net(ms[..k]) > 0
    ensures TagRun([], ms) == Some([])
  {
    PanicIffUnderflow([], ms);
    TagRunDepth([], ms);
  }

  // ---------------------------------------------------------------------------
  // The Template object

  datatype Result = Output(text: string) | Panic

  class Template {
    var content: string
    var i: int
    var openFrames: seq<FuncWith>

    /** `i` indexes the top frame, or is 0 on a fresh template. */
    predicate Valid()
      reads this
    {
      i == |openFrames| - 1 || (openFrames == [] && i == 0)
    }

    /** `new(Template)`: every field at its zero value. */
    constructor()
      ensures content == "" && i == 0 && openFrames == []
      ensures Valid()
    {
      content := "";
      i := 0;
      openFrames := [];
    }

    method PutFunc(f: FuncWith)
      modifies this
      ensures openFrames == old(openFrames) + [f]
      ensures i == |openFrames| - 1
      ensures content == old(content)
    {
      openFrames := openFrames + [f];
      i := |openFrames| - 1;
    }

    /** Pops the last frame; `openFrames[i]` must exist. */
    method EndFunc() returns (end: string)
      requires 0 <= i < |openFrames|
      modifies this
      ensures end == EndFragment
      ensures openFrames == old(openFrames)[..|old(openFrames)| - 1]
      ensures i == |openFrames| - 1
      ensures content == old(content)
    {
      end := End(openFrames[i]);
      openFrames := openFrames[..|openFrames| - 1];
      i := |openFrames| - 1;
    }

    /** The callback for one tag: Step on the open frames. */
    method Replace(tag: string, v: string) returns (r: Result)
      requires Valid()
      modifies this
      ensures Valid() && content == old(content)
      ensures r.Panic? ==> Step(old(openFrames), tag, v) == StepPanic
      ensures r.Output? ==> Step(old(openFrames), tag, v) == Stepped(r.text, openFrames)
    {
      if tag == "#" {
        PutFunc(FuncWith(EvalMatchedVar(v, false), false));
        r := Output(Start(openFrames[i]));
      } else if tag == "^" {
        PutFunc(FuncWith(EvalMatchedVar(v, false), true));
        r := Output(Start(openFrames[i]));
      } else if tag == "/" {
        if 0 <= i < |openFrames| {
          var e := EndFunc();
          r := Output(e);
        } else {
          r := Panic;
        }
      } else {
        r := Output(EvalMatchedVar(v, true));
      }
    }

    /** Compile: escape backticks, then replace every tag, left to right. */
    method Compile(html: string) returns (r: Result)
      requires Valid()
      modifies this
      ensures Valid()
      ensures r.Panic? <==> Run(old(openFrames), Escape(html)).Panicked?
      ensures r.Output? ==>
        r.text == content == Run(old(openFrames), Escape(html)).text
        && openFrames == Run(old(openFrames), Escape(html)).stack
    {
      content := Escape(html);
      var src := content;
      ghost var goal := Run(openFrames, src);
      var pos := 0;
      var out := "";
      assert src[0..] == src;
      PrependNothing(goal);
      while pos < |src|
        invariant 0 <= pos <= |src|
        invariant Valid()
        invariant goal == Prepend(out, Run(openFrames, src[pos..]))
        decreases |src| - pos
      {
        var rest := src[pos..];
        match MatchTag(rest)
        case Some(m) =>
          ghost var before := openFrames;
          var piece := Replace(m.tag, m.name);
          if piece.Panic? {
            RunPanics(before, rest);
            return Panic;
          }
          ghost var out0, pos0 := out, pos;
          out := out + piece.text;
          pos := pos + m.len;
          CompileAtMatch(goal, src, out0, pos0, before, m, piece.text, openFrames, out, pos);
        case None =>
          ghost var out0, pos0 := out, pos;
          out := out + [src[pos]];
          pos := pos + 1;
          CompileAtText(goal, src, out0, pos0, openFrames, out, pos);
      }
      assert out + [] == out;
      content := out;
      r := Output(out);
    }
  }

  /** Compile's loop invariant, kept past a tag. */
  lemma CompileAtMatch(goal: Outcome, src: string, out: string, pos: nat, st: seq<FuncWith>, m: TagMatch,
                       text: string, st2: seq<FuncWith>, out': string, pos': nat)
    requires pos < |src| && MatchTag(src[pos..]) == Some(m) && Step(st, m.tag, m.name) == Stepped(text, st2)
    requires goal == Prepend(out, Run(st, src[pos..]))
    requires out' == out + text && pos' == pos + m.len
    ensures pos' <= |src| && goal == Prepend(out', Run(st2, src[pos'..]))
  {
    var rest := src[pos..];
    RunStepped(st, rest, m, text, st2);
    assert rest[m.len..] == src[pos'..];
    PrependPrepend(out, text, Run(st2, src[pos'..]));
  }

  /** Compile's loop invariant, kept past a character of text. */
  lemma CompileAtText(goal: Outcome, src: string, out: string, pos: nat, st: seq<FuncWith>, out': string, pos': nat)
    requires pos < |src| && MatchTag(src[pos..]).None?
    requires goal == Prepend(out, Run(st, src[pos..]))
    requires out' == out + [src[pos]] && pos' == pos + 1
    ensures goal == Prepend(out', Run(st, src[pos'..]))
  {
    var rest := src[pos..];
    RunAtText(st, rest);
    assert rest[1..] == src[pos'..];
    PrependPrepend(out, [rest[0]], Run(st, src[pos'..]));
  }

  /** ConvertMustache: compile on a fresh template and wrap the text in backticks. */
  method ConvertMustache(html: string) returns (r: Result)
    ensures r.Panic? <==> Run([], Escape(html)).Panicked?
    ensures r.Output? ==> r.text == "`" + Run([], Escape(html)).text + "`"
  {
    var t := new Template();
    var c := t.Compile(html);
    if c.Panic? {
      return Panic;
    }
    r := Output("`" + c.text + "`");
  }

  /** Text without backticks is left alone by the escaping. */
  lemma {:induction false} EscapeIdentity(s: string)
    requires '`' !in s
    ensures Escape(s) == s
    decreases |s|
  {
    if s != [] {
      NotInSuffix(s, '`', 1);
      EscapeIdentity(s[1..]);
      assert s == [s[0]] + s[1..];
    }
  }

  /** A backtick-free head is copied by the escaping. */
  lemma {:induction false} EscapeKeepsHead(t: string, rest: string)
    requires '`' !in t
    ensures Escape(t + rest) == t + Escape(rest)
    decreases |t|
  {
    if t == [] {
      assert t + rest == rest;
    } else {
      assert (t + rest)[1..] == t[1..] + rest;
      NotInSuffix(t, '`', 1);
      EscapeKeepsHead(t[1..], rest);
      assert t == [t[0]] + t[1..];
    }
  }

  /** A tag text has no backtick. */
  lemma TagTextNoBacktick(p: string, v: string)
    requires IsName(v) && (p == "" || (|p| == 1 && IsPrefix(p[0])))
    ensures '`' !in "{{" + p + v + "}}"
  {
    var s := "{{" + p + v + "}}";
    forall k | 0 <= k < |s| ensures s[k] != '`' {
      if 2 + |p| <= k < 2 + |p| + |v| {
        assert s[k] == v[k - 2 - |p|];
        assert IsNameChar(v[k - 2 - |p|]);
      }
    }
  }

  /** A close tag on a fresh template panics, whatever follows it. */
  lemma CloseFirstPanics(v: string, rest: string)
    requires IsName(v)
    ensures Run([], Escape("{{/" + v + "}}" + rest)).Panicked?
  {
    var t := "{{" + "/" + v + "}}";
    assert "{{/" + v + "}}" == t;
    TagTextNoBacktick("/", v);
    EscapeKeepsHead(t, rest);
    var s := t + Escape(rest);
    MatchPrefixedTight("/", v, Escape(rest));
    assert Step([], "/", v) == StepPanic;
    RunPanics([], s);
  }

  /** A section left open at the end of the input is no error: the frame just stays open. */
  lemma OpenLeftUnclosed(v: string)
    requires IsName(v)
    ensures var f := FuncWith(EvalMatchedVar(v, false), false);
      Run([], Escape("{{#" + v + "}}")) == Compiled(Start(f), [f])
  {
    var t := "{{" + "#" + v + "}}";
    assert "{{#" + v + "}}" == t;
    TagTextNoBacktick("#", v);
    EscapeIdentity(t);
    MatchPrefixedTight("#", v, "");
    assert t + "" == t;
    var f := FuncWith(EvalMatchedVar(v, false), false);
    assert Step([], "#", v) == Stepped(Start(f), [f]);
    RunOneTag([], t, Start(f), [f]);
  }
}
