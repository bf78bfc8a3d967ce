/**
 * The lexical path operations of Go's standard `path` package that the
 * router relies on: `Clean`, `Join` and `Dir` (with `filepath` on a
 * Unix host, where it behaves the same). Paths are split at '/', empty and
 * "." elements are dropped, ".." removes the element before it, and a
 * rooted path can never climb above "/".
 */
module GoPath {

  /** strings.Split(s, "/"): the '/'-separated elements of `s`. */
  function Split(s: string): (r: seq<string>)
    ensures |r| >= 1
  {
    if s == [] then [""]
    else
      var rest := Split(s[1..]);
      if s[0] == '/' then [""] + rest else [[s[0]] + rest[0]] + rest[1..]
  }

  /** The elements joined back with '/' between them. */
  function JoinElems(elems: seq<string>): string
  {
    if |elems| == 0 then ""
    else if |elems| == 1 then elems[0]
    else elems[0] + "/" + JoinElems(elems[1..])
  }

  /** An element Clean may keep: not empty, not ".", free of '/'. */
  predicate Kept(e: string)
  {
    e != "" && e != "." && '/' !in e
  }

  /**
   * The element stack Clean builds from `elems`: "" and "." are dropped,
   * ".." pops a kept name, is dropped at the root of a rooted path and is
   * kept otherwise.
   */
  function Resolve(elems: seq<string>, out: seq<string>, rooted: bool): seq<string>
  {
    if elems == [] then out
    else
      var e := elems[0];
      if e == "" || e == "." then Resolve(elems[1..], out, rooted)
      else if e == ".." then
        if |out| > 0 && out[|out| - 1] != ".." then Resolve(elems[1..], out[..|out| - 1], rooted)
        else if rooted then Resolve(elems[1..], out, rooted)
        else Resolve(elems[1..], out + [e], rooted)
      else Resolve(elems[1..], out + [e], rooted)
  }

  predicate Rooted(p: string)
  {
    |p| > 0 && p[0] == '/'
  }

  /** path.Clean: the shortest lexically equivalent path. */
  function Clean(p: string): (r: string)
  {
    if p == "" then "."
    else
      var out := Resolve(Split(p), [], Rooted(p));
      if Rooted(p) then "/" + JoinElems(out)
      else if out == [] then "."
      else JoinElems(out)
  }

  /** path.Join(a, b): the non-empty arguments joined by '/', then cleaned. */
  function Join(a: string, b: string): string
  {
    if a == "" && b == "" then ""
    else if a == "" then Clean(b)
    else Clean(a + "/" + b)
  }

  /** filepath.IsAbs on a Unix host. */
  predicate IsAbs(p: string)
  {
    Rooted(p)
  }

  /** filepath.Dir: everything up to the last '/', cleaned ("." when there is none). */
  function Dir(p: string): string
  {
    Clean(p[..LastSlash(p)])
  }

  /** One past the index of the last '/' in `p`, or 0 when there is none. */
  function LastSlash(p: string): (k: nat)
    ensures k <= |p|
    ensures k > 0 ==> p[k - 1] == '/'
    ensures forall i :: k <= i < |p| ==> p[i] != '/'
  {
    if p == [] then 0
    else if p[|p| - 1] == '/' then |p|
    else LastSlash(p[..|p| - 1])
  }

  /** No element of a split contains '/'. */
  lemma {:induction false} SplitElems(s: string)
    ensures forall i :: 0 <= i < |Split(s)| ==> '/' !in Split(s)[i]
  {
    if s != [] {
      SplitElems(s[1..]);
      var rest := Split(s[1..]);
      if s[0] != '/' {
        assert '/' !in [s[0]] + rest[0];
        assert forall i :: 1 <= i < |Split(s)| ==> Split(s)[i] == rest[i];
      } else {
        assert forall i :: 1 <= i < |Split(s)| ==> Split(s)[i] == rest[i - 1];
      }
    }
  }

  /**
   * Clean keeps only real names: every element of the stack is kept, and a
   * rooted path never keeps "..".
   */
  lemma {:induction false} ResolveKept(elems: seq<string>, out: seq<string>, rooted: bool)
    requires forall i :: 0 <= i < |elems| ==> '/' !in elems[i]
    requires forall i :: 0 <= i < |out| ==> Kept(out[i])
    ensures forall i :: 0 <= i < |Resolve(elems, out, rooted)| ==> Kept(Resolve(elems, out, rooted)[i])
    ensures rooted && (forall i :: 0 <= i < |out| ==> out[i] != "..") ==>
              forall i :: 0 <= i < |Resolve(elems, out, rooted)| ==> Resolve(elems, out, rooted)[i] != ".."
    decreases |elems|
  {
    if elems != [] {
      var e := elems[0];
      assert forall i :: 0 <= i < |elems[1..]| ==> '/' !in elems[1..][i] by {
        forall i | 0 <= i < |elems[1..]| ensures '/' !in elems[1..][i] {
          assert elems[1..][i] == elems[i + 1];
        }
      }
      if e == "" || e == "." {
        ResolveKept(elems[1..], out, rooted);
      } else if e == ".." {
        if |out| > 0 && out[|out| - 1] != ".." {
          ResolveKept(elems[1..], out[..|out| - 1], rooted);
        } else if rooted {
          ResolveKept(elems[1..], out, rooted);
        } else {
          ResolveKept(elems[1..], out + [e], rooted);
        }
      } else {
        assert '/' !in e;
        ResolveKept(elems[1..], out + [e], rooted);
      }
    }
  }

  lemma {:induction false} JoinElemsShape(elems: seq<string>)
    requires |elems| > 0
    requires forall i :: 0 <= i < |elems| ==> Kept(elems[i])
    ensures |JoinElems(elems)| > 0
    ensures JoinElems(elems)[0] != '/'
    ensures JoinElems(elems)[|JoinElems(elems)| - 1] != '/'
  {
    if |elems| > 1 {
      JoinElemsShape(elems[1..]);
      var r := JoinElems(elems[1..]);
      assert JoinElems(elems) == elems[0] + "/" + r;
      assert JoinElems(elems)[|JoinElems(elems)| - 1] == r[|r| - 1];
      assert JoinElems(elems)[0] == elems[0][0];
    } else {
      assert elems[0][|elems[0]| - 1] in elems[0];
    }
    assert elems[0][0] in elems[0];
  }

  /**
   * A cleaned path is never empty, and it ends in '/' only when it is the
   * root itself; a cleaned rooted path stays rooted.
   */
  lemma CleanShape(p: string)
    ensures Clean(p) != ""
    ensures Clean(p) == "/" || Clean(p)[|Clean(p)| - 1] != '/'
    ensures Rooted(p) <==> Rooted(Clean(p))
  {
    if p != "" {
      SplitElems(p);
      ResolveKept(Split(p), [], Rooted(p));
      var out := Resolve(Split(p), [], Rooted(p));
      if out != [] {
        JoinElemsShape(out);
      }
    }
  }

  /** Join never yields a trailing '/' except for the root, and joining onto a rooted base stays rooted. */
  lemma JoinShape(a: string, b: string)
    ensures a != "" || b != "" ==> Join(a, b) != ""
    ensures Join(a, b) == "" || Join(a, b) == "/" || Join(a, b)[|Join(a, b)| - 1] != '/'
    ensures Rooted(a) ==> Rooted(Join(a, b))
  {
    if a == "" && b == "" {
    } else if a == "" {
      CleanShape(b);
    } else {
      CleanShape(a + "/" + b);
    }
  }
}
