/**
 * The tag grammar shared by the encoder and the template compiler:
 * the regular expression reTemplate,
 *
 *   {{ \s* (> | # | / | ^ | ! | empty) \s* [a-zA-Z\-._]+ \s* }}
 *
 * written as a matcher at the start of a string, and the left-to-right,
 * non-overlapping search that a replace-all over it performs. At any start
 * position this pattern has at most one way to match (the prefix and name
 * characters are disjoint from each other and from white space), so the
 * matcher below is deterministic and agrees with the leftmost-first engine.
 */
module Mustache {
  import opened Wrappers

  /** RE2's \s: space, tab, newline, carriage return, form feed. */
  predicate IsSpace(c: char)
  {
    c == ' ' || c == '\t' || c == '\n' || c == '\r' || c == '\U{C}'
  }

  /** The tag prefixes: partial, section, close, inverted section, comment. */
  predicate IsPrefix(c: char)
  {
    c == '>' || c == '#' || c == '/' || c == '^' || c == '!'
  }

  /** Characters of a tag name: letters, '-', '.', '_' (no digits, no '$'). */
  predicate IsNameChar(c: char)
  {
    ('a' <= c <= 'z') || ('A' <= c <= 'Z') || c == '-' || c == '.' || c == '_'
  }

  predicate IsName(n: string)
  {
    |n| > 0 && forall i :: 0 <= i < |n| ==> IsNameChar(n[i])
  }

  /** Every character a match can contain. */
  predicate IsTagChar(c: char)
  {
    c == '{' || c == '}' || IsSpace(c) || IsPrefix(c) || IsNameChar(c)
  }

  /** The end of the run of white space that starts at i. */
  function SkipSpaces(s: string, i: nat): (j: nat)
    requires i <= |s|
    ensures i <= j <= |s|
    ensures j < |s| ==> !IsSpace(s[j])
    decreases |s| - i
  {
    if i < |s| && IsSpace(s[i]) then SkipSpaces(s, i + 1) else i
  }

  /** The end of the run of name characters that starts at i. */
  function SkipName(s: string, i: nat): (j: nat)
    requires i <= |s|
    ensures i <= j <= |s|
    ensures j < |s| ==> !IsNameChar(s[j])
    decreases |s| - i
  {
    if i < |s| && IsNameChar(s[i]) then SkipName(s, i + 1) else i
  }

  /** Everything SkipSpaces passes over is white space. */
  lemma {:induction false} SkipSpacesRun(s: string, i: nat)
    requires i <= |s|
    ensures forall k :: i <= k < SkipSpaces(s, i) ==> IsSpace(s[k])
    decreases |s| - i
  {
    if i < |s| && IsSpace(s[i]) {
      SkipSpacesRun(s, i + 1);
    }
  }

  /** SkipName stops at the first character after a run of name characters. */
  lemma {:induction false} SkipNameTo(s: string, i: nat, j: nat)
    requires i <= j < |s| && !IsNameChar(s[j])
    requires forall k :: i <= k < j ==> IsNameChar(s[k])
    ensures SkipName(s, i) == j
    decreases j - i
  {
    if i < j {
      SkipNameTo(s, i + 1, j);
    }
  }

  /** Everything SkipName passes over is a name character. */
  lemma {:induction false} SkipNameRun(s: string, i: nat)
    requires i <= |s|
    ensures forall k :: i <= k < SkipName(s, i) ==> IsNameChar(s[k])
    decreases |s| - i
  {
    if i < |s| && IsNameChar(s[i]) {
      SkipNameRun(s, i + 1);
    }
  }

  /** A match: the "tag" group (prefix or ""), the "var" group, and the match length. */
  datatype TagMatch = TagMatch(tag: string, name: string, len: nat)

  /** A plain `{{name}}` tag: no prefix and no white space. */
  predicate Canonical(m: TagMatch)
  {
    m.tag == "" && m.len == |m.name| + 4
  }

  /**
   * Where the parts of a would-be match end, for `s` that starts with "{{":
   * after the leading spaces (a), the prefix (b), the spaces after it (c),
   * the name (d) and the trailing spaces (e).
   */
  datatype Cuts = Cuts(a: nat, b: nat, c: nat, d: nat, e: nat)

  function CutsOf(s: string): (p: Cuts)
    requires |s| >= 2
    ensures 2 <= p.a <= p.b <= p.c <= p.d <= p.e <= |s|
    ensures p.b == p.a || (p.b == p.a + 1 && IsPrefix(s[p.a]))
  {
    var a := SkipSpaces(s, 2);
    var b := if a < |s| && IsPrefix(s[a]) then a + 1 else a;
    var c := SkipSpaces(s, b);
    var d := SkipName(s, c);
    var e := SkipSpaces(s, d);
    Cuts(a, b, c, d, e)
  }

  /** What each part of the cuts consists of. */
  lemma CutsShape(s: string)
    requires |s| >= 2
    ensures var p := CutsOf(s);
      (forall k :: 2 <= k < p.a ==> IsSpace(s[k]))
      && (forall k :: p.b <= k < p.c ==> IsSpace(s[k]))
      && (forall k :: p.c <= k < p.d ==> IsNameChar(s[k]))
      && (forall k :: p.d <= k < p.e ==> IsSpace(s[k]))
  {
    var p := CutsOf(s);
    SkipSpacesRun(s, 2);
    SkipSpacesRun(s, p.b);
    SkipNameRun(s, p.c);
    SkipSpacesRun(s, p.d);
  }

  /** "}}" stands at position e. */
  predicate ClosesAt(s: string, e: nat)
  {
    e + 2 <= |s| && s[e] == '}' && s[e + 1] == '}'
  }

  predicate Opens(s: string)
  {
    |s| >= 2 && s[0] == '{' && s[1] == '{'
  }

  /** reTemplate anchored at the start of `s`. */
  function MatchTag(s: string): (r: Option<TagMatch>)
    ensures r.Some? ==> 5 <= r.value.len <= |s| && IsName(r.value.name)
    ensures r.Some? ==> r.value.tag == "" || (|r.value.tag| == 1 && IsPrefix(r.value.tag[0]))
    ensures r.Some? ==> s[0] == '{'
  {
    if Opens(s) then
      var p := CutsOf(s);
      CutsShape(s);
      if p.c < p.d && ClosesAt(s, p.e) then
        Some(TagMatch(s[p.a..p.b], s[p.c..p.d], p.e + 2))
      else None
    else None
  }

  // ---------------------------------------------------------------------------
  // The grammar of reTemplate, stated declaratively

  predicate AllSpace(w: string)
  {
    forall i :: 0 <= i < |w| ==> IsSpace(w[i])
  }

  /** The "tag" group: one of the prefixes, or nothing. */
  predicate IsTagPrefix(p: string)
  {
    p == "" || (|p| == 1 && IsPrefix(p[0]))
  }

  /** The text `{{` w1 p w2 name w3 `}}`. */
  function TagText(w1: string, p: string, w2: string, n: string, w3: string): string
  {
    "{{" + w1 + p + w2 + n + w3 + "}}"
  }

  /** `x` is a whole reTemplate match whose "tag" group is p and whose "var" group is n. */
  ghost predicate Derives(x: string, p: string, n: string)
  {
    IsTagPrefix(p) && IsName(n)
    && exists w1, w2, w3 :: AllSpace(w1) && AllSpace(w2) && AllSpace(w3) && x == TagText(w1, p, w2, n, w3)
  }

  /** SkipSpaces stops at the first character after a run of white space. */
  lemma {:induction false} SkipSpacesTo(s: string, i: nat, j: nat)
    requires i <= j <= |s| && (j < |s| ==> !IsSpace(s[j]))
    requires forall k :: i <= k < j ==> IsSpace(s[k])
    ensures SkipSpaces(s, i) == j
    decreases j - i
  {
    if i < j {
      SkipSpacesTo(s, i + 1, j);
    }
  }

  /** A slice that is all white space, seen position by position. */
  lemma SpaceRun(s: string, i: nat, j: nat)
    requires i <= j <= |s| && AllSpace(s[i..j])
    ensures forall k :: i <= k < j ==> IsSpace(s[k])
  {
    forall k | i <= k < j ensures IsSpace(s[k]) {
      assert s[i..j][k - i] == s[k];
    }
  }

  /** A run of white space, as a slice. */
  lemma SpaceSlice(s: string, i: nat, j: nat)
    requires i <= j <= |s| && forall k :: i <= k < j ==> IsSpace(s[k])
    ensures AllSpace(s[i..j])
  {
    forall k | 0 <= k < j - i ensures IsSpace(s[i..j][k]) {
      assert s[i..j][k] == s[i + k];
    }
  }

  /** The parts from the name on: SkipName and SkipSpaces stop where the name and the spaces end. */
  lemma CutsAfterName(s: string, i3: nat, i4: nat, i5: nat)
    requires i3 < i4 <= i5 && ClosesAt(s, i5)
    requires IsName(s[i3..i4]) && AllSpace(s[i4..i5])
    ensures SkipName(s, i3) == i4 && SkipSpaces(s, i4) == i5
  {
    SpaceRun(s, i4, i5);
    assert forall k :: i3 <= k < i4 ==> IsNameChar(s[k]) by {
      forall k | i3 <= k < i4 ensures IsNameChar(s[k]) {
        assert s[i3..i4][k - i3] == s[k];
      }
    }
    SkipNameTo(s, i3, i4);
    SkipSpacesTo(s, i4, i5);
  }

  /** Without a prefix, the leading spaces run up to the name. */
  lemma CutsNoPrefix(s: string, i1: nat, i3: nat)
    requires 2 <= i1 <= i3 < |s| && IsNameChar(s[i3])
    requires AllSpace(s[2..i1]) && AllSpace(s[i1..i3])
    ensures var q := CutsOf(s); q.a == i3 && q.b == i3 && q.c == i3
  {
    SpaceRun(s, 2, i1);
    SpaceRun(s, i1, i3);
    SkipSpacesTo(s, 2, i3);
    SkipSpacesTo(s, i3, i3);
  }

  /** With a prefix at i1, the spaces stop before it and start again after it. */
  lemma CutsWithPrefix(s: string, i1: nat, i3: nat)
    requires 2 <= i1 < i3 < |s| && IsPrefix(s[i1]) && IsNameChar(s[i3])
    requires AllSpace(s[2..i1]) && AllSpace(s[i1 + 1..i3])
    ensures var q := CutsOf(s); q.a == i1 && q.b == i1 + 1 && q.c == i3
  {
    SpaceRun(s, 2, i1);
    SpaceRun(s, i1 + 1, i3);
    SkipSpacesTo(s, 2, i1);
    SkipSpacesTo(s, i1 + 1, i3);
  }

  /** The matcher finds the parts wherever the text has them. */
  lemma MatchAtParts(s: string, i1: nat, i2: nat, i3: nat, i4: nat, i5: nat)
    requires Opens(s) && 2 <= i1 <= i2 <= i3 < i4 <= i5 && ClosesAt(s, i5)
    requires AllSpace(s[2..i1]) && AllSpace(s[i2..i3]) && AllSpace(s[i4..i5])
    requires i2 == i1 || (i2 == i1 + 1 && IsPrefix(s[i1]))
    requires IsName(s[i3..i4])
    ensures MatchTag(s) == Some(TagMatch(s[i1..i2], s[i3..i4], i5 + 2))
  {
    assert IsNameChar(s[i3]) by { assert s[i3..i4][0] == s[i3]; }
    if i2 == i1 {
      CutsNoPrefix(s, i1, i3);
    } else {
      CutsWithPrefix(s, i1, i3);
    }
    CutsAfterName(s, i3, i4, i5);
    var q := CutsOf(s);
    assert q == Cuts(q.a, q.b, i3, i4, i5);
    assert s[q.a..q.b] == s[i1..i2];
  }

  /** Completeness: every text of the grammar matches, with its groups, whatever follows it. */
  lemma MatchComplete(w1: string, p: string, w2: string, n: string, w3: string, rest: string)
    requires AllSpace(w1) && AllSpace(w2) && AllSpace(w3) && IsTagPrefix(p) && IsName(n)
    ensures MatchTag(TagText(w1, p, w2, n, w3) + rest) == Some(TagMatch(p, n, |TagText(w1, p, w2, n, w3)|))
  {
    var t := TagText(w1, p, w2, n, w3);
    var s := t + rest;
    var i1 := 2 + |w1|;
    var i2 := i1 + |p|;
    var i3 := i2 + |w2|;
    var i4 := i3 + |n|;
    var i5 := i4 + |w3|;
    assert |t| == i5 + 2;
    assert s[2..i1] == w1 && s[i1..i2] == p && s[i2..i3] == w2;
    assert s[i3..i4] == n && s[i4..i5] == w3;
    assert s[i5] == '}' && s[i5 + 1] == '}';
    assert p != "" ==> s[i1] == p[0];
    MatchAtParts(s, i1, i2, i3, i4, i5);
  }

  /** Adjacent slices join. */
  lemma SliceJoin<T>(s: seq<T>, i: nat, j: nat, k: nat)
    requires i <= j <= k <= |s|
    ensures s[i..k] == s[i..j] + s[j..k]
  {
  }

  /** Soundness: what the matcher covers is a text of the grammar, with its groups. */
  lemma MatchSound(s: string)
    requires MatchTag(s).Some?
    ensures Derives(s[..MatchTag(s).value.len], MatchTag(s).value.tag, MatchTag(s).value.name)
  {
    var q := CutsOf(s);
    CutsShape(s);
    SpaceSlice(s, 2, q.a);
    SpaceSlice(s, q.b, q.c);
    SpaceSlice(s, q.d, q.e);
    var w1, p, w2, n, w3 := s[2..q.a], s[q.a..q.b], s[q.b..q.c], s[q.c..q.d], s[q.d..q.e];
    assert s[0..2] == "{{";
    SliceJoin(s, 0, 2, q.a);
    SliceJoin(s, 0, q.a, q.b);
    SliceJoin(s, 0, q.b, q.c);
    SliceJoin(s, 0, q.c, q.d);
    SliceJoin(s, 0, q.d, q.e);
    SliceJoin(s, 0, q.e, q.e + 2);
    assert s[q.e..q.e + 2] == "}}";
    assert s[..q.e + 2] == s[0..q.e + 2];
    assert s[..q.e + 2] == TagText(w1, p, w2, n, w3);
  }

  /**
   * MatchTag is exactly reTemplate anchored at the start: it returns m
   * if and only if the first m.len characters are a text of the grammar
   * with m's groups.
   */
  lemma MatchGrammar(s: string, m: TagMatch)
    ensures MatchTag(s) == Some(m) <==> m.len <= |s| && Derives(s[..m.len], m.tag, m.name)
  {
    if MatchTag(s) == Some(m) {
      MatchSound(s);
    }
    if m.len <= |s| && Derives(s[..m.len], m.tag, m.name) {
      var w1, w2, w3 :| AllSpace(w1) && AllSpace(w2) && AllSpace(w3)
        && s[..m.len] == TagText(w1, m.tag, w2, m.name, w3);
      assert s == TagText(w1, m.tag, w2, m.name, w3) + s[m.len..];
      MatchComplete(w1, m.tag, w2, m.name, w3, s[m.len..]);
    }
  }

  /** The matches a replace-all finds, left to right, without overlap. */
  function Tags(s: string): (r: seq<TagMatch>)
    decreases |s|
  {
    if s == [] then []
    else
      match MatchTag(s)
      case Some(m) => [m] + Tags(s[m.len..])
      case None => Tags(s[1..])
  }

  /** The start of the first match, or |s| when there is none. */
  function FirstTag(s: string): (j: nat)
    ensures j <= |s|
    ensures j < |s| ==> MatchTag(s[j..]).Some?
  {
    if s == [] then 0
    else if MatchTag(s).Some? then 0
    else
      var j := 1 + FirstTag(s[1..]);
      assert s[1..][j - 1..] == s[j..];
      j
  }

  /** No match starts before the first one. */
  lemma {:induction false} FirstTagFirst(s: string)
    ensures forall k :: 0 <= k < FirstTag(s) ==> MatchTag(s[k..]) == None
    decreases |s|
  {
    if s != [] && MatchTag(s).None? {
      FirstTagFirst(s[1..]);
      assert forall k :: 1 <= k <= |s| ==> s[1..][k - 1..] == s[k..];
    }
  }

  /** Every character of a match is a tag character (in particular none is '<'). */
  lemma MatchChars(s: string)
    requires MatchTag(s).Some?
    ensures forall k :: 0 <= k < MatchTag(s).value.len ==> IsTagChar(s[k])
  {
    var p := CutsOf(s);
    CutsShape(s);
    forall k | 0 <= k < p.e + 2 ensures IsTagChar(s[k]) {
      if k < 2 {
      } else if k < p.a {
      } else if k < p.b {
      } else if k < p.c {
      } else if k < p.d {
      } else if k < p.e {
      }
    }
  }

  /** `s` and `t` have the same first `n` characters. */
  predicate Agree(s: string, t: string, n: nat)
  {
    n <= |s| && n <= |t| && forall k :: 0 <= k < n ==> s[k] == t[k]
  }

  lemma {:induction false} SkipSpacesAgree(s: string, t: string, i: nat, n: nat)
    requires i <= n && Agree(s, t, n)
    requires SkipSpaces(s, i) < n
    ensures SkipSpaces(t, i) == SkipSpaces(s, i)
    decreases n - i
  {
    if IsSpace(s[i]) {
      SkipSpacesAgree(s, t, i + 1, n);
    }
  }

  lemma {:induction false} SkipNameAgree(s: string, t: string, i: nat, n: nat)
    requires i <= n && Agree(s, t, n)
    requires SkipName(s, i) < n
    ensures SkipName(t, i) == SkipName(s, i)
    decreases n - i
  {
    if IsNameChar(s[i]) {
      SkipNameAgree(s, t, i + 1, n);
    }
  }

  /** The cuts depend only on the characters up to the last one. */
  lemma CutsAgree(s: string, t: string, n: nat)
    requires |s| >= 2 && Agree(s, t, n)
    requires CutsOf(s).e < n
    ensures CutsOf(t) == CutsOf(s)
  {
    var p := CutsOf(s);
    SkipSpacesAgree(s, t, 2, n);
    SkipSpacesAgree(s, t, p.b, n);
    SkipNameAgree(s, t, p.c, n);
    SkipSpacesAgree(s, t, p.d, n);
  }

  /** A match depends only on the characters it covers. */
  lemma MatchPrefix(s: string, t: string)
    requires MatchTag(s).Some?
    requires Agree(s, t, MatchTag(s).value.len)
    ensures MatchTag(t) == MatchTag(s)
  {
    var n := MatchTag(s).value.len;
    var p := CutsOf(s);
    CutsAgree(s, t, n);
    assert s[p.a..p.b] == t[p.a..p.b];
    assert forall i :: 0 <= i < p.d - p.c ==> s[p.c..p.d][i] == t[p.c..p.d][i];
    assert s[p.c..p.d] == t[p.c..p.d];
  }

  /** A match ends before any '<'. */
  lemma MatchStopsAtLt(s: string, k: nat)
    requires MatchTag(s).Some? && k < |s| && s[k] == '<'
    ensures MatchTag(s).value.len <= k
  {
    MatchChars(s);
    assert !IsTagChar(s[k]);
  }

  /** Text that follows a '<' (or nothing) cannot change a match: no match spans a '<'. */
  lemma MatchBeforeLt(a: string, b: string)
    requires b == [] || b[0] == '<'
    ensures MatchTag(a + b) == MatchTag(a)
  {
    if MatchTag(a).Some? {
      MatchPrefix(a, a + b);
    } else if MatchTag(a + b).Some? {
      if b != [] {
        MatchStopsAtLt(a + b, |a|);
      }
      MatchPrefix(a + b, a);
    }
  }

  /** A plain `{{name}}` matches, whatever follows it. */
  lemma MatchCanonical(n: string, rest: string)
    requires IsName(n)
    ensures MatchTag("{{" + n + "}}" + rest) == Some(TagMatch("", n, |n| + 4))
  {
    var s := "{{" + n + "}}" + rest;
    assert forall k :: 2 <= k < 2 + |n| ==> s[k] == n[k - 2];
    assert s[2 + |n|] == '}' && s[3 + |n|] == '}';
    assert !IsSpace(s[2]) && !IsPrefix(s[2]);
    var p := CutsOf(s);
    assert p.a == 2 && p.c == 2;
    SkipNameTo(s, 2, 2 + |n|);
    assert p.e == p.d;
    assert s[2..2] == "";
    assert s[2..p.d] == n;
  }

  /** A prefixed tag written with one space, `{{p name}}`, matches, whatever follows it. */
  lemma MatchPrefixed(p: string, n: string, rest: string)
    requires |p| == 1 && IsPrefix(p[0]) && IsName(n)
    ensures MatchTag("{{" + p + " " + n + "}}" + rest) == Some(TagMatch(p, n, |n| + 6))
  {
    var s := "{{" + p + " " + n + "}}" + rest;
    assert forall k :: 4 <= k < 4 + |n| ==> s[k] == n[k - 4];
    assert s[4 + |n|] == '}' && s[5 + |n|] == '}';
    assert s[2] == p[0] && !IsSpace(s[2]);
    assert IsSpace(s[3]) && !IsSpace(s[4]);
    var q := CutsOf(s);
    assert q.a == 2 && q.b == 3;
    assert SkipSpaces(s, 4) == 4;
    assert q.c == 4;
    SkipNameTo(s, 4, 4 + |n|);
    assert q.e == q.d;
    assert s[2..3] == p;
    assert s[4..q.d] == n;
  }

  /** A prefixed tag written without space, `{{pname}}`, matches, whatever follows it. */
  lemma MatchPrefixedTight(p: string, n: string, rest: string)
    requires |p| == 1 && IsPrefix(p[0]) && IsName(n)
    ensures MatchTag("{{" + p + n + "}}" + rest) == Some(TagMatch(p, n, |n| + 5))
  {
    var s := "{{" + p + n + "}}" + rest;
    assert forall k :: 3 <= k < 3 + |n| ==> s[k] == n[k - 3];
    assert s[3 + |n|] == '}' && s[4 + |n|] == '}';
    assert s[2] == p[0] && !IsSpace(s[2]);
    assert !IsSpace(s[3]);
    var q := CutsOf(s);
    assert q.a == 2 && q.b == 3 && q.c == 3;
    SkipNameTo(s, 3, 3 + |n|);
    assert q.e == q.d;
    assert s[2..3] == p;
    assert s[3..q.d] == n;
  }

  /** The text of a canonical match is exactly `{{name}}`. */
  lemma CanonicalText(s: string)
    requires MatchTag(s).Some? && Canonical(MatchTag(s).value)
    ensures s[..MatchTag(s).value.len] == "{{" + MatchTag(s).value.name + "}}"
  {
    var p := CutsOf(s);
    assert p.c == 2 && p.e == p.d;
    assert s[..p.e + 2] == s[..2] + s[2..p.d] + s[p.d..p.d + 2];
  }

  /** Before the first match, the search finds nothing. */
  lemma {:induction false} TagsAfterText(s: string)
    ensures FirstTag(s) == |s| ==> Tags(s) == []
    ensures FirstTag(s) < |s| ==> Tags(s) == Tags(s[FirstTag(s)..])
    decreases |s|
  {
    if s != [] && MatchTag(s).None? {
      TagsAfterText(s[1..]);
      var j := FirstTag(s[1..]);
      assert s[1..][j..] == s[1 + j..];
    }
  }

  /** A search that starts on a match takes it and goes on after it. */
  lemma TagsAtMatch(s: string)
    requires MatchTag(s).Some?
    ensures Tags(s) == [MatchTag(s).value] + Tags(s[MatchTag(s).value.len..])
  {
  }

  /** A search that starts on text moves on by one character. */
  lemma TagsAtText(s: string)
    requires s != [] && MatchTag(s).None?
    ensures Tags(s) == Tags(s[1..])
  {
  }

  /** Dropping a prefix of `a` from `a + b`. */
  lemma DropConcat(a: string, b: string, n: nat)
    requires n <= |a|
    ensures (a + b)[n..] == a[n..] + b
  {
  }

  /** TagsConcat when `a` starts on a match: if the rest splits, so does the whole. */
  lemma {:induction false} TagsConcatAtMatch(a: string, b: string, m: TagMatch)
    requires b == [] || b[0] == '<'
    requires MatchTag(a) == Some(m)
    requires Tags(a[m.len..] + b) == Tags(a[m.len..]) + Tags(b)
    ensures Tags(a + b) == Tags(a) + Tags(b)
  {
    MatchBeforeLt(a, b);
    DropConcat(a, b, m.len);
    TagsAtMatch(a + b);
    TagsAtMatch(a);
    SeqAssoc([m], Tags(a[m.len..]), Tags(b));
  }

  /** One element, then `j` more of the tail, is the first `1 + j` elements. */
  lemma ConsPrefix<T>(s: seq<T>, j: nat, e: seq<T>, e1: seq<T>, e2: seq<T>)
    requires 1 + j <= |s|
    requires e == [s[0]] + e1 && e1 == s[1..][..j] + e2
    ensures e == s[..1 + j] + e2
  {
    assert s[..1 + j] == [s[0]] + s[1..][..j];
  }

  lemma SeqAssoc<T>(x: seq<T>, y: seq<T>, z: seq<T>)
    ensures (x + y) + z == x + (y + z)
  {
  }

  /** A character absent from `s` is absent from every suffix of it. */
  lemma NotInSuffix(s: string, c: char, k: nat)
    requires c !in s && k <= |s|
    ensures c !in s[k..]
  {
    forall i | 0 <= i < |s[k..]| ensures s[k..][i] != c {
      assert s[k..][i] == s[k + i];
    }
  }

  /** TagsConcat when `a` starts on text. */
  lemma {:induction false} TagsConcatAtText(a: string, b: string)
    requires b == [] || b[0] == '<'
    requires a != [] && MatchTag(a).None?
    requires Tags(a[1..] + b) == Tags(a[1..]) + Tags(b)
    ensures Tags(a + b) == Tags(a) + Tags(b)
  {
    MatchBeforeLt(a, b);
    DropConcat(a, b, 1);
    TagsAtText(a + b);
    TagsAtText(a);
  }

  /** The matches of a prefix that ends where nothing can continue a match. */
  lemma {:induction false} TagsConcat(a: string, b: string)
    requires b == [] || b[0] == '<'
    ensures Tags(a + b) == Tags(a) + Tags(b)
    decreases |a|
  {
    if a == [] {
      assert a + b == b;
    } else if MatchTag(a).Some? {
      var m := MatchTag(a).value;
      TagsConcat(a[m.len..], b);
      TagsConcatAtMatch(a, b, m);
    } else {
      TagsConcat(a[1..], b);
      TagsConcatAtText(a, b);
    }
  }
}
