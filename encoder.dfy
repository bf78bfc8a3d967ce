/**
 * The mustache encoder and decoder. Encode replaces every reTemplate match
 * by an HTML comment marker so that tree-based HTML tooling leaves it alone;
 * the name "content" becomes a separate sentinel. Decode replaces every
 * marker `<!--stache:TAG-->` (TAG again a reTemplate match) by the tag text.
 *
 * Both sides rebuild the tag text with the same two `if`s. As written, the
 * second `if` (a non-empty name) always fires and overwrites the first, so
 * the prefix is lost. The rule is a parameter: `AsWritten` is the code,
 * `KeepPrefix` turns the second `if` into an `else`.
 */
module Encoder {
  import opened Wrappers
  import opened Mustache

  const ContentMarker: string := "<!--stache-content-->"
  const OpenMarker: string := "<!--stache:"
  const CloseMarker: string := "-->"

  datatype StacheRule = AsWritten | KeepPrefix

  /** The tag text both callbacks build from the "tag" and "var" groups. */
  function Stache(rule: StacheRule, tag: string, val: string): string
  {
    match rule
    case AsWritten =>
      var s := if |tag| > 0 then "{{" + tag + " " + val + "}}" else "";
      if |val| > 0 then "{{" + val + "}}" else s
    case KeepPrefix =>
      if |tag| > 0 then "{{" + tag + " " + val + "}}" else "{{" + val + "}}"
  }

  /** As written, a non-empty name always wins: the text is `{{name}}` whatever the prefix. */
  lemma StacheDropsPrefix(tag: string, val: string)
    requires val != ""
    ensures Stache(AsWritten, tag, val) == "{{" + val + "}}"
  {
  }

  /** The canonical tag text `{{name}}`. */
  function Canon(n: string): string
  {
    "{{" + n + "}}"
  }

  /** A carried-tag marker around the tag text `t`. */
  function Marked(t: string): string
  {
    OpenMarker + t + CloseMarker
  }

  /** The replacement Encode's callback returns for one match. */
  function EncodeTag(m: TagMatch, rule: StacheRule): (r: string)
    ensures m.name == "content" ==> r == ContentMarker
    ensures m.name != "content" ==> r == Marked(Stache(rule, m.tag, m.name))
    ensures |r| > 0 && r[0] == '<'
  {
    if m.name == "content" then ContentMarker
    else Marked(Stache(rule, m.tag, m.name))
  }

  /** Encode: a replace-all of reTemplate with EncodeTag. */
  function Encode(s: string, rule: StacheRule): string
    decreases |s|
  {
    if s == [] then []
    else
      match MatchTag(s)
      case Some(m) => EncodeTag(m, rule) + Encode(s[m.len..], rule)
      case None => [s[0]] + Encode(s[1..], rule)
  }

  /** reDecode anchored at the start of `s`: `<!--stache:` then a reTemplate match then `-->`. */
  function MatchMarker(s: string): (r: Option<TagMatch>)
    ensures r.Some? ==> |OpenMarker| + 5 + |CloseMarker| <= r.value.len <= |s|
    ensures r.Some? ==> IsName(r.value.name) && s[0] == '<'
  {
    if |s| >= |OpenMarker| && s[..|OpenMarker|] == OpenMarker then
      match MatchTag(s[|OpenMarker|..])
      case Some(m) =>
        var e := |OpenMarker| + m.len;
        if e + |CloseMarker| <= |s| && s[e..e + |CloseMarker|] == CloseMarker then
          Some(TagMatch(m.tag, m.name, e + |CloseMarker|))
        else None
      case None => None
    else None
  }

  /** Decode: a replace-all of reDecode with the tag text. */
  function Decode(s: string, rule: StacheRule): string
    decreases |s|
  {
    if s == [] then []
    else
      match MatchMarker(s)
      case Some(m) => Stache(rule, m.tag, m.name) + Decode(s[m.len..], rule)
      case None => [s[0]] + Decode(s[1..], rule)
  }

  /** What one tag becomes after an encode and a decode. */
  function Restored(m: TagMatch, rule: StacheRule): string
  {
    if m.name == "content" then ContentMarker else Stache(rule, m.tag, m.name)
  }

  /** Reference for the round trip: every tag replaced by what survives of it. */
  function Normal(s: string, rule: StacheRule): string
    decreases |s|
  {
    if s == [] then []
    else
      match MatchTag(s)
      case Some(m) => Restored(m, rule) + Normal(s[m.len..], rule)
      case None => [s[0]] + Normal(s[1..], rule)
  }

  /** Every tag in `s` is not "content" and is written exactly as Stache rebuilds it. */
  predicate AllNormal(s: string, rule: StacheRule)
    decreases |s|
  {
    if s == [] then true
    else
      match MatchTag(s)
      case Some(m) =>
        m.name != "content" && s[..m.len] == Stache(rule, m.tag, m.name)
        && AllNormal(s[m.len..], rule)
      case None => AllNormal(s[1..], rule)
  }

  // ---------------------------------------------------------------------------
  // One step of each scan

  lemma EncodeAtMatch(s: string, rule: StacheRule)
    requires MatchTag(s).Some?
    ensures Encode(s, rule)
         == EncodeTag(MatchTag(s).value, rule) + Encode(s[MatchTag(s).value.len..], rule)
  {
  }

  lemma EncodeAtText(s: string, rule: StacheRule)
    requires s != [] && MatchTag(s).None?
    ensures Encode(s, rule) == [s[0]] + Encode(s[1..], rule)
  {
  }

  lemma DecodeAtMarker(s: string, rule: StacheRule)
    requires MatchMarker(s).Some?
    ensures Decode(s, rule)
         == Stache(rule, MatchMarker(s).value.tag, MatchMarker(s).value.name)
            + Decode(s[MatchMarker(s).value.len..], rule)
  {
  }

  lemma DecodeAtText(s: string, rule: StacheRule)
    requires s != [] && MatchMarker(s).None?
    ensures Decode(s, rule) == [s[0]] + Decode(s[1..], rule)
  {
  }

  lemma NormalAtMatch(s: string, rule: StacheRule)
    requires MatchTag(s).Some?
    ensures Normal(s, rule)
         == Restored(MatchTag(s).value, rule) + Normal(s[MatchTag(s).value.len..], rule)
  {
  }

  lemma NormalAtText(s: string, rule: StacheRule)
    requires s != [] && MatchTag(s).None?
    ensures Normal(s, rule) == [s[0]] + Normal(s[1..], rule)
  {
  }

  lemma AllNormalAtMatch(s: string, rule: StacheRule)
    requires MatchTag(s).Some? && AllNormal(s, rule)
    ensures MatchTag(s).value.name != "content"
    ensures s[..MatchTag(s).value.len] == Stache(rule, MatchTag(s).value.tag, MatchTag(s).value.name)
    ensures AllNormal(s[MatchTag(s).value.len..], rule)
    ensures Restored(MatchTag(s).value, rule) == s[..MatchTag(s).value.len]
  {
  }

  lemma AllNormalAtText(s: string, rule: StacheRule)
    requires s != [] && MatchTag(s).None? && AllNormal(s, rule)
    ensures AllNormal(s[1..], rule)
  {
  }

  // ---------------------------------------------------------------------------
  // Encode leaves text alone

  /** Text without '{' is copied by Encode. */
  lemma {:induction false} EncodeText(t: string, rest: string, rule: StacheRule)
    requires '{' !in t
    ensures Encode(t + rest, rule) == t + Encode(rest, rule)
    decreases |t|
  {
    if t != [] {
      var s := t + rest;
      assert s[0] == t[0];
      assert Encode(s, rule) == [t[0]] + Encode(s[1..], rule) by { EncodeAtText(s, rule); }
      assert s[1..] == t[1..] + rest;
      NotInSuffix(t, '{', 1);
      EncodeText(t[1..], rest, rule);
      SeqAssoc([t[0]], t[1..], Encode(rest, rule));
      assert [t[0]] + t[1..] == t;
    } else {
      assert t + rest == rest;
    }
  }

  /** Everything before the first match is copied by Encode. */
  lemma {:induction false} EncodeBeforeFirstTag(s: string, rule: StacheRule)
    ensures Encode(s, rule) == s[..FirstTag(s)] + Encode(s[FirstTag(s)..], rule)
    decreases |s|
  {
    if s != [] && MatchTag(s).None? {
      var j := FirstTag(s[1..]);
      assert FirstTag(s) == 1 + j;
      EncodeAtText(s, rule);
      EncodeBeforeFirstTag(s[1..], rule);
      assert s[1..][j..] == s[1 + j..];
      ConsPrefix(s, j, Encode(s, rule), Encode(s[1..], rule), Encode(s[1 + j..], rule));
    }
  }

  /** Text with no match in it is copied by Encode. */
  lemma EncodeNoTags(s: string, rule: StacheRule)
    requires FirstTag(s) == |s|
    ensures Encode(s, rule) == s
  {
    EncodeBeforeFirstTag(s, rule);
    assert s[..|s|] == s;
  }

  lemma ContentIsName()
    ensures IsName("content")
  {
    var n := "content";
    forall i | 0 <= i < |n| ensures IsNameChar(n[i]) {}
  }

  lemma EncodeContentPlain(rest: string, rule: StacheRule)
    requires IsName("content")
    ensures Encode("{{content}}" + rest, rule) == ContentMarker + Encode(rest, rule)
  {
    var n := "content";
    var s := "{{" + n + "}}" + rest;
    assert "{{content}}" + rest == s;
    MatchCanonical(n, rest);
    EncodeAtMatch(s, rule);
    assert s[|n| + 4..] == rest;
  }

  lemma EncodeContentPrefixed(p: string, rest: string, rule: StacheRule)
    requires |p| == 1 && IsPrefix(p[0]) && IsName("content")
    ensures Encode("{{" + p + " content}}" + rest, rule) == ContentMarker + Encode(rest, rule)
  {
    var n := "content";
    var s := "{{" + p + " " + n + "}}" + rest;
    assert "{{" + p + " content}}" + rest == s;
    MatchPrefixed(p, n, rest);
    EncodeAtMatch(s, rule);
    assert s[|n| + 6..] == rest;
  }

  /** A tag named "content", with any prefix, becomes the content sentinel. */
  lemma EncodeContent(p: string, rest: string, rule: StacheRule)
    requires p == "" || (|p| == 1 && IsPrefix(p[0]))
    ensures p == "" ==> Encode("{{content}}" + rest, rule) == ContentMarker + Encode(rest, rule)
    ensures p != "" ==>
      Encode("{{" + p + " content}}" + rest, rule) == ContentMarker + Encode(rest, rule)
  {
    ContentIsName();
    if p == "" {
      EncodeContentPlain(rest, rule);
    } else {
      EncodeContentPrefixed(p, rest, rule);
    }
  }

  // ---------------------------------------------------------------------------
  // Decode

  /** Text without '<' is copied by Decode. */
  lemma {:induction false} DecodeText(t: string, rest: string, rule: StacheRule)
    requires '<' !in t
    ensures Decode(t + rest, rule) == t + Decode(rest, rule)
    decreases |t|
  {
    if t != [] {
      var s := t + rest;
      assert s[0] == t[0];
      assert Decode(s, rule) == [t[0]] + Decode(s[1..], rule) by { DecodeAtText(s, rule); }
      assert s[1..] == t[1..] + rest;
      NotInSuffix(t, '<', 1);
      DecodeText(t[1..], rest, rule);
      SeqAssoc([t[0]], t[1..], Decode(rest, rule));
      assert [t[0]] + t[1..] == t;
    } else {
      assert t + rest == rest;
    }
  }

  /** The content sentinel differs from OpenMarker at index 10, so it starts no marker. */
  lemma SentinelNoMarker(rest: string)
    ensures MatchMarker(ContentMarker + rest) == None
  {
    var s := ContentMarker + rest;
    assert s[10] == ContentMarker[10];
    assert s[..|OpenMarker|][10] != OpenMarker[10];
  }

  /** The sentinel is a '<' and then text without '<'. */
  lemma SentinelParts(t: string)
    requires t == "!--stache-content-->"
    ensures ContentMarker == "<" + t && '<' !in t
  {
  }

  /** The content sentinel is not a marker: Decode leaves it in place. */
  lemma DecodeKeepsSentinel(rest: string, rule: StacheRule)
    ensures Decode(ContentMarker + rest, rule) == ContentMarker + Decode(rest, rule)
  {
    var t := "!--stache-content-->";
    SentinelParts(t);
    var s := "<" + (t + rest);
    assert ContentMarker + rest == s;
    SentinelNoMarker(rest);
    DecodeAtText(s, rule);
    assert s[1..] == t + rest;
    DecodeText(t, rest, rule);
    SeqAssoc("<", t, Decode(rest, rule));
  }

  /** A tag Stache rebuilt matches again, as the same tag. */
  lemma StacheMatches(rule: StacheRule, tag: string, n: string, rest: string)
    requires tag == "" || (|tag| == 1 && IsPrefix(tag[0]))
    requires IsName(n)
    ensures MatchTag(Stache(rule, tag, n) + rest).Some?
    ensures MatchTag(Stache(rule, tag, n) + rest).value.name == n
    ensures MatchTag(Stache(rule, tag, n) + rest).value.len == |Stache(rule, tag, n)|
    ensures Stache(rule, MatchTag(Stache(rule, tag, n) + rest).value.tag, n) == Stache(rule, tag, n)
  {
    if rule == KeepPrefix && tag != "" {
      MatchPrefixed(tag, n, rest);
    } else {
      MatchCanonical(n, rest);
    }
  }

  /** reDecode finds a marker around a match that fills it exactly. */
  lemma MatchMarkerAt(t: string, x: string)
    requires MatchTag(t + CloseMarker + x).Some?
    requires MatchTag(t + CloseMarker + x).value.len == |t|
    ensures MatchMarker(OpenMarker + t + CloseMarker + x)
         == Some(TagMatch(MatchTag(t + CloseMarker + x).value.tag,
                          MatchTag(t + CloseMarker + x).value.name,
                          |OpenMarker| + |t| + |CloseMarker|))
  {
    var s := OpenMarker + t + CloseMarker + x;
    assert s[..|OpenMarker|] == OpenMarker;
    assert s[|OpenMarker|..] == t + CloseMarker + x;
    var e := |OpenMarker| + |t|;
    assert s[e..e + |CloseMarker|] == CloseMarker;
  }

  /** Decode undoes EncodeTag, up to what Restored loses. */
  lemma DecodeTag(m: TagMatch, rule: StacheRule, x: string)
    requires m.tag == "" || (|m.tag| == 1 && IsPrefix(m.tag[0]))
    requires IsName(m.name)
    ensures Decode(EncodeTag(m, rule) + x, rule) == Restored(m, rule) + Decode(x, rule)
  {
    if m.name == "content" {
      DecodeKeepsSentinel(x, rule);
    } else {
      var t := Stache(rule, m.tag, m.name);
      StacheMatches(rule, m.tag, m.name, CloseMarker + x);
      assert t + CloseMarker + x == t + (CloseMarker + x);
      MatchMarkerAt(t, x);
      var s := OpenMarker + t + CloseMarker + x;
      assert EncodeTag(m, rule) + x == s;
      assert s[|OpenMarker| + |t| + |CloseMarker|..] == x;
    }
  }

  // ---------------------------------------------------------------------------
  // Round trip

  /** The encoding of a text that starts on a match, or is empty, starts with '<' or is empty. */
  lemma EncodeHead(t: string, rule: StacheRule)
    requires t == [] || MatchTag(t).Some?
    ensures Encode(t, rule) == [] || Encode(t, rule)[0] == '<'
  {
    if t != [] {
      EncodeAtMatch(t, rule);
    }
  }

  /**
   * The encoding of `s` is the text before its first match, then either
   * nothing or what starts with '<'.
   */
  lemma EncodeSplit(s: string, rule: StacheRule) returns (r: string)
    ensures Encode(s, rule) == s[..FirstTag(s)] + r
    ensures r == [] || r[0] == '<'
  {
    EncodeBeforeFirstTag(s, rule);
    r := Encode(s[FirstTag(s)..], rule);
    EncodeHead(s[FirstTag(s)..], rule);
  }

  /** A marker cannot start in a text shorter than OpenMarker followed by nothing or by '<'. */
  lemma ShortNoMarker(x: string, r: string)
    requires 0 < |x| < |OpenMarker| && (r == [] || r[0] == '<')
    ensures MatchMarker(x + r) == None
  {
    if |x + r| >= |OpenMarker| {
      assert (x + r)[|x|] == '<';
      assert OpenMarker[|x|] != '<';
      assert (x + r)[..|OpenMarker|][|x|] != OpenMarker[|x|];
    }
  }

  /** After exactly OpenMarker's length of text, nothing or a '<' follows: no tag there. */
  lemma ExactNoMarker(x: string, r: string)
    requires |x| == |OpenMarker| && (r == [] || r[0] == '<')
    ensures MatchMarker(x + r) == None
  {
    assert (x + r)[|x|..] == r;
  }

  /**
   * A longer text whose own tail after OpenMarker's length starts no match,
   * even with more text after it, followed by nothing or '<': no marker.
   */
  lemma LongNoMarker(x: string, y: string, r: string)
    requires |x| > |OpenMarker| && (r == [] || r[0] == '<')
    requires MatchTag((x + y)[|OpenMarker|..]) == None
    ensures MatchMarker(x + r) == None
  {
    var n := |OpenMarker|;
    DropConcat(x, r, n);
    DropConcat(x, y, n);
    MatchBeforeLt(x[n..], r);
    if MatchTag(x[n..]).Some? {
      MatchPrefix(x[n..], x[n..] + y);
    }
  }

  /**
   * A character Encode copies never starts a marker of its output: the tag
   * a marker would need after it lies in copied text, where the encoder's
   * own scan found none.
   */
  lemma CopiedNoMarker(s: string, rule: StacheRule)
    requires s != [] && MatchTag(s).None?
    ensures MatchMarker([s[0]] + Encode(s[1..], rule)) == None
  {
    EncodeAtText(s, rule);
    var r := EncodeSplit(s, rule);
    var j := FirstTag(s);
    var x := s[..j];
    assert [s[0]] + Encode(s[1..], rule) == x + r;
    if |x| < |OpenMarker| {
      ShortNoMarker(x, r);
    } else if |x| == |OpenMarker| {
      ExactNoMarker(x, r);
    } else {
      FirstTagFirst(s);
      assert s == x + s[j..];
      LongNoMarker(x, s[j..], r);
    }
  }

  /** Decoding the encoding gives the normal form of the text. */
  lemma {:induction false} DecodeEncode(s: string, rule: StacheRule)
    ensures Decode(Encode(s, rule), rule) == Normal(s, rule)
    decreases |s|
  {
    if s != [] {
      match MatchTag(s)
      case Some(m) =>
        var r := s[m.len..];
        assert Encode(s, rule) == EncodeTag(m, rule) + Encode(r, rule) by { EncodeAtMatch(s, rule); }
        assert Normal(s, rule) == Restored(m, rule) + Normal(r, rule) by { NormalAtMatch(s, rule); }
        DecodeEncode(r, rule);
        DecodeTag(m, rule, Encode(r, rule));
      case None =>
        assert Encode(s, rule) == [s[0]] + Encode(s[1..], rule) by { EncodeAtText(s, rule); }
        assert Normal(s, rule) == [s[0]] + Normal(s[1..], rule) by { NormalAtText(s, rule); }
        DecodeEncode(s[1..], rule);
        CopiedNoMarker(s, rule);
        DecodeAtText([s[0]] + Encode(s[1..], rule), rule);
        assert ([s[0]] + Encode(s[1..], rule))[1..] == Encode(s[1..], rule);
    }
  }

  /** NormalFixed one step past a match. */
  lemma NormalFixedAtMatch(s: string, rule: StacheRule, m: TagMatch)
    requires MatchTag(s) == Some(m) && AllNormal(s, rule)
    requires Normal(s[m.len..], rule) == s[m.len..]
    ensures Normal(s, rule) == s
  {
    AllNormalAtMatch(s, rule);
    NormalAtMatch(s, rule);
    SplitAt(s, m.len);
  }

  lemma SplitAt<T>(s: seq<T>, n: nat)
    requires n <= |s|
    ensures s[..n] + s[n..] == s
  {
  }

  /** NormalFixed one step past a character of text. */
  lemma NormalFixedAtText(s: string, rule: StacheRule)
    requires s != [] && MatchTag(s).None?
    requires Normal(s[1..], rule) == s[1..]
    ensures Normal(s, rule) == s
  {
    assert Normal(s, rule) == [s[0]] + Normal(s[1..], rule) by { NormalAtText(s, rule); }
    assert s == [s[0]] + s[1..];
  }

  /** Text whose tags are all in normal form is its own normal form. */
  lemma {:induction false} NormalFixed(s: string, rule: StacheRule)
    requires AllNormal(s, rule)
    ensures Normal(s, rule) == s
    decreases |s|
  {
    if s != [] {
      if MatchTag(s).Some? {
        AllNormalAtMatch(s, rule);
        NormalFixed(s[MatchTag(s).value.len..], rule);
        NormalFixedAtMatch(s, rule, MatchTag(s).value);
      } else {
        AllNormalAtText(s, rule);
        NormalFixed(s[1..], rule);
        NormalFixedAtText(s, rule);
      }
    }
  }

  /**
   * The round trip: text whose tags are all in normal form (never
   * "content") comes back unchanged.
   */
  lemma RoundTrip(s: string, rule: StacheRule)
    requires AllNormal(s, rule)
    ensures Decode(Encode(s, rule), rule) == s
  {
    DecodeEncode(s, rule);
    NormalFixed(s, rule);
  }

  /** A "content" tag is not restored: the sentinel comes back instead. */
  lemma ContentNotRestored(p: string, rule: StacheRule)
    requires p == "" || (|p| == 1 && IsPrefix(p[0]))
    ensures p == "" ==> Decode(Encode("{{content}}", rule), rule) == ContentMarker
    ensures p != "" ==> Decode(Encode("{{" + p + " content}}", rule), rule) == ContentMarker
  {
    EncodeContent(p, "", rule);
    DecodeKeepsSentinel("", rule);
    if p == "" {
      assert "{{content}}" + "" == "{{content}}";
    } else {
      assert "{{" + p + " content}}" + "" == "{{" + p + " content}}";
    }
    assert ContentMarker + "" == ContentMarker;
  }

  // ---------------------------------------------------------------------------
  // What the written code does differently

  /** The normal form of a text that is exactly one tag is what survives of that tag. */
  lemma NormalOneTag(t: string, rule: StacheRule)
    requires MatchTag(t).Some? && MatchTag(t).value.len == |t|
    ensures Normal(t, rule) == Restored(MatchTag(t).value, rule)
  {
    NormalAtMatch(t, rule);
    assert t[|t|..] == [];
  }

  /**
   * As written, a prefixed tag loses its prefix: `{{p name}}` encodes and
   * decodes to `{{name}}`.
   */
  lemma PrefixLost(p: string, n: string)
    requires |p| == 1 && IsPrefix(p[0]) && IsName(n) && n != "content"
    ensures Decode(Encode("{{" + p + " " + n + "}}", AsWritten), AsWritten) == "{{" + n + "}}"
    ensures "{{" + n + "}}" != "{{" + p + " " + n + "}}"
  {
    var s := "{{" + p + " " + n + "}}";
    MatchPrefixed(p, n, "");
    assert s + "" == s;
    DecodeEncode(s, AsWritten);
    NormalOneTag(s, AsWritten);
    StacheDropsPrefix(p, n);
    assert ("{{" + n + "}}")[2] != ("{{" + p + " " + n + "}}")[2];
  }

  /** With the prefix kept, the same tag comes back unchanged. */
  lemma PrefixKept(p: string, n: string)
    requires |p| == 1 && IsPrefix(p[0]) && IsName(n) && n != "content"
    ensures Decode(Encode("{{" + p + " " + n + "}}", KeepPrefix), KeepPrefix)
         == "{{" + p + " " + n + "}}"
  {
    var s := "{{" + p + " " + n + "}}";
    MatchPrefixed(p, n, "");
    assert s + "" == s;
    DecodeEncode(s, KeepPrefix);
    NormalOneTag(s, KeepPrefix);
  }

  /** The marker text carries no '{' of its own. */
  lemma MarkersHaveNoBrace()
    ensures '{' !in OpenMarker && '{' !in CloseMarker
  {
  }

  /** A plain `{{name}}` (not "content") becomes the marker around it. */
  lemma EncodeCanonical(n: string, rest: string, rule: StacheRule)
    requires IsName(n) && n != "content"
    ensures Encode(Canon(n) + rest, rule) == Marked(Canon(n)) + Encode(rest, rule)
  {
    var s := Canon(n) + rest;
    assert MatchTag(s) == Some(TagMatch("", n, |n| + 4)) by { MatchCanonical(n, rest); }
    assert Encode(s, rule) == EncodeTag(TagMatch("", n, |n| + 4), rule) + Encode(s[|n| + 4..], rule)
    by { EncodeAtMatch(s, rule); }
    assert s[|n| + 4..] == rest;
    assert Stache(rule, "", n) == Canon(n);
  }

  /**
   * Each marker still holds a `{{name}}` match, so encoding twice nests the
   * markers: Encode is not idempotent.
   */
  lemma EncodeTwiceNests(n: string, rule: StacheRule)
    requires IsName(n) && n != "content"
    ensures Encode(Canon(n), rule) == Marked(Canon(n))
    ensures Encode(Marked(Canon(n)), rule) == Marked(Marked(Canon(n)))
  {
    var c := Canon(n);
    var e := Marked(c);
    MarkersHaveNoBrace();
    assert Encode(c, rule) == e by {
      EncodeCanonical(n, "", rule);
      assert c + "" == c;
      assert e + "" == e;
    }
    assert Encode(CloseMarker, rule) == CloseMarker by {
      EncodeText(CloseMarker, "", rule);
      assert CloseMarker + "" == CloseMarker;
    }
    assert Encode(c + CloseMarker, rule) == e + CloseMarker by {
      EncodeCanonical(n, CloseMarker, rule);
    }
    assert Encode(e, rule) == OpenMarker + (e + CloseMarker) by {
      SeqAssoc(OpenMarker, c, CloseMarker);
      EncodeText(OpenMarker, c + CloseMarker, rule);
    }
    SeqAssoc(OpenMarker, e, CloseMarker);
  }
}
