/**
 The text post-processing of `read_webpage`. The fetched HTML is given as the
 parsed node tree (the HTTP request and the HTML parser are not modelled); the
 model then removes the unwanted elements, rewrites linked anchors to a
 Markdown-like `[ text ]( href )` form, takes the document text, normalises its
 whitespace and truncates it.
*/
module PageText {
  import opened Wrappers
  import opened PyStr

  /**
   A node of the HTML tree: a string the parser produced, a string the anchor
   rewrite inserted, or an element with its tag name, its `href` attribute and
   its children. The two kinds of string differ in whether they count as text:
   a parsed string inside a `template`, `rt` or `rp` element is a special
   string class that the text extraction skips, while an inserted string is a
   plain string wherever it stands.
   */
  datatype Node =
    | Text(text: string)
    | Inserted(text: string)
    | Element(tag: string, href: Option<string>, children: seq<Node>)

  /** The page text is cut to this many characters. */
  const MaxPageChars := 300000

  /** Elements removed, with everything inside them, before the text is taken. */
  predicate IsUnwantedTag(tag: string) {
    tag == "script" || tag == "style" || tag == "nav" || tag == "header" || tag == "footer"
  }

  /** Elements whose parsed strings (at any depth) are not part of the text: template contents and ruby annotations. */
  predicate IsHiddenTextTag(tag: string) {
    tag == "template" || tag == "rt" || tag == "rp"
  }

  /** An `a` element whose `href` is present and non-empty (a truthy attribute value). */
  predicate IsLinkedAnchor(n: Node) {
    n.Element? && n.tag == "a" && n.href.Some? && n.href.value != ""
  }

  /** Every string of the forest came from the parser: nothing inserted yet. */
  predicate Parsed(ns: seq<Node>)
    decreases ns
  {
    ns == [] ||
    (!ns[0].Inserted?
     && (ns[0].Element? ==> Parsed(ns[0].children))
     && Parsed(ns[1..]))
  }

  // ---------------------------------------------------------------------------
  // Removing unwanted elements

  /** Every unwanted element is removed together with its subtree; everything else is kept in order. */
  function RemoveUnwanted(ns: seq<Node>): (r: seq<Node>)
    ensures |r| <= |ns|
    decreases ns
  {
    if ns == [] then []
    else
      var rest := RemoveUnwanted(ns[1..]);
      match ns[0]
      case Element(tag, href, ch) =>
        if IsUnwantedTag(tag) then rest else [Element(tag, href, RemoveUnwanted(ch))] + rest
      case _ => [ns[0]] + rest
  }

  /** No unwanted element occurs anywhere in the forest. */
  predicate NoUnwanted(ns: seq<Node>)
    decreases ns
  {
    ns == [] ||
    ((match ns[0]
      case Element(tag, _, ch) => !IsUnwantedTag(tag) && NoUnwanted(ch)
      case _ => true)
     && NoUnwanted(ns[1..]))
  }

  /** After the removal no unwanted element is left, at any depth. */
  lemma {:induction false} RemoveUnwantedClean(ns: seq<Node>)
    ensures NoUnwanted(RemoveUnwanted(ns))
    decreases ns
  {
    if ns != [] {
      var rest := RemoveUnwanted(ns[1..]);
      RemoveUnwantedClean(ns[1..]);
      match ns[0]
      case Element(tag, href, ch) =>
        if !IsUnwantedTag(tag) {
          RemoveUnwantedClean(ch);
          assert ([Element(tag, href, RemoveUnwanted(ch))] + rest)[1..] == rest;
        }
      case _ =>
        assert ([ns[0]] + rest)[1..] == rest;
    }
  }

  lemma {:induction false} RemoveUnwantedKeepsClean(ns: seq<Node>)
    requires NoUnwanted(ns)
    ensures RemoveUnwanted(ns) == ns
    decreases ns
  {
    if ns != [] {
      RemoveUnwantedKeepsClean(ns[1..]);
      match ns[0]
      case Element(tag, href, ch) =>
        RemoveUnwantedKeepsClean(ch);
      case _ =>
    }
    assert ns != [] ==> ns == [ns[0]] + ns[1..];
  }

  /** The removal changes a forest exactly when it holds an unwanted element. */
  lemma {:induction false} RemoveUnwantedIdentityIff(ns: seq<Node>)
    ensures RemoveUnwanted(ns) == ns <==> NoUnwanted(ns)
  {
    RemoveUnwantedClean(ns);
    if NoUnwanted(ns) {
      RemoveUnwantedKeepsClean(ns);
    }
  }

  /** One node: a string is kept, a wanted element is kept with its children cleaned, an unwanted one is dropped. */
  lemma RemoveUnwantedOne(n: Node)
    ensures !n.Element? ==> RemoveUnwanted([n]) == [n]
    ensures n.Element? && !IsUnwantedTag(n.tag) ==>
      RemoveUnwanted([n]) == [Element(n.tag, n.href, RemoveUnwanted(n.children))]
    ensures n.Element? && IsUnwantedTag(n.tag) ==> RemoveUnwanted([n]) == []
  {
    assert [n][1..] == [];
  }

  /** The removal works node by node: on two forests side by side it gives the two removals side by side. */
  lemma {:induction false} RemoveUnwantedAppend(a: seq<Node>, b: seq<Node>)
    ensures RemoveUnwanted(a + b) == RemoveUnwanted(a) + RemoveUnwanted(b)
    decreases |a|
  {
    if a != [] {
      RemoveUnwantedAppend(a[1..], b);
      var rest := RemoveUnwanted(a[1..]);
      assert (a + b)[0] == a[0];
      assert (a + b)[1..] == a[1..] + b;
      match a[0]
      case Element(tag, href, ch) =>
        if !IsUnwantedTag(tag) {
          var e := Element(tag, href, RemoveUnwanted(ch));
          assert RemoveUnwanted(a + b) == [e] + (rest + RemoveUnwanted(b));
          assert RemoveUnwanted(a) == [e] + rest;
        }
      case _ =>
        assert RemoveUnwanted(a + b) == [a[0]] + (rest + RemoveUnwanted(b));
    } else {
      assert a + b == b;
    }
  }

  // ---------------------------------------------------------------------------
  // Document text and the anchor rewrite

  /**
   The text a node contributes. `hidden` says whether the node lies inside a
   `template`, `rt` or `rp` element; there a parsed string is skipped, an
   inserted one is not.
   */
  function NodeText(n: Node, hidden: bool): string
    decreases n
  {
    match n
    case Text(t) => if hidden then "" else t
    case Inserted(t) => t
    case Element(tag, _, ch) => TextIn(ch, hidden || IsHiddenTextTag(tag))
  }

  /** The concatenation of the text of each node of the forest, in document order. */
  function TextIn(ns: seq<Node>, hidden: bool): string
    decreases ns
  {
    if ns == [] then "" else NodeText(ns[0], hidden) + TextIn(ns[1..], hidden)
  }

  /** The text of a forest that is not inside a hiding element (`get_text()` of the document, `.text` of an anchor). */
  function TextOf(ns: seq<Node>): string {
    TextIn(ns, false)
  }

  /** The text that replaces a linked anchor. */
  function AnchorMarkup(text: string, href: string): string {
    "[ " + text + " ]( " + href + " )"
  }

  /**
   Each linked anchor becomes one inserted string holding its markup, built from
   the anchor's whole text as seen where the anchor stands; other elements keep
   their tag and have their children rewritten.
   */
  function RewriteIn(ns: seq<Node>, hidden: bool): (r: seq<Node>)
    ensures |r| == |ns|
    decreases ns
  {
    if ns == [] then []
    else
      var head :=
        match ns[0]
        case Element(tag, href, ch) =>
          if IsLinkedAnchor(ns[0]) then Inserted(AnchorMarkup(TextIn(ch, hidden), href.value))
          else Element(tag, href, RewriteIn(ch, hidden || IsHiddenTextTag(tag)))
        case _ => ns[0];
      [head] + RewriteIn(ns[1..], hidden)
  }

  /** The anchor rewrite of the whole document. */
  function RewriteAnchors(ns: seq<Node>): seq<Node> {
    RewriteIn(ns, false)
  }

  /** No linked anchor occurs anywhere in the forest. */
  predicate NoLinkedAnchor(ns: seq<Node>)
    decreases ns
  {
    ns == [] ||
    (!IsLinkedAnchor(ns[0])
     && (ns[0].Element? ==> NoLinkedAnchor(ns[0].children))
     && NoLinkedAnchor(ns[1..]))
  }

  /** The text of two forests side by side is the concatenation of their texts. */
  lemma {:induction false} TextInAppend(a: seq<Node>, b: seq<Node>, hidden: bool)
    ensures TextIn(a + b, hidden) == TextIn(a, hidden) + TextIn(b, hidden)
    decreases a
  {
    if a != [] {
      assert (a + b)[0] == a[0];
      assert (a + b)[1..] == a[1..] + b;
      TextInAppend(a[1..], b, hidden);
      var h := NodeText(a[0], hidden);
      calc {
        TextIn(a + b, hidden);
        h + TextIn(a[1..] + b, hidden);
        h + (TextIn(a[1..], hidden) + TextIn(b, hidden));
        (h + TextIn(a[1..], hidden)) + TextIn(b, hidden);
      }
    } else {
      assert a + b == b;
      assert TextIn(a, hidden) == "";
    }
  }

  /** Inside a hiding element the parser's strings contribute nothing, at any depth. */
  lemma {:induction false} HiddenParsedText(ns: seq<Node>)
    requires Parsed(ns)
    ensures TextIn(ns, true) == ""
    decreases ns
  {
    if ns != [] {
      HiddenParsedText(ns[1..]);
      if ns[0].Element? {
        HiddenParsedText(ns[0].children);
      }
    }
  }

  /** A `template`, `rt` or `rp` element as parsed adds nothing to the text, whatever it holds. */
  lemma HiddenElementText(tag: string, href: Option<string>, ch: seq<Node>)
    requires IsHiddenTextTag(tag)
    requires Parsed(ch)
    ensures TextOf([Element(tag, href, ch)]) == ""
  {
    var n := [Element(tag, href, ch)];
    HiddenParsedText(ch);
    assert n[1..] == [];
    assert TextIn(n, false) == TextIn(ch, true) + TextIn([], false);
  }

  /** A linked anchor is replaced by exactly `[ text ]( href )`, which counts as text even where the anchor's own strings do not. */
  lemma LinkedAnchorText(ch: seq<Node>, href: string, hidden: bool)
    requires href != ""
    ensures RewriteIn([Element("a", Some(href), ch)], hidden) == [Inserted(AnchorMarkup(TextIn(ch, hidden), href))]
    ensures TextIn(RewriteIn([Element("a", Some(href), ch)], hidden), hidden) == "[ " + TextIn(ch, hidden) + " ]( " + href + " )"
  {
    var r := RewriteIn([Element("a", Some(href), ch)], hidden);
    assert [Element("a", Some(href), ch)][1..] == [];
    assert TextIn(r, hidden) == TextIn(r[..1], hidden) + TextIn(r[1..], hidden);
  }

  /** A linked anchor as the only child of a `template`, `rt` or `rp` element: its markup stays, with the anchor's own text empty. */
  lemma HiddenAnchorText(tag: string, href: string, ch: seq<Node>)
    requires IsHiddenTextTag(tag) && href != ""
    requires Parsed(ch)
    ensures TextOf(RewriteAnchors([Element(tag, None, [Element("a", Some(href), ch)])])) == "[  ]( " + href + " )"
  {
    var a := [Element("a", Some(href), ch)];
    var m := Inserted(AnchorMarkup(TextIn(ch, true), href));
    LinkedAnchorText(ch, href, true);
    HiddenParsedText(ch);
    var n := [Element(tag, None, a)];
    assert n[1..] == [];
    assert RewriteIn(n, false) == [Element(tag, None, RewriteIn(a, true))] + RewriteIn([], false);
    assert RewriteAnchors(n) == [Element(tag, None, [m])];
    assert [m][1..] == [];
    assert TextIn([Element(tag, None, [m])], false) == TextIn([m], true) + TextIn([], false);
    assert TextIn([m], true) == AnchorMarkup("", href) + TextIn([], true);
  }

  /** The i-th node of the rewrite: a linked anchor becomes its markup, anything else keeps its shape. */
  lemma {:induction false} RewriteInAt(ns: seq<Node>, hidden: bool, i: nat)
    requires i < |ns|
    ensures IsLinkedAnchor(ns[i]) ==>
      RewriteIn(ns, hidden)[i] == Inserted(AnchorMarkup(TextIn(ns[i].children, hidden), ns[i].href.value))
    ensures !ns[i].Element? ==> RewriteIn(ns, hidden)[i] == ns[i]
    ensures ns[i].Element? && !IsLinkedAnchor(ns[i]) ==>
      RewriteIn(ns, hidden)[i] == Element(ns[i].tag, ns[i].href, RewriteIn(ns[i].children, hidden || IsHiddenTextTag(ns[i].tag)))
    decreases i
  {
    if i > 0 {
      RewriteInAt(ns[1..], hidden, i - 1);
      assert ns[1..][i - 1] == ns[i];
    }
  }

  /** After the rewrite no linked anchor is left, at any depth. */
  lemma {:induction false} RewriteInClean(ns: seq<Node>, hidden: bool)
    ensures NoLinkedAnchor(RewriteIn(ns, hidden))
    decreases ns
  {
    if ns != [] {
      var r := RewriteIn(ns, hidden);
      RewriteInClean(ns[1..], hidden);
      assert r[1..] == RewriteIn(ns[1..], hidden);
      if ns[0].Element? && !IsLinkedAnchor(ns[0]) {
        RewriteInClean(ns[0].children, hidden || IsHiddenTextTag(ns[0].tag));
      }
    }
  }

  lemma {:induction false} RewriteInKeepsClean(ns: seq<Node>, hidden: bool)
    requires NoLinkedAnchor(ns)
    ensures RewriteIn(ns, hidden) == ns
    decreases ns
  {
    if ns != [] {
      RewriteInKeepsClean(ns[1..], hidden);
      if ns[0].Element? {
        RewriteInKeepsClean(ns[0].children, hidden || IsHiddenTextTag(ns[0].tag));
      }
      assert ns == [ns[0]] + ns[1..];
    }
  }

  /** The rewrite changes a forest exactly when it holds a linked anchor; so an anchor without `href` keeps its plain text. */
  lemma {:induction false} RewriteAnchorsIdentityIff(ns: seq<Node>)
    ensures RewriteAnchors(ns) == ns <==> NoLinkedAnchor(ns)
  {
    RewriteInClean(ns, false);
    if NoLinkedAnchor(ns) {
      RewriteInKeepsClean(ns, false);
    }
  }

  /** An anchor without a usable `href` is left as it is, so its text is its plain text (when nothing inside it is rewritten). */
  lemma {:induction false} UnlinkedAnchorText(href: Option<string>, ch: seq<Node>)
    requires href.None? || href == Some("")
    requires NoLinkedAnchor(ch)
    ensures TextOf(RewriteAnchors([Element("a", href, ch)])) == TextOf(ch)
  {
    var n := [Element("a", href, ch)];
    assert n[1..] == [];
    RewriteInKeepsClean(n, false);
    assert TextIn(n, false) == TextIn(ch, false) + TextIn([], false);
  }

  // ---------------------------------------------------------------------------
  // Whitespace normalisation

  /** No two adjacent spaces. */
  predicate NoDoubleSpace(s: string) {
    forall k :: 0 <= k < |s| - 1 ==> !(s[k] == ' ' && s[k + 1] == ' ')
  }

  /** `"  " not in s` is the absence of two adjacent spaces. */
  lemma DoubleSpaceIff(s: string)
    ensures Lacks(s, "  ") <==> NoDoubleSpace(s)
  {
    if Lacks(s, "  ") {
      forall k | 0 <= k < |s| - 1 ensures !(s[k] == ' ' && s[k + 1] == ' ') {
        assert !OccursAt(s, "  ", k);
        assert s[k..k + 2] == [s[k], s[k + 1]];
      }
    }
    if NoDoubleSpace(s) {
      forall k ensures !OccursAt(s, "  ", k) {
        if 0 <= k && k + 2 <= |s| {
          assert s[k..k + 2] == [s[k], s[k + 1]];
        }
      }
    }
  }

  /** A chunk as the normalisation produces it: non-empty, one line, single spaces, no whitespace at either end. */
  predicate GoodChunk(c: string) {
    && c != ""
    && NoLineBreak(c)
    && NoDoubleSpace(c)
    && !IsSpace(c[0]) && !IsSpace(c[|c| - 1])
  }

  /** The stripped phrases of one line, empty ones dropped. */
  function PhraseChunks(phrases: seq<string>): (cs: seq<string>)
    ensures |cs| <= |phrases|
    ensures forall k :: 0 <= k < |cs| ==> cs[k] != ""
  {
    if phrases == [] then []
    else
      var c := Strip(phrases[0]);
      (if c == "" then [] else [c]) + PhraseChunks(phrases[1..])
  }

  /** For every stripped line, the non-empty stripped pieces between its double spaces. */
  function LineChunks(lines: seq<string>): seq<string> {
    if lines == [] then []
    else PhraseChunks(Split(Strip(lines[0]), "  ")) + LineChunks(lines[1..])
  }

  /** The whitespace normalisation: lines stripped, split on double spaces, pieces stripped, empty pieces dropped, joined by one space. */
  function Collapse(text: string): string {
    Join(" ", LineChunks(SplitLines(text)))
  }

  /** The document text once unwanted elements are removed and linked anchors rewritten. */
  function DocumentText(doc: seq<Node>): string {
    TextOf(RewriteAnchors(RemoveUnwanted(doc)))
  }

  /** The whole post-processing of a parsed page, `text[:300000]` of the normalised document text. */
  function PageTextOf(doc: seq<Node>): (r: string)
    ensures |r| <= MaxPageChars
    ensures var full := Collapse(DocumentText(doc)); |r| <= |full| && r == full[..|r|]
    ensures |Collapse(DocumentText(doc))| <= MaxPageChars ==> r == Collapse(DocumentText(doc))
    ensures |Collapse(DocumentText(doc))| > MaxPageChars ==> |r| == MaxPageChars
  {
    var full := Collapse(DocumentText(doc));
    if |full| <= MaxPageChars then full else full[..MaxPageChars]
  }

  /** A slice keeps the characters, the single spacing and the absence of line boundaries of its string. */
  lemma SliceKeepsShape(s: string, lo: nat, hi: nat)
    requires lo <= hi <= |s|
    requires NoLineBreak(s) && NoDoubleSpace(s)
    ensures NoLineBreak(s[lo..hi]) && NoDoubleSpace(s[lo..hi])
  {
    var t := s[lo..hi];
    forall k | 0 <= k < |t| - 1 ensures !(t[k] == ' ' && t[k + 1] == ' ') {
      assert t[k] == s[lo + k] && t[k + 1] == s[lo + k + 1];
    }
    forall c | c in t ensures !IsLineBreak(c) {
      var k :| 0 <= k < |t| && t[k] == c;
      assert s[lo + k] == c;
    }
  }

  /** Stripping a one-line piece without double spaces gives nothing or a good chunk. */
  lemma StripChunk(p: string)
    requires NoLineBreak(p) && NoDoubleSpace(p)
    ensures Strip(p) == "" || GoodChunk(Strip(p))
  {
    var lo := SkipSpace(p, 0);
    SliceKeepsShape(p, lo, lo + |Strip(p)|);
  }

  lemma {:induction false} PhraseChunksGood(phrases: seq<string>)
    requires forall k :: 0 <= k < |phrases| ==> NoLineBreak(phrases[k]) && NoDoubleSpace(phrases[k])
    ensures forall k :: 0 <= k < |PhraseChunks(phrases)| ==> GoodChunk(PhraseChunks(phrases)[k])
  {
    if phrases != [] {
      StripChunk(phrases[0]);
      PhraseChunksGood(phrases[1..]);
    }
  }

  /** The pieces of a one-line string split on double spaces are one-line and free of double spaces. */
  lemma SplitPhrasesShape(line: string)
    requires NoLineBreak(line)
    ensures forall k :: 0 <= k < |Split(line, "  ")| ==>
      NoLineBreak(Split(line, "  ")[k]) && NoDoubleSpace(Split(line, "  ")[k])
  {
    var parts := Split(line, "  ");
    SplitPartsLackSeparator(line, "  ");
    forall k | 0 <= k < |parts| ensures NoLineBreak(parts[k]) && NoDoubleSpace(parts[k]) {
      DoubleSpaceIff(parts[k]);
      forall c | c in parts[k] ensures !IsLineBreak(c) {
        SplitPartChars(line, "  ", k, c);
      }
    }
  }

  lemma {:induction false} LineChunksGood(lines: seq<string>)
    requires forall k :: 0 <= k < |lines| ==> NoLineBreak(lines[k])
    ensures forall k :: 0 <= k < |LineChunks(lines)| ==> GoodChunk(LineChunks(lines)[k])
  {
    if lines != [] {
      var line := Strip(lines[0]);
      var lo := SkipSpace(lines[0], 0);
      assert NoLineBreak(line) by {
        forall c | c in line ensures !IsLineBreak(c) {
          var k :| 0 <= k < |line| && line[k] == c;
          assert lines[0][lo + k] == c;
        }
      }
      SplitPhrasesShape(line);
      PhraseChunksGood(Split(line, "  "));
      LineChunksGood(lines[1..]);
    }
  }

  /** The chunks of any text are good chunks. */
  lemma TextChunksGood(text: string)
    ensures forall k :: 0 <= k < |LineChunks(SplitLines(text))| ==> GoodChunk(LineChunks(SplitLines(text))[k])
  {
    LineChunksGood(SplitLines(text));
  }

  /** The three properties of normalised text: one line, single spaces, no whitespace at either end. */
  predicate Normalised(s: string) {
    NoLineBreak(s) && NoDoubleSpace(s) && (s == "" || (!IsSpace(s[0]) && !IsSpace(s[|s| - 1])))
  }

  /** Joining good chunks with single spaces gives normalised text, empty exactly when there are no chunks. */
  lemma {:induction false} JoinChunksNormalised(cs: seq<string>)
    requires forall k :: 0 <= k < |cs| ==> GoodChunk(cs[k])
    ensures Normalised(Join(" ", cs))
    ensures Join(" ", cs) == "" <==> cs == []
    decreases |cs|
  {
    if |cs| > 1 {
      var c := cs[0];
      var j := Join(" ", cs[1..]);
      JoinChunksNormalised(cs[1..]);
      var s := Join(" ", cs);
      assert s == c + " " + j;
      forall k | 0 <= k < |s| - 1 ensures !(s[k] == ' ' && s[k + 1] == ' ') {
        if k < |c| - 1 {
          assert s[k] == c[k] && s[k + 1] == c[k + 1];
        } else if k == |c| - 1 {
          assert s[k] == c[|c| - 1];
        } else if k == |c| {
          assert s[k + 1] == j[0];
        } else {
          assert s[k] == j[k - |c| - 1] && s[k + 1] == j[k - |c|];
        }
      }
      forall x | x in s ensures !IsLineBreak(x) {
        assert x in c || x == ' ' || x in j;
      }
      assert s[|s| - 1] == j[|j| - 1];
    }
  }

  /** Normalised text comes out of the normalisation unchanged. */
  lemma CollapseKeepsNormalised(s: string)
    requires Normalised(s)
    ensures Collapse(s) == s
  {
    if s != "" {
      assert SplitLines(s) == [s];
      assert Strip(s) == s;
      DoubleSpaceIff(s);
      ContainsIff(s, "  ");
      SplitSinglePartIff(s, "  ");
      assert Split(s, "  ") == [s];
      assert PhraseChunks([s]) == [s];
      assert LineChunks([s]) == [s] + LineChunks([]);
    }
  }

  /** The output of the normalisation is normalised: no line boundary, no `"  "`, no whitespace at either end. */
  lemma CollapseNormalised(text: string)
    ensures Normalised(Collapse(text))
    ensures Lacks(Collapse(text), "  ")
  {
    TextChunksGood(text);
    JoinChunksNormalised(LineChunks(SplitLines(text)));
    DoubleSpaceIff(Collapse(text));
  }

  /** The normalisation is idempotent. */
  lemma CollapseIdempotent(text: string)
    ensures Collapse(Collapse(text)) == Collapse(text)
  {
    CollapseNormalised(text);
    CollapseKeepsNormalised(Collapse(text));
  }

  /** The fixed points of the normalisation are exactly the normalised strings. */
  lemma CollapseFixpointIff(s: string)
    ensures Collapse(s) == s <==> Normalised(s)
  {
    CollapseNormalised(s);
    if Normalised(s) {
      CollapseKeepsNormalised(s);
    }
  }

  // ---------------------------------------------------------------------------
  // What the normalisation keeps

  /** The non-whitespace characters of `s` in order: its words, with the spacing forgotten. */
  function NonSpace(s: string): (r: string)
    ensures |r| <= |s|
    ensures forall k :: 0 <= k < |r| ==> !IsSpace(r[k])
  {
    if s == [] then [] else (if IsSpace(s[0]) then [] else [s[0]]) + NonSpace(s[1..])
  }

  lemma {:induction false} NonSpaceAppend(a: string, b: string)
    ensures NonSpace(a + b) == NonSpace(a) + NonSpace(b)
    decreases |a|
  {
    if a != [] {
      var head: string := if IsSpace(a[0]) then [] else [a[0]];
      NonSpaceAppend(a[1..], b);
      assert (a + b)[0] == a[0];
      assert (a + b)[1..] == a[1..] + b;
      calc {
        NonSpace(a + b);
        head + NonSpace(a[1..] + b);
        head + (NonSpace(a[1..]) + NonSpace(b));
        (head + NonSpace(a[1..])) + NonSpace(b);
        NonSpace(a) + NonSpace(b);
      }
    } else {
      assert a + b == b;
    }
  }

  lemma {:induction false} NonSpaceOfSpaces(s: string)
    requires forall k :: 0 <= k < |s| ==> IsSpace(s[k])
    ensures NonSpace(s) == ""
    decreases |s|
  {
    if s != [] {
      assert forall k :: 0 <= k < |s| - 1 ==> s[1..][k] == s[k + 1];
      NonSpaceOfSpaces(s[1..]);
    }
  }

  /** Stripping removes only whitespace. */
  lemma NonSpaceStrip(s: string)
    ensures NonSpace(Strip(s)) == NonSpace(s)
  {
    var lo := SkipSpace(s, 0);
    var t := Strip(s);
    var hi := lo + |t|;
    ThreeParts(s, lo, hi);
    SpacesAround(s, lo, hi);
    NonSpaceInner(s[..lo], t, s[hi..]);
  }

  /** Whitespace-only text on both sides adds no word. */
  lemma NonSpaceInner(front: string, mid: string, back: string)
    requires NonSpace(front) == "" && NonSpace(back) == ""
    ensures NonSpace(front + mid + back) == NonSpace(mid)
  {
    NonSpaceAppend(front + mid, back);
    NonSpaceAppend(front, mid);
  }

  lemma ThreeParts(s: string, lo: nat, hi: nat)
    requires lo <= hi <= |s|
    ensures s == s[..lo] + s[lo..hi] + s[hi..]
  {
  }

  lemma SpacesAround(s: string, lo: nat, hi: nat)
    requires lo <= hi <= |s|
    requires forall k :: 0 <= k < lo ==> IsSpace(s[k])
    requires forall k :: hi <= k < |s| ==> IsSpace(s[k])
    ensures NonSpace(s[..lo]) == "" && NonSpace(s[hi..]) == ""
  {
    var front, back := s[..lo], s[hi..];
    assert forall k :: 0 <= k < |front| ==> front[k] == s[k];
    NonSpaceOfSpaces(front);
    assert forall k :: 0 <= k < |back| ==> back[k] == s[hi + k];
    NonSpaceOfSpaces(back);
  }

  /** Line boundary characters are whitespace, so removing them keeps the words. */
  lemma {:induction false} NonSpaceRemoveLineBreaks(s: string)
    ensures NonSpace(RemoveLineBreaks(s)) == NonSpace(s)
    decreases |s|
  {
    if s != [] {
      var head: string := if IsLineBreak(s[0]) then [] else [s[0]];
      NonSpaceRemoveLineBreaks(s[1..]);
      NonSpaceAppend(head, RemoveLineBreaks(s[1..]));
      assert [s[0]][1..] == [];
    }
  }

  /** The words of each string of a sequence, one string after the other. */
  function NonSpaceAll(parts: seq<string>): string {
    if parts == [] then "" else NonSpace(parts[0]) + NonSpaceAll(parts[1..])
  }

  lemma {:induction false} NonSpaceAllAppend(a: seq<string>, b: seq<string>)
    ensures NonSpaceAll(a + b) == NonSpaceAll(a) + NonSpaceAll(b)
    decreases |a|
  {
    if a != [] {
      NonSpaceAllAppend(a[1..], b);
      assert (a + b)[0] == a[0];
      assert (a + b)[1..] == a[1..] + b;
      calc {
        NonSpaceAll(a + b);
        NonSpace(a[0]) + NonSpaceAll(a[1..] + b);
        NonSpace(a[0]) + (NonSpaceAll(a[1..]) + NonSpaceAll(b));
        (NonSpace(a[0]) + NonSpaceAll(a[1..])) + NonSpaceAll(b);
        NonSpaceAll(a) + NonSpaceAll(b);
      }
    } else {
      assert a + b == b;
    }
  }

  lemma {:induction false} NonSpaceConcat(parts: seq<string>)
    ensures NonSpace(Concat(parts)) == NonSpaceAll(parts)
    decreases |parts|
  {
    if parts != [] {
      NonSpaceConcat(parts[1..]);
      NonSpaceAppend(parts[0], Concat(parts[1..]));
    }
  }

  /** Joining with a whitespace separator adds no word. */
  lemma {:induction false} NonSpaceJoin(sep: string, parts: seq<string>)
    requires forall k :: 0 <= k < |sep| ==> IsSpace(sep[k])
    ensures NonSpace(Join(sep, parts)) == NonSpaceAll(parts)
    decreases |parts|
  {
    if |parts| == 1 {
      assert parts[1..] == [];
    } else if |parts| > 1 {
      NonSpaceJoin(sep, parts[1..]);
      NonSpaceAppend(parts[0] + sep, Join(sep, parts[1..]));
      NonSpaceAppend(parts[0], sep);
      NonSpaceOfSpaces(sep);
    }
  }

  /** Stripping the phrases and dropping the empty ones keeps their words. */
  lemma {:induction false} PhraseChunksKeepWords(ps: seq<string>)
    ensures NonSpaceAll(PhraseChunks(ps)) == NonSpaceAll(ps)
    decreases |ps|
  {
    if ps != [] {
      var c := Strip(ps[0]);
      PhraseChunksKeepWords(ps[1..]);
      NonSpaceStrip(ps[0]);
      NonSpaceAllAppend(if c == "" then [] else [c], PhraseChunks(ps[1..]));
      assert [c][1..] == [];
    }
  }

  /** The chunks of one line hold the words of the line. */
  lemma LineKeepsWords(l: string)
    ensures NonSpaceAll(PhraseChunks(Split(Strip(l), "  "))) == NonSpace(l)
  {
    var line := Strip(l);
    var parts := Split(line, "  ");
    PhraseChunksKeepWords(parts);
    NonSpaceJoin("  ", parts);
    SplitJoinRoundTrip(line, "  ");
    NonSpaceStrip(l);
  }

  /** The chunks of the lines hold the words of the lines, in order. */
  lemma {:induction false} LineChunksKeepWords(lines: seq<string>)
    ensures NonSpaceAll(LineChunks(lines)) == NonSpaceAll(lines)
    decreases |lines|
  {
    if lines != [] {
      var first := PhraseChunks(Split(Strip(lines[0]), "  "));
      LineChunksKeepWords(lines[1..]);
      NonSpaceAllAppend(first, LineChunks(lines[1..]));
      LineKeepsWords(lines[0]);
    }
  }

  /** The normalisation only removes or rewrites whitespace: the text's words survive, in order. */
  lemma CollapseKeepsWords(text: string)
    ensures NonSpace(Collapse(text)) == NonSpace(text)
  {
    var lines := SplitLines(text);
    NonSpaceJoin(" ", LineChunks(lines));
    LineChunksKeepWords(lines);
    NonSpaceConcat(lines);
    SplitLinesKeepsText(text);
    NonSpaceRemoveLineBreaks(text);
  }

  /**
   The page text's words are the first words of the document text, in order, and all of
   them when the normalised text fits in `MaxPageChars` characters.
   */
  lemma PageTextKeepsWords(doc: seq<Node>)
    ensures var words := NonSpace(DocumentText(doc));
      var w := NonSpace(PageTextOf(doc));
      && |w| <= |words| && w == words[..|w|]
      && (|Collapse(DocumentText(doc))| <= MaxPageChars ==> w == words)
  {
    var full := Collapse(DocumentText(doc));
    var r := PageTextOf(doc);
    CollapseKeepsWords(DocumentText(doc));
    assert full == r + full[|r|..];
    NonSpaceAppend(r, full[|r|..]);
  }

  /** The page text is one line of single-spaced text of at most `MaxPageChars` characters. */
  lemma PageTextShape(doc: seq<Node>)
    ensures |PageTextOf(doc)| <= MaxPageChars
    ensures NoLineBreak(PageTextOf(doc)) && Lacks(PageTextOf(doc), "  ")
    ensures |PageTextOf(doc)| > 0 ==> !IsSpace(PageTextOf(doc)[0])
  {
    var full := Collapse(DocumentText(doc));
    var r := PageTextOf(doc);
    CollapseNormalised(DocumentText(doc));
    SliceKeepsShape(full, 0, |r|);
    DoubleSpaceIff(r);
  }

  /** What the fetch and parse of a URL give: the parsed document, or the text of the exception raised. */
  datatype PageFetch = Fetched(doc: seq<Node>) | FetchFailed(reason: string)

  /** What `read_webpage` puts before the text of the exception. */
  const ReadErrorLead := "Error reading webpage: "

  /** `read_webpage`: the page text, or the error string the exception handler returns. */
  function ReadWebpage(f: PageFetch): (r: string)
    ensures f.Fetched? ==> r == PageTextOf(f.doc)
    ensures f.Fetched? ==> |r| <= MaxPageChars && NoLineBreak(r) && Lacks(r, "  ")
    ensures f.FetchFailed? ==> r == ReadErrorLead + f.reason
  {
    match f
    case Fetched(doc) =>
      PageTextShape(doc);
      PageTextOf(doc)
    case FetchFailed(reason) => ReadErrorLead + reason
  }
}
