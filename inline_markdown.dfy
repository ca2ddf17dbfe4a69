/**
 * Inline splitting: cutting TEXT nodes on a delimiter such as `**`, `*`,
 * `_` or a backtick, and finding `![alt](url)` images and `[caption](url)`
 * links in a text.
 */
module InlineMarkdown {
  import opened Outcomes
  import opened Strings
  import opened TextNodes

  // ---------------------------------------------------------------------
  // Delimiter splitting

  /** The kind given to section `i`: odd sections are delimited, even ones plain. */
  function SectionType(i: nat, delimitedType: TextType): TextType {
    if i % 2 != 0 then delimitedType else Text
  }

  /**
   * The nodes the comprehension in `split_node_delimiter` builds from the
   * first `n` sections: one node per non-empty section, in order.
   */
  function SectionNodes(sections: seq<string>, n: nat, delimitedType: TextType): seq<TextNode>
    requires n <= |sections|
  {
    if n == 0 then []
    else
      var i := n - 1;
      SectionNodes(sections, i, delimitedType)
        + (if sections[i] == "" then [] else [TextNode(sections[i], SectionType(i, delimitedType), None)])
  }

  /**
   * Section `i`, when non-empty, becomes the node at position "number of
   * non-empty sections before it", with kind TEXT if `i` is even and the
   * delimited kind if `i` is odd; there is one node per non-empty section.
   */
  lemma {:induction false} SectionNodesAt(sections: seq<string>, n: nat, delimitedType: TextType, i: nat)
    requires i < n <= |sections|
    requires sections[i] != ""
    ensures |SectionNodes(sections, n, delimitedType)| == NonEmptyCount(sections, n)
    ensures NonEmptyCount(sections, i) < NonEmptyCount(sections, n)
    ensures SectionNodes(sections, n, delimitedType)[NonEmptyCount(sections, i)]
         == TextNode(sections[i], SectionType(i, delimitedType), None)
    decreases n
  {
    SectionNodesLength(sections, n, delimitedType);
    if i < n - 1 {
      SectionNodesAt(sections, n - 1, delimitedType, i);
    } else {
      SectionNodesLength(sections, i, delimitedType);
    }
  }

  lemma {:induction false} SectionNodesLength(sections: seq<string>, n: nat, delimitedType: TextType)
    requires n <= |sections|
    ensures |SectionNodes(sections, n, delimitedType)| == NonEmptyCount(sections, n)
    decreases n
  {
    if n > 0 {
      SectionNodesLength(sections, n - 1, delimitedType);
    }
  }

  /** A node a delimiter split can produce: non-empty text, no url, TEXT or the delimited kind. */
  predicate SplitPiece(node: TextNode, delimitedType: TextType) {
    node.text != "" && node.url == None && (node.textType == Text || node.textType == delimitedType)
  }

  /** Every node built from sections is a split piece. */
  lemma {:induction false} SectionNodesShape(sections: seq<string>, n: nat, delimitedType: TextType)
    requires n <= |sections|
    ensures forall k :: 0 <= k < |SectionNodes(sections, n, delimitedType)| ==>
      SplitPiece(SectionNodes(sections, n, delimitedType)[k], delimitedType)
    decreases n
  {
    if n > 0 {
      SectionNodesShape(sections, n - 1, delimitedType);
      var prefix := SectionNodes(sections, n - 1, delimitedType);
      var last: seq<TextNode> := if sections[n - 1] == "" then [] else [TextNode(sections[n - 1], SectionType(n - 1, delimitedType), None)];
      assert SectionNodes(sections, n, delimitedType) == prefix + last;
      forall k | 0 <= k < |prefix + last|
        ensures SplitPiece((prefix + last)[k], delimitedType)
      {
        if k < |prefix| {
          assert (prefix + last)[k] == prefix[k];
        } else {
          assert (prefix + last)[k] == last[0];
        }
      }
    }
  }

  /** The texts of the nodes built from sections concatenate to the sections'. */
  lemma {:induction false} SectionNodesTexts(sections: seq<string>, n: nat, delimitedType: TextType)
    requires n <= |sections|
    ensures Texts(SectionNodes(sections, n, delimitedType)) == Concat(sections[..n])
    decreases n
  {
    if n > 0 {
      var i := n - 1;
      var prefix := SectionNodes(sections, i, delimitedType);
      var last := if sections[i] == "" then [] else [TextNode(sections[i], SectionType(i, delimitedType), None)];
      SectionNodesTexts(sections, i, delimitedType);
      TextsAppend(prefix, last);
      assert sections[..n] == sections[..i] + [sections[i]];
      ConcatAppend(sections[..i], [sections[i]]);
      assert Concat([sections[i]]) == sections[i];
      assert Texts(last) == sections[i];
    }
  }

  function NoClosingMessage(delimiter: string, text: string): string {
    "No closing '" + delimiter + "' delimiter found in input text: \"" + text + "\""
  }

  /**
   * `split_node_delimiter`: a node that is not TEXT comes back alone; a
   * TEXT node whose text splits into an even number of sections (an odd
   * number of delimiters) fails with a message quoting the delimiter and the
   * text; otherwise the non-empty sections come back, delimited on odd
   * indexes, and their texts spell the input with the delimiters removed.
   */
  function SplitNodeDelimiter(node: TextNode, delimiter: string, delimitedType: TextType): (r: Result<seq<TextNode>>)
    ensures node.textType != Text ==> r == Ok([node])
    ensures node.textType == Text && delimiter == "" ==> r == Err(ValueError("empty separator"))
    ensures node.textType == Text && delimiter != "" ==>
      (r.Err? <==> |Split(node.text, delimiter)| % 2 == 0)
    ensures node.textType == Text && delimiter != "" && r.Err? ==>
      r.error == ValueError(NoClosingMessage(delimiter, node.text))
    ensures node.textType == Text && r.Ok? ==>
      && |delimiter| > 0
      && (forall k :: 0 <= k < |r.value| ==> SplitPiece(r.value[k], delimitedType))
      && Texts(r.value) == RemoveAll(node.text, delimiter)
  {
    if node.textType != Text then Ok([node])
    else if delimiter == "" then Err(ValueError("empty separator"))
    else
      var sections := Split(node.text, delimiter);
      if |sections| % 2 == 0 then Err(ValueError(NoClosingMessage(delimiter, node.text)))
      else
        SectionNodesShape(sections, |sections|, delimitedType);
        SectionNodesTexts(sections, |sections|, delimitedType);
        SplitConcat(node.text, delimiter);
        assert sections[..|sections|] == sections;
        Ok(SectionNodes(sections, |sections|, delimitedType))
  }

  /** What `split_nodes_delimiter` returns: each node's split, extended in order. */
  function SplitAll(nodes: seq<TextNode>, delimiter: string, delimitedType: TextType): Result<seq<TextNode>> {
    ExtendAll(nodes, node => SplitNodeDelimiter(node, delimiter, delimitedType))
  }

  /** `split_nodes_delimiter`: extends a fresh list with each node's split. */
  method SplitNodesDelimiter(oldNodes: seq<TextNode>, delimiter: string, delimitedType: TextType)
    returns (r: Result<seq<TextNode>>)
    ensures r == SplitAll(oldNodes, delimiter, delimitedType)
  {
    var newNodes: seq<TextNode> := [];
    var i := 0;
    while i < |oldNodes|
      invariant 0 <= i <= |oldNodes|
      invariant SplitAll(oldNodes[..i], delimiter, delimitedType) == Ok(newNodes)
    {
      var part := SplitNodeDelimiter(oldNodes[i], delimiter, delimitedType);
      assert oldNodes[..i + 1][..i] == oldNodes[..i];
      assert oldNodes[..i + 1][i] == oldNodes[i];
      if part.Err? {
        ExtendAllAppend(oldNodes[..i + 1], oldNodes[i + 1..], node => SplitNodeDelimiter(node, delimiter, delimitedType));
        assert oldNodes[..i + 1] + oldNodes[i + 1..] == oldNodes;
        return Err(part.error);
      }
      newNodes := newNodes + part.value;
      i := i + 1;
    }
    assert oldNodes[..i] == oldNodes;
    return Ok(newNodes);
  }

  // ---------------------------------------------------------------------
  // Image and link extraction

  /** One regex match: the text `s[start..stop]`, and its two groups. */
  datatype Match = Match(start: nat, stop: nat, caption: string, url: string)

  /** Which of the two fixed patterns is searched for. */
  datatype Pattern = ImagePattern | LinkPattern

  const LabelStops: set<char> := {'[', ']'}
  const UrlStops: set<char> := {'(', ')'}

  /** The first index from `i` on whose character is in `stops`, or `|s|`. */
  function ScanTo(s: string, i: nat, stops: set<char>): (j: nat)
    requires i <= |s|
    ensures i <= j <= |s|
    ensures forall k :: i <= k < j ==> s[k] !in stops
    ensures j < |s| ==> s[j] in stops
    decreases |s| - i
  {
    if i == |s| || s[i] in stops then i else ScanTo(s, i + 1, stops)
  }

  /**
   * `\[([^\[\]]*)]\(([^()]*)\)` tried at index `p`: both character classes
   * are greedy and exclude the character that ends them, so the caption ends
   * at the first `[` or `]` and the url at the first `(` or `)`.
   */
  function BracketAt(s: string, p: nat): (r: Option<Match>)
    requires p <= |s|
    ensures r.Some? ==> r.value.start == p < r.value.stop <= |s|
  {
    if p < |s| && s[p] == '[' then
      var q := ScanTo(s, p + 1, LabelStops);
      if q + 1 < |s| && s[q] == ']' && s[q + 1] == '(' then
        var e := ScanTo(s, q + 2, UrlStops);
        if e < |s| && s[e] == ')' then Some(Match(p, e + 1, s[p + 1..q], s[q + 2..e]))
        else None
      else None
    else None
  }

  /**
   * The match of a pattern at index `p`, if any: an image needs a `!`
   * before the bracket; a link's bracket must not follow a `!` (the
   * negative lookbehind `(?<!!)`).
   */
  function MatchAt(s: string, p: nat, pattern: Pattern): (r: Option<Match>)
    requires p <= |s|
    ensures r.Some? ==> r.value.start == p < r.value.stop <= |s|
  {
    match pattern
    case ImagePattern =>
      if p < |s| && s[p] == '!' then
        match BracketAt(s, p + 1)
        case Some(m) => Some(m.(start := p))
        case None => None
      else None
    case LinkPattern =>
      if p > 0 && s[p - 1] == '!' then None else BracketAt(s, p)
  }

  /** The source text of a match: `![caption](url)` or `[caption](url)`. */
  function Written(pattern: Pattern, caption: string, url: string): string {
    (if pattern == ImagePattern then "!" else "") + ("[" + (caption + ("](" + (url + ")"))))
  }

  predicate Avoids(s: string, chars: set<char>) {
    forall k :: 0 <= k < |s| ==> s[k] !in chars
  }

  /** The regex reading of a match at `p`, stated without a scan. */
  predicate WrittenAt(s: string, p: nat, pattern: Pattern, caption: string, url: string) {
    && OccursAt(s, Written(pattern, caption, url), p)
    && Avoids(caption, LabelStops)
    && Avoids(url, UrlStops)
    && (pattern == LinkPattern ==> p == 0 || s[p - 1] != '!')
  }

  /** The pattern is written with these groups at some position of `s`. */
  predicate WrittenSomewhere(s: string, pattern: Pattern, caption: string, url: string) {
    exists p: nat :: p <= |s| && WrittenAt(s, p, pattern, caption, url)
  }

  /** `[caption](url)` sits in `s` at index `b`, piece by piece. */
  predicate BracketShape(s: string, b: nat, caption: string, url: string) {
    var q := b + 1 + |caption|;
    var e := q + 2 + |url|;
    && e < |s|
    && s[b] == '[' && OccursAt(s, caption, b + 1) && s[q] == ']' && s[q + 1] == '('
    && OccursAt(s, url, q + 2) && s[e] == ')'
  }

  /** `[caption](url)` as written in the text. */
  function Bracketed(caption: string, url: string): string {
    "[" + (caption + ("](" + (url + ")")))
  }

  /** Five pieces written one after another occur at `k` exactly when each occurs where the last ended. */
  lemma OccursFive(s: string, k: nat, a: string, x: string, c: string, y: string, d: string)
    ensures OccursAt(s, a + (x + (c + (y + d))), k) <==>
      && OccursAt(s, a, k)
      && OccursAt(s, x, k + |a|)
      && OccursAt(s, c, k + |a| + |x|)
      && OccursAt(s, y, k + |a| + |x| + |c|)
      && OccursAt(s, d, k + |a| + |x| + |c| + |y|)
  {
    OccursConcat(s, a, x + (c + (y + d)), k);
    OccursConcat(s, x, c + (y + d), k + |a|);
    OccursConcat(s, c, y + d, k + |a| + |x|);
    OccursConcat(s, y, d, k + |a| + |x| + |c|);
  }

  /** The single characters of `[caption](url)` at their places. */
  lemma BracketChars(s: string, b: nat, q: nat, e: nat)
    requires b < q && q + 1 < e
    ensures OccursAt(s, "[", b) && OccursAt(s, "](", q) && OccursAt(s, ")", e) <==>
      e < |s| && s[b] == '[' && s[q] == ']' && s[q + 1] == '(' && s[e] == ')'
  {
    if e < |s| {
      OccursChar(s, '[', b);
      OccursChar(s, ')', e);
      assert s[q..q + 2] == [s[q], s[q + 1]];
    }
  }

  lemma BracketedShape(s: string, b: nat, caption: string, url: string)
    ensures OccursAt(s, Bracketed(caption, url), b) <==> BracketShape(s, b, caption, url)
  {
    var q := b + 1 + |caption|;
    OccursFive(s, b, "[", caption, "](", url, ")");
    BracketChars(s, b, q, q + 2 + |url|);
  }

  lemma WrittenShape(s: string, p: nat, pattern: Pattern, caption: string, url: string)
    ensures var b := if pattern == ImagePattern then p + 1 else p;
      OccursAt(s, Written(pattern, caption, url), p) <==>
        && (pattern == ImagePattern ==> p < |s| && s[p] == '!')
        && BracketShape(s, b, caption, url)
  {
    var b := if pattern == ImagePattern then p + 1 else p;
    BracketedShape(s, b, caption, url);
    if pattern == ImagePattern {
      assert Written(pattern, caption, url) == "!" + Bracketed(caption, url);
      OccursConcat(s, "!", Bracketed(caption, url), p);
      if p < |s| {
        OccursChar(s, '!', p);
      }
    } else {
      assert Written(pattern, caption, url) == Bracketed(caption, url);
    }
  }

  lemma ScanToStopsAt(s: string, i: nat, stops: set<char>, j: nat)
    requires i <= j < |s|
    requires s[j] in stops
    requires forall k :: i <= k < j ==> s[k] !in stops
    ensures ScanTo(s, i, stops) == j
  {
  }

  /** A bracket match found by the scan has the shape the regex describes. */
  lemma BracketAtSound(s: string, b: nat)
    requires b <= |s|
    requires BracketAt(s, b).Some?
    ensures var m := BracketAt(s, b).value;
      && BracketShape(s, b, m.caption, m.url)
      && Avoids(m.caption, LabelStops) && Avoids(m.url, UrlStops)
      && m.stop == b + 4 + |m.caption| + |m.url|
  {
    var q := ScanTo(s, b + 1, LabelStops);
    var e := ScanTo(s, q + 2, UrlStops);
    var m := BracketAt(s, b).value;
    assert m.caption == s[b + 1..q] && m.url == s[q + 2..e];
  }

  /** Every match the scan finds is written in the text at its start, as the regex reads it. */
  lemma MatchAtSound(s: string, p: nat, pattern: Pattern)
    requires p <= |s|
    requires MatchAt(s, p, pattern).Some?
    ensures var m := MatchAt(s, p, pattern).value;
      && WrittenAt(s, p, pattern, m.caption, m.url)
      && m.stop == p + |Written(pattern, m.caption, m.url)|
  {
    var m := MatchAt(s, p, pattern).value;
    var b := if pattern == ImagePattern then p + 1 else p;
    BracketAtSound(s, b);
    WrittenShape(s, p, pattern, m.caption, m.url);
  }

  /** A scan from `i` runs over a piece free of stops and halts at the stop after it. */
  lemma ScanOver(s: string, i: nat, t: string, stops: set<char>)
    requires OccursAt(s, t, i) && Avoids(t, stops)
    requires i + |t| < |s| && s[i + |t|] in stops
    ensures ScanTo(s, i, stops) == i + |t|
  {
    forall k | i <= k < i + |t|
      ensures s[k] !in stops
    {
      assert s[i..i + |t|][k - i] == s[k];
    }
    ScanToStopsAt(s, i, stops, i + |t|);
  }

  /** A bracket written with a free caption and url is found by the scan. */
  lemma BracketAtComplete(s: string, b: nat, caption: string, url: string)
    requires BracketShape(s, b, caption, url)
    requires Avoids(caption, LabelStops) && Avoids(url, UrlStops)
    ensures BracketAt(s, b) == Some(Match(b, b + 4 + |caption| + |url|, caption, url))
  {
    var q := b + 1 + |caption|;
    ScanOver(s, b + 1, caption, LabelStops);
    ScanOver(s, q + 2, url, UrlStops);
  }

  /** Whatever the regex would match at `p` is what the scan returns there. */
  lemma MatchAtComplete(s: string, p: nat, pattern: Pattern, caption: string, url: string)
    requires p <= |s|
    requires WrittenAt(s, p, pattern, caption, url)
    ensures MatchAt(s, p, pattern) == Some(Match(p, p + |Written(pattern, caption, url)|, caption, url))
  {
    WrittenShape(s, p, pattern, caption, url);
    var b := if pattern == ImagePattern then p + 1 else p;
    BracketAtComplete(s, b, caption, url);
  }

  /** A text position that starts an image never starts a link at its bracket. */
  lemma ImageExcludesLink(s: string, p: nat)
    requires p < |s|
    requires MatchAt(s, p, ImagePattern).Some?
    ensures MatchAt(s, p + 1, LinkPattern) == None
  {
  }

  /**
   * `re.findall` from index `p`: try the pattern at each position; after a
   * match continue at its end, otherwise at the next position.
   */
  function FindAll(s: string, p: nat, pattern: Pattern): seq<Match>
    requires p <= |s|
    decreases |s| - p
  {
    if p == |s| then []
    else
      match MatchAt(s, p, pattern)
      case Some(m) => [m] + FindAll(s, m.stop, pattern)
      case None => FindAll(s, p + 1, pattern)
  }

  /** Some match of `ms` spans position `q`. */
  predicate Covered(ms: seq<Match>, q: int) {
    exists i :: 0 <= i < |ms| && ms[i].start <= q < ms[i].stop
  }

  /** Each of `ms` is the scan's match at its own start, all at or after `p`, left to right without overlap. */
  predicate SoundMatches(s: string, p: nat, pattern: Pattern, ms: seq<Match>) {
    && (forall i :: 0 <= i < |ms| ==> p <= ms[i].start < ms[i].stop <= |s|)
    && (forall i :: 0 <= i < |ms| - 1 ==> ms[i].stop <= ms[i + 1].start)
    && (forall m :: m in ms ==> Found(s, pattern, m))
  }

  /** `m` is the scan's match at its own start. */
  predicate Found(s: string, pattern: Pattern, m: Match) {
    m.start <= |s| && MatchAt(s, m.start, pattern) == Some(m)
  }

  /**
   * The matches found from `p` lie at or after `p`, are the scan's match at
   * their own start, and come left to right without overlapping.
   */
  lemma {:induction false} FindAllSound(s: string, p: nat, pattern: Pattern)
    requires p <= |s|
    ensures SoundMatches(s, p, pattern, FindAll(s, p, pattern))
    decreases |s| - p
  {
    if p < |s| {
      match MatchAt(s, p, pattern)
      case Some(m) =>
        assert FindAll(s, p, pattern) == [m] + FindAll(s, m.stop, pattern);
        FindAllSound(s, m.stop, pattern);
        SoundCons(s, p, pattern, m, FindAll(s, m.stop, pattern));
      case None =>
        FindAllSound(s, p + 1, pattern);
    }
  }

  /** A match at `p` followed by sound matches from its end is a sound sequence from `p`. */
  lemma SoundCons(s: string, p: nat, pattern: Pattern, m: Match, rest: seq<Match>)
    requires p <= |s| && MatchAt(s, p, pattern) == Some(m)
    requires SoundMatches(s, m.stop, pattern, rest)
    ensures SoundMatches(s, p, pattern, [m] + rest)
  {
    var ms := [m] + rest;
    assert Found(s, pattern, m);
    forall i | 0 <= i < |ms|
      ensures p <= ms[i].start < ms[i].stop <= |s|
    {
      if i > 0 {
        assert ms[i] == rest[i - 1];
      }
    }
    forall i | 0 <= i < |ms| - 1
      ensures ms[i].stop <= ms[i + 1].start
    {
      assert ms[i + 1] == rest[i];
    }
  }

  /** Every position from `p` on where the pattern matches is inside some found match. */
  lemma {:induction false} FindAllComplete(s: string, p: nat, pattern: Pattern, q: nat)
    requires p <= q < |s|
    requires MatchAt(s, q, pattern).Some?
    ensures Covered(FindAll(s, p, pattern), q)
    decreases |s| - p
  {
    var ms := FindAll(s, p, pattern);
    match MatchAt(s, p, pattern)
    case Some(m) =>
      assert ms == [m] + FindAll(s, m.stop, pattern);
      if q < m.stop {
        assert ms[0].start <= q < ms[0].stop;
      } else {
        FindAllComplete(s, m.stop, pattern, q);
        var rest := FindAll(s, m.stop, pattern);
        var i :| 0 <= i < |rest| && rest[i].start <= q < rest[i].stop;
        assert ms[i + 1] == rest[i];
      }
    case None =>
      FindAllComplete(s, p + 1, pattern, q);
  }

  /** The two groups of each match, in order. */
  function Pairs(ms: seq<Match>): (pairs: seq<(string, string)>)
    ensures |pairs| == |ms|
  {
    if ms == [] then [] else [(ms[0].caption, ms[0].url)] + Pairs(ms[1..])
  }

  lemma {:induction false} PairsAt(ms: seq<Match>)
    ensures forall i :: 0 <= i < |ms| ==> Pairs(ms)[i] == (ms[i].caption, ms[i].url)
  {
    if ms != [] {
      PairsAt(ms[1..]);
    }
  }

  /**
   * One step of the scan at a match: when `acc` followed by the groups
   * found from `p` is the whole result, the match's groups move into `acc`
   * and the scan resumes at its end.
   */
  lemma GroupsStep(s: string, p: nat, pattern: Pattern, m: Match, acc: seq<(string, string)>, all: seq<(string, string)>)
    requires p < |s| && MatchAt(s, p, pattern) == Some(m)
    requires acc + Pairs(FindAll(s, p, pattern)) == all
    ensures acc + [(m.caption, m.url)] + Pairs(FindAll(s, m.stop, pattern)) == all
  {
    var ms := FindAll(s, m.stop, pattern);
    assert FindAll(s, p, pattern) == [m] + ms;
    assert ([m] + ms)[1..] == ms;
    assert Pairs([m] + ms) == [(m.caption, m.url)] + Pairs(ms);
    assert acc + [(m.caption, m.url)] + Pairs(ms) == acc + ([(m.caption, m.url)] + Pairs(ms));
  }

  /** Where nothing matches, the scan moves on by one position. */
  lemma NoMatchStep(s: string, p: nat, pattern: Pattern)
    requires p < |s| && MatchAt(s, p, pattern).None?
    ensures FindAll(s, p, pattern) == FindAll(s, p + 1, pattern)
  {
  }

  /** The `re.findall` scan: returns the two groups of each match, left to right. */
  method FindAllGroups(text: string, pattern: Pattern) returns (pairs: seq<(string, string)>)
    ensures pairs == Pairs(FindAll(text, 0, pattern))
  {
    pairs := [];
    var p := 0;
    ghost var all := Pairs(FindAll(text, 0, pattern));
    assert [] + all == all;
    while p < |text|
      invariant 0 <= p <= |text|
      invariant pairs + Pairs(FindAll(text, p, pattern)) == all
    {
      var m := MatchAt(text, p, pattern);
      if m.Some? {
        GroupsStep(text, p, pattern, m.value, pairs, all);
        pairs := pairs + [(m.value.caption, m.value.url)];
        p := m.value.stop;
      } else {
        NoMatchStep(text, p, pattern);
        p := p + 1;
      }
    }
    assert pairs + [] == pairs;
  }

  /**
   * Each pair is the two groups of the pattern written at some position of
   * the text: groups free of their stop characters and, for a link, no `!`
   * just before the `[`.
   */
  lemma GroupsWritten(text: string, pattern: Pattern)
    ensures var pairs := Pairs(FindAll(text, 0, pattern));
      forall i :: 0 <= i < |pairs| ==> WrittenSomewhere(text, pattern, pairs[i].0, pairs[i].1)
  {
    var ms := FindAll(text, 0, pattern);
    var pairs := Pairs(ms);
    FindAllSound(text, 0, pattern);
    PairsAt(ms);
    forall i | 0 <= i < |pairs|
      ensures WrittenSomewhere(text, pattern, pairs[i].0, pairs[i].1)
    {
      var m := ms[i];
      assert Found(text, pattern, m);
      MatchAtSound(text, m.start, pattern);
      assert WrittenAt(text, m.start, pattern, pairs[i].0, pairs[i].1);
    }
  }

  /**
   * `extract_markdown_images`: the (alt, url) of every non-overlapping
   * `![alt](url)`, left to right; alt has no brackets and url no parentheses.
   */
  method ExtractMarkdownImages(text: string) returns (pairs: seq<(string, string)>)
    ensures pairs == Pairs(FindAll(text, 0, ImagePattern))
    ensures forall i :: 0 <= i < |pairs| ==> WrittenSomewhere(text, ImagePattern, pairs[i].0, pairs[i].1)
  {
    pairs := FindAllGroups(text, ImagePattern);
    GroupsWritten(text, ImagePattern);
  }

  /**
   * `extract_markdown_links`: the (caption, url) of every non-overlapping
   * `[caption](url)` whose `[` does not follow a `!`, left to right.
   */
  method ExtractMarkdownLinks(text: string) returns (pairs: seq<(string, string)>)
    ensures pairs == Pairs(FindAll(text, 0, LinkPattern))
    ensures forall i :: 0 <= i < |pairs| ==> WrittenSomewhere(text, LinkPattern, pairs[i].0, pairs[i].1)
  {
    pairs := FindAllGroups(text, LinkPattern);
    GroupsWritten(text, LinkPattern);
  }
}
