/**
  * The markdown-link scanner of the facts display: the pattern
  * `\[([^\]]+)\]\(([^)]+)\)` run left to right over a string, splitting it
  * into text and link parts, and the two global replacements that produce
  * the cleaned content.
  */
module LinkScan {
  import opened Common
  import opened Strings

  /** One piece of a scanned string: a run of plain text, or one markdown link. */
  datatype Part = Text(content: string) | Link(text: string, url: string)

  /** An entry of the `links` list. */
  datatype LinkRef = LinkRef(text: string, url: string)

  /** What the scanner returns. */
  datatype Extraction = Extraction(cleanedContent: string, links: seq<LinkRef>, parts: seq<Part>)

  /** A match of the link pattern: `s[start..end]` is the whole `[text](url)`. */
  datatype Match = Match(start: nat, end: nat, text: string, url: string)

  /** The markdown spelling of a link. */
  function LinkSyntax(text: string, url: string): (r: string)
    ensures |r| == |text| + |url| + 4
  {
    "[" + text + "](" + url + ")"
  }

  /** Where the brackets, the text and the url sit in `[text](url)`. */
  lemma LinkSyntaxChars(text: string, url: string)
    ensures var l := LinkSyntax(text, url);
      && l[0] == '[' && l[|text| + 1] == ']' && l[|text| + 2] == '(' && l[|l| - 1] == ')'
      && (forall t :: 0 <= t < |text| ==> l[t + 1] == text[t])
      && (forall t :: 0 <= t < |url| ==> l[|text| + 3 + t] == url[t])
  {
  }

  /** The two capture groups the pattern admits: one or more non-`]`, one or more non-`)`. */
  predicate LinkShaped(text: string, url: string) {
    |text| > 0 && ']' !in text && |url| > 0 && ')' !in url
  }

  /** Where the regex engine is after the opening `[`: inside the text group, or inside the url group after `](` at `close`. */
  datatype Phase = InText | InUrl(close: nat)

  /** The character that ends the group the engine is in. */
  function Stop(ph: Phase): char {
    if ph.InText? then ']' else ')'
  }

  /**
    * The regex engine reading `s[pos]` for a match that began at `start`.
    * `[^\]]+` and `[^)]+` cannot give back characters usefully, so each group
    * runs to the first character that ends it: the first `]` must follow at
    * least one character and be followed by `(`, the first `)` after that must
    * follow at least one character, and otherwise there is no match at `start`.
    */
  function Engine(s: string, start: nat, pos: nat, ph: Phase): Option<Match>
    requires start < pos <= |s|
    requires ph.InUrl? ==> start + 1 < ph.close && ph.close + 2 <= pos
    decreases |s| - pos
  {
    if pos == |s| then None
    else if s[pos] != Stop(ph) then Engine(s, start, pos + 1, ph)
    else match ph
      case InText =>
        if pos > start + 1 && pos + 1 < |s| && s[pos + 1] == '(' then Engine(s, start, pos + 2, InUrl(pos)) else None
      case InUrl(j) =>
        if pos > j + 2 then Some(Match(start, pos + 1, s[start + 1..j], s[j + 2..pos])) else None
  }

  /** What the engine has read so far obeys the pattern. */
  predicate EngineReadOk(s: string, start: nat, pos: nat, ph: Phase)
    requires start < pos <= |s|
  {
    && s[start] == '['
    && (ph.InText? ==> forall k :: start < k < pos ==> s[k] != ']')
    && (ph.InUrl? ==> start + 1 < ph.close && ph.close + 2 <= pos && s[ph.close] == ']' && s[ph.close + 1] == '(')
    && (ph.InUrl? ==> forall k :: start < k < ph.close ==> s[k] != ']')
    && (ph.InUrl? ==> forall k :: ph.close + 2 <= k < pos ==> s[k] != ')')
  }

  /** A match the engine reports spells a well-shaped link starting at `start`. */
  lemma {:induction false} EngineSound(s: string, start: nat, pos: nat, ph: Phase)
    requires start < pos <= |s| && EngineReadOk(s, start, pos, ph)
    requires ph.InUrl? ==> start + 1 < ph.close && ph.close + 2 <= pos
    ensures Engine(s, start, pos, ph).Some? ==>
      var m := Engine(s, start, pos, ph).value;
      && m.start == start && m.end == start + |LinkSyntax(m.text, m.url)| && m.end <= |s|
      && LinkShaped(m.text, m.url) && s[start..m.end] == LinkSyntax(m.text, m.url)
    decreases |s| - pos
  {
    if pos < |s| {
      if s[pos] != Stop(ph) {
        EngineSound(s, start, pos + 1, ph);
      } else {
        match ph
        case InText =>
          if pos > start + 1 && pos + 1 < |s| && s[pos + 1] == '(' {
            EngineSound(s, start, pos + 2, InUrl(pos));
          }
        case InUrl(j) =>
          if pos > j + 2 {
            LinkSpelled(s, start, j, pos);
          }
      }
    }
  }

  /** The characters between a `[`, the first `]` followed by `(`, and the first `)` after it spell a link. */
  lemma LinkSpelled(s: string, start: nat, j: nat, pos: nat)
    requires start + 1 < j && j + 2 < pos < |s|
    requires s[start] == '[' && s[j] == ']' && s[j + 1] == '(' && s[pos] == ')'
    requires forall k :: start < k < j ==> s[k] != ']'
    requires forall k :: j + 2 <= k < pos ==> s[k] != ')'
    ensures LinkShaped(s[start + 1..j], s[j + 2..pos])
    ensures s[start..pos + 1] == LinkSyntax(s[start + 1..j], s[j + 2..pos])
  {
    var text, url := s[start + 1..j], s[j + 2..pos];
    assert ']' !in text by {
      forall t | 0 <= t < |text| ensures text[t] != ']' { assert text[t] == s[start + 1 + t]; }
    }
    assert ')' !in url by {
      forall t | 0 <= t < |url| ensures url[t] != ')' { assert url[t] == s[j + 2 + t]; }
    }
    assert s[start..pos + 1] == [s[start]] + text + [s[j], s[j + 1]] + url + [s[pos]];
  }

  /** The engine passes over characters that do not end its group. */
  lemma {:induction false} EngineSkips(s: string, start: nat, pos: nat, q: nat, ph: Phase)
    requires start < pos <= q <= |s|
    requires ph.InUrl? ==> start + 1 < ph.close && ph.close + 2 <= pos
    requires forall k :: pos <= k < q ==> s[k] != Stop(ph)
    ensures Engine(s, start, pos, ph) == Engine(s, start, q, ph)
    decreases q - pos
  {
    if pos < q {
      EngineSkips(s, start, pos + 1, q, ph);
    }
  }

  /** The link pattern anchored at `i`: a `[` there, then the engine. */
  function MatchAt(s: string, i: nat): (r: Option<Match>)
    ensures r.Some? ==> r.value.start == i && r.value.end == i + |LinkSyntax(r.value.text, r.value.url)|
    ensures r.Some? ==> r.value.end <= |s| && LinkShaped(r.value.text, r.value.url)
    ensures r.Some? ==> s[i..r.value.end] == LinkSyntax(r.value.text, r.value.url)
  {
    if i < |s| && s[i] == '[' then
      EngineSound(s, i, i + 1, InText);
      Engine(s, i, i + 1, InText)
    else None
  }

  lemma SliceOfSlice(s: string, a: nat, b: nat, c: nat, d: nat)
    requires a <= b <= |s| && c <= d <= b - a
    ensures s[a..b][c..d] == s[a + c..a + d]
  {
    assert forall t :: 0 <= t < d - c ==> s[a..b][c..d][t] == s[a + c + t];
  }

  /** Where `[text](url)` occurs at `i`, the brackets and the groups sit at their offsets. */
  lemma LinkSpelledAt(s: string, i: nat, text: string, url: string)
    requires i + |LinkSyntax(text, url)| <= |s|
    requires s[i..i + |LinkSyntax(text, url)|] == LinkSyntax(text, url)
    ensures var j, k := i + 1 + |text|, i + 3 + |text| + |url|;
      && s[i] == '[' && s[j] == ']' && s[j + 1] == '(' && s[k] == ')'
      && s[i + 1..j] == text && s[j + 2..k] == url
  {
    var l := LinkSyntax(text, url);
    var j := i + 1 + |text|;
    var k := j + 2 + |url|;
    var m := s[i..i + |l|];
    assert m[0] == '[' && m[j - i] == ']' && m[j + 1 - i] == '(' && m[k - i] == ')' by {
      LinkSyntaxChars(text, url);
    }
    SliceOfSlice(s, i, i + |l|, 1, j - i);
    SliceOfSlice(s, i, i + |l|, j + 2 - i, k - i);
    assert l[1..j - i] == text && l[j + 2 - i..k - i] == url by {
      assert l == ("[" + text + "](") + url + ")";
      assert l == "[" + text + ("](" + url + ")");
    }
  }

  /** Conversely, every occurrence of `[text](url)` with well-shaped groups is the match at its start. */
  lemma MatchAtRecognises(s: string, i: nat, text: string, url: string)
    requires LinkShaped(text, url)
    requires i + |LinkSyntax(text, url)| <= |s|
    requires s[i..i + |LinkSyntax(text, url)|] == LinkSyntax(text, url)
    ensures MatchAt(s, i) == Some(Match(i, i + |LinkSyntax(text, url)|, text, url))
  {
    var j := i + 1 + |text|;
    var k := j + 2 + |url|;
    LinkSpelledAt(s, i, text, url);
    assert Engine(s, i, i + 1, InText) == Engine(s, i, j, InText) by {
      forall t | i + 1 <= t < j ensures s[t] != ']' {
        assert s[i + 1..j][t - i - 1] == s[t];
      }
      EngineSkips(s, i, i + 1, j, InText);
    }
    assert Engine(s, i, j + 2, InUrl(j)) == Engine(s, i, k, InUrl(j)) by {
      forall t | j + 2 <= t < k ensures s[t] != ')' {
        assert s[j + 2..k][t - j - 2] == s[t];
      }
      EngineSkips(s, i, j + 2, k, InUrl(j));
    }
    assert Engine(s, i, j, InText) == Engine(s, i, j + 2, InUrl(j));
    assert Engine(s, i, k, InUrl(j)) == Some(Match(i, k + 1, text, url));
  }

  /** `linkRegex.exec(s)` with `lastIndex == from`: the leftmost match at or after `from`. */
  function FindMatch(s: string, from: nat): (r: Option<Match>)
    ensures r.Some? ==> from <= r.value.start && MatchAt(s, r.value.start) == r
    ensures r.Some? ==> forall i :: from <= i < r.value.start ==> MatchAt(s, i).None?
    ensures r.None? ==> forall i :: from <= i < |s| ==> MatchAt(s, i).None?
    decreases |s| - from
  {
    if from >= |s| then None
    else match MatchAt(s, from)
      case Some(m) => Some(m)
      case None => FindMatch(s, from + 1)
  }

  /** No position of `s` starts a link. */
  ghost predicate NoLinks(s: string) {
    forall i :: 0 <= i < |s| ==> MatchAt(s, i).None?
  }

  /** `s.replace(linkRegex, '')` from position `p` on: a match is dropped whole, any other character kept. */
  function StripLinksFrom(s: string, p: nat): (r: string)
    requires p <= |s|
    ensures |r| <= |s| - p
    decreases |s| - p
  {
    if p == |s| then ""
    else match MatchAt(s, p)
      case Some(m) => StripLinksFrom(s, m.end)
      case None => [s[p]] + StripLinksFrom(s, p + 1)
  }

  /** `s.replace(linkRegex, '')`: never longer than `s`, and `s` itself when it holds no link. */
  function StripLinks(s: string): (r: string)
    ensures |r| <= |s|
    ensures NoLinks(s) ==> r == s
  {
    StripLinksLinkless(s);
    StripLinksFrom(s, 0)
  }

  lemma StripLinksLinkless(s: string)
    ensures NoLinks(s) ==> StripLinksFrom(s, 0) == s
  {
    if NoLinks(s) {
      StripLinksNoMatch(s, 0);
    }
  }

  /** The end of a match of `\s*\(\s*\)` anchored at `i`, if there is one. */
  function EmptyParensAt(s: string, i: nat): (r: Option<nat>)
    requires i <= |s|
    ensures r.Some? ==> i + 2 <= r.value <= |s|
    ensures r.Some? ==> var a := SkipSpaces(s, i);
      && a < r.value - 1 && s[a] == '(' && s[r.value - 1] == ')'
      && (forall k :: i <= k < r.value - 1 && k != a ==> IsSpace(s[k]))
  {
    var a := SkipSpaces(s, i);
    if a < |s| && s[a] == '(' then
      var b := SkipSpaces(s, a + 1);
      if b < |s| && s[b] == ')' then Some(b + 1) else None
    else None
  }

  /** Conversely, white space, `(`, white space, `)` starting at `i` is matched there. */
  lemma EmptyParensAtRecognises(s: string, i: nat, a: nat, b: nat)
    requires i <= a < b < |s|
    requires AllSpace(s[i..a]) && s[a] == '('
    requires AllSpace(s[a + 1..b]) && s[b] == ')'
    ensures EmptyParensAt(s, i) == Some(b + 1)
  {
    assert forall k :: i <= k < a ==> IsSpace(s[k]) by {
      forall k | i <= k < a ensures IsSpace(s[k]) { assert s[i..a][k - i] == s[k]; }
    }
    assert forall k :: a + 1 <= k < b ==> IsSpace(s[k]) by {
      forall k | a + 1 <= k < b ensures IsSpace(s[k]) { assert s[a + 1..b][k - a - 1] == s[k]; }
    }
    assert !IsSpace('(') && !IsSpace(')');
    SkipSpacesStopsAt(s, i, a);
    SkipSpacesStopsAt(s, a + 1, b);
  }

  lemma SkipSpacesStopsAt(s: string, i: nat, a: nat)
    requires i <= a < |s| && !IsSpace(s[a])
    requires forall k :: i <= k < a ==> IsSpace(s[k])
    ensures SkipSpaces(s, i) == a
  {
  }

  /** `s.replace(/\s*\(\s*\)/g, '')` from position `p` on: one left-to-right pass. */
  function CleanParensFrom(s: string, p: nat): (r: string)
    requires p <= |s|
    ensures |r| <= |s| - p
    decreases |s| - p
  {
    if p == |s| then ""
    else match EmptyParensAt(s, p)
      case Some(e) => CleanParensFrom(s, e)
      case None => [s[p]] + CleanParensFrom(s, p + 1)
  }

  function CleanParens(s: string): string {
    CleanParensFrom(s, 0)
  }

  /** The `cleanedContent` of a string: links deleted, then empty parentheses deleted. */
  function Cleaned(s: string): (r: string)
    ensures |r| <= |s|
  {
    CleanParens(StripLinks(s))
  }

  /** One `exec` step of the replacement: the text before the leftmost match is kept verbatim, the match dropped. */
  lemma {:induction false} StripLinksBeforeMatch(s: string, p: nat, m: Match)
    requires p <= |s| && FindMatch(s, p) == Some(m)
    ensures StripLinksFrom(s, p) == s[p..m.start] + StripLinksFrom(s, m.end)
    decreases |s| - p
  {
    if MatchAt(s, p).None? {
      assert FindMatch(s, p) == FindMatch(s, p + 1);
      StripLinksBeforeMatch(s, p + 1, m);
      assert s[p..m.start] == [s[p]] + s[p + 1..m.start];
    }
  }

  /** Past the last match the replacement keeps the rest of the string verbatim. */
  lemma {:induction false} StripLinksNoMatch(s: string, p: nat)
    requires p <= |s| && FindMatch(s, p).None?
    ensures StripLinksFrom(s, p) == s[p..]
    decreases |s| - p
  {
    if p < |s| {
      assert MatchAt(s, p).None?;
      assert FindMatch(s, p) == FindMatch(s, p + 1);
      StripLinksNoMatch(s, p + 1);
      assert s[p..] == [s[p]] + s[p + 1..];
    }
  }

  /** The characters a part stands for in the scanned string. */
  function PartSyntax(p: Part): string {
    match p
    case Text(c) => c
    case Link(t, u) => LinkSyntax(t, u)
  }

  /** The parts re-rendered: text verbatim, each link as `[text](url)`. */
  function Reassemble(parts: seq<Part>): string {
    if |parts| == 0 then "" else Reassemble(parts[..|parts| - 1]) + PartSyntax(parts[|parts| - 1])
  }

  /** The text parts' contents, concatenated. */
  function TextOf(parts: seq<Part>): string {
    if |parts| == 0 then ""
    else
      var last := parts[|parts| - 1];
      TextOf(parts[..|parts| - 1]) + (if last.Text? then last.content else "")
  }

  /** The link parts, in order, as entries of the `links` list. */
  function LinksOf(parts: seq<Part>): seq<LinkRef> {
    if |parts| == 0 then []
    else
      var last := parts[|parts| - 1];
      LinksOf(parts[..|parts| - 1]) + (if last.Link? then [LinkRef(last.text, last.url)] else [])
  }

  /** No empty text part, no two text parts side by side, every link shaped as the pattern demands. */
  ghost predicate WellSplit(parts: seq<Part>) {
    && (forall k :: 0 <= k < |parts| && parts[k].Text? ==> parts[k].content != "")
    && (forall k :: 0 <= k < |parts| && parts[k].Link? ==> LinkShaped(parts[k].text, parts[k].url))
    && (forall k :: 0 <= k < |parts| - 1 ==> parts[k].Link? || parts[k + 1].Link?)
  }

  /**
    * The part placed at offset `o` of `s` is what the pattern says is there:
    * a link part is the match at `o`, and no position inside a text part starts a match.
    */
  ghost predicate PartAgrees(s: string, p: Part, o: nat) {
    match p
    case Text(c) => forall i :: o <= i < o + |c| ==> MatchAt(s, i).None?
    case Link(t, u) => MatchAt(s, o) == Some(Match(o, o + |LinkSyntax(t, u)|, t, u))
  }

  /** Every part agrees with the pattern at the offset where it sits in `s`, the parts starting at `o`. */
  ghost predicate AgreesAt(s: string, parts: seq<Part>, o: nat) {
    |parts| == 0 ||
    (AgreesAt(s, parts[..|parts| - 1], o) && PartAgrees(s, parts[|parts| - 1], o + |Reassemble(parts[..|parts| - 1])|))
  }

  ghost predicate Agrees(s: string, parts: seq<Part>) {
    AgreesAt(s, parts, 0)
  }

  /** The parts cover `s[..c]`: they re-render it, agree with the pattern, and their text is what the replacement keeps of it. */
  ghost predicate Covers(s: string, parts: seq<Part>, c: nat) {
    && c <= |s|
    && Reassemble(parts) == s[..c]
    && Agrees(s, parts)
    && WellSplit(parts)
    && TextOf(parts) + StripLinksFrom(s, c) == StripLinks(s)
  }

  /** Pushing the text run `s[c..e]`, which holds no match, after a link (or at the start). */
  lemma AddText(s: string, parts: seq<Part>, c: nat, e: nat)
    requires Covers(s, parts, c) && (parts == [] || parts[|parts| - 1].Link?)
    requires c < e <= |s|
    requires forall i :: c <= i < e ==> MatchAt(s, i).None?
    requires StripLinksFrom(s, c) == s[c..e] + StripLinksFrom(s, e)
    ensures Covers(s, parts + [Text(s[c..e])], e)
  {
    var p := Text(s[c..e]);
    AppendPart(parts, p);
    AppendReassemble(s, parts, p, c, e);
    AppendWellSplit(parts, p);
    AppendAgrees(s, parts, p, c);
    AppendStrip(s, parts, p, c, e);
  }

  /** Pushing the match found at `m.start`. */
  lemma AddLink(s: string, parts: seq<Part>, m: Match)
    requires Covers(s, parts, m.start) && MatchAt(s, m.start) == Some(m)
    ensures Covers(s, parts + [Link(m.text, m.url)], m.end)
  {
    var p := Link(m.text, m.url);
    AppendPart(parts, p);
    AppendReassemble(s, parts, p, m.start, m.end);
    AppendWellSplit(parts, p);
    MatchAgrees(s, m);
    AppendAgrees(s, parts, p, m.start);
    assert StripLinksFrom(s, m.start) == StripLinksFrom(s, m.end);
    AppendStrip(s, parts, p, m.start, m.end);
  }

  lemma ConcatAssoc(a: string, b: string, c: string)
    ensures a + b + c == a + (b + c)
  {
  }

  lemma MatchAgrees(s: string, m: Match)
    requires MatchAt(s, m.start) == Some(m)
    ensures PartAgrees(s, Link(m.text, m.url), m.start)
  {
    assert m == Match(m.start, m.start + |LinkSyntax(m.text, m.url)|, m.text, m.url);
  }

  lemma AppendReassemble(s: string, parts: seq<Part>, p: Part, c: nat, e: nat)
    requires c <= e <= |s| && Reassemble(parts) == s[..c] && PartSyntax(p) == s[c..e]
    ensures Reassemble(parts + [p]) == s[..e]
  {
    AppendPart(parts, p);
    assert s[..e] == s[..c] + s[c..e];
  }

  lemma AppendWellSplit(parts: seq<Part>, p: Part)
    requires WellSplit(parts)
    requires p.Text? ==> p.content != "" && (parts == [] || parts[|parts| - 1].Link?)
    requires p.Link? ==> LinkShaped(p.text, p.url)
    ensures WellSplit(parts + [p])
  {
    var parts' := parts + [p];
    assert forall k :: 0 <= k < |parts| ==> parts'[k] == parts[k];
  }

  lemma AppendAgrees(s: string, parts: seq<Part>, p: Part, c: nat)
    requires Agrees(s, parts) && |Reassemble(parts)| == c && PartAgrees(s, p, c)
    ensures Agrees(s, parts + [p])
  {
    assert (parts + [p])[..|parts|] == parts;
  }

  lemma AppendStrip(s: string, parts: seq<Part>, p: Part, c: nat, e: nat)
    requires c <= e <= |s|
    requires TextOf(parts) + StripLinksFrom(s, c) == StripLinks(s)
    requires StripLinksFrom(s, c) == (if p.Text? then p.content else "") + StripLinksFrom(s, e)
    ensures TextOf(parts + [p]) + StripLinksFrom(s, e) == StripLinks(s)
  {
    AppendPart(parts, p);
    ConcatAssoc(TextOf(parts), if p.Text? then p.content else "", StripLinksFrom(s, e));
  }

  /** One iteration of the scanning loop: the gap before the leftmost match (if any), then the match. */
  lemma ScanStep(s: string, parts: seq<Part>, c: nat, m: Match, parts': seq<Part>)
    requires Covers(s, parts, c) && (parts == [] || parts[|parts| - 1].Link?)
    requires FindMatch(s, c) == Some(m)
    requires parts' == (if m.start > c then parts + [Text(s[c..m.start])] else parts) + [Link(m.text, m.url)]
    ensures Covers(s, parts', m.end) && parts'[|parts'| - 1].Link?
    ensures LinksOf(parts') == LinksOf(parts) + [LinkRef(m.text, m.url)]
  {
    StripLinksBeforeMatch(s, c, m);
    var mid := if m.start > c then parts + [Text(s[c..m.start])] else parts;
    if m.start > c {
      AddText(s, parts, c, m.start);
      AppendLinks(parts, Text(s[c..m.start]));
    }
    AddLink(s, mid, m);
    AppendLinks(mid, Link(m.text, m.url));
  }

  /** After the loop: the text after the last match becomes the final part. */
  lemma ScanRest(s: string, parts: seq<Part>, c: nat)
    requires Covers(s, parts, c) && (parts == [] || parts[|parts| - 1].Link?)
    requires FindMatch(s, c).None? && c < |s|
    ensures Covers(s, parts + [Text(s[c..])], |s|)
  {
    var rest := s[c..|s|];
    assert s[c..] == rest;
    assert Covers(s, parts + [Text(rest)], |s|) by {
      assert StripLinksFrom(s, c) == rest + StripLinksFrom(s, |s|) by {
        StripLinksNoMatch(s, c);
      }
      AddText(s, parts, c, |s|);
    }
  }

  /**
   * What the scan of `content` yields: parts that re-render it, each agreeing with the pattern
   * where it sits, no two text parts adjacent; the links and the replacement's text read off
   * those parts; and the cleaned text.
   */
  ghost predicate Extracted(content: string, r: Extraction) {
    && Reassemble(r.parts) == content
    && Agrees(content, r.parts)
    && WellSplit(r.parts)
    && r.links == LinksOf(r.parts)
    && TextOf(r.parts) == StripLinks(content)
    && r.cleanedContent == Cleaned(content)
  }

  /**
    * `extractLinksFromContent`: the `exec` loop that splits `content` into
    * parts and collects links, then the two replacements for the cleaned content.
    */
  method ExtractLinksFromContent(content: string) returns (r: Extraction)
    ensures Extracted(content, r)
  {
    var links: seq<LinkRef> := [];
    var parts: seq<Part> := [];
    var lastIndex: nat := 0;
    var found := FindMatch(content, lastIndex);
    while found.Some?
      invariant found == FindMatch(content, lastIndex)
      invariant Covers(content, parts, lastIndex)
      invariant parts == [] || parts[|parts| - 1].Link?
      invariant links == LinksOf(parts)
      decreases |content| - lastIndex
    {
      var m := found.value;
      ghost var before := parts;
      if m.start > lastIndex {
        parts := parts + [Text(content[lastIndex..m.start])];
      }
      links := links + [LinkRef(m.text, m.url)];
      parts := parts + [Link(m.text, m.url)];
      ScanStep(content, before, lastIndex, m, parts);
      lastIndex := m.end;
      found := FindMatch(content, lastIndex);
    }
    if lastIndex < |content| {
      ScanRest(content, parts, lastIndex);
      AppendLinks(parts, Text(content[lastIndex..]));
      parts := parts + [Text(content[lastIndex..])];
    }
    CoversAll(content, parts);
    r := Extraction(Cleaned(content), links, parts);
  }

  /** Parts that cover the whole string re-render it, and their text is what the replacement keeps. */
  lemma CoversAll(s: string, parts: seq<Part>)
    requires Covers(s, parts, |s|)
    ensures Reassemble(parts) == s && TextOf(parts) == StripLinks(s)
    ensures Agrees(s, parts) && WellSplit(parts)
  {
    assert s[..|s|] == s;
    assert TextOf(parts) + "" == TextOf(parts);
  }

  lemma AppendLinks(parts: seq<Part>, p: Part)
    ensures LinksOf(parts + [p]) == LinksOf(parts) + (if p.Link? then [LinkRef(p.text, p.url)] else [])
  {
    assert (parts + [p])[..|parts|] == parts;
  }

  /** The folds over parts, after one more part. */
  lemma AppendPart(parts: seq<Part>, p: Part)
    ensures (parts + [p])[..|parts|] == parts
    ensures Reassemble(parts + [p]) == Reassemble(parts) + PartSyntax(p)
    ensures TextOf(parts + [p]) == TextOf(parts) + (if p.Text? then p.content else "")
    ensures LinksOf(parts + [p]) == LinksOf(parts) + (if p.Link? then [LinkRef(p.text, p.url)] else [])
  {
    assert (parts + [p])[..|parts|] == parts;
  }

  /** Only the empty string splits into no parts, and it splits into nothing else. */
  lemma EmptySplit(s: string, parts: seq<Part>)
    requires WellSplit(parts) && Reassemble(parts) == s
    ensures s == "" <==> parts == []
  {
    if |parts| > 0 {
      var last := parts[|parts| - 1];
      assert |PartSyntax(last)| > 0;
    }
  }

  /** A part sequence that agrees with a string holding no link has only text parts. */
  lemma {:induction false} OnlyTextWithoutLinks(s: string, parts: seq<Part>)
    requires Agrees(s, parts) && NoLinks(s)
    ensures forall k :: 0 <= k < |parts| ==> parts[k].Text?
    decreases |parts|
  {
    if |parts| > 0 {
      var prefix := parts[..|parts| - 1];
      OnlyTextWithoutLinks(s, prefix);
      assert forall k :: 0 <= k < |prefix| ==> parts[k] == prefix[k];
    }
  }

  /** A non-empty string without links is one text part; the contract admits no other split. */
  lemma NoLinksSplit(s: string, parts: seq<Part>)
    requires Reassemble(parts) == s && Agrees(s, parts) && WellSplit(parts)
    requires s != "" && NoLinks(s)
    ensures parts == [Text(s)]
  {
    OnlyTextWithoutLinks(s, parts);
    EmptySplit(s, parts);
    assert |parts| < 2;
    assert parts[..0] == [];
    assert Reassemble(parts) == PartSyntax(parts[0]);
    assert parts == [parts[0]];
  }

  /** The scan of the empty string, and of a non-empty string without links. */
  lemma ExtractEdgeCases(content: string, r: Extraction)
    requires Extracted(content, r)
    ensures content == "" ==> r == Extraction("", [], [])
    ensures content != "" && NoLinks(content) ==> r.parts == [Text(content)] && r.links == []
    ensures content != "" && NoLinks(content) ==> r.cleanedContent == CleanParens(content)
  {
    EmptySplit(content, r.parts);
    if content != "" && NoLinks(content) {
      NoLinksSplit(content, r.parts);
      assert r.parts[..0] == [];
      assert LinksOf(r.parts) == [];
      StripLinksNoMatch(content, 0);
    }
    if content == "" {
      assert r.parts == [];
    }
  }

  /** Where no `[` remains, the link replacement keeps everything. */
  lemma {:induction false} StripLinksWithoutBracket(s: string, p: nat)
    requires p <= |s|
    requires forall k :: p <= k < |s| ==> s[k] != '['
    ensures StripLinksFrom(s, p) == s[p..]
    decreases |s| - p
  {
    if p < |s| {
      StripLinksWithoutBracket(s, p + 1);
      assert s[p..] == [s[p]] + s[p + 1..];
    }
  }

  /** One link amid bracket-free text: the link is deleted and the text around it kept. */
  lemma StripOneLink(a: string, text: string, url: string, b: string)
    requires LinkShaped(text, url) && '[' !in a && '[' !in b
    ensures StripLinks(a + LinkSyntax(text, url) + b) == a + b
  {
    var s := a + LinkSyntax(text, url) + b;
    var e := |a| + |LinkSyntax(text, url)|;
    assert s[|a|..e] == LinkSyntax(text, url);
    MatchAtRecognises(s, |a|, text, url);
    assert forall k :: e <= k < |s| ==> s[k] == b[k - e];
    StripLinksWithoutBracket(s, e);
    assert s[e..] == b;
    StripLinksPrefix(s, 0, |a|, e);
    assert forall k :: 0 <= k < |a| ==> s[k] == a[k];
    assert s[0..|a|] == a;
  }

  /** Before a link at `m`, with no `[` in between, the replacement keeps the text and drops the link. */
  lemma {:induction false} StripLinksPrefix(s: string, p: nat, m: nat, e: nat)
    requires p <= m <= |s| && (forall k :: p <= k < m ==> s[k] != '[')
    requires MatchAt(s, m).Some? && MatchAt(s, m).value.end == e
    ensures StripLinksFrom(s, p) == s[p..m] + StripLinksFrom(s, e)
    decreases m - p
  {
    if p < m {
      StripLinksPrefix(s, p + 1, m, e);
      assert MatchAt(s, p).None?;
      assert StripLinksFrom(s, p) == [s[p]] + StripLinksFrom(s, p + 1);
      assert s[p..m] == [s[p]] + s[p + 1..m];
      ConcatAssoc([s[p]], s[p + 1..m], StripLinksFrom(s, e));
    } else {
      assert StripLinksFrom(s, m) == StripLinksFrom(s, e);
    }
  }

  /** What the cleanup keeps of the prose: every character that is neither white space nor a parenthesis. */
  function Prose(s: string): (r: string)
    ensures |r| <= |s|
  {
    if |s| == 0 then ""
    else (if IsSpace(s[0]) || s[0] == '(' || s[0] == ')' then "" else [s[0]]) + Prose(s[1..])
  }

  lemma {:induction false} ProseConcat(a: string, b: string)
    ensures Prose(a + b) == Prose(a) + Prose(b)
    decreases |a|
  {
    if |a| > 0 {
      ProseConcat(a[1..], b);
      assert (a + b)[0] == a[0];
      assert (a + b)[1..] == a[1..] + b;
      var x := if IsSpace(a[0]) || a[0] == '(' || a[0] == ')' then "" else [a[0]];
      assert Prose(a + b) == x + (Prose(a[1..]) + Prose(b));
      assert x + (Prose(a[1..]) + Prose(b)) == (x + Prose(a[1..])) + Prose(b);
    } else {
      assert a + b == b;
    }
  }

  lemma {:induction false} ProseOfPunctuation(a: string)
    requires forall k :: 0 <= k < |a| ==> IsSpace(a[k]) || a[k] == '(' || a[k] == ')'
    ensures Prose(a) == ""
    decreases |a|
  {
    if |a| > 0 {
      ProseOfPunctuation(a[1..]);
    }
  }

  /** The prose of `s[p..]` is that of `s[p..e]` followed by that of `s[e..]`. */
  lemma ProseSkips(s: string, p: nat, e: nat)
    requires p <= e <= |s|
    ensures Prose(s[p..]) == Prose(s[p..e]) + Prose(s[e..])
  {
    assert s[p..] == s[p..e] + s[e..];
    ProseConcat(s[p..e], s[e..]);
  }

  /** A match of the empty-parentheses pattern holds no prose. */
  lemma EmptyParensProse(s: string, p: nat, e: nat)
    requires p <= |s| && EmptyParensAt(s, p) == Some(e)
    ensures Prose(s[p..e]) == ""
  {
    var m := s[p..e];
    assert forall k :: 0 <= k < |m| ==> m[k] == s[p + k];
    ProseOfPunctuation(m);
  }

  /** The cleanup deletes only white space and parentheses: all other characters survive, in order. */
  lemma {:induction false} CleanParensKeepsProse(s: string, p: nat)
    requires p <= |s|
    ensures Prose(CleanParensFrom(s, p)) == Prose(s[p..])
    decreases |s| - p
  {
    if p < |s| {
      match EmptyParensAt(s, p)
      case Some(e) =>
        assert Prose(CleanParensFrom(s, e)) == Prose(s[e..]) by {
          CleanParensKeepsProse(s, e);
        }
        assert Prose(s[p..]) == Prose(s[p..e]) + Prose(s[e..]) by {
          ProseSkips(s, p, e);
        }
        assert Prose(s[p..e]) == "" by {
          EmptyParensProse(s, p, e);
        }
      case None =>
        CleanParensKeepsProse(s, p + 1);
        ProseSkips(s, p, p + 1);
        assert s[p..p + 1] == [s[p]];
        ProseConcat([s[p]], CleanParensFrom(s, p + 1));
    }
  }

  /** Without an opening parenthesis there is nothing to clean. */
  lemma {:induction false} CleanParensWithoutParen(s: string, p: nat)
    requires p <= |s| && (forall k :: p <= k < |s| ==> s[k] != '(')
    ensures CleanParensFrom(s, p) == s[p..]
    decreases |s| - p
  {
    if p < |s| {
      CleanParensWithoutParen(s, p + 1);
      assert s[p..] == [s[p]] + s[p + 1..];
    }
  }

  /**
    * Trailing empty parentheses go, with the white space before them; nothing
    * else in a parenthesis-free text changes.
    */
  lemma TrailingEmptyParens(t: string)
    requires '(' !in t
    ensures CleanParens(t + "()") == t[..SkipSpacesBack(t, |t|, 0)]
  {
    var b := SkipSpacesBack(t, |t|, 0);
    TrailingEmptyParensFrom(t, 0);
    assert t[0..b] == t[..b];
  }

  lemma EmptyParensAtEnd(t: string)
    requires '(' !in t
    ensures EmptyParensAt(t + "()", SkipSpacesBack(t, |t|, 0)) == Some(|t| + 2)
  {
    var s := t + "()";
    var b := SkipSpacesBack(t, |t|, 0);
    assert forall k :: b <= k < |t| ==> s[k] == t[k];
    assert s[|t|] == '(' && s[|t| + 1] == ')';
    SkipSpacesStopsAt(s, b, |t|);
    SkipSpacesStopsAt(s, |t| + 1, |t| + 1);
  }

  lemma NoEmptyParensBefore(t: string, p: nat)
    requires '(' !in t && p < SkipSpacesBack(t, |t|, 0)
    ensures EmptyParensAt(t + "()", p).None?
  {
    var s := t + "()";
    var b := SkipSpacesBack(t, |t|, 0);
    var a := SkipSpaces(s, p);
    assert !IsSpace(s[b - 1]) by { assert s[b - 1] == t[b - 1]; }
    assert a <= b - 1;
    assert s[a] != '(' by { assert s[a] == t[a]; }
  }

  lemma {:induction false} TrailingEmptyParensFrom(t: string, p: nat)
    requires '(' !in t && p <= SkipSpacesBack(t, |t|, 0)
    ensures CleanParensFrom(t + "()", p) == t[p..SkipSpacesBack(t, |t|, 0)]
    decreases |t| - p
  {
    var s := t + "()";
    var b := SkipSpacesBack(t, |t|, 0);
    if p == b {
      EmptyParensAtEnd(t);
    } else {
      NoEmptyParensBefore(t, p);
      TrailingEmptyParensFrom(t, p + 1);
      assert s[p] == t[p];
      assert t[p..b] == [s[p]] + t[p + 1..b];
    }
  }

  /** The example of the source comment: `text. ([link](url))` cleans to `text.`. */
  lemma CleanedExample()
    ensures Cleaned("text. ([link](url))") == "text."
  {
    ExampleLinkStripped();
    ExampleParensCleaned();
  }

  lemma ExampleLinkStripped()
    ensures StripLinks("text. ([link](url))") == "text. " + "()"
  {
    assert "text. ([link](url))" == "text. (" + LinkSyntax("link", "url") + ")";
    StripOneLink("text. (", "link", "url", ")");
    assert "text. (" + ")" == "text. " + "()";
  }

  lemma ExampleParensCleaned()
    ensures CleanParens("text. " + "()") == "text."
  {
    TrailingEmptyParens("text. ");
    assert SkipSpacesBack("text. ", 6, 0) == 5;
  }

  /** A fact that ends in ` ()` without any link loses the parentheses and the space before them. */
  lemma CleanedTrailingParens()
    ensures Cleaned("Acquired the company. ()") == "Acquired the company."
  {
    var t := "Acquired the company. ";
    assert "Acquired the company. ()" == t + "()";
    assert StripLinks(t + "()") == t + "()" by {
      StripLinksWithoutBracket(t + "()", 0);
      assert (t + "()")[0..] == t + "()";
    }
    assert CleanParens(t + "()") == "Acquired the company." by {
      TrailingEmptyParens(t);
      assert SkipSpacesBack(t, |t|, 0) == |t| - 1;
    }
  }

  /** One pass only: removing the inner `()` of `(())` leaves a new `()` that stays. */
  lemma CleanParensSinglePass()
    ensures CleanParens("(())") == "()"
  {
    var s := "(())";
    assert EmptyParensAt(s, 0).None?;
    assert EmptyParensAt(s, 1) == Some(3);
    assert EmptyParensAt(s, 3).None?;
  }

  /** Re-rendering, read from the front: the first part, then the rest. */
  lemma {:induction false} ReassembleFront(p: seq<Part>)
    requires |p| > 0
    ensures Reassemble(p) == PartSyntax(p[0]) + Reassemble(p[1..])
    decreases |p|
  {
    var init := p[..|p| - 1];
    if |p| > 1 {
      ReassembleFront(init);
      assert p[1..][..|p| - 2] == init[1..];
      assert p[1..][|p| - 2] == p[|p| - 1];
      ConcatAssoc(PartSyntax(p[0]), Reassemble(init[1..]), PartSyntax(p[|p| - 1]));
    } else {
      assert init == [] && p[1..] == [];
    }
  }

  /** The tail of a well-split list is well split, and its first part is not empty. */
  lemma WellSplitTail(p: seq<Part>)
    requires |p| > 0 && WellSplit(p)
    ensures WellSplit(p[1..])
    ensures |PartSyntax(p[0])| > 0
  {
    var r := p[1..];
    assert forall k :: 0 <= k < |r| ==> r[k] == p[k + 1];
  }

  /** The first part of an agreeing split agrees at the split's start. */
  lemma {:induction false} AgreesFirst(s: string, p: seq<Part>, o: nat)
    requires |p| > 0 && AgreesAt(s, p, o)
    ensures PartAgrees(s, p[0], o)
    decreases |p|
  {
    var init := p[..|p| - 1];
    if |p| > 1 {
      AgreesFirst(s, init, o);
      assert init[0] == p[0];
    } else {
      assert init == [];
    }
  }

  /** A non-empty part agreeing at the start of `[text](url)` is that link: a text part cannot start on a match. */
  lemma FirstPartIsLink(text: string, url: string, x: Part)
    requires LinkShaped(text, url) && PartAgrees(LinkSyntax(text, url), x, 0) && |PartSyntax(x)| > 0
    ensures x == Link(text, url)
  {
    MatchAtRecognises(LinkSyntax(text, url), 0, text, url);
  }

  /** `[text](url)` alone admits exactly one split: the link itself. */
  lemma SingleLinkSplit(text: string, url: string, parts: seq<Part>)
    requires LinkShaped(text, url)
    requires Reassemble(parts) == LinkSyntax(text, url) && Agrees(LinkSyntax(text, url), parts) && WellSplit(parts)
    ensures parts == [Link(text, url)]
  {
    var s := LinkSyntax(text, url);
    assert parts != [] by {
      EmptySplit(s, parts);
    }
    var rest := parts[1..];
    assert Reassemble(parts) == PartSyntax(parts[0]) + Reassemble(rest) by {
      ReassembleFront(parts);
    }
    assert |PartSyntax(parts[0])| > 0 && WellSplit(rest) by {
      WellSplitTail(parts);
    }
    assert parts[0] == Link(text, url) by {
      AgreesFirst(s, parts, 0);
      FirstPartIsLink(text, url, parts[0]);
    }
    assert rest == [] by {
      EmptySplit("", rest);
    }
    assert parts == [parts[0]] + rest;
  }

  /** The extraction of `[text](url)`: one link, one link part, nothing left to show. */
  lemma SingleLinkExtraction(text: string, url: string, r: Extraction)
    requires LinkShaped(text, url) && Extracted(LinkSyntax(text, url), r)
    ensures r.parts == [Link(text, url)]
    ensures r.links == [LinkRef(text, url)]
    ensures r.cleanedContent == ""
  {
    var s := LinkSyntax(text, url);
    var parts := [Link(text, url)];
    SingleLinkSplit(text, url, r.parts);
    assert parts[..0] == [];
    assert LinksOf(parts) == [LinkRef(text, url)];
    assert StripLinks(s) == TextOf(parts) == "";
  }
}
