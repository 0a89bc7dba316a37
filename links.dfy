/** `get_links`: for every line holding `<a href=`, cut a candidate link out
    of the line by nested slicing, keep it when it is non-empty, is not a
    fragment (`#...`) and passes the same-site test, make it absolute when it
    is a path, and append it to the caller's list of links. */
module Links {
  import opened PyStr
  import opened Wrappers

  const Anchor: string := "<a href="
  const AnchorEnd: string := "</a>"

  /** The characters of `"http://"` and of `"https://"`: `str.strip` takes
      its argument as a set of characters to remove, not as a prefix. */
  const HttpChars: set<char> := {'h', 't', 'p', ':', '/'}
  const HttpsChars: set<char> := {'h', 't', 'p', 's', ':', '/'}

  lemma SchemeCharSets()
    ensures HttpChars == CharSet("http://") && HttpsChars == CharSet("https://")
  {
    var http, https := "http://", "https://";
    assert http[0] == 'h' && http[1] == 't' && http[3] == 'p' && http[4] == ':' && http[5] == '/';
    assert https[4] == 's';
  }

  /** `url.strip("http://").strip("https://")`: what the same-site test looks
      for in a candidate link. The contract below only bounds the result; the
      host text itself is fixed by the two `Strip` calls, each of which is
      fully specified. */
  function Host(url: string): (r: string)
    ensures Contains(url, r)
    ensures r == [] || (r[0] !in HttpsChars && r[|r| - 1] !in HttpsChars)
  {
    StripBoth(url, HttpChars, HttpsChars)
  }

  /** `s.strip(a).strip(b)` for any two character sets: a piece of `s`
      with no character of `b` at either end. */
  function StripBoth(s: string, a: set<char>, b: set<char>): (r: string)
    ensures Contains(s, r)
    ensures r == [] || (r[0] !in b && r[|r| - 1] !in b)
  {
    var once := Strip(s, a);
    var r := Strip(once, b);
    ContainsTransitive(s, once, r);
    r
  }

  /** The host text has no scheme character left at either end, so taking
      the host of it again changes nothing. */
  lemma {:induction false} HostStable(url: string)
    ensures Host(Host(url)) == Host(url)
  {
    var h := Host(url);
    LStripStops(h, HttpChars);
    RStripStops(h, HttpChars);
    LStripStops(h, HttpsChars);
    RStripStops(h, HttpsChars);
  }

  /** An `http://` in front of a URL makes no difference to its host text:
      the scheme's characters are stripped as a set, together with any of
      them that the URL itself starts with. */
  lemma SchemeIgnored(rest: string)
    ensures Host("http://" + rest) == Host(rest)
  {
    var scheme := "http://";
    forall i | 0 <= i < |scheme| ensures scheme[i] in HttpChars {
    }
    LStripSkips(scheme, rest, HttpChars);
  }

  /** `line[line.find('<a href=') + 9 : line.find('</a>') - 1]`: from 9
      characters after the `<a href=` (skipping the opening quote) to one
      character before the first `</a>`. A `find` that answers -1 becomes a
      negative slice bound, which counts from the end of the line, and
      crossed bounds give the empty string. */
  function AnchorSlice(line: string): (r: string)
    requires Contains(line, Anchor)
    ensures var start := Find(line, Anchor) + 9;
      OccursAt(line, r, if start <= |line| then start else |line|)
  {
    PySlice(line, Find(line, Anchor) + 9, Find(line, AnchorEnd) - 1)
  }

  /** `s[:s.find('>')]` and then `[:find('"')]` of what is left: the text
      up to the first `>` and then up to the first `"`. When a character is
      missing, the bound -1 drops the last character instead. */
  function CutLink(s: string): (r: string)
    ensures |r| <= |s| && r == s[..|r|]
    ensures '>' !in r && '"' !in r
  {
    var p1 := PyPrefix(s, Find(s, ">"));
    var p2 := PyPrefix(p1, Find(p1, "\""));
    CutBeforeFirst(s, '>');
    CutBeforeFirst(p1, '"');
    assert forall c :: c in p2 ==> c in p1 by {
      forall c | c in p2 ensures c in p1 {
        var j :| 0 <= j < |p2| && p2[j] == c;
        assert p1[j] == c;
      }
    }
    p2
  }

  /** The candidate link of a line holding `<a href=`: the anchor slice,
      cut before the first `>` and then before the first `"`. */
  function Candidate(line: string): (r: string)
    requires Contains(line, Anchor)
    ensures var start := Find(line, Anchor) + 9;
      OccursAt(line, r, if start <= |line| then start else |line|)
    ensures '>' !in r && '"' !in r
  {
    var p0 := AnchorSlice(line);
    var r := CutLink(p0);
    assert p0[..|r|] == r;
    r
  }

  /** `s[:s.find(c)]` never contains `c`: either it stops before the first
      `c`, or there was no `c` and it is a prefix of `s`. */
  lemma CutBeforeFirst(s: string, c: char)
    ensures c !in PyPrefix(s, Find(s, [c]))
  {
    var k := Find(s, [c]);
    var r := PyPrefix(s, k);
    if c in r {
      var j :| 0 <= j < |r| && r[j] == c;
      assert s[j] == c;
      assert OccursAt(s, [c], j);
    }
  }

  /** What `get_links` appends for one line, if anything. */
  function LinkOf(line: string, url: string): (r: Option<string>)
    ensures r.Some? ==> Admissible(r.value, url)
  {
    if !Contains(line, Anchor) then None
    else
      var p := Candidate(line);
      if p == [] then None
      else if p[0] == '#' then None
      // The source writes `A or B and C`, that is `A or (B and C)`, where C
      // asks whether the integer `p.find(host)` is absent from a list of
      // strings: it always is, so C is true and there is no de-duplication.
      else if Contains(p, Host(url)) || p[0] == '/' then
        Some(if p[0] == '/' then url + p else p)
      else None
  }

  /** An entry that `get_links` may add for the page `url`: either a link
      that is not a fragment or a path and contains the host text, or the
      page URL followed by a path starting with `/`. */
  predicate Admissible(entry: string, url: string) {
    (entry != [] && entry[0] != '#' && entry[0] != '/' && Contains(entry, Host(url))) ||
    (|entry| > |url| && entry[..|url|] == url && entry[|url|] == '/')
  }

  /** The link of one line as a list of zero or one entries. */
  function LineLinks(line: string, url: string): (r: seq<string>)
    ensures |r| <= 1
    ensures AllAdmissible(r, url)
  {
    var found := LinkOf(line, url);
    if found.None? then [] else [found.value]
  }

  /** Everything `get_links` appends for the first `n` lines of `content`,
      in order. */
  function NewLinks(content: seq<string>, n: nat, url: string): (r: seq<string>)
    requires n <= |content|
    ensures |r| <= n
    ensures AllAdmissible(r, url)
  {
    if n == 0 then []
    else
      var before, line := NewLinks(content, n - 1, url), LineLinks(content[n - 1], url);
      ConcatAdmissible(before, line, url);
      before + line
  }

  /** `get_links(content, url, links)`: walk the lines in order and append
      each line's link to `links`. The result is `links` followed by the
      entries of the page, each of them admissible for `url`. */
  method GetLinks(content: seq<string>, url: string, links: seq<string>) returns (result: seq<string>)
    ensures result == links + NewLinks(content, |content|, url)
    ensures |result| <= |links| + |content|
    ensures forall k :: |links| <= k < |result| ==> Admissible(result[k], url)
  {
    result := links;
    for i := 0 to |content|
      invariant result == links + NewLinks(content, i, url)
    {
      result := result + LineLinks(content[i], url);
    }
    AppendedAdmissible(content, url, links);
  }

  lemma AppendedAdmissible(content: seq<string>, url: string, links: seq<string>)
    ensures forall k :: |links| <= k < |links + NewLinks(content, |content|, url)| ==>
      Admissible((links + NewLinks(content, |content|, url))[k], url)
  {
    var added := NewLinks(content, |content|, url);
    forall k | |links| <= k < |links + added| ensures Admissible((links + added)[k], url) {
      assert (links + added)[k] == added[k - |links|];
    }
  }

  predicate AllAdmissible(entries: seq<string>, url: string) {
    forall k :: 0 <= k < |entries| ==> Admissible(entries[k], url)
  }

  lemma ConcatAdmissible(a: seq<string>, b: seq<string>, url: string)
    requires AllAdmissible(a, url) && AllAdmissible(b, url)
    ensures AllAdmissible(a + b, url)
  {
    forall k | 0 <= k < |a + b| ensures Admissible((a + b)[k], url) {
      if k < |a| {
        assert (a + b)[k] == a[k];
      } else {
        assert (a + b)[k] == b[k - |a|];
      }
    }
  }

  // -----------------------------------------------------------------------
  // What is cut out of a line holding one anchor
  // -----------------------------------------------------------------------

  /** The line `pre<a href="p">t</a>post`. */
  function AnchorLine(pre: string, p: string, t: string, post: string): string {
    pre + Anchor + "\"" + p + "\">" + t + AnchorEnd + post
  }

  /** With no `<a href=` and no `</a>` before the anchor, and no `</a>` in
      its link or its text, the anchor slice is everything after the opening
      quote up to one character before `</a>`: `p`, the closing `">` and all
      of `t` but its last character (or, when `t` is empty, `p` and the
      quote only). Other tags may stand before the anchor or inside its
      text. */
  lemma AnchorSliceOf(pre: string, p: string, t: string, post: string)
    requires !Contains(pre, Anchor) && !Contains(pre, AnchorEnd)
    requires !Contains(p, AnchorEnd) && !Contains(t, AnchorEnd)
    ensures var line := AnchorLine(pre, p, t, post);
      Contains(line, Anchor) && AnchorSlice(line) == (p + "\">" + t)[..|p| + |t| + 1]
  {
    var line := AnchorLine(pre, p, t, post);
    AnchorFound(pre, p, t, post);
    AnchorEndFound(pre, p, t, post);
    AnchorSliceAt(line, |pre|, |pre| + 11 + |p| + |t|);
    AnchorMiddle(pre, p, t, post);
  }

  lemma AnchorSliceAt(line: string, a: nat, close: nat)
    requires Find(line, Anchor) == a && Find(line, AnchorEnd) == close
    requires a + 9 <= close - 1
    ensures Contains(line, Anchor) && AnchorSlice(line) == line[a + 9..close - 1]
  {
  }

  lemma AnchorMiddle(pre: string, p: string, t: string, post: string)
    ensures var line := AnchorLine(pre, p, t, post);
      line[|pre| + 9..|pre| + 10 + |p| + |t|] == (p + "\">" + t)[..|p| + |t| + 1]
  {
    var line := AnchorLine(pre, p, t, post);
    var mid := p + "\">" + t;
    assert line == (pre + Anchor + "\"") + mid + (AnchorEnd + post);
    assert line[|pre| + 9..|pre| + 9 + |mid|] == mid;
  }

  /** The anchor's `<a href=` is the first one on the line. */
  lemma AnchorFound(pre: string, p: string, t: string, post: string)
    requires !Contains(pre, Anchor)
    ensures Find(AnchorLine(pre, p, t, post), Anchor) == |pre|
  {
    var line := AnchorLine(pre, p, t, post);
    var a := |pre|;
    AnchorLineParts(pre, p, t, post);
    assert line[a..a + 8] == (Anchor + "\"")[..8];
    assert '<' !in Anchor[1..];
    NoOccurrenceIn(line, Anchor, 0, a);
    FindIsFirstOccurrence(line, Anchor, a);
  }

  /** The anchor's `</a>` is the first one on the line: none lies in `pre`,
      `p` or `t`, none can straddle one of their ends, and none starts in
      the fixed text between them. */
  lemma AnchorEndFound(pre: string, p: string, t: string, post: string)
    requires !Contains(pre, AnchorEnd) && !Contains(p, AnchorEnd) && !Contains(t, AnchorEnd)
    ensures Find(AnchorLine(pre, p, t, post), AnchorEnd) == |pre| + 11 + |p| + |t|
  {
    var line := AnchorLine(pre, p, t, post);
    var a := |pre|;
    var b, c, close := a + 9 + |p|, a + 11 + |p|, a + 11 + |p| + |t|;
    AnchorLineParts(pre, p, t, post);
    assert '<' !in AnchorEnd[1..] && '"' !in AnchorEnd[1..];
    NoOccurrenceIn(line, AnchorEnd, 0, a);
    NoOccurrenceIn(line, AnchorEnd, a + 9, b);
    NoOccurrenceIn(line, AnchorEnd, c, close);
    NoEndInFixedText(line, a, b);
    FindIsFirstOccurrence(line, AnchorEnd, close);
  }

  /** Where each part of `pre<a href="p">t</a>post` lies in the line. */
  lemma AnchorLineParts(pre: string, p: string, t: string, post: string)
    ensures var line := AnchorLine(pre, p, t, post);
      var a := |pre|;
      var b, c := a + 9 + |p|, a + 11 + |p|;
      |line| == c + |t| + 4 + |post| &&
      line[0..a] == pre && line[a..a + 9] == Anchor + "\"" && line[a + 9..b] == p &&
      line[b..c] == "\">" && line[c..c + |t|] == t && line[c + |t|..c + |t| + 4] == AnchorEnd &&
      line[a] == '<' && line[b] == '"' && line[c + |t|] == '<'
  {
    var line := AnchorLine(pre, p, t, post);
    assert line == pre + (Anchor + "\"") + p + "\">" + t + AnchorEnd + post;
  }

  /** No `</a>` starts in the fixed text `<a href="` or `">` of an anchor. */
  lemma NoEndInFixedText(line: string, a: nat, b: nat)
    requires a + 9 <= b && b + 2 <= |line|
    requires line[a..a + 9] == Anchor + "\"" && line[b..b + 2] == "\">"
    ensures forall j :: a <= j < a + 9 || b <= j < b + 2 ==> !OccursAt(line, AnchorEnd, j)
  {
    var fixed := Anchor + "\"";
    assert fixed[0] == '<' && fixed[1] == 'a' && '<' !in fixed[1..];
    forall j | a <= j < a + 9 || b <= j < b + 2 ensures !OccursAt(line, AnchorEnd, j) {
      if j + 4 <= |line| {
        assert line[j..j + 4][0] == line[j] && line[j..j + 4][1] == line[j + 1];
        if j < a + 9 {
          assert line[j] == fixed[j - a];
          if j == a {
            assert line[j + 1] == fixed[1];
          } else {
            assert fixed[j - a] == fixed[1..][j - a - 1];
          }
        } else {
          assert line[j] == line[b..b + 2][j - b];
        }
      }
    }
  }

  /** Without any `</a>`, the stop bound `find('</a>') - 1` is -2: the slice
      runs to two characters before the end of the line. */
  lemma AnchorSliceUnclosed(line: string)
    requires Contains(line, Anchor) && !Contains(line, AnchorEnd)
    requires Find(line, Anchor) + 9 <= |line| - 2
    ensures AnchorSlice(line) == line[Find(line, Anchor) + 9..|line| - 2]
  {
  }

  /** A link followed by its closing quote and `>` is cut back to the link
      itself. */
  lemma CutLinkQuoted(p: string, u: string)
    requires '>' !in p && '"' !in p
    ensures CutLink(p + "\">" + u) == p
  {
    var s := p + "\">" + u;
    assert s[..|p| + 1] == p + "\"";
    assert OccursAt(s, ">", |p| + 1);
    FindFirstByHead(s, ">", |p| + 1);
    var p1 := p + "\"";
    assert p1[..|p|] == p;
    assert OccursAt(p1, "\"", |p|);
    FindFirstByHead(p1, "\"", |p|);
  }

  /** Without its `>`, a link is cut at the bound -1 twice: once in place of
      the missing `>`, which drops the quote, and once in place of the
      quote, which drops the link's own last character. */
  lemma CutLinkUnclosed(p: string)
    requires p != [] && '>' !in p && '"' !in p
    ensures CutLink(p + "\"") == p[..|p| - 1]
  {
    var s := p + "\"";
    FindAbsentChar(s, ">", 0);
    assert PyPrefix(s, -1) == p;
    FindAbsentChar(p, "\"", 0);
  }

  /** An anchor `<a href="p">t</a>` with a non-empty text gives exactly
      `p`, when it is the first `<a href=` on the line, no `</a>` comes
      before it or inside its text, and `p` holds no `>` or `"`. */
  lemma WellFormedAnchor(pre: string, p: string, t: string, post: string)
    requires !Contains(pre, Anchor) && !Contains(pre, AnchorEnd) && !Contains(t, AnchorEnd)
    requires '>' !in p && '"' !in p && t != []
    ensures Contains(AnchorLine(pre, p, t, post), Anchor)
    ensures Candidate(AnchorLine(pre, p, t, post)) == p
  {
    assert AnchorEnd[3] == '>';
    FindAbsentChar(p, AnchorEnd, 3);
    AnchorSliceOf(pre, p, t, post);
    assert (p + "\">" + t)[..|p| + |t| + 1] == p + "\">" + t[..|t| - 1];
    CutLinkQuoted(p, t[..|t| - 1]);
  }

  /** An anchor with an empty text, `<a href="p"></a>`, loses the last
      character of its link: the slice stops one character before `</a>`,
      which drops the `>` the cut was looking for. */
  lemma EmptyAnchorText(pre: string, p: string, post: string)
    requires !Contains(pre, Anchor) && !Contains(pre, AnchorEnd)
    requires '>' !in p && '"' !in p && p != []
    ensures Contains(AnchorLine(pre, p, [], post), Anchor)
    ensures Candidate(AnchorLine(pre, p, [], post)) == p[..|p| - 1]
  {
    assert AnchorEnd[3] == '>';
    FindAbsentChar(p, AnchorEnd, 3);
    FindAbsentChar([], AnchorEnd, 0);
    AnchorSliceOf(pre, p, [], post);
    assert (p + "\">" + [])[..|p| + 1] == p + "\"";
    CutLinkUnclosed(p);
  }

  // -----------------------------------------------------------------------
  // Which links are kept
  // -----------------------------------------------------------------------

  /** For the first anchor of a line the filter decides on its link `p` alone: an
      empty link or a fragment is dropped, a path is appended to the page
      URL, and any other link is kept as it is exactly when it contains the
      host text. */
  lemma AnchorLinkDecision(pre: string, p: string, t: string, post: string, url: string)
    requires !Contains(pre, Anchor) && !Contains(pre, AnchorEnd) && !Contains(t, AnchorEnd)
    requires '>' !in p && '"' !in p && t != []
    ensures var found := LinkOf(AnchorLine(pre, p, t, post), url);
      (p == [] || p[0] == '#' ==> found == None) &&
      (p != [] && p[0] == '/' ==> found == Some(url + p)) &&
      (p != [] && p[0] != '#' && p[0] != '/' ==>
         (found == Some(p) <==> Contains(p, Host(url))) &&
         (found == None <==> !Contains(p, Host(url))))
  {
    WellFormedAnchor(pre, p, t, post);
  }

  /** Nothing is de-duplicated: the links a page adds do not depend on the
      links already collected, and a link that appears on two lines is added
      twice. */
  lemma NoDeduplication(content: seq<string>, url: string)
    requires |content| == 2 && content[0] == content[1]
    requires LinkOf(content[0], url).Some?
    ensures var link := LinkOf(content[0], url).value;
      NewLinks(content, 2, url) == [link, link]
  {
    var once := LineLinks(content[0], url);
    assert once == [LinkOf(content[0], url).value];
    assert NewLinks(content, 1, url) == once;
    assert NewLinks(content, 2, url) == once + once;
  }

  /** A list item holding a path link: the tags around the anchor make no
      difference, and the path is appended to the page URL. */
  lemma ExampleListItem(pre: string, p: string, t: string, post: string, url: string)
    requires pre == "<li>" && p == "/x" && t == "X" && post == "</li>"
    ensures LinkOf(AnchorLine(pre, p, t, post), url) == Some(url + "/x")
  {
    assert pre[1] == 'l' && pre[2] == 'i';
    FindAbsentChar(pre, Anchor, 1);
    FindAbsentChar(pre, AnchorEnd, 1);
    FindAbsentChar(t, AnchorEnd, 0);
    AnchorLinkDecision(pre, p, t, post, url);
  }

  /** A line that starts with `</a>` makes the stop bound `0 - 1`, which
      Python reads as the line's last character: the slice is not empty,
      and the anchor's link is still cut out. */
  lemma LeadingAnchorEnd(p: string, t: string)
    requires '>' !in p && '"' !in p
    ensures var line := AnchorLine(AnchorEnd, p, t, []);
      Contains(line, Anchor) && Candidate(line) == p
  {
    LeadingAnchorSlice(p, t);
    CutLinkQuoted(p, t + "</a");
  }

  lemma LeadingAnchorSlice(p: string, t: string)
    ensures var line := AnchorLine(AnchorEnd, p, t, []);
      Contains(line, Anchor) && AnchorSlice(line) == p + "\">" + (t + "</a")
  {
    var line := AnchorLine(AnchorEnd, p, t, []);
    assert AnchorEnd[3] == '>' && Anchor[3] == 'h';
    FindAbsentChar(AnchorEnd, Anchor, 3);
    AnchorFound(AnchorEnd, p, t, []);
    assert OccursAt(line, AnchorEnd, 0);
    FindIsFirstOccurrence(line, AnchorEnd, 0);
    LeadingAnchorSliceAt(line);
    AnchorLineParts(AnchorEnd, p, t, []);
    assert line[13..|line| - 1] == p + "\">" + (t + "</a");
  }

  lemma LeadingAnchorSliceAt(line: string)
    requires Find(line, Anchor) == 4 && Find(line, AnchorEnd) == 0 && 13 <= |line| - 1
    ensures Contains(line, Anchor) && AnchorSlice(line) == line[13..|line| - 1]
  {
  }

  /** `</a><a href="/x">X</a>`: the leading `</a>` does not stop the path
      from being appended to the page URL. */
  lemma ExampleLeadingClose(p: string, t: string, url: string)
    requires p == "/x" && t == "X"
    ensures LinkOf(AnchorLine(AnchorEnd, p, t, []), url) == Some(url + "/x")
  {
    LeadingAnchorEnd(p, t);
  }

  /** A `</a>` at index 1 or later that comes before the first `<a href=`
      puts the slice's stop before its start: the candidate is empty and the
      line adds no link. */
  lemma CrossedEmpty(line: string, url: string)
    requires Contains(line, Anchor) && Contains(line, AnchorEnd)
    requires 1 <= Find(line, AnchorEnd) < Find(line, Anchor)
    ensures Candidate(line) == [] && LinkOf(line, url) == None
  {
  }
}
