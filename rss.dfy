/**
 * The pure parts of the RSS feed route (app/rss.xml/route.ts): choosing
 * the protocol from the request host, building links, choosing an item
 * description, turning Markdown into a flat plain-text description, and
 * escaping text for a CDATA section.
 */
module Rss {
  import opened Chars
  import opened Strings
  import opened Replace
  import opened Optional

  // ---------------------------------------------------------------------
  // Site and item links

  /** The host used when the request carries no `host` header, spelled as the route spells it. */
  const DefaultHost: string := "loclahost:3000"

  /** The host the request names, or the default when it names none. */
  function Host(header: Option<string>): string {
    header.GetOr(DefaultHost)
  }

  /** The scheme of the feed links: http for a local host, https for any other. */
  function Protocol(host: string): (r: string)
    ensures r == "http" || r == "https"
    ensures r == "http" <==> Contains(host, "localhost")
  {
    if Contains(host, "localhost") then "http" else "https"
  }

  /** The site address: the scheme, `://`, then the host. */
  function SiteUrl(host: string): (r: string)
    ensures Contains(host, "localhost") ==> r == "http://" + host
    ensures !Contains(host, "localhost") ==> r == "https://" + host
  {
    Protocol(host) + "://" + host
  }

  /** The address of the feed itself, under the site address. */
  function FeedUrl(siteUrl: string): string {
    siteUrl + "/rss.xml"
  }

  /** The link of one post: the site address, `/posts/`, then the slug. */
  function PostLink(siteUrl: string, slug: string): string {
    siteUrl + "/posts/" + slug
  }

  /**
   * Without a `host` header the misspelled default `loclahost:3000` does not
   * contain `localhost`, so the feed links use https.
   */
  lemma MissingHostGivesHttps()
    ensures Protocol(Host(None)) == "https"
    ensures SiteUrl(Host(None)) == "https://loclahost:3000"
  {
    var h := DefaultHost;
    forall i | 0 <= i <= |h| - 9 ensures !OccursAt(h, "localhost", i) {
      if i == 0 { assert h[3] != "localhost"[3]; }
      else if i == 3 { assert h[4] != "localhost"[1]; }
      else { assert h[i] != "localhost"[0]; }
    }
  }

  /** A host with `localhost` anywhere in it is served over http, any other host over https. */
  lemma LocalhostGivesHttp(name: string, port: string)
    ensures Protocol(name + "localhost" + port) == "http"
  {
    var h := name + "localhost" + port;
    assert h[|name|..|name| + 9] == "localhost";
    assert OccursAt(h, "localhost", |name|);
  }

  // ---------------------------------------------------------------------
  // CDATA escaping

  /** The text that ends a CDATA section. */
  const CdataEnd: string := "]]>"

  /** The text that opens a CDATA section. */
  const CdataOpen: string := "<![CDATA["

  /** What each `]]>` becomes: end the section after `]]`, open a new one, and continue with `>`. */
  const CdataEndEscaped: string := "]]]]><![CDATA[>"

  /** Escapes a text for a CDATA section by replacing every `]]>` with `CdataEndEscaped`. */
  function EscapeCdata(text: string): string {
    ReplaceAll(text, Text(CdataEnd), CdataEndEscaped)
  }

  /** How many `]]>` the escaping replaces: occurrences counted left to right without overlap. */
  function CdataEndCount(text: string): nat {
    CountMatches(text, Text(CdataEnd))
  }

  /** `x` starts with `]]>`. */
  predicate StartsWithEnd(x: string) {
    |x| >= 3 && x[0] == ']' && x[1] == ']' && x[2] == '>'
  }

  /** `x` starts with `<![CDATA[`. */
  predicate StartsWithOpen(x: string) {
    |x| >= 9 && x[0] == '<' && x[1] == '!' && x[2] == '[' && x[3] == 'C' && x[4] == 'D'
    && x[5] == 'A' && x[6] == 'T' && x[7] == 'A' && x[8] == '['
  }

  /**
   * Reads the contents of CDATA sections that follow one another directly,
   * the first one already opened: a section's text runs up to the first
   * `]]>`, after which the input either ends or opens the next section.
   * Anything else is not such a run of sections.
   */
  function ReadSections(x: string): Option<string>
    decreases |x|
  {
    if |x| < 3 then None
    else if StartsWithEnd(x) then
      var rest := x[3..];
      if rest == [] then Some([])
      else if StartsWithOpen(rest) then ReadSections(rest[9..])
      else None
    else
      match ReadSections(x[1..])
      case None => None
      case Some(text) => Some([x[0]] + text)
  }

  /** The concatenated contents of a run of CDATA sections, or None when `x` is not one. */
  function ParseCdataSections(x: string): Option<string> {
    if StartsWithOpen(x) then ReadSections(x[9..]) else None
  }

  /** The CDATA part of the `<description>` element. */
  function CdataSection(desc: string): string {
    CdataOpen + desc + CdataEnd
  }

  /** The first two characters of `EscapeCdata(u) + "]]>"` are those of `u + "]]>"`. */
  lemma {:induction false} EscapedHead(u: string)
    ensures |EscapeCdata(u) + CdataEnd| >= 2
    ensures (EscapeCdata(u) + CdataEnd)[..2] == (u + CdataEnd)[..2]
  {
    if u != [] && !(CdataEnd <= u) {
      EscapedHead(u[1..]);
      assert EscapeCdata(u) == [u[0]] + EscapeCdata(u[1..]);
    }
  }

  /** Reading sections back from escaped text followed by `]]>` gives the text. */
  lemma {:induction false} ReadEscaped(t: string)
    ensures ReadSections(EscapeCdata(t) + CdataEnd) == Some(t)
    decreases |t|
  {
    if t == [] {
      assert EscapeCdata(t) + CdataEnd == CdataEnd;
    } else if CdataEnd <= t {
      ReadEscaped(t[3..]);
      ReadEscapedEnd(t);
    } else {
      ReadEscaped(t[1..]);
      ReadEscapedOther(t);
    }
  }

  /** Reading past a character that does not start `]]>`. */
  lemma ReadSectionsChar(x: string, u: string)
    requires |x| >= 3 && !StartsWithEnd(x)
    requires ReadSections(x[1..]) == Some(u)
    ensures ReadSections(x) == Some([x[0]] + u)
  {
  }

  /** Reading past `]]>` followed by `<![CDATA[`. */
  lemma ReadSectionsBreakStep(w: string)
    requires StartsWithEnd(w) && StartsWithOpen(w[3..])
    ensures ReadSections(w) == ReadSections(w[3..][9..])
  {
  }

  /** Reading the part of an escaped `]]>` before its final `>`: `]]` comes back. */
  lemma ReadEscapedBlock(y: string, z: string, v: string)
    requires |y| >= 17 && z == y[14..]
    requires y[0] == ']' && y[1] == ']' && StartsWithEnd(y[2..]) && y[5..14] == CdataOpen
    requires ReadSections(z) == Some(v)
    ensures ReadSections(y) == Some("]]" + v)
  {
    var w := y[2..];
    assert w[12..] == z;
    ReadEscapedBreak(w, y[5..14], z);
    ReadTwoBrackets(y, w, v);
  }

  /** Reading past `]]>` followed by `<![CDATA[`, stated for the escaped form. */
  lemma ReadEscapedBreak(w: string, o: string, z: string)
    requires |w| >= 15 && w[3..12] == o && w[12..] == z
    requires StartsWithEnd(w) && o == CdataOpen
    ensures ReadSections(w) == ReadSections(z)
  {
    assert w[3..][9..] == z;
    assert w[3..][..9] == o;
    assert StartsWithOpen(w[3..]);
    ReadSectionsBreakStep(w);
  }

  /** Reading past the two `]` that open an escaped `]]>`. */
  lemma ReadTwoBrackets(y: string, w: string, v: string)
    requires |y| >= 5 && y[0] == ']' && y[1] == ']' && y[2] == ']' && y[3] == ']'
    requires w == y[2..] && ReadSections(w) == Some(v)
    ensures ReadSections(y) == Some("]]" + v)
  {
    assert y[1..][1..] == w;
    ReadSectionsChar(y[1..], v);
    ReadSectionsChar(y, "]" + v);
    assert [y[0]] + ("]" + v) == "]]" + v;
  }

  /** The step of `ReadEscaped` for a text that starts with `]]>`. */
  lemma ReadEscapedEnd(t: string)
    requires CdataEnd <= t
    requires ReadSections(EscapeCdata(t[3..]) + CdataEnd) == Some(t[3..])
    ensures ReadSections(EscapeCdata(t) + CdataEnd) == Some(t)
  {
    var x := EscapeCdata(t[3..]) + CdataEnd;
    var y := CdataEndEscaped + x;
    EscapeCdataEndStep(t);
    assert EscapeCdata(t) + CdataEnd == y;
    var z := y[14..];
    EscapedEndLayout(x, y, z);
    ReadSectionsChar(z, t[3..]);
    ReadEscapedBlock(y, z, [z[0]] + t[3..]);
    EndRebuilt(t, z[0]);
  }

  /** Where the parts of the escaped form of `]]>` sit when some text `x` follows it. */
  lemma EscapedEndLayout(x: string, y: string, z: string)
    requires y == CdataEndEscaped + x && |x| >= 3 && z == y[14..]
    ensures |y| >= 17 && y[0] == ']' && y[1] == ']' && StartsWithEnd(y[2..]) && y[5..14] == CdataOpen
    ensures |z| >= 3 && z[0] == '>' && z[1..] == x
  {
    assert y[..15] == CdataEndEscaped;
  }

  /** Escaping a text that starts with `]]>` starts with the escaped form. */
  lemma EscapeCdataEndStep(t: string)
    requires CdataEnd <= t
    ensures EscapeCdata(t) == CdataEndEscaped + EscapeCdata(t[3..])
  {
    assert MatchLen(Text(CdataEnd), t) == 3;
  }

  /** Two brackets, `>` and the rest give back a text that starts with `]]>`. */
  lemma EndRebuilt(t: string, c: char)
    requires CdataEnd <= t && c == '>'
    ensures "]]" + ([c] + t[3..]) == t
  {
    assert t[..3] == CdataEnd;
    assert t == t[..3] + t[3..];
  }

  /** A text that does not start with `]]>` does not start its escaped form followed by `]]>` with one either. */
  lemma EscapedOtherHead(t: string)
    requires t != [] && !(CdataEnd <= t)
    ensures var y := EscapeCdata(t) + CdataEnd;
      |y| >= 3 && y[0] == t[0] && !StartsWithEnd(y)
  {
    var x := EscapeCdata(t[1..]) + CdataEnd;
    var u := t[1..] + CdataEnd;
    EscapedHead(t[1..]);
    assert x[0] == u[0] && x[1] == u[1] by { assert x[..2] == u[..2]; }
    assert EscapeCdata(t) == [t[0]] + EscapeCdata(t[1..]);
    var y := [t[0]] + x;
    assert EscapeCdata(t) + CdataEnd == y;
    if |t| >= 3 {
      assert y[1] == t[1] && y[2] == t[2];
      assert t[..3] != CdataEnd;
    } else {
      assert y[2] == ']';
    }
  }

  /** The step of `ReadEscaped` for a non-empty text that does not start with `]]>`. */
  lemma ReadEscapedOther(t: string)
    requires t != [] && !(CdataEnd <= t)
    requires ReadSections(EscapeCdata(t[1..]) + CdataEnd) == Some(t[1..])
    ensures ReadSections(EscapeCdata(t) + CdataEnd) == Some(t)
  {
    var y := EscapeCdata(t) + CdataEnd;
    EscapedOtherHead(t);
    assert y[1..] == EscapeCdata(t[1..]) + CdataEnd by {
      assert EscapeCdata(t) == [t[0]] + EscapeCdata(t[1..]);
    }
    ReadSectionsChar(y, t[1..]);
    assert [t[0]] + t[1..] == t;
  }

  /**
   * Round trip: wrapping the escaped text in one CDATA section, as the
   * description element does, and reading the resulting sections back
   * gives the original text.
   */
  lemma CdataRoundTrip(t: string)
    ensures ParseCdataSections(CdataSection(EscapeCdata(t))) == Some(t)
  {
    ReadEscaped(t);
    var x := CdataSection(EscapeCdata(t));
    assert StartsWithOpen(x);
    assert x[9..] == EscapeCdata(t) + CdataEnd;
  }

  /** Each `]]>` replaced adds twelve characters. */
  lemma {:induction false} EscapeCdataLength(t: string)
    ensures |EscapeCdata(t)| == |t| + 12 * CdataEndCount(t)
    decreases |t|
  {
    if t != [] {
      if CdataEnd <= t {
        EscapeCdataLength(t[3..]);
      } else {
        EscapeCdataLength(t[1..]);
      }
    }
  }

  /** Some `]]>` occurs in the text exactly when the escaping replaces at least one. */
  lemma {:induction false} CountPositiveIffContains(t: string)
    ensures CdataEndCount(t) > 0 <==> Contains(t, CdataEnd)
    decreases |t|
  {
    if t != [] {
      if CdataEnd <= t {
        assert MatchLen(Text(CdataEnd), t) == 3;
        assert t[0..3] == CdataEnd;
        assert OccursAt(t, CdataEnd, 0);
      } else {
        CountPositiveIffContains(t[1..]);
        assert MatchLen(Text(CdataEnd), t) == 0;
        ContainsPastFirst(t);
      }
    }
  }

  /** A text that does not start with `]]>` contains one exactly when the rest after its first character does. */
  lemma ContainsPastFirst(t: string)
    requires t != [] && !(CdataEnd <= t)
    ensures Contains(t, CdataEnd) <==> Contains(t[1..], CdataEnd)
  {
    if Contains(t, CdataEnd) {
      var i :| 0 <= i <= |t| - 3 && OccursAt(t, CdataEnd, i);
      assert i != 0;
      assert t[1..][i - 1..i + 2] == t[i..i + 3];
      assert OccursAt(t[1..], CdataEnd, i - 1);
    }
    if Contains(t[1..], CdataEnd) {
      var i :| 0 <= i <= |t| - 4 && OccursAt(t[1..], CdataEnd, i);
      assert t[1..][i..i + 3] == t[i + 1..i + 4];
      assert OccursAt(t, CdataEnd, i + 1);
    }
  }


  /** Escaping leaves a text unchanged exactly when it holds no `]]>`. */
  lemma EscapeCdataIdentity(t: string)
    ensures EscapeCdata(t) == t <==> !Contains(t, CdataEnd)
  {
    EscapeCdataLength(t);
    CountPositiveIffContains(t);
    if !Contains(t, CdataEnd) {
      forall i | 0 <= i < |t| ensures NoMatchAt(t, Text(CdataEnd), i) {
        if CdataEnd <= t[i..] {
          assert t[i..][..3] == t[i..i + 3];
          assert OccursAt(t, CdataEnd, i);
        }
      }
      NoMatchIdentity(t, Text(CdataEnd), CdataEndEscaped);
    }
  }

  // ---------------------------------------------------------------------
  // Markdown to plain text

  /** Removes fenced code blocks: three backquotes up to the next three. */
  function StripFences(md: string): string {
    ReplaceAll(md, FencedCode, "")
  }

  /** Removes inline code: a backquote up to the next one. */
  function StripInlineCode(s: string): string {
    ReplaceAll(s, InlineCode, "")
  }

  /** Removes images `![alt](url)`. */
  function StripImages(s: string): string {
    ReplaceAll(s, Image, "")
  }

  /**
   * Replaces links `[text](url)` by the two characters `$1`: the pattern has
   * no capture group, so the `$1` of the replacement is not a reference and
   * is inserted as it stands.
   */
  function StripLinks(s: string): string {
    ReplaceAll(s, Link, "$1")
  }

  /** Turns each run of the Markdown marker characters `# > * _ ~ -` into one space. */
  function BlankMarkers(s: string): string {
    ReplaceAll(s, Run(MdMarker), " ")
  }

  /** Turns each run of white space into one space. */
  function CollapseSpaces(s: string): string {
    ReplaceAll(s, Run(Space), " ")
  }

  /** The route's Markdown flattening: the six replacements in order, then trimming. */
  function StripMd(md: string): string {
    Trim(CollapseSpaces(BlankMarkers(StripLinks(StripImages(StripInlineCode(StripFences(md)))))))
  }

  /** Flat text: no marker characters, no white space other than single spaces between words. */
  predicate IsFlatText(r: string) {
    && (forall c | c in r :: !IsMdMarker(c) && (IsSpace(c) ==> c == ' '))
    && Separated(Space, r)
    && (r == [] || (r[0] != ' ' && r[|r| - 1] != ' '))
  }

  /** After `BlankMarkers` no marker character is left. */
  lemma BlankMarkersShape(s: string)
    ensures forall c | c in BlankMarkers(s) :: !IsMdMarker(c)
  {
    forall i | 0 <= i < |s| && NoMatchAt(s, Run(MdMarker), i) ensures !IsMdMarker(s[i]) {
      assert s[i..][0] == s[i];
    }
    ReplaceAllAvoids(s, Run(MdMarker), " ", IsMdMarker);
  }

  /** `CollapseSpaces` brings in no marker, leaves only single plain spaces. */
  lemma CollapseSpacesShape(s: string)
    requires forall c | c in s :: !IsMdMarker(c)
    ensures forall c | c in CollapseSpaces(s) :: !IsMdMarker(c) && (IsSpace(c) ==> c == ' ')
    ensures Separated(Space, CollapseSpaces(s))
  {
    var odd := (c: char) => IsMdMarker(c) || (IsSpace(c) && c != ' ');
    forall i | 0 <= i < |s| && NoMatchAt(s, Run(Space), i) ensures !odd(s[i]) {
      assert s[i..][0] == s[i];
      assert s[i] in s;
    }
    ReplaceAllAvoids(s, Run(Space), " ", odd);
    ReplaceRunsSeparates(s, Space, ' ');
  }

  /** A piece of a text keeps the text's per-character properties and its separation. */
  lemma FlatPiece(s: string, r: string, i: int)
    requires OccursAt(s, r, i)
    requires forall c | c in s :: !IsMdMarker(c) && (IsSpace(c) ==> c == ' ')
    requires Separated(Space, s)
    ensures forall c | c in r :: !IsMdMarker(c) && (IsSpace(c) ==> c == ' ')
    ensures Separated(Space, r)
  {
    assert r == s[i..i + |r|];
    forall k | 0 <= k < |r| ensures r[k] == s[i + k] && r[k] in s { }
  }

  /** What the route puts in a feed item instead of Markdown is flat text. */
  lemma StripMdIsFlat(md: string)
    ensures IsFlatText(StripMd(md))
  {
    var b := BlankMarkers(StripLinks(StripImages(StripInlineCode(StripFences(md)))));
    BlankMarkersShape(StripLinks(StripImages(StripInlineCode(StripFences(md)))));
    var c := CollapseSpaces(b);
    CollapseSpacesShape(b);
    var r := Trim(c);
    var i :| OccursAt(c, r, i);
    FlatPiece(c, r, i);
  }

  /** A link `[text](url)` is replaced by `$1`, and the scan goes on after it. */
  lemma LinkBecomesDollarOne(text: string, url: string, rest: string)
    requires ']' !in text && ')' !in url && url != []
    ensures StripLinks("[" + text + "](" + url + ")" + rest) == "$1" + StripLinks(rest)
  {
    var s := "[" + text + "](" + url + ")" + rest;
    var j := 1 + |text|;
    var q := j + 2 + |url|;
    assert s[j] == ']' && s[j + 1] == '(' && s[q] == ')';
    forall i | 1 <= i < j ensures s[i] != ']' { assert s[i] == text[i - 1]; }
    forall i | j + 2 <= i < q ensures s[i] != ')' { assert s[i] == url[i - j - 2]; }
    IndexOfFromIs(s, ']', 1, j);
    IndexOfFromIs(s, ')', j + 2, q);
    assert MatchLen(Link, s) == q + 1;
    assert s[q + 1..] == rest;
  }

  /** An image `![alt](url)` is removed, and the scan goes on after it. */
  lemma ImageRemoved(alt: string, url: string, rest: string)
    requires ']' !in alt && ')' !in url && url != []
    ensures StripImages("![" + alt + "](" + url + ")" + rest) == StripImages(rest)
  {
    var s := "![" + alt + "](" + url + ")" + rest;
    var j := 2 + |alt|;
    var q := j + 2 + |url|;
    assert s[j] == ']' && s[j + 1] == '(' && s[q] == ')';
    forall i | 2 <= i < j ensures s[i] != ']' { assert s[i] == alt[i - 2]; }
    forall i | j + 2 <= i < q ensures s[i] != ')' { assert s[i] == url[i - j - 2]; }
    IndexOfFromIs(s, ']', 2, j);
    IndexOfFromIs(s, ')', j + 2, q);
    assert MatchLen(Image, s) == q + 1;
    assert s[q + 1..] == rest;
  }

  /**
   * The route's link quirk on the smallest case: a Markdown link comes out
   * as the two characters `$1` rather than as its text.
   */
  lemma StripMdLinkExample(s: string)
    requires s == "[a](b)"
    ensures StripMd(s) == "$1"
  {
    LinkExampleNoFence(s);
    LinkExampleNoCode(s);
    LinkExampleNoImage(s);
    LinkExampleLink(s);
    LinkExampleTail(StripLinks(s));
  }

  lemma LinkExampleLink(s: string)
    requires s == "[a](b)"
    ensures StripLinks(s) == "$1"
  {
    LinkBecomesDollarOne("a", "b", "");
    assert "[" + "a" + "](" + "b" + ")" + "" == s;
  }

  lemma LinkExampleTail(s: string)
    requires s == "$1"
    ensures Trim(CollapseSpaces(BlankMarkers(s))) == s
  {
    var t := s[1..];
    assert t[1..] == [] && t == [t[0]] + t[1..];
    assert ReplaceAll(t[1..], Run(MdMarker), " ") == [];
    assert ReplaceAll(t[1..], Run(Space), " ") == [];
    assert RunLen(MdMarker, t) == 0 && RunLen(Space, t) == 0;
    assert BlankMarkers(t) == t;
    assert RunLen(MdMarker, s) == 0;
    assert BlankMarkers(s) == s;
    assert CollapseSpaces(t) == t;
    assert RunLen(Space, s) == 0;
    assert CollapseSpaces(s) == s;
  }

  lemma LinkExampleNoFence(s: string)
    requires s == "[a](b)"
    ensures StripFences(s) == s
  {
    forall i | 0 <= i < |s| ensures NoMatchAt(s, FencedCode, i) {
      assert !IsFenceAt(s[i..], 0);
    }
    NoMatchIdentity(s, FencedCode, "");
  }

  lemma LinkExampleNoCode(s: string)
    requires s == "[a](b)"
    ensures StripInlineCode(s) == s
  {
    forall i | 0 <= i < |s| ensures NoMatchAt(s, InlineCode, i) {
      assert s[i..][0] == s[i];
    }
    NoMatchIdentity(s, InlineCode, "");
  }

  lemma LinkExampleNoImage(s: string)
    requires s == "[a](b)"
    ensures StripImages(s) == s
  {
    forall i | 0 <= i < |s| ensures NoMatchAt(s, Image, i) {
      assert s[i..][0] == s[i];
    }
    NoMatchIdentity(s, Image, "");
  }

  // ---------------------------------------------------------------------
  // Item description

  /** How many characters of the flattened Markdown the fallback description keeps. */
  const FallbackLength: nat := 180

  /**
   * The description used when an article has no excerpt: the first 180
   * characters of its flattened Markdown, or the empty text when the
   * Markdown is missing or empty.
   */
  function Fallback(content: Option<string>): (r: string)
    ensures |r| <= FallbackLength
    ensures content.Some? && content.value != [] ==> r <= StripMd(content.value)
    ensures content.Some? && content.value != [] && |StripMd(content.value)| <= FallbackLength ==>
      r == StripMd(content.value)
    ensures content.Some? && content.value != [] && |StripMd(content.value)| > FallbackLength ==>
      |r| == FallbackLength
    ensures content.None? || content.value == [] ==> r == []
  {
    if content.Some? && content.value != [] then SliceTo(StripMd(content.value), FallbackLength) else ""
  }

  /**
   * The escaped description of an item: the excerpt when the article has
   * one (even an empty one), the fallback otherwise, trimmed and escaped.
   * A final default to the empty text in the route can never apply, since
   * the fallback is always a text.
   */
  function Description(excerpt: Option<string>, content: Option<string>): string {
    EscapeCdata(Trim(excerpt.GetOr(Fallback(content))))
  }

  /** The description element's CDATA text reads back as the trimmed excerpt or fallback. */
  lemma DescriptionRoundTrip(excerpt: Option<string>, content: Option<string>)
    ensures ParseCdataSections(CdataSection(Description(excerpt, content)))
      == Some(Trim(excerpt.GetOr(Fallback(content))))
  {
    CdataRoundTrip(Trim(excerpt.GetOr(Fallback(content))));
  }

  /** An excerpt that is present but blank hides the article's content: the description is empty. */
  lemma BlankExcerptGivesEmptyDescription(e: string, content: Option<string>)
    requires forall k | 0 <= k < |e| :: IsSpace(e[k])
    ensures Description(Some(e), content) == ""
  {
    assert Trim(e) == [];
    assert EscapeCdata([]) == [];
  }

  /**
   * Without an excerpt the description needs no escaping, because the
   * flattening turned every `>` into a space, and it is at most 180
   * characters long.
   */
  lemma FallbackDescriptionUnescaped(content: Option<string>)
    ensures Description(None, content) == Trim(Fallback(content))
    ensures |Description(None, content)| <= FallbackLength
  {
    var f := Fallback(content);
    FallbackHasNoGt(content);
    TrimChars(f);
    NoGtNeedsNoEscape(Trim(f));
    var j :| OccursAt(f, Trim(f), j);
  }

  /** The fallback text holds no `>`. */
  lemma FallbackHasNoGt(content: Option<string>)
    ensures '>' !in Fallback(content)
  {
    if content.Some? && content.value != [] {
      var f := Fallback(content);
      var m := StripMd(content.value);
      StripMdIsFlat(content.value);
      forall k | 0 <= k < |f| ensures f[k] != '>' {
        assert f[k] == m[k];
        assert m[k] in m;
        assert !IsMdMarker(m[k]);
      }
    }
  }

  /** A text without `>` holds no `]]>`, so escaping leaves it as it is. */
  lemma NoGtNeedsNoEscape(t: string)
    requires '>' !in t
    ensures EscapeCdata(t) == t
  {
    forall i | 0 <= i <= |t| - 3 ensures !OccursAt(t, CdataEnd, i) {
      assert t[i + 2] in t;
      assert t[i..i + 3][2] == t[i + 2];
    }
    EscapeCdataIdentity(t);
  }

  /** The item link ends with the slug exactly as stored, after the site address and `/posts/`. */
  lemma PostLinkSlug(host: string, slug: string)
    ensures PostLink(SiteUrl(host), slug)[|SiteUrl(host)| + 7..] == slug
    ensures SiteUrl(host) <= PostLink(SiteUrl(host), slug)
  {
  }
}
