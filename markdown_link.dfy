/** The inline-link element. One match of the pattern `(\[[^\]]+)(\]\([^\s]+)?\)`
    turns `[label](target)` into `label`, styles the label and attaches a
    link attribute whose value is the target, completed with a scheme. */
module MarkdownLink {
  import opened AttributedText

  /** The element's configuration. */
  datatype LinkSpec = LinkSpec(font: Option<Font>, color: Option<Color>, defaultScheme: Option<string>)

  /** The Foundation services the element calls, which this model takes as
      given: `URL(string:)`, `addingPercentEncoding(withAllowedCharacters:
      .urlHostAllowed)`, and a match of the RFC 5322 e-mail expression. */
  datatype Foundation = Foundation(
    urlFromString: string -> Option<Url>,
    percentEncodedForHost: string -> Option<string>,
    matchesEmailPattern: string -> bool)

  /** An NSRange: a start offset and a length. */
  datatype NSRange = NSRange(location: nat, length: nat)

  /** The two capture groups of one link match: group 1 is `[label`,
      group 2 is `](target`; the closing `)` follows group 2. */
  datatype LinkMatch = LinkMatch(labelGroup: NSRange, targetGroup: NSRange)

  const EmailScheme: string := "mailto:"
  const HttpsScheme: string := "https://"

  /** The initialiser: no default scheme is configured. */
  function NewLink(font: Option<Font>, color: Option<Color>): (r: LinkSpec)
    ensures r.font == font && r.color == color
    ensures DefaultSchemeOrHttps(r) == HttpsScheme
  {
    LinkSpec(font, color, None)
  }

  function DefaultSchemeOrHttps(spec: LinkSpec): string
  {
    match spec.defaultScheme
    case Some(scheme) => scheme
    case None => HttpsScheme
  }

  // ---------------------------------------------------------------------
  // Scheme detection: `([a-z]{2,20}):\/\/`, case-insensitive, anchored.
  // ---------------------------------------------------------------------

  predicate IsAsciiLetter(c: char)
  {
    'a' <= c <= 'z' || 'A' <= c <= 'Z'
  }

  /** The number of ASCII letters `s` starts with. */
  function LeadingLetters(s: string): (n: nat)
    ensures n <= |s|
    ensures forall i :: 0 <= i < n ==> IsAsciiLetter(s[i])
    ensures n < |s| ==> !IsAsciiLetter(s[n])
  {
    if s == [] || !IsAsciiLetter(s[0]) then 0 else 1 + LeadingLetters(s[1..])
  }

  /** The scheme pattern matches at the start of `s` with a letter run of length `k`. */
  ghost predicate SchemePatternMatchesWith(s: string, k: nat)
  {
    && 2 <= k <= 20
    && k + 3 <= |s|
    && (forall i :: 0 <= i < k ==> IsAsciiLetter(s[i]))
    && s[k..k + 3] == "://"
  }

  /** The anchored scheme pattern matches `s`. */
  ghost predicate SchemePatternMatches(s: string)
  {
    exists k: nat :: SchemePatternMatchesWith(s, k)
  }

  /** `hasScheme` in `formatText`. */
  function HasScheme(link: string): bool
  {
    var n := LeadingLetters(link);
    2 <= n <= 20 && n + 3 <= |link| && link[n..n + 3] == "://"
  }

  /** The scheme test is exactly the anchored pattern: 2 to 20 ASCII letters
      of either case, then `://`. */
  lemma HasSchemeMatchesPattern(link: string)
    ensures HasScheme(link) <==> SchemePatternMatches(link)
  {
    var n := LeadingLetters(link);
    if HasScheme(link) {
      assert SchemePatternMatchesWith(link, n);
    }
    if SchemePatternMatches(link) {
      var k: nat :| SchemePatternMatchesWith(link, k);
      assert link[k] == link[k..k + 3][0] == ':';
    }
  }

  /** Letters stop inside `prefix`, so appending text does not move the end of the run. */
  lemma {:induction false} LeadingLettersOfConcat(prefix: string, s: string)
    requires LeadingLetters(prefix) < |prefix|
    ensures LeadingLetters(prefix + s) == LeadingLetters(prefix)
  {
    if IsAsciiLetter(prefix[0]) {
      assert (prefix + s)[1..] == prefix[1..] + s;
      LeadingLettersOfConcat(prefix[1..], s);
    }
  }

  /** A string that starts with a scheme keeps it whatever follows. */
  lemma HasSchemeOfConcat(prefix: string, s: string)
    requires HasScheme(prefix)
    ensures HasScheme(prefix + s)
  {
    LeadingLettersOfConcat(prefix, s);
    var n := LeadingLetters(prefix);
    assert (prefix + s)[n..n + 3] == prefix[n..n + 3];
  }

  /** `fullLink`: the link itself when it has a scheme, else the default scheme before it. */
  function FullLink(spec: LinkSpec, link: string): string
  {
    if HasScheme(link) then link else DefaultSchemeOrHttps(spec) + link
  }

  /** The choice of `fullLink`, stated with the scheme pattern itself. */
  lemma FullLinkChoice(spec: LinkSpec, link: string)
    ensures SchemePatternMatches(link) ==> FullLink(spec, link) == link
    ensures !SchemePatternMatches(link) ==> FullLink(spec, link) == DefaultSchemeOrHttps(spec) + link
  {
    HasSchemeMatchesPattern(link);
  }

  /** With a default scheme that is itself a scheme (as `https://` is),
      `fullLink` always has a scheme, so completing it twice changes nothing. */
  lemma FullLinkIdempotent(spec: LinkSpec, link: string)
    requires HasScheme(DefaultSchemeOrHttps(spec))
    ensures HasScheme(FullLink(spec, link))
    ensures FullLink(spec, FullLink(spec, link)) == FullLink(spec, link)
  {
    if !HasScheme(link) {
      HasSchemeOfConcat(DefaultSchemeOrHttps(spec), link);
    }
  }

  /** The built-in default `https://` is recognised as a scheme. */
  lemma HttpsIsScheme()
    ensures HasScheme(HttpsScheme)
    ensures HasScheme(DefaultSchemeOrHttps(NewLink(None, None)))
  {
    LeadingLettersExact(HttpsScheme, 5);
  }

  /** The letter run of `s` ends at `k` when the first `k` characters are
      letters and the next one is not. */
  lemma LeadingLettersExact(s: string, k: nat)
    requires k < |s| && !IsAsciiLetter(s[k])
    requires forall i :: 0 <= i < k ==> IsAsciiLetter(s[i])
    ensures LeadingLetters(s) == k
  {
  }

  /** Scheme detection on links written in either case. */
  lemma SchemeExamples()
    ensures HasScheme("http://x") && HasScheme("HTTP://x")
  {
    var lower, upper := "http://x", "HTTP://x";
    LeadingLettersExact(lower, 4);
    LeadingLettersExact(upper, 4);
  }

  /** One letter before `://` is too short for a scheme. */
  lemma ShortSchemeExample()
    ensures !HasScheme("a://x")
  {
    LeadingLettersExact("a://x", 1);
  }

  /** A link without a scheme gets the default `https://` in front. */
  lemma DefaultSchemeExample()
    ensures FullLink(NewLink(None, None), "x.io") == "https://x.io"
  {
    LeadingLettersExact("x.io", 1);
  }

  // ---------------------------------------------------------------------
  // Link target: `transformedURL` and the value `formatText` attaches.
  // ---------------------------------------------------------------------

  /** `transformedURL`: a URL with a scheme is kept; otherwise `mailto:` (for
      an e-mail address) or the default scheme is put before its string and
      the result parsed again. */
  function TransformedUrl(spec: LinkSpec, foundation: Foundation, url: Url): Option<Url>
  {
    if url.scheme.Some? then Some(url)
    else
      var prefix := if foundation.matchesEmailPattern(url.absoluteString) then EmailScheme
                    else DefaultSchemeOrHttps(spec);
      foundation.urlFromString(prefix + url.absoluteString)
  }

  /** The URL `formatText` attaches for `link`, or None when it attaches none. */
  function LinkTarget(spec: LinkSpec, foundation: Foundation, link: string): Option<Url>
  {
    match foundation.percentEncodedForHost(FullLink(spec, link))
    case None => None
    case Some(encoded) =>
      var parsed := match foundation.urlFromString(link)
                    case Some(url) => Some(url)
                    case None => foundation.urlFromString(encoded);
      match parsed
      case None => None
      case Some(url) => TransformedUrl(spec, foundation, url)
  }

  /** `transformedURL`: a URL that has a scheme comes back unchanged; one
      without gets `mailto:` in front when its string is an e-mail address,
      and the default scheme otherwise. */
  lemma TransformedUrlCases(spec: LinkSpec, foundation: Foundation, url: Url)
    ensures url.scheme.Some? ==> TransformedUrl(spec, foundation, url) == Some(url)
    ensures url.scheme.None? && foundation.matchesEmailPattern(url.absoluteString) ==>
              TransformedUrl(spec, foundation, url) == foundation.urlFromString(EmailScheme + url.absoluteString)
    ensures url.scheme.None? && !foundation.matchesEmailPattern(url.absoluteString) ==>
              TransformedUrl(spec, foundation, url) == foundation.urlFromString(DefaultSchemeOrHttps(spec) + url.absoluteString)
  {
  }

  /** `s` starts with the e-mail scheme. */
  predicate HasEmailScheme(s: string)
  {
    |EmailScheme| <= |s| && s[..|EmailScheme|] == EmailScheme
  }

  /** `transformedURL` adds a scheme: when URL parsing gives a scheme to every
      string that starts with `mailto:` or with a scheme, and the default
      scheme is a scheme, every URL it returns has a scheme. */
  lemma TransformedUrlHasScheme(spec: LinkSpec, foundation: Foundation, url: Url)
    requires HasScheme(DefaultSchemeOrHttps(spec))
    requires forall s :: (HasScheme(s) || HasEmailScheme(s)) && foundation.urlFromString(s).Some? ==>
                           foundation.urlFromString(s).value.scheme.Some?
    ensures TransformedUrl(spec, foundation, url).Some? ==> TransformedUrl(spec, foundation, url).value.scheme.Some?
  {
    if url.scheme.None? {
      if foundation.matchesEmailPattern(url.absoluteString) {
        assert HasEmailScheme(EmailScheme + url.absoluteString) by {
          assert (EmailScheme + url.absoluteString)[..|EmailScheme|] == EmailScheme;
        }
      } else {
        HasSchemeOfConcat(DefaultSchemeOrHttps(spec), url.absoluteString);
      }
    }
  }

  /** The target `formatText` attaches: none when `fullLink` cannot be
      percent-encoded; otherwise the link parsed as written, or else its
      encoded `fullLink` parsed, passed through `transformedURL`; none when
      neither parses. */
  lemma LinkTargetCases(spec: LinkSpec, foundation: Foundation, link: string)
    ensures foundation.percentEncodedForHost(FullLink(spec, link)).None? ==> LinkTarget(spec, foundation, link).None?
    ensures forall url :: foundation.percentEncodedForHost(FullLink(spec, link)).Some? &&
                          foundation.urlFromString(link) == Some(url) ==>
                            LinkTarget(spec, foundation, link) == TransformedUrl(spec, foundation, url)
    ensures forall encoded :: foundation.percentEncodedForHost(FullLink(spec, link)) == Some(encoded) &&
                              foundation.urlFromString(link).None? ==>
                                LinkTarget(spec, foundation, link) ==
                                  match foundation.urlFromString(encoded)
                                  case None => None
                                  case Some(url) => TransformedUrl(spec, foundation, url)
  {
  }

  /** A link written with its own scheme, parsed as written to a URL that
      has a scheme, is attached as that URL. */
  lemma SchemeLinkVerbatim(spec: LinkSpec, foundation: Foundation, link: string, url: Url)
    requires HasScheme(link) && foundation.percentEncodedForHost(link).Some?
    requires foundation.urlFromString(link) == Some(url) && url.scheme.Some?
    ensures LinkTarget(spec, foundation, link) == Some(url)
  {
    assert FullLink(spec, link) == link;
  }

  /** A link attribute set to `target`, when there is one. */
  function WithLink(attrs: Attributes, target: Option<Url>): (r: Attributes)
    ensures target.Some? ==> LinkKey in r && r[LinkKey] == LinkValue(target.value)
    ensures forall k :: k != LinkKey ==> (k in r <==> k in attrs)
    ensures forall k :: k in attrs && k != LinkKey ==> r[k] == attrs[k]
    ensures target.None? ==> r == attrs
  {
    match target
    case None => attrs
    case Some(url) => attrs[LinkKey := LinkValue(url)]
  }

  /** `formatText`: attaches the link target to the range when one can be
      built, and changes nothing otherwise. */
  method FormatText(spec: LinkSpec, foundation: Foundation, buffer: MutableAttributedString,
                    location: nat, length: nat, link: string)
    requires buffer.Valid() && location + length <= |buffer.text|
    modifies buffer
    ensures buffer.Valid() && buffer.text == old(buffer.text) && |buffer.attrs| == old(|buffer.attrs|)
    ensures forall i :: location <= i < location + length ==>
              buffer.attrs[i] == WithLink(old(buffer.attrs[i]), LinkTarget(spec, foundation, link))
    ensures forall i :: 0 <= i < |buffer.attrs| && !(location <= i < location + length) ==>
              buffer.attrs[i] == old(buffer.attrs[i])
  {
    var fullLink := FullLink(spec, link);
    var encodedLink := foundation.percentEncodedForHost(fullLink);
    if encodedLink.None? {
      return;
    }
    var url := foundation.urlFromString(link);
    if url.None? {
      url := foundation.urlFromString(encodedLink.value);
    }
    if url.None? {
      return;
    }
    var transformed := TransformedUrl(spec, foundation, url.value);
    if transformed.None? {
      return;
    }
    buffer.AddAttribute(LinkKey, LinkValue(transformed.value), location, length);
  }

  // ---------------------------------------------------------------------
  // Parenthesis balancing of the candidate URL.
  // ---------------------------------------------------------------------

  /** Occurrences of `c` in `s`, counted from the end so that a prefix extends by one step. */
  function Count(s: string, c: char): (n: nat)
    ensures n <= |s|
  {
    if s == [] then 0 else Count(s[..|s| - 1], c) + (if s[|s| - 1] == c then 1 else 0)
  }

  function Opens(s: string): nat
  {
    Count(s, '(')
  }

  function Closes(s: string): nat
  {
    Count(s, ')')
  }

  /** `)` outnumbers `(` in `s`. */
  predicate OverClosed(s: string)
  {
    Closes(s) > Opens(s)
  }

  /** Length of the balanced URL: the first index at which the prefix ending
      there is over-closed, or the whole length when no prefix is. */
  function BalancedLength(s: string): (n: nat)
    ensures n <= |s|
  {
    if s == [] then 0
    else
      var p := BalancedLength(s[..|s| - 1]);
      if p < |s| - 1 then p
      else if OverClosed(s) then |s| - 1
      else |s|
  }

  function BalancedUrl(candidate: string): (url: string)
    ensures |url| <= |candidate| && url == candidate[..|url|]
  {
    candidate[..BalancedLength(candidate)]
  }

  /** Counting one more character adds one exactly when it is `c`. */
  lemma CountStep(s: string, i: nat, c: char)
    requires i < |s|
    ensures Count(s[..i + 1], c) == Count(s[..i], c) + (if s[i] == c then 1 else 0)
  {
    assert s[..i + 1][..i] == s[..i];
  }

  /** No prefix of the balanced URL is over-closed, and when the candidate
      was cut, the prefix that ends with the cut character is. */
  lemma {:induction false} BalancedLengthSpec(s: string)
    ensures forall j :: 0 <= j <= BalancedLength(s) ==> !OverClosed(s[..j])
    ensures BalancedLength(s) < |s| ==> OverClosed(s[..BalancedLength(s) + 1])
  {
    if s == [] {
      assert s[..0] == [];
    } else {
      var t := s[..|s| - 1];
      BalancedLengthSpec(t);
      forall j | 0 <= j <= |t|
        ensures t[..j] == s[..j]
      {
      }
      assert s[..|s|] == s;
    }
  }

  /** Once some prefix is cut short, every longer prefix is cut at the same point. */
  lemma {:induction false} BalancedLengthStable(s: string, m: nat)
    requires m <= |s| && BalancedLength(s[..m]) < m
    ensures BalancedLength(s) == BalancedLength(s[..m])
  {
    if m < |s| {
      var t := s[..|s| - 1];
      assert t[..m] == s[..m];
      BalancedLengthStable(t, m);
    } else {
      assert s[..m] == s;
    }
  }

  /** The character at which the count first tips is a closing parenthesis. */
  lemma TippingCharacterCloses(s: string, n: nat)
    requires n < |s| && !OverClosed(s[..n]) && OverClosed(s[..n + 1])
    ensures s[n] == ')'
  {
    CountStep(s, n, '(');
    CountStep(s, n, ')');
  }

  /** When the candidate is cut, it is cut at a `)`. */
  lemma BalancedUrlCutCharacter(candidate: string)
    ensures |BalancedUrl(candidate)| < |candidate| ==> candidate[|BalancedUrl(candidate)|] == ')'
  {
    var n := BalancedLength(candidate);
    if n < |candidate| {
      BalancedLengthSpec(candidate);
      TippingCharacterCloses(candidate, n);
    }
  }

  /** The balanced URL: the candidate cut at the first index where `)` outnumbers `(`. */
  lemma BalancedUrlProperties(candidate: string)
    ensures forall j :: 0 <= j <= |BalancedUrl(candidate)| ==> !OverClosed(BalancedUrl(candidate)[..j])
    ensures |BalancedUrl(candidate)| < |candidate| ==>
              candidate[|BalancedUrl(candidate)|] == ')' && OverClosed(candidate[..|BalancedUrl(candidate)| + 1])
    ensures (forall j :: 0 <= j <= |candidate| ==> !OverClosed(candidate[..j])) ==> BalancedUrl(candidate) == candidate
  {
    var n := BalancedLength(candidate);
    var url := BalancedUrl(candidate);
    BalancedLengthSpec(candidate);
    forall j | 0 <= j <= n
      ensures url[..j] == candidate[..j]
    {
    }
    if n < |candidate| {
      TippingCharacterCloses(candidate, n);
    }
  }

  /** A trailing unbalanced `)` is cut off. */
  lemma BalancingExample()
    ensures BalancedUrl("a)") == "a"
  {
  }

  /** The balancing loop of `match`: counts `(` and `)` and stops at the first
      point where `)` outnumbers `(`, cutting the URL there. */
  method BalanceParentheses(candidate: string) returns (url: string)
    ensures url == BalancedUrl(candidate)
    ensures |url| <= |candidate| && url == candidate[..|url|]
  {
    url := candidate;
    var openingParentheses, closingParentheses := 0, 0;
    var index := 0;
    while index < |candidate|
      invariant 0 <= index <= |candidate|
      invariant openingParentheses == Opens(candidate[..index])
      invariant closingParentheses == Closes(candidate[..index])
      invariant closingParentheses <= openingParentheses
      invariant BalancedLength(candidate[..index]) == index
      invariant url == candidate
    {
      var character := candidate[index];
      CountStep(candidate, index, '(');
      CountStep(candidate, index, ')');
      assert candidate[..index + 1][..index] == candidate[..index];
      if character == '(' {
        openingParentheses := openingParentheses + 1;
      } else if character == ')' {
        closingParentheses := closingParentheses + 1;
      } else {
        index := index + 1;
        continue;
      }
      if closingParentheses > openingParentheses {
        BalancedLengthStable(candidate, index + 1);
        url := candidate[..index];
        break;
      }
      index := index + 1;
    }
    if url == candidate {
      assert candidate[..|candidate|] == candidate;
    }
  }

  // ---------------------------------------------------------------------
  // `match`: remove the markup, then style and link the label.
  // ---------------------------------------------------------------------

  /** What a match of the link pattern guarantees about its capture groups,
      for a match whose second group is present: group 1 is `[` and at least
      one label character, group 2 follows it directly and is `](` and at
      least one target character, and a `)` follows group 2. */
  predicate IsLinkMatch(text: string, m: LinkMatch)
  {
    var g1, g2 := m.labelGroup, m.targetGroup;
    && g1.length >= 2
    && g2.location == g1.location + g1.length
    && g2.length >= 3
    && g2.location + g2.length < |text|
    && text[g1.location] == '['
    && text[g2.location] == ']'
    && text[g2.location + 1] == '('
    && text[g2.location + g2.length] == ')'
  }

  /** The target text of a match: group 2 without its leading `](`. */
  function Candidate(text: string, m: LinkMatch): (c: string)
    requires IsLinkMatch(text, m)
    ensures |c| == m.targetGroup.length - 2
  {
    text[m.targetGroup.location + 2..m.targetGroup.location + m.targetGroup.length]
  }

  /** Link markup around a label and a URL. */
  function LinkMarkup(text: string, url: string): (r: string)
    ensures |r| == |text| + |url| + 4
  {
    "[" + text + "](" + url + ")"
  }

  /** `s` with the markup of a link taken out: the `n` label elements from
      `L + 1` stay, the one before them and the `k + 3` after them go. */
  function Unmarked<T>(s: seq<T>, L: nat, n: nat, k: nat): (r: seq<T>)
    requires L + n + k + 4 <= |s|
    ensures |r| == |s| - (k + 4)
  {
    s[..L] + s[L + 1..L + 1 + n] + s[L + n + k + 4..]
  }

  /** A sequence whose elements from `a` to `b` are `middle` is what comes
      before `a`, then `middle`, then what comes from `b` on. */
  lemma SplitAround<T>(s: seq<T>, a: nat, b: nat, middle: seq<T>)
    requires a <= b <= |s| && s[a..b] == middle
    ensures s == s[..a] + middle + s[b..]
  {
    assert s == s[..a] + s[a..b] + s[b..];
  }

  /** Text that reads `[`, `n` label characters, `](`, the URL and `)` from
      `L` on holds the link markup there. */
  lemma MarkupAt(text: string, L: nat, n: nat, url: string)
    requires L + n + |url| + 4 <= |text|
    requires text[L] == '[' && text[L + n + 1] == ']' && text[L + n + 2] == '('
    requires text[L + n + 3..L + n + 3 + |url|] == url
    requires text[L + n + 3 + |url|] == ')'
    ensures text[L..L + n + |url| + 4] == LinkMarkup(text[L + 1..L + 1 + n], url)
  {
  }

  /** The text of a match splits into the text before it, the markup of its
      label and balanced URL, and the text after: the `)` that ends the
      markup is the one at which balancing cut the URL, or the match's own
      closing `)` when nothing was cut. */
  lemma LinkMatchSplit(text: string, m: LinkMatch)
    requires IsLinkMatch(text, m)
    ensures var L, n, url := m.labelGroup.location, m.labelGroup.length - 1, BalancedUrl(Candidate(text, m));
            L + n + |url| + 4 <= |text| &&
            text == text[..L] + LinkMarkup(text[L + 1..L + 1 + n], url) + text[L + n + |url| + 4..]
  {
    var L, n, url := m.labelGroup.location, m.labelGroup.length - 1, BalancedUrl(Candidate(text, m));
    var candidate := Candidate(text, m);
    var k := |url|;
    var start := L + n + 3;
    assert candidate == text[start..start + |candidate|];
    BalancedUrlCutCharacter(candidate);
    assert text[start + k] == ')' by {
      if k < |candidate| {
        assert candidate[k] == text[start + k];
      }
    }
    assert text[start..start + k] == url by {
      assert candidate[..k] == text[start..start + k];
    }
    MarkupAt(text, L, n, url);
    SplitAround(text, L, L + n + |url| + 4, LinkMarkup(text[L + 1..L + 1 + n], url));
  }

  /** Putting the markup back around the label of the rewritten text gives
      the matched text again. */
  lemma MarkupRestores(text: string, rewritten: string, m: LinkMatch)
    requires IsLinkMatch(text, m)
    requires var L, n, url := m.labelGroup.location, m.labelGroup.length - 1, BalancedUrl(Candidate(text, m));
             L + n + |url| + 4 <= |text| &&
             rewritten == Unmarked(text, L, n, |url|)
    ensures var L, n, url := m.labelGroup.location, m.labelGroup.length - 1, BalancedUrl(Candidate(text, m));
            && |rewritten| == |text| - (|url| + 4)
            && text == rewritten[..L] + LinkMarkup(rewritten[L..L + n], url) + rewritten[L + n..]
  {
    var L, n, url := m.labelGroup.location, m.labelGroup.length - 1, BalancedUrl(Candidate(text, m));
    LinkMatchSplit(text, m);
    LabelParts(text, rewritten, L, n, |url|);
  }

  /** The start of `match`: deletes the `[` of group 1, then the `]` (at
      `location - 1` of group 2 once the `[` is gone), and reads the target
      text from the shortened string: from where group 2 started up to two
      before where it ended. Both brackets are gone, everything between them
      has moved left by one and everything after them by two. */
  method RemoveBrackets(m: LinkMatch, buffer: MutableAttributedString) returns (candidate: string)
    requires buffer.Valid() && IsLinkMatch(buffer.text, m)
    modifies buffer
    ensures buffer.Valid()
    ensures candidate == Candidate(old(buffer.text), m)
    ensures var open, close := m.labelGroup.location, m.targetGroup.location;
            && buffer.text == old(buffer.text[..open] + buffer.text[open + 1..close] + buffer.text[close + 1..])
            && buffer.attrs == old(buffer.attrs[..open] + buffer.attrs[open + 1..close] + buffer.attrs[close + 1..])
  {
    ghost var text0, attrs0 := buffer.text, buffer.attrs;
    var g1, g2 := m.labelGroup, m.targetGroup;
    // the `[`
    buffer.DeleteCharacters(g1.location, 1);
    // the `]`, one to the left now that the `[` is gone
    buffer.DeleteCharacters(g2.location - 1, 1);
    assert buffer.text == text0[..g1.location] + text0[g1.location + 1..g2.location] + text0[g2.location + 1..];
    assert buffer.attrs == attrs0[..g1.location] + attrs0[g1.location + 1..g2.location] + attrs0[g2.location + 1..];

    var urlStart := g2.location;
    candidate := buffer.text[urlStart..g2.location + g2.length - 2];
    assert candidate == text0[g2.location + 2..g2.location + g2.length];
  }

  /** The two target deletions of `match`, once the brackets are gone and
      `(` sits at `urlStart - 1`: first the character just after the `(`
      (the first URL character, or, for an empty URL, the `)` that ends the
      markup), then the `(` and the `urlLength` characters that now follow
      it. Together they remove `(`, the URL and the `)` after it; relative to the
      text before the brackets went (`text0`, `attrs0`, label at `L + 1` of
      length `n`), only the text before the markup, the label and the text
      after the markup remain. */
  method RemoveTarget(buffer: MutableAttributedString, urlStart: nat, urlLength: nat,
                      ghost text0: string, ghost attrs0: seq<Attributes>, ghost L: nat, ghost n: nat)
    requires buffer.Valid() && urlStart == L + n + 1 && urlStart + urlLength + 3 <= |text0| == |attrs0|
    requires buffer.text == text0[..L] + text0[L + 1..urlStart] + text0[urlStart + 1..]
    requires buffer.attrs == attrs0[..L] + attrs0[L + 1..urlStart] + attrs0[urlStart + 1..]
    modifies buffer
    ensures buffer.Valid()
    ensures buffer.text == Unmarked(text0, L, n, urlLength)
    ensures buffer.attrs == Unmarked(attrs0, L, n, urlLength)
  {
    ghost var text1, attrs1 := buffer.text, buffer.attrs;
    // the character after the `(`: the first URL character, or the `)` when the URL is empty
    buffer.DeleteCharacters(urlStart, 1);
    // the `(` and the `urlLength` characters that now follow it
    buffer.DeleteCharacters(urlStart - 1, urlLength + 1);
    assert buffer.text == text1[..urlStart - 1] + text1[urlStart + urlLength + 1..];
    assert buffer.attrs == attrs1[..urlStart - 1] + attrs1[urlStart + urlLength + 1..];
    MatchDeletions(text0, buffer.text, L, n, urlStart, urlLength);
    MatchDeletions(attrs0, buffer.attrs, L, n, urlStart, urlLength);
  }

  /** The four deletions of `match` on a sequence, with the label at `L + 1`
      of length `n`, `]` at `c = L + n + 1` and a balanced URL of length `k`:
      only the text before the markup, the label and the text after it
      remain, the label moved left by one and the rest by `k + 4`. */
  lemma MatchDeletions<T>(s: seq<T>, r: seq<T>, L: nat, n: nat, c: nat, k: nat)
    requires c == L + n + 1 && c + k + 3 <= |s|
    requires var s2 := s[..L] + s[L + 1..c] + s[c + 1..];
             r == s2[..c - 1] + s2[c + k + 1..]
    ensures r == Unmarked(s, L, n, k)
  {
  }

  /** The parts of a sequence with the markup dropped: what comes before the
      label, the label (whose first element is the original's at `L + 1`)
      and what comes after. */
  lemma LabelParts<T>(s: seq<T>, r: seq<T>, L: nat, n: nat, k: nat)
    requires 1 <= n && L + n + k + 4 <= |s|
    requires r == Unmarked(s, L, n, k)
    ensures r[..L] == s[..L]
    ensures r[L..L + n] == s[L + 1..L + 1 + n]
    ensures r[L] == s[L + 1]
    ensures r[L + n..] == s[L + n + k + 4..]
  {
  }


  /** The dictionary holds a font under the font key (a value of another
      kind there does not pass the cast to a font). */
  predicate HasFont(attrs: Attributes)
  {
    FontKey in attrs && attrs[FontKey].FontValue?
  }

  /** The attributes a label character ends with: its own, overridden by the
      element's, then the link target if there is one, then the font found on
      the first label character before styling, if there was one. */
  function LabelAttributes(original: Attributes, first: Attributes, element: Attributes, target: Option<Url>): Attributes
  {
    var linked := WithLink(original + element, target);
    if HasFont(first) then linked[FontKey := first[FontKey]] else linked
  }

  /** The label's dictionaries after styling, `first` being the dictionary
      of the first label character before styling. */
  function StyledLabel(labelAttrs: seq<Attributes>, first: Attributes, element: Attributes, target: Option<Url>): (r: seq<Attributes>)
    ensures |r| == |labelAttrs|
  {
    seq(|labelAttrs|, i requires 0 <= i < |labelAttrs| => LabelAttributes(labelAttrs[i], first, element, target))
  }

  /** Which key a styled label character carries, and from where: a font
      read first wins over the element's font, the link target (when there is
      one) over any link already present, the element's attributes over the
      character's own, and no other key appears. */
  lemma LabelAttributesSpec(original: Attributes, first: Attributes, element: Attributes, target: Option<Url>)
    ensures var r := LabelAttributes(original, first, element, target);
            && (HasFont(first) ==> FontKey in r && r[FontKey] == first[FontKey])
            && (!HasFont(first) ==> (FontKey in r <==> FontKey in original + element))
            && (!HasFont(first) && FontKey in element ==> r[FontKey] == element[FontKey])
            && (!HasFont(first) && FontKey !in element && FontKey in original ==> r[FontKey] == original[FontKey])
            && (target.Some? ==> LinkKey in r && r[LinkKey] == LinkValue(target.value))
            && (target.None? ==> (LinkKey in r <==> LinkKey in original + element))
            && (target.None? && LinkKey in element ==> r[LinkKey] == element[LinkKey])
            && (target.None? && LinkKey !in element && LinkKey in original ==> r[LinkKey] == original[LinkKey])
            && (forall k :: k != FontKey && k != LinkKey && k in element ==> k in r && r[k] == element[k])
            && (forall k :: k != FontKey && k != LinkKey && k in original && k !in element ==> k in r && r[k] == original[k])
            && (forall k :: k in r ==> k in original || k in element || k in first || k == LinkKey)
  {
  }


  /** The deletions of `match` (its first half): `[`, then `]`, then the
      balancing of the target text, then the first target character, then the
      `(` with the rest of the balanced URL and one `)`. */
  method RemoveMarkup(m: LinkMatch, buffer: MutableAttributedString) returns (urlString: string)
    requires buffer.Valid() && IsLinkMatch(buffer.text, m)
    modifies buffer
    ensures buffer.Valid()
    ensures urlString == BalancedUrl(Candidate(old(buffer.text), m))
    ensures var L, n := m.labelGroup.location, m.labelGroup.length - 1;
            && L + n + |urlString| + 4 <= old(|buffer.text|)
            && buffer.text == Unmarked(old(buffer.text), L, n, |urlString|)
            && buffer.attrs == Unmarked(old(buffer.attrs), L, n, |urlString|)
            && old(buffer.text) == buffer.text[..L] + LinkMarkup(buffer.text[L..L + n], urlString) + buffer.text[L + n..]
  {
    var candidate := RemoveBrackets(m, buffer);
    urlString := BalanceParentheses(candidate);

    RemoveTarget(buffer, m.targetGroup.location, |urlString|, old(buffer.text), old(buffer.attrs),
                 m.labelGroup.location, m.labelGroup.length - 1);
    MarkupRestores(old(buffer.text), buffer.text, m);
  }

  /** A range of dictionaries styled one by one, the rest unchanged, is the
      sequence with its range replaced by the styled range. */
  lemma RangeStyled(before: seq<Attributes>, after: seq<Attributes>, location: nat, length: nat,
                    element: Attributes, target: Option<Url>)
    requires location < location + length <= |before| == |after|
    requires forall i :: location <= i < location + length ==>
               after[i] == LabelAttributes(before[i], before[location], element, target)
    requires forall i :: 0 <= i < |after| && !(location <= i < location + length) ==> after[i] == before[i]
    ensures after == before[..location] + StyledLabel(before[location..location + length], before[location], element, target)
                     + before[location + length..]
  {
  }

  /** The second half of `match`: reads the attributes at the label's first
      character, adds the element's attributes and the link over the label,
      then re-applies the font read first, if there was one. */
  method StyleLabel(spec: LinkSpec, foundation: Foundation, elementAttributes: Attributes,
                    buffer: MutableAttributedString, location: nat, length: nat, link: string)
    requires buffer.Valid() && location + length <= |buffer.text| && length > 0
    modifies buffer
    ensures buffer.Valid() && buffer.text == old(buffer.text) && |buffer.attrs| == old(|buffer.attrs|)
    ensures buffer.attrs == old(buffer.attrs[..location])
                            + StyledLabel(old(buffer.attrs[location..location + length]), old(buffer.attrs[location]),
                                          elementAttributes, LinkTarget(spec, foundation, link))
                            + old(buffer.attrs[location + length..])
  {
    ghost var attrs0 := buffer.attrs;
    var currentAttributes := buffer.AttributesAt(location);
    buffer.AddAttributes(elementAttributes, location, length);
    FormatText(spec, foundation, buffer, location, length, link);
    if HasFont(currentAttributes) {
      buffer.AddAttribute(FontKey, currentAttributes[FontKey], location, length);
    }
    RangeStyled(attrs0, buffer.attrs, location, length, elementAttributes, LinkTarget(spec, foundation, link));
  }

  /** `match`: deletes `[`, `]`, `(`, the balanced URL and one `)`, keeps the
      label, gives it the element's attributes and the link target, and puts
      back the font the label started with. */
  method Match(spec: LinkSpec, foundation: Foundation, elementAttributes: Attributes,
               m: LinkMatch, buffer: MutableAttributedString)
    requires buffer.Valid() && IsLinkMatch(buffer.text, m)
    modifies buffer
    ensures buffer.Valid()
    ensures var L, n := m.labelGroup.location, m.labelGroup.length - 1;
            var url := BalancedUrl(Candidate(old(buffer.text), m));
            && |buffer.text| == old(|buffer.text|) - (|url| + 4)
            && buffer.text == Unmarked(old(buffer.text), L, n, |url|)
            && old(buffer.text) == buffer.text[..L] + LinkMarkup(buffer.text[L..L + n], url) + buffer.text[L + n..]
    ensures var L, n := m.labelGroup.location, m.labelGroup.length - 1;
            var url := BalancedUrl(Candidate(old(buffer.text), m));
            buffer.attrs == old(buffer.attrs[..L])
                            + StyledLabel(old(buffer.attrs[L + 1..L + 1 + n]), old(buffer.attrs[L + 1]),
                                          elementAttributes, LinkTarget(spec, foundation, url))
                            + old(buffer.attrs[L + n + |url| + 4..])
  {
    ghost var text0, attrs0 := buffer.text, buffer.attrs;
    var urlString := RemoveMarkup(m, buffer);
    LabelParts(attrs0, buffer.attrs, m.labelGroup.location, m.labelGroup.length - 1, |urlString|);
    // The label's range once the markup is gone
    var L, n := m.labelGroup.location, m.targetGroup.location - 1 - m.labelGroup.location;
    StyleLabel(spec, foundation, elementAttributes, buffer, L, n, urlString);
  }
}
