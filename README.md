# MarkdownKit link and list elements, modelled in Dafny

This project models two MarkdownKit markup elements. Both rewrite an `NSMutableAttributedString` in place.

- **`MarkdownLink`** handles one match of the link pattern `[label](target)`. It deletes the bracket and parenthesis syntax and the target text, leaving only the label. It balances parentheses so that a trailing unbalanced `)` is not taken as part of the URL. It gives the label the element's attributes. When the label's first character carries a font, that font is put back over the whole label, so a different font on a later label character is replaced by it (or by the element's font when the first character has none). It attaches a link attribute whose URL is completed with a scheme: the URL's own scheme, `mailto:` for an e-mail address, or the default scheme (`https://` unless configured).
- **`MarkdownList`** builds its line pattern from `maxLevel`. It builds the bullet text from the paragraph prefix, the indicator and the paragraph suffix. It adds the level's attributes to the matched range before replacing that range with the bullet text.

Files:

- `attributed_string.dfy` (module `AttributedText`): the attributed string.
  - It holds characters plus one attribute dictionary per character.
  - Its edits are `DeleteCharacters`, `AddAttributes`/`AddAttribute` and `ReplaceCharacters`.
  - Replacement gives the new characters the attributes of the first replaced character. For an empty range they take those of the preceding character, else of the following one. This is the platform's documented behaviour, and the ordering comment in `MarkdownList.formatText` relies on it.
- `markdown_link.dfy` (module `MarkdownLink`): the link element. This covers:
  - the scheme test;
  - `fullLink`, `transformedURL` and the link target;
  - the paren-balancing loop;
  - the four deletions of `match`;
  - the attribute steps of `match`.
- `markdown_list.dfy` (module `MarkdownList`): the list element. This covers:
  - its defaults;
  - the level-substituted pattern;
  - the bullet text;
  - `formatText`.

A regex match enters as its capture ranges (`LinkMatch`). `IsLinkMatch` states what the link pattern guarantees about them: group 2 is present and follows group 1 directly, the syntax characters `[`, `]`, `(` and `)` are where the pattern puts them, and the target has at least one character. It does not model a regex engine.

`match` is modelled as two steps, `RemoveMarkup` (source lines 57-88) and `StyleLabel` (lines 90-109). `Match` runs them in order, as the source does. The source comment at line 83 says "Remove opening parantheses", but after the two bracket deletions the `(` sits at `range(at: 2).location - 1`. So line 84 deletes the character just after the `(`: the first character of the balanced URL, or, when that URL is empty, the `)` that ends the markup. Line 88 then deletes the `(` and the `|url|` characters that follow it: the rest of the URL and one `)`, or only the `(` for an empty URL. The model follows the code. The net effect is the same: `[`, `]`, `(`, the balanced URL and one `)` are removed (`Match`, `LinkMatchSplit`).

## Model

| member | source | states |
|---|---|---|
| `AttributedText.MutableAttributedString.DeleteCharacters` | MarkdownKit/Sources/Common/Elements/Link/MarkdownLink.swift:58 | the text and the attributes lose exactly the range; everything after it moves left by the range length |
| `AttributedText.MutableAttributedString.AddAttributes` | MarkdownKit/Sources/Common/Elements/List/MarkdownList.swift:74 | inside the range, each character's dictionary is merged with the new attributes, new values winning; outside the range nothing changes; the text is unchanged |
| `AttributedText.MutableAttributedString.AddAttribute` | MarkdownKit/Sources/Common/Elements/Link/MarkdownLink.swift:104-108 | one key is set over the range; nothing else changes |
| `AttributedText.MutableAttributedString.ReplaceCharacters` | MarkdownKit/Sources/Common/Elements/List/MarkdownList.swift:76 | the text becomes before + new string + after; the new characters take the inherited attributes; the attributes before the range are kept and those after it shift by `|s| - length` |
| `AttributedText.MutableAttributedString.AttributesAt` | MarkdownKit/Sources/Common/Elements/Link/MarkdownLink.swift:94-98 | gives the dictionary of one character |
| `AttributedText.InheritedAttributes` | MarkdownKit/Sources/Common/Elements/List/MarkdownList.swift:72-76 | new characters inherit from the first replaced character; for an empty range, from the preceding character, else from the following one, else they get none |
| `MarkdownLink.NewLink` | MarkdownKit/Sources/Common/Elements/Link/MarkdownLink.swift:36-39 | the initialiser keeps the font and colour and sets no default scheme, so `defaultSchemeOrHttps` is `https://` |
| `MarkdownLink.LeadingLetters` | MarkdownKit/Sources/Common/Elements/Link/MarkdownLink.swift:21 | counts the leading run of ASCII letters: every character before the count is a letter, and the character at the count is not |
| `MarkdownLink.HasSchemeMatchesPattern` | MarkdownKit/Sources/Common/Elements/Link/MarkdownLink.swift:42-47 | `HasScheme` (`hasScheme`): `hasScheme` holds iff the link starts with 2 to 20 ASCII letters of either case followed by `://` (the anchored pattern); both directions are proved |
| `MarkdownLink.HasSchemeOfConcat` | MarkdownKit/Sources/Common/Elements/Link/MarkdownLink.swift:42-49 | a string that has a scheme still has it whatever is appended |
| `MarkdownLink.FullLinkChoice` | MarkdownKit/Sources/Common/Elements/Link/MarkdownLink.swift:49 | `FullLink`: `fullLink` is the link itself when the scheme pattern matches, and `defaultScheme ?? "https://"` followed by the link otherwise |
| `MarkdownLink.FullLinkIdempotent` | MarkdownKit/Sources/Common/Elements/Link/MarkdownLink.swift:22-49 | when the default scheme is itself a scheme, `fullLink` always has a scheme, and completing it a second time changes nothing |
| `MarkdownLink.HttpsIsScheme` | MarkdownKit/Sources/Common/Elements/Link/MarkdownLink.swift:22 | the built-in default `https://` passes the scheme test, including for a freshly initialised element |
| `MarkdownLink.LeadingLettersExact` | MarkdownKit/Sources/Common/Elements/Link/MarkdownLink.swift:21 | the letter run ends at the first non-letter |
| `MarkdownLink.SchemeExamples` | MarkdownKit/Sources/Common/Elements/Link/MarkdownLink.swift:42-47 | `http://x` and `HTTP://x` have a scheme |
| `MarkdownLink.ShortSchemeExample` | MarkdownKit/Sources/Common/Elements/Link/MarkdownLink.swift:42-47 | `a://x` has no scheme: one letter is too short |
| `MarkdownLink.DefaultSchemeExample` | MarkdownKit/Sources/Common/Elements/Link/MarkdownLink.swift:49 | `x.io` becomes `https://x.io` with the defaults |
| `MarkdownLink.TransformedUrlCases` | MarkdownKit/Sources/Common/Elements/Link/MarkdownLink.swift:118-125 | `TransformedUrl` (`transformedURL`): a URL with a scheme is returned unchanged; one without is re-parsed with `mailto:` in front when its string is an e-mail address, and with the default scheme in front otherwise |
| `MarkdownLink.TransformedUrlHasScheme` | MarkdownKit/Sources/Common/Elements/Link/MarkdownLink.swift:116-125 | `TransformedUrl` adds a scheme: if URL parsing gives a scheme to every string starting with `mailto:` or with a scheme, and the default scheme is a scheme, every URL it returns has a scheme |
| `MarkdownLink.LinkTargetCases` | MarkdownKit/Sources/Common/Elements/Link/MarkdownLink.swift:51-53 | `LinkTarget` (the value `formatText` attaches): there is no target when `fullLink` cannot be percent-encoded; otherwise the link parsed as written is used, falling back to the encoded `fullLink`, and the result passes through `transformedURL`; there is no target when neither parses |
| `MarkdownLink.SchemeLinkVerbatim` | MarkdownKit/Sources/Common/Elements/Link/MarkdownLink.swift:42-52 | a link that has a scheme, can be encoded and parses as written to a URL with a scheme is attached as exactly that URL |
| `MarkdownLink.WithLink` | MarkdownKit/Sources/Common/Elements/Link/MarkdownLink.swift:53 | with a target, the link key holds it; every other key is untouched; without a target nothing changes |
| `MarkdownLink.FormatText` | MarkdownKit/Sources/Common/Elements/Link/MarkdownLink.swift:41-54 | the text is unchanged; inside the range the link target is set when there is one; outside the range nothing changes |
| `MarkdownLink.BalancedUrl` | MarkdownKit/Sources/Common/Elements/Link/MarkdownLink.swift:78 | the balanced URL is a prefix of the candidate |
| `MarkdownLink.BalancedLengthSpec` | MarkdownKit/Sources/Common/Elements/Link/MarkdownLink.swift:68-81 | no prefix up to the cut is over-closed; when the candidate is cut, the prefix that ends with the cut character is over-closed |
| `MarkdownLink.BalancedLengthStable` | MarkdownKit/Sources/Common/Elements/Link/MarkdownLink.swift:77-79 | once a prefix has been cut, every longer prefix is cut at the same point (why `break` is correct) |
| `MarkdownLink.TippingCharacterCloses` | MarkdownKit/Sources/Common/Elements/Link/MarkdownLink.swift:72-77 | the character at which `)` first outnumbers `(` is a `)` |
| `MarkdownLink.BalancedUrlProperties` | MarkdownKit/Sources/Common/Elements/Link/MarkdownLink.swift:68-81 | every prefix of the balanced URL has no more `)` than `(`; a cut happens at the first over-closing index and the character there is `)`; a candidate that is never over-closed comes back unchanged |
| `MarkdownLink.BalancingExample` | MarkdownKit/Sources/Common/Elements/Link/MarkdownLink.swift:68-81 | `a)` is cut to `a` |
| `MarkdownLink.BalanceParentheses` | MarkdownKit/Sources/Common/Elements/Link/MarkdownLink.swift:68-81 | the counting loop with `break` returns exactly the balanced URL, a prefix of the candidate |
| `MarkdownLink.Candidate` | MarkdownKit/Sources/Common/Elements/Link/MarkdownLink.swift:63-66 | the candidate is group 2 without its `](`; its length is the group length minus 2 |
| `MarkdownLink.LinkMatchSplit` | MarkdownKit/Sources/Common/Elements/Link/MarkdownLink.swift:58-88 | the matched text is the text before + `[` + label + `](` + balanced URL + `)` + the text after; the closing `)` is the cut character, or the match's own `)` when nothing was cut |
| `MarkdownLink.MarkupAt` | MarkdownKit/Sources/Common/Elements/Link/MarkdownLink.swift:56-88 | text that reads `[`, the label, `](`, the URL and `)` from the label's start holds exactly the markup of that label and URL |
| `MarkdownLink.MarkupRestores` | MarkdownKit/Sources/Common/Elements/Link/MarkdownLink.swift:56-88 | the text left by the deletions has the same text before the label, the same label and the same text after it; putting `[`, `](`, the balanced URL and `)` back around the label gives the matched text again |
| `MarkdownLink.RemoveBrackets` | MarkdownKit/Sources/Common/Elements/Link/MarkdownLink.swift:56-66 | after the `[` and `]` deletions, the text and attributes lack exactly those two characters; the substring read from `range(at: 2).location` to `upperBound - 2` is group 2 without its `](` |
| `MarkdownLink.RemoveTarget` | MarkdownKit/Sources/Common/Elements/Link/MarkdownLink.swift:83-88 | the deletion at `range(at: 2).location` and the one of `urlString.count + 1` characters at `location - 1` remove `(`, the balanced URL and one `)`; relative to the text before the brackets went, only the text before the markup, the label and the text after it remain |
| `MarkdownLink.MatchDeletions` | MarkdownKit/Sources/Common/Elements/Link/MarkdownLink.swift:58-88 | on any sequence: the four deletions at their offsets leave only the part before the markup, the label and the part after it |
| `MarkdownLink.LabelAttributesSpec` | MarkdownKit/Sources/Common/Elements/Link/MarkdownLink.swift:94-109 | `LabelAttributes` (one label character after styling; `StyledLabel` applies it to every label character): a font found (as a font value) on the first label character beforehand wins over every other font; without one, the element's font applies, else the character's own font survives; the link key holds the target when there is one, and otherwise keeps the element's or the character's own link; other element attributes apply; other pre-existing attributes survive; no other key appears |
| `MarkdownLink.RangeStyled` | MarkdownKit/Sources/Common/Elements/Link/MarkdownLink.swift:94-109 | a range whose dictionaries are each styled, with nothing else changed, is the sequence with that range replaced by its styled label |
| `MarkdownLink.RemoveMarkup` | MarkdownKit/Sources/Common/Elements/Link/MarkdownLink.swift:57-88 | the returned URL is the balanced candidate; text and attributes lose `[`, `]`, `(`, the URL and one `)`, and nothing else; putting the markup back around the label gives the old text |
| `MarkdownLink.StyleLabel` | MarkdownKit/Sources/Common/Elements/Link/MarkdownLink.swift:90-109 | the attributes become those before the range, then `StyledLabel` of the range (each dictionary merged with the element's attributes, the link target and the font first read at the range's start when that value is a font), then those after it; the text is unchanged |
| `MarkdownLink.Match` | MarkdownKit/Sources/Common/Elements/Link/MarkdownLink.swift:56-110 | the buffer shrinks by URL length + 4; the text is the old one without the markup; re-inserting `[`, `](`, the URL and `)` around the label gives back the old text; the attributes are the old ones before the label, the label's old ones styled by `StyledLabel` (with `formatRange` at group 1's start and of length `group1.length - 1`), and the old ones after the markup |
| `MarkdownList.NewList` | MarkdownKit/Sources/Common/Elements/List/MarkdownList.swift:35-50 | the defaults: `maxLevel` 0, a one-character bullet indicator, prefix of two spaces, suffix of one space, and no font, colour or spacing |
| `MarkdownList.Decimal` | MarkdownKit/Sources/Common/Elements/List/MarkdownList.swift:31 | the decimal form of the level is non-empty, all digits, with no leading zero |
| `MarkdownList.DecimalRoundTrip` | MarkdownKit/Sources/Common/Elements/List/MarkdownList.swift:31 | reading the decimal form back gives the number |
| `MarkdownList.ListRegexShape` | MarkdownKit/Sources/Common/Elements/List/MarkdownList.swift:30-33 | `ListRegex` (`regex`): the pattern keeps its fixed head `^([\*\+\-]{1,` and tail `})\s+(.+)$`; between them stands `maxLevel` in decimal when it is positive (`{1,maxLevel}`) and nothing otherwise (`{1,}`) |
| `MarkdownList.ListRegexInjective` | MarkdownKit/Sources/Common/Elements/List/MarkdownList.swift:30-33 | two `maxLevel`s give the same pattern iff they are equal or both are 0 or less |
| `MarkdownList.RepeatLength` | MarkdownKit/Sources/Common/Elements/List/MarkdownList.swift:53-55 | `Repeat` (the `reduce`): the `reduce` yields `level * |prefix|` characters |
| `MarkdownList.RepeatUnfoldFront` | MarkdownKit/Sources/Common/Elements/List/MarkdownList.swift:53-55 | appending one more prefix equals putting it in front |
| `MarkdownList.BulletLength` | MarkdownKit/Sources/Common/Elements/List/MarkdownList.swift:53-56 | `Bullet` (the bullet text): the bullet length is `level*|prefix| + |indicator| + |suffix|` |
| `MarkdownList.BulletRecurrence` | MarkdownKit/Sources/Common/Elements/List/MarkdownList.swift:53-56 | `bullet(0) == indicator + suffix` and `bullet(level+1) == prefix + bullet(level)` |
| `MarkdownList.BulletLengthMonotone` | MarkdownKit/Sources/Common/Elements/List/MarkdownList.swift:53-56 | the bullet length never decreases with the level, and strictly increases when the prefix is non-empty |
| `MarkdownList.DefaultBullets` | MarkdownKit/Sources/Common/Elements/List/MarkdownList.swift:35-56 | with the defaults, level 0 gives `• ` and level 2 gives four spaces then `• ` |
| `MarkdownList.ListAttributes` | MarkdownKit/Sources/Common/Elements/List/MarkdownList.swift:58-70 | the level's attributes, with the paragraph style set and every other key kept |
| `MarkdownList.FormatText` | MarkdownKit/Sources/Common/Elements/List/MarkdownList.swift:52-77 | the text becomes before + bullet + after; the length changes by `|bullet| - length`; attributes before the range are unchanged; for a non-empty range every bullet character carries the range's first dictionary merged with the level attributes, so every level attribute and the paragraph style are on every bullet character (because the attributes are added before the replacement); for an empty range the bullet takes the inherited dictionary; attributes after the range are the old ones, shifted |

## Left out

- Regex matching. The model leaves out the link pattern (MarkdownLink.swift:19), `regularExpression()`, the evaluation of the list pattern and `NSRegularExpression`. Matches enter as capture ranges that satisfy `IsLinkMatch`.
- The e-mail expression (MarkdownLink.swift:15, 127-129) is the input predicate `Foundation.matchesEmailPattern`. The RFC 5322 grammar is not modelled.
- Foundation URL handling. `URL(string:)`, `addingPercentEncoding(withAllowedCharacters: .urlHostAllowed)`, `url.scheme` and `absoluteString` enter as the input functions of `Foundation` and the fields of `Url`. When one of them yields nothing, no link attribute is set, as in the source.
- Group 2 absent. `match` is modelled only for matches whose group 2 is present. With `NSNotFound`, the arithmetic at MarkdownLink.swift:61 is not meaningful.
- Character units. The model assumes that every Swift `Character` is one UTF-16 unit, so one offset is one character. The source mixes UTF-16 offsets (NSRange, `NSString.substring`) with `Character` counts (`enumerated`, `count`), and `Character` is a grapheme cluster. Every `Character` longer than one unit breaks the assumption: scalars outside the Basic Multilingual Plane, and clusters of several scalars such as a letter with a combining mark, an emoji with a variation selector, or `\r\n`. For a URL holding one, line 87 deletes fewer units than the URL has, and a `(` or `)` followed by a combining mark is not counted by the balancing loop. None of this is modelled.
- Case-insensitive letters. The scheme test treats the letters of `[a-z]` under case-insensitive matching as the 52 ASCII letters. Any further Unicode case folding is not modelled.
- Layout. The model leaves out the paragraph style's `paragraphSpacingBefore` (`paragraphSpacing ?? pointSize / 3`) and `headIndent` (the `boundingRect` width of the bullet text), because both are floating-point font measurements. The paragraph style enters `MarkdownList.FormatText` as a value.
- Definitions from other files. The elements' `attributes` property, the `attributesForLevel` hook, `MarkdownLink.defaultColor` and `MarkdownParser.defaultFont` are defined elsewhere. Their values enter as inputs. Fonts and colours are opaque values.
- Reassigning configuration. The elements' `open var` configuration fields are modelled as immutable `LinkSpec`/`ListSpec` values, because no modelled operation assigns them.
- The default indicator is the bullet glyph U+2022. In MarkdownList.swift:37 it appears as the UTF-8 bytes of that glyph, shown as three characters.
- `MarkdownLink.BalanceParentheses`: its `ensures` ties the result to `BalancedUrl` and states that it is a prefix of the candidate. The balance and first-cut properties are proved separately in `BalancedUrlProperties`.
- Negative levels. `MarkdownList.FormatText` takes the level as a natural number. The source takes an `Int`, and `(0..<level)` traps for a negative one; callers pass a marker count, so the type excludes that trap.
