/** The bulleted-list element. A line that starts with one or more of `*`,
    `+`, `-` becomes a bullet: the markers are replaced by the paragraph
    prefix repeated once per level, the indicator and the paragraph suffix,
    and the line's range carries the level's attributes and a paragraph
    style. */
module MarkdownList {
  import opened AttributedText

  /** The element's configuration. `maxLevel` is a signed integer; zero or
      less means no bound on the number of markers. */
  datatype ListSpec = ListSpec(
    maxLevel: int,
    indicator: string,
    paragraphPrefix: string,
    paragraphSuffix: string,
    font: Option<Font>,
    color: Option<Color>,
    paragraphSpacing: Option<real>)

  const BulletGlyph: string := "•"

  /** The initialiser with every parameter at its default. */
  function NewList(): (r: ListSpec)
    ensures r.maxLevel == 0
    ensures r.indicator == BulletGlyph && |r.indicator| == 1
    ensures r.paragraphPrefix == "  " && r.paragraphSuffix == " "
    ensures r.font.None? && r.color.None? && r.paragraphSpacing.None?
  {
    ListSpec(0, BulletGlyph, "  ", " ", None, None, None)
  }

  // ---------------------------------------------------------------------
  // The line pattern `^([\*\+\-]{1,%@})\s+(.+)$` with the level bound substituted.
  // ---------------------------------------------------------------------

  const PatternHead: string := "^([\\*\\+\\-]{1,"
  const PatternTail: string := "})\\s+(.+)$"

  function DigitChar(d: nat): (c: char)
    requires d < 10
    ensures '0' <= c <= '9' && (c as int) - ('0' as int) == d
  {
    ('0' as int + d) as char
  }

  /** Decimal notation of a natural number, as string interpolation writes it. */
  function Decimal(n: nat): (s: string)
    ensures |s| > 0
    ensures forall i :: 0 <= i < |s| ==> '0' <= s[i] <= '9'
    ensures n > 0 ==> s[0] != '0'
  {
    if n < 10 then [DigitChar(n)] else Decimal(n / 10) + [DigitChar(n % 10)]
  }

  /** The value of a string of decimal digits. */
  function DigitsValue(s: string): nat
    requires forall i :: 0 <= i < |s| ==> '0' <= s[i] <= '9'
  {
    if s == [] then 0
    else DigitsValue(s[..|s| - 1]) * 10 + ((s[|s| - 1] as int) - ('0' as int))
  }

  /** Reading the decimal notation back gives the number. */
  lemma {:induction false} DecimalRoundTrip(n: nat)
    ensures DigitsValue(Decimal(n)) == n
  {
    if n >= 10 {
      DecimalRoundTrip(n / 10);
      var s := Decimal(n);
      assert s[..|s| - 1] == Decimal(n / 10);
    }
  }

  /** The text substituted for `%@`: the bound when positive, nothing otherwise. */
  function LevelBound(maxLevel: int): string
  {
    if maxLevel > 0 then Decimal(maxLevel) else ""
  }

  /** `regex`: the line pattern with the repetition bound substituted. */
  function ListRegex(maxLevel: int): string
  {
    PatternHead + LevelBound(maxLevel) + PatternTail
  }

  /** The pattern keeps its fixed head and tail; between them stands
      `maxLevel` in decimal when it is positive (quantifier `{1,maxLevel}`)
      and nothing otherwise (quantifier `{1,}`). */
  lemma ListRegexShape(maxLevel: int)
    ensures var r := ListRegex(maxLevel);
            && |r| == |PatternHead| + |LevelBound(maxLevel)| + |PatternTail|
            && r[..|PatternHead|] == PatternHead
            && r[|r| - |PatternTail|..] == PatternTail
    ensures var r := ListRegex(maxLevel);
            var bound := r[|PatternHead|..|r| - |PatternTail|];
            && (maxLevel <= 0 ==> bound == "")
            && (maxLevel > 0 ==> bound != "" && (forall i :: 0 <= i < |bound| ==> '0' <= bound[i] <= '9')
                                  && DigitsValue(bound) == maxLevel)
  {
    var r := ListRegex(maxLevel);
    assert r[|PatternHead|..|r| - |PatternTail|] == LevelBound(maxLevel);
    if maxLevel > 0 {
      DecimalRoundTrip(maxLevel);
    }
  }

  /** Two configurations give the same pattern exactly when they have the
      same positive bound or are both unbounded. */
  lemma ListRegexInjective(a: int, b: int)
    ensures ListRegex(a) == ListRegex(b) <==> (a == b || (a <= 0 && b <= 0))
  {
    if ListRegex(a) == ListRegex(b) {
      ListRegexShape(a);
      ListRegexShape(b);
    }
  }

  // ---------------------------------------------------------------------
  // The bullet text.
  // ---------------------------------------------------------------------

  /** `(0..<level).reduce("") { "\(string)\(paragraphPrefix)" }`. */
  function Repeat(s: string, count: nat): string
  {
    if count == 0 then "" else Repeat(s, count - 1) + s
  }

  /** The bullet text for a level: the prefix once per level, the indicator, the suffix. */
  function Bullet(list: ListSpec, level: nat): string
  {
    Repeat(list.paragraphPrefix, level) + list.indicator + list.paragraphSuffix
  }

  lemma {:induction false} RepeatLength(s: string, count: nat)
    ensures |Repeat(s, count)| == count * |s|
  {
    if count > 0 {
      RepeatLength(s, count - 1);
    }
  }

  /** Appending one more copy is the same as putting it in front. */
  lemma {:induction false} RepeatUnfoldFront(s: string, count: nat)
    ensures Repeat(s, count + 1) == s + Repeat(s, count)
  {
    if count > 0 {
      RepeatUnfoldFront(s, count - 1);
    }
  }

  /** Length of the bullet text. */
  lemma BulletLength(list: ListSpec, level: nat)
    ensures |Bullet(list, level)| == level * |list.paragraphPrefix| + |list.indicator| + |list.paragraphSuffix|
  {
    RepeatLength(list.paragraphPrefix, level);
  }

  /** Level 0 has no prefix; each further level puts one more prefix in front. */
  lemma BulletRecurrence(list: ListSpec, level: nat)
    ensures Bullet(list, 0) == list.indicator + list.paragraphSuffix
    ensures Bullet(list, level + 1) == list.paragraphPrefix + Bullet(list, level)
  {
    RepeatUnfoldFront(list.paragraphPrefix, level);
  }

  /** The bullet text never gets shorter as the level grows. */
  lemma BulletLengthMonotone(list: ListSpec, low: nat, high: nat)
    requires low <= high
    ensures |Bullet(list, low)| <= |Bullet(list, high)|
    ensures |list.paragraphPrefix| > 0 && low < high ==> |Bullet(list, low)| < |Bullet(list, high)|
  {
    BulletLength(list, low);
    BulletLength(list, high);
    assert low * |list.paragraphPrefix| <= high * |list.paragraphPrefix| by {
      assert (high - low) * |list.paragraphPrefix| >= 0;
    }
    if |list.paragraphPrefix| > 0 && low < high {
      assert (high - low) * |list.paragraphPrefix| > 0;
    }
  }

  /** With the defaults, level 0 gives `• ` and level 2 gives four spaces then `• `. */
  lemma DefaultBullets()
    ensures Bullet(NewList(), 0) == BulletGlyph + " "
    ensures Bullet(NewList(), 2) == "    " + BulletGlyph + " "
  {
    assert Repeat("  ", 2) == "    ";
  }

  // ---------------------------------------------------------------------
  // `formatText`: style the range, then replace it by the bullet.
  // ---------------------------------------------------------------------

  /** The attributes added to the range: the level's attributes with the
      paragraph style set. */
  function ListAttributes(levelAttributes: Attributes, paragraphStyle: ParagraphStyle): (r: Attributes)
    ensures ParagraphStyleKey in r && r[ParagraphStyleKey] == ParagraphStyleValue(paragraphStyle)
    ensures forall k :: k != ParagraphStyleKey ==> (k in r <==> k in levelAttributes)
    ensures forall k :: k in levelAttributes && k != ParagraphStyleKey ==> r[k] == levelAttributes[k]
  {
    levelAttributes[ParagraphStyleKey := ParagraphStyleValue(paragraphStyle)]
  }

  /** `formatText`: adds the level's attributes and the paragraph style to
      `range`, then replaces the characters of `range` by the bullet text,
      which takes the attributes of the range's first character. The
      attributes of the level and the paragraph style come from outside this
      model (an overridable hook and a font measurement). */
  method FormatText(list: ListSpec, buffer: MutableAttributedString, location: nat, length: nat, level: nat,
                    levelAttributes: Attributes, paragraphStyle: ParagraphStyle)
    requires buffer.Valid() && location + length <= |buffer.text|
    modifies buffer
    ensures buffer.Valid()
    ensures buffer.text == old(buffer.text[..location]) + Bullet(list, level) + old(buffer.text[location + length..])
    ensures |buffer.text| == old(|buffer.text|) + |Bullet(list, level)| - length
    ensures forall i :: 0 <= i < location ==> buffer.attrs[i] == old(buffer.attrs[i])
    ensures length > 0 ==>
              forall i :: location <= i < location + |Bullet(list, level)| ==>
                buffer.attrs[i] == old(buffer.attrs[location]) + ListAttributes(levelAttributes, paragraphStyle)
    ensures length == 0 ==>
              forall i :: location <= i < location + |Bullet(list, level)| ==>
                buffer.attrs[i] == old(InheritedAttributes(buffer.attrs, location, 0))
    ensures forall i :: location + |Bullet(list, level)| <= i < |buffer.attrs| ==>
              buffer.attrs[i] == old(buffer.attrs[i - |Bullet(list, level)| + length])
    ensures length > 0 ==>
              forall i, k :: location <= i < location + |Bullet(list, level)| && k in ListAttributes(levelAttributes, paragraphStyle) ==>
                k in buffer.attrs[i] && buffer.attrs[i][k] == ListAttributes(levelAttributes, paragraphStyle)[k]
  {
    var bullet := Repeat(list.paragraphPrefix, level);
    bullet := bullet + list.indicator + list.paragraphSuffix;
    var attrs := ListAttributes(levelAttributes, paragraphStyle);

    // Attributes go on the range BEFORE its characters are replaced.
    buffer.AddAttributes(attrs, location, length);
    buffer.ReplaceCharacters(location, length, bullet);
  }
}
