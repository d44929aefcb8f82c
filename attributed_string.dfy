/** A model of the mutable attributed string the markup elements rewrite:
    a character sequence with one attribute dictionary per character, and the
    three edits the elements use (delete a range, add attributes over a range,
    replace a range by a string). One character here is one unit of an
    NSRange offset. */
module AttributedText {

  datatype Option<T> = None | Some(value: T)

  /** Fonts and colours are opaque values configured by the host application. */
  datatype Font = Font(name: string)
  datatype Color = Color(name: string)

  /** A parsed URL: what the link element reads of it is its scheme and its
      absolute string. */
  datatype Url = Url(scheme: Option<string>, absoluteString: string)

  /** The paragraph style a list item carries; its numbers come from font
      metrics and are computed outside this model. */
  datatype ParagraphStyle = ParagraphStyle(paragraphSpacingBefore: real, headIndent: real)

  datatype Key = FontKey | ForegroundColorKey | LinkKey | ParagraphStyleKey | OtherKey(name: string)

  datatype Value =
    | FontValue(font: Font)
    | ColorValue(color: Color)
    | LinkValue(url: Url)
    | ParagraphStyleValue(style: ParagraphStyle)
    | OtherValue(description: string)

  type Attributes = map<Key, Value>

  /** The attributes new characters take when `length` characters at
      `location` are replaced: those of the first replaced character; for an
      empty range, those of the preceding character, else of the following
      one, else none. */
  function InheritedAttributes(attrs: seq<Attributes>, location: nat, length: nat): (r: Attributes)
    requires location + length <= |attrs|
    ensures length > 0 ==> r == attrs[location]
    ensures length == 0 && 0 < location ==> r == attrs[location - 1]
    ensures length == 0 && location == 0 < |attrs| ==> r == attrs[0]
    ensures |attrs| == 0 ==> r == map[]
  {
    if length > 0 then attrs[location]
    else if location > 0 then attrs[location - 1]
    else if location < |attrs| then attrs[location]
    else map[]
  }

  /** `s` without the `length` elements at `location`. */
  function Removed<T>(s: seq<T>, location: nat, length: nat): (r: seq<T>)
    requires location + length <= |s|
    ensures |r| == |s| - length
  {
    s[..location] + s[location + length..]
  }

  class MutableAttributedString {
    var text: string
    var attrs: seq<Attributes>

    ghost predicate Valid()
      reads this
    {
      |attrs| == |text|
    }

    constructor (s: string, a: seq<Attributes>)
      requires |a| == |s|
      ensures Valid() && text == s && attrs == a
    {
      text := s;
      attrs := a;
    }

    /** The attribute dictionary in effect at one character. */
    function AttributesAt(location: nat): (r: Attributes)
      requires Valid() && location < |text|
      reads this
      ensures r == attrs[location]
    {
      attrs[location]
    }

    /** Removes the characters of the range together with their attributes;
        everything after the range moves left by `length`. */
    method DeleteCharacters(location: nat, length: nat)
      requires Valid() && location + length <= |text|
      modifies this
      ensures Valid()
      ensures text == Removed(old(text), location, length)
      ensures attrs == Removed(old(attrs), location, length)
    {
      text := text[..location] + text[location + length..];
      attrs := attrs[..location] + attrs[location + length..];
    }

    /** Merges `newAttrs` into every character of the range; a key already
        present takes the new value, every other key is kept. */
    method AddAttributes(newAttrs: Attributes, location: nat, length: nat)
      requires Valid() && location + length <= |text|
      modifies this
      ensures Valid() && text == old(text) && |attrs| == old(|attrs|)
      ensures forall i :: location <= i < location + length ==> attrs[i] == old(attrs[i]) + newAttrs
      ensures forall i :: 0 <= i < |attrs| && !(location <= i < location + length) ==> attrs[i] == old(attrs[i])
    {
      var before := attrs;
      attrs := seq(|before|, i requires 0 <= i < |before| =>
        if location <= i < location + length then before[i] + newAttrs else before[i]);
    }

    method AddAttribute(key: Key, value: Value, location: nat, length: nat)
      requires Valid() && location + length <= |text|
      modifies this
      ensures Valid() && text == old(text) && |attrs| == old(|attrs|)
      ensures forall i :: location <= i < location + length ==> attrs[i] == old(attrs[i])[key := value]
      ensures forall i :: 0 <= i < |attrs| && !(location <= i < location + length) ==> attrs[i] == old(attrs[i])
    {
      AddAttributes(map[key := value], location, length);
    }

    /** Replaces the characters of the range by `s`; the new characters take
        the inherited attributes, everything after the range shifts by
        `|s| - length`. */
    method ReplaceCharacters(location: nat, length: nat, s: string)
      requires Valid() && location + length <= |text|
      modifies this
      ensures Valid()
      ensures text == old(text[..location]) + s + old(text[location + length..])
      ensures |attrs| == old(|attrs|) - length + |s|
      ensures attrs[..location] == old(attrs[..location])
      ensures forall i :: location <= i < location + |s| ==> attrs[i] == old(InheritedAttributes(attrs, location, length))
      ensures attrs[location + |s|..] == old(attrs[location + length..])
    {
      var inherited := InheritedAttributes(attrs, location, length);
      text := text[..location] + s + text[location + length..];
      attrs := attrs[..location] + seq(|s|, _ => inherited) + attrs[location + length..];
    }
  }
}
