/** Python's character classes as the normaliser uses them. */
module Chars {

  /** `str.isspace()`, which is also what `\s` in a `str` regular expression
      and argument-less `str.split()` use: the ASCII controls 0x09-0x0D and
      0x1C-0x1F, the space, and the Unicode whitespace characters. */
  predicate IsSpace(c: char) {
    var n := c as int;
    || 0x09 <= n <= 0x0D
    || 0x1C <= n <= 0x20
    || n == 0x85
    || n == 0xA0
    || n == 0x1680
    || 0x2000 <= n <= 0x200A
    || n == 0x2028
    || n == 0x2029
    || n == 0x202F
    || n == 0x205F
    || n == 0x3000
  }

  /** `\S` */
  predicate NotSpace(c: char) {
    !IsSpace(c)
  }

  /** Code point in 0x00-0x7F, the class `[\x00-\x7F]`. */
  predicate IsAscii(c: char) {
    c as int <= 0x7F
  }

  predicate NotAscii(c: char) {
    !IsAscii(c)
  }

  predicate IsUpper(c: char) {
    'A' <= c <= 'Z'
  }

  /** The ASCII part of `\w`: letters, digits and the underscore. */
  predicate IsAsciiWord(c: char) {
    'a' <= c <= 'z' || 'A' <= c <= 'Z' || '0' <= c <= '9' || c == '_'
  }

  /** `\w` in a `str` pattern. Above 0x7F it holds of the characters Python
      counts as alphanumeric; that Unicode table is the parameter
      `unicodeWord`, consulted for non-ASCII characters only. */
  predicate IsWord(unicodeWord: char -> bool, c: char) {
    IsAsciiWord(c) || (NotAscii(c) && unicodeWord(c))
  }

  /** `\w` as a character class, for use with `Seqs.Span`. */
  function Word(unicodeWord: char -> bool): char -> bool {
    c => IsWord(unicodeWord, c)
  }

  /** Python's `string.punctuation`. */
  const Punctuation: string := "!\"#$%&'()*+,-./:;<=>?@[\\]^_`{|}~"

  predicate NotPunctuation(c: char) {
    c !in Punctuation
  }

  /** `str.lower()` restricted to ASCII input: A-Z map to a-z. */
  function ToLower(c: char): (r: char)
    ensures !IsUpper(r)
    ensures IsAscii(c) ==> IsAscii(r)
    ensures IsUpper(c) ==> r as int == c as int + 32
    ensures !IsUpper(c) ==> r == c
  {
    if IsUpper(c) then (c as int + 32) as char else c
  }

  /** The four blocks of printable ASCII that hold neither letters nor
      digits: 0x21-0x2F, 0x3A-0x40, 0x5B-0x60 and 0x7B-0x7E. */
  predicate IsAsciiSymbol(c: char) {
    var n := c as int;
    0x21 <= n <= 0x2F || 0x3A <= n <= 0x40 || 0x5B <= n <= 0x60 || 0x7B <= n <= 0x7E
  }

  /** An ASCII symbol is printable, not whitespace, not upper case, and a
      word character only if it is the underscore. */
  lemma AsciiSymbolFacts(c: char)
    requires IsAsciiSymbol(c)
    ensures IsAscii(c) && NotSpace(c) && !IsUpper(c)
    ensures IsAsciiWord(c) <==> c == '_'
  {
  }

  /** The character at position `i` of `string.punctuation` lies in one
      of the four symbol blocks. */
  lemma PunctuationCharIsSymbol(i: nat)
    requires i < |Punctuation|
    ensures IsAsciiSymbol(Punctuation[i])
  {
  }

  /** `string.punctuation` has 32 characters, all printable ASCII symbols:
      none is whitespace, a letter or a digit. */
  lemma PunctuationIsAsciiSymbols()
    ensures |Punctuation| == 32
    ensures forall i | 0 <= i < |Punctuation| :: IsAsciiSymbol(Punctuation[i])
    ensures forall i | 0 <= i < |Punctuation| ::
      IsAscii(Punctuation[i]) && NotSpace(Punctuation[i]) && !IsUpper(Punctuation[i])
      && (IsAsciiWord(Punctuation[i]) <==> Punctuation[i] == '_')
    ensures '@' in Punctuation && '#' in Punctuation
  {
    forall i | 0 <= i < |Punctuation| ensures IsAsciiSymbol(Punctuation[i]) {
      PunctuationCharIsSymbol(i);
    }
    forall i | 0 <= i < |Punctuation|
      ensures IsAscii(Punctuation[i]) && NotSpace(Punctuation[i]) && !IsUpper(Punctuation[i])
      ensures IsAsciiWord(Punctuation[i]) <==> Punctuation[i] == '_'
    {
      AsciiSymbolFacts(Punctuation[i]);
    }
    assert Punctuation[2] == '#' && Punctuation[21] == '@';
  }
}
