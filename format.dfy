/**
 * The text the generator emits: the hex literal `0x<HEX>FF`, the C# field
 * declaration built around it, and the console line reporting how many
 * entries were found.
 */
module Format {
  import opened Chars
  import opened Text
  import opened Pattern

  /** `str.upper()` on ASCII text. */
  function UpperAll(s: string): (r: string)
    ensures |r| == |s|
    ensures forall i :: 0 <= i < |s| ==> r[i] == Upper(s[i])
  {
    if s == [] then "" else [Upper(s[0])] + UpperAll(s[1..])
  }

  /** `'0x%sFF' % hex.upper()`: the colour as an RGBA literal with an opaque alpha byte. */
  function HexLiteral(hex: string): (lit: string)
    ensures |lit| == |hex| + 4
    ensures lit[..2] == "0x" && lit[|lit| - 2..] == "FF"
    ensures forall i :: 0 <= i < |hex| ==> lit[i + 2] == Upper(hex[i])
    ensures forall i :: 0 <= i < |lit| ==> !('a' <= lit[i] <= 'f')
  {
    var u := UpperAll(hex);
    var lit := "0x" + u + "FF";
    assert forall i :: 0 <= i < |hex| ==> lit[i + 2] == u[i];
    lit
  }

  /** The value of one hex digit, in either case. */
  function DigitValue(c: char): (v: nat)
    requires IsHexDigit(c)
    ensures v < 16
  {
    if IsAsciiDigit(c) then c as int - '0' as int
    else if 'a' <= c <= 'f' then c as int - 'a' as int + 10
    else c as int - 'A' as int + 10
  }

  /** The number a string of hex digits denotes, most significant digit first. */
  function HexValue(s: string): nat
    requires AllHexDigits(s)
  {
    if s == [] then 0 else HexValue(s[..|s| - 1]) * 16 + DigitValue(s[|s| - 1])
  }

  function Pow16(n: nat): (p: nat)
    ensures p > 0
  {
    if n == 0 then 1 else 16 * Pow16(n - 1)
  }

  /** `n` hex digits denote a number below `16^n`. */
  lemma {:induction false} HexValueBound(s: string)
    requires AllHexDigits(s)
    ensures HexValue(s) < Pow16(|s|)
  {
    if s != [] {
      HexValueBound(s[..|s| - 1]);
    }
  }

  /** Upper-casing hex digits does not change the number they denote. */
  lemma {:induction false} HexValueUpper(s: string)
    requires AllHexDigits(s)
    ensures AllHexDigits(UpperAll(s)) && HexValue(UpperAll(s)) == HexValue(s)
  {
    if s != [] {
      var u := UpperAll(s);
      var init := s[..|s| - 1];
      assert UpperAll(init) == u[..|u| - 1];
      HexValueUpper(init);
    }
  }

  /** Appending a digit multiplies by sixteen and adds the digit. */
  lemma HexValueSnoc(s: string, c: char)
    requires AllHexDigits(s) && IsHexDigit(c)
    ensures AllHexDigits(s + [c]) && HexValue(s + [c]) == HexValue(s) * 16 + DigitValue(c)
  {
    assert (s + [c])[..|s|] == s;
  }

  /** The digits of a literal are the upper-cased colour digits followed by `FF`. */
  lemma LiteralDigits(hex: string)
    requires IsHexCode(hex)
    ensures HexLiteral(hex)[2..] == UpperAll(hex) + "F" + "F"
    ensures AllHexDigits(HexLiteral(hex)[2..])
  {
    var u := UpperAll(hex);
    HexValueUpper(hex);
    HexValueSnoc(u, 'F');
    HexValueSnoc(u + "F", 'F');
  }

  /**
   * The digits of the literal denote the colour shifted left by one byte with
   * `FF` in the low byte; six colour digits give a value that fits 32 bits.
   */
  lemma LiteralValue(hex: string)
    requires IsHexCode(hex)
    ensures AllHexDigits(HexLiteral(hex)[2..])
    ensures HexValue(HexLiteral(hex)[2..]) == HexValue(hex) * 256 + 255
    ensures |hex| == 6 ==> HexValue(HexLiteral(hex)[2..]) < 0x1_0000_0000
  {
    var u := UpperAll(hex);
    LiteralDigits(hex);
    HexValueUpper(hex);
    HexValueSnoc(u, 'F');
    HexValueSnoc(u + "F", 'F');
    ShiftInAlpha(HexValue(hex));
    if |hex| == 6 {
      SixDigitsBound(hex);
    }
  }

  lemma SixDigitsBound(hex: string)
    requires AllHexDigits(hex) && |hex| == 6
    ensures HexValue(hex) < 0x100_0000
  {
    HexValueBound(hex);
    assert Pow16(6) == 0x100_0000;
  }

  /** Two appended `F` digits are one appended byte `FF`; below 2^24 the result stays below 2^32. */
  lemma ShiftInAlpha(v: nat)
    ensures (v * 16 + 15) * 16 + 15 == v * 256 + 255
    ensures v < 0x100_0000 ==> v * 256 + 255 < 0x1_0000_0000
  {
  }

  const DeclarationPrefix := "public static readonly Color "
  const DeclarationMiddle := " = new Color("
  const DeclarationSuffix := ");\n"

  /** `'public static readonly Color %s = new Color(%s);\n' % (id, lit)`. */
  function Declaration(id: string, lit: string): string {
    DeclarationPrefix + id + DeclarationMiddle + lit + DeclarationSuffix
  }

  /** A field line as the part up to the identifier followed by the part from ` = new Color(`. */
  lemma DeclarationHalves(id: string, lit: string)
    ensures Declaration(id, lit) == (DeclarationPrefix + id) + (DeclarationMiddle + lit + DeclarationSuffix)
  {
  }

  /** Every field line starts with the field prefix and ends with `);` and a line break. */
  lemma DeclarationShape(id: string, lit: string)
    ensures var line := Declaration(id, lit);
      |line| == |DeclarationPrefix| + |id| + |DeclarationMiddle| + |lit| + |DeclarationSuffix|
      && line[..|DeclarationPrefix|] == DeclarationPrefix
      && line[|line| - |DeclarationSuffix|..] == DeclarationSuffix
  {
  }

  /** A declaration holds one line break more than its identifier and its literal: the final one. */
  lemma DeclarationLineBreaks(id: string, lit: string)
    ensures Count(Declaration(id, lit), '\n') == Count(id, '\n') + Count(lit, '\n') + 1
  {
    CountFive(DeclarationPrefix, id, DeclarationMiddle, lit, DeclarationSuffix, '\n');
    TemplateLineBreaks();
  }

  /** Of the three template pieces only the suffix holds a line break. */
  lemma TemplateLineBreaks()
    ensures Count(DeclarationPrefix, '\n') == 0
    ensures Count(DeclarationMiddle, '\n') == 0
    ensures Count(DeclarationSuffix, '\n') == 1
  {
    PrefixLineBreaks();
    MiddleLineBreaks();
    SuffixLineBreak();
  }

  lemma PrefixLineBreaks()
    ensures Count(DeclarationPrefix, '\n') == 0
  {
    CountAbsent(DeclarationPrefix, '\n');
  }

  lemma MiddleLineBreaks()
    ensures Count(DeclarationMiddle, '\n') == 0
  {
    CountAbsent(DeclarationMiddle, '\n');
  }

  lemma SuffixLineBreak()
    ensures Count(DeclarationSuffix, '\n') == 1
  {
    assert DeclarationSuffix == ");" + "\n";
    CountAppend(");", "\n", '\n');
    CountAbsent(");", '\n');
  }

  lemma CountFive(a: string, b: string, c: string, d: string, e: string, x: char)
    ensures Count(a + b + c + d + e, x) == Count(a, x) + Count(b, x) + Count(c, x) + Count(d, x) + Count(e, x)
  {
    CountAppend(a + b + c + d, e, x);
    CountAppend(a + b + c, d, x);
    CountAppend(a + b, c, x);
    CountAppend(a, b, x);
  }

  /** The index of the first `c` in `s`, or `|s|` when there is none. */
  function IndexOf(s: string, c: char): (k: nat)
    ensures k <= |s|
    ensures c !in s[..k]
    ensures k < |s| ==> s[k] == c
  {
    if s == [] then 0
    else if s[0] == c then 0
    else
      var k := 1 + IndexOf(s[1..], c);
      assert s[..k] == [s[0]] + s[1..][..k - 1];
      k
  }

  /** The first occurrence is where `c` occurs with no `c` before it. */
  lemma IndexOfFirst(s: string, c: char, j: nat)
    requires j < |s| && s[j] == c && c !in s[..j]
    ensures IndexOf(s, c) == j
  {
  }

  /**
   * Reads a declaration line back: the identifier runs up to the first space
   * after the prefix, and the literal fills the parentheses.
   */
  function ParseDeclaration(line: string): Option<(string, string)> {
    var p, q := |DeclarationPrefix|, |DeclarationSuffix|;
    if |line| < p + q || line[..p] != DeclarationPrefix || line[|line| - q..] != DeclarationSuffix then None
    else
      var body := line[p..|line| - q];
      var k := IndexOf(body, ' ');
      if |body| - k < |DeclarationMiddle| || body[k..k + |DeclarationMiddle|] != DeclarationMiddle then None
      else Some((body[..k], body[k + |DeclarationMiddle|..]))
  }

  /** Every declaration of a space-free identifier parses back to its identifier and literal. */
  lemma ParseDeclarationRoundTrip(id: string, lit: string)
    requires ' ' !in id
    ensures ParseDeclaration(Declaration(id, lit)) == Some((id, lit))
  {
    var line := Declaration(id, lit);
    var p, q := |DeclarationPrefix|, |DeclarationSuffix|;
    var body := line[p..|line| - q];
    assert body == id + DeclarationMiddle + lit;
    var k := IndexOf(body, ' ');
    assert body[..|id|] == id;
    IndexOfFirst(body, ' ', |id|);
    assert body[k..k + |DeclarationMiddle|] == DeclarationMiddle;
    assert body[..k] == id;
    assert body[k + |DeclarationMiddle|..] == lit;
  }

  /** Only declarations parse: a parsed line is the declaration of what it yields. */
  lemma ParseDeclarationSound(line: string)
    requires ParseDeclaration(line).Some?
    ensures var (id, lit) := ParseDeclaration(line).value; ' ' !in id && line == Declaration(id, lit)
  {
    var (id, lit) := ParseDeclaration(line).value;
    var p, q := |DeclarationPrefix|, |DeclarationSuffix|;
    var body := line[p..|line| - q];
    var k := IndexOf(body, ' ');
    assert body == body[..k] + body[k..k + |DeclarationMiddle|] + body[k + |DeclarationMiddle|..];
    assert line == line[..p] + body + line[|line| - q..];
  }

  /** Every character of `s` is a decimal digit. */
  predicate AllDigits(s: string) {
    forall i :: 0 <= i < |s| ==> IsAsciiDigit(s[i])
  }

  /** `'%d' % n`: the decimal digits of `n`, without leading zeros. */
  function Decimal(n: nat): (r: string)
    ensures 0 < |r| && AllDigits(r)
    ensures |r| > 1 ==> r[0] != '0'
  {
    var d := ['0' + (n % 10) as char];
    if n < 10 then d else Decimal(n / 10) + d
  }

  /** The number a string of decimal digits denotes. */
  function DecimalValue(s: string): nat
    requires AllDigits(s)
  {
    if s == [] then 0 else DecimalValue(s[..|s| - 1]) * 10 + (s[|s| - 1] as int - '0' as int)
  }

  /** The decimal rendering denotes the number it renders. */
  lemma {:induction false} DecimalRoundTrip(n: nat)
    ensures DecimalValue(Decimal(n)) == n
  {
    if n >= 10 {
      var r := Decimal(n);
      assert r[..|r| - 1] == Decimal(n / 10);
      DecimalRoundTrip(n / 10);
    }
  }

  const NoEntryMessage := "> No color entry was found"
  const SingularEnding := " color entry was found!"
  const PluralEnding := " color entries was found!"

  /** The console line reporting how many colour entries were found. */
  function CountMessage(itemsFound: nat): string {
    if itemsFound > 0 then
      "> " + Decimal(itemsFound) + " color entr" + (if itemsFound != 1 then "ies" else "y") + " was found!"
    else
      NoEntryMessage
  }

  predicate EndsWith(s: string, suffix: string) {
    |suffix| <= |s| && s[|s| - |suffix|..] == suffix
  }

  /** A positive count is reported as `> `, its digits, and the singular or plural ending. */
  lemma CountMessageShape(n: nat)
    requires n > 0
    ensures CountMessage(n) == "> " + Decimal(n) + (if n == 1 then SingularEnding else PluralEnding)
    ensures CountMessage(n)[2..2 + |Decimal(n)|] == Decimal(n)
  {
    var d := Decimal(n);
    if n == 1 {
      assert " color entr" + "y" + " was found!" == SingularEnding;
    } else {
      assert " color entr" + "ies" + " was found!" == PluralEnding;
    }
  }

  /**
   * The message is singular exactly for one entry, plural exactly for more,
   * and the "No color entry" line exactly for none; a positive count can be
   * read back from the digits after `> `.
   */
  lemma CountMessageCases(n: nat)
    ensures CountMessage(n) == NoEntryMessage <==> n == 0
    ensures EndsWith(CountMessage(n), SingularEnding) <==> n == 1
    ensures EndsWith(CountMessage(n), PluralEnding) <==> n >= 2
    ensures n > 0 ==> DecimalValue(CountMessage(n)[2..2 + |Decimal(n)|]) == n
  {
    var m := CountMessage(n);
    if n == 0 {
      EndingsOfNone();
    } else {
      CountMessageShape(n);
      DecimalRoundTrip(n);
      EndingsDiffer();
      var d := Decimal(n);
      assert m[..2] == "> ";
      assert m[2] == d[0];
      assert m[|m| - |SingularEnding|..] == (if n == 1 then SingularEnding else PluralEnding[2..]);
      assert m[|m| - |PluralEnding|..] == (if n == 1 then ("> " + d)[|d| + 2 - 2..] + SingularEnding else PluralEnding);
    }
  }

  lemma EndingsOfNone()
    ensures NoEntryMessage != "> " && !EndsWith(NoEntryMessage, SingularEnding) && !EndsWith(NoEntryMessage, PluralEnding)
  {
  }

  lemma EndingsDiffer()
    ensures PluralEnding[2..] != SingularEnding
  {
  }
}
