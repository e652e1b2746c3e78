/**
 * The generator script: extract the colour entries from the downloaded
 * text, report how many there are, and write one C# field declaration per
 * entry.  The downloaded text is the input; the output file is the
 * sequence of strings passed to `write`, whose concatenation is the file.
 */
module Generator {
  import opened Chars
  import opened Text
  import opened Pattern
  import opened Naming
  import opened Format

  /** The declaration written for one entry. */
  function DeclarationLine(entry: ColorEntry): string {
    Declaration(IdentifierOf(entry.name), HexLiteral(entry.hex))
  }

  /** The declarations for `entries`, one per entry, in order. */
  function DeclarationLines(entries: seq<ColorEntry>): seq<string> {
    seq(|entries|, t requires 0 <= t < |entries| => DeclarationLine(entries[t]))
  }

  /**
   * The text written to the output file for the downloaded text `colors`,
   * before text mode turns each `\n` into the platform's line separator.
   */
  function OutputFile(colors: string): string {
    Concat(DeclarationLines(FindAll(colors)))
  }

  /**
   * The extraction loop over the matches `findall` returns: every match is
   * appended to the entry list in order, and counted.
   */
  method ExtractEntries(matches: seq<ColorEntry>) returns (colorResult: seq<ColorEntry>, itemsFound: nat)
    ensures colorResult == matches
    ensures itemsFound == |colorResult|
  {
    itemsFound := 0;
    colorResult := [];
    for k := 0 to |matches|
      invariant colorResult == matches[..k]
      invariant itemsFound == |colorResult|
    {
      var name := matches[k].name;
      var hexValue := matches[k].hex;
      colorResult := colorResult + [ColorEntry(name, hexValue)];
      itemsFound := itemsFound + 1;
    }
  }

  /**
   * The output loop: for each entry, in order, build the identifier and the
   * hex literal and write one declaration.  Returns the strings written.
   */
  method WriteDeclarations(colorResult: seq<ColorEntry>) returns (written: seq<string>)
    ensures |written| == |colorResult|
    ensures forall t :: 0 <= t < |colorResult| ==> written[t] == DeclarationLine(colorResult[t])
  {
    written := [];
    for k := 0 to |colorResult|
      invariant |written| == k
      invariant forall t :: 0 <= t < k ==> written[t] == DeclarationLine(colorResult[t])
    {
      var colorName := Identifier(colorResult[k].name);
      var colorHex := HexLiteral(colorResult[k].hex);
      written := written + [Declaration(colorName, colorHex)];
    }
  }

  /**
   * The whole script on the downloaded text `colors`: the count message it
   * prints after parsing, and what it writes to the output file.  When
   * nothing matched, the `exit` of the zero branch is a bare name, not a
   * call, so the output loop still runs and the file is written empty.
   */
  method Run(colors: string) returns (message: string, written: seq<string>)
    ensures message == CountMessage(|FindAll(colors)|)
    ensures written == DeclarationLines(FindAll(colors))
    ensures Concat(written) == OutputFile(colors)
    ensures FindAll(colors) == [] ==> message == NoEntryMessage && Concat(written) == ""
  {
    var colorResult, itemsFound := ExtractEntries(FindAll(colors));
    message := CountMessage(itemsFound);
    written := WriteDeclarations(colorResult);
  }

  /** An identifier built from a name without line breaks holds none. */
  lemma IdentifierNoLineBreak(name: string)
    requires '\n' !in name
    ensures '\n' !in IdentifierOf(name)
  {
    TitleKeepsNonLetters(name, '\n');
    ReplaceSlashKeeps(Title(name));
    RemoveSpacesKeeps(ReplaceSlash(Title(name)));
  }

  /** A hex literal holds no line break. */
  lemma LiteralNoLineBreak(hex: string)
    requires AllHexDigits(hex)
    ensures '\n' !in HexLiteral(hex)
  {
    var lit := HexLiteral(hex);
    forall i | 0 <= i < |lit| ensures lit[i] != '\n' {
      if 2 <= i < |lit| - 2 {
        assert lit[i] == Upper(hex[i - 2]);
      } else if i < 2 {
        assert lit[i] == lit[..2][i];
      } else {
        assert lit[i] == lit[|lit| - 2..][i - (|lit| - 2)];
      }
    }
  }

  /**
   * The output file holds exactly one line per extracted entry: every
   * declaration ends with the only line break it holds.
   */
  lemma OneLinePerEntry(colors: string)
    ensures Count(OutputFile(colors), '\n') == |FindAll(colors)|
  {
    var entries := FindAll(colors);
    var lines := DeclarationLines(entries);
    FindAllWellFormed(colors);
    forall t | 0 <= t < |lines|
      ensures Count(lines[t], '\n') == 1
    {
      var e := entries[t];
      assert '\n' !in e.name by {
        assert forall i :: 0 <= i < |e.name| ==> IsNameChar(e.name[i]);
      }
      IdentifierNoLineBreak(e.name);
      LiteralNoLineBreak(e.hex);
      DeclarationLineBreaks(IdentifierOf(e.name), HexLiteral(e.hex));
    }
    CountConcatOnce(lines, '\n');
  }

  /**
   * Every line of the output is a declaration that reads back as the
   * identifier and the literal of its entry.
   */
  lemma LinesReadBack(colors: string)
    ensures var entries := FindAll(colors);
      forall t :: 0 <= t < |entries| ==>
        ParseDeclaration(DeclarationLines(entries)[t]) == Some((IdentifierOf(entries[t].name), HexLiteral(entries[t].hex)))
  {
    var entries := FindAll(colors);
    forall t | 0 <= t < |entries|
      ensures ParseDeclaration(DeclarationLines(entries)[t]) == Some((IdentifierOf(entries[t].name), HexLiteral(entries[t].hex)))
    {
      ParseDeclarationRoundTrip(IdentifierOf(entries[t].name), HexLiteral(entries[t].hex));
    }
  }

  /** A text with a single entry generates exactly that entry's declaration. */
  lemma SingleEntryFile(colors: string, entry: ColorEntry)
    requires FindAll(colors) == [entry]
    ensures OutputFile(colors) == DeclarationLine(entry)
  {
    assert DeclarationLines([entry]) == [DeclarationLine(entry)];
    ConcatCons(DeclarationLine(entry), []);
  }
}
