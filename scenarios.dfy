/**
 * The generator on concrete inputs: two single-line colour lists and a
 * list naming the same colour twice.  Each step is its own lemma so that the verifier
 * only ever evaluates one function on one literal at a time.
 */
module Scenarios {
  import opened Chars
  import opened Text
  import opened Pattern
  import opened Naming
  import opened Format
  import opened Generator

  lemma LowerDustyOrange()
    ensures LowerWord("dusty") && LowerWord("orange")
    ensures Capitalized("dusty") == "Dusty" && Capitalized("orange") == "Orange"
  {
  }

  lemma TitleDustyOrange()
    ensures Title("dusty orange") == "Dusty" + " " + "Orange"
  {
    LowerDustyOrange();
    TitleTwoWords("dusty", ' ', "orange");
    assert "dusty" + [' '] + "orange" == "dusty orange";
  }

  lemma KeepDustyOrange()
    ensures ReplaceSlash("Dusty" + " " + "Orange") == "Dusty" + " " + "Orange"
  {
    ReplaceSlashNoSlash("Dusty" + " " + "Orange");
  }

  lemma JoinDustyOrange()
    ensures RemoveSpaces("Dusty" + " " + "Orange") == "DustyOrange"
  {
    JoinTwoWords("Dusty", "Orange");
  }

  /** `dusty orange` becomes the identifier `DustyOrange`. */
  lemma DustyOrangeIdentifier()
    ensures IdentifierOf("dusty orange") == "DustyOrange"
  {
    TitleDustyOrange();
    KeepDustyOrange();
    JoinDustyOrange();
  }

  lemma LowerBlueGreen()
    ensures LowerWord("blue") && LowerWord("green")
    ensures Capitalized("blue") == "Blue" && Capitalized("green") == "Green"
  {
  }

  lemma TitleBlueGreen()
    ensures Title("blue/green") == "Blue" + "/" + "Green"
  {
    LowerBlueGreen();
    TitleTwoWords("blue", '/', "green");
    assert "blue" + ['/'] + "green" == "blue/green";
  }

  lemma SlashBlueGreen()
    ensures ReplaceSlash("Blue" + "/" + "Green") == "Blue" + "And" + "Green"
  {
    ReplaceSlashBetween("Blue", "Green");
  }

  lemma KeepBlueAndGreen()
    ensures RemoveSpaces("Blue" + "And" + "Green") == "BlueAndGreen"
  {
    RemoveSpacesNoSpace("Blue" + "And" + "Green");
  }

  /** `blue/green` becomes the identifier `BlueAndGreen`. */
  lemma BlueGreenIdentifier()
    ensures IdentifierOf("blue/green") == "BlueAndGreen"
  {
    TitleBlueGreen();
    SlashBlueGreen();
    KeepBlueAndGreen();
  }

  lemma UpperDustyOrange()
    ensures UpperAll("ed6d3d") == "ED6D3D"
  {
    var u := UpperAll("ed6d3d");
    assert u[0] == 'E' && u[1] == 'D' && u[2] == '6' && u[3] == 'D' && u[4] == '3' && u[5] == 'D';
  }

  /** `ed6d3d` becomes the literal `0xED6D3DFF`. */
  lemma DustyOrangeLiteral()
    ensures HexLiteral("ed6d3d") == "0xED6D3DFF"
  {
    UpperDustyOrange();
  }

  /** One line of the colour list, with a single space before the `#`. */
  const DustyOrangeLine := "dusty orange #ed6d3d"

  lemma DustyOrangeRuns()
    ensures RunEnd(DustyOrangeLine, 0, NameChars) == 13
    ensures RunEnd(DustyOrangeLine, 13, Spaces) == 13
    ensures RunEnd(DustyOrangeLine, 14, HexDigits) == 20
  {
    var s := DustyOrangeLine;
    RunEndIs(s, 0, 13, NameChars);
    RunEndIs(s, 13, 13, Spaces);
    RunEndIs(s, 14, 20, HexDigits);
  }

  /**
   * The name group gives back the space before the `#`, since `\s+` needs
   * at least one character: the match is `dusty orange`, ` `, `#`, `ed6d3d`.
   */
  lemma DustyOrangeMatch()
    ensures MatchAt(DustyOrangeLine, 0) == Some(Span(0, 12, 13, 20))
  {
    DustyOrangeRuns();
  }

  lemma DustyOrangeSpans()
    ensures FindSpans(DustyOrangeLine, 0) == [Span(0, 12, 13, 20)]
  {
    DustyOrangeMatch();
    FindSpansStep(DustyOrangeLine, 0);
    FindSpansEnd(DustyOrangeLine);
  }

  /** The line yields the single entry (`dusty orange`, `ed6d3d`). */
  lemma DustyOrangeEntries()
    ensures FindAll(DustyOrangeLine) == [ColorEntry("dusty orange", "ed6d3d")]
  {
    DustyOrangeSpans();
    DustyOrangeSlices();
  }

  lemma DustyOrangeSlices()
    ensures DustyOrangeLine[0..12] == "dusty orange" && DustyOrangeLine[14..20] == "ed6d3d"
  {
  }

  lemma DustyOrangeHead()
    ensures DeclarationPrefix + "DustyOrange" == "public static readonly Color DustyOrange"
  {
  }

  lemma DustyOrangeTail()
    ensures DeclarationMiddle + "0xED6D3DFF" + DeclarationSuffix == " = new Color(0xED6D3DFF);\n"
  {
  }

  lemma DustyOrangeDeclaration()
    ensures Declaration("DustyOrange", "0xED6D3DFF") == "public static readonly Color DustyOrange = new Color(0xED6D3DFF);\n"
  {
    DeclarationHalves("DustyOrange", "0xED6D3DFF");
    DustyOrangeHead();
    DustyOrangeTail();
    assert "public static readonly Color DustyOrange" + " = new Color(0xED6D3DFF);\n" == "public static readonly Color DustyOrange = new Color(0xED6D3DFF);\n";
  }

  lemma DustyOrangeDeclarationLine()
    ensures DeclarationLine(ColorEntry("dusty orange", "ed6d3d"))
         == "public static readonly Color DustyOrange = new Color(0xED6D3DFF);\n"
  {
    DustyOrangeIdentifier();
    DustyOrangeLiteral();
    DustyOrangeDeclaration();
  }

  /** The generated file for this line is the one declaration of `DustyOrange` with value `0xED6D3DFF`. */
  lemma DustyOrangeFile()
    ensures OutputFile(DustyOrangeLine) == "public static readonly Color DustyOrange = new Color(0xED6D3DFF);\n"
  {
    DustyOrangeEntries();
    SingleEntryFile(DustyOrangeLine, ColorEntry("dusty orange", "ed6d3d"));
    DustyOrangeDeclarationLine();
  }

  /** A line whose name holds a slash. */
  const BlueGreenLine := "blue/green #00ffff"

  lemma BlueGreenRuns()
    ensures RunEnd(BlueGreenLine, 0, NameChars) == 11
    ensures RunEnd(BlueGreenLine, 11, Spaces) == 11
    ensures RunEnd(BlueGreenLine, 12, HexDigits) == 18
  {
    var s := BlueGreenLine;
    RunEndIs(s, 0, 11, NameChars);
    RunEndIs(s, 11, 11, Spaces);
    RunEndIs(s, 12, 18, HexDigits);
  }

  lemma BlueGreenMatch()
    ensures MatchAt(BlueGreenLine, 0) == Some(Span(0, 10, 11, 18))
  {
    BlueGreenRuns();
  }

  lemma BlueGreenSpans()
    ensures FindSpans(BlueGreenLine, 0) == [Span(0, 10, 11, 18)]
  {
    BlueGreenMatch();
    FindSpansStep(BlueGreenLine, 0);
    FindSpansEnd(BlueGreenLine);
  }

  lemma BlueGreenSlices()
    ensures BlueGreenLine[0..10] == "blue/green" && BlueGreenLine[12..18] == "00ffff"
  {
  }

  lemma BlueGreenEntries()
    ensures FindAll(BlueGreenLine) == [ColorEntry("blue/green", "00ffff")]
  {
    BlueGreenSpans();
    BlueGreenSlices();
  }

  lemma UpperBlueGreen()
    ensures UpperAll("00ffff") == "00FFFF"
  {
    var u := UpperAll("00ffff");
    assert u[0] == '0' && u[1] == '0' && u[2] == 'F' && u[3] == 'F' && u[4] == 'F' && u[5] == 'F';
  }

  lemma BlueGreenLiteral()
    ensures HexLiteral("00ffff") == "0x00FFFFFF"
  {
    UpperBlueGreen();
  }

  lemma BlueGreenDeclarationLine()
    ensures DeclarationLine(ColorEntry("blue/green", "00ffff"))
         == "public static readonly Color BlueAndGreen = new Color(0x00FFFFFF);\n"
  {
    BlueGreenIdentifier();
    BlueGreenLiteral();
    BlueGreenDeclaration();
  }

  lemma BlueGreenHead()
    ensures DeclarationPrefix + "BlueAndGreen" == "public static readonly Color BlueAndGreen"
  {
  }

  lemma BlueGreenTail()
    ensures DeclarationMiddle + "0x00FFFFFF" + DeclarationSuffix == " = new Color(0x00FFFFFF);\n"
  {
  }

  lemma BlueGreenDeclaration()
    ensures Declaration("BlueAndGreen", "0x00FFFFFF") == "public static readonly Color BlueAndGreen = new Color(0x00FFFFFF);\n"
  {
    DeclarationHalves("BlueAndGreen", "0x00FFFFFF");
    BlueGreenHead();
    BlueGreenTail();
    assert "public static readonly Color BlueAndGreen" + " = new Color(0x00FFFFFF);\n" == "public static readonly Color BlueAndGreen = new Color(0x00FFFFFF);\n";
  }

  /** The generated file for this line declares `BlueAndGreen` with value `0x00FFFFFF`. */
  lemma BlueGreenFile()
    ensures OutputFile(BlueGreenLine) == "public static readonly Color BlueAndGreen = new Color(0x00FFFFFF);\n"
  {
    BlueGreenEntries();
    SingleEntryFile(BlueGreenLine, ColorEntry("blue/green", "00ffff"));
    BlueGreenDeclarationLine();
  }

  /** The same colour listed twice, on two lines. */
  const TwiceRed := "red #f00\nred #f00"

  lemma FirstRedRuns()
    ensures RunEnd(TwiceRed, 0, NameChars) == 4 && RunEnd(TwiceRed, 4, Spaces) == 4
    ensures RunEnd(TwiceRed, 5, HexDigits) == 8 && RunEnd(TwiceRed, 8, NameChars) == 8
  {
    var s := TwiceRed;
    RunEndIs(s, 0, 4, NameChars);
    RunEndIs(s, 4, 4, Spaces);
    RunEndIs(s, 5, 8, HexDigits);
    RunEndIs(s, 8, 8, NameChars);
  }

  lemma SecondRedRuns()
    ensures RunEnd(TwiceRed, 9, NameChars) == 13 && RunEnd(TwiceRed, 13, Spaces) == 13
    ensures RunEnd(TwiceRed, 14, HexDigits) == 17
  {
    var s := TwiceRed;
    RunEndIs(s, 9, 13, NameChars);
    RunEndIs(s, 13, 13, Spaces);
    RunEndIs(s, 14, 17, HexDigits);
  }

  lemma TwiceRedMatches()
    ensures MatchAt(TwiceRed, 0) == Some(Span(0, 3, 4, 8))
    ensures MatchAt(TwiceRed, 8) == None
    ensures MatchAt(TwiceRed, 9) == Some(Span(9, 12, 13, 17))
  {
    FirstRedRuns();
    SecondRedRuns();
  }

  lemma TwiceRedSpans()
    ensures FindSpans(TwiceRed, 0) == [Span(0, 3, 4, 8), Span(9, 12, 13, 17)]
  {
    TwiceRedMatches();
    FindSpansStep(TwiceRed, 0);
    FindSpansStep(TwiceRed, 8);
    FindSpansStep(TwiceRed, 9);
    FindSpansEnd(TwiceRed);
  }

  lemma TwiceRedSlices()
    ensures TwiceRed[0..3] == "red" && TwiceRed[5..8] == "f00"
    ensures TwiceRed[9..12] == "red" && TwiceRed[14..17] == "f00"
  {
  }

  /** Entries are not merged: the colour listed twice is extracted twice. */
  lemma DuplicatesKept()
    ensures FindAll(TwiceRed) == [ColorEntry("red", "f00"), ColorEntry("red", "f00")]
  {
    TwiceRedSpans();
    TwiceRedSlices();
  }
}
