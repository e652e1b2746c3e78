/**
 * Turning a captured colour name into a field identifier: title-case it,
 * replace every `/` with `And`, split it on single spaces and concatenate
 * the pieces.
 */
module Naming {
  import opened Chars
  import opened Text

  /**
   * How title-casing treats one character: a letter is upper-cased when the
   * character before it is not cased and lower-cased when it is; every other
   * character is kept.
   */
  function WordCase(c: char, prevCased: bool): (r: char)
    ensures IsAsciiLetter(r) <==> IsAsciiLetter(c)
    ensures !IsAsciiLetter(c) ==> r == c
  {
    if !IsAsciiLetter(c) then c else if prevCased then Lower(c) else Upper(c)
  }

  /**
   * `str.title()` as a left-to-right scan remembering whether the previous
   * character was cased; the cased characters are the ASCII letters.
   */
  function TitleFrom(s: string, prevCased: bool): (r: string)
    ensures |r| == |s|
  {
    if s == [] then [] else [WordCase(s[0], prevCased)] + TitleFrom(s[1..], IsAsciiLetter(s[0]))
  }

  function Title(s: string): string {
    TitleFrom(s, false)
  }

  /**
   * Title-casing character by character: the character at `i` is cased as
   * the first letter of a word exactly when it starts the string or follows
   * a character that is not a letter.
   */
  lemma TitleAt(s: string, i: nat)
    requires i < |s|
    ensures |Title(s)| == |s|
    ensures Title(s)[i] == WordCase(s[i], i > 0 && IsAsciiLetter(s[i - 1]))
  {
    TitleFromAt(s, false, i);
  }

  lemma {:induction false} TitleFromAt(s: string, prevCased: bool, i: nat)
    requires i < |s|
    ensures TitleFrom(s, prevCased)[i] == WordCase(s[i], if i == 0 then prevCased else IsAsciiLetter(s[i - 1]))
  {
    if i > 0 {
      TitleFromAt(s[1..], IsAsciiLetter(s[0]), i - 1);
    }
  }

  /** Title-casing works piece by piece: the second piece sees only the last character of the first. */
  lemma {:induction false} TitleFromAppend(a: string, b: string, prevCased: bool)
    ensures TitleFrom(a + b, prevCased)
         == TitleFrom(a, prevCased) + TitleFrom(b, if a == [] then prevCased else IsAsciiLetter(a[|a| - 1]))
  {
    if a == [] {
      assert a + b == b;
    } else {
      assert (a + b)[1..] == a[1..] + b;
      TitleFromAppend(a[1..], b, IsAsciiLetter(a[0]));
    }
  }

  /** Lower-case letters that follow a letter keep their case. */
  lemma {:induction false} TitleFromLowerTail(w: string)
    requires forall i :: 0 <= i < |w| ==> IsAsciiLower(w[i])
    ensures TitleFrom(w, true) == w
  {
    if w != [] {
      TitleFromLowerTail(w[1..]);
    }
  }

  /** A lower-case word gets a capital initial and keeps the rest. */
  lemma TitleLowerWord(w: string)
    requires |w| > 0 && forall i :: 0 <= i < |w| ==> IsAsciiLower(w[i])
    ensures Title(w) == [Upper(w[0])] + w[1..]
  {
    TitleFromLowerTail(w[1..]);
  }

  /** Title-casing an already title-cased string changes nothing. */
  lemma TitleIdempotent(s: string)
    ensures Title(Title(s)) == Title(s)
  {
    var t := Title(s);
    forall i | 0 <= i < |s|
      ensures Title(t)[i] == t[i]
    {
      TitleAt(s, i);
      TitleAt(t, i);
      if i > 0 {
        TitleAt(s, i - 1);
      }
    }
  }

  /** Title-casing keeps every character that is not a letter, and introduces no new one. */
  lemma TitleKeepsNonLetters(s: string, c: char)
    requires !IsAsciiLetter(c)
    ensures c in Title(s) <==> c in s
  {
    if c in s {
      var i :| 0 <= i < |s| && s[i] == c;
      TitleAt(s, i);
    }
    if c in Title(s) {
      var i :| 0 <= i < |Title(s)| && Title(s)[i] == c;
      TitleAt(s, i);
    }
  }

  /** A non-empty word of lower-case ASCII letters, as the colour list spells its names. */
  predicate LowerWord(w: string) {
    |w| > 0 && forall i :: 0 <= i < |w| ==> IsAsciiLower(w[i])
  }

  /** A word with its initial upper-cased. */
  function Capitalized(w: string): string
    requires |w| > 0
  {
    [Upper(w[0])] + w[1..]
  }

  /** A capitalised lower-case word holds only letters, so neither a space nor a slash. */
  lemma CapitalizedLetters(w: string)
    requires LowerWord(w)
    ensures ' ' !in Capitalized(w) && '/' !in Capitalized(w)
  {
    var r := Capitalized(w);
    assert forall i :: 0 <= i < |r| ==> IsAsciiLetter(r[i]);
  }

  /** Title-casing starts afresh after a character that is not a letter. */
  lemma TitleAround(a: string, sep: char, b: string)
    requires !IsAsciiLetter(sep)
    ensures Title(a + [sep] + b) == Title(a) + [sep] + Title(b)
  {
    TitleFromAppend(a + [sep], b, false);
    TitleFromAppend(a, [sep], false);
    assert (a + [sep])[|a + [sep]| - 1] == sep;
  }

  /** Two lower-case words around a separator that is not a letter are each capitalised. */
  lemma TitleTwoWords(a: string, sep: char, b: string)
    requires LowerWord(a) && LowerWord(b) && !IsAsciiLetter(sep)
    ensures Title(a + [sep] + b) == Capitalized(a) + [sep] + Capitalized(b)
  {
    TitleFromAppend(a + [sep], b, false);
    TitleFromAppend(a, [sep], false);
    TitleLowerWord(a);
    TitleLowerWord(b);
    assert (a + [sep])[|a + [sep]| - 1] == sep;
  }

  /** `replace('/', 'And')`: every slash becomes the three characters `And`. */
  function ReplaceSlash(s: string): string {
    if s == [] then "" else (if s[0] == '/' then "And" else [s[0]]) + ReplaceSlash(s[1..])
  }

  /**
   * After the replacement no slash is left, each slash has grown by two
   * characters, and every other character is kept; the only new characters
   * are those of `And`.
   */
  lemma {:induction false} ReplaceSlashKeeps(s: string)
    ensures '/' !in ReplaceSlash(s)
    ensures |ReplaceSlash(s)| == |s| + 2 * Count(s, '/')
    ensures forall c :: c != '/' && c in s ==> c in ReplaceSlash(s)
    ensures forall c :: c in ReplaceSlash(s) ==> c in s || c in "And"
  {
    if s != [] {
      ReplaceSlashKeeps(s[1..]);
    }
  }

  lemma {:induction false} ReplaceSlashAppend(a: string, b: string)
    ensures ReplaceSlash(a + b) == ReplaceSlash(a) + ReplaceSlash(b)
  {
    if a == [] {
      assert a + b == b;
    } else {
      assert (a + b)[1..] == a[1..] + b;
      ReplaceSlashAppend(a[1..], b);
    }
  }

  /** Each slash contributes exactly `And`, and the text around it is treated independently. */
  lemma ReplaceOneSlash(a: string, b: string)
    ensures ReplaceSlash(a + "/" + b) == ReplaceSlash(a) + "And" + ReplaceSlash(b)
  {
    ReplaceSlashAppend(a + "/", b);
    ReplaceSlashAppend(a, "/");
  }

  /** A slash between two slash-free parts becomes `And`, and nothing else changes. */
  lemma ReplaceSlashBetween(a: string, b: string)
    requires '/' !in a && '/' !in b
    ensures ReplaceSlash(a + "/" + b) == a + "And" + b
  {
    ReplaceOneSlash(a, b);
    ReplaceSlashNoSlash(a);
    ReplaceSlashNoSlash(b);
  }

  /** A name without slashes is left as it is. */
  lemma {:induction false} ReplaceSlashNoSlash(s: string)
    requires '/' !in s
    ensures ReplaceSlash(s) == s
  {
    if s != [] {
      ReplaceSlashNoSlash(s[1..]);
    }
  }

  /**
   * `str.split(' ')`: the pieces between single spaces, empty pieces
   * included, so there is one more piece than there are spaces.
   */
  function SplitOnSpace(s: string): (r: seq<string>)
    ensures |r| > 0
  {
    if s == [] then [""]
    else
      var rest := SplitOnSpace(s[1..]);
      if s[0] == ' ' then [""] + rest else [[s[0]] + rest[0]] + rest[1..]
  }

  /** There is one more piece than there are spaces, and no piece holds a space. */
  lemma {:induction false} SplitOnSpacePieces(s: string)
    ensures var r := SplitOnSpace(s);
      |r| == Count(s, ' ') + 1 && forall t :: 0 <= t < |r| ==> ' ' !in r[t]
  {
    if s != [] {
      var rest := SplitOnSpace(s[1..]);
      SplitOnSpacePieces(s[1..]);
      if s[0] != ' ' {
        var r := SplitOnSpace(s);
        assert r[0] == [s[0]] + rest[0];
        assert forall t :: 0 < t < |r| ==> r[t] == rest[t];
      }
    }
  }

  /** `' '.join(pieces)`: the pieces with one space between neighbours. */
  function JoinOnSpace(pieces: seq<string>): string
    requires |pieces| > 0
  {
    if |pieces| == 1 then pieces[0] else pieces[0] + " " + JoinOnSpace(pieces[1..])
  }

  lemma JoinOnSpaceCons(x: string, rest: seq<string>)
    requires |rest| > 0
    ensures JoinOnSpace([x] + rest) == x + " " + JoinOnSpace(rest)
  {
    assert ([x] + rest)[1..] == rest;
  }

  /** Prefixing a character to the first piece prefixes it to the joined string. */
  lemma {:induction false} JoinOnSpaceExtend(c: char, pieces: seq<string>)
    requires |pieces| > 0
    ensures JoinOnSpace([[c] + pieces[0]] + pieces[1..]) == [c] + JoinOnSpace(pieces)
  {
    var r := [[c] + pieces[0]] + pieces[1..];
    if |pieces| > 1 {
      assert r[1..] == pieces[1..];
      assert JoinOnSpace(r) == [c] + pieces[0] + " " + JoinOnSpace(pieces[1..]);
    }
  }

  /** Splitting loses nothing: joining the pieces with spaces gives the string back. */
  lemma {:induction false} SplitJoin(s: string)
    ensures JoinOnSpace(SplitOnSpace(s)) == s
  {
    if s != [] {
      var rest := SplitOnSpace(s[1..]);
      SplitJoin(s[1..]);
      if s[0] == ' ' {
        JoinOnSpaceCons("", rest);
      } else {
        JoinOnSpaceExtend(s[0], rest);
      }
      assert s == [s[0]] + s[1..];
    }
  }

  /** The string with every space deleted. */
  function RemoveSpaces(s: string): string {
    if s == [] then "" else (if s[0] == ' ' then "" else [s[0]]) + RemoveSpaces(s[1..])
  }

  /** Deleting the spaces keeps every other character and only those; the length drops by one per space. */
  lemma {:induction false} RemoveSpacesKeeps(s: string)
    ensures |RemoveSpaces(s)| == |s| - Count(s, ' ')
    ensures forall c :: c in RemoveSpaces(s) <==> c in s && c != ' '
  {
    if s != [] {
      RemoveSpacesKeeps(s[1..]);
    }
  }

  lemma {:induction false} RemoveSpacesAppend(a: string, b: string)
    ensures RemoveSpaces(a + b) == RemoveSpaces(a) + RemoveSpaces(b)
  {
    if a == [] {
      assert a + b == b;
    } else {
      assert (a + b)[1..] == a[1..] + b;
      RemoveSpacesAppend(a[1..], b);
    }
  }

  /** A string without spaces is its own space-free form. */
  lemma {:induction false} RemoveSpacesNoSpace(s: string)
    requires ' ' !in s
    ensures RemoveSpaces(s) == s
  {
    if s != [] {
      RemoveSpacesNoSpace(s[1..]);
    }
  }

  /** Two space-free words with one space between them are joined into one. */
  lemma JoinTwoWords(a: string, b: string)
    requires ' ' !in a && ' ' !in b
    ensures RemoveSpaces(a + " " + b) == a + b
  {
    calc {
      RemoveSpaces(a + " " + b);
      { RemoveSpacesAppend(a + " ", b); }
      RemoveSpaces(a + " ") + RemoveSpaces(b);
      { RemoveSpacesAppend(a, " "); }
      RemoveSpaces(a) + RemoveSpaces(" ") + RemoveSpaces(b);
      { RemoveSpacesNoSpace(a); RemoveSpacesNoSpace(b); RemoveSpacesOfSpace(); }
      a + "" + b;
    }
  }

  lemma RemoveSpacesOfSpace()
    ensures RemoveSpaces(" ") == ""
  {
  }

  /** Concatenating the pieces of a split on spaces is deleting every space. */
  lemma {:induction false} ConcatSplit(s: string)
    ensures Concat(SplitOnSpace(s)) == RemoveSpaces(s)
  {
    if s != [] {
      var rest := SplitOnSpace(s[1..]);
      ConcatSplit(s[1..]);
      if s[0] == ' ' {
        ConcatCons("", rest);
      } else {
        ConcatExtend(s[0], rest);
      }
    }
  }

  /** The identifier a colour name becomes: title-cased, slashes spelt `And`, spaces deleted. */
  function IdentifierOf(name: string): (id: string)
    ensures ' ' !in id && '/' !in id
  {
    ReplaceSlashKeeps(Title(name));
    RemoveSpacesKeeps(ReplaceSlash(Title(name)));
    RemoveSpaces(ReplaceSlash(Title(name)))
  }

  /** Each `/` of a name contributes exactly `And`, whatever stands on either side of it. */
  lemma IdentifierOfSlash(a: string, b: string)
    ensures IdentifierOf(a + "/" + b) == IdentifierOf(a) + "And" + IdentifierOf(b)
  {
    var ta, tb := Title(a), Title(b);
    assert a + "/" + b == a + ['/'] + b;
    TitleAround(a, '/', b);
    assert ta + ['/'] + tb == ta + "/" + tb;
    ReplaceOneSlash(ta, tb);
    var ra, rb := ReplaceSlash(ta), ReplaceSlash(tb);
    calc {
      RemoveSpaces(ra + "And" + rb);
      { RemoveSpacesAppend(ra + "And", rb); RemoveSpacesAppend(ra, "And"); }
      RemoveSpaces(ra) + RemoveSpaces("And") + RemoveSpaces(rb);
      { RemoveSpacesNoSpace("And"); }
      RemoveSpaces(ra) + "And" + RemoveSpaces(rb);
    }
  }

  /** Each space of a name is dropped, whatever stands on either side of it. */
  lemma IdentifierOfSpace(a: string, b: string)
    ensures IdentifierOf(a + " " + b) == IdentifierOf(a) + IdentifierOf(b)
  {
    var ta, tb := Title(a), Title(b);
    assert a + " " + b == a + [' '] + b;
    TitleAround(a, ' ', b);
    assert ta + [' '] + tb == ta + " " + tb;
    var ra, rb := ReplaceSlash(ta), ReplaceSlash(tb);
    calc {
      ReplaceSlash(ta + " " + tb);
      { ReplaceSlashAppend(ta + " ", tb); ReplaceSlashAppend(ta, " "); }
      ra + ReplaceSlash(" ") + rb;
      { ReplaceSlashNoSlash(" "); }
      ra + " " + rb;
    }
    calc {
      RemoveSpaces(ra + " " + rb);
      { RemoveSpacesAppend(ra + " ", rb); RemoveSpacesAppend(ra, " "); }
      RemoveSpaces(ra) + RemoveSpaces(" ") + RemoveSpaces(rb);
      { RemoveSpacesOfSpace(); }
      RemoveSpaces(ra) + RemoveSpaces(rb);
    }
  }

  /** Two lower-case words separated by a space become one identifier of two capitalised words. */
  lemma IdentifierOfSpaced(a: string, b: string)
    requires LowerWord(a) && LowerWord(b)
    ensures IdentifierOf(a + " " + b) == Capitalized(a) + Capitalized(b)
  {
    var ca, cb := Capitalized(a), Capitalized(b);
    TitleTwoWords(a, ' ', b);
    CapitalizedLetters(a);
    CapitalizedLetters(b);
    assert '/' !in ca + [' '] + cb;
    ReplaceSlashNoSlash(ca + [' '] + cb);
    JoinTwoWords(ca, cb);
  }

  /** Two lower-case words separated by a slash become two capitalised words joined by `And`. */
  lemma IdentifierOfSlashed(a: string, b: string)
    requires LowerWord(a) && LowerWord(b)
    ensures IdentifierOf(a + "/" + b) == Capitalized(a) + "And" + Capitalized(b)
  {
    var ca, cb := Capitalized(a), Capitalized(b);
    TitleTwoWords(a, '/', b);
    CapitalizedLetters(a);
    CapitalizedLetters(b);
    ReplaceSlashBetween(ca, cb);
    assert ' ' !in ca + "And" + cb;
    RemoveSpacesNoSpace(ca + "And" + cb);
  }

  /**
   * The name handling of the output loop: title-case and replace the
   * slashes, split on spaces, then build the identifier by appending the
   * pieces one at a time.
   */
  method Identifier(rawName: string) returns (colorName: string)
    ensures colorName == IdentifierOf(rawName)
  {
    var titled := ReplaceSlash(Title(rawName));
    var splitted := SplitOnSpace(titled);
    colorName := "";
    for k := 0 to |splitted|
      invariant colorName == Concat(splitted[..k])
    {
      assert splitted[..k + 1][..k] == splitted[..k];
      colorName := colorName + splitted[k];
    }
    assert splitted[..|splitted|] == splitted;
    ConcatSplit(titled);
  }
}
