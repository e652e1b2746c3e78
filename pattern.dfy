/**
 * The colour-entry pattern `([a-zA-Z0-9 /]+)\s+\#([a-fA-F0-9]+)` and the
 * scan that collects its non-overlapping matches, leftmost first, as
 * `findall` does.  No general regular-expression engine is modelled: a
 * hand-written scanner (`MatchAt`) is proved to pick exactly the match the
 * backtracking engine picks (`Preferred`).
 */
module Pattern {
  import opened Chars

  /** The three character classes of the pattern. */
  datatype CharClass = NameChars | Spaces | HexDigits

  predicate In(cls: CharClass, c: char) {
    match cls
    case NameChars => IsNameChar(c)
    case Spaces => IsWhitespace(c)
    case HexDigits => IsHexDigit(c)
  }

  /** Every character of `s[a..b]` belongs to `cls`. */
  ghost predicate AllIn(s: string, a: nat, b: nat, cls: CharClass)
    requires a <= b <= |s|
  {
    forall p :: a <= p < b ==> In(cls, s[p])
  }

  /** The end of the longest run of `cls` characters that starts at `i`. */
  function RunEnd(s: string, i: nat, cls: CharClass): (j: nat)
    requires i <= |s|
    ensures i <= j <= |s|
    ensures AllIn(s, i, j, cls)
    ensures j == |s| || !In(cls, s[j])
    decreases |s| - i
  {
    if i < |s| && In(cls, s[i]) then RunEnd(s, i + 1, cls) else i
  }

  /** No run of `cls` characters from `i` reaches past `RunEnd(s, i, cls)`. */
  lemma {:induction false} RunEndMaximal(s: string, i: nat, k: nat, cls: CharClass)
    requires i <= k <= |s|
    requires AllIn(s, i, k, cls)
    ensures k <= RunEnd(s, i, cls)
    decreases |s| - i
  {
    if i < k {
      RunEndMaximal(s, i + 1, k, cls);
    }
  }

  /** A run that ends at a character outside `cls` (or at the end) is the longest one. */
  lemma RunEndIs(s: string, i: nat, j: nat, cls: CharClass)
    requires i <= j <= |s| && AllIn(s, i, j, cls)
    requires j == |s| || !In(cls, s[j])
    ensures RunEnd(s, i, cls) == j
  {
    RunEndMaximal(s, i, j, cls);
    if j < |s| {
      OutsideRun(s, i, RunEnd(s, i, cls), j, cls);
    }
  }

  /** A character outside `cls` cannot lie inside a run of `cls` characters. */
  lemma OutsideRun(s: string, a: nat, b: nat, p: nat, cls: CharClass)
    requires a <= b <= |s| && p < |s|
    requires AllIn(s, a, b, cls) && !In(cls, s[p])
    ensures p < a || b <= p
  {
  }

  /**
   * One way of matching the pattern at `i`: the name group is `s[i..k]`,
   * `\s+` is `s[k..m]`, `#` is `s[m]` and the hex group is `s[m+1..e]`.
   */
  ghost predicate Decomposes(s: string, i: nat, k: nat, m: nat, e: nat) {
    && i < k < m && m + 1 < e <= |s|
    && AllIn(s, i, k, NameChars)
    && AllIn(s, k, m, Spaces)
    && s[m] == '#'
    && AllIn(s, m + 1, e, HexDigits)
  }

  /**
   * The match a backtracking engine reports at `i`: every group is greedy, so
   * the engine tries the longest name group first, then the longest `\s+`,
   * then the longest hex group, and reports the first way that succeeds —
   * the lexicographically greatest decomposition.
   */
  ghost predicate Preferred(s: string, i: nat, k: nat, m: nat, e: nat) {
    && Decomposes(s, i, k, m, e)
    && forall k': nat, m': nat, e': nat :: Decomposes(s, i, k', m', e') ==>
         k' < k || (k' == k && (m' < m || (m' == m && e' <= e)))
  }

  /** A match: where it starts, where the name group ends, where `#` is and where it ends. */
  datatype Span = Span(start: nat, nameEnd: nat, hash: nat, end: nat)

  /** One extracted (name, hex) pair. */
  datatype ColorEntry = ColorEntry(name: string, hex: string)

  datatype Option<T> = None | Some(value: T)

  /**
   * The match of the pattern anchored at `i`, if any.  The name group takes
   * the whole run of name characters when `\s+` can follow it up to a `#`;
   * failing that it gives back its last character, which must then be a space
   * directly before the `#`.  No other choice can succeed (see `MatchAtSound`
   * and `MatchAtComplete`).
   */
  function MatchAt(s: string, i: nat): (r: Option<Span>)
    requires i <= |s|
    ensures r.Some? ==> r.value.start == i && i < r.value.nameEnd < r.value.hash
                        && r.value.hash + 1 < r.value.end <= |s|
  {
    if i == |s| then None
    else
      var j := RunEnd(s, i, NameChars);
      if j == i then None
      else
        var m := RunEnd(s, j, Spaces);
        if j < m && m + 1 < |s| && s[m] == '#' && IsHexDigit(s[m + 1]) then
          Some(Span(i, j, m, RunEnd(s, m + 1, HexDigits)))
        else if i + 2 <= j && s[j - 1] == ' ' && j + 1 < |s| && s[j] == '#' && IsHexDigit(s[j + 1]) then
          Some(Span(i, j - 1, j, RunEnd(s, j + 1, HexDigits)))
        else
          None
  }

  /** The scanner's match is the decomposition `Preferred` picks: the greatest in the backtracking order. */
  lemma MatchAtSound(s: string, i: nat)
    requires i <= |s|
    requires MatchAt(s, i).Some?
    ensures var sp := MatchAt(s, i).value; Preferred(s, i, sp.nameEnd, sp.hash, sp.end)
  {
    var sp := MatchAt(s, i).value;
    var j := RunEnd(s, i, NameChars);
    var m := RunEnd(s, j, Spaces);
    if sp.nameEnd == j {
      forall k': nat, m': nat, e': nat | Decomposes(s, i, k', m', e')
        ensures k' < j || (k' == j && (m' < m || (m' == m && e' <= sp.end)))
      {
        RunEndMaximal(s, i, k', NameChars);
        if k' == j {
          RunEndMaximal(s, j, m', Spaces);
          if m' == m {
            RunEndMaximal(s, m + 1, e', HexDigits);
          }
        }
      }
    } else {
      assert sp.nameEnd == j - 1 && sp.hash == j;
      assert AllIn(s, j - 1, j, Spaces);
      forall k': nat, m': nat, e': nat | Decomposes(s, i, k', m', e')
        ensures k' < j - 1 || (k' == j - 1 && (m' < j || (m' == j && e' <= sp.end)))
      {
        RunEndMaximal(s, i, k', NameChars);
        OutsideRun(s, k', m', j, Spaces);
        if k' == j - 1 {
          assert RunEnd(s, j - 1, Spaces) == j;
          RunEndMaximal(s, j - 1, m', Spaces);
          if m' == j {
            RunEndMaximal(s, j + 1, e', HexDigits);
          }
        }
      }
    }
  }

  /** Where the scanner finds no match, the pattern cannot match at all. */
  lemma MatchAtComplete(s: string, i: nat, k: nat, m: nat, e: nat)
    requires i <= |s|
    requires Decomposes(s, i, k, m, e)
    ensures MatchAt(s, i).Some?
  {
    assert In(NameChars, s[i]);
    var j := RunEnd(s, i, NameChars);
    RunEndMaximal(s, i, k, NameChars);
    if k == j {
      RunEndMaximal(s, j, m, Spaces);
      assert RunEnd(s, j, Spaces) == m;
    } else {
      assert In(NameChars, s[k]) && In(Spaces, s[k]);
      if m > j {
        assert In(Spaces, s[j]);
        assert AllIn(s, j, m, Spaces);
        RunEndMaximal(s, j, m, Spaces);
        assert RunEnd(s, j, Spaces) == m;
      } else {
        OutsideRun(s, i, j, m, NameChars);
        assert In(NameChars, s[j - 1]) && In(Spaces, s[j - 1]);
        NameWhitespaceIsSpace(s[j - 1]);
      }
    }
  }

  /**
   * A table of anchored matches: entry `i` is the match that starts at `i`,
   * if there is one, and ends within the text.
   */
  predicate ValidTable(ms: seq<Option<Span>>) {
    forall i :: 0 <= i < |ms| && ms[i].Some? ==>
      ms[i].value.start == i && i < ms[i].value.nameEnd < ms[i].value.hash < ms[i].value.end <= |ms|
  }

  /** The anchored match at every position of `s`. */
  function MatchTable(s: string): (ms: seq<Option<Span>>)
    ensures |ms| == |s| && ValidTable(ms)
  {
    seq(|s|, i requires 0 <= i < |s| => MatchAt(s, i))
  }

  /**
   * The scan `findall` performs over a match table from `pos`: report the
   * match found at the current position and resume where it ended, or move
   * on by one.
   */
  function Scan(ms: seq<Option<Span>>, pos: nat): (r: seq<Span>)
    requires ValidTable(ms) && pos <= |ms|
    ensures forall t :: 0 <= t < |r| ==> pos <= r[t].start < r[t].end <= |ms| && ms[r[t].start] == Some(r[t])
    decreases |ms| - pos
  {
    if pos == |ms| then []
    else
      match ms[pos]
      case Some(sp) => [sp] + Scan(ms, sp.end)
      case None => Scan(ms, pos + 1)
  }

  /** The reported matches follow one another without overlapping. */
  lemma {:induction false} ScanOrdered(ms: seq<Option<Span>>, pos: nat)
    requires ValidTable(ms) && pos <= |ms|
    ensures forall t, u :: 0 <= t < u < |Scan(ms, pos)| ==> Scan(ms, pos)[t].end <= Scan(ms, pos)[u].start
    decreases |ms| - pos
  {
    if pos < |ms| {
      match ms[pos]
      case Some(sp) =>
        ScanOrdered(ms, sp.end);
        var r, rest := Scan(ms, pos), Scan(ms, sp.end);
        assert r == [sp] + rest;
        forall t, u | 0 <= t < u < |r|
          ensures r[t].end <= r[u].start
        {
          assert r[u] == rest[u - 1];
          if t > 0 {
            assert r[t] == rest[t - 1];
          }
        }
      case None =>
        ScanOrdered(ms, pos + 1);
    }
  }

  /** Position `p` lies inside one of the matches `r`. */
  ghost predicate Covered(r: seq<Span>, p: nat) {
    exists t :: 0 <= t < |r| && r[t].start <= p < r[t].end
  }

  /** The scan skips no entry of the table: each one is reported or lies inside a reported match. */
  lemma {:induction false} ScanCovers(ms: seq<Option<Span>>, pos: nat, p: nat)
    requires ValidTable(ms) && pos <= p < |ms|
    requires ms[p].Some?
    ensures Covered(Scan(ms, pos), p)
    decreases |ms| - pos
  {
    var r := Scan(ms, pos);
    if ms[pos].Some? {
      var sp := ms[pos].value;
      var rest := Scan(ms, sp.end);
      assert r == [sp] + rest;
      if p < sp.end {
        assert r[0] == sp && sp.start == pos;
      } else {
        ScanCovers(ms, sp.end, p);
        var t :| 0 <= t < |rest| && rest[t].start <= p < rest[t].end;
        assert r[t + 1] == rest[t];
      }
    } else if pos < p {
      assert r == Scan(ms, pos + 1);
      ScanCovers(ms, pos + 1, p);
    }
  }

  /** No entry of the table before the first reported match holds a match. */
  lemma {:induction false} ScanLeftmost(ms: seq<Option<Span>>, pos: nat, p: nat)
    requires ValidTable(ms) && pos <= p < |ms|
    requires var r := Scan(ms, pos); r == [] || p < r[0].start
    ensures ms[p].None?
    decreases p - pos
  {
    if pos < p && ms[pos].None? {
      ScanLeftmost(ms, pos + 1, p);
    }
  }

  /**
   * The matches `findall` reports when it scans `s` from `pos`: the leftmost
   * match, then the scan resumes where that match ended.
   */
  function FindSpans(s: string, pos: nat): (r: seq<Span>)
    requires pos <= |s|
    ensures forall t :: 0 <= t < |r| ==> pos <= r[t].start < r[t].end <= |s| && MatchAt(s, r[t].start) == Some(r[t])
    ensures forall t, u :: 0 <= t < u < |r| ==> r[t].end <= r[u].start
  {
    ScanOrdered(MatchTable(s), pos);
    Scan(MatchTable(s), pos)
  }

  /** The scan ends at the end of the text. */
  lemma FindSpansEnd(s: string)
    ensures FindSpans(s, |s|) == []
  {
  }

  /** One step of the scan at `pos`: report the match found there and resume after it, or move on by one. */
  lemma FindSpansStep(s: string, pos: nat)
    requires pos < |s|
    ensures MatchAt(s, pos).Some? ==>
      FindSpans(s, pos) == [MatchAt(s, pos).value] + FindSpans(s, MatchAt(s, pos).value.end)
    ensures MatchAt(s, pos).None? ==> FindSpans(s, pos) == FindSpans(s, pos + 1)
  {
    assert MatchTable(s)[pos] == MatchAt(s, pos);
  }

  /**
   * No match is skipped: every position from `pos` on where the pattern
   * matches is the start of a reported match or lies inside one.
   */
  lemma FindSpansCovers(s: string, pos: nat, p: nat)
    requires pos <= p < |s|
    requires MatchAt(s, p).Some?
    ensures Covered(FindSpans(s, pos), p)
  {
    ScanCovers(MatchTable(s), pos, p);
  }

  /** The first reported match is the leftmost one: the pattern matches nowhere before it. */
  lemma LeftmostFirst(s: string, pos: nat, p: nat)
    requires pos <= p < |s|
    requires var r := FindSpans(s, pos); r == [] || p < r[0].start
    ensures MatchAt(s, p).None?
  {
    ScanLeftmost(MatchTable(s), pos, p);
  }

  /** The (name, hex) pair a match captures. */
  function EntryOf(s: string, sp: Span): ColorEntry
    requires sp.start <= sp.nameEnd <= |s| && sp.hash + 1 <= sp.end <= |s|
  {
    ColorEntry(s[sp.start..sp.nameEnd], s[sp.hash + 1..sp.end])
  }

  /** The entries `findall` returns for the whole text, in match order. */
  function FindAll(s: string): (r: seq<ColorEntry>)
    ensures |r| == |FindSpans(s, 0)|
  {
    var spans := FindSpans(s, 0);
    seq(|spans|, t requires 0 <= t < |spans| => EntryOf(s, spans[t]))
  }

  /** What a captured name looks like: one or more of `[a-zA-Z0-9 /]`. */
  predicate IsColorName(name: string) {
    |name| > 0 && forall i :: 0 <= i < |name| ==> IsNameChar(name[i])
  }

  /** What a captured hex value looks like: one or more of `[a-fA-F0-9]`. */
  predicate IsHexCode(hex: string) {
    |hex| > 0 && AllHexDigits(hex)
  }

  /** The groups of one match: a non-empty name of name characters and a non-empty hex code. */
  lemma EntryWellFormed(s: string, sp: Span)
    requires sp.start <= |s| && MatchAt(s, sp.start) == Some(sp)
    ensures IsColorName(EntryOf(s, sp).name) && IsHexCode(EntryOf(s, sp).hex)
  {
    MatchAtSound(s, sp.start);
    var e := EntryOf(s, sp);
    assert forall q :: 0 <= q < |e.name| ==> e.name[q] == s[sp.start + q];
    assert forall q :: 0 <= q < |e.hex| ==> e.hex[q] == s[sp.hash + 1 + q];
  }

  /** Every extracted entry has a non-empty name of name characters and a non-empty hex code. */
  lemma FindAllWellFormed(s: string)
    ensures forall t :: 0 <= t < |FindAll(s)| ==> IsColorName(FindAll(s)[t].name) && IsHexCode(FindAll(s)[t].hex)
  {
    var spans := FindSpans(s, 0);
    forall t | 0 <= t < |spans|
      ensures IsColorName(FindAll(s)[t].name) && IsHexCode(FindAll(s)[t].hex)
    {
      EntryWellFormed(s, spans[t]);
      assert FindAll(s)[t] == EntryOf(s, spans[t]);
    }
  }
}
