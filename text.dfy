/** Generic operations on strings and on sequences of strings. */
module Text {

  /** The number of occurrences of `c` in `s`. */
  function Count(s: string, c: char): (n: nat)
    ensures n <= |s|
    ensures n == 0 <==> c !in s
  {
    if s == [] then 0 else (if s[0] == c then 1 else 0) + Count(s[1..], c)
  }

  lemma CountAbsent(s: string, c: char)
    requires c !in s
    ensures Count(s, c) == 0
  {
  }

  lemma {:induction false} CountAppend(a: string, b: string, c: char)
    ensures Count(a + b, c) == Count(a, c) + Count(b, c)
  {
    if a == [] {
      assert a + b == b;
    } else {
      assert (a + b)[1..] == a[1..] + b;
      CountAppend(a[1..], b, c);
    }
  }

  /** The concatenation of all pieces, in order, with nothing between them. */
  function Concat(pieces: seq<string>): (r: string)
    ensures |pieces| == 0 ==> r == ""
  {
    if pieces == [] then "" else Concat(pieces[..|pieces| - 1]) + pieces[|pieces| - 1]
  }

  lemma {:induction false} ConcatAppend(a: seq<string>, b: seq<string>)
    ensures Concat(a + b) == Concat(a) + Concat(b)
  {
    if b == [] {
      assert a + b == a;
    } else {
      assert (a + b)[..|a + b| - 1] == a + b[..|b| - 1];
      ConcatAppend(a, b[..|b| - 1]);
    }
  }

  lemma ConcatCons(x: string, rest: seq<string>)
    ensures Concat([x] + rest) == x + Concat(rest)
  {
    ConcatAppend([x], rest);
    assert [x][..0] == [];
  }

  /** Prefixing a character to the first piece prefixes it to the concatenation. */
  lemma {:induction false} ConcatExtend(c: char, pieces: seq<string>)
    requires |pieces| > 0
    ensures Concat([[c] + pieces[0]] + pieces[1..]) == [c] + Concat(pieces)
  {
    var head, tail := pieces[0], pieces[1..];
    assert pieces == [head] + tail;
    calc {
      Concat([[c] + head] + tail);
      { ConcatCons([c] + head, tail); }
      ([c] + head) + Concat(tail);
      [c] + (head + Concat(tail));
      { ConcatCons(head, tail); }
      [c] + Concat(pieces);
    }
  }

  /** When every piece holds `c` exactly once, the concatenation holds it once per piece. */
  lemma {:induction false} CountConcatOnce(pieces: seq<string>, c: char)
    requires forall t :: 0 <= t < |pieces| ==> Count(pieces[t], c) == 1
    ensures Count(Concat(pieces), c) == |pieces|
  {
    if pieces != [] {
      CountConcatOnce(pieces[..|pieces| - 1], c);
      CountAppend(Concat(pieces[..|pieces| - 1]), pieces[|pieces| - 1], c);
    }
  }
}
