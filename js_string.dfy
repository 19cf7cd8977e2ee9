/** The few JavaScript string and array built-ins the page relies on, for a
    one-character separator: `split`, `join`, indexing past the end,
    `pop`, `lastIndexOf`, `substring(0, e)`, `slice(0, e)`, `||` on
    strings and the decimal rendering of an integer in a template literal. */
module JsString {
  import opened Wrappers

  /** `s.split(sep)`: the pieces of `s` between occurrences of `sep`. */
  function Split(s: string, sep: char): (pieces: seq<string>)
    ensures |pieces| >= 1
    decreases |s|
  {
    if s == [] then [""]
    else
      var rest := Split(s[1..], sep);
      if s[0] == sep then [""] + rest
      else [[s[0]] + rest[0]] + rest[1..]
  }

  /** `pieces.join(sep)` for a non-empty array. */
  function Join(pieces: seq<string>, sep: char): string
    requires |pieces| >= 1
  {
    if |pieces| == 1 then pieces[0] else pieces[0] + [sep] + Join(pieces[1..], sep)
  }

  /** `pieces[k]`: `undefined` past the end of the array. */
  function At(pieces: seq<string>, k: nat): (r: Option<string>)
    ensures r.Some? <==> k < |pieces|
    ensures r.Some? ==> r.value == pieces[k]
  {
    if k < |pieces| then Some(pieces[k]) else None
  }

  /** What `pieces.pop()` returns on a non-empty array. */
  function Last(pieces: seq<string>): string
    requires |pieces| >= 1
  {
    pieces[|pieces| - 1]
  }

  /** `s.lastIndexOf(c)`: the last position holding `c`, or -1. */
  function LastIndexOf(s: string, c: char): (r: int)
    ensures -1 <= r < |s|
    ensures r == -1 <==> c !in s
    ensures r >= 0 ==> s[r] == c && c !in s[r + 1..]
  {
    if s == [] then -1
    else if s[|s| - 1] == c then |s| - 1
    else
      assert s == s[..|s| - 1] + [s[|s| - 1]];
      LastIndexOf(s[..|s| - 1], c)
  }

  /** `s.substring(0, end)`: `end` is clamped into `0..|s|`. */
  function SubstringTo(s: string, end: int): (r: string)
    ensures r <= s
    ensures |r| == if end < 0 then 0 else if end > |s| then |s| else end
  {
    if end < 0 then [] else if end > |s| then s else s[..end]
  }

  /** `s.slice(0, end)` for a non-negative `end`. */
  function SliceTo(s: string, end: nat): (r: string)
    ensures r <= s
    ensures |r| == if end < |s| then end else |s|
  {
    if end < |s| then s[..end] else s
  }

  /** `s || fallback`: the empty string is falsy. */
  function OrElse(s: string, fallback: string): (r: string)
    ensures s != [] ==> r == s
    ensures s == [] ==> r == fallback
  {
    if s == [] then fallback else s
  }

  /** The character of a decimal digit. */
  function DigitChar(d: nat): (c: char)
    requires d < 10
    ensures '0' <= c <= '9' && c as int - '0' as int == d
  {
    (('0' as int) + d) as char
  }

  predicate IsDigits(s: string) {
    forall i :: 0 <= i < |s| ==> '0' <= s[i] <= '9'
  }

  /** How a non-negative integer is written in a template literal. */
  function NatToDecimal(n: nat): (s: string)
    ensures |s| >= 1 && IsDigits(s)
  {
    if n < 10 then [DigitChar(n)] else NatToDecimal(n / 10) + [DigitChar(n % 10)]
  }

  /** How an integer (a JavaScript number without a fraction) is written. */
  function NumberToString(i: int): string {
    if i < 0 then "-" + NatToDecimal(-i) else NatToDecimal(i)
  }

  /** The value a string of decimal digits denotes. */
  function DecimalValue(s: string): nat
    requires IsDigits(s)
  {
    if s == [] then 0 else DecimalValue(s[..|s| - 1]) * 10 + (s[|s| - 1] as int - '0' as int)
  }

  /** The decimal text names its number: rendering is injective. */
  lemma {:induction false} DecimalRoundTrip(n: nat)
    ensures DecimalValue(NatToDecimal(n)) == n
  {
    if n >= 10 {
      DecimalRoundTrip(n / 10);
      var s := NatToDecimal(n);
      assert s[..|s| - 1] == NatToDecimal(n / 10);
    }
  }

  /** The rendering has no leading zero, except for zero itself. */
  lemma {:induction false} NoLeadingZero(n: nat)
    ensures NatToDecimal(n)[0] == '0' <==> n == 0
  {
    if n >= 10 {
      NoLeadingZero(n / 10);
    }
  }

  /** No piece of a split contains the separator. */
  lemma {:induction false} SplitPiecesFree(s: string, sep: char)
    ensures forall k :: 0 <= k < |Split(s, sep)| ==> sep !in Split(s, sep)[k]
    decreases |s|
  {
    if s != [] {
      SplitPiecesFree(s[1..], sep);
    }
  }

  /** Joining the pieces with the separator gives back the string. */
  lemma {:induction false} JoinSplit(s: string, sep: char)
    ensures Join(Split(s, sep), sep) == s
    decreases |s|
  {
    if s != [] {
      JoinSplit(s[1..], sep);
      var rest := Split(s[1..], sep);
      if s[0] != sep && |rest| > 1 {
        assert Join(rest, sep) == rest[0] + [sep] + Join(rest[1..], sep);
        assert Split(s, sep)[1..] == rest[1..];
      }
    }
  }

  /** A string without the separator is a single piece. */
  lemma {:induction false} SplitFree(s: string, sep: char)
    requires sep !in s
    ensures Split(s, sep) == [s]
    decreases |s|
  {
    if s != [] {
      SplitFree(s[1..], sep);
      assert [s[0]] + s[1..] == s;
    }
  }

  /** Splitting a string with a first character `c`: a separator starts a
      new piece, any other character joins the first piece of the rest. */
  lemma SplitCons(c: char, t: string, sep: char)
    ensures Split([c] + t, sep)
         == if c == sep then [""] + Split(t, sep) else [[c] + Split(t, sep)[0]] + Split(t, sep)[1..]
  {
    assert ([c] + t)[1..] == t;
  }

  /** The piece arithmetic of `SplitCons`, for pieces followed by more pieces. */
  lemma ConsPieces(c: char, sep: char, x: seq<string>, y: seq<string>)
    requires |x| >= 1
    ensures (if c == sep then [""] + (x + y) else [[c] + (x + y)[0]] + (x + y)[1..])
         == (if c == sep then [""] + x else [[c] + x[0]] + x[1..]) + y
  {
    if c != sep {
      assert (x + y)[1..] == x[1..] + y;
    }
  }

  /** The inductive step of `SplitAppend`: one more leading character. */
  lemma SplitAppendCons(c: char, t: string, b: string, sep: char)
    requires Split(t + [sep] + b, sep) == Split(t, sep) + Split(b, sep)
    ensures Split([c] + t + [sep] + b, sep) == Split([c] + t, sep) + Split(b, sep)
  {
    var z := t + [sep] + b;
    assert [c] + t + [sep] + b == [c] + z;
    SplitCons(c, z, sep);
    SplitCons(c, t, sep);
    ConsPieces(c, sep, Split(t, sep), Split(b, sep));
  }

  /** Splitting at one occurrence of the separator splits the two sides independently. */
  lemma {:induction false} SplitAppend(a: string, b: string, sep: char)
    ensures Split(a + [sep] + b, sep) == Split(a, sep) + Split(b, sep)
    decreases |a|
  {
    if a == [] {
      assert a + [sep] + b == [sep] + b;
      SplitCons(sep, b, sep);
    } else {
      SplitAppend(a[1..], b, sep);
      SplitAppendCons(a[0], a[1..], b, sep);
      assert [a[0]] + a[1..] == a;
    }
  }

  /** Split is the inverse of Join on pieces free of the separator. */
  lemma {:induction false} SplitJoin(pieces: seq<string>, sep: char)
    requires |pieces| >= 1
    requires forall k :: 0 <= k < |pieces| ==> sep !in pieces[k]
    ensures Split(Join(pieces, sep), sep) == pieces
  {
    SplitFree(pieces[0], sep);
    if |pieces| > 1 {
      SplitJoin(pieces[1..], sep);
      SplitAppend(pieces[0], Join(pieces[1..], sep), sep);
      assert [pieces[0]] + pieces[1..] == pieces;
    }
  }

  /** The first piece is the text before the first separator. */
  lemma {:induction false} SplitFirst(s: string, sep: char)
    ensures Split(s, sep)[0] <= s
    ensures sep !in Split(s, sep)[0]
    ensures |Split(s, sep)[0]| < |s| ==> s[|Split(s, sep)[0]|] == sep
    ensures |Split(s, sep)[0]| == |s| <==> sep !in s
    decreases |s|
  {
    if s != [] {
      SplitFirst(s[1..], sep);
    }
  }

  /** When the separator occurs, the rest of the split is the split of what
      follows its first occurrence. */
  lemma {:induction false} SplitTail(s: string, sep: char)
    requires sep in s
    ensures |Split(s, sep)[0]| < |s|
    ensures Split(s, sep) == [Split(s, sep)[0]] + Split(s[|Split(s, sep)[0]| + 1..], sep)
  {
    var p := Split(s, sep)[0];
    SplitFirst(s, sep);
    assert s == p + [sep] + s[|p| + 1..];
    SplitAppend(p, s[|p| + 1..], sep);
    SplitFree(p, sep);
  }

  /** A second piece exists exactly when the separator occurs. */
  lemma {:induction false} HasSecondPiece(s: string, sep: char)
    ensures |Split(s, sep)| >= 2 <==> sep in s
  {
    if sep in s {
      SplitTail(s, sep);
    } else {
      SplitFree(s, sep);
    }
  }

  /** What `pop` returns after a split is the text after the last separator. */
  lemma {:induction false} SplitLast(s: string, sep: char)
    ensures Last(Split(s, sep)) == s[LastIndexOf(s, sep) + 1..]
  {
    var k := LastIndexOf(s, sep);
    if k < 0 {
      SplitFree(s, sep);
    } else {
      var a, b := s[..k], s[k + 1..];
      assert s == a + [sep] + b;
      SplitAppend(a, b, sep);
      SplitFree(b, sep);
      assert Split(s, sep) == Split(a, sep) + [b];
    }
  }
}
