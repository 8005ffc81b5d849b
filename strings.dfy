/**
 * The few java.lang.String and java.lang.Long operations the parser and the
 * User serialisers rely on, over Dafny strings (sequences of char).
 */
module Strings {

  /** Java's long. */
  newtype int64 = x: int | -0x8000_0000_0000_0000 <= x < 0x8000_0000_0000_0000

  /** String.lastIndexOf(char): the index of the last occurrence of c in s, or -1 if none. */
  function LastIndexOf(s: string, c: char): (r: int)
    ensures -1 <= r < |s|
    ensures r >= 0 ==> s[r] == c
    ensures forall j | r < j < |s| :: s[j] != c
  {
    if |s| == 0 then -1
    else if s[|s| - 1] == c then |s| - 1
    else LastIndexOf(s[..|s| - 1], c)
  }

  /** The pieces joined with one separator character between neighbours. */
  function Join(pieces: seq<string>, sep: char): string
    requires |pieces| > 0
  {
    if |pieces| == 1 then pieces[0]
    else pieces[0] + [sep] + Join(pieces[1..], sep)
  }

  /** Joining one more piece appends a separator and that piece. */
  lemma {:induction false} JoinSnoc(pieces: seq<string>, x: string, sep: char)
    requires |pieces| > 0
    ensures Join(pieces + [x], sep) == Join(pieces, sep) + [sep] + x
    decreases |pieces|
  {
    assert (pieces + [x])[1..] == pieces[1..] + [x];
    if |pieces| > 1 {
      JoinSnoc(pieces[1..], x, sep);
    }
  }

  /**
   * The maximal separator-free runs of s, in order, empty runs included
   * (unlike Java's String.split, trailing empty pieces are kept).
   */
  function Split(s: string, sep: char): (pieces: seq<string>)
    ensures |pieces| > 0
    ensures forall i | 0 <= i < |pieces| :: sep !in pieces[i]
  {
    if |s| == 0 then [""]
    else
      var rest := Split(s[1..], sep);
      if s[0] == sep then [""] + rest
      else [[s[0]] + rest[0]] + rest[1..]
  }

  /** A separator-free prefix glues onto the first piece of what follows it. */
  lemma {:induction false} SplitFreePrefix(a: string, t: string, sep: char)
    requires sep !in a
    ensures Split(a + t, sep) == [a + Split(t, sep)[0]] + Split(t, sep)[1..]
    decreases |a|
  {
    if a != [] {
      assert (a + t)[1..] == a[1..] + t;
      SplitFreePrefix(a[1..], t, sep);
      assert [a[0]] + (a[1..] + Split(t, sep)[0]) == a + Split(t, sep)[0];
    } else {
      var r := Split(t, sep);
      assert a + t == t && a + r[0] == r[0];
      assert r == [r[0]] + r[1..];
    }
  }

  /** Splitting undoes joining when no piece contains the separator. */
  lemma {:induction false} SplitJoin(pieces: seq<string>, sep: char)
    requires |pieces| > 0
    requires forall i | 0 <= i < |pieces| :: sep !in pieces[i]
    ensures Split(Join(pieces, sep), sep) == pieces
    decreases |pieces|
  {
    if |pieces| == 1 {
      SplitFreePrefix(pieces[0], [], sep);
      assert pieces[0] + [] == pieces[0];
    } else {
      var tail := [sep] + Join(pieces[1..], sep);
      assert Join(pieces, sep) == pieces[0] + tail;
      SplitFreePrefix(pieces[0], tail, sep);
      assert tail[1..] == Join(pieces[1..], sep);
      SplitJoin(pieces[1..], sep);
      assert pieces[0] + "" == pieces[0];
      assert pieces == [pieces[0]] + pieces[1..];
    }
  }

  /** Joining undoes splitting: no character of s is lost or added. */
  lemma {:induction false} JoinSplit(s: string, sep: char)
    ensures Join(Split(s, sep), sep) == s
    decreases |s|
  {
    if |s| > 0 {
      var rest := Split(s[1..], sep);
      JoinSplit(s[1..], sep);
      if s[0] == sep {
        assert s == [sep] + s[1..];
      } else {
        var head := [s[0]] + rest[0];
        if |rest| == 1 {
          assert s == [s[0]] + s[1..];
        } else {
          assert Join(rest, sep) == rest[0] + [sep] + Join(rest[1..], sep);
          assert Join([head] + rest[1..], sep) == head + [sep] + Join(rest[1..], sep) by {
            assert ([head] + rest[1..])[1..] == rest[1..];
          }
          assert s == [s[0]] + s[1..];
        }
      }
    }
  }

  /** The decimal digit character for d. */
  function DigitChar(d: nat): (c: char)
    requires d < 10
    ensures '0' <= c <= '9' && (c as int) - ('0' as int) == d
  {
    (('0' as int) + d) as char
  }

  /** Decimal text of a natural number, most significant digit first, no leading zero. */
  function NatText(n: nat): (s: string)
    ensures |s| > 0
    ensures forall i | 0 <= i < |s| :: '0' <= s[i] <= '9'
    ensures |s| > 1 ==> s[0] != '0'
    decreases n
  {
    if n < 10 then [DigitChar(n)] else NatText(n / 10) + [DigitChar(n % 10)]
  }

  /** Long.toString: a minus sign for negative values, then the decimal digits of the magnitude. */
  function LongText(n: int): (s: string)
    ensures |s| > 0 && ',' !in s && '/' !in s
    ensures s[0] == '-' <==> n < 0
  {
    if n < 0 then "-" + NatText(-n) else NatText(n)
  }

  /** The value of a string of decimal digits (reference reading, independent of NatText). */
  function DigitsValue(s: string): nat
  {
    if |s| == 0 then 0
    else
      var d := (s[|s| - 1] as int) - ('0' as int);
      DigitsValue(s[..|s| - 1]) * 10 + (if 0 <= d < 10 then d else 0)
  }

  /** Long.parseLong on well-formed decimal text. */
  function ParseLong(s: string): int
  {
    if |s| > 0 && s[0] == '-' then -(DigitsValue(s[1..]) as int) else DigitsValue(s)
  }

  lemma {:induction false} NatTextRoundTrip(n: nat)
    ensures DigitsValue(NatText(n)) == n
    decreases n
  {
    if n >= 10 {
      NatTextRoundTrip(n / 10);
      var s := NatText(n);
      assert s[..|s| - 1] == NatText(n / 10);
    }
  }

  /** Reading back the decimal text of a long gives the long. */
  lemma LongTextRoundTrip(n: int)
    ensures ParseLong(LongText(n)) == n
  {
    if n < 0 {
      NatTextRoundTrip(-n);
      assert LongText(n)[1..] == NatText(-n);
    } else {
      NatTextRoundTrip(n);
    }
  }
}
