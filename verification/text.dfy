/**
 The few Python string operations the two programs rely on, over Dafny strings
 (sequences of Unicode scalar values): `str.replace(c, "")`, `str.split(sep)`
 and its inverse `sep.join`, and the `%0Nd` integer format.
 */
module Text {

  /** `s.replace(c, "")` for a one-character pattern: every occurrence of `c` is deleted. */
  function Remove(s: string, c: char): (r: string)
    ensures c !in r
    ensures multiset(r) == multiset(s)[c := 0]
  {
    if |s| == 0 then ""
    else
      assert s == [s[0]] + s[1..];
      (if s[0] == c then "" else [s[0]]) + Remove(s[1..], c)
  }

  /** Deletion works piece by piece, so the characters kept stay in their original order. */
  lemma {:induction false} RemoveAppend(a: string, b: string, c: char)
    ensures Remove(a + b, c) == Remove(a, c) + Remove(b, c)
  {
    if |a| > 0 {
      assert (a + b)[1..] == a[1..] + b;
      assert (a + b)[0] == a[0];
      RemoveAppend(a[1..], b, c);
    } else {
      assert a + b == b;
    }
  }

  /** A string without `c` is left as it is. */
  lemma {:induction false} RemoveAbsent(s: string, c: char)
    requires c !in s
    ensures Remove(s, c) == s
  {
    if |s| > 0 {
      RemoveAbsent(s[1..], c);
    }
  }

  /**
   `s.split(sep)`: the pieces between consecutive separators, including empty
   ones; there is always one more piece than there are separators.
   */
  function Split(s: string, sep: char): (r: seq<string>)
    ensures |r| >= 1
    ensures forall i :: 0 <= i < |r| ==> sep !in r[i]
  {
    if |s| == 0 then [""]
    else
      var rest := Split(s[1..], sep);
      if s[0] == sep then [""] + rest else [[s[0]] + rest[0]] + rest[1..]
  }

  /** `sep.join(pieces)` for a non-empty list of pieces. */
  function Join(pieces: seq<string>, sep: char): (r: string)
    requires |pieces| >= 1
    ensures |r| == |pieces[0]| ==> |pieces| == 1
    ensures |r| >= |pieces[0]| && r[..|pieces[0]|] == pieces[0]
  {
    if |pieces| == 1 then pieces[0] else pieces[0] + [sep] + Join(pieces[1..], sep)
  }

  /** Joining separator-free pieces inserts exactly one separator between each two neighbours. */
  lemma {:induction false} JoinSeparators(pieces: seq<string>, sep: char)
    requires |pieces| >= 1
    requires forall i :: 0 <= i < |pieces| ==> sep !in pieces[i]
    ensures multiset(Join(pieces, sep))[sep] == |pieces| - 1
  {
    if |pieces| > 1 {
      JoinSeparators(pieces[1..], sep);
      assert pieces[0] + [sep] + Join(pieces[1..], sep) == Join(pieces, sep);
    }
  }

  /** A separator-free prefix extends the first piece of what follows it. */
  lemma {:induction false} SplitPrefix(a: string, t: string, sep: char)
    requires sep !in a
    ensures Split(a + t, sep) == [a + Split(t, sep)[0]] + Split(t, sep)[1..]
  {
    if |a| > 0 {
      assert (a + t)[1..] == a[1..] + t;
      var r := Split(t, sep);
      assert (a + t)[0] == a[0];
      SplitPrefix(a[1..], t, sep);
      var rest := Split(a[1..] + t, sep);
      assert rest == [a[1..] + r[0]] + r[1..];
      assert Split(a + t, sep) == [[a[0]] + rest[0]] + rest[1..];
      assert [a[0]] + (a[1..] + r[0]) == a + r[0];
    } else {
      var r := Split(t, sep);
      assert a + t == t;
      assert a + r[0] == r[0];
      assert r == [r[0]] + r[1..];
    }
  }

  /** Splitting undoes joining, as long as no piece contains the separator. */
  lemma {:induction false} SplitJoin(pieces: seq<string>, sep: char)
    requires |pieces| >= 1
    requires forall i :: 0 <= i < |pieces| ==> sep !in pieces[i]
    ensures Split(Join(pieces, sep), sep) == pieces
  {
    var head := pieces[0];
    if |pieces| == 1 {
      SplitPrefix(head, "", sep);
      assert head + "" == head;
    } else {
      var tail := pieces[1..];
      var joined := Join(tail, sep);
      SplitJoin(tail, sep);
      var t := [sep] + joined;
      assert Join(pieces, sep) == head + t;
      SplitTailAfterSep(joined, sep);
      SplitPrefix(head, t, sep);
      var st := Split(t, sep);
      assert st == [""] + tail;
      assert st[0] == "" && st[1..] == tail;
      assert head + st[0] == head;
      assert pieces == [head] + tail;
    }
  }

  /** A text splits into several pieces exactly when it contains the separator. */
  lemma {:induction false} SplitSeveral(s: string, sep: char)
    ensures |Split(s, sep)| >= 2 <==> sep in s
  {
    if |s| > 0 {
      SplitSeveral(s[1..], sep);
      assert s == [s[0]] + s[1..];
    }
  }

  /** Three separator-free pieces joined by the separator split back into those pieces. */
  lemma SplitThree(a: string, b: string, c: string, sep: char)
    requires sep !in a && sep !in b && sep !in c
    ensures Split(a + [sep] + b + [sep] + c, sep) == [a, b, c]
  {
    var pieces := [a, b, c];
    assert pieces[1..] == [b, c];
    assert [b, c][1..] == [c];
    assert Join([c], sep) == c;
    assert Join([b, c], sep) == b + [sep] + c;
    assert Join(pieces, sep) == a + [sep] + (b + [sep] + c);
    assert a + [sep] + (b + [sep] + c) == a + [sep] + b + [sep] + c;
    SplitJoin(pieces, sep);
  }

  lemma SplitTailAfterSep(s: string, sep: char)
    ensures Split([sep] + s, sep) == [""] + Split(s, sep)
  {
    assert ([sep] + s)[1..] == s;
  }

  /** Joining undoes splitting. */
  lemma {:induction false} JoinSplit(s: string, sep: char)
    ensures Join(Split(s, sep), sep) == s
  {
    if |s| > 0 {
      var rest := Split(s[1..], sep);
      JoinSplit(s[1..], sep);
      assert s == [s[0]] + s[1..];
      if s[0] == sep {
        assert Split(s, sep) == [""] + rest;
        assert ([""] + rest)[1..] == rest;
        assert Join([""] + rest, sep) == "" + [sep] + Join(rest, sep);
      } else if |rest| == 1 {
        assert Split(s, sep) == [[s[0]] + rest[0]];
      } else {
        var first := [s[0]] + rest[0];
        assert Split(s, sep) == [first] + rest[1..];
        assert ([first] + rest[1..])[1..] == rest[1..];
        assert Join([first] + rest[1..], sep) == first + [sep] + Join(rest[1..], sep);
        assert Join(rest, sep) == rest[0] + [sep] + Join(rest[1..], sep);
      }
    }
  }

  predicate IsDigit(c: char)
  {
    '0' <= c <= '9'
  }

  predicate AllDigits(s: string)
  {
    forall i :: 0 <= i < |s| ==> IsDigit(s[i])
  }

  function DigitChar(d: nat): (c: char)
    requires d < 10
    ensures IsDigit(c)
  {
    (('0' as int) + d) as char
  }

  function DigitValue(c: char): nat
    requires IsDigit(c)
  {
    (c as int) - ('0' as int)
  }

  /** The decimal representation of `n`, most significant digit first, without leading zeros. */
  function Digits(n: nat): (r: string)
    ensures |r| >= 1
    ensures AllDigits(r)
  {
    if n < 10 then [DigitChar(n)] else Digits(n / 10) + [DigitChar(n % 10)]
  }

  /** Numbers below 1000 have at most three digits, so `%03d` pads them to exactly three. */
  lemma DigitsBelowThousand(n: nat)
    requires n < 1000
    ensures |Digits(n)| <= 3
    ensures |ZeroPad(n, 3)| == 3
  {
    if n >= 10 {
      var m := n / 10;
      assert Digits(n) == Digits(m) + [DigitChar(n % 10)];
      if m >= 10 {
        assert m / 10 < 10;
        assert Digits(m) == Digits(m / 10) + [DigitChar(m % 10)];
      }
    }
  }

  /** `"%0<width>d" % n` for a non-negative `n`: zeros on the left up to `width`, never truncated. */
  function ZeroPad(n: nat, width: nat): (r: string)
    ensures |r| == if |Digits(n)| < width then width else |Digits(n)|
    ensures AllDigits(r)
  {
    var d := Digits(n);
    if |d| < width then seq(width - |d|, _ => '0') + d else d
  }

  /** The value of a string of decimal digits (leading zeros allowed). */
  function ParseDigits(s: string): nat
    requires AllDigits(s)
  {
    if |s| == 0 then 0 else ParseDigits(s[..|s| - 1]) * 10 + DigitValue(s[|s| - 1])
  }

  lemma {:induction false} ParseDigitsOfDigits(n: nat)
    ensures ParseDigits(Digits(n)) == n
  {
    if n >= 10 {
      var d := Digits(n);
      assert d[..|d| - 1] == Digits(n / 10);
      ParseDigitsOfDigits(n / 10);
    }
  }

  /** Leading zeros do not change the parsed value. */
  lemma {:induction false} ParseLeadingZeros(k: nat, s: string)
    requires AllDigits(s)
    ensures AllDigits(seq(k, _ => '0') + s)
    ensures ParseDigits(seq(k, _ => '0') + s) == ParseDigits(s)
    decreases |s|
  {
    var z := seq(k, _ => '0');
    if |s| == 0 {
      assert z + s == z;
      ParseZeros(k);
    } else {
      var n := |s| - 1;
      assert (z + s)[..|z + s| - 1] == z + s[..n];
      ParseLeadingZeros(k, s[..n]);
    }
  }

  lemma {:induction false} ParseZeros(k: nat)
    ensures ParseDigits(seq(k, _ => '0')) == 0
  {
    if k > 0 {
      assert seq(k, _ => '0')[..k - 1] == seq(k - 1, _ => '0');
      ParseZeros(k - 1);
    }
  }

  /** Round trip of the `%0Nd` format: parsing the padded digits gives back the number. */
  lemma ZeroPadRoundTrip(n: nat, width: nat)
    ensures ParseDigits(ZeroPad(n, width)) == n
  {
    var d := Digits(n);
    ParseDigitsOfDigits(n);
    if |d| < width {
      ParseLeadingZeros(width - |d|, d);
    }
  }

  /**
   The other round trip: a non-empty digit string is the zero-padded form of
   its value at its own width.
   */
  lemma {:induction false} ZeroPadOfParse(s: string)
    requires AllDigits(s) && |s| >= 1
    ensures ZeroPad(ParseDigits(s), |s|) == s
    decreases |s|
  {
    var n := |s| - 1;
    var c := s[n];
    var d := DigitValue(c);
    assert DigitChar(d) == c;
    if n == 0 {
      assert s == [c];
    } else {
      var front := s[..n];
      assert AllDigits(front);
      ZeroPadOfParse(front);
      assert s == front + [c];
      ZeroPadAppendDigit(ParseDigits(front), d, n);
    }
  }

  /** Appending a digit to a number that fits its width appends it to the padded text. */
  lemma ZeroPadAppendDigit(m: nat, d: nat, width: nat)
    requires d < 10 && width >= 1
    requires |ZeroPad(m, width)| == width
    ensures ZeroPad(m * 10 + d, width + 1) == ZeroPad(m, width) + [DigitChar(d)]
  {
    var c := DigitChar(d);
    if m == 0 {
      assert Digits(m) == "0";
      assert ZeroPad(m, width) == seq(width, _ => '0');
      assert Digits(d) == [c];
    } else {
      var big := m * 10 + d;
      assert big / 10 == m && big % 10 == d;
      assert Digits(big) == Digits(m) + [c];
    }
  }

  /** Different numbers never format to the same text. */
  lemma ZeroPadInjective(m: nat, n: nat, width: nat)
    requires ZeroPad(m, width) == ZeroPad(n, width)
    ensures m == n
  {
    ZeroPadRoundTrip(m, width);
    ZeroPadRoundTrip(n, width);
  }
}
