/** The string operations of Python that the modelled code relies on:
    `split(sep, 1)`, `str(n)` and `int(s)` for non-negative decimals, and the
    whitespace `split()`. */
module Text {
  import opened Wrappers

  /** The two halves of `s.split(sep, 1)`: the text before the first `sep`,
      and the text after it when `sep` occurs at all. */
  datatype Split = Split(head: string, tail: Option<string>)

  function SplitFirst(s: string, sep: char): (r: Split)
    ensures sep !in r.head
    ensures r.tail.None? <==> sep !in s
    ensures r.tail.None? ==> r.head == s
    ensures r.tail.Some? ==> s == r.head + [sep] + r.tail.value
  {
    if |s| == 0 then Split("", None)
    else if s[0] == sep then Split("", Some(s[1..]))
    else
      var rest := SplitFirst(s[1..], sep);
      Split([s[0]] + rest.head, rest.tail)
  }

  /** Splitting at the first separator is the inverse of joining a
      separator-free head to any tail. */
  lemma {:induction false} SplitFirstOfJoin(head: string, sep: char, tail: string)
    requires sep !in head
    ensures SplitFirst(head + [sep] + tail, sep) == Split(head, Some(tail))
  {
    var s := head + [sep] + tail;
    if |head| == 0 {
      assert s[0] == sep && s[1..] == tail;
    } else {
      assert s[0] == head[0] && s[1..] == head[1..] + [sep] + tail;
      SplitFirstOfJoin(head[1..], sep, tail);
      assert [head[0]] + head[1..] == head;
    }
  }

  /** `s.split(sep)[0]`: the text before the first `sep`, or all of `s`. */
  function FirstField(s: string, sep: char): (f: string)
    ensures sep !in f
    ensures f == s || f + [sep] <= s
  {
    var r := SplitFirst(s, sep);
    assert r.tail.Some? ==> s[..|r.head| + 1] == r.head + [sep];
    r.head
  }

  // ---------------------------------------------------------------- decimals

  predicate IsDigit(c: char) {
    '0' <= c <= '9'
  }

  predicate AllDigits(s: string) {
    forall i :: 0 <= i < |s| ==> IsDigit(s[i])
  }

  function DigitChar(d: nat): (c: char)
    requires d < 10
    ensures IsDigit(c)
  {
    ('0' as int + d) as char
  }

  function DigitValue(c: char): (d: nat)
    requires IsDigit(c)
    ensures d < 10
    ensures DigitChar(d) == c
  {
    c as int - '0' as int
  }

  /** Python's `str(n)` for a non-negative integer: decimal digits, no
      leading zero. */
  function NatToString(n: nat): (s: string)
    ensures |s| > 0 && AllDigits(s)
    ensures s[0] == '0' ==> n == 0 && |s| == 1
  {
    if n < 10 then [DigitChar(n)] else NatToString(n / 10) + [DigitChar(n % 10)]
  }

  /** Python's `int(s)` for a string of decimal digits (leading zeros
      allowed). */
  function DigitsValue(s: string): nat
    requires AllDigits(s)
  {
    if |s| == 0 then 0 else 10 * DigitsValue(s[..|s| - 1]) + DigitValue(s[|s| - 1])
  }

  /** `int(str(n)) == n`. */
  lemma {:induction false} DigitsValueOfNatToString(n: nat)
    ensures DigitsValue(NatToString(n)) == n
  {
    var s := NatToString(n);
    if n >= 10 {
      assert s[..|s| - 1] == NatToString(n / 10);
      assert DigitValue(s[|s| - 1]) == n % 10;
      DigitsValueOfNatToString(n / 10);
    } else {
      assert s[..0] == [];
    }
  }

  function Pow10(k: nat): (p: nat)
    ensures p >= 1
  {
    if k == 0 then 1 else 10 * Pow10(k - 1)
  }

  /** A number below `10^k` is written with at most `k` digits (and at
      least one). */
  lemma {:induction false} NatToStringLength(n: nat, k: nat)
    requires 1 <= k && n < Pow10(k)
    ensures |NatToString(n)| <= k
  {
    if n >= 10 {
      assert k >= 2;
      NatToStringLength(n / 10, k - 1);
    }
  }

  // -------------------------------------------------------------- whitespace

  /** The characters Python's `str.split()` treats as whitespace in a byte
      string. */
  predicate IsSpace(c: char) {
    c == ' ' || c == '\t' || c == '\n' || c == '\r' || c == '\U{000B}' || c == '\U{000C}'
  }

  predicate NoSpace(s: string) {
    forall i :: 0 <= i < |s| ==> !IsSpace(s[i])
  }

  /** The length of the run of non-whitespace at the start of `s`. */
  function WordLength(s: string): (n: nat)
    ensures n <= |s|
    ensures NoSpace(s[..n])
    ensures n < |s| ==> IsSpace(s[n])
  {
    if |s| == 0 || IsSpace(s[0]) then 0
    else
      var n := 1 + WordLength(s[1..]);
      assert s[..n] == [s[0]] + s[1..][..n - 1];
      n
  }

  /** Python's `s.split()` with no separator: the maximal runs of
      non-whitespace characters, in order. */
  function Words(s: string): (ws: seq<string>)
    ensures forall i :: 0 <= i < |ws| ==> |ws[i]| > 0 && NoSpace(ws[i])
    decreases |s|
  {
    if |s| == 0 then []
    else if IsSpace(s[0]) then Words(s[1..])
    else
      var n := WordLength(s);
      [s[..n]] + Words(s[n..])
  }

  lemma {:induction false} WordLengthOfWord(w: string, rest: string)
    requires NoSpace(w)
    requires |rest| == 0 || IsSpace(rest[0])
    ensures WordLength(w + rest) == |w|
  {
    if |w| > 0 {
      assert (w + rest)[0] == w[0];
      assert (w + rest)[1..] == w[1..] + rest;
      WordLengthOfWord(w[1..], rest);
    } else {
      assert w + rest == rest;
    }
  }

  /** A word followed by a blank splits off as the first word. */
  lemma WordsOfWordThenSpace(w: string, rest: string)
    requires |w| > 0 && NoSpace(w)
    ensures Words(w + " " + rest) == [w] + Words(rest)
  {
    var s := w + " " + rest;
    WordLengthOfWord(w, " " + rest);
    assert s == w + (" " + rest);
    assert s[..|w|] == w;
    assert s[|w|..] == " " + rest;
    assert (" " + rest)[1..] == rest;
  }

  /** A single word splits to itself. */
  lemma WordsOfWord(w: string)
    requires |w| > 0 && NoSpace(w)
    ensures Words(w) == [w]
  {
    WordLengthOfWord(w, "");
    assert w + "" == w;
    assert w[|w|..] == "";
  }

  /** `sep.join(items)`. */
  function Join(items: seq<string>, sep: string): string {
    if |items| == 0 then ""
    else if |items| == 1 then items[0]
    else items[0] + sep + Join(items[1..], sep)
  }

  /** Splitting a blank-joined list of non-empty blank-free words gives the
      list back. */
  lemma {:induction false} WordsOfJoin(ws: seq<string>)
    requires forall i :: 0 <= i < |ws| ==> |ws[i]| > 0 && NoSpace(ws[i])
    ensures Words(Join(ws, " ")) == ws
  {
    if |ws| == 1 {
      WordsOfWord(ws[0]);
    } else if |ws| > 1 {
      WordsOfJoin(ws[1..]);
      WordsOfWordThenSpace(ws[0], Join(ws[1..], " "));
      assert ws == [ws[0]] + ws[1..];
    }
  }
}
