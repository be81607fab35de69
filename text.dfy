/**
 * The string operations the adapters and the CSV writer use: Python's
 * `str.replace`, `str.join` and `str(int)`, with the facts about them the
 * rest of the model relies on.
 */
module Text {

  /**
   * `s.replace(pat, rep)`: scan from the left and replace every
   * non-overlapping occurrence of `pat`.
   */
  function Replace(s: string, pat: string, rep: string): string
    requires pat != []
    decreases |s|
  {
    if s == [] then []
    else if pat <= s then rep + Replace(s[|pat|..], pat, rep)
    else [s[0]] + Replace(s[1..], pat, rep)
  }

  /**
   * A replacement as long as the pattern keeps the length, and a shorter one
   * never lengthens the text.
   */
  lemma {:induction false} ReplaceLength(s: string, pat: string, rep: string)
    requires pat != []
    ensures |rep| == |pat| ==> |Replace(s, pat, rep)| == |s|
    ensures |rep| <= |pat| ==> |Replace(s, pat, rep)| <= |s|
    decreases |s|
  {
    if s != [] {
      if pat <= s {
        ReplaceLength(s[|pat|..], pat, rep);
      } else {
        ReplaceLength(s[1..], pat, rep);
      }
    }
  }

  /** An occurrence of the pattern at the front is replaced. */
  lemma ReplaceAtMatch(pat: string, rep: string, rest: string)
    requires pat != []
    ensures Replace(pat + rest, pat, rep) == rep + Replace(rest, pat, rep)
  {
    assert (pat + rest)[|pat|..] == rest;
  }

  /** A leading character at which the pattern does not start is kept. */
  lemma ReplaceNoMatch(c: char, rest: string, pat: string, rep: string)
    requires pat != []
    requires !(pat <= [c] + rest)
    ensures Replace([c] + rest, pat, rep) == [c] + Replace(rest, pat, rep)
  {
    assert ([c] + rest)[1..] == rest;
  }

  /** Text without the pattern's first character passes through unchanged. */
  lemma {:induction false} ReplaceKeepsPlain(t: string, rest: string, pat: string, rep: string)
    requires pat != [] && pat[0] !in t
    ensures Replace(t + rest, pat, rep) == t + Replace(rest, pat, rep)
    decreases |t|
  {
    if t != [] {
      assert t + rest == [t[0]] + (t[1..] + rest);
      ReplaceNoMatch(t[0], t[1..] + rest, pat, rep);
      ReplaceKeepsPlain(t[1..], rest, pat, rep);
      calc {
        Replace(t + rest, pat, rep);
        Replace([t[0]] + (t[1..] + rest), pat, rep);
        [t[0]] + Replace(t[1..] + rest, pat, rep);
        [t[0]] + (t[1..] + Replace(rest, pat, rep));
        { assert [t[0]] + t[1..] == t; }
        t + Replace(rest, pat, rep);
      }
    } else {
      assert t + rest == rest;
    }
  }

  /**
   * Replacing one character by another keeps the length and changes exactly
   * the positions that held the old character.
   */
  lemma {:induction false} ReplaceCharPointwise(s: string, a: char, b: char)
    ensures |Replace(s, [a], [b])| == |s|
    ensures forall i :: 0 <= i < |s| ==>
              Replace(s, [a], [b])[i] == (if s[i] == a then b else s[i])
    decreases |s|
  {
    if s != [] {
      ReplaceCharPointwise(s[1..], a, b);
      if s[0] == a {
        assert [a] <= s;
      } else {
        assert !([a] <= s);
      }
    }
  }

  /** `sep.join(parts)`. */
  function Join(parts: seq<string>, sep: string): string
    decreases |parts|
  {
    if parts == [] then ""
    else if |parts| == 1 then parts[0]
    else parts[0] + sep + Join(parts[1..], sep)
  }

  function Digit(d: nat): char
    requires d < 10
  {
    ('0' as int + d) as char
  }

  /** The number a string of decimal digits spells, most significant digit first. */
  function DecimalValue(s: string): nat
    decreases |s|
  {
    if s == [] then 0
    else
      var n := |s| - 1;
      var d := s[n] as int - '0' as int;
      DecimalValue(s[..n]) * 10 + (if 0 <= d < 10 then d else 0)
  }

  lemma DecimalValueSnoc(s: string, d: nat)
    requires d < 10
    ensures DecimalValue(s + [Digit(d)]) == DecimalValue(s) * 10 + d
  {
    assert (s + [Digit(d)])[..|s|] == s;
  }

  /**
   * `str(n)` for a non-negative integer: the digits that spell `n`, with no
   * leading zero except in `"0"` itself.
   */
  function NatToDecimal(n: nat): (s: string)
    ensures |s| >= 1
    ensures forall i :: 0 <= i < |s| ==> '0' <= s[i] <= '9'
    ensures DecimalValue(s) == n
    ensures s[0] == '0' ==> s == "0"
    decreases n
  {
    if n < 10 then
      DecimalValueSnoc([], n);
      assert [] + [Digit(n)] == [Digit(n)];
      [Digit(n)]
    else
      DecimalValueSnoc(NatToDecimal(n / 10), n % 10);
      NatToDecimal(n / 10) + [Digit(n % 10)]
  }

  /** `str(i)` for any integer: a minus sign exactly for a negative `i`, then the digits of its magnitude. */
  function IntToDecimal(i: int): (s: string)
    ensures s != []
    ensures s[0] == '-' <==> i < 0
    ensures i < 0 ==> |s| >= 2 && DecimalValue(s[1..]) == -i && s[1] != '0'
    ensures 0 <= i ==> DecimalValue(s) == i && (s[0] == '0' ==> s == "0")
    ensures forall k :: (if i < 0 then 1 else 0) <= k < |s| ==> '0' <= s[k] <= '9'
  {
    if i < 0 then
      var digits := NatToDecimal(-i);
      assert ("-" + digits)[1..] == digits;
      "-" + digits
    else NatToDecimal(i)
  }

  /** The summed lengths of `parts`. */
  function TotalLength(parts: seq<string>): nat
    decreases |parts|
  {
    if parts == [] then 0 else |parts[0]| + TotalLength(parts[1..])
  }

  /** `sep.join(parts)` holds every part and one separator between each two. */
  lemma {:induction false} JoinLength(parts: seq<string>, sep: string)
    ensures parts == [] ==> Join(parts, sep) == ""
    ensures parts != [] ==> |Join(parts, sep)| == TotalLength(parts) + (|parts| - 1) * |sep|
    decreases |parts|
  {
    if |parts| > 1 {
      JoinLength(parts[1..], sep);
      assert TotalLength(parts) == |parts[0]| + TotalLength(parts[1..]);
      assert (|parts| - 1) * |sep| == |sep| + (|parts| - 2) * |sep|;
    } else if |parts| == 1 {
      assert TotalLength(parts[1..]) == 0;
    }
  }
}
