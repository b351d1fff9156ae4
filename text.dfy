/** The parts of Python's `str` the backend relies on: `split()`, `" ".join`, `strip()`,
    `lower()`, the `in` substring test and `str()` of an integer. */
module Text {

  /** Python's `str.isspace()` for a single character. */
  predicate IsSpace(c: char)
  {
    || c == ' ' || c == '\t' || c == '\n' || c == '\r' || c == '\U{000B}' || c == '\U{000C}'
    || ('\U{001C}' <= c <= '\U{001F}') || c == '\U{0085}' || c == '\U{00A0}' || c == '\U{1680}'
    || ('\U{2000}' <= c <= '\U{200A}') || c == '\U{2028}' || c == '\U{2029}' || c == '\U{202F}'
    || c == '\U{205F}' || c == '\U{3000}'
  }

  /** A token produced by `split()`: non-empty and free of whitespace. */
  predicate IsWord(w: string)
  {
    |w| > 0 && forall i :: 0 <= i < |w| ==> !IsSpace(w[i])
  }

  /** Length of the leading run of non-whitespace characters. */
  function SpanLength(s: string): (n: nat)
    ensures n <= |s|
    ensures forall i :: 0 <= i < n ==> !IsSpace(s[i])
    ensures n < |s| ==> IsSpace(s[n])
  {
    if s == [] || IsSpace(s[0]) then 0 else 1 + SpanLength(s[1..])
  }

  /** `s.split()`: the maximal runs of non-whitespace characters, in order. */
  function Words(s: string): (ws: seq<string>)
    ensures forall i :: 0 <= i < |ws| ==> IsWord(ws[i])
    decreases |s|
  {
    if s == [] then []
    else if IsSpace(s[0]) then Words(s[1..])
    else
      var n := SpanLength(s);
      [s[..n]] + Words(s[n..])
  }

  /** `" ".join(ws)`. */
  function JoinSpace(ws: seq<string>): (s: string)
    ensures ws != [] ==> |ws[0]| <= |s| && s[..|ws[0]|] == ws[0]
  {
    if ws == [] then ""
    else if |ws| == 1 then ws[0]
    else ws[0] + " " + JoinSpace(ws[1..])
  }

  /** Every whitespace character of `s` is a plain space with non-whitespace on both sides:
      no whitespace at either end, none doubled and none other than `' '`. */
  predicate SingleSpaces(s: string)
  {
    forall i :: 0 <= i < |s| && IsSpace(s[i]) ==>
      s[i] == ' ' && 0 < i < |s| - 1 && !IsSpace(s[i - 1]) && !IsSpace(s[i + 1])
  }

  /** `" ".join` of tokens puts exactly one space between neighbours and nowhere else. */
  lemma {:induction false} JoinSpaceSingleSpaces(ws: seq<string>)
    requires forall i :: 0 <= i < |ws| ==> IsWord(ws[i])
    ensures SingleSpaces(JoinSpace(ws))
  {
    if |ws| == 1 {
      assert IsWord(ws[0]);
    } else if |ws| > 1 {
      var w := ws[0];
      var rest := JoinSpace(ws[1..]);
      assert IsWord(w) && IsWord(ws[1]);
      JoinSpaceSingleSpaces(ws[1..]);
      assert rest[0] == ws[1][0];
      var s := JoinSpace(ws);
      assert s == w + " " + rest;
      forall i | 0 <= i < |s| && IsSpace(s[i])
        ensures s[i] == ' ' && 0 < i < |s| - 1 && !IsSpace(s[i - 1]) && !IsSpace(s[i + 1])
      {
        if i == |w| {
          assert s[i - 1] == w[|w| - 1];
          assert s[i + 1] == rest[0];
        } else if i > |w| {
          var k := i - |w| - 1;
          assert s[i] == rest[k];
          assert 0 < k < |rest| - 1;
          assert s[i - 1] == rest[k - 1];
          assert s[i + 1] == rest[k + 1];
        }
      }
    }
  }

  /** A word followed by nothing or by whitespace is split off as the first token. */
  lemma {:induction false} WordsPrepend(w: string, t: string)
    requires IsWord(w)
    requires t == [] || IsSpace(t[0])
    ensures Words(w + t) == [w] + Words(t)
  {
    var s := w + t;
    assert s[0] == w[0];
    var n := SpanLength(s);
    assert forall i :: 0 <= i < |w| ==> s[i] == w[i];
    assert t != [] ==> s[|w|] == t[0];
    assert n == |w|;
    assert s[..n] == w;
    assert s[n..] == t;
  }

  /** Splitting what `" ".join` built gives the tokens back. */
  lemma {:induction false} WordsOfJoin(ws: seq<string>)
    requires forall i :: 0 <= i < |ws| ==> IsWord(ws[i])
    ensures Words(JoinSpace(ws)) == ws
  {
    if ws == [] {
    } else if |ws| == 1 {
      WordsPrepend(ws[0], "");
      assert ws[0] + "" == ws[0];
    } else {
      var rest := JoinSpace(ws[1..]);
      assert JoinSpace(ws) == ws[0] + (" " + rest);
      WordsPrepend(ws[0], " " + rest);
      assert (" " + rest)[1..] == rest;
      WordsOfJoin(ws[1..]);
      assert [ws[0]] + ws[1..] == ws;
    }
  }

  /** A string of whitespace only has no tokens. */
  lemma {:induction false} WordsOfBlank(s: string)
    requires forall i :: 0 <= i < |s| ==> IsSpace(s[i])
    ensures Words(s) == []
  {
    if s != [] {
      WordsOfBlank(s[1..]);
    }
  }

  /** `s.lstrip()`: drops the leading whitespace and nothing else. */
  function StripLeft(s: string): (r: string)
    ensures |r| <= |s| && r == s[|s| - |r|..]
    ensures forall i :: 0 <= i < |s| - |r| ==> IsSpace(s[i])
    ensures r == [] || !IsSpace(r[0])
  {
    if s != [] && IsSpace(s[0]) then StripLeft(s[1..]) else s
  }

  /** `s.rstrip()`: drops the trailing whitespace and nothing else. */
  function StripRight(s: string): (r: string)
    ensures |r| <= |s| && r == s[..|r|]
    ensures forall i :: |r| <= i < |s| ==> IsSpace(s[i])
    ensures r == [] || !IsSpace(r[|r| - 1])
  {
    if s != [] && IsSpace(s[|s| - 1]) then StripRight(s[..|s| - 1]) else s
  }

  /** `s.strip()`: a slice of `s` with only whitespace around it, which neither starts nor
      ends with whitespace. */
  function Strip(s: string): (r: string)
    ensures |r| <= |s|
    ensures exists i :: StrippedAt(s, r, i)
    ensures r == [] || (!IsSpace(r[0]) && !IsSpace(r[|r| - 1]))
  {
    var l := StripLeft(s);
    var r := StripRight(l);
    PrefixOfSuffix(s, l, r);
    assert r != [] ==> r[0] == l[0];
    r
  }

  /** A prefix of a suffix of `s`, with only whitespace before the suffix and after the
      prefix, is a slice of `s` with only whitespace around it. */
  lemma {:induction false} PrefixOfSuffix(s: string, l: string, r: string)
    requires |l| <= |s| && l == s[|s| - |l|..]
    requires forall j :: 0 <= j < |s| - |l| ==> IsSpace(s[j])
    requires |r| <= |l| && r == l[..|r|]
    requires forall j :: |r| <= j < |l| ==> IsSpace(l[j])
    ensures StrippedAt(s, r, |s| - |l|)
  {
    var i := |s| - |l|;
    assert r == s[i..i + |r|];
    forall j | i + |r| <= j < |s|
      ensures IsSpace(s[j])
    {
      assert s[j] == l[j - i];
    }
  }

  /** `r` is the slice of `s` at `i`, and every character of `s` outside it is whitespace. */
  predicate StrippedAt(s: string, r: string, i: int)
  {
    && 0 <= i && i + |r| <= |s|
    && r == s[i..i + |r|]
    && (forall j :: 0 <= j < i ==> IsSpace(s[j]))
    && (forall j :: i + |r| <= j < |s| ==> IsSpace(s[j]))
  }

  /** `c.lower()`. Only the characters whose lower-case form contains an ASCII letter are
      mapped: A-Z, the Kelvin sign (to "k") and the dotted capital I (to "i" followed by a
      combining dot above). Every other character is kept as it is. */
  function LowerChar(c: char): (s: string)
    ensures |s| >= 1
    ensures !IsSpace(c) ==> forall i :: 0 <= i < |s| ==> !IsSpace(s[i])
  {
    if 'A' <= c <= 'Z' then [(c as int + 32) as char]
    else if c == '\U{212A}' then "k"
    else if c == '\U{0130}' then "i\U{0307}"
    else [c]
  }

  /** `s.lower()`, character by character. */
  function Lower(s: string): string
  {
    if s == [] then [] else LowerChar(s[0]) + Lower(s[1..])
  }

  /** Lower-casing a string free of whitespace creates none. */
  lemma {:induction false} LowerKeepsNonSpace(s: string)
    requires forall i :: 0 <= i < |s| ==> !IsSpace(s[i])
    ensures forall i :: 0 <= i < |Lower(s)| ==> !IsSpace(Lower(s)[i])
  {
    if s != [] {
      var head := LowerChar(s[0]);
      assert forall i :: 0 <= i < |s| - 1 ==> s[1..][i] == s[i + 1];
      LowerKeepsNonSpace(s[1..]);
      var tail := Lower(s[1..]);
      assert forall i :: |head| <= i < |head| + |tail| ==> (head + tail)[i] == tail[i - |head|];
    }
  }

  /** Lower-casing creates a lower-case ASCII letter other than k and i only out of that
      letter or its capital. */
  lemma {:induction false} LowerAvoids(s: string, c: char)
    requires 'a' <= c <= 'z' && c != 'k' && c != 'i'
    requires forall j :: 0 <= j < |s| ==> s[j] != c && s[j] != (c as int - 32) as char
    ensures c !in Lower(s)
  {
    if s != [] {
      assert c !in LowerChar(s[0]);
      assert forall j :: 0 <= j < |s| - 1 ==> s[1..][j] == s[j + 1];
      LowerAvoids(s[1..], c);
    }
  }

  predicate StartsWith(s: string, p: string)
  {
    |p| <= |s| && s[..|p|] == p
  }

  /** Python's `p in s` on strings, scanning start positions left to right. */
  predicate Contains(s: string, p: string)
    decreases |s|
  {
    StartsWith(s, p) || (s != [] && Contains(s[1..], p))
  }

  /** `p` occurs in `s` at some position. */
  ghost predicate OccursIn(p: string, s: string)
  {
    exists i :: OccursAt(p, s, i)
  }

  /** `p` occurs in `s` starting at position `i`. */
  predicate OccursAt(p: string, s: string, i: int)
  {
    0 <= i <= |s| - |p| && s[i..i + |p|] == p
  }

  /** The scanning test agrees with "occurs at some position". */
  lemma {:induction false} ContainsOccurs(s: string, p: string)
    ensures Contains(s, p) <==> OccursIn(p, s)
  {
    if Contains(s, p) {
      ContainsThenOccurs(s, p);
    }
    if OccursIn(p, s) {
      var i :| OccursAt(p, s, i);
      OccursThenContains(s, p, i);
    }
  }

  lemma {:induction false} ContainsThenOccurs(s: string, p: string)
    requires Contains(s, p)
    ensures OccursIn(p, s)
    decreases |s|
  {
    if StartsWith(s, p) {
      assert OccursAt(p, s, 0);
    } else {
      ContainsThenOccurs(s[1..], p);
      var j :| OccursAt(p, s[1..], j);
      assert s[j + 1..j + 1 + |p|] == s[1..][j..j + |p|];
      assert OccursAt(p, s, j + 1);
    }
  }

  lemma {:induction false} OccursThenContains(s: string, p: string, i: int)
    requires OccursAt(p, s, i)
    ensures Contains(s, p)
    decreases i
  {
    if i == 0 {
      assert StartsWith(s, p);
    } else {
      assert s[1..][i - 1..i - 1 + |p|] == s[i..i + |p|];
      OccursThenContains(s[1..], p, i - 1);
    }
  }

  predicate IsDigit(c: char)
  {
    '0' <= c <= '9'
  }

  predicate AllDigits(s: string)
  {
    forall i :: 0 <= i < |s| ==> IsDigit(s[i])
  }

  function DigitChar(d: nat): (c: char)
    requires d < 10
    ensures IsDigit(c)
  {
    ('0' as int + d) as char
  }

  /** `str(n)` for a non-negative integer: its decimal digits, most significant first. */
  function NatToString(n: nat): (s: string)
    ensures |s| >= 1 && AllDigits(s)
  {
    if n < 10 then [DigitChar(n)] else NatToString(n / 10) + [DigitChar(n % 10)]
  }

  /** `str(i)` for any integer. */
  function IntToString(i: int): (s: string)
    ensures |s| >= 1
    ensures i >= 0 <==> IsDigit(s[0])
  {
    if i < 0 then "-" + NatToString(-i) else NatToString(i)
  }

  /** The number a string of decimal digits denotes. */
  function DigitsValue(s: string): nat
    requires AllDigits(s)
  {
    if s == [] then 0 else 10 * DigitsValue(s[..|s| - 1]) + (s[|s| - 1] as int - '0' as int)
  }

  /** Reading back what `str` wrote gives the number. */
  lemma {:induction false} DigitsValueOfNat(n: nat)
    ensures DigitsValue(NatToString(n)) == n
  {
    var s := NatToString(n);
    if n >= 10 {
      DigitsValueOfNat(n / 10);
      assert s[..|s| - 1] == NatToString(n / 10);
    }
  }

  /** `str` of an integer is injective. */
  lemma {:induction false} IntToStringInjective(a: int, b: int)
    requires IntToString(a) == IntToString(b)
    ensures a == b
  {
    var s := IntToString(a);
    if a >= 0 && b >= 0 {
      assert s == NatToString(a) == NatToString(b);
      DigitsValueOfNat(a);
      DigitsValueOfNat(b);
    } else if a < 0 && b < 0 {
      assert s == "-" + NatToString(-a) == "-" + NatToString(-b);
      assert s[1..] == NatToString(-a) == NatToString(-b);
      DigitsValueOfNat(-a);
      DigitsValueOfNat(-b);
    }
  }

  /** Length of the trailing run of ASCII digits. */
  function TrailingDigits(s: string): (n: nat)
    ensures n <= |s|
    ensures forall i :: |s| - n <= i < |s| ==> IsDigit(s[i])
    ensures n < |s| ==> !IsDigit(s[|s| - n - 1])
  {
    if s != [] && IsDigit(s[|s| - 1]) then
      TrailingDigits(s[..|s| - 1]) + 1
    else 0
  }

  /** A non-digit followed by digits at the end: the end is the whole trailing digit run. */
  lemma {:induction false} TrailingDigitsAfter(x: string, c: char, d: string)
    requires !IsDigit(c) && AllDigits(d)
    ensures TrailingDigits(x + [c] + d) == |d|
  {
    var s := x + [c] + d;
    var n := TrailingDigits(s);
    assert s[|x|] == c;
    assert forall i :: 0 <= i < |d| ==> s[|x| + 1 + i] == d[i];

  }

  /** Two strings that end in a separator and a run of digits split the same way. */
  lemma {:induction false} SplitBeforeDigits(x: string, c: char, d: string, y: string, e: string)
    requires !IsDigit(c) && AllDigits(d) && AllDigits(e)
    requires x + [c] + d == y + [c] + e
    ensures x == y && d == e
  {
    TrailingDigitsAfter(x, c, d);
    TrailingDigitsAfter(y, c, e);
    var s := x + [c] + d;
    assert x == s[..|x|] && y == s[..|y|];
    assert d == s[|x| + 1..] && e == s[|y| + 1..];
  }
}
