/** Python string operations the modelled code relies on: slicing with
    out-of-range bounds, the `in` substring test, `str.replace(c, '')`,
    `str.upper()` and `str(int)`. */
module Strings {
  import opened Wrappers

  /** Python `s[:n]` for `n >= 0`: a prefix, clipped to the string. */
  function Take(s: string, n: nat): (r: string)
    ensures |r| == if |s| < n then |s| else n
    ensures r <= s
  {
    if |s| <= n then s else s[..n]
  }

  /** Python `s[n:]` for `n >= 0`: what `Take(s, n)` leaves, empty when `n` is past the end. */
  function Drop(s: string, n: nat): (r: string)
    ensures Take(s, n) + r == s
  {
    if |s| <= n then [] else s[n..]
  }

  /** Python `s[-n:]` for `n > 0`: the last `n` characters, or all of `s` when it is shorter. */
  function Last(s: string, n: nat): (r: string)
    requires n > 0
    ensures |r| == if |s| < n then |s| else n
    ensures s[|s| - |r|..] == r
  {
    if |s| <= n then s else s[|s| - n..]
  }

  /** `t` occurs in `s` starting at position `i`. */
  ghost predicate OccursAt(s: string, t: string, i: int) {
    0 <= i && i + |t| <= |s| && s[i..i + |t|] == t
  }

  /** Python `t in s` on strings: `t` is a substring of `s` (the empty string is in every string). */
  predicate Contains(s: string, t: string)
    ensures Contains(s, t) ==> |t| <= |s|
    ensures t <= s ==> Contains(s, t)
    decreases |s|
  {
    |t| <= |s| && (s[..|t|] == t || (0 < |s| && Contains(s[1..], t)))
  }

  /** `Contains` is exactly the existence of an occurrence, in both directions. */
  lemma {:induction false} ContainsIffOccurs(s: string, t: string)
    ensures Contains(s, t) <==> exists i :: OccursAt(s, t, i)
    decreases |s|
  {
    if |t| > |s| {
      assert forall i :: !OccursAt(s, t, i);
    } else if s[..|t|] == t {
      assert OccursAt(s, t, 0);
    } else {
      ContainsIffOccurs(s[1..], t);
      if Contains(s[1..], t) {
        var i :| OccursAt(s[1..], t, i);
        assert s[i + 1..i + 1 + |t|] == s[1..][i..i + |t|];
        assert OccursAt(s, t, i + 1);
      } else {
        forall i | OccursAt(s, t, i)
          ensures false
        {
          if i > 0 {
            assert s[1..][i - 1..i - 1 + |t|] == s[i..i + |t|];
            assert OccursAt(s[1..], t, i - 1);
          }
        }
      }
    }
  }

  /** Python `s.replace(c, '')`: every occurrence of `c` removed, the rest in order. */
  function Remove(s: string, c: char): (r: string)
    ensures c !in r
    ensures |r| <= |s|
    ensures forall x :: x in r ==> x in s
    ensures c !in s ==> r == s
  {
    if |s| == 0 then []
    else (if s[0] == c then [] else [s[0]]) + Remove(s[1..], c)
  }

  /** Removal works piecewise: it distributes over concatenation. */
  lemma {:induction false} RemoveAppend(a: string, b: string, c: char)
    ensures Remove(a + b, c) == Remove(a, c) + Remove(b, c)
    decreases |a|
  {
    if |a| > 0 {
      assert (a + b)[0] == a[0];
      assert (a + b)[1..] == a[1..] + b;
      RemoveAppend(a[1..], b, c);
      var head := if a[0] == c then [] else [a[0]];
      assert Remove(a + b, c) == head + Remove(a[1..] + b, c);
      assert Remove(a, c) == head + Remove(a[1..], c);
    } else {
      assert a + b == b;
    }
  }

  /** Python `str.upper()` on one character, ASCII letters only. */
  function UpperChar(c: char): (u: char)
    ensures 'a' <= c <= 'z' ==> 'A' <= u <= 'Z'
    ensures !('a' <= c <= 'z') ==> u == c
  {
    if 'a' <= c <= 'z' then (c as int - 32) as char else c
  }

  /** Python `str.lower()` on one character, ASCII letters only. */
  function LowerChar(c: char): (l: char)
    ensures 'A' <= c <= 'Z' ==> 'a' <= l <= 'z'
    ensures !('A' <= c <= 'Z') ==> l == c
  {
    if 'A' <= c <= 'Z' then (c as int + 32) as char else c
  }

  /** Lower-casing undoes upper-casing on lower-case letters, and the reverse. */
  lemma CaseRoundTrip(c: char)
    ensures 'a' <= c <= 'z' ==> LowerChar(UpperChar(c)) == c
    ensures 'A' <= c <= 'Z' ==> UpperChar(LowerChar(c)) == c
  {
  }

  function Upper(s: string): (r: string)
    ensures |r| == |s|
    ensures forall i :: 0 <= i < |s| ==> r[i] == UpperChar(s[i])
  {
    seq(|s|, i requires 0 <= i < |s| => UpperChar(s[i]))
  }

  function Lower(s: string): (r: string)
    ensures |r| == |s|
    ensures forall i :: 0 <= i < |s| ==> r[i] == LowerChar(s[i])
  {
    seq(|s|, i requires 0 <= i < |s| => LowerChar(s[i]))
  }

  /** Python `list.index(x)`: the position of the first `x`, absent when `x` is not in `xs`. */
  function IndexOf<T(==)>(xs: seq<T>, x: T): (r: Option<int>)
    ensures r.None? <==> x !in xs
    ensures r.Some? ==> 0 <= r.value < |xs| && xs[r.value] == x
    ensures r.Some? ==> forall j :: 0 <= j < r.value ==> xs[j] != x
  {
    if |xs| == 0 then None
    else if xs[0] == x then Some(0)
    else match IndexOf(xs[1..], x)
      case None => None
      case Some(k) => Some(k + 1)
  }

  function DigitChar(d: nat): (c: char)
    requires d < 10
    ensures '0' <= c <= '9'
  {
    "0123456789"[d]
  }

  /** Python `str(n)` for a natural number: decimal digits, no leading zero. */
  function NatToString(n: nat): (r: string)
    ensures 1 <= |r|
    ensures forall i :: 0 <= i < |r| ==> '0' <= r[i] <= '9'
    ensures n < 10 <==> |r| == 1
    ensures r[0] == '0' <==> n == 0
  {
    if n < 10 then [DigitChar(n)] else NatToString(n / 10) + [DigitChar(n % 10)]
  }

  /** The value of one decimal digit. */
  function DigitValue(c: char): nat {
    if '0' <= c <= '9' then c as int - '0' as int else 0
  }

  /** The number a string of decimal digits denotes, most significant digit first. */
  ghost function DecimalValue(s: string): nat {
    if |s| == 0 then 0 else 10 * DecimalValue(s[..|s| - 1]) + DigitValue(s[|s| - 1])
  }

  lemma DigitRoundTrip(d: nat)
    requires d < 10
    ensures DigitValue(DigitChar(d)) == d
  {
    assert "0123456789"[d] as int == '0' as int + d;
  }

  /** `str(n)` reads back as `n`: rendering a natural number loses nothing. */
  lemma {:induction false} NatToStringValue(n: nat)
    ensures DecimalValue(NatToString(n)) == n
  {
    var s := NatToString(n);
    DigitRoundTrip(n % 10);
    if n < 10 {
      assert s == [DigitChar(n)];
      assert s[..0] == [];
    } else {
      NatToStringValue(n / 10);
      assert s[..|s| - 1] == NatToString(n / 10);
    }
  }

  /** Python `str(i)` for any integer: a leading '-' for negatives. */
  function IntToString(i: int): (r: string)
    ensures 0 <= i ==> 1 <= |r| && forall k :: 0 <= k < |r| ==> '0' <= r[k] <= '9'
    ensures 0 <= i ==> (r[0] == '0' <==> i == 0)
    ensures i < 0 ==> |r| >= 2 && r[0] == '-' && r[1..] == IntToString(-i)
    decreases if i < 0 then 1 else 0
  {
    if i < 0 then "-" + NatToString(-i) else NatToString(i)
  }

  /** `str(i)` reads back as `i`: the digits after an optional '-' denote `|i|`. */
  lemma IntToStringValue(i: int)
    ensures 0 <= i ==> DecimalValue(IntToString(i)) == i
    ensures i < 0 ==> DecimalValue(IntToString(i)[1..]) == -i
  {
    if i < 0 {
      NatToStringValue(-i);
    } else {
      NatToStringValue(i);
    }
  }

  /** A year written with four digits renders as exactly four characters. */
  lemma FourDigitYear(y: int)
    requires 1000 <= y <= 9999
    ensures |IntToString(y)| == 4
  {
    var n3: nat := y / 10;
    var n2: nat := n3 / 10;
    var n1: nat := n2 / 10;
    assert 100 <= n3 && 10 <= n2 && 1 <= n1 < 10;
    assert |NatToString(n1)| == 1;
    assert |NatToString(n2)| == 2;
    assert |NatToString(n3)| == 3;
  }
}
