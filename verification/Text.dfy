/** Decimal numerals and whitespace. */
module Text {

  // ----- decimal numbers -----

  predicate IsDigit(c: char) { '0' <= c <= '9' }

  function Digit(d: nat): (c: char)
    requires d < 10
    ensures IsDigit(c)
  {
    '0' + d as char
  }

  function Dec(n: nat): (s: string)
    ensures s != [] && AllDigits(s)
  {
    if n < 10 then [Digit(n)] else Dec(n / 10) + [Digit(n % 10)]
  }

  function DigitValue(c: char): nat
    requires IsDigit(c)
  {
    c as int - '0' as int
  }

  predicate AllDigits(s: string) { forall i :: 0 <= i < |s| ==> IsDigit(s[i]) }

  function ValueOf(s: string): nat
    requires AllDigits(s)
  {
    if s == [] then 0 else ValueOf(s[..|s| - 1]) * 10 + DigitValue(s[|s| - 1])
  }

  lemma {:induction false} ValueOfDec(n: nat)
    ensures ValueOf(Dec(n)) == n
  {
    if n >= 10 {
      ValueOfDec(n / 10);
      assert Dec(n)[..|Dec(n)| - 1] == Dec(n / 10);
    }
  }

  /** How many leading characters are digits. */
  function DigitRun(s: string): (n: nat)
    ensures n <= |s| && AllDigits(s[..n])
    ensures n < |s| ==> !IsDigit(s[n])
  {
    if s != [] && IsDigit(s[0]) then
      assert forall i :: 1 <= i < |s| ==> s[i] == s[1..][i - 1];
      1 + DigitRun(s[1..])
    else 0
  }

  // ----- whitespace -----

  /** What stripping removes, for the characters below 256. */
  predicate IsSpace(c: char) {
    c == ' ' || '\t' <= c <= '\r' || '\U{1C}' <= c <= '\U{1F}' || c == '\U{85}' || c == '\U{A0}'
  }

  function TrimRight(s: string): (r: string)
    ensures |r| <= |s| && r == s[..|r|]
    ensures r != [] ==> !IsSpace(r[|r| - 1])
  {
    if s != [] && IsSpace(s[|s| - 1]) then TrimRight(s[..|s| - 1]) else s
  }

  function Strip(s: string): string {
    if s != [] && IsSpace(s[0]) then Strip(s[1..]) else TrimRight(s)
  }

  predicate AllSpace(s: string) { forall i :: 0 <= i < |s| ==> IsSpace(s[i]) }

  /** Neither end is whitespace. */
  predicate Trim(s: string) { s != [] ==> !IsSpace(s[0]) && !IsSpace(s[|s| - 1]) }

  lemma {:induction false} TrimRightRemoves(s: string, post: string)
    requires AllSpace(post) && (s != [] ==> !IsSpace(s[|s| - 1]))
    ensures TrimRight(s + post) == s
    decreases |post|
  {
    var t := s + post;
    if post == [] {
      assert t == s;
    } else {
      assert t[..|t| - 1] == s + post[..|post| - 1];
      TrimRightRemoves(s, post[..|post| - 1]);
    }
  }

  /** Stripping removes all whitespace at both ends and nothing else. */
  lemma {:induction false} StripRemoves(pre: string, s: string, post: string)
    requires AllSpace(pre) && AllSpace(post) && Trim(s)
    ensures Strip(pre + s + post) == s
    decreases |pre| + |post|
  {
    var t := pre + s + post;
    if pre != [] {
      assert t[1..] == pre[1..] + s + post;
      StripRemoves(pre[1..], s, post);
    } else {
      assert t == s + post;
      if s == [] && post != [] {
        assert t[1..] == [] + s + post[1..];
        StripRemoves([], s, post[1..]);
      } else {
        TrimRightRemoves(s, post);
      }
    }
  }

  lemma {:induction false} TrimRightLeaves(s: string) returns (post: string)
    ensures AllSpace(post) && s == TrimRight(s) + post
  {
    if s != [] && IsSpace(s[|s| - 1]) {
      post := TrimRightLeaves(s[..|s| - 1]);
      post := post + [s[|s| - 1]];
    } else {
      post := [];
    }
  }

  lemma {:induction false} StripLeaves(s: string) returns (pre: string, post: string)
    ensures AllSpace(pre) && AllSpace(post) && Trim(Strip(s)) && s == pre + Strip(s) + post
  {
    if s != [] && IsSpace(s[0]) {
      var before;
      before, post := StripLeaves(s[1..]);
      pre := [s[0]] + before;
      Regroup(s, before, Strip(s[1..]), post);
    } else {
      pre := [];
      post := TrimRightLeaves(s);
    }
  }

  lemma Regroup(s: string, a: string, b: string, c: string)
    requires s != [] && s[1..] == a + b + c
    ensures s == [s[0]] + a + b + c
    ensures AllSpace(a) && IsSpace(s[0]) ==> AllSpace([s[0]] + a)
  {
  }

  /** What is not whitespace survives stripping, and nothing is added. */
  lemma StripMembers(s: string, c: char)
    requires !IsSpace(c)
    ensures c in Strip(s) <==> c in s
  {
    var pre, post := StripLeaves(s);
    var t := Strip(s);
    assert c !in pre && c !in post;
    assert c in pre + t + post <==> c in pre + t || c in post;
  }

  // ----- positional notation -----

  function Pow10(k: nat): (p: nat)
    ensures p > 0
  {
    if k == 0 then 1 else 10 * Pow10(k - 1)
  }

  lemma TenTimes(n: nat, p: nat)
    requires p > 0
    ensures n / 10 / p == n / (10 * p)
  {
    var m := n / 10;
    var q, r := m / p, m % p;
    assert m == p * q + r && 10 * (p * q) == 10 * p * q;
    var e := n / (10 * p) - q;
    assert 10 * p * e == 10 * r + n % 10 - n % (10 * p);
    assert e >= 1 ==> 10 * p * e >= 10 * p;
    assert e <= -1 ==> 10 * p * e + 10 * p <= 0;
  }

  /** A decimal numeral means what it should: counted from its end, digit `k` is the one of
      weight ten to the `k`, and there is no leading zero. */
  lemma {:induction false} DecDigit(n: nat, k: nat)
    requires k < |Dec(n)|
    ensures DigitValue(Dec(n)[|Dec(n)| - 1 - k]) == n / Pow10(k) % 10
    ensures n > 0 ==> Dec(n)[0] != '0'
    ensures n == 0 ==> Dec(n) == "0"
  {
    if n >= 10 {
      if k > 0 {
        DecDigit(n / 10, k - 1);
        TenTimes(n, Pow10(k - 1));
      } else {
        DecDigit(n / 10, 0);
      }
    }
  }
}
