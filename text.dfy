/** ASCII digit scanning and zero-padded number formatting: the pieces of the
    library's regular expressions (`\d{1,2}`, `[\d-]*`, ...), of `int(...)` on
    the matched groups and of the `{n:02}` / `{n:04}` format specifications. */
module Text {
  import opened Errors

  predicate IsDigit(c: char) {
    '0' <= c <= '9'
  }

  predicate AllDigits(s: string) {
    forall i :: 0 <= i < |s| ==> IsDigit(s[i])
  }

  function DigitValue(c: char): int
    requires IsDigit(c)
  {
    c as int - '0' as int
  }

  function Digit(n: int): (c: char)
    requires 0 <= n <= 9
    ensures IsDigit(c) && DigitValue(c) == n
  {
    ('0' as int + n) as char
  }

  /** `int(s)` for a string of ASCII digits (leading zeros allowed). */
  function NumberValue(s: string): nat
    requires AllDigits(s)
  {
    if s == [] then 0 else NumberValue(s[..|s| - 1]) * 10 + DigitValue(s[|s| - 1])
  }

  /** The value of a numeral of one, two or four digits, digit by digit. */
  lemma NumberValueDigits(s: string)
    requires AllDigits(s) && 1 <= |s|
    ensures |s| == 1 ==> NumberValue(s) == DigitValue(s[0])
    ensures |s| == 2 ==> NumberValue(s) == 10 * DigitValue(s[0]) + DigitValue(s[1])
    ensures |s| == 4 ==> NumberValue(s) == 1000 * DigitValue(s[0]) + 100 * DigitValue(s[1]) + 10 * DigitValue(s[2]) + DigitValue(s[3])
  {
    assert s[..1][..0] == [];
    if |s| >= 2 {
      assert s[..2][..1] == s[..1];
    }
    if |s| == 4 {
      assert s[..3][..2] == s[..2];
      assert s[..4][..3] == s[..3];
      assert s[..4] == s;
    }
  }

  /** `f'{n:02}'` for 0 <= n <= 99. */
  function Pad2(n: int): (s: string)
    requires 0 <= n <= 99
    ensures |s| == 2 && AllDigits(s) && NumberValue(s) == n
  {
    var s := [Digit(n / 10), Digit(n % 10)];
    assert s[..1] == [s[0]] && [s[0]][..0] == [];
    assert NumberValue([s[0]]) == DigitValue(s[0]);
    assert NumberValue(s) == NumberValue(s[..1]) * 10 + DigitValue(s[1]);
    s
  }

  /** `f'{n:04}'` for 0 <= n <= 9999. */
  function Pad4(n: int): (s: string)
    requires 0 <= n <= 9999
    ensures |s| == 4 && AllDigits(s) && NumberValue(s) == n
  {
    var s := Pad2(n / 100) + Pad2(n % 100);
    NumberValueAppend2(Pad2(n / 100), Pad2(n % 100));
    s
  }

  lemma NumberValueAppend2(a: string, b: string)
    requires AllDigits(a) && AllDigits(b) && |b| == 2
    ensures AllDigits(a + b)
    ensures NumberValue(a + b) == NumberValue(a) * 100 + NumberValue(b)
  {
    var s := a + b;
    assert s[..|s| - 1] == a + [b[0]];
    assert (a + [b[0]])[..|a|] == a;
    assert b[..1] == [b[0]] && [b[0]][..0] == [];
    assert NumberValue([b[0]]) == DigitValue(b[0]);
    assert NumberValue(b) == NumberValue(b[..1]) * 10 + DigitValue(b[1]);
    assert (a + [b[0]])[..|a + [b[0]]| - 1] == a;
    assert NumberValue(a + [b[0]]) == NumberValue(a) * 10 + DigitValue(b[0]);
  }

  /** Length of the greedy match of `\d{0,cap}` at s[i..]: the longest run of
      at most `cap` digits. */
  function DigitRun(s: string, i: nat, cap: nat): (k: nat)
    requires i <= |s|
    ensures k <= cap && i + k <= |s|
    ensures AllDigits(s[i..i + k])
    ensures k < cap && i + k < |s| ==> !IsDigit(s[i + k])
    decreases cap
  {
    if cap == 0 || i == |s| || !IsDigit(s[i]) then 0
    else
      var k := DigitRun(s, i + 1, cap - 1);
      assert s[i..i + 1 + k] == [s[i]] + s[i + 1..i + 1 + k];
      1 + k
  }

  /** End of the greedy match of `[class]*` at s[i..]: the longest run of
      characters in the class. */
  function Span(s: string, i: nat, inClass: char -> bool): (j: nat)
    requires i <= |s|
    ensures i <= j <= |s|
    ensures forall k :: i <= k < j ==> inClass(s[k])
    ensures j < |s| ==> !inClass(s[j])
    decreases |s| - i
  {
    if i == |s| || !inClass(s[i]) then i else Span(s, i + 1, inClass)
  }

  /** A run of digits and a following character that ends it. */
  lemma DigitRunOf(s: string, i: nat, k: nat, cap: nat)
    requires i + k <= |s| && k <= cap
    requires AllDigits(s[i..i + k])
    requires k < cap && i + k < |s| ==> !IsDigit(s[i + k])
    ensures DigitRun(s, i, cap) == k
  {

  }

  /** A maximal run of class characters ends where Span says. */
  lemma SpanOf(s: string, i: nat, j: nat, inClass: char -> bool)
    requires i <= j <= |s|
    requires forall k :: i <= k < j ==> inClass(s[k])
    requires j < |s| ==> !inClass(s[j])
    ensures Span(s, i, inClass) == j
  {
  }

  /** One group `\d{lo,hi}` at the start of `s`, matched greedily, followed by
      the separator `sep` (one non-digit character, or nothing): the group and
      the text after the separator. The separator is never a digit, so a
      backtracking matcher finds no other match. */
  function Field(s: string, lo: nat, hi: nat, sep: string): (r: Option<(string, string)>)
    requires |sep| <= 1
    ensures r.Some? ==> lo <= |r.value.0| <= hi && AllDigits(r.value.0)
    ensures r.Some? ==> s == r.value.0 + sep + r.value.1
  {
    var k := DigitRun(s, 0, hi);
    if k < lo || |s| < k + |sep| || s[k..k + |sep|] != sep then None
    else
      assert s == s[..k] + s[k..k + |sep|] + s[k + |sep|..];
      Some((s[..k], s[k + |sep|..]))
  }

  /** A group of `lo` to `hi` digits followed by the separator is matched as
      exactly that group, provided the text after it does not extend the run. */
  lemma FieldOf(g: string, lo: nat, hi: nat, sep: string, rest: string)
    requires lo <= |g| <= hi && AllDigits(g)
    requires |sep| <= 1 && (sep != [] ==> !IsDigit(sep[0]))
    requires sep == [] && |g| < hi && rest != [] ==> !IsDigit(rest[0])
    ensures Field(g + sep + rest, lo, hi, sep) == Some((g, rest))
  {
    var s := g + sep + rest;
    assert s[..|g|] == g;
    assert s[|g|..|g| + |sep|] == sep;
    assert s[|g| + |sep|..] == rest;
    DigitRunOf(s, 0, |g|, hi);
  }

  lemma ConcatAssoc(a: string, x: string, b: string, y: string, c: string, d: string)
    ensures a + x + (b + y + (c + d)) == a + x + b + y + c + d
  {
  }
}
