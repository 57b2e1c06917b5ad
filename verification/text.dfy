/** Text operations the honeypot relies on, with Python's meaning: substring
    search (`sub in s`), the last piece of `s.split(sep)`, and decimal digits. */
module Text {
  import opened Seqs

  predicate StartsWith(s: string, prefix: string) {
    |prefix| <= |s| && s[..|prefix|] == prefix
  }

  lemma Assoc(a: string, b: string, c: string)
    ensures (a + b) + c == a + (b + c)
  {
  }

  lemma PrefixOf(p: string, t: string)
    ensures StartsWith(p + t, p)
    ensures (p + t)[|p|..] == t
  {
    assert (p + t)[..|p|] == p;
  }

  /** `sub` occurs in `s` starting at index `i`. */
  predicate OccursAt(s: string, sub: string, i: int) {
    0 <= i && i + |sub| <= |s| && s[i..i + |sub|] == sub
  }

  lemma OccursShift(s: string, sub: string, i: nat)
    requires |s| > 0
    ensures OccursAt(s, sub, i + 1) <==> OccursAt(s[1..], sub, i)
  {
    if i + 1 + |sub| <= |s| {
      assert s[i + 1..i + 1 + |sub|] == s[1..][i..i + |sub|];
    }
  }

  /** Index of the leftmost occurrence of `sub` in `s` (Python's `str.find`). */
  function Find(s: string, sub: string): (r: Option<nat>)
    decreases |s|
    ensures r.Some? ==> OccursAt(s, sub, r.value)
    ensures r.Some? ==> forall j :: 0 <= j < r.value ==> !OccursAt(s, sub, j)
    ensures r.None? ==> forall j :: !OccursAt(s, sub, j)
  {
    if StartsWith(s, sub) then Some(0)
    else if |s| == 0 then None
    else
      var rest := Find(s[1..], sub);
      assert !OccursAt(s, sub, 0);
      match rest
      case None =>
        assert forall j :: !OccursAt(s, sub, j) by {
          forall j: nat ensures !OccursAt(s, sub, j) {
            if j > 0 {
              OccursShift(s, sub, j - 1);
            }
          }
        }
        None
      case Some(i) =>
        OccursShift(s, sub, i);
        assert forall j :: 0 <= j < i + 1 ==> !OccursAt(s, sub, j) by {
          forall j: nat | j < i + 1 ensures !OccursAt(s, sub, j) {
            if j > 0 {
              OccursShift(s, sub, j - 1);
            }
          }
        }
        Some(i + 1)
  }

  /** Python's `sub in s`: true exactly when `sub` occurs somewhere in `s`. */
  predicate Contains(s: string, sub: string)
    ensures Contains(s, sub) <==> exists i :: OccursAt(s, sub, i)
  {
    Find(s, sub).Some?
  }

  /** An occurrence anywhere makes `Contains` true. */
  lemma ContainsAt(s: string, sub: string, i: int)
    requires OccursAt(s, sub, i)
    ensures Contains(s, sub)
  {
  }

  /** Text containing `sub` still contains it inside any larger text. */
  lemma {:induction false} ContainsWithin(a: string, b: string, c: string, sub: string)
    requires Contains(b, sub)
    ensures Contains(a + b + c, sub)
  {
    var i := Find(b, sub).value;
    assert (a + b + c)[|a| + i..|a| + i + |sub|] == b[i..i + |sub|];
    ContainsAt(a + b + c, sub, |a| + i);
  }

  /** Text containing `sub` still contains it with more text after it. */
  lemma ContainsLeft(a: string, b: string, sub: string)
    requires Contains(a, sub)
    ensures Contains(a + b, sub)
  {
    var i := Find(a, sub).value;
    assert (a + b)[i..i + |sub|] == a[i..i + |sub|];
    ContainsAt(a + b, sub, i);
  }

  /** Text containing `sub` still contains it with more text before it. */
  lemma ContainsRight(a: string, b: string, sub: string)
    requires Contains(b, sub)
    ensures Contains(a + b, sub)
  {
    var i := Find(b, sub).value;
    assert (a + b)[|a| + i..|a| + i + |sub|] == b[i..i + |sub|];
    ContainsAt(a + b, sub, |a| + i);
  }

  /** Substring containment is transitive. */
  lemma {:induction false} ContainsTransitive(s: string, t: string, u: string)
    requires Contains(s, t)
    requires Contains(t, u)
    ensures Contains(s, u)
  {
    var i :| OccursAt(s, t, i);
    var j :| OccursAt(t, u, j);
    forall k | 0 <= k < |u|
      ensures s[i + j + k] == u[k]
    {
      assert u[k] == t[j + k];
      assert t[j + k] == s[i..i + |t|][j + k];
    }
    assert s[i + j..i + j + |u|] == u;
    assert OccursAt(s, u, i + j);
  }

  /** The last piece of Python's `s.split(sep)`: the text after the last
      separator met by a left-to-right scan for non-overlapping occurrences. */
  function LastSegment(s: string, sep: string): (r: string)
    requires |sep| > 0
    decreases |s|
    ensures |r| <= |s| && r == s[|s| - |r|..]
    ensures !Contains(r, sep)
    ensures !Contains(s, sep) ==> r == s
    ensures Contains(s, sep) ==> |r| <= |s| - |sep|
    ensures Contains(s, sep) ==> exists i :: OccursAt(s, sep, i) && r == s[i + |sep|..]
  {
    match Find(s, sep)
    case None => s
    case Some(i) =>
      var r := LastSegment(s[i + |sep|..], sep);
      SegmentFollows(s, sep, i, r);
      r
  }

  /** A piece that follows a separator of `s[i + |sep|..]`, or is all of it,
      follows a separator of `s`. */
  lemma SegmentFollows(s: string, sep: string, i: nat, r: string)
    requires OccursAt(s, sep, i)
    requires var t := s[i + |sep|..];
             || r == t
             || exists j :: OccursAt(t, sep, j) && r == t[j + |sep|..]
    ensures exists k :: OccursAt(s, sep, k) && r == s[k + |sep|..]
  {
    var t := s[i + |sep|..];
    if r != t {
      var j :| OccursAt(t, sep, j) && r == t[j + |sep|..];
      var k := i + |sep| + j;
      assert s[k..k + |sep|] == t[j..j + |sep|];
      assert OccursAt(s, sep, k) && r == s[k + |sep|..];
    }
  }

  /** When the leftmost separator of `a + sep + b` is the one written between
      `a` and `b`, splitting yields the last piece of `b` alone. */
  lemma SplitAfter(a: string, sep: string, b: string)
    requires |sep| > 0
    requires forall j :: 0 <= j < |a| ==> !OccursAt(a + sep + b, sep, j)
    ensures LastSegment(a + sep + b, sep) == LastSegment(b, sep)
  {
    var s := a + sep + b;
    assert s[|a|..|a| + |sep|] == sep;
    ContainsAt(s, sep, |a|);
    var k := Find(s, sep).value;
    assert k >= |a|;
    assert !(|a| < k);
    assert Find(s, sep) == Some(|a|);
    assert s[|a| + |sep|..] == b;
  }

  predicate IsDigit(c: char) {
    '0' <= c <= '9'
  }

  predicate AllDigits(s: string) {
    forall i :: 0 <= i < |s| ==> IsDigit(s[i])
  }

  function DigitChar(d: nat): (c: char)
    requires d < 10
    ensures IsDigit(c) && c as int - '0' as int == d
  {
    ('0' as int + d) as char
  }

  /** The number a string of decimal digits denotes. */
  function DigitsValue(s: string): nat
    requires AllDigits(s)
  {
    if |s| == 0 then 0
    else DigitsValue(s[..|s| - 1]) * 10 + (s[|s| - 1] as int - '0' as int)
  }

  /** Decimal text without superfluous leading zeros, as Python writes a number. */
  predicate CanonicalDigits(s: string) {
    |s| > 0 && AllDigits(s) && (s[0] == '0' ==> |s| == 1)
  }

  /** Python's `str(n)` for a non-negative integer. */
  function NatText(n: nat): (r: string)
    ensures CanonicalDigits(r)
    ensures DigitsValue(r) == n
  {
    if n < 10 then [DigitChar(n)]
    else
      var init := NatText(n / 10);
      var r := init + [DigitChar(n % 10)];
      assert r[..|r| - 1] == init;
      r
  }

  lemma {:induction false} LeadingDigitPositive(s: string)
    requires AllDigits(s) && |s| > 0 && s[0] != '0'
    ensures DigitsValue(s) > 0
  {
    if |s| > 1 {
      LeadingDigitPositive(s[..|s| - 1]);
    }
  }

  /** Canonical decimal text is the text of the number it denotes, so
      `NatText` and `DigitsValue` are mutually inverse on it. */
  lemma {:induction false} CanonicalIsNatText(s: string)
    requires CanonicalDigits(s)
    ensures NatText(DigitsValue(s)) == s
  {
    if |s| == 1 {
      SingleDigitText(s[0]);
      assert s == [s[0]];
    } else {
      var init := s[..|s| - 1];
      var c := s[|s| - 1];
      assert init[0] == s[0];
      LeadingDigitPositive(init);
      CanonicalIsNatText(init);
      AppendDigitText(init, c);
      assert s == init + [c];
    }
  }

  lemma SingleDigitText(c: char)
    requires IsDigit(c)
    ensures NatText(DigitsValue([c])) == [c]
  {
    assert [c][..0] == [];
    var d := c as int - '0' as int;
    assert DigitsValue([c]) == d;
    assert DigitChar(d) == c;
  }

  /** The step of `CanonicalIsNatText`: one more digit after canonical text. */
  lemma AppendDigitText(init: string, c: char)
    requires AllDigits(init) && DigitsValue(init) > 0 && NatText(DigitsValue(init)) == init
    requires IsDigit(c)
    ensures AllDigits(init + [c]) && NatText(DigitsValue(init + [c])) == init + [c]
  {
    var s := init + [c];
    var d := c as int - '0' as int;
    var q := DigitsValue(init);
    assert s[..|s| - 1] == init;
    assert DigitsValue(s) == q * 10 + d;
    LastDigit(q, d);
    assert DigitChar(d) == c;
  }

  /** Appending a digit `d` to the text of `q > 0` gives the text of `10q + d`. */
  lemma LastDigit(q: nat, d: nat)
    requires 0 < q && d < 10
    ensures NatText(q * 10 + d) == NatText(q) + [DigitChar(d)]
  {
    var n := q * 10 + d;
    assert n / 10 == q && n % 10 == d;
  }

  /** Python's `str(n)` for any integer. */
  function IntText(n: int): string {
    if n < 0 then "-" + NatText(-n) else NatText(n)
  }

  /** Exactly `width` digits: the last `width` decimal digits of `n`,
      zero-padded on the left (as `%02d` writes a value that fits its width);
      `PadValue` states which number they denote. */
  function Pad(n: nat, width: nat): (r: string)
    ensures |r| == width && AllDigits(r)
  {
    if width == 0 then ""
    else Pad(n / 10, width - 1) + [DigitChar(n % 10)]
  }

  function Pow10(k: nat): (p: nat)
    ensures p > 0
  {
    if k == 0 then 1 else 10 * Pow10(k - 1)
  }

  /** The padded digits denote `n` modulo `10^width`. */
  lemma {:induction false} PadValue(n: nat, width: nat)
    ensures DigitsValue(Pad(n, width)) == n % Pow10(width)
  {
    if width > 0 {
      var init := Pad(n / 10, width - 1);
      var r := Pad(n, width);
      PadValue(n / 10, width - 1);
      assert r[..|r| - 1] == init;
      assert r[|r| - 1] == DigitChar(n % 10);
      ModStep(n, Pow10(width - 1));
    }
  }

  /** Dropping the last decimal digit and reducing modulo `p` commutes with
      reducing modulo `10 * p`. */
  lemma ModStep(n: nat, p: nat)
    requires p > 0
    ensures (n / 10) % p * 10 + n % 10 == n % (10 * p)
  {
    var q := n / 10;
    var a := q / p;
    var b := q % p;
    var r := b * 10 + n % 10;
    assert q == p * a + b;
    assert n == 10 * q + n % 10;
    assert n == (10 * p) * a + r by {
      calc {
        n;
        10 * q + n % 10;
        10 * (p * a + b) + n % 10;
        (10 * p) * a + (b * 10 + n % 10);
      }
    }
    assert 0 <= r < 10 * p;
    ModUnique(n, 10 * p, a, r);
  }

  lemma ModUnique(n: nat, m: nat, a: nat, r: nat)
    requires m > 0 && n == m * a + r && r < m
    ensures n % m == r
  {
    var k := n / m - a;
    assert m * k == r - n % m by {
      assert m * (n / m) + n % m == m * a + r;
      assert m * k == m * (n / m) - m * a;
    }
    MultipleBounds(m, k);
  }

  /** A non-zero multiple of `m` is at least `m` away from zero. */
  lemma {:induction false} MultipleBounds(m: int, k: int)
    requires m >= 0
    ensures k > 0 ==> m * k >= m
    ensures k < 0 ==> m * k <= -m
    decreases if k < 0 then -k else k
  {
    if k > 1 {
      MultipleBounds(m, k - 1);
      assert m * k == m * (k - 1) + m;
    } else if k < -1 {
      MultipleBounds(m, k + 1);
      assert m * k == m * (k + 1) - m;
    }
  }
}
