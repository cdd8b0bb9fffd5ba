/** The few Ruby `String` operations the dining core relies on: the two
    whitespace classes (`\s` in a regular expression and the set that
    `String#strip` removes), ASCII case mapping, `strip`, and the byte-wise
    lexicographic comparison `<=>`. */
module RubyString {

  /** `\s` in a Ruby regular expression: space, \t, \n, \v, \f and \r. */
  predicate IsRegexSpace(c: char) {
    c == ' ' || 9 <= c as int <= 13
  }

  /** The characters `String#strip` removes: NUL and everything `\s` matches. */
  predicate IsStripSpace(c: char) {
    c as int == 0 || IsRegexSpace(c)
  }

  predicate IsUpper(c: char) { 'A' <= c <= 'Z' }

  predicate IsLower(c: char) { 'a' <= c <= 'z' }

  /** What `[a-z]` matches under the `/i` flag. */
  predicate IsLetter(c: char) { IsUpper(c) || IsLower(c) }

  function DowncaseChar(c: char): (r: char)
    ensures IsLetter(c) ==> IsLower(r)
    ensures !IsUpper(c) ==> r == c
  {
    if IsUpper(c) then (c as int + 32) as char else c
  }

  function UpcaseChar(c: char): (r: char)
    ensures IsLetter(c) ==> IsUpper(r)
    ensures IsLower(c) ==> DowncaseChar(r) == c
  {
    if IsLower(c) then (c as int - 32) as char else c
  }

  /** `String#downcase` on ASCII text. */
  function Downcase(s: string): (r: string)
    ensures |r| == |s|
    ensures forall k :: 0 <= k < |s| ==> r[k] == DowncaseChar(s[k])
  {
    seq(|s|, k requires 0 <= k < |s| => DowncaseChar(s[k]))
  }

  /** `String#swapcase` on ASCII text. */
  function Swapcase(s: string): (r: string)
    ensures |r| == |s|
    ensures forall k :: 0 <= k < |s| && IsLower(s[k]) ==> IsUpper(r[k]) && DowncaseChar(r[k]) == s[k]
  {
    seq(|s|, k requires 0 <= k < |s| =>
      if IsLower(s[k]) then UpcaseChar(s[k]) else DowncaseChar(s[k]))
  }

  /** Length of the longest prefix of `s` whose characters all satisfy `p`. */
  function Span(s: string, p: char -> bool): (n: nat)
    ensures n <= |s|
    ensures forall k :: 0 <= k < n ==> p(s[k])
    ensures n == |s| || !p(s[n])
  {
    if |s| == 0 || !p(s[0]) then 0 else 1 + Span(s[1..], p)
  }

  /** `Span` is the only length with its two defining properties. */
  lemma SpanUnique(s: string, p: char -> bool, m: nat)
    requires m <= |s|
    requires forall k :: 0 <= k < m ==> p(s[k])
    requires m == |s| || !p(s[m])
    ensures Span(s, p) == m
  {
  }

  /** Length of the longest suffix of `s` whose characters all satisfy `p`. */
  function SpanRight(s: string, p: char -> bool): (n: nat)
    ensures n <= |s|
    ensures forall k :: |s| - n <= k < |s| ==> p(s[k])
    ensures n == |s| || !p(s[|s| - n - 1])
  {
    if |s| == 0 || !p(s[|s| - 1]) then 0 else 1 + SpanRight(s[..|s| - 1], p)
  }

  ghost predicate AllStripSpace(s: string) {
    forall k :: 0 <= k < |s| ==> IsStripSpace(s[k])
  }

  /** `s` is `pre + t + post` with `pre` and `post` made of strip-whitespace,
      where `pre` has length `i`. */
  ghost predicate Trims(s: string, i: int, t: string) {
    && 0 <= i && i + |t| <= |s|
    && s[i..i + |t|] == t
    && AllStripSpace(s[..i])
    && AllStripSpace(s[i + |t|..])
  }

  /** `String#strip`: removes leading and trailing whitespace (and NUL). */
  function Strip(s: string): (r: string)
    ensures exists i :: Trims(s, i, r)
    ensures r == [] || (!IsStripSpace(r[0]) && !IsStripSpace(r[|r| - 1]))
    ensures r == [] ==> AllStripSpace(s)
  {
    var i := Span(s, IsStripSpace);
    var t := s[i..];
    var j := SpanRight(t, IsStripSpace);
    var r := t[..|t| - j];
    assert Trims(s, i, r) by {
      assert s[i..i + |r|] == r;
      assert s[i + |r|..] == t[|t| - j..];
    }
    r
  }

  /** Stripping twice is the same as stripping once. */
  lemma StripIdempotent(s: string)
    ensures Strip(Strip(s)) == Strip(s)
  {
    var r := Strip(s);
    assert Span(r, IsStripSpace) == 0;
    if r != [] {
      assert SpanRight(r, IsStripSpace) == 0;
    }
  }

  /** Ruby's `String#<=>`: lexicographic comparison by character code,
      a proper prefix ordering first. */
  function Cmp(a: string, b: string): (r: int)
    ensures -1 <= r <= 1
  {
    if |a| == 0 && |b| == 0 then 0
    else if |a| == 0 then -1
    else if |b| == 0 then 1
    else if a[0] < b[0] then -1
    else if a[0] > b[0] then 1
    else Cmp(a[1..], b[1..])
  }

  /** The textbook definition of "`a` sorts strictly before `b`". */
  ghost predicate LexLess(a: string, b: string) {
    || (|a| < |b| && a == b[..|a|])
    || exists i :: 0 <= i < |a| && i < |b| && a[..i] == b[..i] && a[i] < b[i]
  }

  lemma {:induction false} CmpZeroIffEqual(a: string, b: string)
    ensures Cmp(a, b) == 0 <==> a == b
    decreases |a|
  {
    if |a| > 0 && |b| > 0 && a[0] == b[0] {
      CmpZeroIffEqual(a[1..], b[1..]);
      if Cmp(a[1..], b[1..]) == 0 {
        assert a == [a[0]] + a[1..] && b == [b[0]] + b[1..];
      } else {
        assert a[1..] != b[1..];
      }
    }
  }

  lemma {:induction false} CmpAntisymmetric(a: string, b: string)
    ensures Cmp(a, b) == -Cmp(b, a)
    decreases |a|
  {
    if |a| > 0 && |b| > 0 && a[0] == b[0] {
      CmpAntisymmetric(a[1..], b[1..]);
    }
  }

  lemma {:induction false} CmpTransitive(a: string, b: string, c: string)
    requires Cmp(a, b) <= 0 && Cmp(b, c) <= 0
    ensures Cmp(a, c) <= 0
    decreases |a|
  {
    if |a| > 0 && |c| > 0 && a[0] == c[0] {
      assert |b| > 0 && b[0] == a[0];
      CmpTransitive(a[1..], b[1..], c[1..]);
    }
  }

  lemma CmpStrictTransitive(a: string, b: string, c: string)
    requires Cmp(a, b) < 0 && Cmp(b, c) <= 0
    ensures Cmp(a, c) < 0
  {
    CmpTransitive(a, b, c);
    if Cmp(a, c) == 0 {
      CmpZeroIffEqual(a, c);
      CmpAntisymmetric(a, b);
    }
  }

  /** `Cmp` puts `a` first exactly when `a` is lexicographically smaller. */
  lemma {:induction false} CmpIsLexicographic(a: string, b: string)
    ensures Cmp(a, b) < 0 <==> LexLess(a, b)
    decreases |a|
  {
    if |a| == 0 {
      if |b| > 0 {
        assert a == b[..|a|];
      }
    } else if |b| == 0 {
    } else if a[0] < b[0] {
      assert a[..0] == b[..0];
    } else if a[0] > b[0] {
      if LexLess(a, b) {
        var i :| 0 <= i < |a| && i < |b| && a[..i] == b[..i] && a[i] < b[i];
      }
    } else {
      var a', b' := a[1..], b[1..];
      CmpIsLexicographic(a', b');
      if LexLess(a', b') {
        if |a'| < |b'| && a' == b'[..|a'|] {
          assert a == [a[0]] + a' && b[..|a|] == [b[0]] + b'[..|a'|];
        } else {
          var i :| 0 <= i < |a'| && i < |b'| && a'[..i] == b'[..i] && a'[i] < b'[i];
          assert a[..i + 1] == [a[0]] + a'[..i] && b[..i + 1] == [b[0]] + b'[..i];
        }
      }
      if LexLess(a, b) {
        if |a| < |b| && a == b[..|a|] {
          assert a' == b'[..|a'|];
        } else {
          var i :| 0 <= i < |a| && i < |b| && a[..i] == b[..i] && a[i] < b[i];
          assert i > 0;
          assert a'[..i - 1] == a[1..i] == b[1..i] == b'[..i - 1];
        }
      }
    }
  }
}
