/** Ruby's `String#succ` restricted to words of lowercase ASCII letters,
    which is the only place the shortcode search uses it. On such words
    `succ` counts in bijective base 26: "a" .. "z", "aa" .. "az", "ba", ...,
    "zz", "aaa", ... `Rank` is that count and `Unrank` its inverse. */
module Shortcode {
  import opened RubyString

  /** A (possibly empty) word of lowercase ASCII letters. */
  predicate IsWord(s: string) {
    forall k :: 0 <= k < |s| ==> IsLower(s[k])
  }

  function Digit(c: char): (d: int)
    requires IsLower(c)
    ensures 1 <= d <= 26
  {
    c as int - 'a' as int + 1
  }

  function Letter(d: int): (c: char)
    requires 0 <= d < 26
    ensures IsLower(c) && Digit(c) == d + 1
  {
    ('a' as int + d) as char
  }

  /** Position of `s` in the sequence "", "a", .., "z", "aa", .. */
  function Rank(s: string): nat
    requires IsWord(s)
  {
    if |s| == 0 then 0 else Rank(s[..|s| - 1]) * 26 + Digit(s[|s| - 1])
  }

  /** The word at position `n` of the sequence "", "a", .., "z", "aa", .. */
  function Unrank(n: nat): (s: string)
    ensures IsWord(s)
    ensures n > 0 ==> |s| > 0
  {
    if n == 0 then [] else Unrank((n - 1) / 26) + [Letter((n - 1) % 26)]
  }

  lemma {:induction false} RankUnrank(n: nat)
    ensures Rank(Unrank(n)) == n
  {
    if n > 0 {
      var s := Unrank(n);
      RankUnrank((n - 1) / 26);
      assert s[..|s| - 1] == Unrank((n - 1) / 26);
    }
  }

  lemma {:induction false} UnrankRank(s: string)
    requires IsWord(s)
    ensures Unrank(Rank(s)) == s
  {
    if |s| > 0 {
      var p, c := s[..|s| - 1], s[|s| - 1];
      UnrankRank(p);
      var n := Rank(s);
      assert n - 1 == Rank(p) * 26 + (Digit(c) - 1);
      assert (n - 1) / 26 == Rank(p);
      assert (n - 1) % 26 == Digit(c) - 1;
      assert Letter(Digit(c) - 1) == c;
      assert s == p + [c];
    }
  }

  /** Distinct words have distinct ranks. */
  lemma RankInjective(s: string, t: string)
    requires IsWord(s) && IsWord(t) && Rank(s) == Rank(t)
    ensures s == t
  {
    UnrankRank(s);
    UnrankRank(t);
  }

  /** `String#succ` on a non-empty lowercase word: bump the last letter,
      carrying past 'z' and growing the word by an 'a' when every letter
      carries ("z" -> "aa", "az" -> "ba", "zz" -> "aaa"). */
  function Succ(s: string): (r: string)
    requires IsWord(s) && |s| > 0
    ensures IsWord(r) && |r| > 0
    ensures Rank(r) == Rank(s) + 1
  {
    var p, c := s[..|s| - 1], s[|s| - 1];
    if c != 'z' then
      var r := p + [(c as int + 1) as char];
      assert r[..|r| - 1] == p;
      r
    else if |p| == 0 then
      "aa"
    else
      var r := Succ(p) + "a";
      assert r[..|r| - 1] == Succ(p);
      r
  }

  /** `succ` steps to the next word of the counting sequence: it is the one
      word whose rank is one more. */
  lemma SuccIsNextWord(s: string, w: string)
    requires IsWord(s) && |s| > 0 && IsWord(w)
    ensures w == Succ(s) <==> Rank(w) == Rank(s) + 1
  {
    if Rank(w) == Rank(s) + 1 {
      RankInjective(w, Succ(s));
    }
  }

  /** The used words at or after `cur` in the counting sequence; the
      measure that bounds the search in `NextFree`. */
  function UsedFrom(used: set<string>, cur: string): set<string>
    requires IsWord(cur)
  {
    set u | u in used && IsWord(u) && Rank(u) >= Rank(cur)
  }

  /** The `while used.include?(code) do code = code.downcase.succ end`
      search, started at a lowercase word: the first word at or after
      `cur` in the counting sequence that is not in `used`. */
  function NextFree(used: set<string>, cur: string): (r: string)
    requires IsWord(cur) && |cur| > 0
    ensures r !in used
    ensures IsWord(r) && Rank(cur) <= Rank(r)
    ensures forall n :: Rank(cur) <= n < Rank(r) ==> Unrank(n) in used
    decreases UsedFrom(used, cur)
  {
    if cur !in used then
      cur
    else
      var next := Succ(Downcase(cur));
      assert Downcase(cur) == cur;
      assert cur in UsedFrom(used, cur) - UsedFrom(used, next);
      var r := NextFree(used, next);
      assert Unrank(Rank(cur)) in used by {
        UnrankRank(cur);
      }
      r
  }
}
