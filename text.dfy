/**
 * Character and string helpers shared by the automaton, the solver and the
 * generator: the 26-letter alphabet 'A'..'Z', ASCII upper-casing, the
 * letters-only view of a string, reversal, suffixes, and the decimal
 * rendering of integers that the solver's de-duplication key uses.
 */
module Text {

  /** The alphabet the trie has edges for. */
  predicate IsUpperLetter(ch: char) {
    'A' <= ch <= 'Z'
  }

  predicate AllUpperLetters(s: string) {
    forall i :: 0 <= i < |s| ==> IsUpperLetter(s[i])
  }

  /** Upper-casing of one character, restricted to ASCII ('a'..'z' become 'A'..'Z'). */
  function UpperChar(ch: char): char {
    if 'a' <= ch <= 'z' then (ch as int - 'a' as int + 'A' as int) as char else ch
  }

  function ToUpper(s: string): (r: string)
    ensures |r| == |s|
    ensures forall i :: 0 <= i < |s| ==> r[i] == UpperChar(s[i])
  {
    seq(|s|, i requires 0 <= i < |s| => UpperChar(s[i]))
  }

  lemma UpperCharOfLetter(ch: char)
    requires IsUpperLetter(ch)
    ensures UpperChar(ch) == ch
  {
  }

  lemma {:induction false} ToUpperOfLetters(s: string)
    requires AllUpperLetters(s)
    ensures ToUpper(s) == s
  {
    assert forall i :: 0 <= i < |s| ==> ToUpper(s)[i] == s[i];
  }

  /** The characters of s that are in 'A'..'Z', in order: what the trie sees of a pattern. */
  function Letters(s: string): string
    decreases |s|
  {
    if s == [] then []
    else Letters(s[..|s| - 1]) + (if IsUpperLetter(s[|s| - 1]) then [s[|s| - 1]] else [])
  }

  lemma LettersOfPrefix(s: string, k: nat)
    requires k < |s|
    ensures Letters(s[..k + 1]) == Letters(s[..k]) + (if IsUpperLetter(s[k]) then [s[k]] else [])
  {
    assert s[..k + 1][..k] == s[..k];
  }

  /** Letters(s) is no longer than s, consists of letters, and equals s exactly when s is all letters. */
  lemma {:induction false} LettersShape(s: string)
    ensures |Letters(s)| <= |s|
    ensures AllUpperLetters(Letters(s))
    ensures AllUpperLetters(s) <==> |Letters(s)| == |s|
    ensures AllUpperLetters(s) ==> Letters(s) == s
    decreases |s|
  {
    if s != [] {
      var init := s[..|s| - 1];
      LettersShape(init);
      assert s == init + [s[|s| - 1]];
      if AllUpperLetters(s) {
        assert AllUpperLetters(init);
      }
      if |Letters(s)| == |s| {
        assert |Letters(init)| == |init| && IsUpperLetter(s[|s| - 1]);
        assert forall i :: 0 <= i < |s| - 1 ==> s[i] == init[i];
      }
    }
  }

  function Reverse(s: string): (r: string)
    ensures |r| == |s|
    ensures forall i :: 0 <= i < |s| ==> r[i] == s[|s| - 1 - i]
  {
    seq(|s|, i requires 0 <= i < |s| => s[|s| - 1 - i])
  }

  lemma ReverseInvolution(s: string)
    ensures Reverse(Reverse(s)) == s
  {
    assert forall i :: 0 <= i < |s| ==> Reverse(Reverse(s))[i] == s[i];
  }

  lemma ReverseOfLetters(s: string)
    requires AllUpperLetters(s)
    ensures AllUpperLetters(Reverse(s))
  {
  }

  /** a is a (not necessarily proper) suffix of b. */
  predicate IsSuffix(a: string, b: string) {
    |a| <= |b| && forall k :: 0 <= k < |a| ==> a[k] == b[|b| - |a| + k]
  }

  lemma SuffixTrans(a: string, b: string, c: string)
    requires IsSuffix(a, b) && IsSuffix(b, c)
    ensures IsSuffix(a, c)
  {
    assert c[|c| - |a|..] == c[|c| - |b|..][|b| - |a|..];
  }

  /** Two suffixes of one string: the shorter is a suffix of the longer. */
  lemma SuffixOfSuffixes(a: string, b: string, s: string)
    requires IsSuffix(a, s) && IsSuffix(b, s) && |a| <= |b|
    ensures IsSuffix(a, b)
  {
    assert b[|b| - |a|..] == s[|s| - |b|..][|b| - |a|..];
  }

  /** A suffix as long as the string is the string itself. */
  lemma SuffixFull(a: string, b: string)
    requires IsSuffix(a, b)
    ensures |a| == |b| ==> a == b
  {
    if |a| == |b| {
      assert forall k :: 0 <= k < |a| ==> a[k] == b[k];
    }
  }

  lemma SuffixDropFirst(t: string, s: string)
    requires IsSuffix(t, s) && |t| < |s|
    ensures IsSuffix(t, s[1..])
  {
    assert s[1..][|s| - 1 - |t|..] == s[|s| - |t|..];
  }

  lemma SuffixExtend(a: string, s: string, c: char)
    requires IsSuffix(a, s)
    ensures IsSuffix(a + [c], s + [c])
  {
    assert (s + [c])[|s| + 1 - |a| - 1..] == s[|s| - |a|..] + [c];
  }

  lemma SuffixOfExtension(w: string, s: string, c: char)
    requires IsSuffix(w, s + [c]) && w != []
    ensures w[|w| - 1] == c && IsSuffix(w[..|w| - 1], s)
  {
    assert w[..|w| - 1] == (s + [c])[|s| + 1 - |w|..|s|];
    assert (s + [c])[|s| + 1 - |w|..|s|] == s[|s| - (|w| - 1)..];
  }

  /** The decimal digit for 0..9. */
  function Digit(d: nat): char
    requires d < 10
  {
    ('0' as int + d) as char
  }

  /** Decimal rendering of a natural number (no sign, no leading zeros). */
  function NatToString(n: nat): string
    decreases n
  {
    if n < 10 then [Digit(n)] else NatToString(n / 10) + [Digit(n % 10)]
  }

  /** Java's Integer.toString: a minus sign, then the digits. */
  function IntToString(i: int): string {
    if i < 0 then "-" + NatToString(-i) else NatToString(i)
  }

  /** A decimal rendering is a non-empty run of digits. */
  lemma {:induction false} NatToStringDigits(n: nat)
    ensures |NatToString(n)| >= 1
    ensures forall i :: 0 <= i < |NatToString(n)| ==> '0' <= NatToString(n)[i] <= '9'
    decreases n
  {
    if n >= 10 {
      NatToStringDigits(n / 10);
    }
  }

  /** A rendered int is digits after an optional minus sign, which is there exactly for a negative. */
  lemma IntToStringChars(i: int)
    ensures forall k :: 0 <= k < |IntToString(i)| ==> IntToString(i)[k] == '-' || '0' <= IntToString(i)[k] <= '9'
    ensures |IntToString(i)| >= 1 && (IntToString(i)[0] == '-' <==> i < 0)
  {
    if i < 0 {
      NatToStringDigits(-i);
    } else {
      NatToStringDigits(i);
    }
  }

  lemma {:induction false} NatToStringInjective(a: nat, b: nat)
    requires NatToString(a) == NatToString(b)
    ensures a == b
    decreases a
  {
    var sa, sb := NatToString(a), NatToString(b);
    if a < 10 && b < 10 {
      assert sa[0] == sb[0];
    } else if a >= 10 && b >= 10 {
      assert sa[|sa| - 1] == sb[|sb| - 1];
      assert a % 10 == b % 10;
      assert sa[..|sa| - 1] == NatToString(a / 10);
      assert sb[..|sb| - 1] == NatToString(b / 10);
      NatToStringInjective(a / 10, b / 10);
    }
  }

  lemma IntToStringInjective(a: int, b: int)
    requires IntToString(a) == IntToString(b)
    ensures a == b
  {
    IntToStringChars(a);
    IntToStringChars(b);
    if a < 0 && b < 0 {
      assert NatToString(-a) == IntToString(a)[1..];
      assert NatToString(-b) == IntToString(b)[1..];
      NatToStringInjective(-a, -b);
    } else if a >= 0 && b >= 0 {
      NatToStringInjective(a, b);
    }
  }

  /** Splitting on the first occurrence of a separator that the left parts do not contain. */
  lemma SplitAtSeparator(x: string, y: string, x': string, y': string, sep: char)
    requires sep !in x && sep !in x'
    requires x + [sep] + y == x' + [sep] + y'
    ensures x == x' && y == y'
  {
    var s := x + [sep] + y;
    assert s[|x|] == sep && s[|x'|] == sep;
    assert x == s[..|x|] == x';
    assert y == s[|x| + 1..] == y';
  }

  /** How many times c occurs in s. */
  function Count(s: string, c: char): nat
    decreases |s|
  {
    if s == [] then 0 else Count(s[..|s| - 1], c) + (if s[|s| - 1] == c then 1 else 0)
  }

  /** Counting distributes over concatenation. */
  lemma {:induction false} CountAppend(a: string, b: string, c: char)
    ensures Count(a + b, c) == Count(a, c) + Count(b, c)
    decreases |b|
  {
    if b != [] {
      var b0 := b[..|b| - 1];
      assert (a + b)[..|a + b| - 1] == a + b0;
      CountAppend(a, b0, c);
    } else {
      assert a + b == a;
    }
  }

  /** c occurs nowhere in s exactly when its count is zero. */
  lemma {:induction false} CountZero(s: string, c: char)
    ensures Count(s, c) == 0 <==> c !in s
    decreases |s|
  {
    if s != [] {
      var s0 := s[..|s| - 1];
      CountZero(s0, c);
      assert s == s0 + [s[|s| - 1]];
      assert forall x :: x in s <==> x in s0 || x == s[|s| - 1];
    }
  }
}
