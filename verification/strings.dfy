/**
 The string recursions: `repeat`, `count`, `isVowel` and `disemvowel`.
 Java's `String` and `StringBuilder` are both `string` (a `seq<char>`) here, and
 `StringBuilder.append` is concatenation.
 */
module Strings {

  /** `repeat`: `n` concatenated copies of `s`, built by appending one more copy to
      `n - 1` copies; empty when `n < 1`. */
  function Repeat(s: string, n: int): (r: string)
    ensures |r| == if n < 1 then 0 else n * |s|
    decreases n
  {
    if n < 1 then [] else Repeat(s, n - 1) + s
  }

  /** `n` copies of `s` hold `n * |s|` characters, and position `k` holds the
      character at position `k % |s|` of `s`. */
  lemma {:induction false} RepeatContents(s: string, n: int)
    ensures |Repeat(s, n)| == if n < 1 then 0 else n * |s|
    ensures forall k :: 0 <= k < |Repeat(s, n)| ==> 0 < |s| && Repeat(s, n)[k] == s[k % |s|]
    decreases n
  {
    if n >= 1 {
      RepeatContents(s, n - 1);
      var prefix := Repeat(s, n - 1);
      var r := Repeat(s, n);
      assert r == prefix + s;
      assert |prefix| == (n - 1) * |s|;
      assert |r| == n * |s|;
      forall k | 0 <= k < |r|
        ensures 0 < |s| && r[k] == s[k % |s|]
      {
        if k >= |prefix| {
          ModShift(k - |prefix|, n - 1, |s|);
        }
      }
    }
  }

  /** A remainder below `m` is recovered from any whole multiple of `m` plus it. */
  lemma ModShift(j: int, q: int, m: int)
    requires 0 <= j < m && 0 <= q
    ensures (j + q * m) % m == j
  {
    var x := j + q * m;
    var d, r := x / m, x % m;
    assert x == d * m + r && 0 <= r < m;
    assert (q - d) * m == r - j;
    if q != d {
      MulAwayFromZero(q - d, m);
      assert false;
    }
  }

  /** A non-zero multiple of a positive `m` is at least `m` away from zero. */
  lemma MulAwayFromZero(a: int, m: int)
    requires a != 0 && m > 0
    ensures a * m >= m || a * m <= -m
  {
  }

  /** Copies add up: `m + n` copies are `m` copies followed by `n` copies. */
  lemma {:induction false} RepeatAdd(s: string, m: nat, n: nat)
    ensures Repeat(s, m + n) == Repeat(s, m) + Repeat(s, n)
  {
    if n > 0 {
      RepeatAdd(s, m, n - 1);
      assert Repeat(s, m + n) == Repeat(s, m + n - 1) + s;
    }
  }

  /** `count`: the number of occurrences of `c` in `s`, one position at a time
      from the front. */
  function Count(s: string, c: char): (r: int)
    ensures r == multiset(s)[c]
    ensures 0 <= r <= |s|
  {
    if |s| == 0 then 0
    else
      assert s == [s[0]] + s[1..];
      (if s[0] == c then 1 else 0) + Count(s[1..], c)
  }

  /** The positions of `s` that hold `c`. */
  function Positions(s: string, c: char): set<int> {
    set i | 0 <= i < |s| && s[i] == c
  }

  /** The count is the number of positions holding `c`. */
  lemma {:induction false} CountIsPositions(s: string, c: char)
    ensures Count(s, c) == |Positions(s, c)|
  {
    if |s| > 0 {
      var n := |s| - 1;
      var init := s[..n];
      CountIsPositions(init, c);
      assert s == init + [s[n]];
      assert multiset(s) == multiset(init) + multiset{s[n]};
      assert n !in Positions(init, c);
      if s[n] == c {
        assert Positions(s, c) == Positions(init, c) + {n};
      } else {
        assert Positions(s, c) == Positions(init, c);
      }
    }
  }

  const Vowels: string := "aeiouAEIOU"

  /** Java's `String.indexOf(char)`: the first position of `c` in `s`, or -1. */
  function IndexOf(s: string, c: char): (r: int)
    ensures r == -1 <==> c !in s
    ensures r != -1 ==> 0 <= r < |s| && s[r] == c && forall j :: 0 <= j < r ==> s[j] != c
  {
    if |s| == 0 then -1
    else if s[0] == c then 0
    else
      var k := IndexOf(s[1..], c);
      assert c in s[1..] ==> c in s;
      if k == -1 then -1 else k + 1
  }

  /** `isVowel`: the ten ASCII vowels, in either case. */
  function IsVowel(c: char): (b: bool)
    ensures b <==> c in {'a', 'e', 'i', 'o', 'u', 'A', 'E', 'I', 'O', 'U'}
  {
    IndexOf(Vowels, c) >= 0
  }

  /** The non-vowels of `s` in their original order, filtered from the back. */
  function Consonants(s: string): string {
    if |s| == 0 then []
    else
      var n := |s| - 1;
      Consonants(s[..n]) + (if IsVowel(s[n]) then [] else [s[n]])
  }

  /** Filtering keeps every non-vowel as often as it occurs and drops every vowel. */
  lemma {:induction false} ConsonantsContent(s: string, c: char)
    ensures multiset(Consonants(s))[c] == if IsVowel(c) then 0 else multiset(s)[c]
  {
    if |s| > 0 {
      var n := |s| - 1;
      ConsonantsContent(s[..n], c);
      assert s == s[..n] + [s[n]];
      assert multiset(s) == multiset(s[..n]) + multiset{s[n]};
    }
  }

  /** Filtering distributes over concatenation. */
  lemma {:induction false} ConsonantsAppend(x: string, y: string)
    ensures Consonants(x + y) == Consonants(x) + Consonants(y)
  {
    if |y| > 0 {
      var n := |y| - 1;
      ConsonantsAppend(x, y[..n]);
      assert (x + y)[..|x| + n] == x + y[..n];
    } else {
      assert x + y == x;
    }
  }

  /** Filtering a string that starts with `c`. */
  lemma ConsonantsCons(c: char, s: string)
    ensures Consonants([c] + s) == (if IsVowel(c) then [] else [c]) + Consonants(s)
  {
    ConsonantsAppend([c], s);
    ConsonantsSingle(c);
  }

  lemma ConsonantsSingle(c: char)
    ensures Consonants([c]) == if IsVowel(c) then [] else [c]
  {
    assert [c][..0] == [];
  }

  /** `disemvowel`: appends to `acc` the non-vowels of `s`, front to back; `acc`
      itself is only appended to. */
  function Disemvowel(s: string, acc: string): (r: string)
    ensures r == acc + Consonants(s)
  {
    if |s| == 0 then acc
    else
      var acc' := if !IsVowel(s[0]) then acc + [s[0]] else acc;
      assert s == [s[0]] + s[1..];
      ConsonantsCons(s[0], s[1..]);
      Disemvowel(s[1..], acc')
  }
}
