/** The few operations on Python 2 byte strings that the repository commands
    rely on: `strip`, `lower`, `split`, `find`, `replace`, `str(int)` and
    `int(str)`. A string is a `seq<char>`; every function here works on ASCII
    only, as Python 2's `str` methods do in the default locale. */
module Text {

  // ---------------------------------------------------------------------------
  // strip() and lower()
  // ---------------------------------------------------------------------------

  /** Python 2 `str.isspace` on one character: space, tab, LF, VT, FF, CR. */
  predicate IsSpace(c: char) {
    c == ' ' || '\t' <= c <= '\r'
  }

  /** Drops the leading whitespace of `s`. */
  function StripLeft(s: string): (r: string)
    ensures |r| <= |s| && r == s[|s| - |r|..]
    ensures r == [] || !IsSpace(r[0])
    ensures forall k :: 0 <= k < |s| - |r| ==> IsSpace(s[k])
  {
    if s != [] && IsSpace(s[0]) then StripLeft(s[1..]) else s
  }

  /** Drops the trailing whitespace of `s`. */
  function StripRight(s: string): (r: string)
    ensures |r| <= |s| && r == s[..|r|]
    ensures r == [] || !IsSpace(r[|r| - 1])
    ensures forall k :: |r| <= k < |s| ==> IsSpace(s[k])
  {
    if s != [] && IsSpace(s[|s| - 1]) then StripRight(s[..|s| - 1]) else s
  }

  /** Every character of `s` before index `i` and from index `j` on is
      whitespace. */
  predicate OnlySpaceOutside(s: string, i: nat, j: nat)
    requires i <= j <= |s|
  {
    && (forall k :: 0 <= k < i ==> IsSpace(s[k]))
    && (forall k :: j <= k < |s| ==> IsSpace(s[k]))
  }

  /** Cutting the leading and then the trailing whitespace leaves a slice
      of `s` with only whitespace outside it. */
  lemma TrimmedIsSlice(s: string, left: string, r: string)
    requires |left| <= |s| && left == s[|s| - |left|..]
    requires |r| <= |left| && r == left[..|r|]
    requires forall k :: 0 <= k < |s| - |left| ==> IsSpace(s[k])
    requires forall k :: |r| <= k < |left| ==> IsSpace(left[k])
    ensures var i := |s| - |left|;
      && i + |r| <= |s| && r == s[i..i + |r|] && OnlySpaceOutside(s, i, i + |r|)
  {
    var i := |s| - |left|;
    assert left == s[i..];
    assert r == left[..|r|];
    assert s[i..i + |r|] == left[..|r|];
    forall k | i + |r| <= k < |s|
      ensures IsSpace(s[k])
    {
      assert s[k] == left[k - i];
    }
  }

  /** Python `s.strip()`: the slice of `s` left once the whitespace at
      either end is cut off, and only that whitespace. A string with no
      whitespace at its ends is left as it is. */
  function Strip(s: string): (r: string)
    ensures |r| <= |s|
    ensures r == [] || (!IsSpace(r[0]) && !IsSpace(r[|r| - 1]))
    ensures exists i, j :: 0 <= i <= j <= |s| && r == s[i..j] && OnlySpaceOutside(s, i, j)
    ensures s == [] || (!IsSpace(s[0]) && !IsSpace(s[|s| - 1])) ==> r == s
  {
    var left := StripLeft(s);
    var r := StripRight(left);
    assert r != [] ==> r[0] == left[0];
    TrimmedIsSlice(s, left, r);
    var i := |s| - |left|;
    assert r == s[i..i + |r|];
    r
  }

  function LowerChar(c: char): char {
    if 'A' <= c <= 'Z' then (c as int + 32) as char else c
  }

  /** Python 2 `s.lower()`: ASCII upper-case letters become lower-case, and
      every other character is kept. */
  function Lower(s: string): (r: string)
    ensures |r| == |s|
    ensures forall i :: 0 <= i < |s| ==> r[i] == LowerChar(s[i])
  {
    if s == [] then [] else [LowerChar(s[0])] + Lower(s[1..])
  }

  /** The `.strip().lower()` the discovery prompt applies to every answer:
      the stripped answer with each character lowered, so never longer than
      the answer and without whitespace at either end. */
  function Normalize(s: string): (r: string)
    ensures |r| <= |s|
    ensures r == [] || (!IsSpace(r[0]) && !IsSpace(r[|r| - 1]))
    ensures |r| == |Strip(s)| && forall i :: 0 <= i < |r| ==> r[i] == LowerChar(Strip(s)[i])
  {
    var t := Strip(s);
    Lower(t)
  }

  /** Lowering twice is lowering once. */
  lemma LowerIdempotent(s: string)
    ensures Lower(Lower(s)) == Lower(s)
  {
    var l := Lower(s);
    forall i | 0 <= i < |l|
      ensures Lower(l)[i] == l[i]
    {
      assert l[i] == LowerChar(s[i]);
    }
  }

  /** Normalising twice is normalising once. */
  lemma NormalizeIdempotent(s: string)
    ensures Normalize(Normalize(s)) == Normalize(s)
  {
    var r := Normalize(s);
    assert Strip(r) == r;
    LowerIdempotent(Strip(s));
  }

  // ---------------------------------------------------------------------------
  // split(sep) for a one-character separator, and its inverse join
  // ---------------------------------------------------------------------------

  /** Python `s.split(c)`: the pieces between occurrences of `c`, empty pieces
      included, so that there is always one more piece than separators. */
  function Split(s: string, c: char): (parts: seq<string>)
    ensures |parts| >= 1
  {
    if s == [] then [[]]
    else
      var rest := Split(s[1..], c);
      if s[0] == c then [[]] + rest
      else [[s[0]] + rest[0]] + rest[1..]
  }

  /** No piece contains the separator. */
  lemma {:induction false} SplitPiecesFree(s: string, c: char)
    ensures forall i :: 0 <= i < |Split(s, c)| ==> c !in Split(s, c)[i]
  {
    if s != [] {
      SplitPiecesFree(s[1..], c);
    }
  }

  /** Python `c.join(parts)`. */
  function Join(parts: seq<string>, c: char): string
    requires |parts| >= 1
  {
    if |parts| == 1 then parts[0] else parts[0] + [c] + Join(parts[1..], c)
  }

  /** Splitting and joining again gives back the original string. */
  lemma {:induction false} JoinSplit(s: string, c: char)
    ensures Join(Split(s, c), c) == s
  {
    if s != [] {
      var rest := Split(s[1..], c);
      JoinSplit(s[1..], c);
      if s[0] == c {
        assert ([[]] + rest)[1..] == rest;
      } else if |rest| == 1 {
        assert Join(Split(s, c), c) == [s[0]] + rest[0];
      } else {
        var parts := [[s[0]] + rest[0]] + rest[1..];
        assert parts[1..] == rest[1..];
        assert Join(rest, c) == rest[0] + [c] + Join(rest[1..], c);
      }
    }
  }

  /** A string without the separator splits into itself alone. */
  lemma {:induction false} SplitWithoutSeparator(s: string, c: char)
    requires c !in s
    ensures Split(s, c) == [s]
  {
    if s != [] {
      assert c !in s[1..] && s[0] != c;
      SplitWithoutSeparator(s[1..], c);
      assert [s[0]] + s[1..] == s;
    }
  }

  /** A single piece means no separator: the piece is the whole string. */
  lemma SplitSingle(s: string, c: char)
    requires |Split(s, c)| == 1
    ensures Split(s, c) == [s]
  {
    JoinSplit(s, c);
  }

  /** A first piece without the separator is split off on its own:
      `(a + c + rest).split(c) == [a] + rest.split(c)`. */
  lemma {:induction false} SplitPrefix(a: string, rest: string, c: char)
    requires c !in a
    ensures Split(a + [c] + rest, c) == [a] + Split(rest, c)
  {
    if a == [] {
      assert a + [c] + rest == [c] + rest;
      assert ([c] + rest)[1..] == rest;
    } else {
      assert (a + [c] + rest)[1..] == a[1..] + [c] + rest;
      assert c !in a[1..];
      SplitPrefix(a[1..], rest, c);
      assert [a[0]] + a[1..] == a;
    }
  }

  /** `(a + c + b).split(c) == [a, b]` when neither side contains `c`. */
  lemma {:induction false} SplitPair(a: string, b: string, c: char)
    requires c !in a && c !in b
    ensures Split(a + [c] + b, c) == [a, b]
  {
    if a == [] {
      assert a + [c] + b == [c] + b;
      assert ([c] + b)[1..] == b;
      SplitWithoutSeparator(b, c);
    } else {
      assert (a + [c] + b)[1..] == a[1..] + [c] + b;
      assert c !in a[1..];
      SplitPair(a[1..], b, c);
      assert [a[0]] + a[1..] == a;
    }
  }

  /** Three pieces without the separator, joined by it, split back into
      the same three pieces. */
  lemma SplitTriple(x: string, y: string, z: string, c: char)
    requires c !in x && c !in y && c !in z
    ensures Split(x + [c] + y + [c] + z, c) == [x, y, z]
  {
    SplitPair(y, z, c);
    SplitPrefix(x, y + [c] + z, c);
    assert x + [c] + y + [c] + z == x + [c] + (y + [c] + z);
  }

  // ---------------------------------------------------------------------------
  // find(sub)
  // ---------------------------------------------------------------------------

  /** `sub` occurs in `s` starting at index `k`. */
  predicate OccursAt(s: string, sub: string, k: int) {
    0 <= k && k + |sub| <= |s| && s[k..k + |sub|] == sub
  }

  /** Python `sub in s`. */
  predicate Contains(s: string, sub: string) {
    exists k :: 0 <= k <= |s| - |sub| && OccursAt(s, sub, k)
  }

  /** An occurrence at `k >= 1` in `s` is one at `k - 1` in `s[1..]`. */
  lemma OccursAtShift(s: string, sub: string, k: int)
    requires s != [] && 1 <= k
    ensures OccursAt(s, sub, k) == OccursAt(s[1..], sub, k - 1)
  {
    if k + |sub| <= |s| {
      var a, b := s[k..k + |sub|], s[1..][k - 1..k - 1 + |sub|];
      assert |a| == |b|;
      assert forall i :: 0 <= i < |a| ==> a[i] == s[k + i] == b[i];
      assert a == b;
    }
  }

  /** Python `s.find(sub)`: the lowest index at which `sub` occurs in `s`, or
      -1 when it occurs nowhere. */
  function Find(s: string, sub: string): (r: int)
    ensures -1 <= r
    ensures r >= 0 ==> OccursAt(s, sub, r)
    ensures r >= 0 ==> forall k :: 0 <= k < r ==> !OccursAt(s, sub, k)
    ensures r == -1 <==> !Contains(s, sub)
  {
    if |sub| > |s| then -1
    else if s[..|sub|] == sub then assert OccursAt(s, sub, 0); 0
    else
      var t := Find(s[1..], sub);
      assert forall k :: 1 <= k ==> OccursAt(s, sub, k) == OccursAt(s[1..], sub, k - 1) by {
        forall k | 1 <= k ensures OccursAt(s, sub, k) == OccursAt(s[1..], sub, k - 1) {
          OccursAtShift(s, sub, k);
        }
      }
      if t < 0 then -1 else t + 1
  }

  // ---------------------------------------------------------------------------
  // replace(old, new) for single characters
  // ---------------------------------------------------------------------------

  /** Python `s.replace(x, y)` for one-character `x` and `y`: every `x`
      becomes `y` and nothing else changes. */
  function ReplaceChar(s: string, x: char, y: char): (r: string)
    ensures |r| == |s|
    ensures forall i :: 0 <= i < |s| ==> r[i] == (if s[i] == x then y else s[i])
  {
    if s == [] then []
    else [if s[0] == x then y else s[0]] + ReplaceChar(s[1..], x, y)
  }

  // ---------------------------------------------------------------------------
  // str(n) and int(s) for natural numbers
  // ---------------------------------------------------------------------------

  predicate IsDigit(c: char) {
    '0' <= c <= '9'
  }

  predicate AllDigits(s: string) {
    forall i :: 0 <= i < |s| ==> IsDigit(s[i])
  }

  function DigitChar(d: nat): (c: char)
    requires d < 10
    ensures IsDigit(c)
  {
    ('0' as int + d) as char
  }

  /** Python `str(n)`: the decimal numeral of `n`, without leading zeros. */
  function NatToString(n: nat): (r: string)
    ensures |r| >= 1 && AllDigits(r)
    ensures r[0] == '0' ==> n == 0
  {
    if n < 10 then [DigitChar(n)] else NatToString(n / 10) + [DigitChar(n % 10)]
  }

  /** 10 to the power `k`. */
  function Pow10(k: nat): nat {
    if k == 0 then 1 else 10 * Pow10(k - 1)
  }

  /** Python `int(s)` on a string of decimal digits: a value below 10 to the
      power of the number of digits. */
  function ParseNat(s: string): (r: nat)
    requires AllDigits(s)
    ensures r < Pow10(|s|)
  {
    if s == [] then 0 else 10 * ParseNat(s[..|s| - 1]) + (s[|s| - 1] as int - '0' as int)
  }

  /** `int(str(n)) == n`. */
  lemma {:induction false} ParseNatToString(n: nat)
    ensures ParseNat(NatToString(n)) == n
  {
    var s := NatToString(n);
    if n >= 10 {
      assert s[..|s| - 1] == NatToString(n / 10);
      ParseNatToString(n / 10);
    } else {
      assert s[..|s| - 1] == [];
    }
  }

  /** A numeral contains no separator character such as ':'. */
  lemma NumeralHasNo(n: nat, c: char)
    requires !IsDigit(c)
    ensures c !in NatToString(n)
  {
  }
}
