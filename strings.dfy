/** String helpers standing in for the Python `str` methods the core uses:
    `strip`, `lower`, `split()`, `startswith`, `in`, `find`, `split(sep)[-1]`,
    `replace`, `join` and the decimal rendering of integers.
    Whitespace and case are the ASCII ones. */
module Strings {

  /** The ASCII characters `str.isspace` accepts: space, \t \n \v \f \r
      (code points 9 to 13) and the separators 28 to 31. */
  predicate IsSpace(c: char) {
    c == ' ' || '\t' <= c <= '\r' || '\U{001C}' <= c <= '\U{001F}'
  }

  predicate AllSpace(s: string) {
    forall i | 0 <= i < |s| :: IsSpace(s[i])
  }

  function TrimStart(s: string): string {
    if s != [] && IsSpace(s[0]) then TrimStart(s[1..]) else s
  }

  function TrimEnd(s: string): string {
    if s != [] && IsSpace(s[|s| - 1]) then TrimEnd(s[..|s| - 1]) else s
  }

  /** `s.strip()` */
  function Strip(s: string): string {
    TrimEnd(TrimStart(s))
  }

  predicate Stripped(s: string) {
    s != [] ==> !IsSpace(s[0]) && !IsSpace(s[|s| - 1])
  }

  /** Left trimming drops a whitespace prefix and stops at a non-space. */
  lemma {:induction false} TrimStartShape(s: string)
    ensures var r := TrimStart(s);
            |r| <= |s| && r == s[|s| - |r|..] && AllSpace(s[..|s| - |r|]) && (r != [] ==> !IsSpace(r[0]))
  {
    if s != [] && IsSpace(s[0]) {
      var s' := s[1..];
      var t := TrimStart(s');
      TrimStartShape(s');
      assert TrimStart(s) == t;
      var n := |s| - |t|;
      assert s'[|s'| - |t|..] == s[n..];
      assert AllSpace(s'[..|s'| - |t|]);
      forall k | 0 <= k < n ensures IsSpace(s[..n][k]) {
        if k > 0 {
          assert s[..n][k] == s'[..|s'| - |t|][k - 1];
        } else {
          assert s[..n][0] == s[0];
        }
      }
    } else {
      assert s[0..] == s;
    }
  }

  /** Right trimming drops a whitespace suffix and stops at a non-space. */
  lemma {:induction false} TrimEndShape(s: string)
    ensures var r := TrimEnd(s);
            |r| <= |s| && r == s[..|r|] && AllSpace(s[|r|..]) && (r != [] ==> !IsSpace(r[|r| - 1]))
  {
    if s != [] && IsSpace(s[|s| - 1]) {
      var s' := s[..|s| - 1];
      var t := TrimEnd(s');
      TrimEndShape(s');
      assert TrimEnd(s) == t;
      assert s'[..|t|] == s[..|t|];
      assert AllSpace(s'[|t|..]);
      forall k | 0 <= k < |s| - |t| ensures IsSpace(s[|t|..][k]) {
        if k < |s| - 1 - |t| {
          assert s[|t|..][k] == s'[|t|..][k];
        } else {
          assert s[|t|..][k] == s[|s| - 1];
        }
      }
    } else {
      assert s[..|s|] == s;
    }
  }

  /** The stripped text is a contiguous piece of `s` with only whitespace around it,
      and it neither starts nor ends with whitespace. */
  lemma {:induction false} StripShape(s: string)
    ensures Stripped(Strip(s))
    ensures var i := |s| - |TrimStart(s)|;
            0 <= i && i + |Strip(s)| <= |s| && s[i..i + |Strip(s)|] == Strip(s)
            && AllSpace(s[..i]) && AllSpace(s[i + |Strip(s)|..])
  {
    var t := TrimStart(s);
    var r := TrimEnd(t);
    TrimStartShape(s);
    TrimEndShape(t);
    var i := |s| - |t|;
    if r != [] {
      assert r[0] == t[0];
    }
    assert t == s[i..];
    assert s[i..i + |r|] == t[..|r|];
    assert s[i + |r|..] == t[|r|..];
  }

  lemma TrimStartOfStripped(s: string)
    requires Stripped(s)
    ensures TrimStart(s) == s && TrimEnd(s) == s
  {
  }

  /** Stripping twice is stripping once. */
  lemma StripIdempotent(s: string)
    ensures Strip(Strip(s)) == Strip(s)
  {
    StripShape(s);
    TrimStartOfStripped(Strip(s));
  }

  /** `s.strip()` is empty exactly when `s` is all whitespace. */
  lemma StripEmptyIff(s: string)
    ensures Strip(s) == [] <==> AllSpace(s)
  {
    StripShape(s);
    var r := Strip(s);
    var i := |s| - |TrimStart(s)|;
    if r != [] {
      assert s[i] == r[0];
    } else {
      forall k | 0 <= k < |s| ensures IsSpace(s[k]) {
        if k < i { assert s[..i][k] == s[k]; } else { assert s[i..][k - i] == s[k]; }
      }
    }
  }

  function LowerChar(c: char): char {
    if 'A' <= c <= 'Z' then (c as int + 32) as char else c
  }

  function UpperChar(c: char): char {
    if 'a' <= c <= 'z' then (c as int - 32) as char else c
  }

  /** `s.lower()` */
  function Lower(s: string): (r: string)
    ensures |r| == |s| && forall i | 0 <= i < |s| :: r[i] == LowerChar(s[i])
  {
    if s == [] then [] else [LowerChar(s[0])] + Lower(s[1..])
  }

  predicate IsLower(s: string) {
    forall i | 0 <= i < |s| :: LowerChar(s[i]) == s[i]
  }

  lemma LowerIsLower(s: string)
    ensures IsLower(Lower(s))
  {
  }

  lemma LowerOfLower(s: string)
    requires IsLower(s)
    ensures Lower(s) == s
  {
  }

  /** `s.startswith(p)` */
  predicate StartsWith(s: string, p: string) {
    |p| <= |s| && s[..|p|] == p
  }

  /** `p` occurs in `s` starting at index `i`. */
  predicate OccursAt(s: string, p: string, i: int) {
    0 <= i && i + |p| <= |s| && s[i..i + |p|] == p
  }

  /** `p in s` */
  predicate Contains(s: string, p: string) {
    exists i | 0 <= i <= |s| - |p| :: OccursAt(s, p, i)
  }

  lemma StartsWithOccurs(s: string, p: string)
    ensures StartsWith(s, p) <==> OccursAt(s, p, 0)
  {
    if |p| <= |s| { assert s[0..|p|] == s[..|p|]; }
  }

  /** An occurrence at `i >= 1` is an occurrence at `i - 1` in the tail. */
  lemma OccursAtTail(s: string, p: string)
    requires s != []
    ensures forall i | 1 <= i :: OccursAt(s, p, i) == OccursAt(s[1..], p, i - 1)
  {
    forall i | 1 <= i ensures OccursAt(s, p, i) == OccursAt(s[1..], p, i - 1) {
      if i + |p| <= |s| {
        var a, b := s[i..i + |p|], s[1..][i - 1..i - 1 + |p|];
        forall j | 0 <= j < |a| ensures a[j] == b[j] {
          assert a[j] == s[i + j] && b[j] == s[1..][i - 1 + j];
        }
        assert a == b;
      }
    }
  }

  /** `s.find(p)`: the first index where `p` occurs, or -1. */
  function Find(s: string, p: string): (r: int)
    ensures -1 <= r && (r >= 0 ==> r + |p| <= |s|)
    ensures r >= 0 ==> OccursAt(s, p, r)
    ensures forall i | i < (if r < 0 then |s| + 1 else r) :: !OccursAt(s, p, i)
  {
    StartsWithOccurs(s, p);
    if StartsWith(s, p) then 0
    else if s == [] then -1
    else
      var k := Find(s[1..], p);
      OccursAtTail(s, p);
      if k < 0 then -1 else k + 1
  }

  lemma FindContains(s: string, p: string)
    ensures Find(s, p) >= 0 <==> Contains(s, p)
  {
  }

  /** `s.split(sep)[-1]`: what follows the last occurrence of `sep` found by a
      left-to-right scan, or `s` itself when `sep` does not occur. */
  function LastSegment(s: string, sep: string): (r: string)
    requires sep != []
    ensures !Contains(r, sep)
    ensures |r| <= |s| && r == s[|s| - |r|..]
    decreases |s|
  {
    var k := Find(s, sep);
    FindContains(s, sep);
    if k < 0 then s else LastSegment(s[k + |sep|..], sep)
  }

  /** An occurrence of `p` in `a + b` lies in `a`, lies in `b`, or straddles the seam. */
  lemma ContainsConcat(a: string, b: string, p: string)
    requires Contains(a + b, p)
    ensures Contains(a, p) || Contains(b, p)
         || exists k :: 0 < k < |p| && k <= |a| && a[|a| - k..] == p[..k]
  {
    var s := a + b;
    var i :| 0 <= i <= |s| - |p| && OccursAt(s, p, i);
    assert s[i..i + |p|] == p;
    assert forall j | 0 <= j < |p| :: s[i + j] == s[i..i + |p|][j] == p[j];
    if i + |p| <= |a| {
      assert a[i..i + |p|] == p;
      assert OccursAt(a, p, i);
    } else if i >= |a| {
      assert b[i - |a|..i - |a| + |p|] == p;
      assert OccursAt(b, p, i - |a|);
    } else {
      var k := |a| - i;
      assert a[|a| - k..] == p[..k];
    }
  }

  lemma ContainsPrefix(s: string, p: string)
    requires StartsWith(s, p)
    ensures Contains(s, p)
  {
    assert OccursAt(s, p, 0);
  }

  /** A piece of `b` is a piece of `a + b + c`. */
  lemma ContainsMiddle(a: string, b: string, c: string)
    ensures Contains(a + b + c, b)
  {
    var s := a + b + c;
    assert s[|a|..|a| + |b|] == b;
    assert OccursAt(s, b, |a|);
  }

  /** A piece of a piece of `s` is a piece of `s`. */
  lemma ContainsTransitive(s: string, t: string, p: string)
    requires Contains(s, t) && Contains(t, p)
    ensures Contains(s, p)
  {
    var i :| 0 <= i <= |s| - |t| && OccursAt(s, t, i);
    var j :| 0 <= j <= |t| - |p| && OccursAt(t, p, j);
    assert s[i..i + |t|] == t;
    forall k | 0 <= k < |p| ensures s[i + j + k] == p[k] {
      assert s[i + j + k] == s[i..i + |t|][j + k] == t[j + k] == t[j..j + |p|][k];
    }
    assert s[i + j..i + j + |p|] == p;
    assert OccursAt(s, p, i + j);
  }

  /** A piece of `b` is a piece of `a + b + c`. */
  lemma ContainsWithin(a: string, b: string, c: string, p: string)
    requires Contains(b, p)
    ensures Contains(a + b + c, p)
  {
    var i :| 0 <= i <= |b| - |p| && OccursAt(b, p, i);
    var s := a + b + c;
    assert s[|a| + i..|a| + i + |p|] == b[i..i + |p|];
    assert OccursAt(s, p, |a| + i);
  }

  /** `s.replace(c, r)` for a one-character `c`. */
  function ReplaceChar(s: string, c: char, r: string): (t: string)
    ensures forall x | x in t :: x in r || (x in s && x != c)
  {
    if s == [] then []
    else (if s[0] == c then r else [s[0]]) + ReplaceChar(s[1..], c, r)
  }

  /** `s.replace(c, "")` */
  function RemoveChar(s: string, c: char): (t: string)
    ensures forall x | x in t :: x in s && x != c
  {
    if s == [] then [] else (if s[0] == c then [] else [s[0]]) + RemoveChar(s[1..], c)
  }

  function CountChar(s: string, c: char): nat {
    if s == [] then 0 else (if s[0] == c then 1 else 0) + CountChar(s[1..], c)
  }

  lemma {:induction false} RemoveCharLength(s: string, c: char)
    ensures |RemoveChar(s, c)| == |s| - CountChar(s, c)
  {
    if s != [] { RemoveCharLength(s[1..], c); }
  }

  lemma {:induction false} ReplaceCharLength(s: string, c: char, d: char)
    ensures |ReplaceChar(s, c, [d])| == |s|
  {
    if s != [] { ReplaceCharLength(s[1..], c, d); }
  }

  lemma {:induction false} ReplaceCharAbsent(s: string, c: char, r: string)
    requires c !in s
    ensures ReplaceChar(s, c, r) == s
  {
    if s != [] { ReplaceCharAbsent(s[1..], c, r); }
  }

  lemma {:induction false} RemoveCharAbsent(s: string, c: char)
    requires c !in s
    ensures RemoveChar(s, c) == s
  {
    if s != [] { RemoveCharAbsent(s[1..], c); }
  }

  /** `sep.join(parts)` */
  function Join(parts: seq<string>, sep: string): string {
    if parts == [] then []
    else if |parts| == 1 then parts[0]
    else parts[0] + sep + Join(parts[1..], sep)
  }

  /** A join splits at any inner seam into the joins of the two sides. */
  lemma {:induction false} JoinSplit(parts: seq<string>, sep: string, k: nat)
    requires 0 < k < |parts|
    ensures Join(parts, sep) == Join(parts[..k], sep) + sep + Join(parts[k..], sep)
  {
    if k == 1 {
      assert parts[..1] == [parts[0]];
      assert parts[1..] == parts[k..];
    } else {
      var rest := parts[1..];
      JoinSplit(rest, sep, k - 1);
      assert parts[..k][1..] == rest[..k - 1];
      assert rest[k - 1..] == parts[k..];
      assert Join(parts[..k], sep) == parts[0] + sep + Join(rest[..k - 1], sep);
    }
  }

  /** A join starts with its first part. */
  lemma JoinStartsWith(parts: seq<string>, sep: string)
    requires parts != []
    ensures StartsWith(Join(parts, sep), parts[0])
  {
    if |parts| > 1 {
      assert Join(parts, sep) == parts[0] + (sep + Join(parts[1..], sep));
    }
  }

  /** Every part occurs in the join. */
  lemma {:induction false} JoinContains(parts: seq<string>, sep: string, k: nat)
    requires k < |parts|
    ensures Contains(Join(parts, sep), parts[k])
  {
    if |parts| == 1 {
      ContainsMiddle([], parts[0], []);
      assert [] + parts[0] + [] == parts[0];
    } else if k == 0 {
      ContainsMiddle([], parts[0], sep + Join(parts[1..], sep));
      assert [] + parts[0] + (sep + Join(parts[1..], sep)) == Join(parts, sep);
    } else {
      JoinContains(parts[1..], sep, k - 1);
      ContainsWithin(parts[0] + sep, Join(parts[1..], sep), [], parts[k]);
      assert parts[0] + sep + Join(parts[1..], sep) + [] == Join(parts, sep);
    }
  }

  /** The characters of the longest whitespace-free prefix. */
  function TakeWord(s: string): (w: string)
    ensures |w| <= |s| && w == s[..|w|]
    ensures forall i | 0 <= i < |w| :: !IsSpace(w[i])
    ensures |w| < |s| ==> IsSpace(s[|w|])
  {
    if s == [] || IsSpace(s[0]) then [] else [s[0]] + TakeWord(s[1..])
  }

  /** `s.split()`: the maximal runs of non-whitespace, in order. */
  function Words(s: string): (ws: seq<string>)
    ensures forall w | w in ws :: w != []
    decreases |s|
  {
    TrimStartShape(s);
    var t := TrimStart(s);
    if t == [] then []
    else
      var w := TakeWord(t);
      [w] + Words(t[|w|..])
  }

  /** Every word of a lower-case string is lower case. */
  lemma {:induction false} WordsOfLower(s: string)
    requires IsLower(s)
    ensures forall w | w in Words(s) :: IsLower(w)
    decreases |s|
  {
    TrimStartShape(s);
    var t := TrimStart(s);
    if t != [] {
      var w := TakeWord(t);
      var rest := t[|w|..];
      assert IsLower(rest) by {
        forall i | 0 <= i < |rest| ensures LowerChar(rest[i]) == rest[i] {
          assert rest[i] == s[|s| - |t| + |w| + i];
        }
      }
      assert IsLower(w) by {
        forall i | 0 <= i < |w| ensures LowerChar(w[i]) == w[i] {
          assert w[i] == s[|s| - |t| + i];
        }
      }
      WordsOfLower(rest);
      assert Words(s) == [w] + Words(t[|w|..]);
    }
  }

  function DigitChar(d: nat): char
    requires d < 10
  {
    "0123456789"[d]
  }

  /** `str(n)` for a natural number. */
  function NatToString(n: nat): (s: string)
    ensures s != [] && forall i | 0 <= i < |s| :: '0' <= s[i] <= '9'
  {
    if n < 10 then [DigitChar(n)] else NatToString(n / 10) + [DigitChar(n % 10)]
  }

  /** `str(i)` for any integer. */
  function IntToString(i: int): string {
    if i < 0 then "-" + NatToString(-i) else NatToString(i)
  }

  /** Reads back a string of decimal digits. */
  function ParseDigits(s: string): nat
    requires forall i | 0 <= i < |s| :: '0' <= s[i] <= '9'
  {
    if s == [] then 0 else 10 * ParseDigits(s[..|s| - 1]) + (s[|s| - 1] as int - '0' as int)
  }

  /** Rendering a number in decimal and reading it back gives the number. */
  lemma {:induction false} NatToStringRoundTrip(n: nat)
    ensures ParseDigits(NatToString(n)) == n
  {
    if n >= 10 {
      NatToStringRoundTrip(n / 10);
      var s := NatToString(n);
      assert s[..|s| - 1] == NatToString(n / 10);
    }
  }

  lemma NatToStringInjective(m: nat, n: nat)
    requires NatToString(m) == NatToString(n)
    ensures m == n
  {
    NatToStringRoundTrip(m);
    NatToStringRoundTrip(n);
  }

  /** Splitting `x + [c] + y` at `c` when `c` occurs in neither `x` nor `x'`. */
  lemma SeparatorSplit(x: string, y: string, x': string, y': string, c: char)
    requires c !in x && c !in x'
    requires x + [c] + y == x' + [c] + y'
    ensures x == x' && y == y'
  {
    var s := x + [c] + y;
    assert forall k | 0 <= k < |x| :: s[k] == x[k] != c;
    assert forall k | 0 <= k < |x'| :: s[k] == x'[k] != c;
    assert s[|x|] == c && s[|x'|] == c;
    assert |x| == |x'|;
    assert x == s[..|x|] == x';
    assert y == s[|x| + 1..] == y';
  }
}
