/** String and number helpers: the parts of Go's `strings`, `strconv` and
    `unicode` packages that the downloader relies on, stated over `seq<char>`. */
module Text {

  datatype Option<+T> = None | Some(value: T)

  datatype Result<+T, +E> = Ok(value: T) | Err(error: E)

  /** Largest value of Go's `int` on a 64-bit platform. */
  const MaxInt: int := 0x7fff_ffff_ffff_ffff

  predicate IsDigit(c: char) { '0' <= c <= '9' }

  predicate AllDigits(s: string) { forall i :: 0 <= i < |s| ==> IsDigit(s[i]) }

  predicate IsLetter(c: char) { 'a' <= c <= 'z' || 'A' <= c <= 'Z' }

  /** Go's `unicode.IsSpace`: the Unicode White_Space property. */
  predicate IsSpace(c: char) {
    ('\t' <= c <= '\r') || c == ' ' || c == '\U{85}' || c == '\U{A0}' || c == '\U{1680}'
    || ('\U{2000}' <= c <= '\U{200A}') || c == '\U{2028}' || c == '\U{2029}'
    || c == '\U{202F}' || c == '\U{205F}' || c == '\U{3000}'
  }

  function TrimLeftSpace(s: string): (r: string)
    ensures |r| <= |s| && r == s[|s| - |r|..]
    ensures r == [] || !IsSpace(r[0])
    ensures forall i :: 0 <= i < |s| - |r| ==> IsSpace(s[i])
  {
    if |s| > 0 && IsSpace(s[0]) then TrimLeftSpace(s[1..]) else s
  }

  function TrimRightSpace(s: string): (r: string)
    ensures |r| <= |s| && r == s[..|r|]
    ensures r == [] || !IsSpace(r[|r| - 1])
    ensures forall i :: |r| <= i < |s| ==> IsSpace(s[i])
  {
    if |s| > 0 && IsSpace(s[|s| - 1]) then TrimRightSpace(s[..|s| - 1]) else s
  }

  /** The position of the first character that is not white space, or `|s|`. */
  function LeadingSpaceCount(s: string): (n: nat)
    ensures n <= |s|
    ensures forall i :: 0 <= i < n ==> IsSpace(s[i])
    ensures n == |s| || !IsSpace(s[n])
  {
    |s| - |TrimLeftSpace(s)|
  }

  /** Go's `strings.TrimSpace`: empty exactly when every character is white space. */
  function TrimSpace(s: string): (r: string)
    ensures |r| <= |s|
    ensures r == [] <==> forall i :: 0 <= i < |s| ==> IsSpace(s[i])
    ensures r != [] ==> !IsSpace(r[0]) && !IsSpace(r[|r| - 1])
  {
    var l := TrimLeftSpace(s);
    var r := TrimRightSpace(l);
    r
  }

  /** `r` is the slice of `s` at `k`, and only white space follows it in `s`. */
  predicate TrimmedSliceAt(s: string, k: nat, r: string) {
    && k + |r| <= |s| && r == s[k..k + |r|]
    && forall i :: k + |r| <= i < |s| ==> IsSpace(s[i])
  }

  /** `TrimSpace` keeps the slice of `s` from its first character that is not
      white space up to a point after which only white space follows. */
  lemma TrimSpaceSlice(s: string)
    ensures TrimmedSliceAt(s, LeadingSpaceCount(s), TrimSpace(s))
  {
    var l := TrimLeftSpace(s);
    var r := TrimSpace(s);
    assert r == TrimRightSpace(l);
    PrefixOfSuffix(s, LeadingSpaceCount(s), l, r);
  }

  /** A prefix `r` of the suffix `l == s[k..]`, followed in `l` by white
      space only, is the slice of `s` at `k`, followed in `s` by white space. */
  lemma PrefixOfSuffix(s: string, k: nat, l: string, r: string)
    requires k <= |s| && l == s[k..]
    requires |r| <= |l| && r == l[..|r|]
    requires forall i :: |r| <= i < |l| ==> IsSpace(l[i])
    ensures TrimmedSliceAt(s, k, r)
  {
    forall i | k + |r| <= i < |s| ensures IsSpace(s[i]) {
      assert s[i] == l[i - k];
    }
  }

  predicate HasPrefix(s: string, p: string) { |p| <= |s| && s[..|p|] == p }

  predicate HasSuffix(s: string, p: string) { |p| <= |s| && s[|s| - |p|..] == p }

  /** Go's `strings.TrimSuffix`. */
  function TrimSuffix(s: string, suffix: string): (r: string)
    ensures HasSuffix(s, suffix) ==> s == r + suffix
    ensures !HasSuffix(s, suffix) ==> r == s
  {
    if HasSuffix(s, suffix) then s[..|s| - |suffix|] else s
  }

  /** Go's `strings.Contains`. */
  predicate Contains(s: string, sub: string)
    decreases |s|
  {
    HasPrefix(s, sub) || (|s| > 0 && Contains(s[1..], sub))
  }

  /** A text shorter than `sub` cannot contain it. */
  lemma {:induction false} ShorterNotContains(s: string, sub: string)
    requires |s| < |sub|
    ensures !Contains(s, sub)
  {
    if |s| > 0 {
      ShorterNotContains(s[1..], sub);
    }
  }

  function CountChar(s: string, c: char): nat {
    if s == [] then 0 else CountChar(s[1..], c) + (if s[0] == c then 1 else 0)
  }

  /** Position of the first `c` in `s`, or -1. */
  function IndexOf(s: string, c: char): (r: int)
    ensures -1 <= r < |s|
    ensures r >= 0 ==> s[r] == c
    ensures forall i :: 0 <= i < |s| && (r < 0 || i < r) ==> s[i] != c
  {
    if |s| == 0 then -1
    else if s[0] == c then 0
    else var t := IndexOf(s[1..], c); if t < 0 then -1 else t + 1
  }

  lemma IndexOfIs(s: string, c: char, k: nat)
    requires k < |s| && s[k] == c && forall i :: 0 <= i < k ==> s[i] != c
    ensures IndexOf(s, c) == k
  {
  }

  /** Position of the last `c` in `s`, or -1. */
  function LastIndexOf(s: string, c: char): (r: int)
    ensures -1 <= r < |s|
    ensures r >= 0 ==> s[r] == c
    ensures forall i :: r < i < |s| ==> s[i] != c
  {
    if |s| == 0 then -1
    else if s[|s| - 1] == c then |s| - 1
    else LastIndexOf(s[..|s| - 1], c)
  }

  /** The last `c` is the one after which no `c` follows. */
  lemma LastIndexOfIs(s: string, c: char, k: nat)
    requires k < |s| && s[k] == c
    requires forall i :: k < i < |s| ==> s[i] != c
    ensures LastIndexOf(s, c) == k
  {
  }

  predicate NoChar(s: string, c: char) { forall i :: 0 <= i < |s| ==> s[i] != c }

  lemma NoCharAppend(a: string, b: string, c: char)
    ensures NoChar(a + b, c) <==> NoChar(a, c) && NoChar(b, c)
  {
    assert forall i :: 0 <= i < |a| ==> (a + b)[i] == a[i];
    assert forall i :: 0 <= i < |b| ==> (a + b)[|a| + i] == b[i];
    if NoChar(a, c) && NoChar(b, c) {
      forall i | 0 <= i < |a + b| ensures (a + b)[i] != c {
        if i >= |a| {
          assert (a + b)[i] == b[i - |a|];
        }
      }
    }
  }

  /** Go's `strings.Cut` on a one-character separator. */
  function Cut(s: string, c: char): (r: (string, string, bool))
    ensures r.2 <==> !NoChar(s, c)
    ensures r.2 ==> s == r.0 + [c] + r.1 && NoChar(r.0, c)
    ensures !r.2 ==> r.0 == s && r.1 == ""
  {
    var i := IndexOf(s, c);
    if i < 0 then (s, "", false) else (s[..i], s[i + 1..], true)
  }

  /** Go's `strings.Split` on a one-character separator. */
  function Split(s: string, c: char): (r: seq<string>)
    ensures |r| >= 1
    decreases |s|
  {
    var i := IndexOf(s, c);
    if i < 0 then [s] else [s[..i]] + Split(s[i + 1..], c)
  }

  /** Splitting a string extended by a separator and a separator-free tail
      adds the tail as one more piece. */
  lemma {:induction false} SplitAppend(q: string, c: char, t: string)
    requires NoChar(t, c)
    ensures Split(q + [c] + t, c) == Split(q, c) + [t]
    decreases |q|
  {
    var i := IndexOf(q, c);
    if i < 0 {
      SplitAppendFirst(q, c, t);
      SplitNoSeparator(q, c);
    } else {
      SplitAppendLater(q, c, t, i);
      SplitAppend(q[i + 1..], c, t);
      SplitAt(q, c, i);
    }
  }

  /** Splitting at the first separator. */
  lemma SplitAt(s: string, c: char, k: nat)
    requires k < |s| && s[k] == c && forall i :: 0 <= i < k ==> s[i] != c
    ensures Split(s, c) == [s[..k]] + Split(s[k + 1..], c)
  {
    IndexOfIs(s, c, k);
  }

  /** Cutting at the separator that follows a separator-free prefix. */
  lemma CutAtFirst(a: string, c: char, b: string)
    requires NoChar(a, c)
    ensures Cut(a + [c] + b, c) == (a, b, true)
  {
    var s := a + [c] + b;
    assert forall k :: 0 <= k < |a| ==> s[k] == a[k];
    IndexOfIs(s, c, |a|);
    assert s[..|a|] == a && s[|a| + 1..] == b;
  }

  /** Splitting a rooted two-element path. */
  lemma SplitRooted(a: string, c: char, b: string)
    requires NoChar(a, c) && NoChar(b, c)
    ensures Split([c] + a + [c] + b, c) == ["", a, b]
  {
    var s := [c] + a + [c] + b;
    SplitAt(s, c, 0);
    assert s[..0] == "" && s[1..] == a + [c] + b;
    SplitAppendFirst(a, c, b);
  }

  lemma SplitAppendFirst(q: string, c: char, t: string)
    requires NoChar(q, c) && NoChar(t, c)
    ensures Split(q + [c] + t, c) == [q, t]
  {
    var s := q + [c] + t;
    assert forall k :: 0 <= k < |q| ==> s[k] == q[k];
    SplitAt(s, c, |q|);
    assert s[..|q|] == q && s[|q| + 1..] == t;
    SplitNoSeparator(t, c);
  }

  lemma SplitAppendLater(q: string, c: char, t: string, i: nat)
    requires i < |q| && q[i] == c && forall k :: 0 <= k < i ==> q[k] != c
    ensures Split(q + [c] + t, c) == [q[..i]] + Split(q[i + 1..] + [c] + t, c)
  {
    var r := [c] + t;
    var s := q + r;
    assert q + [c] + t == s;
    ConcatSlices(q, r, i);
    SplitAt(s, c, i);
    assert q[i + 1..] + [c] + t == q[i + 1..] + r;
  }

  /** Slicing `q + r` inside `q`. */
  lemma ConcatSlices(q: string, r: string, i: nat)
    requires i < |q|
    ensures forall k :: 0 <= k <= i ==> (q + r)[k] == q[k]
    ensures (q + r)[..i] == q[..i] && (q + r)[i + 1..] == q[i + 1..] + r
  {
  }

  lemma SplitNoSeparator(t: string, c: char)
    requires NoChar(t, c)
    ensures Split(t, c) == [t]
  {
    assert IndexOf(t, c) < 0;
  }

  /** Go's `strings.Join` with a one-character separator. */
  function JoinWith(parts: seq<string>, c: char): string {
    if |parts| == 0 then ""
    else if |parts| == 1 then parts[0]
    else parts[0] + [c] + JoinWith(parts[1..], c)
  }

  lemma {:induction false} JoinWithAppend(parts: seq<string>, x: string, c: char)
    ensures JoinWith(parts + [x], c) == if parts == [] then x else JoinWith(parts, c) + [c] + x
  {
    if |parts| == 1 {
      assert parts + [x] == [parts[0], x];
    } else if |parts| > 1 {
      assert (parts + [x])[1..] == parts[1..] + [x];
      JoinWithAppend(parts[1..], x, c);
    } else {
      assert parts + [x] == [x];
    }
  }

  /** The pieces of `strings.Split` are free of the separator. */
  lemma {:induction false} SplitPiecesFree(s: string, c: char)
    ensures forall k :: 0 <= k < |Split(s, c)| ==> NoChar(Split(s, c)[k], c)
    decreases |s|
  {
    var i := IndexOf(s, c);
    if i >= 0 {
      var head, rest := s[..i], Split(s[i + 1..], c);
      SplitPiecesFree(s[i + 1..], c);
      SplitAt(s, c, i);
      PiecesFreeCons(head, rest, c);
    } else {
      SplitNoSeparator(s, c);
    }
  }

  lemma PiecesFreeCons(head: string, rest: seq<string>, c: char)
    requires NoChar(head, c) && forall k :: 0 <= k < |rest| ==> NoChar(rest[k], c)
    ensures forall k :: 0 <= k < |[head] + rest| ==> NoChar(([head] + rest)[k], c)
  {
    var r := [head] + rest;
    assert forall k :: 1 <= k < |r| ==> r[k] == rest[k - 1];
  }

  /** Joining the pieces of `strings.Split` with the separator gives the
      string back. */
  lemma {:induction false} SplitThenJoin(s: string, c: char)
    ensures JoinWith(Split(s, c), c) == s
    decreases |s|
  {
    var i := IndexOf(s, c);
    if i >= 0 {
      var tail := s[i + 1..];
      SplitThenJoin(tail, c);
      SplitAt(s, c, i);
      JoinCons(s[..i], Split(tail, c), c);
      Around(s, i);
    } else {
      SplitNoSeparator(s, c);
    }
  }

  lemma Around(s: string, i: nat)
    requires i < |s|
    ensures s == s[..i] + [s[i]] + s[i + 1..]
  {
  }

  lemma JoinCons(head: string, rest: seq<string>, c: char)
    requires rest != []
    ensures JoinWith([head] + rest, c) == head + [c] + JoinWith(rest, c)
  {
    assert ([head] + rest)[1..] == rest;
  }

  /** Go's `strings.ReplaceAll(s, string(from), string(to))` for single characters. */
  function ReplaceChar(s: string, from: char, to: char): (r: string)
    ensures |r| == |s|
    ensures forall i :: 0 <= i < |s| ==> r[i] == if s[i] == from then to else s[i]
  {
    if s == [] then [] else [if s[0] == from then to else s[0]] + ReplaceChar(s[1..], from, to)
  }

  lemma ReplaceCharAppend(a: string, b: string, from: char, to: char)
    ensures ReplaceChar(a + b, from, to) == ReplaceChar(a, from, to) + ReplaceChar(b, from, to)
  {
    var l, r := ReplaceChar(a + b, from, to), ReplaceChar(a, from, to) + ReplaceChar(b, from, to);
    assert |l| == |r|;
    forall i | 0 <= i < |l| ensures l[i] == r[i] {
      if i < |a| {
        assert (a + b)[i] == a[i];
      } else {
        assert (a + b)[i] == b[i - |a|];
      }
    }
  }

  lemma ReplaceCharAbsent(s: string, from: char, to: char)
    requires NoChar(s, from)
    ensures ReplaceChar(s, from, to) == s
  {
    var r := ReplaceChar(s, from, to);
    assert forall i :: 0 <= i < |s| ==> r[i] == s[i];
  }

  function ToLowerAscii(s: string): (r: string)
    ensures |r| == |s|
  {
    if s == [] then []
    else [if 'A' <= s[0] <= 'Z' then (s[0] as int + 32) as char else s[0]] + ToLowerAscii(s[1..])
  }

  function Repeat(c: char, n: nat): (r: string)
    ensures |r| == n && forall i :: 0 <= i < n ==> r[i] == c
  {
    if n == 0 then [] else [c] + Repeat(c, n - 1)
  }

  // ---- decimal numbers -------------------------------------------------

  function DigitValue(c: char): nat
    requires IsDigit(c)
  {
    c as int - '0' as int
  }

  function DigitChar(d: nat): (c: char)
    requires d < 10
    ensures IsDigit(c) && DigitValue(c) == d
  {
    ('0' as int + d) as char
  }

  /** The value of a string of decimal digits (most significant first). */
  function DecimalValue(s: string): nat
    requires AllDigits(s)
  {
    if s == [] then 0 else DecimalValue(s[..|s| - 1]) * 10 + DigitValue(s[|s| - 1])
  }

  /** Go's `%d` (and `strconv.Itoa`) for a non-negative value: the canonical
      digit string, without leading zeros, denoting `n`. */
  function NatToString(n: nat): (r: string)
    ensures |r| > 0 && AllDigits(r) && DecimalValue(r) == n
    ensures r[0] == '0' ==> n == 0
  {
    if n < 10 then [DigitChar(n)]
    else
      var p := NatToString(n / 10);
      var r := p + [DigitChar(n % 10)];
      assert r[..|r| - 1] == p;
      r
  }

  /** Go's `%d` for any `int`. */
  function IntToString(i: int): (r: string)
    ensures |r| > 0
    ensures forall k :: 0 <= k < |r| ==> IsDigit(r[k]) || r[k] == '-'
  {
    if i < 0 then "-" + NatToString(-i) else NatToString(i)
  }

  function Max(a: int, b: int): int { if a < b then b else a }

  function Pow10(k: nat): (r: nat)
    ensures r >= 1
  {
    if k == 0 then 1 else 10 * Pow10(k - 1)
  }

  /** A value below 10^k has at most k digits. */
  lemma {:induction false} NatToStringLength(n: nat, k: nat)
    requires k >= 1 && n < Pow10(k)
    ensures |NatToString(n)| <= k
  {
    if n >= 10 {
      NatToStringLength(n / 10, k - 1);
    }
  }

  /** Go's `%0{width}d` for a non-negative value: at least `width` digits,
      padded with leading zeros, denoting `n`. */
  function ZeroPad(n: nat, width: nat): (r: string)
    ensures |r| == Max(width, |NatToString(n)|)
    ensures AllDigits(r) && DecimalValue(r) == n
  {
    var s := NatToString(n);
    var z := if |s| < width then Repeat('0', width - |s|) else [];
    LeadingZerosValue(z, s);
    z + s
  }

  lemma {:induction false} ZerosValue(z: string)
    requires forall i :: 0 <= i < |z| ==> z[i] == '0'
    ensures AllDigits(z) && DecimalValue(z) == 0
  {
    if z != [] { ZerosValue(z[..|z| - 1]); }
  }

  lemma {:induction false} LeadingZerosValue(z: string, s: string)
    requires forall i :: 0 <= i < |z| ==> z[i] == '0'
    requires AllDigits(s)
    ensures AllDigits(z + s) && DecimalValue(z + s) == DecimalValue(s)
  {
    ZerosValue(z);
    if s != [] {
      var t := z + s;
      assert t[..|t| - 1] == z + s[..|s| - 1];
      LeadingZerosValue(z, s[..|s| - 1]);
    } else {
      assert z + s == z;
    }
  }

  /** Go's `strconv.Atoi` on a string of digits: the value, or None when it
      does not fit in `int` (or the string is empty). */
  function Atoi(s: string): (r: Option<int>)
    requires AllDigits(s)
    ensures r.Some? <==> s != [] && DecimalValue(s) <= MaxInt
    ensures r.Some? ==> 0 <= r.value == DecimalValue(s)
  {
    if s != [] && DecimalValue(s) <= MaxInt then Some(DecimalValue(s)) else None
  }

  /** The maximal run of digits at the start of `s`. */
  function LeadingDigits(s: string): (r: string)
    ensures AllDigits(r) && |r| <= |s| && r == s[..|r|]
    ensures |r| == |s| || !IsDigit(s[|r|])
  {
    if |s| > 0 && IsDigit(s[0]) then [s[0]] + LeadingDigits(s[1..]) else []
  }

  /** The maximal run of digits at the end of `s` (what the regular
      expression `(\d+)$` captures, or "" when it does not match). */
  function TrailingDigits(s: string): (r: string)
    ensures AllDigits(r) && |r| <= |s| && r == s[|s| - |r|..]
    ensures |r| == |s| || !IsDigit(s[|s| - |r| - 1])
  {
    if |s| > 0 && IsDigit(s[|s| - 1]) then TrailingDigits(s[..|s| - 1]) + [s[|s| - 1]] else []
  }

  lemma TrailingDigitsEmpty(s: string)
    ensures TrailingDigits(s) == [] <==> s == [] || !IsDigit(s[|s| - 1])
  {
    if s != [] && IsDigit(s[|s| - 1]) {
      assert |TrailingDigits(s)| >= 1;
    }
  }

  lemma FirstUnderscore(p: string, b: string)
    requires AllDigits(p)
    ensures IndexOf(p + ['_'] + b, '_') == |p|
  {
    var t := p + ['_'] + b;
    assert t[|p|] == '_';
    assert forall i :: 0 <= i < |p| ==> t[i] == p[i];
  }

  /** A digit string is determined by the separator that ends it: two
      strings `p + "_" + b` with all-digit `p` can only agree if their
      digit parts and their tails agree. */
  lemma {:induction false} DigitsBeforeUnderscore(p1: string, b1: string, p2: string, b2: string)
    requires AllDigits(p1) && AllDigits(p2)
    requires p1 + ['_'] + b1 == p2 + ['_'] + b2
    ensures p1 == p2 && b1 == b2
  {
    var s1 := p1 + ['_'] + b1;
    var s2 := p2 + ['_'] + b2;
    FirstUnderscore(p1, b1);
    FirstUnderscore(p2, b2);
    assert p1 == s1[..|p1|] && p2 == s2[..|p2|];
    assert b1 == s1[|p1| + 1..] && b2 == s2[|p2| + 1..];
  }
}
