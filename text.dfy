/** Character and string helpers shared by the shell model: Rust's notion of
    whitespace, `str::trim`, `str::split` on one character, `join`, the
    `{:>5}` padding of `format!`, and the integer parsers `parse::<i32>` and
    `parse::<usize>` (on a 64-bit target). */
module Text {

  datatype Option<T> = None | Some(value: T)

  /** The Unicode White_Space property, which is what Rust's
      `char::is_whitespace` tests. */
  predicate IsWhitespace(c: char) {
    var n := c as int;
    (0x09 <= n <= 0x0D) || n == 0x20 || n == 0x85 || n == 0xA0 || n == 0x1680
    || (0x2000 <= n <= 0x200A) || n == 0x2028 || n == 0x2029 || n == 0x202F
    || n == 0x205F || n == 0x3000
  }

  /** Appending nothing leaves a sequence as it was. */
  lemma AppendNothing<T>(s: seq<T>)
    ensures s + [] == s
  {
  }

  /** Concatenation can be regrouped. */
  lemma AppendRegroup<T>(a: seq<T>, b: seq<T>, c: seq<T>)
    ensures a + (b + c) == (a + b) + c
  {
  }

  predicate AllWhitespace(s: string) {
    forall i :: 0 <= i < |s| ==> IsWhitespace(s[i])
  }

  /** Where the whitespace that `s` has from index `i` on stops. */
  function WhitespaceRunFrom(s: string, i: nat): (k: nat)
    requires i <= |s|
    ensures i <= k <= |s|
    ensures forall j :: i <= j < k ==> IsWhitespace(s[j])
    ensures k < |s| ==> !IsWhitespace(s[k])
    decreases |s| - i
  {
    if i < |s| && IsWhitespace(s[i]) then WhitespaceRunFrom(s, i + 1) else i
  }

  /** Where the whitespace that `s` has before index `j` starts. */
  function WhitespaceRunBefore(s: string, j: nat): (k: nat)
    requires j <= |s|
    ensures k <= j
    ensures forall m :: k <= m < j ==> IsWhitespace(s[m])
    ensures 0 < k ==> !IsWhitespace(s[k - 1])
    decreases j
  {
    if 0 < j && IsWhitespace(s[j - 1]) then WhitespaceRunBefore(s, j - 1) else j
  }

  /** `str::trim_start`: drops the leading whitespace and nothing else. */
  function TrimStart(s: string): (r: string)
    ensures |r| <= |s| && r == s[|s| - |r|..]
    ensures r != [] ==> !IsWhitespace(r[0])
    ensures AllWhitespace(s[..|s| - |r|])
  {
    var k := WhitespaceRunFrom(s, 0);
    assert forall j :: 0 <= j < k ==> s[..k][j] == s[j];
    s[k..]
  }

  /** `str::trim_end`: drops the trailing whitespace and nothing else. */
  function TrimEnd(s: string): (r: string)
    ensures |r| <= |s| && r == s[..|r|]
    ensures r != [] ==> !IsWhitespace(r[|r| - 1])
    ensures AllWhitespace(s[|r|..])
  {
    var k := WhitespaceRunBefore(s, |s|);
    assert forall m :: 0 <= m < |s| - k ==> s[k..][m] == s[k + m];
    s[..k]
  }

  /** `str::trim`: the result is empty exactly when the input is all
      whitespace, and otherwise starts and ends with a non-whitespace
      character. */
  function Trim(s: string): (r: string)
    ensures |r| <= |s|
    ensures r == [] <==> AllWhitespace(s)
    ensures r != [] ==> !IsWhitespace(r[0]) && !IsWhitespace(r[|r| - 1])
  {
    TrimBothEnds(s);
    TrimEnd(TrimStart(s))
  }

  /** What `str::trim` keeps is the slice of the input that starts after its
      leading whitespace, which `TrimStart` drops ... */
  lemma TrimIsSlice(s: string)
    ensures var r := Trim(s); var i := |s| - |TrimStart(s)|;
      i + |r| <= |s| && r == s[i..i + |r|]
  {
    var t := TrimStart(s);
    var r := TrimEnd(t);
    assert Trim(s) == r;
    SliceMiddle(s, |s| - |t|, t, r);
  }

  /** ... and only whitespace is dropped after it. */
  lemma TrimDropsTrailing(s: string)
    ensures var r := Trim(s); var i := |s| - |TrimStart(s)|;
      i + |r| <= |s| && AllWhitespace(s[i + |r|..])
  {
    var t := TrimStart(s);
    var r := TrimEnd(t);
    assert Trim(s) == r;
    SliceTail(s, |s| - |t|, t, r);
  }

  /** A prefix `r` of the suffix `t` of `s` that starts at `i` is a slice of
      `s` ... */
  lemma SliceMiddle(s: string, i: nat, t: string, r: string)
    requires i <= |s| && t == s[i..]
    requires |r| <= |t| && r == t[..|r|]
    ensures i + |r| <= |s| && r == s[i..i + |r|]
  {
    var middle := s[i..i + |r|];
    forall k | 0 <= k < |r| ensures middle[k] == r[k] {
      assert r[k] == t[k] == s[i + k];
    }
    assert middle == r;
  }

  /** ... and what follows `r` in `t` follows it in `s`. */
  lemma SliceTail(s: string, i: nat, t: string, r: string)
    requires i <= |s| && t == s[i..]
    requires |r| <= |t| && AllWhitespace(t[|r|..])
    ensures i + |r| <= |s| && AllWhitespace(s[i + |r|..])
  {
    var back := s[i + |r|..];
    var tail := t[|r|..];
    forall k | 0 <= k < |back| ensures IsWhitespace(back[k]) {
      assert back[k] == t[|r| + k] == tail[k];
    }
    assert AllWhitespace(back);
  }

  lemma TrimBothEnds(s: string)
    ensures var r := TrimEnd(TrimStart(s));
      (r == [] <==> AllWhitespace(s)) && (r != [] ==> !IsWhitespace(r[0]))
  {
    var t := TrimStart(s);
    var r := TrimEnd(t);
    if r == [] {
      TrimmedEmpty(s, t);
    } else {
      assert r[0] == t[0];
      TrimmedNonEmpty(s, t);
    }
  }

  lemma TrimmedEmpty(s: string, t: string)
    requires t == TrimStart(s) && TrimEnd(t) == []
    ensures AllWhitespace(s)
  {
    var k := |s| - |t|;
    assert s[..k] + t == s;
    assert t[0..] == t;
    AllWhitespaceConcat(s[..k], t);
  }

  lemma TrimmedNonEmpty(s: string, t: string)
    requires t == TrimStart(s) && t != []
    ensures !AllWhitespace(s)
  {
    var k := |s| - |t|;
    assert s[k] == t[0];
  }

  lemma AllWhitespaceConcat(a: string, b: string)
    requires AllWhitespace(a) && AllWhitespace(b)
    ensures AllWhitespace(a + b)
  {
    forall i | 0 <= i < |a + b| ensures IsWhitespace((a + b)[i]) {
      if i < |a| {
        assert (a + b)[i] == a[i];
      } else {
        assert (a + b)[i] == b[i - |a|];
      }
    }
  }

  /** Number of occurrences of `c` in `s`. */
  function Count(s: string, c: char): nat {
    multiset(s)[c]
  }

  /** `str::split` on a single character: every piece, including empty ones,
      in order. */
  function Split(s: string, sep: char): (r: seq<string>)
    ensures |r| >= 1
    decreases |s|
  {
    if s == [] then [[]]
    else
      var rest := Split(s[1..], sep);
      if s[0] == sep then [[]] + rest
      else [[s[0]] + rest[0]] + rest[1..]
  }

  /** There is one piece more than there are separators. */
  lemma {:induction false} SplitCount(s: string, sep: char)
    ensures |Split(s, sep)| == Count(s, sep) + 1
    decreases |s|
  {
    if s != [] {
      SplitCount(s[1..], sep);
      assert s == [s[0]] + s[1..];
      assert multiset(s) == multiset([s[0]]) + multiset(s[1..]);
    }
  }

  /** No piece contains the separator. */
  lemma {:induction false} SplitPiecesFree(s: string, sep: char)
    ensures forall i :: 0 <= i < |Split(s, sep)| ==> sep !in Split(s, sep)[i]
    decreases |s|
  {
    if s != [] {
      SplitPiecesFree(s[1..], sep);
      var rest := Split(s[1..], sep);
      var r := Split(s, sep);
      if s[0] != sep {
        assert r[0] == [s[0]] + rest[0];
        forall i | 1 <= i < |r| ensures r[i] == rest[i] { }
      } else {
        forall i | 1 <= i < |r| ensures r[i] == rest[i - 1] { }
      }
    }
  }

  /** `[String]::join(sep)` with a one-character separator. */
  function Join(xs: seq<string>, sep: char): string
    decreases |xs|
  {
    if |xs| == 0 then []
    else if |xs| == 1 then xs[0]
    else xs[0] + [sep] + Join(xs[1..], sep)
  }

  /** Joining the pieces of a split gives back the input. */
  lemma {:induction false} JoinSplit(s: string, sep: char)
    ensures Join(Split(s, sep), sep) == s
    decreases |s|
  {
    if s != [] {
      var rest := Split(s[1..], sep);
      JoinSplit(s[1..], sep);
      var r := Split(s, sep);
      if s[0] == sep {
        JoinSeparator(rest, sep);
        assert r == [[]] + rest;
        assert [sep] + s[1..] == s;
      } else {
        assert r == [[s[0]] + rest[0]] + rest[1..];
        JoinFirst(rest, s[0], sep);
        assert [s[0]] + s[1..] == s;
      }
    }
  }

  /** An empty first piece contributes only its separator. */
  lemma JoinSeparator(xs: seq<string>, sep: char)
    requires |xs| >= 1
    ensures Join([[]] + xs, sep) == [sep] + Join(xs, sep)
  {
    var ys := [[]] + xs;
    assert ys[0] == [] && ys[1..] == xs;
    assert [] + [sep] + Join(xs, sep) == [sep] + Join(xs, sep);
  }

  /** A character put in front of the first piece comes first in the join. */
  lemma JoinFirst(xs: seq<string>, c: char, sep: char)
    requires |xs| >= 1
    ensures Join([[c] + xs[0]] + xs[1..], sep) == [c] + Join(xs, sep)
  {
    var ys := [[c] + xs[0]] + xs[1..];
    assert ys[0] == [c] + xs[0] && ys[1..] == xs[1..];
    if |xs| > 1 {
      assert [c] + xs[0] + [sep] + Join(xs[1..], sep) == [c] + (xs[0] + [sep] + Join(xs[1..], sep));
    }
  }

  /** Splitting a join gives back the pieces, provided there is at least one
      piece and no piece contains the separator. */
  lemma {:induction false} SplitJoin(xs: seq<string>, sep: char)
    requires |xs| > 0
    requires forall i :: 0 <= i < |xs| ==> sep !in xs[i]
    ensures Split(Join(xs, sep), sep) == xs
    decreases |xs|
  {
    if |xs| == 1 {
      SplitPlain(xs[0], [], sep);
      AppendNothing(xs[0]);
    } else {
      var tail := Join(xs[1..], sep);
      var t := [sep] + tail;
      SplitJoin(xs[1..], sep);
      SplitPlain(xs[0], t, sep);
      assert Join(xs, sep) == xs[0] + t;
      assert t[0] == sep && t[1..] == tail;
      assert Split(t, sep) == [[]] + Split(tail, sep);
      var r := Split(t, sep);
      assert r[0] == [] && r[1..] == xs[1..];
      assert xs[0] + r[0] == xs[0];
      assert [xs[0]] + xs[1..] == xs;
    }
  }

  /** A prefix without the separator joins the first piece of what follows. */
  lemma {:induction false} SplitPlain(p: string, t: string, sep: char)
    requires sep !in p
    ensures var r := Split(t, sep);
      Split(p + t, sep) == [p + r[0]] + r[1..]
    decreases |p|
  {
    var r := Split(t, sep);
    if p == [] {
      assert p + t == t;
      assert p + r[0] == r[0];
      assert r == [r[0]] + r[1..];
    } else {
      var c, p' := p[0], p[1..];
      SplitPlain(p', t, sep);
      var rest := Split(p' + t, sep);
      assert p + t == [c] + (p' + t);
      SplitCons(c, p' + t, sep);
      assert rest[0] == p' + r[0] && rest[1..] == r[1..];
      assert [c] + (p' + r[0]) == p + r[0];
    }
  }

  lemma SplitCons(c: char, t: string, sep: char)
    requires c != sep
    ensures var r := Split(t, sep); Split([c] + t, sep) == [[c] + r[0]] + r[1..]
  {
    var s := [c] + t;
    assert s[0] == c && s[1..] == t;
  }

  predicate IsDigit(c: char) { '0' <= c <= '9' }

  predicate AllDigits(s: string) {
    forall i :: 0 <= i < |s| ==> IsDigit(s[i])
  }

  /** The decimal value of a digit string, most significant digit first. */
  function DigitsValue(s: string): nat
    requires AllDigits(s)
    decreases |s|
  {
    if s == [] then 0
    else DigitsValue(s[..|s| - 1]) * 10 + ((s[|s| - 1] as int) - ('0' as int))
  }

  /** The decimal rendering of `n` as `format!("{}", n)` gives it: digits
      only, at least one, and no leading zero unless `n` is zero. */
  function NatToString(n: nat): (r: string)
    ensures |r| >= 1 && AllDigits(r)
    ensures r[0] != '0' || n == 0
    decreases n
  {
    if n < 10 then [(('0' as int) + n) as char]
    else NatToString(n / 10) + [(('0' as int) + n % 10) as char]
  }

  /** Decimal rendering of a possibly negative integer. */
  function IntToString(n: int): string {
    if n < 0 then ['-'] + NatToString(-n) else NatToString(n)
  }

  lemma {:induction false} DigitsValueOfNatToString(n: nat)
    ensures DigitsValue(NatToString(n)) == n
    decreases n
  {
    if n >= 10 {
      DigitsValueOfNatToString(n / 10);
      var r := NatToString(n);
      assert r[..|r| - 1] == NatToString(n / 10);
    }
  }

  const I32_MIN: int := -0x8000_0000
  const I32_MAX: int := 0x7FFF_FFFF
  const USIZE_MAX: int := 0xFFFF_FFFF_FFFF_FFFF

  /** `str::parse::<usize>()`: an optional `+`, then one or more ASCII digits
      whose value fits in 64 bits; anything else is an error (`None`). */
  function ParseUsize(s: string): (r: Option<nat>)
    ensures r.Some? ==> r.value <= USIZE_MAX
    ensures r.Some? ==> s != [] && s[0] != '-'
  {
    if s == [] then None
    else
      var digits := if s[0] == '+' then s[1..] else s;
      if digits == [] || !AllDigits(digits) then None
      else if DigitsValue(digits) <= USIZE_MAX then Some(DigitsValue(digits))
      else None
  }

  /** `str::parse::<i32>()`: an optional `+` or `-`, then one or more ASCII
      digits, with the signed value in the 32-bit range. */
  function ParseI32(s: string): (r: Option<int>)
    ensures r.Some? ==> I32_MIN <= r.value <= I32_MAX
    ensures r.Some? ==> s != []
  {
    if s == [] then None
    else
      var signed := s[0] == '+' || s[0] == '-';
      var digits := if signed then s[1..] else s;
      if digits == [] || !AllDigits(digits) then None
      else
        var d: int := DigitsValue(digits);
        var v := if s[0] == '-' then -d else d;
        if I32_MIN <= v <= I32_MAX then Some(v) else None
  }

  /** Parsing the rendering of a machine-size number gives the number back. */
  lemma ParseUsizeOfNatToString(n: nat)
    requires n <= USIZE_MAX
    ensures ParseUsize(NatToString(n)) == Some(n)
  {
    DigitsValueOfNatToString(n);
  }

  /** Parsing the rendering of a 32-bit integer gives the integer back. */
  lemma ParseI32OfIntToString(n: int)
    requires I32_MIN <= n <= I32_MAX
    ensures ParseI32(IntToString(n)) == Some(n)
  {
    var s := IntToString(n);
    if n < 0 {
      var d := NatToString(-n);
      DigitsValueOfNatToString(-n);
      assert s == ['-'] + d;
      assert s[0] == '-' && s[1..] == d;
    } else {
      var d := NatToString(n);
      DigitsValueOfNatToString(n);
      assert IsDigit(d[0]);
    }
  }

  /** `format!("{:>w}", s)`: right-aligned in a field of `width` characters,
      padded with spaces on the left; a longer `s` is left as it is. */
  function PadLeft(s: string, width: nat): (r: string)
    ensures |r| == if |s| < width then width else |s|
    ensures r[|r| - |s|..] == s
    ensures forall i :: 0 <= i < |r| - |s| ==> r[i] == ' '
  {
    if |s| < width then seq(width - |s|, _ => ' ') + s else s
  }
}
