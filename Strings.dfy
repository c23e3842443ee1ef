/// The parts of Go's `strings` and `strconv` packages the tools use, on
/// strings as sequences of characters.
module Strings {
  import opened Results

  predicate HasPrefix(s: string, p: string) {
    |p| <= |s| && s[..|p|] == p
  }

  predicate HasSuffix(s: string, x: string) {
    |x| <= |s| && s[|s| - |x|..] == x
  }

  /// strings.TrimPrefix: drops `p` once from the front when it is there.
  function TrimPrefix(s: string, p: string): (r: string)
    ensures HasPrefix(s, p) ==> p + r == s
    ensures !HasPrefix(s, p) ==> r == s
  {
    if HasPrefix(s, p) then s[|p|..] else s
  }

  /// strings.TrimSuffix: drops `x` once from the end when it is there.
  function TrimSuffix(s: string, x: string): (r: string)
    ensures HasSuffix(s, x) ==> r + x == s
    ensures !HasSuffix(s, x) ==> r == s
  {
    if HasSuffix(s, x) then s[..|s| - |x|] else s
  }

  /// `sub` occurs in `s` starting at index `i`.
  predicate OccursAt(s: string, sub: string, i: int) {
    0 <= i && i + |sub| <= |s| && s[i..i + |sub|] == sub
  }

  function IndexFrom(s: string, sub: string, i: nat): (r: Option<nat>)
    requires i <= |s| + 1
    decreases |s| + 1 - i
    ensures r.Some? ==> i <= r.value && OccursAt(s, sub, r.value)
    ensures r.Some? ==> forall j :: i <= j < r.value ==> !OccursAt(s, sub, j)
    ensures r.None? ==> forall j :: i <= j ==> !OccursAt(s, sub, j)
  {
    if i + |sub| > |s| then None
    else if s[i..i + |sub|] == sub then Some(i)
    else IndexFrom(s, sub, i + 1)
  }

  /// strings.Index: the first occurrence of `sub` in `s`.
  function Index(s: string, sub: string): (r: Option<nat>)
    ensures r.Some? ==> OccursAt(s, sub, r.value)
    ensures r.Some? ==> forall j :: 0 <= j < r.value ==> !OccursAt(s, sub, j)
    ensures r.None? ==> forall j :: !OccursAt(s, sub, j)
  {
    IndexFrom(s, sub, 0)
  }

  /// strings.Replace(s, pat, rep, 1): replace the first occurrence only.
  /// An empty `pat` matches at the very start, so `rep` is prepended.
  function Replace1(s: string, pat: string, rep: string): string {
    if pat == rep then s
    else match Index(s, pat)
      case None => s
      case Some(i) => s[..i] + rep + s[i + |pat|..]
  }

  /// Only the first occurrence of `pat` is replaced, everything before and
  /// after it is kept, and a string without `pat` comes back unchanged.
  lemma Replace1Spec(s: string, pat: string, rep: string)
    ensures (forall j :: !OccursAt(s, pat, j)) ==> Replace1(s, pat, rep) == s
    ensures forall i :: OccursAt(s, pat, i) && (forall j :: 0 <= j < i ==> !OccursAt(s, pat, j)) ==>
              Replace1(s, pat, rep) == s[..i] + rep + s[i + |pat|..]
  {
    forall i | OccursAt(s, pat, i) && (forall j :: 0 <= j < i ==> !OccursAt(s, pat, j))
      ensures Replace1(s, pat, rep) == s[..i] + rep + s[i + |pat|..]
    {
      var k := Index(s, pat);
      assert k.Some? && k.value == i;
      if pat == rep {
        assert s[i..i + |pat|] == pat;
        assert s == s[..i] + s[i..i + |pat|] + s[i + |pat|..];
      }
    }
  }

  /// Replace1 once the first occurrence is known.
  lemma Replace1At(s: string, pat: string, rep: string, i: nat)
    requires Index(s, pat) == Some(i)
    ensures Replace1(s, pat, rep) == s[..i] + rep + s[i + |pat|..]
  {
    if pat == rep {
      assert s[i..i + |pat|] == pat;
      assert s == s[..i] + s[i..i + |pat|] + s[i + |pat|..];
    }
  }

  /// Replacing a string by itself changes nothing.
  lemma Replace1Same(s: string, x: string)
    ensures Replace1(s, x, x) == s
  {
  }

  /// strings.Replace(s, string(c), "", -1): every `c` removed, the rest kept in order.
  function DeleteChar(s: string, c: char): (r: string)
    ensures |r| <= |s|
    ensures forall k :: 0 <= k < |r| ==> r[k] != c
    ensures (forall k :: 0 <= k < |s| ==> s[k] != c) ==> r == s
  {
    if s == [] then []
    else (if s[0] == c then [] else [s[0]]) + DeleteChar(s[1..], c)
  }

  /// unicode.ToLower on every character whose lower case is ASCII: the
  /// capitals A-Z, U+0130 (capital I with dot above, lower case 'i') and
  /// U+212A (Kelvin sign, lower case 'k'). No other character has an ASCII
  /// lower case; those are kept as they are, which changes nothing when the
  /// result is only compared with ASCII text.
  function ToLowerChar(c: char): char {
    if 'A' <= c <= 'Z' then (c as int + 32) as char
    else if c == '\U{0130}' then 'i'
    else if c == '\U{212A}' then 'k'
    else c
  }

  /// strings.ToLower, character by character, as far as ToLowerChar goes.
  function ToLower(s: string): (r: string)
    ensures |r| == |s|
    ensures forall i :: 0 <= i < |s| ==> r[i] == ToLowerChar(s[i])
  {
    if s == [] then [] else [ToLowerChar(s[0])] + ToLower(s[1..])
  }

  /// strings.Split with a one-character separator: the pieces between the
  /// separators, read off one character at a time, so a string without
  /// `c` splits into itself alone and no piece holds a separator.
  function Split(s: string, c: char): (r: seq<string>)
    ensures |r| >= 1
    ensures forall i :: 0 <= i < |r| ==> c !in r[i]
  {
    if s == [] then [""]
    else
      var rest := Split(s[1..], c);
      if s[0] == c then [""] + rest
      else [[s[0]] + rest[0]] + rest[1..]
  }

  lemma {:induction false} SplitNoSep(s: string, c: char)
    requires c !in s
    ensures Split(s, c) == [s]
  {
    if s != [] {
      assert c !in s[1..];
      SplitNoSep(s[1..], c);
      assert [s[0]] + s[1..] == s;
    }
  }

  /// Splitting around one separator splits both sides independently.
  lemma {:induction false} SplitConcat(x: string, y: string, c: char)
    ensures Split(x + [c] + y, c) == Split(x, c) + Split(y, c)
  {
    var s := x + [c] + y;
    if x == [] {
      assert s[0] == c && s[1..] == y;
    } else {
      assert s[0] == x[0] && s[1..] == x[1..] + [c] + y;
      SplitConcat(x[1..], y, c);
      if x[0] == c {
        ConsAppend("", Split(x[1..], c), Split(y, c));
      } else {
        GlueFirst(x[0], Split(x[1..], c), Split(y, c));
      }
    }
  }

  lemma ConsAppend<T>(a: T, bs: seq<T>, cs: seq<T>)
    ensures [a] + (bs + cs) == [a] + bs + cs
  {
  }

  lemma AppendAssoc<T>(xs: seq<T>, ys: seq<T>, zs: seq<T>)
    ensures xs + ys + zs == xs + (ys + zs)
  {
  }

  /// A character glued onto the first piece of `rs + cs`.
  lemma GlueFirst(a: char, rs: seq<string>, cs: seq<string>)
    requires |rs| >= 1
    ensures [[a] + (rs + cs)[0]] + (rs + cs)[1..] == [[a] + rs[0]] + rs[1..] + cs
  {
    assert (rs + cs)[0] == rs[0];
    assert (rs + cs)[1..] == rs[1..] + cs;
  }

  predicate IsDigit(c: char) {
    '0' <= c <= '9'
  }

  function DigitValue(c: char): (d: nat)
    requires IsDigit(c)
    ensures d < 10
  {
    c as int - '0' as int
  }

  predicate AllDigits(s: string) {
    forall i :: 0 <= i < |s| ==> IsDigit(s[i])
  }

  /// The number written by a string of decimal digits.
  function DigitsValue(s: string): nat
    requires AllDigits(s)
  {
    if s == [] then 0 else 10 * DigitsValue(s[..|s| - 1]) + DigitValue(s[|s| - 1])
  }

  const MinInt64: int := -0x8000_0000_0000_0000
  const MaxInt64: int := 0x7FFF_FFFF_FFFF_FFFF

  /// strconv.Atoi on a 64-bit platform: an optional sign, one or more
  /// decimal digits, and a value that fits in an int.
  function Atoi(s: string): (r: Option<int>)
    ensures r.Some? ==> MinInt64 <= r.value <= MaxInt64
  {
    var neg := |s| > 0 && s[0] == '-';
    var body := if |s| > 0 && (s[0] == '-' || s[0] == '+') then s[1..] else s;
    if body == [] || !AllDigits(body) then None
    else
      var d: int := DigitsValue(body);
      var v := if neg then -d else d;
      if MinInt64 <= v <= MaxInt64 then Some(v) else None
  }

  function NatToString(n: nat): (r: string)
    ensures |r| >= 1 && AllDigits(r)
  {
    if n < 10 then [('0' as int + n) as char]
    else NatToString(n / 10) + [('0' as int + n % 10) as char]
  }

  /// fmt's `%d` / strconv.Itoa.
  function IntToString(n: int): string {
    if n < 0 then "-" + NatToString(-n) else NatToString(n)
  }

  /// The decimal text of a natural number reads back as that number.
  lemma {:induction false} NatToStringValue(n: nat)
    ensures DigitsValue(NatToString(n)) == n
  {
    if n >= 10 {
      NatToStringValue(n / 10);
      var s := NatToString(n);
      assert s[..|s| - 1] == NatToString(n / 10);
    }
  }

  /// `%d` text holds only digits and a leading '-'.
  lemma IntToStringChars(n: int)
    ensures var s := IntToString(n); |s| >= 1 && forall k :: 0 <= k < |s| ==> IsDigit(s[k]) || (k == 0 && s[k] == '-')
  {
  }

  /// strconv.Atoi reads `%d` text back, for every int that fits.
  lemma AtoiIntToString(n: int)
    requires MinInt64 <= n <= MaxInt64
    ensures Atoi(IntToString(n)) == Some(n)
  {
    var s := IntToString(n);
    if n < 0 {
      NatToStringValue(-n);
      assert s[1..] == NatToString(-n);
    } else {
      NatToStringValue(n);
      assert IsDigit(s[0]);
    }
  }
}
