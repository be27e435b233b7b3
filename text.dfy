/**
 * The parts of Python's `str` that the ingestion scripts lean on:
 * `strip()`, `split(sep)`, `endswith(suffix)`, the regular-expression classes
 * `\s`, `\S` and `\d`, and `int()` of a run of decimal digits.
 * Characters are ASCII; the Unicode meanings of these classes are not modelled.
 */
module Text {
  import opened Wrappers

  /** ASCII characters Python counts as whitespace (`str.isspace`, `\s`). */
  predicate IsSpace(c: char) {
    c == ' ' || c == '\t' || c == '\n' || c == '\r' || c == '\U{0B}' || c == '\U{0C}'
    || ('\U{1C}' <= c <= '\U{1F}')
  }

  /** `\d` restricted to ASCII. */
  predicate IsDigit(c: char) {
    '0' <= c <= '9'
  }

  predicate AllSpace(s: string) {
    forall i :: 0 <= i < |s| ==> IsSpace(s[i])
  }

  /** Every character matches `\S`. */
  predicate NonSpaceText(s: string) {
    forall i :: 0 <= i < |s| ==> !IsSpace(s[i])
  }

  predicate DigitText(s: string) {
    forall i :: 0 <= i < |s| ==> IsDigit(s[i])
  }

  /** `s` is empty or begins and ends with a non-space character. */
  predicate Trimmed(s: string) {
    s == [] || (!IsSpace(s[0]) && !IsSpace(s[|s| - 1]))
  }

  predicate StartsWith(s: string, p: string) {
    |p| <= |s| && s[..|p|] == p
  }

  /** Python's `s.endswith(p)`. */
  predicate EndsWith(s: string, p: string) {
    |p| <= |s| && s[|s| - |p|..] == p
  }

  // ---------------------------------------------------------------- strip

  /** A space followed by `k` spaces is `k + 1` spaces. */
  lemma SpacesAfterSpace(s: string, k: nat)
    requires k < |s| && IsSpace(s[0]) && AllSpace(s[1..][..k])
    ensures AllSpace(s[..k + 1])
  {
    var p, q := s[..k + 1], s[1..][..k];
    forall i | 0 <= i < |p|
      ensures IsSpace(p[i])
    {
      if i > 0 {
        assert p[i] == q[i - 1];
      }
    }
  }

  /** Python's `s.lstrip()`: the suffix left once the leading whitespace is gone. */
  function TrimLeft(s: string): (r: string)
    ensures |r| <= |s| && r == s[|s| - |r|..]
    ensures AllSpace(s[..|s| - |r|])
    ensures r == [] || !IsSpace(r[0])
  {
    if |s| > 0 && IsSpace(s[0]) then
      var t := s[1..];
      var r := TrimLeft(t);
      var k := |t| - |r|;
      assert t[k..] == s[k + 1..];
      SpacesAfterSpace(s, k);
      r
    else s
  }

  /** Python's `s.rstrip()`: the prefix left once the trailing whitespace is gone. */
  function TrimRight(s: string): (r: string)
    ensures |r| <= |s| && r == s[..|r|]
    ensures AllSpace(s[|r|..])
    ensures r == [] || !IsSpace(r[|r| - 1])
  {
    if |s| > 0 && IsSpace(s[|s| - 1]) then
      var r := TrimRight(s[..|s| - 1]);
      assert s[..|s| - 1][..|r|] == s[..|r|];
      assert s[|r|..] == s[..|s| - 1][|r|..] + [s[|s| - 1]];
      r
    else s
  }

  /** Python's `s.strip()`. */
  function Strip(s: string): (r: string)
    ensures Trimmed(r)
    ensures |r| <= |s|
  {
    var t := TrimLeft(s);
    var r := TrimRight(t);
    assert r != [] ==> r[0] == t[0];
    r
  }

  lemma TrimmedStripIsIdentity(s: string)
    requires Trimmed(s)
    ensures Strip(s) == s
  {
  }

  /** Stripping twice is stripping once (`parse_log_file` strips a block that `parse_log_block` strips again). */
  lemma StripIdempotent(s: string)
    ensures Strip(Strip(s)) == Strip(s)
  {
    TrimmedStripIsIdentity(Strip(s));
  }

  /** A string strips to nothing exactly when it is all whitespace. */
  lemma {:induction false} StripEmptyIff(s: string)
    ensures Strip(s) == [] <==> AllSpace(s)
  {
    var t := TrimLeft(s);
    if t == [] {
      assert s[..|s|] == s;
    } else {
      assert t[0] == s[|s| - |t|];
      TrimRightKeepsHead(t);
    }
  }

  /** Right-stripping a text that starts with a non-space character leaves something. */
  lemma {:induction false} TrimRightKeepsHead(t: string)
    requires t != [] && !IsSpace(t[0])
    decreases |t|
    ensures TrimRight(t) != []
  {
    if IsSpace(t[|t| - 1]) {
      var u := t[..|t| - 1];
      assert |t| > 1;
      assert u[0] == t[0];
      TrimRightKeepsHead(u);
    }
  }

  // ---------------------------------------------------------------- split

  /** `pat` occurs in `s` starting at index `i`. */
  predicate OccursAt(s: string, pat: string, i: nat) {
    i + |pat| <= |s| && s[i..i + |pat|] == pat
  }

  /** `pat` occurs nowhere in `s`. */
  predicate Free(s: string, pat: string) {
    forall j: nat :: j <= |s| ==> !OccursAt(s, pat, j)
  }

  /** The first index at or after `i` where `pat` occurs in `s` (Python's `s.find(pat, i)`). */
  function FindFrom(s: string, pat: string, i: nat): (r: Option<nat>)
    decreases |s| - i
    ensures r.Some? ==> i <= r.value && OccursAt(s, pat, r.value)
    ensures r.Some? ==> forall j: nat :: i <= j < r.value ==> !OccursAt(s, pat, j)
    ensures r.None? ==> forall j: nat :: i <= j ==> !OccursAt(s, pat, j)
  {
    if i + |pat| > |s| then None
    else if s[i..i + |pat|] == pat then Some(i)
    else FindFrom(s, pat, i + 1)
  }

  lemma OccursInLonger(a: string, b: string, pat: string, j: nat)
    requires OccursAt(a, pat, j)
    ensures OccursAt(a + b, pat, j)
  {
    assert (a + b)[j..j + |pat|] == a[j..j + |pat|];
  }

  lemma OccursInShorter(a: string, b: string, pat: string, j: nat)
    requires OccursAt(a + b, pat, j) && j + |pat| <= |a|
    ensures OccursAt(a, pat, j)
  {
    assert (a + b)[j..j + |pat|] == a[j..j + |pat|];
  }

  /**
   * Python's `s.split(sep)` for a non-empty separator: cut at each occurrence of
   * `sep`, scanning left to right, occurrences not overlapping.
   */
  function SplitOn(s: string, sep: string): (parts: seq<string>)
    requires |sep| > 0
    decreases |s|
    ensures |parts| >= 1
  {
    match FindFrom(s, sep, 0)
    case None => [s]
    case Some(k) => [s[..k]] + SplitOn(s[k + |sep|..], sep)
  }

  /** No part that `SplitOn` returns contains the separator. */
  lemma {:induction false} SplitOnPartsFree(s: string, sep: string)
    requires |sep| > 0
    decreases |s|
    ensures forall k :: 0 <= k < |SplitOn(s, sep)| ==> Free(SplitOn(s, sep)[k], sep)
  {
    match FindFrom(s, sep, 0)
    case None =>
    case Some(k) =>
      var head := s[..k];
      var rest := s[k + |sep|..];
      assert Free(head, sep) by {
        forall j: nat | j <= |head| && OccursAt(head, sep, j)
          ensures false
        {
          assert s == head + s[k..];
          OccursInLonger(head, s[k..], sep, j);
        }
      }
      SplitOnPartsFree(rest, sep);
      var parts, tail := SplitOn(s, sep), SplitOn(rest, sep);
      assert parts == [head] + tail;
      forall i | 0 <= i < |parts|
        ensures Free(parts[i], sep)
      {
        if i > 0 {
          assert parts[i] == tail[i - 1];
        }
      }
  }

  /** Python's `sep.join(parts)`: the inverse of `SplitOn`. */
  function Join(parts: seq<string>, sep: string): string {
    if |parts| == 0 then ""
    else if |parts| == 1 then parts[0]
    else parts[0] + sep + Join(parts[1..], sep)
  }

  lemma JoinCons(head: string, tail: seq<string>, sep: string)
    requires |tail| >= 1
    ensures Join([head] + tail, sep) == head + sep + Join(tail, sep)
  {
    assert ([head] + tail)[1..] == tail;
  }

  lemma CutAround(s: string, k: nat, sep: string)
    requires OccursAt(s, sep, k)
    ensures s == s[..k] + sep + s[k + |sep|..]
  {
    assert s[k..] == s[k..k + |sep|] + s[k + |sep|..];
    assert s == s[..k] + s[k..];
  }

  /** Splitting and joining back gives the original text. */
  lemma {:induction false} JoinSplitOn(s: string, sep: string)
    requires |sep| > 0
    decreases |s|
    ensures Join(SplitOn(s, sep), sep) == s
  {
    match FindFrom(s, sep, 0)
    case None =>
    case Some(k) =>
      var head, rest := s[..k], s[k + |sep|..];
      var tail := SplitOn(rest, sep);
      assert SplitOn(s, sep) == [head] + tail;
      JoinSplitOn(rest, sep);
      JoinCons(head, tail, sep);
      CutAround(s, k, sep);
  }

  /**
   * A part "closes cleanly" under `sep` when no occurrence of `sep` starts inside it,
   * even with `sep` glued onto its end; then the next occurrence in the joined text
   * is exactly the separator that follows it.
   */
  predicate ClosesCleanly(part: string, sep: string)
    requires |sep| > 0
  {
    Free(part + sep[..|sep| - 1], sep)
  }

  /** Joining parts that close cleanly and splitting again gives back the parts. */
  lemma {:induction false} SplitOnJoin(parts: seq<string>, sep: string)
    requires |sep| > 0 && |parts| >= 1
    requires forall k :: 0 <= k < |parts| ==> ClosesCleanly(parts[k], sep)
    decreases |parts|
    ensures SplitOn(Join(parts, sep), sep) == parts
  {
    var p := parts[0];
    var glued := p + sep[..|sep| - 1];
    assert Free(glued, sep);
    if |parts| == 1 {
      forall j: nat | OccursAt(p, sep, j)
        ensures OccursAt(glued, sep, j)
      {
        OccursInLonger(p, sep[..|sep| - 1], sep, j);
      }
      assert FindFrom(p, sep, 0).None?;
    } else {
      var rest := Join(parts[1..], sep);
      var s := p + sep + rest;
      assert Join(parts, sep) == s;
      assert s[|p|..|p| + |sep|] == sep;
      assert OccursAt(s, sep, |p|);
      assert s == glued + ([sep[|sep| - 1]] + rest);
      forall j: nat | j < |p| && OccursAt(s, sep, j)
        ensures OccursAt(glued, sep, j)
      {
        OccursInShorter(glued, [sep[|sep| - 1]] + rest, sep, j);
      }
      assert FindFrom(s, sep, 0) == Some(|p|);
      assert s[..|p|] == p;
      assert s[|p| + |sep|..] == rest;
      SplitOnJoin(parts[1..], sep);
      assert SplitOn(s, sep) == [p] + parts[1..];
      assert parts == [p] + parts[1..];
    }
  }

  /**
   * `[x.strip() for x in parts if x.strip()]`: the stripped, non-blank members
   * of `parts`, in order.
   */
  function StrippedNonBlank(parts: seq<string>): (r: seq<string>)
    ensures |r| <= |parts|
    ensures forall k :: 0 <= k < |r| ==> r[k] != [] && Trimmed(r[k])
  {
    if parts == [] then []
    else
      var last := Strip(parts[|parts| - 1]);
      StrippedNonBlank(parts[..|parts| - 1]) + (if last == [] then [] else [last])
  }

  /** Parts that are already stripped and non-blank pass through unchanged. */
  lemma {:induction false} StrippedNonBlankKeeps(parts: seq<string>)
    requires forall k :: 0 <= k < |parts| ==> parts[k] != [] && Trimmed(parts[k])
    ensures StrippedNonBlank(parts) == parts
  {
    if parts != [] {
      var init, last := parts[..|parts| - 1], parts[|parts| - 1];
      forall k | 0 <= k < |init|
        ensures init[k] != [] && Trimmed(init[k])
      {
        assert init[k] == parts[k];
      }
      StrippedNonBlankKeeps(init);
      TrimmedStripIsIdentity(last);
      assert parts == init + [last];
    }
  }

  /** A single-character separator that never occurs in a part closes it cleanly. */
  lemma NoCharClosesCleanly(part: string, c: char)
    requires c !in part
    ensures ClosesCleanly(part, [c])
  {
    assert part + [c][..0] == part;
    forall j: nat | j <= |part|
      ensures !OccursAt(part, [c], j)
    {
      if j + 1 <= |part| {
        assert part[j..j + 1][0] == part[j];
      }
    }
  }

  /** Joining non-empty parts starts with the first part's first character and ends with the last's last. */
  lemma {:induction false} JoinEnds(parts: seq<string>, sep: string)
    requires |parts| >= 1 && forall k :: 0 <= k < |parts| ==> parts[k] != []
    decreases |parts|
    ensures var s := Join(parts, sep);
      |s| > 0 && s[0] == parts[0][0] && s[|s| - 1] == parts[|parts| - 1][|parts[|parts| - 1]| - 1]
  {
    if |parts| > 1 {
      var tail := parts[1..];
      forall k | 0 <= k < |tail|
        ensures tail[k] != []
      {
        assert tail[k] == parts[k + 1];
      }
      JoinEnds(tail, sep);
      var head, j := parts[0] + sep, Join(tail, sep);
      assert Join(parts, sep) == head + j;
      assert (head + j)[0] == parts[0][0];
      assert (head + j)[|head + j| - 1] == j[|j| - 1];
      assert tail[|tail| - 1] == parts[|parts| - 1];
    }
  }

  /** The characters of a join are those of its parts and of the separator. */
  lemma {:induction false} JoinChars(parts: seq<string>, sep: string, c: char)
    requires forall k :: 0 <= k < |parts| ==> c !in parts[k]
    requires c !in sep
    decreases |parts|
    ensures c !in Join(parts, sep)
  {
    if |parts| > 1 {
      JoinChars(parts[1..], sep, c);
    }
  }

  // ---------------------------------------------------------------- numbers

  function DigitValue(c: char): nat
    requires IsDigit(c)
  {
    (c as int) - ('0' as int)
  }

  function DigitChar(d: nat): (c: char)
    requires d < 10
    ensures IsDigit(c) && DigitValue(c) == d
  {
    (('0' as int) + d) as char
  }

  /** Python's `int()` of a run of ASCII decimal digits (leading zeros allowed). */
  function DigitsValue(s: string): nat
    requires DigitText(s)
  {
    if s == [] then 0 else DigitsValue(s[..|s| - 1]) * 10 + DigitValue(s[|s| - 1])
  }

  function Pow10(n: nat): (p: nat)
    ensures p >= 1
  {
    if n == 0 then 1 else 10 * Pow10(n - 1)
  }

  /** `n` written with exactly `width` digits, zero-padded on the left (`%04d`). */
  function PadDigits(n: nat, width: nat): (s: string)
    ensures |s| == width && DigitText(s)
  {
    if width == 0 then [] else PadDigits(n / 10, width - 1) + [DigitChar(n % 10)]
  }

  /** Zero-padding and reading back gives the number, when it fits in the width. */
  lemma {:induction false} PadDigitsValue(n: nat, width: nat)
    requires n < Pow10(width)
    ensures DigitsValue(PadDigits(n, width)) == n
  {
    if width > 0 {
      var s := PadDigits(n, width);
      assert s[..|s| - 1] == PadDigits(n / 10, width - 1);
      assert s[|s| - 1] == DigitChar(n % 10);
      assert n / 10 < Pow10(width - 1);
      PadDigitsValue(n / 10, width - 1);
      assert (n / 10) * 10 + n % 10 == n;
    }
  }

  /** Reading a digit run and padding it back to its width gives the run. */
  lemma {:induction false} DigitsValuePad(s: string)
    requires DigitText(s)
    ensures DigitsValue(s) < Pow10(|s|)
    ensures PadDigits(DigitsValue(s), |s|) == s
  {
    if s != [] {
      var init := s[..|s| - 1];
      DigitsValuePad(init);
      var v := DigitsValue(s);
      assert v / 10 == DigitsValue(init) && v % 10 == DigitValue(s[|s| - 1]);
      assert DigitChar(v % 10) == s[|s| - 1];
      assert init + [s[|s| - 1]] == s;
    }
  }

  /** The decimal notation of `n` without leading zeros (Python's `str(n)`). */
  function NatToString(n: nat): (s: string)
    ensures |s| >= 1 && DigitText(s)
  {
    if n < 10 then [DigitChar(n)] else NatToString(n / 10) + [DigitChar(n % 10)]
  }

  /** `n` takes at most `k` digits exactly when it is below `10^k`. */
  lemma {:induction false} NatToStringLength(n: nat, k: nat)
    requires k >= 1
    decreases n
    ensures |NatToString(n)| <= k <==> n < Pow10(k)
  {
    assert Pow10(k) == 10 * Pow10(k - 1);
    if n >= 10 {
      assert |NatToString(n)| == |NatToString(n / 10)| + 1;
      if k > 1 {
        NatToStringLength(n / 10, k - 1);
      }
    }
  }

  lemma {:induction false} NatToStringValue(n: nat)
    ensures DigitsValue(NatToString(n)) == n
  {
    var s := NatToString(n);
    if n >= 10 {
      assert s[..|s| - 1] == NatToString(n / 10);
      NatToStringValue(n / 10);
    } else {
      assert s[..0] == [];
    }
  }
}
