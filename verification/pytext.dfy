/**
 * The pieces of Python's `str` behaviour the model relies on:
 * substring test, `find`, `replace`, `str(int)` and `zfill`.
 */
module PyText {
  import opened Wrappers

  /** `pat` occurs in `s` starting at index `i`. */
  predicate StartsAt(s: string, pat: string, i: int) {
    0 <= i && i + |pat| <= |s| && s[i..i + |pat|] == pat
  }

  /** Python's `pat in s` (the empty string occurs in every string). */
  predicate Contains(s: string, pat: string) {
    exists i | 0 <= i <= |s| :: StartsAt(s, pat, i)
  }

  /** `s.find(pat, from)`: the first occurrence at or after `from`. */
  function FindFrom(s: string, pat: string, from: nat): (r: Option<nat>)
    decreases |s| + 1 - from
    ensures r.Some? ==> from <= r.value && StartsAt(s, pat, r.value)
    ensures r.Some? ==> forall j :: from <= j < r.value ==> !StartsAt(s, pat, j)
    ensures r.None? ==> forall j :: from <= j ==> !StartsAt(s, pat, j)
  {
    if from > |s| then None
    else if StartsAt(s, pat, from) then Some(from)
    else FindFrom(s, pat, from + 1)
  }

  /**
   * `s.replace(pat, rep)` for a non-empty `pat`: find the leftmost
   * occurrence, copy what precedes it, emit `rep`, continue after it.
   */
  function Replace(s: string, pat: string, rep: string): (r: string)
    requires |pat| > 0
    decreases |s|
    ensures !Contains(s, pat) ==> r == s
    ensures |rep| == 0 ==> |r| <= |s|
    ensures |rep| == 0 && Contains(s, pat) ==> |r| <= |s| - |pat|
  {
    match FindFrom(s, pat, 0)
    case None => s
    case Some(i) => s[..i] + rep + Replace(s[i + |pat|..], pat, rep)
  }

  /**
   * Reference reading of `replace`: walk the string left to right, and
   * wherever `pat` starts, emit `rep` and jump over the occurrence.
   */
  function ScanReplace(s: string, pat: string, rep: string): string
    requires |pat| > 0
    decreases |s|
  {
    if |s| == 0 then ""
    else if StartsAt(s, pat, 0) then rep + ScanReplace(s[|pat|..], pat, rep)
    else [s[0]] + ScanReplace(s[1..], pat, rep)
  }

  lemma {:induction false} ScanPlainPrefix(s: string, pat: string, rep: string, k: nat)
    requires |pat| > 0 && k <= |s|
    requires forall j :: 0 <= j < k ==> !StartsAt(s, pat, j)
    ensures ScanReplace(s, pat, rep) == s[..k] + ScanReplace(s[k..], pat, rep)
    decreases k
  {
    if k > 0 {
      assert !StartsAt(s, pat, 0);
      var t := s[1..];
      forall j | 0 <= j < k - 1 ensures !StartsAt(t, pat, j) {
        assert !StartsAt(s, pat, j + 1);
        if j + |pat| <= |t| {
          assert t[j..j + |pat|] == s[j + 1..j + 1 + |pat|];
        }
      }
      ScanPlainPrefix(t, pat, rep, k - 1);
      assert t[k - 1..] == s[k..];
      assert s[..k] == [s[0]] + t[..k - 1];
    }
  }

  /** The find-based `replace` and the left-to-right scan agree on every input. */
  lemma {:induction false} ReplaceIsScan(s: string, pat: string, rep: string)
    requires |pat| > 0
    ensures Replace(s, pat, rep) == ScanReplace(s, pat, rep)
    decreases |s|
  {
    match FindFrom(s, pat, 0)
    case None =>
      ScanPlainPrefix(s, pat, rep, |s|);
      assert s[..|s|] == s;
    case Some(i) =>
      ScanPlainPrefix(s, pat, rep, i);
      var t := s[i..];
      assert StartsAt(t, pat, 0) by {
        assert t[..|pat|] == s[i..i + |pat|];
      }
      assert t[|pat|..] == s[i + |pat|..];
      ReplaceIsScan(s[i + |pat|..], pat, rep);
  }

  /**
   * With its first occurrence right after `a` and none in `b`, `pat` is
   * replaced exactly once.
   */
  lemma ReplaceOnce(a: string, pat: string, rep: string, b: string)
    requires |pat| > 0
    requires forall j :: 0 <= j < |a| ==> !StartsAt(a + pat + b, pat, j)
    requires !Contains(b, pat)
    ensures Replace(a + pat + b, pat, rep) == a + rep + b
  {
    var s := a + pat + b;
    assert StartsAt(s, pat, |a|) by {
      assert s[|a|..|a| + |pat|] == pat;
    }
    assert FindFrom(s, pat, 0) == Some(|a|);
    assert s[..|a|] == a;
    assert s[|a| + |pat|..] == b;
  }

  predicate IsDigit(c: char) {
    '0' <= c <= '9'
  }

  predicate AllDigits(s: string) {
    forall i :: 0 <= i < |s| ==> IsDigit(s[i])
  }

  function DigitChar(d: nat): (c: char)
    requires d < 10
    ensures IsDigit(c)
  {
    "0123456789"[d]
  }

  /** The number a string of decimal digits denotes. */
  function DecimalValue(s: string): nat
    requires AllDigits(s)
    decreases |s|
  {
    if |s| == 0 then 0
    else DecimalValue(s[..|s| - 1]) * 10 + ((s[|s| - 1] as int) - ('0' as int))
  }

  /** `str(n)` for a natural number: its decimal digits, no leading zero. */
  function NatToStr(n: nat): (r: string)
    decreases n
    ensures |r| >= 1 && AllDigits(r)
    ensures DecimalValue(r) == n
    ensures n < 10 <==> |r| == 1
    ensures |r| == 1 || r[0] != '0'
  {
    if n < 10 then [DigitChar(n)]
    else
      var r := NatToStr(n / 10) + [DigitChar(n % 10)];
      assert r[..|r| - 1] == NatToStr(n / 10);
      r
  }

  /** `str(n)` for any integer. */
  function IntToStr(n: int): string {
    if n < 0 then "-" + NatToStr(-n) else NatToStr(n)
  }

  function Zeros(n: nat): (r: string)
    ensures |r| == n && AllDigits(r)
  {
    seq(n, _ => '0')
  }

  /** `s.zfill(width)`: pad with zeros on the left, after any sign. */
  function ZFill(s: string, width: int): (r: string)
    ensures |r| == if |s| >= width then |s| else width
    ensures |s| >= width ==> r == s
    ensures |s| > 0 && |s| < width && (s[0] == '+' || s[0] == '-') ==> r[0] == s[0] && r[|r| - |s| + 1..] == s[1..]
    ensures !(|s| > 0 && (s[0] == '+' || s[0] == '-')) ==> r[|r| - |s|..] == s
    ensures !(|s| > 0 && (s[0] == '+' || s[0] == '-')) ==> forall i :: 0 <= i < |r| - |s| ==> r[i] == '0'
    ensures |s| > 0 && (s[0] == '+' || s[0] == '-') ==> forall i :: 1 <= i <= |r| - |s| ==> r[i] == '0'
  {
    if |s| >= width then s
    else if |s| > 0 && (s[0] == '+' || s[0] == '-') then [s[0]] + Zeros(width - |s|) + s[1..]
    else Zeros(width - |s|) + s
  }

  lemma {:induction false} LeadingZeros(n: nat, s: string)
    requires AllDigits(s)
    ensures AllDigits(Zeros(n) + s)
    ensures DecimalValue(Zeros(n) + s) == DecimalValue(s)
    decreases |s|
  {
    var z := Zeros(n) + s;
    if |s| == 0 {
      ZerosValue(n);
      assert z == Zeros(n);
    } else {
      LeadingZeros(n, s[..|s| - 1]);
      assert z[..|z| - 1] == Zeros(n) + s[..|s| - 1];
    }
  }

  lemma {:induction false} ZerosValue(n: nat)
    ensures DecimalValue(Zeros(n)) == 0
    decreases n
  {
    if n > 0 {
      ZerosValue(n - 1);
      assert Zeros(n)[..n - 1] == Zeros(n - 1);
    }
  }

  /**
   * Zero-padding a natural number keeps its value: the padded text is all
   * digits, at least `width` long, and still denotes `n`.
   */
  lemma ZFillNat(n: nat, width: int)
    ensures AllDigits(ZFill(IntToStr(n), width))
    ensures |ZFill(IntToStr(n), width)| == if width > |NatToStr(n)| then width else |NatToStr(n)|
    ensures DecimalValue(ZFill(IntToStr(n), width)) == n
  {
    var s := NatToStr(n);
    assert IntToStr(n) == s;
    if |s| < width {
      assert IsDigit(s[0]);
      assert ZFill(s, width) == Zeros(width - |s|) + s;
      LeadingZeros(width - |s|, s);
    }
  }

  /** Two-digit padding: `n` below 100 renders as exactly its tens and units digits. */
  lemma ZFillTwoDigits(n: nat)
    requires n < 100
    ensures ZFill(IntToStr(n), 2) == [DigitChar(n / 10), DigitChar(n % 10)]
  {
    if n >= 10 {
      assert NatToStr(n / 10) == [DigitChar(n / 10)];
    }
  }

  /** `sep.join(parts)`. */
  function Join(parts: seq<string>, sep: string): string {
    if |parts| == 0 then ""
    else if |parts| == 1 then parts[0]
    else Join(parts[..|parts| - 1], sep) + sep + parts[|parts| - 1]
  }
}
