/** Byte and C-string helpers shared by the AX.25 codec and the digipeater.

    A C string is modelled by its content: the bytes before its terminating
    NUL. Library routines the source calls (strpbrk, strchr, atoi, printf's
    "%u", strlen on a buffer) are stated here as functions. */
module Bytes {

  datatype Option<+T> = None | Some(value: T)

  /** True when `s` can be the content of a C string. */
  predicate NoNul(s: seq<bv8>) {
    forall i :: 0 <= i < |s| ==> s[i] != 0
  }

  /** isdigit, isalnum and isspace in the "C" locale. */
  predicate IsDigit(c: bv8) { 0x30 <= c <= 0x39 }

  predicate IsAlnum(c: bv8) {
    IsDigit(c) || 0x41 <= c <= 0x5A || 0x61 <= c <= 0x7A
  }

  predicate IsSpace(c: bv8) { c == 0x20 || 0x09 <= c <= 0x0D }

  /** The C string held in a buffer: every byte before the first NUL. */
  function TakeUntilNul(s: seq<bv8>): (r: seq<bv8>)
    ensures |r| <= |s|
  {
    if |s| == 0 || s[0] == 0 then [] else [s[0]] + TakeUntilNul(s[1..])
  }

  /** The C string is a NUL-free prefix of the buffer, cut at its first NUL. */
  lemma {:induction false} TakeUntilNulPrefix(s: seq<bv8>)
    ensures NoNul(TakeUntilNul(s)) && TakeUntilNul(s) <= s
    ensures |TakeUntilNul(s)| < |s| ==> s[|TakeUntilNul(s)|] == 0
  {
    if |s| > 0 && s[0] != 0 {
      TakeUntilNulPrefix(s[1..]);
    }
  }

  lemma {:induction false} TakeUntilNulOfNoNul(s: seq<bv8>, rest: seq<bv8>)
    requires NoNul(s)
    requires rest == [] || rest[0] == 0
    ensures TakeUntilNul(s + rest) == s
  {
    if |s| > 0 {
      assert (s + rest)[1..] == s[1..] + rest;
      TakeUntilNulOfNoNul(s[1..], rest);
    }
  }

  /** Index of the first byte at or after `from` that belongs to `cs`, the way
      strpbrk (and strchr, for a one-byte set) finds it in a C string. */
  function FindAny(s: seq<bv8>, from: nat, cs: set<bv8>): (r: Option<nat>)
    ensures r.Some? ==> from <= r.value < |s| && s[r.value] in cs
    decreases |s| - from
  {
    if from >= |s| then None
    else if s[from] in cs then Some(from)
    else FindAny(s, from + 1, cs)
  }

  /** FindAny finds the first such byte: none before it, and none at all when
      it finds nothing. */
  lemma {:induction false} FindAnyFirst(s: seq<bv8>, from: nat, cs: set<bv8>)
    ensures var r := FindAny(s, from, cs);
      forall k :: from <= k < (if r.Some? then r.value else |s|) ==> s[k] !in cs
    decreases |s| - from
  {
    if from < |s| && s[from] !in cs {
      FindAnyFirst(s, from + 1, cs);
    }
  }

  /** A search that skips a prefix free of `cs` lands in what follows it. */
  lemma {:induction false} FindAnySkip(x: seq<bv8>, y: seq<bv8>, from: nat, cs: set<bv8>)
    requires from <= |x|
    requires forall k :: from <= k < |x| ==> x[k] !in cs
    ensures FindAny(x + y, from, cs) ==
            (match FindAny(y, 0, cs)
             case None => None
             case Some(q) => Some(|x| + q))
    decreases |x| - from
  {
    if from < |x| {
      assert (x + y)[from] == x[from];
      FindAnySkip(x, y, from + 1, cs);
    } else {
      FindAnyShift(x, y, 0, cs);
    }
  }

  lemma {:induction false} FindAnyShift(x: seq<bv8>, y: seq<bv8>, j: nat, cs: set<bv8>)
    ensures FindAny(x + y, |x| + j, cs) ==
            (match FindAny(y, j, cs)
             case None => None
             case Some(q) => Some(|x| + q))
    decreases |y| - j
  {
    if j < |y| {
      assert (x + y)[|x| + j] == y[j];
      FindAnyShift(x, y, j + 1, cs);
    }
  }

  /** A sequence whose tail from `k` is `[v] + r` holds `v` at `k`. */
  lemma {:induction false} DropCons(x: seq<bv8>, k: nat, v: bv8, r: seq<bv8>)
    requires k < |x| && x[k..] == [v] + r
    ensures x[k] == v && x[k + 1..] == r
  {
    assert x[k] == x[k..][0];
    assert x[k + 1..] == x[k..][1..];
  }

  /** `x` written over `buf` from offset `off` on. */
  function Put(buf: seq<bv8>, off: nat, x: seq<bv8>): (r: seq<bv8>)
    requires off + |x| <= |buf|
    ensures |r| == |buf|
  {
    buf[..off] + x + buf[off + |x|..]
  }

  /** What Put leaves in each byte. */
  lemma {:induction false} PutAt(buf: seq<bv8>, off: nat, x: seq<bv8>)
    requires off + |x| <= |buf|
    ensures forall j :: 0 <= j < off ==> Put(buf, off, x)[j] == buf[j]
    ensures forall j :: 0 <= j < |x| ==> Put(buf, off, x)[off + j] == x[j]
    ensures forall j :: off + |x| <= j < |buf| ==> Put(buf, off, x)[j] == buf[j]
  {
  }

  /** A buffer that holds `x` at `off` and `buf` everywhere else is Put's. */
  lemma {:induction false} PutIs(buf: seq<bv8>, off: nat, x: seq<bv8>, r: seq<bv8>)
    requires off + |x| <= |buf| == |r|
    requires forall j :: 0 <= j < |x| ==> r[off + j] == x[j]
    requires forall j :: 0 <= j < |buf| && !(off <= j < off + |x|) ==> r[j] == buf[j]
    ensures r == Put(buf, off, x)
  {
    PutAt(buf, off, x);
  }

  /** Writing one more byte of `x` extends the written prefix by one. */
  lemma {:induction false} PutStep(buf: seq<bv8>, off: nat, x: seq<bv8>, k: nat)
    requires off + |x| <= |buf| && k < |x|
    ensures Put(buf, off, x[..k + 1]) == Put(buf, off, x[..k])[off + k := x[k]]
  {
    PutAt(buf, off, x[..k]);
    PutAt(buf, off, x[..k + 1]);
  }

  /** Two writes side by side are one write of both. */
  lemma {:induction false} PutPut(buf: seq<bv8>, off: nat, x: seq<bv8>, y: seq<bv8>)
    requires off + |x| + |y| <= |buf|
    ensures Put(Put(buf, off, x), off + |x|, y) == Put(buf, off, x + y)
  {
    var e := off + |x|;
    var p := Put(buf, off, x);
    assert p == (buf[..off] + x) + buf[e..];
    assert p[..e] == buf[..off] + x;
    assert p[e + |y|..] == buf[e..][|y|..];
    assert buf[e..][|y|..] == buf[e + |y|..];
  }

  /** A write that covers an earlier one at the same offset hides it. */
  lemma {:induction false} PutCover(buf: seq<bv8>, off: nat, w: seq<bv8>, v: seq<bv8>)
    requires |w| <= |v| && off + |v| <= |buf|
    ensures Put(Put(buf, off, w), off, v) == Put(buf, off, v)
  {
    var p := Put(buf, off, w);
    assert p[..off] == buf[..off];
    assert p[off + |v|..] == buf[off + |v|..];
  }

  /** Writing `v` right after `x`, over what followed `x`, is writing `x + v`. */
  lemma {:induction false} PutOver(buf: seq<bv8>, off: nat, x: seq<bv8>, w: seq<bv8>, v: seq<bv8>)
    requires |w| <= |v| && off + |x| + |v| <= |buf|
    ensures Put(Put(buf, off, x + w), off + |x|, v) == Put(buf, off, x + v)
  {
    PutPut(buf, off, x, w);
    PutCover(Put(buf, off, x), off + |x|, w, v);
    PutPut(buf, off, x, v);
  }

  /** The ASCII code of the decimal digit `d`. */
  function DigitChar(d: nat): (c: bv8)
    requires d < 10
    ensures IsDigit(c) && (c - 0x30) as nat == d
  {
    match d
    case 0 => 0x30 case 1 => 0x31 case 2 => 0x32 case 3 => 0x33 case 4 => 0x34
    case 5 => 0x35 case 6 => 0x36 case 7 => 0x37 case 8 => 0x38 case _ => 0x39
  }

  /** The text printf's "%u" gives for `n`. */
  function Dec(n: nat): (r: seq<bv8>)
    ensures 1 <= |r|
    ensures n < 10 ==> |r| == 1
    ensures n < 100 ==> |r| <= 2
    ensures n < 1000 ==> |r| <= 3
    ensures n < 10000 ==> |r| <= 4
    ensures n < 100000 ==> |r| <= 5
  {
    if n < 10 then [DigitChar(n)] else Dec(n / 10) + [DigitChar(n % 10)]
  }

  /** Every byte of "%u"'s text is a decimal digit. */
  lemma {:induction false} DecDigits(n: nat)
    ensures forall i :: 0 <= i < |Dec(n)| ==> IsDigit(Dec(n)[i])
  {
    if n >= 10 {
      DecDigits(n / 10);
      assert Dec(n) == Dec(n / 10) + [DigitChar(n % 10)];
    }
  }

  /** atoi's digit loop from index `i` on: each decimal digit is added to
      the accumulator times ten, up to the first byte that is not a digit. */
  function Digits(s: seq<bv8>, i: nat, acc: nat): nat
    decreases |s| - i
  {
    if i < |s| && IsDigit(s[i]) then Digits(s, i + 1, acc * 10 + (s[i] - 0x30) as nat)
    else acc
  }

  /** Reading a run of digits and then what follows is reading on from the
      value of the run. */
  lemma {:induction false} DigitsPrefix(s: seq<bv8>, i: nat, m: nat, acc: nat)
    requires i <= m <= |s|
    requires forall k :: i <= k < m ==> IsDigit(s[k])
    ensures Digits(s, i, acc) == Digits(s, m, Digits(s[..m], i, acc))
    decreases m - i
  {
    if i < m {
      assert s[..m][i] == s[i];
      DigitsPrefix(s, i + 1, m, acc * 10 + (s[i] - 0x30) as nat);
    }
  }

  /** Digits reads the same bytes wherever they sit. */
  lemma {:induction false} DigitsShift(x: seq<bv8>, y: seq<bv8>, j: nat, acc: nat)
    ensures Digits(x + y, |x| + j, acc) == Digits(y, j, acc)
    decreases |y| - j
  {
    if j < |y| {
      assert (x + y)[|x| + j] == y[j];
      DigitsShift(x, y, j + 1, acc * 10 + (y[j] - 0x30) as nat);
    }
  }

  /** Reading back what printf's "%u" wrote gives the number again. */
  lemma {:induction false} DigitsDec(n: nat)
    ensures Digits(Dec(n), 0, 0) == n
  {
    if n >= 10 {
      var s := Dec(n);
      var m := |Dec(n / 10)|;
      assert s == Dec(n / 10) + [DigitChar(n % 10)];
      DecDigits(n / 10);
      DigitsPrefix(s, 0, m, 0);
      assert s[..m] == Dec(n / 10);
      DigitsDec(n / 10);
      assert s[m] == DigitChar(n % 10);
    }
  }

  /** Index of the first byte of `s` that isspace rejects. */
  function SkipSpaces(s: seq<bv8>, i: nat): (r: nat)
    requires i <= |s|
    ensures i <= r <= |s|
    ensures r < |s| ==> !IsSpace(s[r])
    decreases |s| - i
  {
    if i < |s| && IsSpace(s[i]) then SkipSpaces(s, i + 1) else i
  }

  lemma {:induction false} SkipSpacesShift(x: seq<bv8>, y: seq<bv8>, j: nat)
    requires j <= |y|
    ensures SkipSpaces(x + y, |x| + j) == |x| + SkipSpaces(y, j)
    decreases |y| - j
  {
    if j < |y| {
      assert (x + y)[|x| + j] == y[j];
      if IsSpace(y[j]) {
        SkipSpacesShift(x, y, j + 1);
      }
    }
  }

  /** atoi on the C string that starts at index `i`: leading white space, an
      optional sign, then decimal digits. The 16-bit `int` of the target can
      overflow; the callers only use the value modulo 16, which that
      wrap-around does not change, so it is not modelled. */
  function Atoi(s: seq<bv8>, i: nat): int
    requires i <= |s|
  {
    var k := SkipSpaces(s, i);
    var neg := k < |s| && s[k] == 0x2D;
    var j := if k < |s| && (s[k] == 0x2D || s[k] == 0x2B) then k + 1 else k;
    var v: int := Digits(s, j, 0);
    if neg then -v else v
  }

  /** atoi reads the same text wherever it sits. */
  lemma {:induction false} AtoiShift(x: seq<bv8>, y: seq<bv8>, j: nat)
    requires j <= |y|
    ensures Atoi(x + y, |x| + j) == Atoi(y, j)
  {
    SkipSpacesShift(x, y, j);
    var k := SkipSpaces(y, j);
    if k < |y| {
      assert (x + y)[|x| + k] == y[k];
    }
    DigitsShift(x, y, k, 0);
    DigitsShift(x, y, k + 1, 0);
  }

  /** atoi reads back what "%u" wrote, up to the first non-digit. */
  lemma {:induction false} AtoiDec(n: nat, rest: seq<bv8>)
    requires rest == [] || !IsDigit(rest[0])
    ensures Atoi(Dec(n) + rest, 0) == n
  {
    var s := Dec(n) + rest;
    var m := |Dec(n)|;
    DecDigits(n);
    assert s[0] == Dec(n)[0];
    assert SkipSpaces(s, 0) == 0;
    DigitsPrefix(s, 0, m, 0);
    assert s[..m] == Dec(n);
    DigitsDec(n);
    if rest != [] {
      assert s[m] == rest[0];
    }
  }

  /** One step of a decimal accumulator kept modulo 2^16 (the target's
      16-bit `int`) agrees with the exact value taken modulo 2^16. */
  lemma {:induction false} ModStep(v: nat, x: nat)
    ensures ((v % 0x1_0000) * 10 + x) % 0x1_0000 == (v * 10 + x) % 0x1_0000
  {
    var q, r := v / 0x1_0000, v % 0x1_0000;
    assert v * 10 + x == (q * 10) * 0x1_0000 + (r * 10 + x);
  }
}
