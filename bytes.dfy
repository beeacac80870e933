/**
 * Big-endian unsigned arithmetic on byte arrays: the helpers `expand`,
 * `inc`, `inc(bytes, value)`, `lt` and bounded `lt` of the utility class
 * Bytes, as BytesTest asserts them and as the proof-of-work search uses them.
 * A byte is read as an unsigned value 0..255 throughout.
 */
module Bytes {

  type Byte = b: int | 0 <= b < 256

  /** 256^n: the number of distinct values an n-byte array holds. */
  function Pow256(n: nat): (r: nat)
    ensures r >= 1
  {
    if n == 0 then 1 else 256 * Pow256(n - 1)
  }

  /** The unsigned number denoted by the big-endian byte sequence s. */
  function ToNat(s: seq<Byte>): (r: nat)
    ensures r < Pow256(|s|)
  {
    if |s| == 0 then 0 else ToNat(s[..|s| - 1]) * 256 + s[|s| - 1]
  }

  /** The n-byte big-endian encoding of x modulo 256^n (a Java byte[n] holding x). */
  function FromNat(x: nat, n: nat): (r: seq<Byte>)
    ensures |r| == n
  {
    if n == 0 then [] else FromNat(x / 256, n - 1) + [x % 256]
  }

  function Zeros(n: nat): (r: seq<Byte>)
    ensures |r| == n && forall i :: 0 <= i < n ==> r[i] == 0
  {
    seq(n, _ => 0)
  }

  function Ones(n: nat): (r: seq<Byte>)
    ensures |r| == n && forall i :: 0 <= i < n ==> r[i] == 255
  {
    seq(n, _ => 255)
  }

  // ---------------------------------------------------------------------
  // Arithmetic facts
  // ---------------------------------------------------------------------

  lemma MulMonoStrict(k: int, d: int)
    requires k >= 1 && d > 0
    ensures k * d >= d
  {
    assert k * d == (k - 1) * d + d;
  }

  lemma DivModUnique(x: int, d: int, q: int, r: int)
    requires d > 0 && 0 <= r < d && x == q * d + r
    ensures x / d == q && x % d == r
  {
    var q', r' := x / d, x % d;
    assert q' * d + r' == q * d + r;
    if q' > q {
      assert (q' - q) * d == r - r';
      MulMonoStrict(q' - q, d);
      assert false;
    } else if q' < q {
      assert (q - q') * d == r' - r;
      MulMonoStrict(q - q', d);
      assert false;
    }
  }

  /** x modulo 256p, computed from x's low byte and the rest modulo p. */
  lemma ShiftMod(x: int, p: int)
    requires x >= 0 && p > 0
    ensures x % (256 * p) == ((x / 256) % p) * 256 + x % 256
  {
    var q, r := x / 256, x % 256;
    assert x == q * 256 + r;
    assert q == (q / p) * p + q % p;
    assert x == (q / p) * (256 * p) + ((q % p) * 256 + r);
    DivModUnique(x, 256 * p, q / p, (q % p) * 256 + r);
  }

  lemma ShiftStep(a: int, p: int, b: int, c: int)
    ensures (a * p + b) * 256 + c == a * (256 * p) + (b * 256 + c)
  {
  }

  lemma LeadingDom(x: int, y: int, p: int, ra: int, rb: int)
    requires 0 <= x < y && 0 <= ra < p && 0 <= rb
    ensures x * p + ra < y * p + rb
  {
    MulMonoStrict(y - x, p);
    assert y * p == x * p + (y - x) * p;
  }

  lemma Pow256Add(m: nat, n: nat)
    ensures Pow256(m + n) == Pow256(m) * Pow256(n)
  {
    if m > 0 {
      Pow256Add(m - 1, n);
      assert Pow256(m + n) == 256 * Pow256(m - 1 + n);
    }
  }

  lemma Pow256Mono(m: nat, n: nat)
    requires m <= n
    ensures Pow256(m) <= Pow256(n)
  {
    Pow256Add(m, n - m);
    assert Pow256(n) == Pow256(m) * Pow256(n - m);
  }

  // ---------------------------------------------------------------------
  // Sequence facts, stated once so that callers need not re-prove them
  // ---------------------------------------------------------------------

  lemma ConcatAssoc(a: seq<Byte>, b: seq<Byte>, c: seq<Byte>)
    ensures a + b + c == a + (b + c)
  {
  }

  lemma DropPrefix(a: seq<Byte>, b: seq<Byte>)
    ensures (a + b)[|a|..] == b
  {
  }

  lemma TakePrefix(a: seq<Byte>, b: seq<Byte>)
    ensures (a + b)[..|a|] == a
  {
  }

  lemma AppendEmpty(a: seq<Byte>)
    ensures a + [] == a
  {
  }

  lemma DropDrop(s: seq<Byte>, p: nat, k: nat)
    requires p + k <= |s|
    ensures s[p..][k..] == s[p + k..]
  {
  }

  lemma TakeDrop(s: seq<Byte>, p: nat, k: nat)
    requires p + k <= |s|
    ensures s[p..][..k] == s[p..p + k]
  {
  }

  lemma DropNothing(s: seq<Byte>)
    ensures s[0..] == s
  {
  }

  lemma SliceOfDrop(s: seq<Byte>, p: nat, i: nat, j: nat)
    requires i <= j && p + j <= |s|
    ensures s[p..][i..j] == s[p + i..p + j]
  {
  }

  lemma SliceSnoc(s: seq<Byte>, a: nat, p: nat)
    requires a <= p < |s|
    ensures s[a..p + 1] == s[a..p] + [s[p]]
  {
  }

  lemma PrefixSnoc(s: seq<Byte>, p: nat)
    requires p < |s|
    ensures s[..p + 1] == s[..p] + [s[p]]
  {
  }

  // ---------------------------------------------------------------------
  // Value of a sequence: splitting, round trips
  // ---------------------------------------------------------------------

  /** Splitting a big-endian number: the high part is shifted by the width of the low part. */
  lemma {:induction false} ToNatAppend(p: seq<Byte>, q: seq<Byte>)
    ensures ToNat(p + q) == ToNat(p) * Pow256(|q|) + ToNat(q)
  {
    if |q| > 0 {
      var q' := q[..|q| - 1];
      assert (p + q)[..|p + q| - 1] == p + q';
      ToNatAppend(p, q');
      assert ToNat(p + q) == (ToNat(p) * Pow256(|q'|) + ToNat(q')) * 256 + q[|q| - 1];
      ShiftStep(ToNat(p), Pow256(|q'|), ToNat(q'), q[|q| - 1]);
    } else {
      assert p + q == p;
    }
  }

  /** The leading byte weighs 256^(n-1). */
  lemma ToNatCons(s: seq<Byte>)
    requires |s| > 0
    ensures ToNat(s) == s[0] * Pow256(|s| - 1) + ToNat(s[1..])
  {
    assert s == [s[0]] + s[1..];
    ToNatAppend([s[0]], s[1..]);
    assert ToNat([s[0]]) == s[0] by { assert [s[0]][..0] == []; }
  }

  lemma {:induction false} ToNatZeros(n: nat)
    ensures ToNat(Zeros(n)) == 0
  {
    if n > 0 {
      assert Zeros(n)[..n - 1] == Zeros(n - 1);
      ToNatZeros(n - 1);
    }
  }

  lemma {:induction false} ToNatOnes(n: nat)
    ensures ToNat(Ones(n)) == Pow256(n) - 1
  {
    if n > 0 {
      assert Ones(n)[..n - 1] == Ones(n - 1);
      ToNatOnes(n - 1);
    }
  }

  /** Decoding the fixed-width encoding recovers the number modulo 256^n. */
  lemma {:induction false} ToNatFromNat(x: nat, n: nat)
    ensures ToNat(FromNat(x, n)) == x % Pow256(n)
  {
    if n > 0 {
      var s := FromNat(x, n);
      assert s[..n - 1] == FromNat(x / 256, n - 1);
      ToNatFromNat(x / 256, n - 1);
      ShiftMod(x, Pow256(n - 1));
    }
  }

  /** Encoding the value of an n-byte sequence with width n gives the sequence back. */
  lemma {:induction false} FromNatToNat(s: seq<Byte>)
    ensures FromNat(ToNat(s), |s|) == s
  {
    if |s| > 0 {
      var n := |s|;
      var t := ToNat(s[..n - 1]);
      DivModUnique(ToNat(s), 256, t, s[n - 1]);
      FromNatToNat(s[..n - 1]);
      assert s == s[..n - 1] + [s[n - 1]];
    }
  }

  /** The encoding only depends on the value modulo 256^n. */
  lemma FromNatMod(x: nat, n: nat)
    ensures FromNat(x, n) == FromNat(x % Pow256(n), n)
  {
    ToNatFromNat(x, n);
    FromNatToNat(FromNat(x, n));
  }

  /** Incrementing the encoding of x gives the encoding of x + 1 (wrapping at 256^n). */
  lemma {:induction false} FromNatSucc(x: nat, n: nat)
    ensures FromNat(ToNat(FromNat(x, n)) + 1, n) == FromNat(x + 1, n)
  {
    var p := Pow256(n);
    var q, r := x / p, x % p;
    assert x == q * p + r;
    ToNatFromNat(x, n);
    assert ToNat(FromNat(x, n)) == r;
    SuccMod(x, p);
    assert (r + 1) % p == (x + 1) % p;
    FromNatMod(r + 1, n);
    FromNatMod(x + 1, n);
  }

  lemma SuccMod(x: nat, p: nat)
    requires p > 0
    ensures (x % p + 1) % p == (x + 1) % p
  {
    var q, r := x / p, x % p;
    assert x == q * p + r;
    if r + 1 < p {
      DivModUnique(x + 1, p, q, r + 1);
      DivModUnique(r + 1, p, 0, r + 1);
    } else {
      assert x + 1 == (q + 1) * p + 0;
      DivModUnique(x + 1, p, q + 1, 0);
      DivModUnique(r + 1, p, 1, 0);
    }
  }

  /** Equal width and equal value means equal bytes. */
  lemma ToNatInjective(s: seq<Byte>, t: seq<Byte>)
    requires |s| == |t| && ToNat(s) == ToNat(t)
    ensures s == t
  {
    FromNatToNat(s);
    FromNatToNat(t);
  }

  // ---------------------------------------------------------------------
  // expand
  // ---------------------------------------------------------------------

  /** Bytes.expand: left-pads with zero bytes to the requested size. */
  function Expand(s: seq<Byte>, size: nat): (r: seq<Byte>)
    requires |s| <= size
    ensures |r| == size && r[size - |s|..] == s
    ensures forall i :: 0 <= i < size - |s| ==> r[i] == 0
    ensures ToNat(r) == ToNat(s)
  {
    ToNatAppend(Zeros(size - |s|), s);
    ToNatZeros(size - |s|);
    Zeros(size - |s|) + s
  }

  // ---------------------------------------------------------------------
  // lt and bounded lt
  // ---------------------------------------------------------------------

  /** Lexicographic strict comparison of equal-length arrays, bytes unsigned. */
  function LexLt(a: seq<Byte>, b: seq<Byte>): bool
    requires |a| == |b|
  {
    if |a| == 0 then false
    else if a[0] != b[0] then a[0] < b[0]
    else LexLt(a[1..], b[1..])
  }

  /**
   * Bytes.lt(a, b): unsigned comparison of two big-endian numbers whose
   * arrays may differ in length; the longer one's extra leading bytes
   * decide unless they are zero.
   */
  function Lt(a: seq<Byte>, b: seq<Byte>): bool
    decreases |a| + |b|
  {
    if |a| > |b| then
      if a[0] != 0 then false else Lt(a[1..], b)
    else if |a| < |b| then
      if b[0] != 0 then true else Lt(a, b[1..])
    else
      LexLt(a, b)
  }

  /** Bytes.lt(a, b, size): compares only the leading size bytes of a and b. */
  function LtBounded(a: seq<Byte>, b: seq<Byte>, size: nat): bool
    requires size <= |a| && size <= |b|
  {
    LexLt(a[..size], b[..size])
  }

  lemma LeadingByteDominates(a: seq<Byte>, b: seq<Byte>)
    requires |a| == |b| > 0 && a[0] < b[0]
    ensures ToNat(a) < ToNat(b)
  {
    var p := Pow256(|a| - 1);
    ToNatCons(a);
    ToNatCons(b);
    LeadingDom(a[0], b[0], p, ToNat(a[1..]), ToNat(b[1..]));
  }

  /** Lexicographic order on equal-width arrays is numeric order. */
  lemma {:induction false} LexLtIsNumericLt(a: seq<Byte>, b: seq<Byte>)
    requires |a| == |b|
    ensures LexLt(a, b) <==> ToNat(a) < ToNat(b)
  {
    if |a| > 0 {
      if a[0] < b[0] {
        LeadingByteDominates(a, b);
      } else if b[0] < a[0] {
        LeadingByteDominates(b, a);
      } else {
        ToNatCons(a);
        ToNatCons(b);
        LexLtIsNumericLt(a[1..], b[1..]);
      }
    }
  }

  /** A non-zero leading byte makes the number at least 256^(n-1). */
  lemma NonZeroLeadingByte(a: seq<Byte>)
    requires |a| > 0 && a[0] != 0
    ensures ToNat(a) >= Pow256(|a| - 1)
  {
    ToNatCons(a);
  }

  /** Bytes.lt(a, b) is integer comparison, whatever the two lengths. */
  lemma {:induction false} LtIsNumericLt(a: seq<Byte>, b: seq<Byte>)
    ensures Lt(a, b) <==> ToNat(a) < ToNat(b)
    decreases |a| + |b|
  {
    if |a| > |b| {
      if a[0] != 0 {
        NonZeroLeadingByte(a);
        Pow256Mono(|b|, |a| - 1);
      } else {
        ToNatCons(a);
        LtIsNumericLt(a[1..], b);
      }
    } else if |a| < |b| {
      if b[0] != 0 {
        NonZeroLeadingByte(b);
        Pow256Mono(|a|, |b| - 1);
      } else {
        ToNatCons(b);
        LtIsNumericLt(a, b[1..]);
      }
    } else {
      LexLtIsNumericLt(a, b);
    }
  }

  /** Single bytes compare as unsigned values 0..255. */
  lemma LtSingleByte(i: Byte, j: Byte)
    ensures Lt([i], [j]) <==> i < j
  {
    LtIsNumericLt([i], [j]);
    assert [i][..0] == [] && [j][..0] == [];
  }

  /** Bounded lt compares the numbers held in the leading size bytes. */
  lemma LtBoundedIsNumericLt(a: seq<Byte>, b: seq<Byte>, size: nat)
    requires size <= |a| && size <= |b|
    ensures LtBounded(a, b, size) <==> ToNat(a[..size]) < ToNat(b[..size])
  {
    LexLtIsNumericLt(a[..size], b[..size]);
  }

  /** Zero-padding both operands to a common width does not change the comparison. */
  lemma ExpandedLtIsNumericLt(a: seq<Byte>, b: seq<Byte>, size: nat)
    requires |a| <= size && |b| <= size
    ensures LtBounded(Expand(a, size), Expand(b, size), size) <==> ToNat(a) < ToNat(b)
    ensures LtBounded(Expand(a, size), Expand(b, size), size) == Lt(a, b)
  {
    var ea, eb := Expand(a, size), Expand(b, size);
    assert ea[..size] == ea && eb[..size] == eb;
    LtBoundedIsNumericLt(ea, eb, size);
    LtIsNumericLt(a, b);
  }

  // ---------------------------------------------------------------------
  // inc and inc(bytes, value), in place
  // ---------------------------------------------------------------------

  /** One carry step: x < 255 followed by m bytes 0xFF, plus one. */
  lemma CarryStep(p: seq<Byte>, x: Byte, m: nat)
    requires x < 255
    ensures ToNat(p + [x + 1] + Zeros(m)) == ToNat(p + [x] + Ones(m)) + 1
  {
    ToNatAppend(p + [x + 1], Zeros(m));
    ToNatAppend(p + [x], Ones(m));
    ToNatZeros(m);
    ToNatOnes(m);
    assert (p + [x + 1])[..|p|] == p && (p + [x])[..|p|] == p;
    var a := ToNat(p) * 256 + x;
    assert ToNat(p + [x + 1]) == a + 1;
    assert ToNat(p + [x]) == a;
    assert (a + 1) * Pow256(m) == a * Pow256(m) + Pow256(m);
  }

  /**
   * Adds one to the number held in a[..end], carrying from the last byte
   * towards the first; a carry out of a[0] is lost. a[end..] is untouched.
   */
  method IncPrefix(a: array<Byte>, end: nat)
    requires end <= a.Length
    modifies a
    ensures a[..end] == FromNat(ToNat(old(a[..end])) + 1, end)
    ensures a[end..] == old(a[end..])
  {
    ghost var s := a[..end];
    var i := end;
    var carry := true;
    while carry && i > 0
      invariant 0 <= i <= end
      invariant a[end..] == old(a[end..])
      invariant a[..i] == s[..i]
      invariant carry ==> a[i..end] == Zeros(end - i) && s[i..] == Ones(end - i)
      invariant !carry ==> i < end && s[i] < 255 && a[i] == s[i] + 1
      invariant !carry ==> a[i + 1..end] == Zeros(end - i - 1) && s[i + 1..] == Ones(end - i - 1)
    {
      i := i - 1;
      a[i] := (a[i] as int + 1) % 256;
      carry := a[i] == 0;
      assert s[i..] == [s[i]] + s[i + 1..];
    }
    IncPrefixDone(s, a[..end], i, carry);
  }

  /** The two ways the carry loop of IncPrefix can end both leave s + 1. */
  lemma {:induction false} IncPrefixDone(s: seq<Byte>, t: seq<Byte>, i: nat, carry: bool)
    requires |t| == |s| && i <= |s|
    requires carry ==> i == 0 && t == Zeros(|s|) && s == Ones(|s|)
    requires !carry ==> i < |s| && s[i] < 255 && t == s[..i] + [s[i] + 1] + Zeros(|s| - i - 1)
    requires !carry ==> s[i + 1..] == Ones(|s| - i - 1)
    ensures t == FromNat(ToNat(s) + 1, |s|)
  {
    var end := |s|;
    if carry {
      ToNatZeros(end);
      ToNatOnes(end);
      DivModUnique(ToNat(s) + 1, Pow256(end), 1, 0);
    } else {
      assert s == s[..i] + [s[i]] + Ones(end - i - 1);
      CarryStep(s[..i], s[i], end - i - 1);
      DivModUnique(ToNat(s) + 1, Pow256(end), 0, ToNat(t));
    }
    var v := ToNat(s) + 1;
    assert v % Pow256(end) == ToNat(t);
    FromNatToNat(t);
    FromNatMod(v, end);
    assert FromNat(v, end) == FromNat(ToNat(t), end);
  }

  /** Bytes.inc: adds one to the whole array, wrapping to zero past 256^n - 1. */
  method Inc(a: array<Byte>)
    modifies a
    ensures a[..] == FromNat(ToNat(old(a[..])) + 1, a.Length)
  {
    assert a[..a.Length] == a[..];
    IncPrefix(a, a.Length);
    assert a[..a.Length] == a[..];
  }

  /**
   * Bytes.inc(bytes, value): adds the unsigned byte value to the last
   * byte and carries one into the rest of the array on overflow.
   */
  method IncBy(a: array<Byte>, v: Byte)
    requires a.Length > 0
    modifies a
    ensures a[..] == FromNat(ToNat(old(a[..])) + v, a.Length)
  {
    ghost var s := a[..];
    var last := a.Length - 1;
    var sum: int := a[last] as int + v as int;
    a[last] := sum % 256;
    assert a[..last] == s[..last];
    if sum >= 256 {
      IncPrefix(a, last);
      assert a[last..] == [sum % 256];
    }
    IncByDone(s, a[..], v);
  }

  /** The array after IncBy: the last byte plus v, and the carry applied to the rest. */
  lemma IncByDone(s: seq<Byte>, t: seq<Byte>, v: Byte)
    requires |t| == |s| > 0
    requires t[|s| - 1] == (s[|s| - 1] + v) % 256
    requires t[..|s| - 1] == if s[|s| - 1] + v >= 256 then FromNat(ToNat(s[..|s| - 1]) + 1, |s| - 1) else s[..|s| - 1]
    ensures t == FromNat(ToNat(s) + v, |s|)
  {
    var last := |s| - 1;
    assert t == t[..last] + [t[last]];
    assert s == s[..last] + [s[last]];
    AddToLastByte(s[..last], s[last], v);
  }

  /** Adding a byte value to the last byte, with a carry into the rest on overflow. */
  lemma AddToLastByte(p: seq<Byte>, x: Byte, v: Byte)
    ensures FromNat(ToNat(p + [x]) + v, |p| + 1) ==
      if x + v >= 256 then FromNat(ToNat(p) + 1, |p|) + [x + v - 256]
      else p + [x + v]
  {
    assert (p + [x])[..|p|] == p;
    var n := ToNat(p + [x]) + v;
    assert n == ToNat(p) * 256 + x + v;
    if x + v >= 256 {
      DivModUnique(n, 256, ToNat(p) + 1, x + v - 256);
    } else {
      DivModUnique(n, 256, ToNat(p), x + v);
      FromNatToNat(p);
    }
  }
}
