/** Byte-level vocabulary shared by the PNG reader and writer: byte and
    32-bit types, Python's clamped slicing, big-endian integers, the error
    taxonomy and the concatenation of a list of byte strings. */
module Bytes {

  type byte = x: int | 0 <= x < 256
  type uint32 = x: int | 0 <= x < 0x1_0000_0000

  /** The exceptions png.py raises, one constructor per distinct failure. */
  datatype Error =
    | NotPng                                    // bad 8-byte signature
    | NoIhdr                                    // bytes 12..16 are not "IHDR"
    | HeaderTruncated                           // IndexError inside the 25-byte IHDR window
    | InflateFailed                             // zlib.error from decompress
    | RowMismatch(expected: nat, actual: nat)   // row count differs from height
    | PixelMismatch(expected: nat, actual: nat) // pixel count of a row differs from width
    | InvalidRgbOption                          // save_rgb option not in {1, 2, 3}
    | LengthOverflow                            // int.to_bytes(4, 'big') on a value >= 2^32
    | IndexOutOfRange                           // IndexError while save_rgb fills its buffer

  datatype Outcome = Pass | Fail(error: Error)

  datatype Option<T> = None | Some(value: T)

  datatype Result<T> = Ok(value: T) | Err(error: Error)

  function Min(a: int, b: int): int { if a < b then a else b }

  /** Python's s[lo:hi] for non-negative bounds: both bounds are clamped to
      the length, and the slice is empty when hi <= lo. */
  function Slice<T>(s: seq<T>, lo: nat, hi: nat): (r: seq<T>)
    ensures |r| == if hi <= lo || |s| <= lo then 0 else Min(hi, |s|) - lo
    ensures forall i :: 0 <= i < |r| ==> r[i] == s[lo + i]
    ensures lo <= hi <= |s| ==> r == s[lo..hi]
  {
    var start := if lo < |s| then lo else |s|;
    var end := if hi < start then start else if hi < |s| then hi else |s|;
    s[start..end]
  }

  /** A clamped slice of a clamped slice is one clamped slice of the
      original. */
  lemma SliceOfSlice<T>(s: seq<T>, lo: nat, hi: nat, a: nat, b: nat)
    requires a <= b <= hi - lo
    ensures Slice(Slice(s, lo, hi), a, b) == Slice(s, lo + a, lo + b)
  {
    var inner := Slice(s, lo, hi);
    var r := Slice(inner, a, b);
    assert |r| == |Slice(s, lo + a, lo + b)|;
    assert forall i :: 0 <= i < |r| ==> r[i] == inner[a + i] == s[lo + a + i];
  }

  function Pow256(k: nat): nat
  {
    if k == 0 then 1 else 256 * Pow256(k - 1)
  }

  /** int.from_bytes(s, 'big'). */
  function BeValue(s: seq<byte>): (n: nat)
    ensures n < Pow256(|s|)
    decreases |s|
  {
    if s == [] then 0 else BeValue(s[..|s| - 1]) * 256 + s[|s| - 1]
  }

  /** A big-endian value of at most four bytes fits in 32 bits. */
  lemma {:induction false} BeValueFits(s: seq<byte>)
    requires |s| <= 4
    ensures BeValue(s) < 0x1_0000_0000
  {
    var k := |s|;
    assert Pow256(0) == 1;
    assert Pow256(1) == 256;
    assert Pow256(2) == 65536;
    assert Pow256(3) == 16777216;
    assert Pow256(4) == 0x1_0000_0000;
    assert k == 0 || k == 1 || k == 2 || k == 3 || k == 4;
  }

  /** n.to_bytes(4, 'big') for a value that fits. */
  function Be4(n: uint32): seq<byte>
  {
    [n / 0x100_0000, (n / 0x1_0000) % 256, (n / 256) % 256, n % 256]
  }

  function BeValue4(s: seq<byte>): nat
    requires |s| == 4
  {
    ((s[0] as int * 256 + s[1]) * 256 + s[2]) * 256 + s[3]
  }

  lemma BeValueOfFour(s: seq<byte>)
    requires |s| == 4
    ensures BeValue(s) == BeValue4(s)
  {
    assert s[..3][..2] == s[..2] && s[..2][..1] == s[..1] && s[..1][..0] == [];
    assert BeValue(s[..1]) == s[0];
    assert BeValue(s[..2]) == s[0] as int * 256 + s[1];
    assert BeValue(s[..3]) == (s[0] as int * 256 + s[1]) * 256 + s[2];
  }

  /** Reading back four big-endian bytes gives the value that was written. */
  lemma BeValueBe4(n: uint32)
    ensures |Be4(n)| == 4 && BeValue(Be4(n)) == n
  {
    var s := Be4(n);
    BeValueOfFour(s);
    var q1 := n / 256;
    var q2 := q1 / 256;
    var q3 := q2 / 256;
    assert n == q1 * 256 + n % 256;
    assert q1 == q2 * 256 + q1 % 256;
    assert q2 == q3 * 256 + q2 % 256;
    assert q2 == n / 0x1_0000;
    assert q3 == n / 0x100_0000;
  }

  /** Writing the value of four bytes reproduces them: Be4 and BeValue are
      inverse on 4-byte strings in both directions. */
  lemma Be4BeValue(s: seq<byte>)
    requires |s| == 4
    ensures BeValue(s) < 0x1_0000_0000 && Be4(BeValue(s)) == s
  {
    BeValueOfFour(s);
    var n := BeValue(s);
    var b := s[0] as int * 256 + s[1];
    var a := b * 256 + s[2];
    assert n == a * 256 + s[3];
    DivUnique(n, 256, a, s[3]);
    DivUnique(a, 256, b, s[2]);
    DivUnique(b, 256, s[0], s[1]);
    DivUnique(n, 0x1_0000, b, s[2] as int * 256 + s[3]);
    DivUnique(n, 0x100_0000, s[0], (s[1] as int * 256 + s[2]) * 256 + s[3]);
  }

  /** The concatenation xs[0] + xs[1] + ... (Python's b''.join, or repeated +=). */
  function Concat<T>(xs: seq<seq<T>>): seq<T>
    decreases |xs|
  {
    if xs == [] then [] else Concat(xs[..|xs| - 1]) + xs[|xs| - 1]
  }

  lemma {:induction false} ConcatAppend<T>(xs: seq<seq<T>>, ys: seq<seq<T>>)
    ensures Concat(xs + ys) == Concat(xs) + Concat(ys)
    decreases |ys|
  {
    if ys == [] {
      assert xs + ys == xs;
    } else {
      var init := ys[..|ys| - 1];
      var last := ys[|ys| - 1];
      assert (xs + ys)[..|xs + ys| - 1] == xs + init;
      assert Concat(xs + ys) == Concat(xs + init) + last;
      ConcatAppend(xs, init);
      assert Concat(xs) + Concat(init) + last == Concat(xs) + (Concat(init) + last);
    }
  }

  lemma ConcatSnoc<T>(xs: seq<seq<T>>, x: seq<T>)
    ensures Concat(xs + [x]) == Concat(xs) + x
  {
    assert (xs + [x])[..|xs|] == xs;
  }

  lemma ConcatCons<T>(x: seq<T>, xs: seq<seq<T>>)
    ensures Concat([x] + xs) == x + Concat(xs)
  {
    ConcatAppend([x], xs);
    assert [x][..0] == [];
  }

  /** When every piece has length n, the concatenation has |xs| * n elements. */
  lemma {:induction false} ConcatUniformLength<T>(xs: seq<seq<T>>, n: nat)
    requires forall k :: 0 <= k < |xs| ==> |xs[k]| == n
    ensures |Concat(xs)| == |xs| * n
    decreases |xs|
  {
    if xs != [] {
      var m := |xs| - 1;
      assert forall k :: 0 <= k < m ==> |xs[..m][k]| == n;
      ConcatUniformLength(xs[..m], n);
      MulSucc(m, n);
    }
  }

  /** When every piece has length n, piece k occupies positions k*n .. k*n+n. */
  lemma {:induction false} ConcatUniformAt<T>(xs: seq<seq<T>>, n: nat, k: nat, i: nat)
    requires forall j :: 0 <= j < |xs| ==> |xs[j]| == n
    requires k < |xs| && i < n
    ensures |Concat(xs)| == |xs| * n && k * n + i < |Concat(xs)|
    ensures Concat(xs)[k * n + i] == xs[k][i]
    decreases |xs|
  {
    var m := |xs| - 1;
    var init := xs[..m];
    ConcatUniformLength(xs, n);
    ConcatUniformLength(init, n);
    MulMono(k + 1, |xs|, n);
    if k < m {
      ConcatUniformAt(init, n, k, i);
      MulMono(k + 1, m, n);
      assert init[k] == xs[k];
    } else {
      assert k * n + i == m * n + i;
    }
  }

  lemma MulSucc(m: nat, n: nat)
    ensures m * n + n == (m + 1) * n
  {
  }

  lemma MulMono(a: nat, b: nat, n: nat)
    requires a <= b
    ensures a * n <= b * n
  {
  }

  lemma MulCancel(a: nat, b: nat, n: nat)
    requires n > 0
    ensures a * n < b * n <==> a < b
  {
    if a < b {
      MulMono(a + 1, b, n);
    } else {
      MulMono(b, a, n);
    }
  }

  lemma DivUnique(y: nat, n: nat, q: nat, r: nat)
    requires n > 0 && 0 <= r < n && y == q * n + r
    ensures y / n == q && y % n == r
  {
    var q' := y / n;
    assert y == q' * n + y % n;
    MulMono(q + 1, if q' > q then q' else q + 1, n);
    MulMono(q' + 1, if q' < q then q else q' + 1, n);
  }

  lemma DivPlusOne(x: nat, n: nat)
    requires n > 0
    ensures (x + n) / n == x / n + 1
  {
    var q := x / n;
    var r := x % n;
    assert x == q * n + r;
    assert x + n == (q + 1) * n + r;
    DivUnique(x + n, n, q + 1, r);
  }

  function Zeros(n: nat): seq<byte>
  {
    seq(n, _ => 0)
  }
}
