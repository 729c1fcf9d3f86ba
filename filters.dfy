/** Scanline reconstruction: the five PNG filter types applied in reverse
    to one row of 3-byte RGB pixels, byte by byte with mod-256 arithmetic,
    against the already reconstructed previous row. */
module Filters {
  import opened Bytes

  function Abs(x: int): nat { if x < 0 then -x else x }

  /** The Paeth predictor: of left (a), above (b) and upper-left (c), the
      one nearest to p = a + b - c, ties going to a, then to b. */
  function PaethPredictor(a: int, b: int, c: int): (r: int)
    ensures r == a || r == b || r == c
    ensures var p := a + b - c;
      Abs(p - r) <= Abs(p - a) && Abs(p - r) <= Abs(p - b) && Abs(p - r) <= Abs(p - c)
    ensures var p := a + b - c;
      Abs(p - a) <= Abs(p - b) && Abs(p - a) <= Abs(p - c) ==> r == a
    ensures var p := a + b - c;
      Abs(p - b) < Abs(p - a) && Abs(p - b) <= Abs(p - c) ==> r == b
    ensures var p := a + b - c;
      Abs(p - c) < Abs(p - a) && Abs(p - c) < Abs(p - b) ==> r == c
  {
    var p := a + b - c;
    var pa := Abs(p - a);
    var pb := Abs(p - b);
    var pc := Abs(p - c);
    if pa <= pb && pa <= pc then a
    else if pb <= pc then b
    else c
  }

  /** Up, Average and Paeth read the previous row; None and Sub do not. */
  predicate UsesPrevious(filterType: int)
  {
    filterType == 2 || filterType == 3 || filterType == 4
  }

  predicate Reconstructs(filterType: int)
  {
    1 <= filterType <= 4
  }

  /** The byte three positions back (the same channel of the pixel to the
      left), or 0 for the first pixel. */
  function Back3(s: seq<byte>, i: nat): byte
    requires i < |s| + 3
  {
    if i >= 3 then s[i - 3] else 0
  }

  /** The value added to filtered byte i: a is taken from `left` (the row
      being reconstructed), b and c from the previous row. */
  function Prediction(filterType: int, left: seq<byte>, previous: seq<byte>, i: nat): int
    requires i < |left| + 3
    requires UsesPrevious(filterType) ==> i < |previous|
  {
    var a := Back3(left, i);
    var b := if UsesPrevious(filterType) then previous[i] else 0;
    var c := if filterType == 4 then Back3(previous, i) else 0;
    if filterType == 1 then a
    else if filterType == 2 then b
    else if filterType == 3 then (a + b) / 2
    else if filterType == 4 then PaethPredictor(a, b, c)
    else 0
  }

  /** The first n reconstructed bytes of a row filtered with a type in 1..4. */
  function Recon(filterType: int, current: seq<byte>, previous: seq<byte>, n: nat): (out: seq<byte>)
    requires n <= |current|
    requires UsesPrevious(filterType) ==> |current| <= |previous|
    ensures |out| == n
    decreases n
  {
    if n == 0 then []
    else
      var out := Recon(filterType, current, previous, n - 1);
      out + [(current[n - 1] + Prediction(filterType, out, previous, n - 1)) % 256]
  }

  /** The row apply_filter returns: rows of filter type 0, or of a type
      outside 1..4, come back unchanged. */
  function Unfilter(filterType: int, current: seq<byte>, previous: seq<byte>): (out: seq<byte>)
    requires UsesPrevious(filterType) ==> |current| <= |previous|
    ensures |out| == |current|
  {
    if Reconstructs(filterType) then Recon(filterType, current, previous, |current|) else current
  }

  /** Reconstruction never revisits a byte: a longer prefix extends a shorter one. */
  lemma {:induction false} ReconPrefix(filterType: int, current: seq<byte>, previous: seq<byte>, m: nat, n: nat)
    requires n <= m <= |current|
    requires UsesPrevious(filterType) ==> |current| <= |previous|
    ensures Recon(filterType, current, previous, m)[..n] == Recon(filterType, current, previous, n)
    decreases m
  {
    if n < m {
      ReconPrefix(filterType, current, previous, m - 1, n);
      assert Recon(filterType, current, previous, m)[..m - 1] == Recon(filterType, current, previous, m - 1);
    }
  }

  /** Byte i of a reconstructed row: the filtered byte plus the prediction
      from the already reconstructed bytes of the same row, mod 256. */
  lemma UnfilterAt(filterType: int, current: seq<byte>, previous: seq<byte>, i: nat)
    requires Reconstructs(filterType) && i < |current|
    requires UsesPrevious(filterType) ==> |current| <= |previous|
    ensures var out := Unfilter(filterType, current, previous);
      out[i] == (current[i] + Prediction(filterType, out, previous, i)) % 256
  {
    var out := Unfilter(filterType, current, previous);
    ReconPrefix(filterType, current, previous, |current|, i + 1);
    ReconPrefix(filterType, current, previous, |current|, i);
    var pre := Recon(filterType, current, previous, i);
    assert out[..i] == pre;
    assert i >= 3 ==> out[i - 3] == pre[i - 3];
    assert Prediction(filterType, out, previous, i) == Prediction(filterType, pre, previous, i);
  }

  /** Sub: the first pixel is unchanged, every later byte adds the
      reconstructed byte three positions back. */
  lemma UnfilterSub(current: seq<byte>, previous: seq<byte>)
    ensures var out := Unfilter(1, current, previous);
      && |out| == |current|
      && (forall i :: 0 <= i < 3 && i < |current| ==> out[i] == current[i])
      && (forall i :: 3 <= i < |current| ==> out[i] == (current[i] as int + out[i - 3]) % 256)
  {
    var out := Unfilter(1, current, previous);
    forall i | 0 <= i < |current|
      ensures out[i] == (current[i] + Back3(out, i)) % 256
    {
      UnfilterAt(1, current, previous, i);
    }
  }

  /** Up: every byte adds the byte above it. */
  lemma UnfilterUp(current: seq<byte>, previous: seq<byte>)
    requires |current| <= |previous|
    ensures var out := Unfilter(2, current, previous);
      && |out| == |current|
      && forall i :: 0 <= i < |current| ==> out[i] == (current[i] as int + previous[i]) % 256
  {
    forall i | 0 <= i < |current|
      ensures Unfilter(2, current, previous)[i] == (current[i] as int + previous[i]) % 256
    {
      UnfilterAt(2, current, previous, i);
    }
  }

  /** Average: every byte adds the floor of the mean of the reconstructed
      left byte (0 for the first pixel) and the byte above. */
  lemma UnfilterAverage(current: seq<byte>, previous: seq<byte>)
    requires |current| <= |previous|
    ensures var out := Unfilter(3, current, previous);
      && |out| == |current|
      && forall i :: 0 <= i < |current| ==>
           out[i] == (current[i] + (Back3(out, i) + previous[i]) / 2) % 256
  {
    forall i | 0 <= i < |current|
      ensures var out := Unfilter(3, current, previous);
        out[i] == (current[i] + (Back3(out, i) + previous[i]) / 2) % 256
    {
      UnfilterAt(3, current, previous, i);
    }
  }

  /** Paeth: every byte adds the Paeth predictor of the reconstructed left
      byte, the byte above and the byte above-left (0 for the first pixel). */
  lemma UnfilterPaeth(current: seq<byte>, previous: seq<byte>)
    requires |current| <= |previous|
    ensures var out := Unfilter(4, current, previous);
      && |out| == |current|
      && forall i :: 0 <= i < |current| ==>
           out[i] == (current[i] + PaethPredictor(Back3(out, i), previous[i], Back3(previous, i))) % 256
  {
    forall i | 0 <= i < |current|
      ensures var out := Unfilter(4, current, previous);
        out[i] == (current[i] + PaethPredictor(Back3(out, i), previous[i], Back3(previous, i))) % 256
    {
      UnfilterAt(4, current, previous, i);
    }
  }

  /** Types 0 and anything outside 1..4 leave the row as it was. */
  lemma UnfilterNone(filterType: int, current: seq<byte>, previous: seq<byte>)
    requires !Reconstructs(filterType)
    ensures Unfilter(filterType, current, previous) == current
  {
  }

  /** The encoder's side of a filter: what a PNG writer stores for the raw
      row `raw` under the given filter type (section 9.2 of the PNG
      specification). The source only ever writes type 0; this definition
      is the inverse against which reconstruction is checked. */
  function FilterRow(filterType: int, raw: seq<byte>, previous: seq<byte>): (f: seq<byte>)
    requires UsesPrevious(filterType) ==> |raw| <= |previous|
    ensures |f| == |raw|
  {
    if Reconstructs(filterType) then
      seq(|raw|, i requires 0 <= i < |raw| => (raw[i] - Prediction(filterType, raw, previous, i)) % 256)
    else raw
  }

  lemma ModAddBack(x: byte, p: int)
    ensures ((x - p) % 256 + p) % 256 == x
    ensures ((x + p) % 256 - p) % 256 == x
  {
    ModUnique((x - p) % 256 + p, -((x - p) / 256), x);
    ModUnique((x + p) % 256 - p, -((x + p) / 256), x);
  }

  /** The remainder mod 256 is the one r in 0..255 with y == 256 * q + r. */
  lemma ModUnique(y: int, q: int, r: int)
    requires 0 <= r < 256 && y == 256 * q + r
    ensures y % 256 == r
  {
  }

  /** The prediction at i depends on the left row only through its first i bytes. */
  lemma PredictionPrefix(filterType: int, left: seq<byte>, left': seq<byte>, previous: seq<byte>, i: nat)
    requires i <= |left| && i <= |left'| && left[..i] == left'[..i]
    requires UsesPrevious(filterType) ==> i < |previous|
    ensures Prediction(filterType, left, previous, i) == Prediction(filterType, left', previous, i)
  {
    if i >= 3 {
      assert left[i - 3] == left[..i][i - 3] == left'[..i][i - 3] == left'[i - 3];
    }
  }

  /** Reconstruction undoes filtering, for every filter type. */
  lemma UnfilterFilterRow(filterType: int, raw: seq<byte>, previous: seq<byte>)
    requires UsesPrevious(filterType) ==> |raw| <= |previous|
    ensures Unfilter(filterType, FilterRow(filterType, raw, previous), previous) == raw
  {
    if Reconstructs(filterType) {
      ReconFiltered(filterType, raw, previous, |raw|);
    }
  }

  /** Adding the prediction back to a filtered byte restores the raw byte. */
  lemma FilterRowAt(filterType: int, raw: seq<byte>, previous: seq<byte>, i: nat)
    requires Reconstructs(filterType) && i < |raw|
    requires UsesPrevious(filterType) ==> |raw| <= |previous|
    ensures (FilterRow(filterType, raw, previous)[i] + Prediction(filterType, raw, previous, i)) % 256 == raw[i]
  {
    ModAddBack(raw[i], Prediction(filterType, raw, previous, i));
  }

  lemma {:induction false} ReconFiltered(filterType: int, raw: seq<byte>, previous: seq<byte>, n: nat)
    requires Reconstructs(filterType) && n <= |raw|
    requires UsesPrevious(filterType) ==> |raw| <= |previous|
    ensures Recon(filterType, FilterRow(filterType, raw, previous), previous, n) == raw[..n]
    decreases n
  {
    if n > 0 {
      ReconFiltered(filterType, raw, previous, n - 1);
      ReconFilteredStep(filterType, raw, previous, n);
    }
  }

  /** Byte n - 1 of a filtered row reconstructs to the raw byte once the
      bytes before it have. */
  lemma ReconFilteredStep(filterType: int, raw: seq<byte>, previous: seq<byte>, n: nat)
    requires Reconstructs(filterType) && 0 < n <= |raw|
    requires UsesPrevious(filterType) ==> |raw| <= |previous|
    requires Recon(filterType, FilterRow(filterType, raw, previous), previous, n - 1) == raw[..n - 1]
    ensures Recon(filterType, FilterRow(filterType, raw, previous), previous, n) == raw[..n]
  {
    FilterRowAt(filterType, raw, previous, n - 1);
    ReconStep(filterType, FilterRow(filterType, raw, previous), raw, previous, n);
  }

  /** One step of the induction: when the first n - 1 reconstructed bytes
      are those of raw, and byte n - 1 of cur plus raw's prediction gives
      raw's byte, the first n reconstructed bytes are those of raw. */
  lemma ReconStep(filterType: int, cur: seq<byte>, raw: seq<byte>, previous: seq<byte>, n: nat)
    requires 0 < n <= |cur| == |raw|
    requires UsesPrevious(filterType) ==> |cur| <= |previous|
    requires Recon(filterType, cur, previous, n - 1) == raw[..n - 1]
    requires (cur[n - 1] + Prediction(filterType, raw, previous, n - 1)) % 256 == raw[n - 1]
    ensures Recon(filterType, cur, previous, n) == raw[..n]
  {
    PredictionPrefix(filterType, raw[..n - 1], raw, previous, n - 1);
    assert raw[..n] == raw[..n - 1] + [raw[n - 1]];
  }

  /** Filtering a reconstructed row gives back the stored row, so
      reconstruction is one-to-one for each filter type and previous row. */
  lemma FilterRowUnfilter(filterType: int, current: seq<byte>, previous: seq<byte>)
    requires UsesPrevious(filterType) ==> |current| <= |previous|
    ensures FilterRow(filterType, Unfilter(filterType, current, previous), previous) == current
  {
    if Reconstructs(filterType) {
      var out := Unfilter(filterType, current, previous);
      var f := FilterRow(filterType, out, previous);
      forall i | 0 <= i < |current|
        ensures f[i] == current[i]
      {
        UnfilterAt(filterType, current, previous, i);
        ModAddBack(current[i], Prediction(filterType, out, previous, i));
      }
    }
  }
}
