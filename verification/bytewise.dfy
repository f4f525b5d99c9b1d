/** Sharing text and grayscale images one byte at a time: every byte (a
    character of the text's byte encoding, or a pixel's gray level) is a
    separate secret with its own polynomial and its own list of shares. */
module Bytewise {
  import opened Outcome
  import opened Arith
  import opened Primality
  import opened Shamir
  import opened Reconstruction

  type Byte = b: int | 0 <= b < 256

  /** Go's `byte(v)` / `uint8(v)` conversion: the low 8 bits of v. */
  function ToByte(v: int): (b: Byte)
    ensures 0 <= v < 256 ==> b == v
    ensures (v - b) % 256 == 0
  {
    v % 256
  }

  /** One random supply per secret, each long enough for the scheme. */
  predicate RandomnessFor(s: Scheme, secrets: seq<Byte>, rnd: seq<seq<int>>) {
    |rnd| == |secrets| && forall i :: 0 <= i < |rnd| ==> EnoughRandomness(s, rnd[i])
  }

  /** The loop shared by `ShareText` and `ShareImage`: `GenerateShares` for each byte in order. */
  function ShareBytes(s: Scheme, secrets: seq<Byte>, rnd: seq<seq<int>>): (r: Result<seq<seq<Point>>>)
    requires RandomnessFor(s, secrets, rnd)
    ensures r.Success? <==> |secrets| == 0 || (s.threshold >= 1 && s.numShares >= 0)
    ensures r.Success? ==>
              && |r.value| == |secrets|
              && forall i :: 0 <= i < |secrets| ==> Success(r.value[i]) == GenerateShares(s, secrets[i], rnd[i])
  {
    if |secrets| == 0 then Success([])
    else
      var n := |secrets| - 1;
      match ShareBytes(s, secrets[..n], rnd[..n])
      case Failure(e) => Failure(e)
      case Success(front) =>
        match GenerateShares(s, secrets[n], rnd[n])
        case Failure(e) => Failure(e)
        case Success(last) => Success(front + [last])
  }

  /** The loop shared by `ReconstructText` and `ReconstructImage`:
      `ReconstructSecret` for each list of shares in order, cast to a byte;
      the first list that cannot be reconstructed makes the whole call fail. */
  function ReconstructBytes(s: Scheme, all: seq<seq<Point>>): (r: Result<seq<Byte>>)
    ensures r.Success? <==> forall i :: 0 <= i < |all| ==> ReconstructSecret(s, all[i]).Success?
    ensures r.Success? ==>
              && |r.value| == |all|
              && forall i :: 0 <= i < |all| ==> r.value[i] == ToByte(ReconstructSecret(s, all[i]).value)
    ensures r.Failure? ==> exists i :: 0 <= i < |all| && ReconstructSecret(s, all[i]) == Failure(r.error)
  {
    if |all| == 0 then Success([])
    else
      var n := |all| - 1;
      match ReconstructBytes(s, all[..n])
      case Failure(e) => Failure(e)
      case Success(front) =>
        match ReconstructSecret(s, all[n])
        case Failure(e) => Failure(e)
        case Success(v) => Success(front + [ToByte(v)])
  }

  /** `ShareText`: the text is its byte sequence, and every byte gets its own shares. */
  function ShareText(s: Scheme, text: seq<Byte>, rnd: seq<seq<int>>): (r: Result<seq<seq<Point>>>)
    requires RandomnessFor(s, text, rnd)
    ensures r.Success? <==> |text| == 0 || (s.threshold >= 1 && s.numShares >= 0)
    ensures r.Success? ==>
              && |r.value| == |text|
              && forall i :: 0 <= i < |text| ==> |r.value[i]| == s.numShares && r.value[i] == GenerateShares(s, text[i], rnd[i]).value
  {
    ShareBytes(s, text, rnd)
  }

  /** `ReconstructText`: one byte per list of shares, the low 8 bits of its secret. */
  function ReconstructText(s: Scheme, all: seq<seq<Point>>): (r: Result<seq<Byte>>)
    ensures r.Success? <==> forall i :: 0 <= i < |all| ==> ReconstructSecret(s, all[i]).Success?
    ensures r.Success? ==>
              && |r.value| == |all|
              && forall i :: 0 <= i < |all| ==> r.value[i] == ToByte(ReconstructSecret(s, all[i]).value)
  {
    ReconstructBytes(s, all)
  }

  /** The same choice of share positions applied to every byte's share list. */
  function SelectEach(all: seq<seq<Point>>, sel: seq<int>): (r: seq<seq<Point>>)
    requires forall i, j :: 0 <= i < |all| && 0 <= j < |sel| ==> 0 <= sel[j] < |all[i]|
    ensures |r| == |all| && forall i :: 0 <= i < |all| ==> r[i] == Select(all[i], sel)
  {
    seq(|all|, i requires 0 <= i < |all| => Select(all[i], sel))
  }

  /** Sharing bytes and reconstructing them from any `threshold` different
      share positions gives the bytes back. */
  lemma ShareBytesRoundTrip(s: Scheme, secrets: seq<Byte>, rnd: seq<seq<int>>, all: seq<seq<Point>>, sel: seq<int>)
    requires RandomnessFor(s, secrets, rnd) && 1 <= s.threshold <= s.numShares < Prime
    requires ShareBytes(s, secrets, rnd) == Success(all)
    requires forall j :: 0 <= j < |sel| ==> 0 <= sel[j] < s.numShares
    requires NoRepeats(sel) && |sel| >= s.threshold
    ensures ReconstructBytes(s, SelectEach(all, sel)) == Success(secrets)
  {
    var chosen := SelectEach(all, sel);
    forall i | 0 <= i < |all|
      ensures ReconstructSecret(s, chosen[i]) == Success(secrets[i])
    {
      ReconstructFromAnyShares(s, secrets[i], rnd[i], all[i], sel);
      DivModUnique(secrets[i], Prime, 0, secrets[i]);
    }
    var r := ReconstructBytes(s, chosen);
    assert r.value == secrets;
  }

  /** `ReconstructText` inverts `ShareText` for any `threshold` of the shares. */
  lemma TextRoundTrip(s: Scheme, text: seq<Byte>, rnd: seq<seq<int>>, all: seq<seq<Point>>, sel: seq<int>)
    requires RandomnessFor(s, text, rnd) && 1 <= s.threshold <= s.numShares < Prime
    requires ShareText(s, text, rnd) == Success(all)
    requires forall j :: 0 <= j < |sel| ==> 0 <= sel[j] < s.numShares
    requires NoRepeats(sel) && |sel| >= s.threshold
    ensures ReconstructText(s, SelectEach(all, sel)) == Success(text)
  {
    ShareBytesRoundTrip(s, text, rnd, all, sel);
  }

  /** A grayscale image: `rows[y][x]` is the gray level at column x of row y. */
  datatype GrayImage = GrayImage(width: nat, height: nat, rows: seq<seq<Byte>>)
  {
    predicate WellFormed() {
      |rows| == height && forall y :: 0 <= y < |rows| ==> |rows[y]| == width
    }
  }

  /** The rows laid end to end: pixel (x, y) lands at index y * width + x,
      the order of the Go loops over y and then x. */
  function Flatten(rows: seq<seq<Byte>>, width: nat): (px: seq<Byte>)
    requires forall y :: 0 <= y < |rows| ==> |rows[y]| == width
    ensures |px| == |rows| * width
  {
    if |rows| == 0 then []
    else
      var h := |rows| - 1;
      assert |rows| * width == h * width + width;
      Flatten(rows[..h], width) + rows[h]
  }

  lemma {:induction false} FlattenIndex(rows: seq<seq<Byte>>, width: nat, y: nat, x: nat)
    requires forall r :: 0 <= r < |rows| ==> |rows[r]| == width
    requires y < |rows| && x < width
    ensures y * width + x < |Flatten(rows, width)|
    ensures Flatten(rows, width)[y * width + x] == rows[y][x]
  {
    var h := |rows| - 1;
    RowFits(y, width, |rows|);
    if y < h {
      FlattenIndex(rows[..h], width, y, x);
      RowFits(y, width, h);
    } else {
      assert |Flatten(rows[..h], width)| == y * width;
    }
  }

  /** Row y of a width-by-height grid ends within width * height. */
  lemma RowFits(y: nat, width: nat, height: nat)
    requires y < height
    ensures y * width + width <= height * width
  {
    var d := height - y - 1;
    assert height * width == (y + 1 + d) * width;
    assert (y + 1 + d) * width == y * width + width + d * width;
    MulNonnegative(d, width);
  }

  /** Every row of a width-by-height grid ends within width * height. */
  lemma RowsFit(width: nat, height: nat)
    ensures forall y :: 0 <= y < height ==> 0 <= y * width && y * width + width <= height * width
  {
    forall y | 0 <= y < height
      ensures 0 <= y * width && y * width + width <= height * width
    {
      RowFits(y, width, height);
    }
  }

  /** The first height rows of width pixels each, cut from a flat pixel list. */
  function Unflatten(px: seq<Byte>, width: nat, height: nat): (rows: seq<seq<Byte>>)
    requires |px| >= width * height
    ensures |rows| == height && forall y :: 0 <= y < height ==> |rows[y]| == width
  {
    RowsFit(width, height);
    seq(height, y requires 0 <= y < height => px[y * width .. y * width + width])
  }

  /** Pixel (x, y) of the cut rows is pixel y * width + x of the flat list. */
  lemma UnflattenIndex(px: seq<Byte>, width: nat, height: nat, y: nat, x: nat)
    requires |px| >= width * height && y < height && x < width
    ensures y * width + x < |px|
    ensures Unflatten(px, width, height)[y][x] == px[y * width + x]
  {
    RowFits(y, width, height);
    var start := y * width;
    assert Unflatten(px, width, height)[y] == px[start .. start + width];
  }

  /** The pixel loop of `ShareImage`, after the image has been read and turned gray. */
  function ShareImage(s: Scheme, img: GrayImage, rnd: seq<seq<int>>): (r: Result<(seq<seq<Point>>, nat, nat)>)
    requires img.WellFormed() && RandomnessFor(s, Flatten(img.rows, img.width), rnd)
    ensures r.Success? <==> img.width * img.height == 0 || (s.threshold >= 1 && s.numShares >= 0)
    ensures r.Success? ==> |r.value.0| == img.width * img.height && r.value.1 == img.width && r.value.2 == img.height
    ensures r.Success? ==>
              var px := Flatten(img.rows, img.width);
              forall i :: 0 <= i < |px| ==> r.value.0[i] == GenerateShares(s, px[i], rnd[i]).value
  {
    match ShareBytes(s, Flatten(img.rows, img.width), rnd)
    case Failure(e) => Failure(e)
    case Success(all) => Success((all, img.width, img.height))
  }

  /** The pixel loops of `ReconstructImage`, before the image is written out:
      fewer reconstructed pixels than width * height make `pixels[idx]` go out of range. */
  function ReconstructImage(s: Scheme, all: seq<seq<Point>>, width: nat, height: nat): (r: Result<GrayImage>)
    ensures r.Success? ==> r.value.WellFormed() && r.value.width == width && r.value.height == height
    ensures r.Success? <==> ReconstructBytes(s, all).Success? && |all| >= width * height
    ensures ReconstructBytes(s, all).Success? && |all| < width * height ==> r == Failure(PixelIndexOutOfRange)
  {
    match ReconstructBytes(s, all)
    case Failure(e) => Failure(e)
    case Success(px) =>
      if |px| < width * height then Failure(PixelIndexOutOfRange)
      else Success(GrayImage(width, height, Unflatten(px, width, height)))
  }

  /** Pixel (x, y) of the reconstructed image comes from share list y * width + x. */
  lemma ReconstructImagePixel(s: Scheme, all: seq<seq<Point>>, width: nat, height: nat, y: nat, x: nat)
    requires ReconstructImage(s, all, width, height).Success? && y < height && x < width
    ensures y * width + x < |all|
    ensures ReconstructImage(s, all, width, height).value.rows[y][x] == ToByte(ReconstructSecret(s, all[y * width + x]).value)
  {
    var px := ReconstructBytes(s, all).value;
    UnflattenIndex(px, width, height, y, x);
  }

  /** Cutting the flattened rows back into rows gives the rows. */
  lemma UnflattenFlatten(rows: seq<seq<Byte>>, width: nat)
    requires forall y :: 0 <= y < |rows| ==> |rows[y]| == width
    ensures Unflatten(Flatten(rows, width), width, |rows|) == rows
  {
    var back := Unflatten(Flatten(rows, width), width, |rows|);
    forall y | 0 <= y < |rows|
      ensures back[y] == rows[y]
    {
      forall x | 0 <= x < width
        ensures back[y][x] == rows[y][x]
      {
        FlattenIndex(rows, width, y, x);
        UnflattenIndex(Flatten(rows, width), width, |rows|, y, x);
      }
    }
  }

  /** `ReconstructImage` inverts `ShareImage` for any `threshold` of the shares. */
  lemma ImageRoundTrip(s: Scheme, img: GrayImage, rnd: seq<seq<int>>, all: seq<seq<Point>>, sel: seq<int>)
    requires img.WellFormed() && RandomnessFor(s, Flatten(img.rows, img.width), rnd)
    requires 1 <= s.threshold <= s.numShares < Prime
    requires ShareImage(s, img, rnd) == Success((all, img.width, img.height))
    requires forall j :: 0 <= j < |sel| ==> 0 <= sel[j] < s.numShares
    requires NoRepeats(sel) && |sel| >= s.threshold
    ensures ReconstructImage(s, SelectEach(all, sel), img.width, img.height) == Success(img)
  {
    var px := Flatten(img.rows, img.width);
    assert ShareBytes(s, px, rnd) == Success(all);
    ShareBytesRoundTrip(s, px, rnd, all, sel);
    assert |px| == img.height * img.width;
    UnflattenFlatten(img.rows, img.width);
  }
}
