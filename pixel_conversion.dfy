/** The unsigned-to-signed conversion of a grayscale frame before it is fed
    to the int8-quantised model (`run_inference` in main/main_functions.cc).
    Each unsigned pixel has its sign bit flipped; read as an `int8_t`, the
    stored byte is the pixel minus 128. */
module PixelConversion {
  import opened Bytes

  /** The signed model input produced from one unsigned pixel: the byte
      `p ^ 0x80` read as an `int8_t`. */
  function ConvertPixel(p: bv8): (v: Int8)
    ensures v == p as int - 128
  {
    ToSigned(p ^ SignBit)
  }

  /** Undoing the conversion: whatever byte reads as the converted value,
      flipping its sign bit again gives back the pixel. */
  lemma ConvertPixelRoundTrip(p: bv8, stored: bv8)
    requires ToSigned(stored) == ConvertPixel(p)
    ensures stored ^ SignBit == p
  {
    ToSignedInjective(stored, p ^ SignBit);
    FlipSignBitInvolutive(p);
  }

  /** The conversion is strictly order-preserving: a larger pixel always gives
      a larger signed value, and equal values come from equal pixels. */
  lemma ConvertPixelMonotone(p: bv8, q: bv8)
    ensures p < q <==> ConvertPixel(p) < ConvertPixel(q)
    ensures p == q <==> ConvertPixel(p) == ConvertPixel(q)
  {
    // The signed order of the stored bytes is the unsigned order of the
    // bytes with their sign bits flipped back, that is, of the pixels.
    SignedOrderIsFlippedUnsignedOrder(p ^ SignBit, q ^ SignBit);
    FlipSignBitInvolutive(p);
    FlipSignBitInvolutive(q);
    ToSignedInjective(p ^ SignBit, q ^ SignBit);
  }

  /** The raw bytes a frame becomes: every byte with its sign bit flipped. */
  function FlipSignBits(s: seq<bv8>): (r: seq<bv8>)
    ensures |r| == |s|
  {
    if s == [] then [] else [s[0] ^ SignBit] + FlipSignBits(s[1..])
  }

  /** Position k of the converted frame holds pixel k with its sign bit
      flipped, which read as signed is pixel k minus 128. */
  lemma {:induction false} FlipSignBitsAt(s: seq<bv8>, k: nat)
    requires k < |s|
    ensures FlipSignBits(s)[k] == s[k] ^ SignBit
    ensures ToSigned(FlipSignBits(s)[k]) == ConvertPixel(s[k]) == s[k] as int - 128
  {
    if k > 0 {
      FlipSignBitsAt(s[1..], k - 1);
    }
  }

  /** Converting a converted frame again gives back the original frame. */
  lemma {:induction false} FlipSignBitsInvolutive(s: seq<bv8>)
    ensures FlipSignBits(FlipSignBits(s)) == s
  {
    if s != [] {
      FlipSignBitsInvolutive(s[1..]);
      FlipSignBitInvolutive(s[0]);
    }
  }

  /** The conversion loop of `run_inference`: for i in [0, cols * rows) the
      input tensor's `int8` view at i receives pixel i with its sign bit
      flipped. `input` holds the tensor's raw bytes; `pixels` may be the same
      buffer, since position i is read before it is written. */
  method ConvertFrame(pixels: array<bv8>, input: array<bv8>, cols: nat, rows: nat)
    requires cols * rows <= pixels.Length && cols * rows <= input.Length
    modifies input
    ensures input[..cols * rows] == FlipSignBits(old(pixels[..cols * rows]))
    ensures forall k :: 0 <= k < cols * rows ==> ToSigned(input[k]) == old(pixels[k]) as int - 128
    ensures forall k :: cols * rows <= k < input.Length ==> input[k] == old(input[k])
  {
    ghost var frame := pixels[..cols * rows];
    var n := cols * rows;
    var i := 0;
    while i < n
      invariant 0 <= i <= n
      invariant forall k :: 0 <= k < i ==> input[k] == old(pixels[k]) ^ SignBit
      invariant forall k :: i <= k < input.Length ==> input[k] == old(input[k])
      invariant forall k :: i <= k < pixels.Length ==> pixels[k] == old(pixels[k])
    {
      input[i] := pixels[i] ^ SignBit;
      i := i + 1;
    }
    forall k | 0 <= k < n
      ensures input[..n][k] == FlipSignBits(frame)[k]
      ensures ToSigned(input[k]) == old(pixels[k]) as int - 128
    {
      FlipSignBitsAt(frame, k);
    }
  }
}
