/** Conversion between the 4-byte RGBA pixels that a PAA texture stores and
    the 3-byte RGB pixels of an image without alpha channel. Pixels are
    stored one after the other, red, green, blue and then alpha. */
module AlphaNormalizer {
  import opened Texture

  /** The alpha byte that export inserts: fully opaque. */
  const Opaque: uint8 := 255

  /** The RGBA buffer `s` with the alpha byte of every pixel dropped, pixel
      by pixel from the start (a trailing partial pixel is not a pixel). */
  function Stripped(s: seq<uint8>): seq<uint8>
    decreases |s|
  {
    if |s| < 4 then [] else s[..3] + Stripped(s[4..])
  }

  /** The RGB buffer `s` with an opaque alpha byte after every pixel. */
  function Expanded(s: seq<uint8>): seq<uint8>
    decreases |s|
  {
    if |s| < 3 then [] else s[..3] + [Opaque] + Expanded(s[3..])
  }

  /** Every alpha byte of the RGBA buffer `s` is 255. */
  predicate AllOpaque(s: seq<uint8>)
  {
    forall i :: 0 <= i < |s| && i % 4 == 3 ==> s[i] == Opaque
  }

  /** `n` copies of the pixel `p`, one after the other. */
  function Repeat(p: seq<uint8>, n: nat): seq<uint8>
  {
    if n == 0 then [] else p + Repeat(p, n - 1)
  }

  /** n RGBA pixels strip to n RGB pixels. */
  lemma {:induction false} StrippedLength(s: seq<uint8>, n: nat)
    requires |s| == 4 * n
    ensures |Stripped(s)| == 3 * n
  {
    if n > 0 {
      StrippedLength(s[4..], n - 1);
    }
  }

  /** n RGB pixels expand to n RGBA pixels. */
  lemma {:induction false} ExpandedLength(s: seq<uint8>, n: nat)
    requires |s| == 3 * n
    ensures |Expanded(s)| == 4 * n
  {
    if n > 0 {
      ExpandedLength(s[3..], n - 1);
    }
  }

  /** Stripping works pixel by pixel: a buffer of whole pixels followed by
      more bytes strips to the two parts stripped. */
  lemma {:induction false} StrippedAppend(a: seq<uint8>, b: seq<uint8>, n: nat)
    requires |a| == 4 * n
    ensures Stripped(a + b) == Stripped(a) + Stripped(b)
  {
    if n > 0 {
      assert (a + b)[..3] == a[..3];
      assert (a + b)[4..] == a[4..] + b;
      StrippedAppend(a[4..], b, n - 1);
    } else {
      assert a + b == b;
    }
  }

  /** Expanding works pixel by pixel. */
  lemma {:induction false} ExpandedAppend(a: seq<uint8>, b: seq<uint8>, n: nat)
    requires |a| == 3 * n
    ensures Expanded(a + b) == Expanded(a) + Expanded(b)
  {
    if n > 0 {
      assert (a + b)[..3] == a[..3];
      assert (a + b)[3..] == a[3..] + b;
      ExpandedAppend(a[3..], b, n - 1);
    } else {
      assert a + b == b;
    }
  }

  /** Byte j < 3 of pixel k of the stripped buffer is byte j of pixel k of
      the input: colours are kept, in pixel order. */
  lemma {:induction false} StrippedPixel(s: seq<uint8>, k: nat, j: nat)
    requires 4 * k + 4 <= |s| && j < 3
    ensures 3 * k + j < |Stripped(s)| && Stripped(s)[3 * k + j] == s[4 * k + j]
  {
    if k > 0 {
      StrippedPixel(s[4..], k - 1, j);
    }
  }

  /** Byte j < 3 of pixel k of the expanded buffer is byte j of pixel k of
      the input, and byte 3 is 255. */
  lemma {:induction false} ExpandedPixel(s: seq<uint8>, k: nat, j: nat)
    requires 3 * k + 3 <= |s| && j < 4
    ensures 4 * k + j < |Expanded(s)|
    ensures Expanded(s)[4 * k + j] == if j == 3 then Opaque else s[3 * k + j]
  {
    if k > 0 {
      ExpandedPixel(s[3..], k - 1, j);
    }
  }

  /** Stripping an expanded buffer gives back the RGB buffer. */
  lemma {:induction false} StripExpand(s: seq<uint8>)
    requires |s| % 3 == 0
    ensures Stripped(Expanded(s)) == s
    decreases |s|
  {
    if s != [] {
      var e := Expanded(s);
      assert e[..3] == s[..3];
      assert e[4..] == Expanded(s[3..]);
      StripExpand(s[3..]);
      assert s == s[..3] + s[3..];
    }
  }

  /** The first pixel of a buffer is opaque, and so are the others, exactly
      when the whole buffer is. */
  lemma AllOpaqueFirst(s: seq<uint8>)
    requires |s| >= 4
    ensures AllOpaque(s) <==> s[3] == Opaque && AllOpaque(s[4..])
  {
  }

  /** Expanding a stripped buffer restores it exactly when every alpha byte
      of the original was 255. */
  lemma {:induction false} ExpandStrip(s: seq<uint8>)
    requires |s| % 4 == 0
    ensures Expanded(Stripped(s)) == s <==> AllOpaque(s)
    decreases |s|
  {
    if s != [] {
      var rest := s[4..];
      var t := Stripped(s);
      assert t[..3] == s[..3] && t[3..] == Stripped(rest);
      var e := Expanded(t);
      assert e == s[..3] + [Opaque] + Expanded(Stripped(rest));
      ExpandStrip(rest);
      AllOpaqueFirst(s);
      StrippedLength(rest, |rest| / 4);
      ExpandedLength(Stripped(rest), |rest| / 4);
      if e == s {
        assert s[3] == e[3] == Opaque;
        assert rest == e[4..] == Expanded(Stripped(rest));
      }
      if s[3] == Opaque && Expanded(Stripped(rest)) == rest {
        assert s == s[..3] + [s[3]] + rest;
      }
    }
  }

  /** A buffer of one repeated RGB pixel expands to the same pixel with
      alpha 255, repeated. */
  lemma {:induction false} ExpandRepeat(r: uint8, g: uint8, b: uint8, n: nat)
    ensures Expanded(Repeat([r, g, b], n)) == Repeat([r, g, b, Opaque], n)
  {
    if n > 0 {
      var s := Repeat([r, g, b], n);
      assert s[..3] == [r, g, b] && s[3..] == Repeat([r, g, b], n - 1);
      ExpandRepeat(r, g, b, n - 1);
    }
  }

  /** A buffer of one repeated RGBA pixel strips to its RGB part, repeated. */
  lemma {:induction false} StripRepeat(r: uint8, g: uint8, b: uint8, a: uint8, n: nat)
    ensures Stripped(Repeat([r, g, b, a], n)) == Repeat([r, g, b], n)
  {
    if n > 0 {
      var s := Repeat([r, g, b, a], n);
      assert s[..3] == [r, g, b] && s[4..] == Repeat([r, g, b, a], n - 1);
      StripRepeat(r, g, b, a, n - 1);
    }
  }

  /** Stripping one more pixel of a prefix appends that pixel's colours. */
  lemma StrippedPrefix(s: seq<uint8>, i: nat, k: nat)
    requires i == 4 * k && i + 4 <= |s|
    ensures Stripped(s[..i + 4]) == Stripped(s[..i]) + [s[i], s[i + 1], s[i + 2]]
  {
    assert s[..i + 4] == s[..i] + s[i..i + 4];
    StrippedAppend(s[..i], s[i..i + 4], k);
  }

  /** Expanding one more pixel of a prefix appends that pixel and 255. */
  lemma ExpandedPrefix(s: seq<uint8>, i: nat, k: nat)
    requires i == 3 * k && i + 3 <= |s|
    ensures Expanded(s[..i + 3]) == Expanded(s[..i]) + [s[i], s[i + 1], s[i + 2], Opaque]
  {
    assert s[..i + 3] == s[..i] + s[i..i + 3];
    ExpandedAppend(s[..i], s[i..i + 3], k);
  }

  /** The import loop: copies bytes 0..2 of every 4-byte pixel into a new
      buffer with stride 4. */
  method StripAlpha(data: seq<uint8>) returns (temp: seq<uint8>)
    requires |data| % 4 == 0
    ensures temp == Stripped(data)
  {
    ghost var n := |data| / 4;
    ghost var k := 0;
    temp := [];
    var i := 0;
    while i < |data|
      invariant i == 4 * k && k <= n && |data| == 4 * n
      invariant temp == Stripped(data[..i])
    {
      StrippedPrefix(data, i, k);
      temp := temp + [data[i]];
      temp := temp + [data[i + 1]];
      temp := temp + [data[i + 2]];
      i, k := i + 4, k + 1;
    }
    assert data[..i] == data;
  }

  /** The export loop: copies every 3-byte pixel into a new buffer and
      appends an alpha byte of 255 after each. */
  method ExpandAlpha(data: seq<uint8>) returns (temp: seq<uint8>)
    requires |data| % 3 == 0
    ensures temp == Expanded(data)
  {
    ghost var n := |data| / 3;
    ghost var k := 0;
    temp := [];
    var i := 0;
    while i < |data|
      invariant i == 3 * k && k <= n && |data| == 3 * n
      invariant temp == Expanded(data[..i])
    {
      ExpandedPrefix(data, i, k);
      temp := temp + [data[i]];
      temp := temp + [data[i + 1]];
      temp := temp + [data[i + 2]];
      temp := temp + [Opaque];
      i, k := i + 3, k + 1;
    }
    assert data[..i] == data;
  }
}
