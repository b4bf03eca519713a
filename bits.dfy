/**
 * Bit/byte converters of the codec: bytes and 32-bit words expanded into
 * most-significant-bit-first bit lists, and bit lists packed back into
 * bytes or words in groups, a trailing short group being dropped.
 */
module Bits {

  import opened Arith

  type Byte = x: int | 0 <= x < 256
  type Word = x: int | 0 <= x < 0x1_0000_0000

  function Pow2(n: nat): (r: nat)
    ensures r >= 1
  {
    if n == 0 then 1 else 2 * Pow2(n - 1)
  }

  lemma Pow2Values()
    ensures Pow2(8) == 256 && Pow2(32) == 0x1_0000_0000
  {
    assert Pow2(4) == 16;
    assert Pow2(8) == 256;
    assert Pow2(16) == 65536;
    assert Pow2(24) == 16777216;
  }

  /** The low `n` bits of `v`, most significant first. */
  function ToBits(v: nat, n: nat): (r: seq<bool>)
    ensures |r| == n
  {
    if n == 0 then [] else ToBits(v / 2, n - 1) + [v % 2 == 1]
  }

  /** The value of a bit list read most significant first: the fold `v * 2 + b`. */
  function FromBits(bits: seq<bool>): nat
  {
    if bits == [] then 0
    else 2 * FromBits(bits[..|bits| - 1]) + (if bits[|bits| - 1] then 1 else 0)
  }

  /** Each value expanded to `n` bits, concatenated in order. */
  function Expand(ws: seq<nat>, n: nat): seq<bool>
  {
    if ws == [] then [] else ToBits(ws[0], n) + Expand(ws[1..], n)
  }

  /** Consecutive groups of `n` bits packed into values; a trailing group shorter than `n` is dropped. */
  function Pack(bits: seq<bool>, n: nat): seq<nat>
    requires n > 0
    decreases |bits|
  {
    if |bits| < n then [] else [FromBits(bits[..n])] + Pack(bits[n..], n)
  }

  predicate Below(ws: seq<nat>, n: nat)
  {
    forall i :: 0 <= i < |ws| ==> ws[i] < Pow2(n)
  }

  // ---------------------------------------------------------------------
  // Properties of the specification functions

  /** Bit `k` of `ToBits(v, n)` is the bit of weight 2^(n-1-k): most significant first. */
  lemma {:induction false} ToBitsAt(v: nat, n: nat, k: nat)
    requires k < n
    ensures ToBits(v, n)[k] == ((v / Pow2(n - 1 - k)) % 2 == 1)
  {
    if k == n - 1 {
    } else {
      ToBitsAt(v / 2, n - 1, k);
      DivDiv(v, Pow2(n - 2 - k));
    }
  }

  lemma DivDiv(v: nat, p: nat)
    requires p >= 1
    ensures v / 2 / p == v / (2 * p)
  {
    var h := v / 2;
    DivMod(v, 2);
    DivMod(h, p);
    var q, r2 := h / p, h % p;
    assert v == 2 * (q * p + r2) + v % 2;
    assert v == q * (2 * p) + (2 * r2 + v % 2);
    DivModUnique(v, 2 * p, q, 2 * r2 + v % 2);
  }

  lemma {:induction false} FromBitsBound(bits: seq<bool>)
    ensures FromBits(bits) < Pow2(|bits|)
  {
    if bits != [] {
      FromBitsBound(bits[..|bits| - 1]);
    }
  }

  /** Reading back the `n` bits of `v` gives `v` modulo 2^n. */
  lemma {:induction false} FromToBits(v: nat, n: nat)
    ensures FromBits(ToBits(v, n)) == v % Pow2(n)
  {
    if n > 0 {
      var b := ToBits(v, n);
      assert b[..n - 1] == ToBits(v / 2, n - 1);
      FromToBits(v / 2, n - 1);
      ModMul(v, Pow2(n - 1));
    }
  }

  lemma ModMul(v: nat, p: nat)
    requires p >= 1
    ensures v % (2 * p) == 2 * ((v / 2) % p) + v % 2
  {
    var h := v / 2;
    DivMod(v, 2);
    DivMod(h, p);
    var q, r2 := h / p, h % p;
    assert v == 2 * (q * p + r2) + v % 2;
    assert v == q * (2 * p) + (2 * r2 + v % 2);
    DivModUnique(v, 2 * p, q, 2 * r2 + v % 2);
  }

  lemma {:induction false} ExpandLength(ws: seq<nat>, n: nat)
    ensures |Expand(ws, n)| == n * |ws|
  {
    if ws != [] {
      ExpandLength(ws[1..], n);
    }
  }

  /** Bit `k` of the `i`-th value lands at position `i * n + k` of the expansion. */
  lemma {:induction false} ExpandAt(ws: seq<nat>, n: nat, i: nat, k: nat)
    requires i < |ws| && k < n
    ensures i * n + k < |Expand(ws, n)|
    ensures Expand(ws, n)[i * n + k] == ToBits(ws[i], n)[k]
  {
    ExpandLength(ws, n);
    IndexBelow(i, k, n, |ws|);
    if i > 0 {
      ExpandAt(ws[1..], n, i - 1, k);
      var j := (i - 1) * n + k;
      assert i * n + k == n + j;
      assert Expand(ws, n)[n + j] == Expand(ws[1..], n)[j];
    }
  }

  lemma IndexBelow(i: nat, k: nat, n: nat, m: nat)
    requires i < m && k < n
    ensures i * n + k < n * m
  {
    MulBelow(i, m, n);
  }

  lemma {:induction false} PackLength(bits: seq<bool>, n: nat)
    requires n > 0
    ensures |Pack(bits, n)| == |bits| / n
    decreases |bits|
  {
    if |bits| >= n {
      PackLength(bits[n..], n);
      DivStep(|bits|, n);
    }
  }

  lemma DivStep(m: nat, n: nat)
    requires n > 0 && m >= n
    ensures m / n == 1 + (m - n) / n && m % n == (m - n) % n
  {
    DivMod(m - n, n);
    var q, r := (m - n) / n, (m - n) % n;
    assert m == (q + 1) * n + r;
    DivModUnique(m, n, q + 1, r);
  }

  /** A prefix whose length is a multiple of `n` packs independently of what follows. */
  lemma {:induction false} PackAppend(a: seq<bool>, b: seq<bool>, n: nat)
    requires n > 0 && |a| % n == 0
    ensures Pack(a + b, n) == Pack(a, n) + Pack(b, n)
    decreases |a|
  {
    if |a| > 0 {
      assert |a| >= n by {
        var k := |a| / n;
        DivMod(|a|, n);
        if k < 0 {
          MulAtLeast(-k, n);
        }
      }
      DivStep(|a|, n);
      assert (a + b)[..n] == a[..n];
      assert (a + b)[n..] == a[n..] + b;
      PackAppend(a[n..], b, n);
      calc {
        Pack(a + b, n);
        [FromBits(a[..n])] + Pack(a[n..] + b, n);
        [FromBits(a[..n])] + (Pack(a[n..], n) + Pack(b, n));
        ([FromBits(a[..n])] + Pack(a[n..], n)) + Pack(b, n);
        Pack(a, n) + Pack(b, n);
      }
    } else {
      assert a + b == b;
    }
  }

  /** Packing a further `n` bits onto an `n`-aligned prefix appends one value. */
  lemma PackStep(bits: seq<bool>, start: nat, n: nat)
    requires n > 0 && start % n == 0 && start + n <= |bits|
    ensures Pack(bits[..start + n], n) == Pack(bits[..start], n) + [FromBits(bits[start..start + n])]
    ensures (start + n) % n == 0
  {
    var a, b := bits[..start], bits[start..start + n];
    assert bits[..start + n] == a + b;
    PackAppend(a, b, n);
    assert b[..n] == b && b[n..] == [];
    DivStep(start + n, n);
  }

  /** Round trip: values below 2^n survive expansion into bits and packing back. */
  lemma {:induction false} PackExpand(ws: seq<nat>, n: nat)
    requires n > 0 && Below(ws, n)
    ensures Pack(Expand(ws, n), n) == ws
  {
    if ws != [] {
      var head, rest := ToBits(ws[0], n), Expand(ws[1..], n);
      assert Expand(ws, n) == head + rest;
      assert |head| % n == 0 by {
        DivModUnique(n, n, 1, 0);
      }
      PackAppend(head, rest, n);
      assert Pack(head, n) == [ws[0]] by {
        assert head[n..] == [];
        assert head[..n] == head;
        FromToBits(ws[0], n);
        assert ws[0] % Pow2(n) == ws[0] by {
          DivModUnique(ws[0], Pow2(n), 0, ws[0]);
        }
      }
      PackExpand(ws[1..], n);
    }
  }

  /** A trailing group shorter than `n` is dropped without error. */
  lemma {:induction false} PackDropsTail(bits: seq<bool>, tail: seq<bool>, n: nat)
    requires n > 0 && |bits| % n == 0 && |tail| < n
    ensures Pack(bits + tail, n) == Pack(bits, n)
  {
    PackAppend(bits, tail, n);
    assert Pack(bits, n) + [] == Pack(bits, n);
  }

  // ---------------------------------------------------------------------
  // The converters, as the loops in the source run them

  /**
   * Expands every value to `n` bits, most significant first, pushing one bit at a time.
   * Shared by `rip_binary` (n = 8) and `rip_binary_u32` (n = 32).
   */
  method Rip(ws: seq<nat>, n: nat) returns (bits: seq<bool>)
    ensures bits == Expand(ws, n)
    ensures |bits| == n * |ws|
  {
    bits := [];
    var i := 0;
    while i < |ws|
      invariant 0 <= i <= |ws|
      invariant bits + Expand(ws[i..], n) == Expand(ws, n)
    {
      var w := ws[i];
      var k := 0;
      ghost var before := bits;
      while k < n
        invariant 0 <= k <= n
        invariant bits == before + ToBits(w, n)[..k]
      {
        ToBitsPrefix(w, n, k);
        bits := bits + [(w / Pow2(n - 1 - k)) % 2 == 1];
        k := k + 1;
      }
      ExpandStep(ws, n, i, before);
      i := i + 1;
    }
    assert ws[|ws|..] == [];
    ExpandLength(ws, n);
  }

  /** The first k + 1 bits of a value are its first k bits and the bit of weight 2^(n-1-k). */
  lemma ToBitsPrefix(v: nat, n: nat, k: nat)
    requires k < n
    ensures ToBits(v, n)[..k + 1] == ToBits(v, n)[..k] + [(v / Pow2(n - 1 - k)) % 2 == 1]
  {
    ToBitsAt(v, n, k);
    assert ToBits(v, n)[..k + 1] == ToBits(v, n)[..k] + [ToBits(v, n)[k]];
  }

  /** The expansion loop's outer step: the bits of value `i` continue the ones before it. */
  lemma ExpandStep(ws: seq<nat>, n: nat, i: nat, before: seq<bool>)
    requires i < |ws| && before + Expand(ws[i..], n) == Expand(ws, n)
    ensures (before + ToBits(ws[i], n)[..n]) + Expand(ws[i + 1..], n) == Expand(ws, n)
  {
    assert ToBits(ws[i], n)[..n] == ToBits(ws[i], n);
    assert ws[i..][1..] == ws[i + 1..];
    assert Expand(ws[i..], n) == ToBits(ws[i], n) + Expand(ws[i + 1..], n);
  }

  /** `rip_binary`: 8 bits per byte, most significant first; packing them in bytes gives the input back. */
  method RipBinary(bytes: seq<Byte>) returns (bits: seq<bool>)
    ensures bits == Expand(bytes, 8) && |bits| == 8 * |bytes|
    ensures Pack(bits, 8) == bytes
  {
    bits := Rip(bytes, 8);
    Pow2Values();
    PackExpand(bytes, 8);
  }

  /** `rip_binary_u32`: 32 bits per word, most significant first; packing them in words gives the input back. */
  method RipBinaryU32(words: seq<Word>) returns (bits: seq<bool>)
    ensures bits == Expand(words, 32) && |bits| == 32 * |words|
    ensures Pack(bits, 32) == words
  {
    bits := Rip(words, 32);
    Pow2Values();
    PackExpand(words, 32);
  }

  /** Bit `k` of the `i`-th value of an expansion is the bit of weight 2^(n-1-k) of that value. */
  lemma ExpandBitAt(ws: seq<nat>, n: nat, i: nat, k: nat)
    requires i < |ws| && k < n
    ensures i * n + k < |Expand(ws, n)|
    ensures Expand(ws, n)[i * n + k] == ((ws[i] / Pow2(n - 1 - k)) % 2 == 1)
  {
    ExpandAt(ws, n, i, k);
    ToBitsAt(ws[i], n, k);
  }

  /** The fold `(v << 1) + b` over a buffer; the buffer is never wider than the target type. */
  method FoldBits(buffer: seq<bool>) returns (v: nat)
    ensures v == FromBits(buffer)
    ensures v < Pow2(|buffer|)
  {
    v := 0;
    var j := 0;
    while j < |buffer|
      invariant 0 <= j <= |buffer|
      invariant v == FromBits(buffer[..j])
    {
      assert buffer[..j + 1][..j] == buffer[..j];
      v := 2 * v + (if buffer[j] then 1 else 0);
      j := j + 1;
    }
    assert buffer[..|buffer|] == buffer;
    FromBitsBound(buffer);
  }

  /**
   * The state of the translate loop after the first `i` bits: `buffer` holds
   * the bits since the last flush, fewer than `n` of them, and `out` the values
   * packed from all bits before it.
   */
  ghost predicate Buffered(bits: seq<bool>, n: nat, i: nat, buffer: seq<bool>, out: seq<nat>)
  {
    n > 0 && |buffer| < n && |buffer| <= i <= |bits| &&
    (i - |buffer|) % n == 0 && buffer == bits[i - |buffer|..i] && out == Pack(bits[..i - |buffer|], n)
  }

  /** Pushing bit `i` into a buffer that stays short of `n` bits. */
  lemma BufferedPush(bits: seq<bool>, n: nat, i: nat, buffer: seq<bool>, out: seq<nat>)
    requires Buffered(bits, n, i, buffer, out) && i < |bits| && |buffer| + 1 < n
    ensures Buffered(bits, n, i + 1, buffer + [bits[i]], out)
  {
    assert buffer + [bits[i]] == bits[i - |buffer|..i + 1];
  }

  /** Pushing bit `i` fills the buffer: it is packed into one more value and emptied. */
  lemma BufferedFlush(bits: seq<bool>, n: nat, i: nat, buffer: seq<bool>, out: seq<nat>)
    requires Buffered(bits, n, i, buffer, out) && i < |bits| && |buffer| + 1 == n
    ensures Buffered(bits, n, i + 1, [], out + [FromBits(buffer + [bits[i]])])
  {
    var start := i - |buffer|;
    assert buffer + [bits[i]] == bits[start..start + n];
    PackStep(bits, start, n);
    assert Pack(bits[..i + 1], n) == out + [FromBits(buffer + [bits[i]])];
  }

  /** Once every bit is pushed, what was flushed is `Pack`: the partial buffer is dropped. */
  lemma BufferedEnd(bits: seq<bool>, n: nat, buffer: seq<bool>, out: seq<nat>)
    requires Buffered(bits, n, |bits|, buffer, out)
    ensures out == Pack(bits, n) && |out| == |bits| / n && Below(out, n)
  {
    var m := |bits| - |buffer|;
    assert bits == bits[..m] + buffer;
    PackDropsTail(bits[..m], buffer, n);
    PackLength(bits, n);
    PackAllBelow(bits, n);
  }

  /**
   * Pushes bits into a buffer that is emptied into one packed value whenever
   * it holds `n` bits. Shared by `translate_u8` (n = 8) and `translate_u32` (n = 32).
   */
  method Translate(bits: seq<bool>, n: nat) returns (out: seq<nat>)
    requires n > 0
    ensures out == Pack(bits, n)
    ensures |out| == |bits| / n && Below(out, n)
  {
    var buffer: seq<bool> := [];
    out := [];
    var i := 0;
    while i < |bits|
      invariant Buffered(bits, n, i, buffer, out)
    {
      ghost var before := buffer;
      buffer := buffer + [bits[i]];
      if |buffer| == n {
        var v := FoldBits(buffer);
        BufferedFlush(bits, n, i, before, out);
        out := out + [v];
        buffer := [];
      } else {
        BufferedPush(bits, n, i, before, out);
      }
      i := i + 1;
    }
    BufferedEnd(bits, n, buffer, out);
  }

  lemma {:induction false} PackBelow(bits: seq<bool>, n: nat, j: nat)
    requires n > 0 && j < |Pack(bits, n)|
    ensures Pack(bits, n)[j] < Pow2(n)
    decreases |bits|
  {
    if j == 0 {
      FromBitsBound(bits[..n]);
    } else {
      PackBelow(bits[n..], n, j - 1);
    }
  }

  lemma PackAllBelow(bits: seq<bool>, n: nat)
    requires n > 0
    ensures Below(Pack(bits, n), n)
  {
    forall j | 0 <= j < |Pack(bits, n)| ensures Pack(bits, n)[j] < Pow2(n) {
      PackBelow(bits, n, j);
    }
  }

  /** `Pack` at width 32, typed as u32 words. */
  function PackU32(bits: seq<bool>): (ws: seq<Word>)
    ensures ws == Pack(bits, 32)
  {
    PackAllBelow(bits, 32);
    Pow2Values();
    Pack(bits, 32)
  }

  /** `Pack` at width 8, typed as bytes. */
  function PackU8(bits: seq<bool>): (bs: seq<Byte>)
    ensures bs == Pack(bits, 8)
  {
    PackAllBelow(bits, 8);
    Pow2Values();
    Pack(bits, 8)
  }

  method TranslateU8(bits: seq<bool>) returns (bytes: seq<Byte>)
    ensures |bytes| == |bits| / 8
    ensures bytes == Pack(bits, 8) && bytes == PackU8(bits)
  {
    var out := Translate(bits, 8);
    Pow2Values();
    bytes := out;
  }

  method TranslateU32(bits: seq<bool>) returns (words: seq<Word>)
    ensures |words| == |bits| / 32
    ensures words == Pack(bits, 32) && words == PackU32(bits)
  {
    var out := Translate(bits, 32);
    Pow2Values();
    words := out;
  }
}
