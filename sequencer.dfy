/**
 * The frame sequence of a video: `etch` splits the payload into one
 * contiguous chunk per worker, etches each chunk into as many frames as it
 * needs and puts the header frame in front; `read` takes the header from the
 * first frame and decodes the frames after it one by one. Workers run here
 * one after another in chunk order, which is the order their frames are
 * joined in.
 */
module Sequencer {

  import opened Arith
  import opened Bits
  import opened Wrappers
  import opened Settings
  import opened Source
  import opened Codec
  import opened Instructions

  /** `i32::MAX`, the final-frame number `read` passes for Color frames. */
  const I32Max := 0x7FFF_FFFF

  /**
   * `rip_bytes` given the outcome of reading the file: a read error is passed
   * on and an empty file is refused.
   */
  function RipBytes(contents: Result<seq<Byte>>): (r: Result<seq<Byte>>)
    ensures r.Ok? <==> contents.Ok? && |contents.value| > 0
    ensures r.Ok? ==> r.value == contents.value
    ensures contents.Ok? && |contents.value| == 0 ==> r == Err("Empty files cannot be embedded in video")
  {
    if contents.Err? then contents
    else if |contents.value| == 0 then Err("Empty files cannot be embedded in video")
    else contents
  }

  // ---------------------------------------------------------------------
  // Chunking
  // ---------------------------------------------------------------------

  /** The concatenation of a sequence of sequences. */
  function Flatten<T>(ss: seq<seq<T>>): seq<T>
  {
    if ss == [] then [] else Flatten(ss[..|ss| - 1]) + ss[|ss| - 1]
  }

  lemma FlattenAppend<T>(ss: seq<seq<T>>, s: seq<T>)
    ensures Flatten(ss + [s]) == Flatten(ss) + s
  {
    assert (ss + [s])[..|ss|] == ss;
  }

  lemma FlattenPrefix<T>(ss: seq<seq<T>>, i: nat)
    requires i < |ss|
    ensures Flatten(ss[..i + 1]) == Flatten(ss[..i]) + ss[i]
  {
    assert ss[..i + 1] == ss[..i] + [ss[i]];
    FlattenAppend(ss[..i], ss[i]);
  }

  lemma {:induction false} FlattenConcat<T>(a: seq<seq<T>>, b: seq<seq<T>>)
    ensures Flatten(a + b) == Flatten(a) + Flatten(b)
    decreases |b|
  {
    if b == [] {
      assert a + b == a;
    } else {
      var b' := b[..|b| - 1];
      assert a + b == (a + b') + [b[|b| - 1]];
      FlattenAppend(a + b', b[|b| - 1]);
      FlattenConcat(a, b');
      FlattenAppend(b', b[|b| - 1]);
      assert b' + [b[|b| - 1]] == b;
    }
  }

  /**
   * `slice.chunks(n)`: consecutive pieces of `n` elements, the last one
   * shorter when `n` does not divide the length; no piece for an empty slice.
   */
  function Chunks<T>(data: seq<T>, n: nat): (cs: seq<seq<T>>)
    requires n > 0
    ensures |cs| == 0 <==> |data| == 0
    ensures forall i :: 0 <= i < |cs| ==> 0 < |cs[i]| <= n
    ensures forall i :: 0 <= i < |cs| - 1 ==> |cs[i]| == n
    decreases |data|
  {
    if |data| == 0 then []
    else if |data| <= n then [data]
    else [data[..n]] + Chunks(data[n..], n)
  }

  /** The chunks put back together are the payload. */
  lemma {:induction false} ChunksFlatten<T>(data: seq<T>, n: nat)
    requires n > 0
    ensures Flatten(Chunks(data, n)) == data
    decreases |data|
  {
    if |data| == 0 {
    } else if |data| <= n {
      assert Chunks(data, n) == [] + [data];
      FlattenAppend([], data);
    } else {
      var rest := Chunks(data[n..], n);
      ChunksFlatten(data[n..], n);
      FlattenConcat([data[..n]], rest);
      assert [data[..n]] == [] + [data[..n]];
      FlattenAppend([], data[..n]);
      assert data[..n] + data[n..] == data;
    }
  }

  /** A payload of at most `k` chunks' worth gives at most `k` chunks. */
  lemma {:induction false} ChunksCount<T>(data: seq<T>, n: nat, k: nat)
    requires n > 0 && |data| <= k * n
    ensures |Chunks(data, n)| <= k
    decreases |data|
  {
    if |data| == 0 {
    } else if |data| <= n {
    } else {
      assert k * n - n == (k - 1) * n;
      ChunksCount(data[n..], n, k - 1);
    }
  }

  /**
   * The chunk size of `etch`: one more frame than an even share of the whole
   * frames, in payload units. It is a whole number of frames, at least one, and
   * `threads` chunks of it cover the payload.
   */
  function ChunkDataSize(len: nat, fds: nat, threads: nat): (n: nat)
    requires fds > 0 && threads > 0
    ensures n >= fds && n % fds == 0
    ensures n * threads > len
  {
    var k := len / fds / threads + 1;
    ChunkBound(len, fds, threads, k);
    k * fds
  }

  lemma ChunkBound(len: nat, fds: int, threads: int, k: int)
    requires fds > 0 && threads > 0 && k == len / fds / threads + 1
    ensures k * fds >= fds && (k * fds) % fds == 0 && (k * fds) * threads > len
  {
    var q := len / fds;
    MulAtLeast(k, fds);
    DivModUnique(k * fds, fds, k, 0);
    DivMod(len, fds);
    DivMod(q, threads);
    ShareBelow(q, threads, q / threads, k);
    CoverBound(len, fds, q, threads, k);
  }

  lemma ShareBelow(q: int, threads: int, r: int, k: int)
    requires threads > 0 && k == r + 1 && q == r * threads + q % threads && q % threads < threads
    ensures q < k * threads
  {
    assert k * threads == r * threads + threads;
  }

  lemma CoverBound(len: int, fds: int, q: int, threads: int, k: int)
    requires fds > 0 && threads > 0 && q >= 0 && q < k * threads
    requires len == q * fds + len % fds && len % fds < fds
    ensures (k * fds) * threads > len
  {
    MulMono(q + 1, k * threads, fds);
    assert (q + 1) * fds == q * fds + fds;
    assert (k * threads) * fds == (k * fds) * threads;
  }

  /** There are at most `threads` chunks, as many as the workers the source starts at most. */
  lemma ChunksPerThread<T>(data: seq<T>, fds: nat, threads: nat)
    requires fds > 0 && threads > 0
    ensures |Chunks(data, ChunkDataSize(|data|, fds, threads))| <= threads
  {
    var n := ChunkDataSize(|data|, fds, threads);
    assert |data| <= threads * n;
    ChunksCount(data, n, threads);
  }

  // ---------------------------------------------------------------------
  // Colours of a payload
  // ---------------------------------------------------------------------

  lemma GreysAppend(a: seq<bool>, b: seq<bool>)
    ensures Greys(a + b) == Greys(a) + Greys(b)
  {
  }

  lemma TriplesAppend(a: seq<Byte>, b: seq<Byte>)
    requires |a| % 3 == 0
    ensures Triples(a + b) == Triples(a) + Triples(b)
  {
    var m := |a| / 3;
    DivMod(|b|, 3);
    DivModUnique(|a| + |b|, 3, m + |b| / 3, |b| % 3);
    var l, r := Triples(a + b), Triples(a) + Triples(b);
    forall k | 0 <= k < |l| ensures l[k] == r[k] {
      if k >= m {
        var j := k - m;
        assert 3 * k == |a| + 3 * j;
      }
    }
  }

  /** Dropping a trailing one or two bytes changes no colour. */
  lemma TriplesWhole(data: seq<Byte>, m: nat)
    requires m % 3 == 0 && m <= |data| < m + 3
    ensures Triples(data[..m]) == Triples(data)
  {
    DivModUnique(|data|, 3, m / 3, |data| - m);
  }

  /** The colours the blocks of a video carry for a payload: one grey per bit, or one colour per three bytes. */
  function Payload(data: Data): seq<Rgb>
  {
    if data.outMode == Color then Triples(data.bytes) else Greys(data.binary)
  }

  // ---------------------------------------------------------------------
  // Workers
  // ---------------------------------------------------------------------

  /** Frames of these settings hold at least one block, so a worker always moves on. */
  predicate Workable(settings: Settings)
  {
    0 < settings.size <= settings.width && settings.size <= settings.height
  }

  lemma BlocksPositive(src: EmbedSource)
    requires src.Valid() && src.frameSize.width >= src.size && src.frameSize.height >= src.size
    ensures src.Blocks() >= 1
  {
    var c, r := src.Cols(), src.Rows();
    assert src.actualSize.width > 0 && src.actualSize.height > 0;
    MulAtLeast(r, c);
  }

  /** Each frame is a source of the given settings' block size and dimensions. */
  ghost predicate Framed(frames: seq<EmbedSource>, settings: Settings)
  {
    forall i :: 0 <= i < |frames| ==>
      frames[i].Valid() && frames[i].size == settings.size &&
      frames[i].frameSize == Size(settings.width, settings.height)
  }

  /** No two frames share an image. */
  ghost predicate Distinct(frames: seq<EmbedSource>)
  {
    forall i, j :: 0 <= i < j < |frames| ==> frames[i].image != frames[j].image
  }

  /**
   * `frames` are distinct sources of the settings' size and dimensions, and
   * frame i shows the colours `shown[i]`.
   */
  ghost predicate Etched(frames: seq<EmbedSource>, shown: seq<seq<Rgb>>, settings: Settings)
    reads set i | 0 <= i < |frames| :: frames[i].image
  {
    |frames| == |shown| && Framed(frames, settings) && Distinct(frames) &&
    forall i :: 0 <= i < |frames| ==> Shows(frames[i], shown[i])
  }

  /** Every frame of `frames` shows a colour in each of its blocks. */
  ghost predicate Full(frames: seq<EmbedSource>, shown: seq<seq<Rgb>>)
    requires |frames| == |shown| && forall i :: 0 <= i < |frames| ==> frames[i].Valid()
  {
    forall i :: 0 <= i < |frames| ==> |shown[i]| == frames[i].Blocks()
  }

  lemma EtchedAppend(frames: seq<EmbedSource>, shown: seq<seq<Rgb>>, settings: Settings, source: EmbedSource, cs: seq<Rgb>)
    requires Etched(frames, shown, settings)
    requires source.Valid() && source.size == settings.size && source.frameSize == Size(settings.width, settings.height)
    requires Shows(source, cs)
    requires forall i :: 0 <= i < |frames| ==> frames[i].image != source.image
    ensures Etched(frames + [source], shown + [cs], settings)
  {
    var fs, ss := frames + [source], shown + [cs];
    assert forall i :: 0 <= i < |frames| ==> fs[i] == frames[i] && ss[i] == shown[i];
  }

  /** One turn of the Binary worker's loop: a fresh frame etched from `index` on. */
  method FrameBw(settings: Settings, chunk: seq<bool>, index: nat) returns (source: EmbedSource, next: nat, r: Outcome)
    requires Workable(settings) && index < |chunk|
    ensures fresh(source.image) && source.Valid() && source.Blocks() >= 1
    ensures source.size == settings.size && source.frameSize == Size(settings.width, settings.height)
    ensures r.Fail? <==> index + source.Blocks() >= |chunk|
    ensures next == if r.Fail? then |chunk| else index + source.Blocks()
    ensures Shows(source, Greys(chunk[index..next]))
  {
    source := new EmbedSource(settings.size, settings.width, settings.height);
    BlocksPositive(source);
    next, r := EtchBw(source, chunk, index);
  }

  /** One turn of the Color worker's loop. */
  method FrameColor(settings: Settings, chunk: seq<Byte>, index: nat) returns (source: EmbedSource, next: nat, r: Outcome)
    requires Workable(settings) && index + 2 < |chunk|
    ensures fresh(source.image) && source.Valid() && source.Blocks() >= 1
    ensures source.size == settings.size && source.frameSize == Size(settings.width, settings.height)
    ensures r.Fail? <==> index + 3 * source.Blocks() + 2 >= |chunk|
    ensures !r.Fail? ==> next == index + 3 * source.Blocks()
    ensures r.Fail? ==> next + 2 >= |chunk| && next <= |chunk| && (next - index) % 3 == 0
    ensures Shows(source, Triples(chunk[index..next]))
  {
    source := new EmbedSource(settings.size, settings.width, settings.height);
    BlocksPositive(source);
    next, r := EtchColor(source, chunk, index);
  }

  /**
   * The Binary worker: fresh frames, each etched from where the last one
   * stopped, until the etcher reports it ran out of bits; the frame it ran out
   * on is kept. Every frame but the last is full, and the frames together show
   * every bit of the chunk in order.
   */
  method WorkerBw(settings: Settings, chunk: seq<bool>) returns (frames: seq<EmbedSource>, ghost shown: seq<seq<Rgb>>)
    requires Workable(settings) && |chunk| > 0
    ensures Etched(frames, shown, settings) && |frames| > 0
    ensures forall i :: 0 <= i < |frames| ==> fresh(frames[i].image)
    ensures Full(frames[..|frames| - 1], shown[..|frames| - 1])
    ensures Flatten(shown) == Greys(chunk)
  {
    frames, shown := [], [];
    var index: nat := 0;
    while true
      invariant index < |chunk|
      invariant Etched(frames, shown, settings) && Full(frames, shown)
      invariant forall i :: 0 <= i < |frames| ==> fresh(frames[i].image)
      invariant Flatten(shown) == Greys(chunk[..index])
      decreases |chunk| - index
    {
      var source, next, outcome := FrameBw(settings, chunk, index);
      ghost var cs := Greys(chunk[index..next]);
      BwStep(chunk, index, next, shown);
      EtchedAppend(frames, shown, settings, source, cs);
      ghost var before := (frames, shown);
      frames, shown := frames + [source], shown + [cs];
      assert frames[..|frames| - 1] == before.0 && shown[..|frames| - 1] == before.1;
      if outcome.Fail? {
        assert chunk[..next] == chunk;
        return;
      }
      FullAppend(before.0, before.1, source, cs);
      index := next;
    }
  }

  lemma BwStep(chunk: seq<bool>, index: nat, next: nat, shown: seq<seq<Rgb>>)
    requires index <= next <= |chunk| && Flatten(shown) == Greys(chunk[..index])
    ensures Flatten(shown + [Greys(chunk[index..next])]) == Greys(chunk[..next])
  {
    FlattenAppend(shown, Greys(chunk[index..next]));
    GreysAppend(chunk[..index], chunk[index..next]);
    assert chunk[..index] + chunk[index..next] == chunk[..next];
  }

  lemma ColorStep(chunk: seq<Byte>, index: nat, next: nat, shown: seq<seq<Rgb>>)
    requires index <= next <= |chunk| && index % 3 == 0 && (next - index) % 3 == 0
    requires Flatten(shown) == Triples(chunk[..index])
    ensures Flatten(shown + [Triples(chunk[index..next])]) == Triples(chunk[..next]) && next % 3 == 0
  {
    FlattenAppend(shown, Triples(chunk[index..next]));
    TriplesAppend(chunk[..index], chunk[index..next]);
    assert chunk[..index] + chunk[index..next] == chunk[..next];
  }

  lemma FullAppend(frames: seq<EmbedSource>, shown: seq<seq<Rgb>>, source: EmbedSource, cs: seq<Rgb>)
    requires |frames| == |shown| && forall i :: 0 <= i < |frames| ==> frames[i].Valid()
    requires Full(frames, shown) && source.Valid() && |cs| == source.Blocks()
    ensures Full(frames + [source], shown + [cs])
  {
    var fs, ss := frames + [source], shown + [cs];
    assert forall i :: 0 <= i < |frames| ==> fs[i] == frames[i] && ss[i] == shown[i];
  }

  /**
   * The Color worker: as the Binary one, three bytes per block. The chunk must
   * hold a first colour; the trailing `|chunk| % 3` bytes are never etched.
   */
  method WorkerColor(settings: Settings, chunk: seq<Byte>) returns (frames: seq<EmbedSource>, ghost shown: seq<seq<Rgb>>)
    requires Workable(settings) && |chunk| >= 3
    ensures Etched(frames, shown, settings) && |frames| > 0
    ensures forall i :: 0 <= i < |frames| ==> fresh(frames[i].image)
    ensures Full(frames[..|frames| - 1], shown[..|frames| - 1])
    ensures Flatten(shown) == Triples(chunk)
  {
    frames, shown := [], [];
    var index: nat := 0;
    while true
      invariant index + 2 < |chunk| && index % 3 == 0
      invariant Etched(frames, shown, settings) && Full(frames, shown)
      invariant forall i :: 0 <= i < |frames| ==> fresh(frames[i].image)
      invariant Flatten(shown) == Triples(chunk[..index])
      decreases |chunk| - index
    {
      var source, next, outcome := FrameColor(settings, chunk, index);
      ghost var cs := Triples(chunk[index..next]);
      ColorStep(chunk, index, next, shown);
      EtchedAppend(frames, shown, settings, source, cs);
      ghost var before := (frames, shown);
      frames, shown := frames + [source], shown + [cs];
      assert frames[..|frames| - 1] == before.0 && shown[..|frames| - 1] == before.1;
      if outcome.Fail? {
        TriplesWhole(chunk, next);
        return;
      }
      FullAppend(before.0, before.1, source, cs);
      index := next;
    }
  }

  // ---------------------------------------------------------------------
  // Assembling the video
  // ---------------------------------------------------------------------

  /**
   * What `etch` needs to come to an end: dimensions and block size that are
   * not negative and, for a positive block size, frames of at least one block
   * (with none, a worker etches empty frames forever).
   */
  predicate Etchable(settings: Settings)
  {
    settings.width >= 0 && settings.height >= 0 && settings.threads >= 0 && settings.size >= 0 &&
    (settings.size > 0 ==> Workable(settings))
  }

  /**
   * `frame_data_size` of `etch`: payload units per frame, which in Color mode
   * is three bytes per block, unlike the header's count.
   */
  function EtchCapacity(settings: Settings, mode: OutputMode): (c: nat)
    requires settings.width >= 0 && settings.height >= 0 && settings.size != 0
    ensures c == 0 <==> FrameDataSize(settings) == 0
    ensures mode == Color ==> c == 3 * FrameDataSize(settings)
    ensures mode == Binary ==> c == FrameDataSize(settings)
  {
    if mode == Color then FrameDataSize(settings) * 3 else FrameDataSize(settings)
  }

  /** Some chunk is too short to hold one colour. */
  predicate ShortChunk(chunks: seq<seq<Byte>>)
  {
    exists i :: 0 <= i < |chunks| && |chunks[i]| < 3
  }

  /**
   * When `etch` fails: a zero block size, a frame too small for one payload
   * unit or no workers is a division by zero; a Color chunk of one or two
   * bytes makes the etcher index past it; an empty payload leaves no frame
   * after the header to take the video size from.
   */
  predicate EtchFails(data: Data, settings: Settings)
    requires Etchable(settings)
  {
    settings.size == 0 || EtchCapacity(settings, data.outMode) == 0 || settings.threads == 0 ||
    (data.outMode == Color &&
     ShortChunk(Chunks(data.bytes, ChunkDataSize(|data.bytes|, EtchCapacity(settings, Color), settings.threads)))) ||
    Length(data) == 0
  }

  lemma EtchedConcat(a: seq<EmbedSource>, sa: seq<seq<Rgb>>, b: seq<EmbedSource>, sb: seq<seq<Rgb>>, settings: Settings)
    requires Etched(a, sa, settings) && Etched(b, sb, settings)
    requires forall i, j :: 0 <= i < |a| && 0 <= j < |b| ==> a[i].image != b[j].image
    ensures Etched(a + b, sa + sb, settings)
  {
    var f, s := a + b, sa + sb;
    assert forall i :: 0 <= i < |a| ==> f[i] == a[i] && s[i] == sa[i];
    assert forall j :: 0 <= j < |b| ==> f[|a| + j] == b[j] && s[|a| + j] == sb[j];
    forall i, j | 0 <= i < j < |f| ensures f[i].image != f[j].image {
      if j < |a| {
      } else if i >= |a| {
        assert f[i] == b[i - |a|] && f[j] == b[j - |a|];
      } else {
        assert f[j] == b[j - |a|];
      }
    }
    forall i | 0 <= i < |f| ensures f[i].Valid() && Shows(f[i], s[i]) {
      if i >= |a| {
        assert f[i] == b[i - |a|] && s[i] == sb[i - |a|];
      }
    }
  }

  /** The blocks every frame of these settings holds. */
  function FrameBlocks(settings: Settings): nat
    requires Workable(settings)
  {
    (settings.height / settings.size) * (settings.width / settings.size)
  }

  lemma FramedBlocks(frames: seq<EmbedSource>, settings: Settings, i: nat)
    requires Workable(settings) && Framed(frames, settings) && i < |frames|
    ensures frames[i].Blocks() == FrameBlocks(settings)
  {
    var f := frames[i];
    assert f.Rows() == settings.height / settings.size;
    assert f.Cols() == settings.width / settings.size;
  }

  /**
   * The worker frames grouped by chunk: `shown` is the groups one after the
   * other, group `k` holds at least one frame, together its frames show
   * `parts[k]`, and each of them but the last is full (shows `n` colours).
   */
  ghost predicate Grouped(shown: seq<seq<Rgb>>, groups: seq<seq<seq<Rgb>>>, parts: seq<seq<Rgb>>, n: nat)
  {
    shown == Flatten(groups) && |groups| == |parts| &&
    forall k :: 0 <= k < |groups| ==>
      |groups[k]| > 0 && Flatten(groups[k]) == parts[k] &&
      forall j :: 0 <= j < |groups[k]| - 1 ==> |groups[k][j]| == n
  }

  /** A worker's frames, all full but its last, make one more group. */
  lemma GroupedAppend(shown: seq<seq<Rgb>>, groups: seq<seq<seq<Rgb>>>, parts: seq<seq<Rgb>>, settings: Settings,
                      fs: seq<EmbedSource>, ss: seq<seq<Rgb>>, part: seq<Rgb>)
    requires Workable(settings) && Grouped(shown, groups, parts, FrameBlocks(settings))
    requires |fs| == |ss| > 0 && Flatten(ss) == part && Framed(fs, settings)
    requires Full(fs[..|fs| - 1], ss[..|ss| - 1])
    ensures Grouped(shown + ss, groups + [ss], parts + [part], FrameBlocks(settings))
  {
    FlattenAppend(groups, ss);
    var g, p := groups + [ss], parts + [part];
    forall k | 0 <= k < |g|
      ensures |g[k]| > 0 && Flatten(g[k]) == p[k] && forall j :: 0 <= j < |g[k]| - 1 ==> |g[k][j]| == FrameBlocks(settings)
    {
      if k == |groups| {
        forall j | 0 <= j < |ss| - 1 ensures |ss[j]| == FrameBlocks(settings) {
          assert fs[..|fs| - 1][j] == fs[j] && ss[..|ss| - 1][j] == ss[j];
          FramedBlocks(fs, settings, j);
        }
      } else {
        assert g[k] == groups[k] && p[k] == parts[k];
      }
    }
  }

  /** The greys of every chunk, in chunk order. */
  function GreysOf(chunks: seq<seq<bool>>): (ps: seq<seq<Rgb>>)
    ensures |ps| == |chunks|
  {
    if chunks == [] then [] else GreysOf(chunks[..|chunks| - 1]) + [Greys(chunks[|chunks| - 1])]
  }

  /** The colours of every chunk, in chunk order. */
  function TriplesOf(chunks: seq<seq<Byte>>): (ps: seq<seq<Rgb>>)
    ensures |ps| == |chunks|
  {
    if chunks == [] then [] else TriplesOf(chunks[..|chunks| - 1]) + [Triples(chunks[|chunks| - 1])]
  }

  /** Part `k` of `GreysOf(chunks)` is the greys of chunk `k`. */
  lemma {:induction false} GreysOfAt(chunks: seq<seq<bool>>, k: nat)
    requires k < |chunks|
    ensures GreysOf(chunks)[k] == Greys(chunks[k])
    decreases |chunks|
  {
    if k < |chunks| - 1 {
      GreysOfAt(chunks[..|chunks| - 1], k);
    }
  }

  /** Part `k` of `TriplesOf(chunks)` is the colours of chunk `k`. */
  lemma {:induction false} TriplesOfAt(chunks: seq<seq<Byte>>, k: nat)
    requires k < |chunks|
    ensures TriplesOf(chunks)[k] == Triples(chunks[k])
    decreases |chunks|
  {
    if k < |chunks| - 1 {
      TriplesOfAt(chunks[..|chunks| - 1], k);
    }
  }

  lemma GreysOfStep(chunks: seq<seq<bool>>, i: nat)
    requires i < |chunks|
    ensures GreysOf(chunks[..i + 1]) == GreysOf(chunks[..i]) + [Greys(chunks[i])]
  {
    assert chunks[..i + 1][..i] == chunks[..i];
  }

  lemma TriplesOfStep(chunks: seq<seq<Byte>>, i: nat)
    requires i < |chunks|
    ensures TriplesOf(chunks[..i + 1]) == TriplesOf(chunks[..i]) + [Triples(chunks[i])]
  {
    assert chunks[..i + 1][..i] == chunks[..i];
  }
  /** The grouping after one more Binary chunk's worker. */
  lemma GreysGroupedStep(shown: seq<seq<Rgb>>, groups: seq<seq<seq<Rgb>>>, chunks: seq<seq<bool>>, i: nat,
                         settings: Settings, fs: seq<EmbedSource>, ss: seq<seq<Rgb>>)
    requires i < |chunks| && Workable(settings) && Grouped(shown, groups, GreysOf(chunks[..i]), FrameBlocks(settings))
    requires |fs| == |ss| > 0 && Flatten(ss) == Greys(chunks[i]) && Framed(fs, settings)
    requires Full(fs[..|fs| - 1], ss[..|ss| - 1])
    ensures Grouped(shown + ss, groups + [ss], GreysOf(chunks[..i + 1]), FrameBlocks(settings))
  {
    GreysOfStep(chunks, i);
    GroupedAppend(shown, groups, GreysOf(chunks[..i]), settings, fs, ss, Greys(chunks[i]));
  }

  /** The grouping after one more Color chunk's worker. */
  lemma TriplesGroupedStep(shown: seq<seq<Rgb>>, groups: seq<seq<seq<Rgb>>>, chunks: seq<seq<Byte>>, i: nat,
                           settings: Settings, fs: seq<EmbedSource>, ss: seq<seq<Rgb>>)
    requires i < |chunks| && Workable(settings) && Grouped(shown, groups, TriplesOf(chunks[..i]), FrameBlocks(settings))
    requires |fs| == |ss| > 0 && Flatten(ss) == Triples(chunks[i]) && Framed(fs, settings)
    requires Full(fs[..|fs| - 1], ss[..|ss| - 1])
    ensures Grouped(shown + ss, groups + [ss], TriplesOf(chunks[..i + 1]), FrameBlocks(settings))
  {
    TriplesOfStep(chunks, i);
    GroupedAppend(shown, groups, TriplesOf(chunks[..i]), settings, fs, ss, Triples(chunks[i]));
  }

  /** The frames of a grouping, put together, show the parts put together. */
  lemma {:induction false} GroupedFlatten(shown: seq<seq<Rgb>>, groups: seq<seq<seq<Rgb>>>, parts: seq<seq<Rgb>>, n: nat)
    requires Grouped(shown, groups, parts, n)
    ensures Flatten(shown) == Flatten(parts)
    decreases |groups|
  {
    if groups != [] {
      var init, last := groups[..|groups| - 1], groups[|groups| - 1];
      assert forall k :: 0 <= k < |init| ==> init[k] == groups[k] && parts[..|parts| - 1][k] == parts[k];
      GroupedFlatten(Flatten(init), init, parts[..|parts| - 1], n);
      FlattenConcat(Flatten(init), last);
    }
  }

  lemma {:induction false} GreysOfFlatten(chunks: seq<seq<bool>>)
    ensures Flatten(GreysOf(chunks)) == Greys(Flatten(chunks))
    decreases |chunks|
  {
    if chunks != [] {
      var init, last := chunks[..|chunks| - 1], chunks[|chunks| - 1];
      GreysOfFlatten(init);
      FlattenAppend(GreysOf(init), Greys(last));
      GreysAppend(Flatten(init), last);
    }
  }

  /** Chunks whose lengths are all multiples of three put together have such a length. */
  lemma {:induction false} FlattenMultiple(chunks: seq<seq<Byte>>)
    requires forall k :: 0 <= k < |chunks| ==> |chunks[k]| % 3 == 0
    ensures |Flatten(chunks)| % 3 == 0
    decreases |chunks|
  {
    if chunks != [] {
      var init, last := chunks[..|chunks| - 1], chunks[|chunks| - 1];
      assert forall k :: 0 <= k < |init| ==> init[k] == chunks[k];
      FlattenMultiple(init);
      assert |Flatten(chunks)| == |Flatten(init)| + |last|;
    }
  }

  lemma {:induction false} TriplesOfFlatten(chunks: seq<seq<Byte>>)
    requires forall k :: 0 <= k < |chunks| - 1 ==> |chunks[k]| % 3 == 0
    ensures Flatten(TriplesOf(chunks)) == Triples(Flatten(chunks))
    decreases |chunks|
  {
    if chunks != [] {
      var init, last := chunks[..|chunks| - 1], chunks[|chunks| - 1];
      assert forall k :: 0 <= k < |init| ==> init[k] == chunks[k];
      TriplesOfFlatten(init);
      FlattenMultiple(init);
      FlattenAppend(TriplesOf(init), Triples(last));
      TriplesAppend(Flatten(init), last);
    }
  }



  lemma DistinctCons(header: EmbedSource, frames: seq<EmbedSource>)
    requires Distinct(frames) && forall i :: 0 <= i < |frames| ==> frames[i].image != header.image
    ensures Distinct([header] + frames)
  {
    var f := [header] + frames;
    forall i, j | 0 <= i < j < |f| ensures f[i].image != f[j].image {
      assert f[j] == frames[j - 1];
      if i > 0 {
        assert f[i] == frames[i - 1];
      }
    }
  }

  lemma ShortPrefix(chunks: seq<seq<Byte>>, i: nat)
    requires i <= |chunks| && ShortChunk(chunks[..i])
    ensures ShortChunk(chunks)
  {
    var k :| 0 <= k < i && |chunks[..i][k]| < 3;
    assert chunks[k] == chunks[..i][k];
  }

  lemma LongPrefix(chunks: seq<seq<Byte>>, i: nat)
    requires i < |chunks| && !ShortChunk(chunks[..i]) && |chunks[i]| >= 3
    ensures !ShortChunk(chunks[..i + 1])
  {
    var p, q := chunks[..i + 1], chunks[..i];
    forall k | 0 <= k < |p| ensures |p[k]| >= 3 {
      if k < i {
        assert p[k] == q[k];
      }
    }
  }

  /** One iteration of the Color worker loop: chunk `i`'s worker, its frames put after the others. */
  method EtchChunkColor(settings: Settings, chunks: seq<seq<Byte>>, i: nat, workers: seq<EmbedSource>,
                        ghost shown: seq<seq<Rgb>>, ghost groups: seq<seq<seq<Rgb>>>)
    returns (workers': seq<EmbedSource>, ghost shown': seq<seq<Rgb>>, ghost groups': seq<seq<seq<Rgb>>>)
    requires Workable(settings) && i < |chunks| && |chunks[i]| >= 3
    requires Etched(workers, shown, settings) && Grouped(shown, groups, TriplesOf(chunks[..i]), FrameBlocks(settings))
    ensures Etched(workers', shown', settings) && Grouped(shown', groups', TriplesOf(chunks[..i + 1]), FrameBlocks(settings))
    ensures |workers'| > |workers| && workers'[..|workers|] == workers
    ensures forall k :: |workers| <= k < |workers'| ==> fresh(workers'[k].image)
  {
    var fs, ss := WorkerColor(settings, chunks[i]);
    EtchedConcat(workers, shown, fs, ss, settings);
    TriplesGroupedStep(shown, groups, chunks, i, settings, fs, ss);
    workers', shown', groups' := workers + fs, shown + ss, groups + [ss];
    assert workers'[..|workers|] == workers;
  }

  /**
   * The Color workers in chunk order: every chunk is etched unless one is too
   * short to hold a colour, and the frames show the colours of the chunks
   * put together.
   */
  method EtchChunksColor(settings: Settings, chunks: seq<seq<Byte>>)
    returns (ok: bool, workers: seq<EmbedSource>, ghost shown: seq<seq<Rgb>>, ghost groups: seq<seq<seq<Rgb>>>)
    requires Workable(settings)
    requires forall k :: 0 <= k < |chunks| - 1 ==> |chunks[k]| % 3 == 0
    ensures ok <==> !ShortChunk(chunks)
    ensures ok ==> Etched(workers, shown, settings) && (|workers| == 0 <==> |chunks| == 0)
    ensures ok ==> forall k :: 0 <= k < |workers| ==> fresh(workers[k].image)
    ensures ok ==> Flatten(shown) == Triples(Flatten(chunks))
    ensures ok ==> Grouped(shown, groups, TriplesOf(chunks), FrameBlocks(settings))
  {
    workers, shown, groups := [], [], [];
    var i := 0;
    while i < |chunks|
      invariant 0 <= i <= |chunks|
      invariant Etched(workers, shown, settings)
      invariant Grouped(shown, groups, TriplesOf(chunks[..i]), FrameBlocks(settings))
      invariant forall k :: 0 <= k < |workers| ==> fresh(workers[k].image)
      invariant !ShortChunk(chunks[..i])
      invariant (|workers| == 0) == (i == 0)
    {
      if |chunks[i]| < 3 {
        assert |chunks[..i + 1][i]| < 3;
        ShortPrefix(chunks, i + 1);
        return false, [], [], [];
      }
      LongPrefix(chunks, i);
      workers, shown, groups := EtchChunkColor(settings, chunks, i, workers, shown, groups);
      i := i + 1;
    }
    assert chunks[..|chunks|] == chunks;
    assert Flatten(shown) == Triples(Flatten(chunks)) by {
      GroupedFlatten(shown, groups, TriplesOf(chunks), FrameBlocks(settings));
      TriplesOfFlatten(chunks);
    }
    return true, workers, shown, groups;
  }

  /** One iteration of the Binary worker loop: chunk `i`'s worker, its frames put after the others. */
  method EtchChunkBw(settings: Settings, chunks: seq<seq<bool>>, i: nat, workers: seq<EmbedSource>,
                     ghost shown: seq<seq<Rgb>>, ghost groups: seq<seq<seq<Rgb>>>)
    returns (workers': seq<EmbedSource>, ghost shown': seq<seq<Rgb>>, ghost groups': seq<seq<seq<Rgb>>>)
    requires Workable(settings) && i < |chunks| && |chunks[i]| > 0
    requires Etched(workers, shown, settings) && Grouped(shown, groups, GreysOf(chunks[..i]), FrameBlocks(settings))
    ensures Etched(workers', shown', settings) && Grouped(shown', groups', GreysOf(chunks[..i + 1]), FrameBlocks(settings))
    ensures |workers'| > |workers| && workers'[..|workers|] == workers
    ensures forall k :: |workers| <= k < |workers'| ==> fresh(workers'[k].image)
  {
    var fs, ss := WorkerBw(settings, chunks[i]);
    EtchedConcat(workers, shown, fs, ss, settings);
    GreysGroupedStep(shown, groups, chunks, i, settings, fs, ss);
    workers', shown', groups' := workers + fs, shown + ss, groups + [ss];
    assert workers'[..|workers|] == workers;
  }

  /** The Binary workers in chunk order. */
  method EtchChunksBw(settings: Settings, chunks: seq<seq<bool>>)
    returns (workers: seq<EmbedSource>, ghost shown: seq<seq<Rgb>>, ghost groups: seq<seq<seq<Rgb>>>)
    requires Workable(settings) && forall k :: 0 <= k < |chunks| ==> |chunks[k]| > 0
    ensures Etched(workers, shown, settings) && (|workers| == 0 <==> |chunks| == 0)
    ensures forall k :: 0 <= k < |workers| ==> fresh(workers[k].image)
    ensures Flatten(shown) == Greys(Flatten(chunks))
    ensures Grouped(shown, groups, GreysOf(chunks), FrameBlocks(settings))
  {
    workers, shown, groups := [], [], [];
    var i := 0;
    while i < |chunks|
      invariant 0 <= i <= |chunks|
      invariant Etched(workers, shown, settings)
      invariant Grouped(shown, groups, GreysOf(chunks[..i]), FrameBlocks(settings))
      invariant forall k :: 0 <= k < |workers| ==> fresh(workers[k].image)
      invariant (|workers| == 0) == (i == 0)
    {
      workers, shown, groups := EtchChunkBw(settings, chunks, i, workers, shown, groups);
      i := i + 1;
    }
    assert chunks[..|chunks|] == chunks;
    assert Flatten(shown) == Greys(Flatten(chunks)) by {
      GroupedFlatten(shown, groups, GreysOf(chunks), FrameBlocks(settings));
      GreysOfFlatten(chunks);
    }
  }

  /**
   * What each worker is given to show: the payload cut into chunks of the
   * chunk data size, one grey per bit in Binary mode and one colour per
   * three bytes in Color mode.
   */
  function Parts(data: Data, settings: Settings): seq<seq<Rgb>>
    requires Workable(settings) && settings.threads > 0 && EtchCapacity(settings, data.outMode) > 0
  {
    var cds := ChunkDataSize(Length(data), EtchCapacity(settings, data.outMode), settings.threads);
    if data.outMode == Color then TriplesOf(Chunks(data.bytes, cds)) else GreysOf(Chunks(data.binary, cds))
  }

  /**
   * The worker part of `etch`: the payload cut into chunks of `cds` units,
   * each etched by its own worker, the frames kept in chunk order. In Color
   * mode a chunk shorter than three bytes is the source's index panic.
   */
  method EtchPayload(data: Data, settings: Settings)
    returns (ok: bool, workers: seq<EmbedSource>, ghost shown: seq<seq<Rgb>>, ghost groups: seq<seq<seq<Rgb>>>)
    requires Workable(settings) && settings.threads > 0 && EtchCapacity(settings, data.outMode) > 0
    ensures var cds := ChunkDataSize(Length(data), EtchCapacity(settings, data.outMode), settings.threads);
      ok <==> !(data.outMode == Color && ShortChunk(Chunks(data.bytes, cds)))
    ensures ok ==> Etched(workers, shown, settings) && (|workers| == 0 <==> Length(data) == 0)
    ensures ok ==> forall k :: 0 <= k < |workers| ==> fresh(workers[k].image)
    ensures ok ==> Flatten(shown) == Payload(data)
    ensures ok ==> Grouped(shown, groups, Parts(data, settings), FrameBlocks(settings))
  {
    var fds := EtchCapacity(settings, data.outMode);
    var cds := ChunkDataSize(Length(data), fds, settings.threads);
    if data.outMode == Color {
      ModOfMultiple(cds, fds, 3);
      var chunks := Chunks(data.bytes, cds);
      ok, workers, shown, groups := EtchChunksColor(settings, chunks);
      if ok {
        ChunksFlatten(data.bytes, cds);
      }
    } else {
      var chunks := Chunks(data.binary, cds);
      workers, shown, groups := EtchChunksBw(settings, chunks);
      ChunksFlatten(data.binary, cds);
      ok := true;
    }
  }

  /**
   * `etch` without the video writer: the header frame, then the frames of
   * every chunk's worker in chunk order. Together the worker frames show the
   * whole payload in order, one grey per bit or one colour per three bytes.
   */
  method Etch(data: Data, settings: Settings)
    returns (r: Result<seq<EmbedSource>>, ghost shown: seq<seq<Rgb>>, ghost groups: seq<seq<seq<Rgb>>>)
    requires Etchable(settings)
    ensures r.Err? <==> EtchFails(data, settings)
    ensures r.Ok? ==> |r.value| >= 2 && HeaderFrame(r.value[0], settings, data)
    ensures r.Ok? ==> Etched(r.value[1..], shown, settings) && Distinct(r.value)
    ensures r.Ok? ==> forall i :: 0 <= i < |r.value| ==> fresh(r.value[i].image)
    ensures r.Ok? ==> Flatten(shown) == Payload(data)
    ensures r.Ok? ==> Workable(settings) && settings.threads > 0 && EtchCapacity(settings, data.outMode) > 0 &&
                      Grouped(shown, groups, Parts(data, settings), FrameBlocks(settings))
  {
    shown, groups := [], [];
    if settings.size == 0 {
      return Err("attempt to divide by zero"), [], [];
    }
    if EtchCapacity(settings, data.outMode) == 0 || settings.threads == 0 {
      return Err("attempt to divide by zero"), [], [];
    }
    var ok, workers;
    ok, workers, shown, groups := EtchPayload(data, settings);
    if !ok {
      return Err("index out of bounds"), [], [];
    }
    var header := EtchInstructions(settings, data);
    if |workers| == 0 {
      return Err("index out of bounds"), [], [];
    }
    DistinctCons(header.value, workers);
    r := Ok([header.value] + workers);
    assert r.value[1..] == workers;
  }

  // ---------------------------------------------------------------------
  // Reading the video back
  // ---------------------------------------------------------------------

  /** How many frames from `i` on have at least one column, up to the first that has none. */
  function CountFrom(frames: seq<array2<Bgr>>, i: nat): (n: nat)
    ensures i + n <= |frames| || n == 0
    ensures forall k :: i <= k < i + n ==> frames[k].Length1 > 0
    ensures i + n < |frames| ==> frames[i + n].Length1 == 0
    decreases |frames| - i
  {
    if i < |frames| && frames[i].Length1 > 0 then 1 + CountFrom(frames, i + 1) else 0
  }

  /** The frames `read` decodes after the header: up to the end, or to the first frame without columns. */
  function ReadCount(frames: seq<array2<Bgr>>): (n: nat)
    ensures n < |frames| || n == 0
    ensures forall k :: 1 <= k <= n ==> frames[k].Length1 > 0
    ensures n + 1 < |frames| ==> frames[n + 1].Length1 == 0
  {
    CountFrom(frames, 1)
  }

  /**
   * What `read` makes of frame number `current` whose block means are `ms`:
   * in Color mode their channels, never truncated since the final frame
   * passed is `i32::MAX`; in Binary mode their bits, cut to the final bit
   * count on the header's final frame, packed into bytes.
   */
  function FrameBytes(h: Header, ms: seq<Rgb>, current: int): (r: Result<seq<Byte>>)
    ensures h.outMode == Color && current != I32Max ==> r == Ok(Channels(ms))
    ensures h.outMode == Binary && current != h.finalFrame ==> r == Ok(PackU8(Thresholds(ms)))
    ensures h.outMode == Binary && current == h.finalFrame ==>
      (r.Ok? <==> 0 <= h.finalBit <= |ms|) && (r.Ok? ==> r.value == PackU8(Thresholds(ms)[..h.finalBit]))
  {
    if h.outMode == Color then Truncate(Channels(ms), current, I32Max, h.finalBit)
    else
      var bits := Truncate(Thresholds(ms), current, h.finalFrame, h.finalBit);
      if bits.Err? then Err(bits.msg) else Ok(PackU8(bits.value))
  }

  /**
   * A Binary worker frame that shows a bit in every block decodes, on any
   * frame but the final one, to exactly those bits packed into bytes.
   */
  lemma FullFrameBw(src: EmbedSource, bits: seq<bool>, h: Header, current: int)
    requires src.Valid() && Shows(src, Greys(bits)) && |bits| == src.Blocks()
    requires h.outMode == Binary && current != h.finalFrame
    ensures FrameBytes(h, Means(src), current) == Ok(PackU8(bits))
  {
    BwRoundTrip(src, bits, 0, |bits|);
    assert bits[0..|bits|] == bits;
    assert Thresholds(Means(src))[..|bits|] == Thresholds(Means(src));
  }

  /**
   * A Color worker frame that shows a colour in every block decodes to
   * exactly the bytes it was etched from, three per block.
   */
  lemma FullFrameColor(src: EmbedSource, bytes: seq<Byte>, h: Header, current: int)
    requires src.Valid() && |bytes| == 3 * src.Blocks() && Shows(src, Triples(bytes))
    requires h.outMode == Color && current != I32Max
    ensures FrameBytes(h, Means(src), current) == Ok(bytes)
  {
    ColorRoundTrip(src, bytes, 0, |bytes|);
    assert bytes[0..|bytes|] == bytes;
    assert Channels(Means(src))[..|bytes|] == Channels(Means(src));
  }

  /** The bytes of frames 1, 2, ... whose block means are `ms`, in order, or the first frame's error. */
  function Assemble(h: Header, ms: seq<seq<Rgb>>): (r: Result<seq<Byte>>)
    decreases |ms|
  {
    if ms == [] then Ok([])
    else
      var before := Assemble(h, ms[..|ms| - 1]);
      var last := FrameBytes(h, ms[|ms| - 1], |ms|);
      if before.Err? then before
      else if last.Err? then last
      else Ok(before.value + last.value)
  }

  /**
   * `sources` wrap frames 1, 2, ... at block size `size`, and `means` are
   * their block means.
   */
  ghost predicate Wraps(sources: seq<EmbedSource>, means: seq<seq<Rgb>>, frames: seq<array2<Bgr>>, size: int)
    reads set i | 0 <= i < |sources| :: sources[i].image
  {
    |means| == |sources| &&
    forall i :: 0 <= i < |sources| ==>
      i + 1 < |frames| && sources[i].Valid() && sources[i].image == frames[i + 1] && sources[i].size == size &&
      means[i] == Means(sources[i])
  }

  /** `EmbedSource::from` refuses a frame at this block size (a zero size is the division by zero). */
  predicate Unwrappable(image: array2<Bgr>, size: int)
  {
    size <= 0 || image.Length0 % size != 0
  }

  /** The `match out_mode` inside `read`'s loop, for one frame. */
  method ReadFrame(h: Header, source: EmbedSource, current: int) returns (r: Result<seq<Byte>>)
    requires source.Valid()
    ensures r == FrameBytes(h, Means(source), current)
  {
    if h.outMode == Color {
      r := ReadColor(source, current, I32Max, h.finalBit);
    } else {
      var bits := ReadBw(source, current, h.finalFrame, h.finalBit);
      if bits.Err? {
        return Err(bits.msg);
      }
      var bytes := TranslateU8(bits.value);
      r := Ok(bytes);
    }
  }

  /**
   * `instr` is the first frame at block size 5 (an empty frame when there is
   * none) and `header` what `read_instructions` makes of it.
   */
  ghost predicate HeaderRead(frames: seq<array2<Bgr>>, threads: int, instr: EmbedSource, header: Result<Header>)
    reads instr.image
  {
    instr.Valid() && instr.size == InstructionSize &&
    (|frames| > 0 ==> instr.image == frames[0]) &&
    (|frames| == 0 ==> instr.frameSize == Size(0, 0)) &&
    header == ParseHeader(PackU32(Thresholds(Means(instr))), threads, instr.frameSize.width, instr.frameSize.height)
  }

  /** The start of `read`: the first frame (an empty one when there is none) as a source of block size 5, and its header. */
  method OpenHeader(frames: seq<array2<Bgr>>, threads: int) returns (instr: EmbedSource, header: Result<Header>)
    ensures HeaderRead(frames, threads, instr, header)
  {
    var first: array2<Bgr>;
    if |frames| > 0 {
      first := frames[0];
    } else {
      first := new Bgr[0, 0];
    }
    var wrapped := From(first, InstructionSize, true);
    instr := wrapped.value;
    header := ReadInstructions(instr, threads);
  }

  /**
   * The loop of `read`: frames 1, 2, ... up to the first without columns, each
   * wrapped at the header's block size and decoded, their bytes in order. It
   * stops at the first frame that cannot be wrapped or decoded.
   */
  method DecodeFrames(frames: seq<array2<Bgr>>, h: Header)
    returns (r: Result<seq<Byte>>, ghost sources: seq<EmbedSource>, ghost means: seq<seq<Rgb>>)
    ensures Wraps(sources, means, frames, h.settings.size) && |sources| <= ReadCount(frames)
    ensures r.Ok? ==> |sources| == ReadCount(frames) && r == Assemble(h, means)
    ensures r.Err? ==>
      r == Assemble(h, means) ||
      (|sources| < ReadCount(frames) && Assemble(h, means).Ok? && Unwrappable(frames[|sources| + 1], h.settings.size))
  {
    sources, means := [], [];
    var size := h.settings.size;
    var bytes: seq<Byte> := [];
    var current := 1;
    while current < |frames| && frames[current].Length1 > 0
      invariant current == |sources| + 1
      invariant Wraps(sources, means, frames, size)
      invariant ReadCount(frames) == |sources| + CountFrom(frames, current)
      invariant Assemble(h, means) == Ok(bytes)
      decreases |frames| - current
    {
      if size <= 0 {
        r := Err(if size == 0 then "attempt to calculate the remainder with a divisor of zero" else "negative block size");
        return;
      }
      var source := From(frames[current], size, false);
      if source.Err? {
        r := Err(source.msg);
        return;
      }
      var units := ReadFrame(h, source.value, current);
      WrapsAppend(sources, means, frames, size, source.value);
      ghost var before := means;
      sources, means := sources + [source.value], means + [Means(source.value)];
      assert means[..|means| - 1] == before;
      if units.Err? {
        r := units;
        return;
      }
      bytes := bytes + units.value;
      current := current + 1;
    }
    r := Ok(bytes);
  }

  lemma WrapsAppend(sources: seq<EmbedSource>, means: seq<seq<Rgb>>, frames: seq<array2<Bgr>>, size: int, src: EmbedSource)
    requires Wraps(sources, means, frames, size)
    requires |sources| + 1 < |frames| && src.Valid() && src.image == frames[|sources| + 1] && src.size == size
    ensures Wraps(sources + [src], means + [Means(src)], frames, size)
  {
    var s, m := sources + [src], means + [Means(src)];
    assert forall i :: 0 <= i < |sources| ==> s[i] == sources[i] && m[i] == means[i];
  }

  /**
   * `read` over the frames of a video: the header from the first frame, then
   * the later frames decoded with the header's mode, block size, final frame
   * and final count.
   */
  method Read(frames: seq<array2<Bgr>>, threads: int)
    returns (r: Result<seq<Byte>>, ghost instr: EmbedSource, ghost header: Result<Header>,
             ghost sources: seq<EmbedSource>, ghost means: seq<seq<Rgb>>)
    ensures HeaderRead(frames, threads, instr, header)
    ensures header.Err? ==> r == Err(header.msg)
    ensures header.Ok? ==> Wraps(sources, means, frames, header.value.settings.size) && |sources| <= ReadCount(frames)
    ensures header.Ok? && r.Ok? ==> |sources| == ReadCount(frames) && r == Assemble(header.value, means)
    ensures header.Ok? && r.Err? ==>
      r == Assemble(header.value, means) ||
      (|sources| < ReadCount(frames) && Assemble(header.value, means).Ok? &&
       Unwrappable(frames[|sources| + 1], header.value.settings.size))
  {
    var first, parsed := OpenHeader(frames, threads);
    instr, header, sources, means := first, parsed, [], [];
    if parsed.Err? {
      r := Err(parsed.msg);
      return;
    }
    r, sources, means := DecodeFrames(frames, parsed.value);
  }
}
