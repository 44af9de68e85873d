/**
 The streaming interface of sha1.c: a context that absorbs a message in pieces of any size, and the
 padding that `hts_sha1_final` feeds through it.
 */
module Sha1 {
  import opened Words
  import opened Sha1Spec
  import opened Sha1Transform

  /** How many of n octets make up complete blocks. */
  function Whole(n: nat): (w: nat)
    ensures w <= n && w % 64 == 0 && n - w == n % 64
  {
    n - n % 64
  }

  /** The hash value of the complete blocks of m, whose remaining octets wait in the buffer. */
  function HashWhole(m: seq<Octet>): Regs {
    HashBlocks(INITIAL, m[..Whole(|m|)])
  }

  /** One more block. */
  lemma HashStep(m: seq<Octet>, n: nat)
    requires n % 64 == 0 && n + 64 <= |m|
    ensures HashBlocks(INITIAL, m[..n + 64]) == Compress(HashBlocks(INITIAL, m[..n]), m[n..n + 64])
  {
    hide Compress;
    var p := m[..n + 64];
    assert p[..|p| - 64] == m[..n] && p[|p| - 64..] == m[n..n + 64];
  }

  class Context {
    var count: nat
    const buffer: array<Octet>
    const state: array<Word>

    /** Everything absorbed so far. */
    ghost var absorbed: seq<Octet>

    ghost predicate Shape() {
      buffer.Length == 64 && state.Length == 5
    }

    /**
     The streaming invariant: `state` is the fold of the compression function over all complete
     blocks, and the buffer starts with the octets that remain.
     */
    ghost predicate Streams()
      reads this, buffer, state
    {
      && Shape()
      && RegsOf(state[..]) == HashWhole(absorbed)
      && buffer[..|absorbed| % 64] == absorbed[Whole(|absorbed|)..]
    }

    /** Between calls, `count` is also the length as a uint64_t. */
    ghost predicate Valid()
      reads this, buffer, state
    {
      Streams() && count == |absorbed| % TWO_64
    }

    /** Allocation, and `hts_sha1_init`. */
    constructor ()
      ensures Valid() && absorbed == [] && fresh(buffer) && fresh(state)
    {
      buffer := new Octet[64];
      state := new Word[5];
      absorbed := [];
      count := 0;
      new;
      state[0] := 0x67452301;
      state[1] := 0xEFCDAB89;
      state[2] := 0x98BADCFE;
      state[3] := 0x10325476;
      state[4] := 0xC3D2E1F0;
    }

    method Memcpy(j: nat, src: seq<Octet>)
      requires Shape() && j + |src| <= 64
      modifies buffer
      ensures buffer[..] == old(buffer[..j]) + src + old(buffer[j + |src|..])
    {
      forall k | 0 <= k < |src| {
        buffer[j + k] := src[k];
      }
    }

    /** Completes and compresses the block in the buffer. */
    method CompressBuffer(j: nat, data: seq<Octet>)
      requires Streams() && j == |absorbed| % 64 && j + |data| > 63
      modifies buffer, state
      ensures (|absorbed| + 64 - j) % 64 == 0
      ensures RegsOf(state[..]) == HashBlocks(INITIAL, (absorbed + data)[..|absorbed| + 64 - j])
    {
      hide Compress, HashBlocks;
      ghost var m, base := absorbed + data, Whole(|absorbed|);
      Memcpy(j, data[..64 - j]);
      FilledBlock(absorbed, data);
      assert buffer[..] == m[base..base + 64];
      assert absorbed[..base] == m[..base];
      HashStep(m, base);
      assert base + 64 == |absorbed| + 64 - j;
      Transform(state, buffer[..]);
    }

    /** The multi-block path: the block in the buffer, then further blocks straight from the input. */
    method CompressBlocks(j: nat, data: seq<Octet>) returns (i: nat)
      requires Streams() && j == |absorbed| % 64 && j + |data| > 63
      modifies buffer, state
      ensures 0 < i <= |data| < i + 64 && (|absorbed| + i) % 64 == 0
      ensures RegsOf(state[..]) == HashBlocks(INITIAL, (absorbed + data)[..|absorbed| + i])
    {
      hide Compress, HashBlocks, HashWhole, Whole;
      ghost var m := absorbed + data;
      FillsBlock(|absorbed|);
      CompressBuffer(j, data);
      i := 64 - j;
      assert |absorbed| + i == |absorbed| + 64 - j;
      while i + 63 < |data|
        invariant 0 < i <= |data| && (|absorbed| + i) % 64 == 0
        invariant RegsOf(state[..]) == HashBlocks(INITIAL, m[..|absorbed| + i])
      {
        HashStep(m, |absorbed| + i);
        assert m[|absorbed| + i..|absorbed| + i + 64] == data[i..i + 64];
        NextBlock(|absorbed| + i);
        Transform(state, data[i..i + 64]);
        i := i + 64;
      }
    }

    /**
     `hts_sha1_update`: compress what fills blocks and keep the rest in the buffer. The caller owes
     that `j + len` does not wrap; no other index can then.
     */
    method Update(data: seq<Octet>)
      requires Valid() && |absorbed| % 64 + |data| < TWO_32
      modifies this, buffer, state
      ensures Valid() && absorbed == old(absorbed) + data
    {
      hide Compress, HashBlocks, Whole;
      ghost var m0, m := absorbed, absorbed + data;
      var len := |data|;
      var j := count % 64;
      CountMod(|m0|);
      CountAdd(|m0|, len);
      count := (count + len) % TWO_64;
      var i := 0;
      if j + len > 63 {
        i := CompressBlocks(j, data);
        j := 0;
      }
      Memcpy(j, data[i..]);
      TailOf(m0, data, i, j);
      absorbed := m;
    }

    /** One turn of the CONFIG_SMALL loop. */
    method PutOctet(j: nat, x: Octet) returns (j': nat)
      requires Streams() && j == |absorbed| % 64
      modifies buffer, state, this`absorbed
      ensures Streams() && absorbed == old(absorbed) + [x] && j' == |absorbed| % 64
    {
      hide Compress, HashBlocks;
      ghost var before, w := absorbed, Whole(|absorbed|);
      NextOctet(|before|);
      buffer[j] := x;
      j' := j + 1;
      absorbed := before + [x];
      assert buffer[..j'] == absorbed[w..];
      assert absorbed[..w] == before[..w];
      if 64 == j' {
        HashStep(absorbed, w);
        assert absorbed[..w + 64] == absorbed && absorbed[w..w + 64] == buffer[..];
        Transform(state, buffer[..]);
        j' := 0;
      }
    }

    /** The CONFIG_SMALL `hts_sha1_update`, octet by octet, absorbs the same. */
    method UpdateSmall(data: seq<Octet>)
      requires Valid() && |data| < TWO_32
      modifies this, buffer, state
      ensures Valid() && absorbed == old(absorbed) + data
    {
      hide Compress, HashBlocks, Whole, HashWhole;
      ghost var m0 := absorbed;
      var j := count % 64;
      CountMod(|m0|);
      CountAdd(|m0|, |data|);
      count := (count + |data|) % TWO_64;
      for i := 0 to |data|
        invariant Streams() && j == |absorbed| % 64
        invariant absorbed == m0 + data[..i] && count == (|m0| + |data|) % TWO_64
      {
        j := PutOctet(j, data[i]);
        assert data[..i + 1] == data[..i] + [data[i]];
      }
      assert data[..|data|] == data;
    }
  }

  lemma FillsBlock(n: nat)
    ensures (n + 64 - n % 64) % 64 == 0
  {
  }

  lemma NextBlock(n: nat)
    requires n % 64 == 0
    ensures (n + 64) % 64 == 0
  {
  }

  lemma SameBlock(n: nat, len: nat)
    requires n % 64 + len < 64
    ensures (n + len) % 64 == n % 64 + len && Whole(n + len) == Whole(n)
  {
    var q := n / 64;
    assert n + len == 64 * q + (n % 64 + len);
  }

  lemma NextOctet(n: nat)
    ensures n % 64 < 63 ==> (n + 1) % 64 == n % 64 + 1 && Whole(n + 1) == Whole(n)
    ensures n % 64 == 63 ==> (n + 1) % 64 == 0 && Whole(n + 1) == n + 1 == Whole(n) + 64
  {
    var q := n / 64;
    assert n + 1 == 64 * q + (n % 64 + 1);
  }

  lemma CountMod(n: nat)
    ensures n % TWO_64 % 64 == n % 64
  {
    var q := n / TWO_64;
    assert n == TWO_64 * q + n % TWO_64;
    assert n == 64 * (0x400_0000_0000_0000 * q) + n % TWO_64;
  }

  lemma CountAdd(n: nat, len: nat)
    ensures (n % TWO_64 + len) % TWO_64 == (n + len) % TWO_64
  {
    var q := n / TWO_64;
    assert n + len == TWO_64 * q + (n % TWO_64 + len);
  }

  lemma FilledBlock(m0: seq<Octet>, data: seq<Octet>)
    requires |m0| % 64 + |data| > 63
    ensures var base, i := Whole(|m0|), 64 - |m0| % 64;
            m0[base..] + data[..i] == (m0 + data)[base..base + 64]
  {
  }

  lemma TailOf(m0: seq<Octet>, data: seq<Octet>, i: nat, j: nat)
    requires i <= |data|
    requires || (i > 0 && j == 0 && (|m0| + i) % 64 == 0 && |data| - i < 64)
             || (i == 0 && j == |m0| % 64 && j + |data| < 64)
    ensures var m, w := m0 + data, Whole(|m0 + data|);
            && |m| % 64 == j + |data| - i
            && m[w..] == (if i == 0 then m0[Whole(|m0|)..] else []) + data[i..]
            && m[..w] == (if i == 0 then m0[..Whole(|m0|)] else m[..|m0| + i])
  {
    if i > 0 {
      SameBlock(|m0| + i, |data| - i);
    } else {
      SameBlock(|m0|, |data|);
    }
  }

  /** The caller's obligation is exact: the uint32_t guard decides rightly if and only if it is met. */
  lemma GuardExact(j: nat, len: nat)
    requires j < 64 && len < TWO_32
    ensures ((j + len) % TWO_32 > 63 <==> j + len > 63) <==> j + len < TWO_32
  {
  }

  /** Then `i + 63` in the loop guard cannot wrap either, at any position the loop reaches. */
  lemma LoopGuardFits(j: nat, len: nat, i: nat)
    requires j < 64 && j + len < TWO_32 && i <= len && (j + i) % 64 == 0
    ensures i + 63 < TWO_32
  {
  }

  // ----- hts_sha1_final

  /** `bswap_64` on the two halves of a uint64_t, least significant first as the union has them. */
  function Bswap64(lo: Word, hi: Word): (Word, Word) {
    (Bswap32(hi), Bswap32(lo))
  }

  /** The eight octets of `finalcount` are the 64-bit length block of the standard. */
  lemma FinalCount(bits: nat)
    requires bits < TWO_64
    ensures var (l0, l1) := Bswap64((bits % TWO_32) as Word, (bits / TWO_32) as Word);
            NativeOctets(l0) + NativeOctets(l1) == Length64(bits)
  {
    hide Bswap32, NativeOctets, OctetsOf;
    BswapStores((bits / TWO_32) as Word);
    BswapStores((bits % TWO_32) as Word);
  }

  /** What a digest is made of: the padded message, its length field taken modulo 2^64. */
  function DigestOfStream(m: seq<Octet>): seq<Octet> {
    DigestOf(HashBlocks(INITIAL, Padded(m, 8 * |m| % TWO_64)))
  }

  /** For messages the standard covers that is the SHA-1 digest. */
  lemma DigestIsSha1(m: seq<Octet>)
    requires |m| < 0x2000_0000_0000_0000
    ensures DigestOfStream(m) == Sha1(m)
  {
    hide HashBlocks, DigestOf, Padded;
  }

  lemma CountBits(n: nat)
    ensures n % TWO_64 * 8 % TWO_64 == 8 * n % TWO_64
  {
    var q := n / TWO_64;
    assert 8 * n == TWO_64 * (8 * q) + n % TWO_64 * 8;
  }

  /** While fewer zeros than the standard asks for have gone in, the position is not yet 56. */
  lemma ZerosDone(n: nat, k: nat)
    requires k <= ZeroCount(n)
    ensures (n + 1 + k) % 64 == 56 <==> k == ZeroCount(n)
  {
    var q, r := n / 64, n % 64;
    assert n + 1 + k == 64 * q + (r + 1 + k);
    assert (n + 1 + k) % 64 == (r + 1 + k) % 64;
  }

  lemma FinalState(ctx: Context, p: seq<Octet>)
    requires ctx.Streams() && ctx.absorbed == p && |p| % 64 == 0
    ensures ctx.state.Length == 5 && RegsOf(ctx.state[..]) == HashBlocks(INITIAL, p)
  {
    assert p[..|p|] == p;
  }

  /**
   `hts_sha1_final`: a one bit, zeros until 56 octets of a block are used, the length in bits.
   */
  method Final(ctx: Context) returns (digest: seq<Octet>)
    requires ctx.Valid()
    modifies ctx, ctx.buffer, ctx.state
    ensures digest == DigestOfStream(old(ctx.absorbed))
  {
    hide HashBlocks, Compress, Bswap32, NativeOctets, OctetsOf, Length64, ZeroCount, Whole, HashWhole, Context.Streams;
    ghost var m := ctx.absorbed;
    var bits := ctx.count * 8 % TWO_64;
    CountBits(|m|);
    var (l0, l1) := Bswap64((bits % TWO_32) as Word, (bits / TWO_32) as Word);
    FinalCount(bits);
    ctx.Update([0x80]);
    ghost var k := 0;
    CountMod(|ctx.absorbed|);
    ZerosDone(|m|, k);
    while ctx.count % 64 != 56
      invariant ctx.Valid() && k <= ZeroCount(|m|)
      invariant ctx.absorbed == m + [0x80] + Zeros(k)
      invariant ctx.count % 64 == (|m| + 1 + k) % 64
      invariant ctx.count % 64 == 56 <==> k == ZeroCount(|m|)
      decreases ZeroCount(|m|) - k
    {
      ctx.Update([0]);
      k := k + 1;
      CountMod(|ctx.absorbed|);
      ZerosDone(|m|, k);
    }
    ctx.Update(NativeOctets(l0) + NativeOctets(l1));
    assert ctx.absorbed == Padded(m, bits);
    FinalState(ctx, Padded(m, bits));
    digest := StateOctets(ctx.state);
  }

  function AllOctets(ws: seq<Word>): (b: seq<Octet>)
    ensures |b| == 4 * |ws|
  {
    if ws == [] then [] else AllOctets(ws[..|ws| - 1]) + OctetsOf(ws[|ws| - 1])
  }

  lemma DigestOctets(ws: seq<Word>)
    requires |ws| == 5
    ensures AllOctets(ws) == DigestOf(RegsOf(ws))
  {
    hide OctetsOf;
    assert ws[..4][..3] == ws[..3] && ws[..3][..2] == ws[..2] && ws[..2][..1] == ws[..1];
    assert AllOctets(ws[..1]) == OctetsOf(ws[0]);
    assert AllOctets(ws[..2]) == AllOctets(ws[..1]) + OctetsOf(ws[1]);
    assert AllOctets(ws[..3]) == AllOctets(ws[..2]) + OctetsOf(ws[2]);
    assert AllOctets(ws[..4]) == AllOctets(ws[..3]) + OctetsOf(ws[3]);
  }

  /** The loop that stores `be2me_32(state[i])` into the digest. */
  method StateOctets(state: array<Word>) returns (digest: seq<Octet>)
    requires state.Length == 5
    ensures digest == DigestOf(RegsOf(state[..]))
  {
    hide Bswap32, NativeOctets, OctetsOf, DigestOf;
    digest := [];
    var i := 0;
    while i < 5
      invariant 0 <= i <= 5
      invariant digest == AllOctets(state[..i])
    {
      BswapStores(state[i]);
      digest := digest + NativeOctets(Bswap32(state[i]));
      assert state[..i + 1][..i] == state[..i];
      i := i + 1;
    }
    assert state[..5] == state[..];
    DigestOctets(state[..]);
  }

  // ----- any chunking, and the login digest

  function Concatenated(chunks: seq<seq<Octet>>): seq<Octet> {
    if chunks == [] then [] else Concatenated(chunks[..|chunks| - 1]) + chunks[|chunks| - 1]
  }

  lemma {:induction false} ConcatenatedMore(chunks: seq<seq<Octet>>, n: nat)
    requires n < |chunks|
    ensures Concatenated(chunks[..n + 1]) == Concatenated(chunks[..n]) + chunks[n]
  {
    assert chunks[..n + 1][..n] == chunks[..n];
  }

  /** However a message is cut into updates, the digest is that of the whole message. */
  method HashChunks(chunks: seq<seq<Octet>>) returns (digest: seq<Octet>)
    requires forall i :: 0 <= i < |chunks| ==> |Concatenated(chunks[..i])| % 64 + |chunks[i]| < TWO_32
    ensures digest == DigestOfStream(Concatenated(chunks))
    ensures |Concatenated(chunks)| < 0x2000_0000_0000_0000 ==> digest == Sha1(Concatenated(chunks))
  {
    hide DigestOfStream, Sha1Spec.Sha1, Concatenated, HashWhole, Whole, Context.Streams;
    var ctx := new Context();
    NoChunks(chunks);
    for i := 0 to |chunks|
      invariant ctx.Valid() && fresh(ctx) && fresh(ctx.buffer) && fresh(ctx.state)
      invariant ctx.absorbed == Concatenated(chunks[..i])
    {
      ConcatenatedMore(chunks, i);
      ctx.Update(chunks[i]);
    }
    assert chunks[..|chunks|] == chunks;
    digest := Final(ctx);
    if |Concatenated(chunks)| < 0x2000_0000_0000_0000 {
      DigestIsSha1(Concatenated(chunks));
    }
  }

  lemma NoChunks(chunks: seq<seq<Octet>>)
    ensures Concatenated(chunks[..0]) == []
  {
  }

  /** The digest `AuthenticateAsync` sends: SHA-1 of the password followed by the challenge. */
  method LoginDigest(password: seq<Octet>, challenge: seq<Octet>) returns (e: seq<Octet>)
    requires |password| < TWO_32 && |password| % 64 + |challenge| < TWO_32
    ensures e == Sha1(password + challenge)
  {
    hide DigestOfStream, Sha1Spec.Sha1, HashWhole, Whole, Context.Streams;
    var shactx := new Context();
    shactx.Update(password);
    shactx.Update(challenge);
    e := Final(shactx);
    assert [] + password + challenge == password + challenge;
    DigestIsSha1(password + challenge);
  }
}
