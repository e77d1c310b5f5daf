/**
 The fixed witness layout of the record-commitment circuit (resolver/internal/zk/zk.go).
 */
module Witness {
  import opened Bytes
  import opened Sorting
  import opened Records
  import opened RecordMessage

  const CHUNK_SIZE := 31
  const MAX_CHUNKS := 16
  const MAX_PAYLOAD := CHUNK_SIZE * MAX_CHUNKS

  /** The order of the BN254 scalar field (constant R of ZKVerifier.sol). */
  const SCALAR_ORDER: nat := 0x30644e72e131a029b85045b68181585d2833e84879b9709143e1f593f0000001

  const ELEMENT_BOUND: nat := 0x1_00000000_00000000_00000000_00000000_00000000_00000000_00000000_000000

  datatype Packed = TooLarge | Elements(words: seq<nat>)

  /** The part of the message that goes into the i-th field element. */
  function Chunk(msg: Text, i: nat): (c: Text)
    ensures |c| <= CHUNK_SIZE
  {
    var lo := i * CHUNK_SIZE;
    if lo >= |msg| then [] else
    if lo + CHUNK_SIZE <= |msg| then msg[lo..lo + CHUNK_SIZE] else msg[lo..]
  }

  /** The first `n` chunks as big-endian numbers. */
  function Chunks(msg: Text, n: nat): (w: seq<nat>)
    ensures |w| == n
  {
    if n == 0 then [] else Chunks(msg, n - 1) + [Value(Chunk(msg, n - 1))]
  }

  function Pack(msg: Text): (w: seq<nat>)
    ensures |w| == 1 + MAX_CHUNKS
  {
    [|msg|] + Chunks(msg, MAX_CHUNKS)
  }

  lemma {:induction false} PackedChunk(msg: Text, n: nat, i: nat)
    requires i < n
    ensures Chunks(msg, n)[i] == Value(Chunk(msg, i))
  {
    var before, last := Chunks(msg, n - 1), Value(Chunk(msg, n - 1));
    assert Chunks(msg, n) == before + [last];
    if i < n - 1 {
      PackedChunk(msg, n - 1, i);
    }
  }

  method ReadChunk(msg: Text, i: nat) returns (chunk: Text)
    ensures chunk == Chunk(msg, i)
  {
    var lo := i * CHUNK_SIZE;
    chunk := [];
    if lo < |msg| {
      var hi := if lo + CHUNK_SIZE < |msg| then lo + CHUNK_SIZE else |msg|;
      chunk := msg[lo..hi];
    }
  }

  /** The number in the (at most) 31 bytes from `lo` on, 0 past the end. */
  function Word(msg: Text, lo: nat): nat {
    if lo >= |msg| then 0 else Value(msg[lo..if lo + 31 <= |msg| then lo + 31 else |msg|])
  }

  method PackMessage(msg: Text) returns (out: Packed)
    ensures out.TooLarge? <==> |msg| > 496
    ensures out.Elements? ==> out.words == Pack(msg)
    // The length, then 16 big-endian numbers of 31 bytes each; the last one used may be shorter, the rest are 0.
    ensures out.Elements? ==> |out.words| == 17 && out.words[0] == |msg|
    ensures out.Elements? ==> forall i :: 0 <= i < 16 ==> out.words[1 + i] == Word(msg, 31 * i)
  {
    if |msg| > MAX_PAYLOAD {
      return TooLarge;
    }
    var chunks: seq<nat> := [];
    for i := 0 to MAX_CHUNKS
      invariant chunks == Chunks(msg, i)
    {
      var chunk := ReadChunk(msg, i);
      chunks := chunks + [Value(chunk)];
    }
    out := Elements([|msg|] + chunks);
    forall i | 0 <= i < 16 ensures chunks[i] == Word(msg, 31 * i) {
      PackedChunk(msg, MAX_CHUNKS, i);
      if 31 * i < |msg| { assert msg[31 * i..] == msg[31 * i..|msg|]; }
    }
  }

  lemma {:induction false} Pow256Sum(m: nat, n: nat)
    ensures Pow256(m + n) == Pow256(m) * Pow256(n)
  {
    if m > 0 {
      Pow256Sum(m - 1, n);
      assert Pow256(m + n) == 256 * (Pow256(m - 1) * Pow256(n));
      assert 256 * (Pow256(m - 1) * Pow256(n)) == (256 * Pow256(m - 1)) * Pow256(n);
    }
  }

  lemma {:induction false} Pow256Monotone(m: nat, n: nat)
    requires m <= n
    ensures Pow256(m) <= Pow256(n)
  {
    if m < n { Pow256Monotone(m, n - 1); }
  }

  lemma ElementBoundIsPower()
    ensures Pow256(31) == ELEMENT_BOUND
  {
    Pow256Values();
    Pow256Sum(8, 8);
    Pow256Sum(16, 8);
    assert Pow256(24) == U64 * U64 * U64;
    assert Pow256(7) * 256 == U64;
    Pow256Sum(24, 7);
  }

  /** Every element is below 2^248, hence below the scalar order: none is reduced. */
  lemma ElementsAreReduced(msg: Text, i: nat)
    requires |msg| <= MAX_PAYLOAD && i <= MAX_CHUNKS
    ensures Pack(msg)[i] < ELEMENT_BOUND < SCALAR_ORDER
  {
    if i > 0 {
      var c := Chunk(msg, i - 1);
      PackedChunk(msg, MAX_CHUNKS, i - 1);
      ValueBound(c);
      Pow256Monotone(|c|, 31);
      ElementBoundIsPower();
    }
  }

  lemma ChunksEqual(m: Text, n: Text, i: nat)
    requires Pack(m) == Pack(n) && i < MAX_CHUNKS
    ensures |m| == |n| && Chunk(m, i) == Chunk(n, i)
  {
    assert Pack(m)[0] == |m| && Pack(n)[0] == |n|;
    PackedChunk(m, MAX_CHUNKS, i);
    PackedChunk(n, MAX_CHUNKS, i);
    assert Pack(m)[1 + i] == Value(Chunk(m, i)) && Pack(n)[1 + i] == Value(Chunk(n, i));
    ValueInjective(Chunk(m, i), Chunk(n, i));
  }

  /** Two messages that fit are packed alike only if they are the same message. */
  lemma PackInjective(m: Text, n: Text)
    requires |m| <= MAX_PAYLOAD && |n| <= MAX_PAYLOAD
    requires Pack(m) == Pack(n)
    ensures m == n
  {
    ChunksEqual(m, n, 0);
    forall j | 0 <= j < |m| ensures m[j] == n[j] {
      var i := j / CHUNK_SIZE;
      ChunksEqual(m, n, i);
      assert m[j] == Chunk(m, i)[j - i * CHUNK_SIZE];
      assert n[j] == Chunk(n, i)[j - i * CHUNK_SIZE];
    }
  }

  /** Records that fit get equal witnesses exactly when they have the same name and body. */
  lemma WitnessesDistinguishRecords(name: Text, r: Record, m: Text, name': Text, r': Record, m': Text)
    requires IsMessage(name, r, m) && IsMessage(name', r', m')
    requires |m| <= MAX_PAYLOAD && |m'| <= MAX_PAYLOAD
    requires |r.fieldNames| <= |r.fieldValues| && |r'.fieldNames| <= |r'.fieldValues|
    requires OneValueEach(Pairs(r))
    ensures Pack(m) == Pack(m') <==> name == name' && SameBody(r, r')
  {
    if Pack(m) == Pack(m') {
      PackInjective(m, m');
      ShortMessageSized(name, r, m);
      ShortMessageSized(name', r', m');
      MessageInjective(name, r, m, name', r', m');
    }
    if name == name' && SameBody(r, r') {
      MessageCanonical(name, r, m, r', m');
    }
  }
}
