/**
  The AES Monte Carlo Test in CBC mode (aes-test.c) over an arbitrary block
  cipher: a loop that overwrites key, IV and input in place, proved against the
  array recurrence of section 6.4 of the NIST AES Algorithm Validation Suite.
 */
module MonteCarlo {
  type Bytes = seq<bv8>

  const BLOCK_SIZE: nat := 16

  type Block = b: seq<bv8> | |b| == BLOCK_SIZE witness seq(BLOCK_SIZE, _ => 0)

  /** A block cipher: both directions for a key and one block. */
  datatype Cipher = Cipher(encrypt: (Bytes, Block) -> Block, decrypt: (Bytes, Block) -> Block)

  function Xor(a: Bytes, b: Bytes): (r: Bytes)
    requires |a| == |b|
    ensures |r| == |a|
  {
    seq(|a|, i requires 0 <= i < |a| => a[i] ^ b[i])
  }

  /** One block in CBC mode, as the crypter computes it from an explicit IV. */
  function Crypt(c: Cipher, dec: bool, key: Bytes, iv: Block, input: Block): Block {
    if dec then Xor(c.decrypt(key, input), iv) else c.encrypt(key, Xor(input, iv))
  }

  // ---------- the recurrence of the standard ----------

  /** The values an inner run starts from. */
  datatype Start = Start(key: Bytes, iv: Block, input: Block)

  /** The j-th input: the given block, then the IV, then the output before the last. */
  function In(c: Cipher, dec: bool, s: Start, j: nat): Block
    decreases j, 0
  {
    if j == 0 then s.input else if j == 1 then s.iv else Out(c, dec, s, j - 2)
  }

  /** What the j-th block is chained with: the preceding cipher text, initially the IV. */
  function Chain(c: Cipher, dec: bool, s: Start, j: nat): Block
    decreases j, 1
  {
    if j == 0 then s.iv else if dec then In(c, dec, s, j - 1) else Out(c, dec, s, j - 1)
  }

  function Out(c: Cipher, dec: bool, s: Start, j: nat): Block
    decreases j, 2
  {
    Crypt(c, dec, s.key, Chain(c, dec, s, j), In(c, dec, s, j))
  }

  /** The key of the next run, from the last two outputs. */
  function NextKey(key: Bytes, prev: Block, out: Block): Bytes {
    if |key| == 16 then Xor(key, out)
    else if |key| == 24 then Xor(key, prev[8..] + out)
    else if |key| == 32 then Xor(key, prev + out)
    else key
  }

  /** The start values of the i-th run of n blocks each. */
  function Round(c: Cipher, dec: bool, s: Start, n: nat, i: nat): Start
    requires n > 0
  {
    if i == 0 then s
    else
      var r := Round(c, dec, s, n, i - 1);
      Start(NextKey(r.key, In(c, dec, r, n), Out(c, dec, r, n - 1)), Out(c, dec, r, n - 1), In(c, dec, r, n))
  }

  /** What is printed for a run: its start values and its last output. */
  datatype Line = Line(start: Start, output: Block)

  function Lines(c: Cipher, dec: bool, s: Start, n: nat, count: nat): seq<Line>
    requires n > 0
  {
    if count == 0 then []
    else
      var r := Round(c, dec, s, n, count - 1);
      Lines(c, dec, s, n, count - 1) + [Line(r, Out(c, dec, r, n - 1))]
  }

  // ---------- CBC mode ----------

  /** A whole message in CBC mode. */
  function Cbc(c: Cipher, dec: bool, key: Bytes, iv: Block, input: seq<Block>): seq<Block>
    decreases |input|
  {
    if input == [] then []
    else
      var out := Crypt(c, dec, key, iv, input[0]);
      [out] + Cbc(c, dec, key, if dec then input[0] else out, input[1..])
  }

  function Inputs(c: Cipher, dec: bool, s: Start, j: nat, n: nat): seq<Block>
    decreases n
  {
    if n == 0 then [] else [In(c, dec, s, j)] + Inputs(c, dec, s, j + 1, n - 1)
  }

  function Outputs(c: Cipher, dec: bool, s: Start, j: nat, n: nat): seq<Block>
    decreases n
  {
    if n == 0 then [] else [Out(c, dec, s, j)] + Outputs(c, dec, s, j + 1, n - 1)
  }

  /** Block by block with an explicit IV gives what one pass of CBC over all inputs gives. */
  lemma {:induction false} ChainedCallsAreCbc(c: Cipher, dec: bool, s: Start, j: nat, n: nat)
    ensures Cbc(c, dec, s.key, Chain(c, dec, s, j), Inputs(c, dec, s, j, n)) == Outputs(c, dec, s, j, n)
    decreases n
  {
    if n > 0 {
      var input := Inputs(c, dec, s, j, n);
      assert input[0] == In(c, dec, s, j) && input[1..] == Inputs(c, dec, s, j + 1, n - 1);
      ChainedCallsAreCbc(c, dec, s, j + 1, n - 1);
    }
  }

  /** Two blocks mixed bit by bit. */
  function Mixed(a: Block, b: Block): Block {
    seq(16, k requires 0 <= k < 16 => a[k] ^ b[k])
  }

  /** Each block is what the mode prescribes: mixed with the cipher text before it, next to the block cipher. */
  lemma {:induction false} CbcBlock(c: Cipher, dec: bool, key: Bytes, iv: Block, input: seq<Block>, j: nat)
    requires j < |input|
    ensures var out := Cbc(c, dec, key, iv, input);
      && |out| == |input|
      && (dec ==> out[j] == Mixed(c.decrypt(key, input[j]), if j == 0 then iv else input[j - 1]))
      && (!dec ==> out[j] == c.encrypt(key, Mixed(input[j], if j == 0 then iv else out[j - 1])))
    decreases |input|
  {
    var out := Crypt(c, dec, key, iv, input[0]);
    assert Xor(input[0], iv) == Mixed(input[0], iv);
    if |input| > 1 {
      CbcBlock(c, dec, key, if dec then input[0] else out, input[1..], if j > 0 then j - 1 else 0);
    }
  }

  lemma XorTwice(a: Bytes, b: Bytes)
    requires |a| == |b|
    ensures Xor(Xor(a, b), b) == a
  {
    forall i | 0 <= i < |a| ensures Xor(Xor(a, b), b)[i] == a[i] {
      assert (a[i] ^ b[i]) ^ b[i] == a[i];
    }
  }

  /** Decrypting what was encrypted gives the message, if the cipher decrypts single blocks. */
  lemma {:induction false} CbcRoundTrip(c: Cipher, key: Bytes, iv: Block, input: seq<Block>)
    requires forall b: Block :: c.decrypt(key, c.encrypt(key, b)) == b
    ensures Cbc(c, true, key, iv, Cbc(c, false, key, iv, input)) == input
    decreases |input|
  {
    if input != [] {
      var out := Crypt(c, false, key, iv, input[0]);
      CbcRoundTrip(c, key, out, input[1..]);
      XorTwice(input[0], iv);
      assert Cbc(c, false, key, iv, input)[1..] == Cbc(c, false, key, out, input[1..]);
    }
  }

  lemma {:induction false} RunBlocks(c: Cipher, dec: bool, s: Start, j: nat, n: nat)
    ensures |Inputs(c, dec, s, j, n)| == n == |Outputs(c, dec, s, j, n)|
    ensures forall k :: 0 <= k < n ==> Inputs(c, dec, s, j, n)[k] == In(c, dec, s, j + k)
    ensures forall k :: 0 <= k < n ==> Outputs(c, dec, s, j, n)[k] == Out(c, dec, s, j + k)
    decreases n
  {
    if n > 0 {
      RunBlocks(c, dec, s, j + 1, n - 1);
    }
  }

  /** The next key is the key mixed with as many of the last bytes of the last two outputs. */
  lemma NextKeyBytes(key: Bytes, prev: Block, out: Block)
    ensures |NextKey(key, prev, out)| == |key|
    ensures var both: Bytes := prev; |key| in {16, 24, 32} ==>
      forall k :: 0 <= k < |key| ==>
        NextKey(key, prev, out)[k] == key[k] ^ (both + out)[32 - |key| + k]
  {
    if |key| in {16, 24, 32} {
      var both: Bytes := prev;
      var last := (both + out)[32 - |key|..];
      assert last == both[32 - |key|..] + out;
      assert both[16..] + out == out && both[0..] == both;
      assert NextKey(key, prev, out) == Xor(key, last);
    }
  }

  /**
    The test as the standard has it: each run is one CBC message whose first block
    is the input, the second the IV, and each later one the output two before. The
    next run starts from the last output, the output before it, and the key mixed
    with the last bytes of both.
   */
  lemma LinesFollowStandard(c: Cipher, dec: bool, s: Start, n: nat, count: nat, i: nat)
    returns (p: seq<Block>, o: seq<Block>)
    requires n > 0 && i < count
    ensures |Lines(c, dec, s, n, count)| == count && |p| == n + 1 && |o| == n
    ensures var line := Lines(c, dec, s, n, count)[i];
      && (i == 0 ==> line.start == s)
      && o == Cbc(c, dec, line.start.key, line.start.iv, p[..n]) && line.output == o[n - 1]
      && p[0] == line.start.input && p[1] == line.start.iv && (forall j :: 2 <= j <= n ==> p[j] == o[j - 2])
    ensures var key, next, both: Bytes := Lines(c, dec, s, n, count)[i].start.key, Round(c, dec, s, n, i + 1), p[n];
      && (i + 1 < count ==> Lines(c, dec, s, n, count)[i + 1].start == next)
      && next.iv == o[n - 1] && next.input == p[n] && |next.key| == |key|
      && (|key| in {16, 24, 32} ==>
            forall k :: 0 <= k < |key| ==> next.key[k] == key[k] ^ (both + o[n - 1])[32 - |key| + k])
  {
    LinesAre(c, dec, s, n, count);
    var start := Round(c, dec, s, n, i);
    p, o := RunIsMessage(c, dec, start, n);
    NextKeyBytes(start.key, p[n], o[n - 1]);
  }

  lemma RunIsMessage(c: Cipher, dec: bool, s: Start, n: nat) returns (p: seq<Block>, o: seq<Block>)
    requires n > 0
    ensures |p| == n + 1 && |o| == n && o == Cbc(c, dec, s.key, s.iv, p[..n])
    ensures p[0] == s.input && p[1] == s.iv && (forall j :: 2 <= j <= n ==> p[j] == o[j - 2])
    ensures o[n - 1] == Out(c, dec, s, n - 1) && p[n] == In(c, dec, s, n)
  {
    p, o := Inputs(c, dec, s, 0, n + 1), Outputs(c, dec, s, 0, n);
    RunBlocks(c, dec, s, 0, n + 1);
    RunBlocks(c, dec, s, 0, n);
    var front := Inputs(c, dec, s, 0, n);
    assert p[..n] == front;
    ChainedCallsAreCbc(c, dec, s, 0, n);
  }

  lemma {:induction false} LinesAre(c: Cipher, dec: bool, s: Start, n: nat, count: nat)
    requires n > 0
    ensures |Lines(c, dec, s, n, count)| == count
    ensures forall i :: 0 <= i < count ==>
      var r := Round(c, dec, s, n, i);
      Lines(c, dec, s, n, count)[i] == Line(r, Out(c, dec, r, n - 1))
  {
    if count > 0 {
      LinesAre(c, dec, s, n, count - 1);
    }
  }

  // ---------- the program ----------

  method MemCpy(dst: array<bv8>, src: array<bv8>)
    requires dst.Length == src.Length
    modifies dst
    ensures dst[..] == old(src[..])
  {
    for i := 0 to dst.Length
      invariant forall k :: 0 <= k < i ==> dst[k] == old(src[k])
      invariant dst != src ==> src[..] == old(src[..])
      invariant forall k :: i <= k < src.Length ==> src[k] == old(src[k])
    {
      dst[i] := src[i];
    }
  }

  /** XOR n bytes of src, from s on, onto those of dst from d on. */
  method MemXor(dst: array<bv8>, d: nat, src: array<bv8>, s: nat, n: nat)
    requires dst != src && d + n <= dst.Length && s + n <= src.Length
    modifies dst
    ensures dst[..] == old(dst[..d]) + Xor(old(dst[d..d + n]), src[s..s + n]) + old(dst[d + n..])
  {
    for i := d to d + n
      invariant forall k :: 0 <= k < d || i <= k < dst.Length ==> dst[k] == old(dst[k])
      invariant forall k :: d <= k < i ==> dst[k] == old(dst[k]) ^ src[s + k - d]
    {
      dst[i] := dst[i] ^ src[s + i - d];
    }
  }

  /** XOR onto the front and then onto the rest of a key. */
  lemma XorInTwoParts(was: Bytes, a: Bytes, b: Bytes, half: Bytes, done: Bytes)
    requires |was| == |a| + |b| == |half|
    requires half == was[..0] + Xor(was[0..|a|], a) + was[|a|..]
    requires done == half[..|a|] + Xor(half[|a|..|a| + |b|], b) + half[|a| + |b|..]
    ensures done == Xor(was, a + b)
  {
    assert half[|a|..|a| + |b|] == was[|a|..];
    assert half[..|a|] == Xor(was[..|a|], a);
  }

  /** Derive the key of the next run in place. */
  method DeriveKey(key: array<bv8>, prev: array<bv8>, output: array<bv8>)
    requires key != prev && key != output && prev.Length == output.Length == BLOCK_SIZE
    modifies key
    ensures key[..] == NextKey(old(key[..]), prev[..], output[..])
  {
    ghost var was := key[..];
    if key.Length == 16 {
      MemXor(key, 0, output, 0, output.Length);
      assert output[0..16] == output[..] && was[0..16] == was;
    } else if key.Length == 24 {
      MemXor(key, 0, prev, 8, 8);
      ghost var half := key[..];
      MemXor(key, 8, output, 0, output.Length);
      XorInTwoParts(was, prev[8..16], output[0..16], half, key[..]);
      assert prev[8..16] == prev[..][8..] && output[0..16] == output[..];
    } else if key.Length == 32 {
      MemXor(key, 0, prev, 0, prev.Length);
      ghost var half := key[..];
      MemXor(key, prev.Length, output, 0, output.Length);
      XorInTwoParts(was, prev[0..16], output[0..16], half, key[..]);
      assert prev[0..16] == prev[..] && output[0..16] == output[..];
    }
  }

  /** One call of the crypter; the result is a new buffer. */
  method DoCrypt(c: Cipher, dec: bool, key: Bytes, iv: array<bv8>, input: array<bv8>) returns (output: array<bv8>)
    requires iv.Length == input.Length == BLOCK_SIZE
    ensures fresh(output) && output.Length == BLOCK_SIZE
    ensures output[..] == Crypt(c, dec, key, iv[..], input[..])
  {
    var block := Crypt(c, dec, key, iv[..], input[..]);
    output := new bv8[BLOCK_SIZE](i requires 0 <= i < BLOCK_SIZE => block[i]);
    assert output[..] == block;
  }

  /** One run: the previous output starts as the IV, `prev` ends as the output before the last. */
  method Run(c: Cipher, dec: bool, key: Bytes, iv: array<bv8>, input: array<bv8>, prev: array<bv8>,
             initial: array<bv8>, n: nat)
    returns (output: array<bv8>)
    requires iv.Length == input.Length == prev.Length == initial.Length == BLOCK_SIZE && n > 0
    requires iv != input && prev != iv && prev != input && initial !in {iv, input, prev}
    requires initial[..] == iv[..]
    modifies iv, input, prev
    ensures fresh(output) && output.Length == BLOCK_SIZE
    ensures var s := Start(key, old(iv[..]), old(input[..]));
      && output[..] == Out(c, dec, s, n - 1)
      && input[..] == In(c, dec, s, n) == prev[..]
  {
    ghost var s := Start(key, iv[..], input[..]);
    output := initial;
    for j := 0 to n
      invariant (if j == 0 then output == initial else fresh(output)) && output.Length == BLOCK_SIZE
      invariant output[..] == if j == 0 then s.iv else Out(c, dec, s, j - 1)
      invariant iv[..] == Chain(c, dec, s, j)
      invariant input[..] == In(c, dec, s, j)
      invariant j > 0 ==> prev[..] == In(c, dec, s, j)
    {
      // the previous output is used as the input after next
      MemCpy(prev, output);
      output := DoCrypt(c, dec, key, iv, input);
      // prepare the next IV
      if dec {
        MemCpy(iv, input);
      } else {
        MemCpy(iv, output);
      }
      MemCpy(input, prev);
    }
  }

  /**
    The test: `outer` runs of `inner` blocks (100 and 1000 in the program), with a
    single buffer for the previous output. Nothing is printed or changed for an
    unsupported key or input length.
   */
  method DoTestMct(c: Cipher, dec: bool, key: array<bv8>, iv: array<bv8>, input: array<bv8>, outer: nat, inner: nat)
    returns (lines: seq<Line>)
    requires iv.Length == BLOCK_SIZE && inner > 0
    requires key != iv && key != input && iv != input
    modifies key, iv, input
    ensures key.Length in {16, 24, 32} && input.Length == BLOCK_SIZE ==>
      var s := Start(old(key[..]), old(iv[..]), old(input[..]));
      && lines == Lines(c, dec, s, inner, outer)
      && Round(c, dec, s, inner, outer) == Start(key[..], iv[..], input[..])
    ensures !(key.Length in {16, 24, 32} && input.Length == BLOCK_SIZE) ==>
      lines == [] && key[..] == old(key[..]) && iv[..] == old(iv[..]) && input[..] == old(input[..])
  {
    lines := [];
    if key.Length !in {16, 24, 32} || input.Length != BLOCK_SIZE {
      return;
    }
    ghost var s := Start(key[..], iv[..], input[..]);
    var prev := new bv8[BLOCK_SIZE](_ => 0);
    // the initial IV counts as previous output
    var output := new bv8[BLOCK_SIZE](_ => 0);
    MemCpy(output, iv);
    for i := 0 to outer
      invariant fresh(output) && output.Length == BLOCK_SIZE && output != prev && output[..] == iv[..]
      invariant Start(key[..], iv[..], input[..]) == Round(c, dec, s, inner, i)
      invariant lines == Lines(c, dec, s, inner, i)
    {
      // the values printed at the head of the run
      var start := Start(key[..], iv[..], input[..]);
      output := Run(c, dec, key[..], iv, input, prev, output, inner);
      lines := lines + [Line(start, output[..])];
      DeriveKey(key, prev, output);
      MemCpy(iv, output);
    }
  }
}
