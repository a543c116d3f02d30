/** Hashing a file block by block, and printing the digest. */
module HashLoop {
  import opened Common

  const BUFFER_SIZE: nat := 4096

  /** A streaming hash, of which only this is used: start, feed a block, finish. */
  datatype Digest<!S> = Digest(init: S, update: (S, Bytes) -> S, finish: S -> Bytes)

  /** Feeding a text in two parts is feeding it at once. */
  ghost predicate Streaming<S(!new)>(h: Digest<S>) {
    && (forall s, x, y :: h.update(h.update(s, x), y) == h.update(s, x + y))
    && (forall s :: h.update(s, []) == s)
  }

  function Feed<S>(h: Digest<S>, s: S, blocks: seq<Bytes>): S {
    if blocks == [] then s
    else h.update(Feed(h, s, blocks[..|blocks| - 1]), blocks[|blocks| - 1])
  }

  function HexString(digest: Bytes): string {
    if digest == [] then ""
    else
      var b := digest[|digest| - 1];
      HexString(digest[..|digest| - 1]) + [HexDigit(b / 16), HexDigit(b % 16)]
  }

  /** Fill the buffer from `pos`; the read succeeds only if the buffer was filled. */
  method Refill(buffer: array<byte>, file: Bytes, pos: nat) returns (count: nat, ok: bool)
    requires pos <= |file|
    modifies buffer
    ensures count == Min(buffer.Length, |file| - pos) && buffer[..count] == file[pos..pos + count]
    ensures ok == (count == buffer.Length)
  {
    count := 0;
    while count < buffer.Length && pos + count < |file|
      invariant count <= buffer.Length && pos + count <= |file|
      invariant buffer[..count] == file[pos..pos + count]
    {
      buffer[count] := file[pos + count];
      count := count + 1;
    }
    ok := count == buffer.Length;
  }

  /**
   For every file length, exact multiples of the buffer size and the empty file included:
   the blocks fed to the digest are full ones and a non-empty rest, together they are the
   file, and the result is the printed digest of the whole file.
   */
  method ComputeFileHash<S(!new)>(h: Digest<S>, file: Bytes) returns (hex: string, ghost blocks: seq<Bytes>)
    ensures Flatten(blocks) == file && forall i :: 0 <= i < |blocks| - 1 ==> |blocks[i]| == 4096
    ensures blocks != [] ==> 0 < |blocks[|blocks| - 1]| <= 4096
    ensures hex == HexString(h.finish(Feed(h, h.init, blocks)))
    ensures Streaming(h) ==> hex == HexString(h.finish(h.update(h.init, file)))
  {
    assert Flatten<byte>([]) == [] && Feed(h, h.init, []) == h.init;
    hide Feed, Flatten;
    var context := h.init;
    var buffer := new byte[BUFFER_SIZE](_ => 0);
    blocks := [];
    var count, ok := Refill(buffer, file, 0);
    var at: nat := 0;
    while ok
      invariant 0 <= count <= buffer.Length && at + count <= |file|
      invariant ok <==> count == buffer.Length
      invariant count == Min(buffer.Length, |file| - at) && buffer[..count] == file[at..at + count]
      invariant Flatten(blocks) == file[..at] && context == Feed(h, h.init, blocks)
      invariant forall i :: 0 <= i < |blocks| ==> |blocks[i]| == BUFFER_SIZE
      decreases |file| - at, ok
    {
      PrefixGrows(file, at, count);
      context, blocks := FeedBlock(h, context, blocks, buffer[..count]);
      at := at + count;
      count, ok := Refill(buffer, file, at);
    }
    if count > 0 {
      PrefixGrows(file, at, count);
      context, blocks := FeedBlock(h, context, blocks, buffer[..count]);
    }
    assert file[..|file|] == file;
    hex := ToHex(h.finish(context));
    if Streaming(h) {
      BlocksDoNotMatter(h, file, blocks);
    }
  }

  lemma PrefixGrows(file: Bytes, at: nat, count: nat)
    requires at + count <= |file|
    ensures file[..at] + file[at..at + count] == file[..at + count]
  {
  }

  method FeedBlock<S>(h: Digest<S>, context: S, ghost blocks: seq<Bytes>, block: Bytes)
    returns (next: S, ghost longer: seq<Bytes>)
    requires context == Feed(h, h.init, blocks)
    ensures longer == blocks + [block]
    ensures next == Feed(h, h.init, longer) && Flatten(longer) == Flatten(blocks) + block
  {
    longer := blocks + [block];
    assert longer[..|longer| - 1] == blocks;
    FlattenSnoc(blocks, block);
    next := h.update(context, block);
  }

  /** Two digits for every byte, in order. */
  method ToHex(digest: Bytes) returns (text: string)
    ensures text == HexString(digest)
  {
    text := "";
    for i := 0 to |digest|
      invariant text == HexString(digest[..i])
    {
      assert digest[..i + 1][..i] == digest[..i];
      text := text + [HexDigit(digest[i] / 16), HexDigit(digest[i] % 16)];
    }
    assert digest[..|digest|] == digest;
  }

  lemma {:induction false} FeedIsOneUpdate<S(!new)>(h: Digest<S>, s: S, blocks: seq<Bytes>)
    requires Streaming(h)
    ensures Feed(h, s, blocks) == h.update(s, Flatten(blocks))
  {
    if blocks != [] {
      var front, last := blocks[..|blocks| - 1], blocks[|blocks| - 1];
      FeedIsOneUpdate(h, s, front);
      FlattenSnoc(front, last);
      assert blocks == front + [last];
    }
  }

  /** However a file is cut into blocks, the streaming digest is the digest of the whole file. */
  lemma BlocksDoNotMatter<S(!new)>(h: Digest<S>, file: Bytes, blocks: seq<Bytes>)
    requires Streaming(h) && Flatten(blocks) == file
    ensures HexString(h.finish(Feed(h, h.init, blocks))) == HexString(h.finish(h.update(h.init, file)))
  {
    FeedIsOneUpdate(h, h.init, blocks);
  }

  /** Byte by byte: the digit of its high half, then that of its low half. */
  lemma {:induction false} HexStringExactly(digest: Bytes, i: nat)
    requires i < |digest|
    ensures var s, digits := HexString(digest), "0123456789abcdef";
            |s| == 2 * |digest| && s[2 * i] == digits[digest[i] / 16] && s[2 * i + 1] == digits[digest[i] % 16]
  {
    var n := |digest| - 1;
    HexStringLength(digest);
    HexStringLength(digest[..n]);
    HexDigitsInOrder(digest[i] / 16);
    HexDigitsInOrder(digest[i] % 16);
    if i < n {
      HexStringExactly(digest[..n], i);
    }
  }

  lemma HexDigitInjective(a: nat, b: nat)
    requires a < 16 && b < 16
    ensures HexDigit(a) == HexDigit(b) <==> a == b
  {
  }

  lemma {:induction false} HexStringLength(digest: Bytes)
    ensures |HexString(digest)| == 2 * |digest|
  {
    if digest != [] {
      HexStringLength(digest[..|digest| - 1]);
    }
  }

  /** Comparing printed hashes is comparing digests. */
  lemma {:induction false} HexStringInjective(a: Bytes, b: Bytes)
    ensures HexString(a) == HexString(b) <==> a == b
    decreases |a|
  {
    HexStringLength(a);
    HexStringLength(b);
    if HexString(a) == HexString(b) && a != [] {
      var x, y := a[..|a| - 1], b[..|b| - 1];
      var c, d := a[|a| - 1], b[|b| - 1];
      var s := HexString(a);
      HexStringLength(x);
      HexStringLength(y);
      assert HexString(x) == s[..2 * |x|] == HexString(y);
      assert s[2 * |x|..] == [HexDigit(c / 16), HexDigit(c % 16)] == [HexDigit(d / 16), HexDigit(d % 16)];
      HexDigitInjective(c / 16, d / 16);
      HexDigitInjective(c % 16, d % 16);
      HexStringInjective(x, y);
      assert a == x + [c] && b == y + [d];
    }
  }
}
