/**
  `Decompress`: the parse loop that reads tokens from the compressed bytes,
  and the replay of those tokens into a 256-byte destination buffer by
  `LzToken.WriteDecompressBuffer`.
*/
module Decoder {
  import opened Bytes
  import opened Format
  import opened Serializer

  /** Size of the destination buffer `Decompress` allocates. */
  const DST_SIZE := 256

  /** `Decompress`'s parse loop: one token per header, each at its header's offset cast to a byte. */
  method ParseLoop(c: seq<byte>) returns (tokens: seq<Token>)
    ensures tokens == Parse(c)
  {
    tokens := [];
    var step := 1;
    var idx := 0;
    while idx < |c|
      invariant tokens + ParseFrom(c, idx) == Parse(c)
      decreases |c| - idx
    {
      var command := CommandOf(HighBits(c[idx]));
      var length := LowBits(c[idx]);
      var token := NewToken(idx, length, command);
      match command {
        case Raw => step := length + 1;
        case Rep => step := 2;
        case Rle => step := 2;
        case Eos => step := 1;
      }
      var next := idx + step;
      assert step == Step(command, length);
      ParseUnfold(c, idx, command, length, next);
      Regroup(tokens, [token], ParseFrom(c, next));
      tokens := tokens + [token];
      idx := next;
    }
  }

  /** The buffer `d` with `n` bytes from `at` on set to `b`, one after another. */
  function Fill(d: seq<byte>, at: nat, n: nat, b: byte): (r: seq<byte>)
    requires at + n <= |d|
    ensures |r| == |d|
    ensures forall k | 0 <= k < |d| :: r[k] == if at <= k < at + n then b else d[k]
  {
    if n == 0 then d else Fill(d, at, n - 1, b)[at + n - 1 := b]
  }

  /** The buffer `d` with the `n` bytes `c[from ..]` written from `at` on, one after another. */
  function Put(d: seq<byte>, at: nat, c: seq<byte>, from: nat, n: nat): (r: seq<byte>)
    requires (n == 0 || from + n <= |c|) && at + n <= |d|
    ensures |r| == |d|
    ensures forall k | 0 <= k < |d| :: r[k] == if at <= k < at + n then c[from + (k - at)] else d[k]
  {
    if n == 0 then d else Put(d, at, c, from, n - 1)[at + n - 1 := c[from + n - 1]]
  }

  /**
    The buffer `d` after `n` steps of the REP copy `d[to + i] := d[from + i]`,
    in index order. Only `d[to .. to + n]` changes; when the source is
    behind the target, each byte written equals the byte at its source in
    the final buffer, so a source that overlaps the target repeats its
    pattern.
  */
  function CopyForward(d: seq<byte>, from: nat, to: nat, n: nat): (r: seq<byte>)
    requires from + n <= |d| && to + n <= |d|
    ensures |r| == |d|
    ensures forall k | 0 <= k < |d| && !(to <= k < to + n) :: r[k] == d[k]
    ensures from < to ==> forall k | to <= k < to + n :: r[k] == r[k - to + from]
    ensures to <= from ==> forall k | to <= k < to + n :: r[k] == d[k - to + from]
  {
    if n == 0 then d
    else
      var r := CopyForward(d, from, to, n - 1);
      var r' := r[to + n - 1 := r[from + n - 1]];
      assert from < to ==> forall k | to <= k < to + n :: r'[k] == r'[k - to + from] by {
        if from < to {
          forall k | to <= k < to + n
            ensures r'[k] == r'[k - to + from]
          {
            if k < to + n - 1 {
              assert r[k] == r[k - to + from];
            }
          }
        }
      }
      r'
  }

  /**
    What `WriteDecompressBuffer` needs to stay inside the compressed bytes
    `c` and the destination buffer when it writes token `t` at `cursor`:
    the byte after the header for RLE and REP, the literal bytes for RAW,
    the copied range for REP, and `length` bytes of room from the cursor
    (which the trace of the written range also slices, for every command).
  */
  predicate InBounds(t: Token, c: seq<byte>, cursor: nat) {
    cursor + t.length <= DST_SIZE &&
    match t.command
    case Rle => t.idx + 1 < |c|
    case Rep => t.idx + 1 < |c| && c[t.idx + 1] + t.length <= DST_SIZE
    case Raw => t.length == 0 || t.idx + 1 + t.length <= |c|
    case Eos => true
  }

  /** The destination buffer after `WriteDecompressBuffer` writes token `t` at `cursor`. */
  function Apply(t: Token, c: seq<byte>, d: seq<byte>, cursor: nat): (r: seq<byte>)
    requires |d| == DST_SIZE && InBounds(t, c, cursor)
    ensures |r| == DST_SIZE
    ensures forall k | 0 <= k < DST_SIZE && !(cursor <= k < cursor + Extent(t)) :: r[k] == d[k]
  {
    match t.command
    case Rle => Fill(d, cursor, t.length, c[t.idx + 1])
    case Rep => CopyForward(d, c[t.idx + 1], cursor, t.length)
    case Raw => Put(d, cursor, c, t.idx + 1, t.length)
    case Eos => d
  }

  /**
    `LzToken.WriteDecompressBuffer`: writes token `t` into `dst` at
    `dstIdx`, byte by byte, and returns how many bytes it wrote.
  */
  method WriteDecompressBuffer(t: Token, c: seq<byte>, dst: array<byte>, dstIdx: nat) returns (bytesWritten: nat)
    requires dst.Length == DST_SIZE && InBounds(t, c, dstIdx)
    modifies dst
    ensures dst[..] == Apply(t, c, old(dst[..]), dstIdx)
    ensures bytesWritten == Extent(t)
  {
    bytesWritten := 0;
    match t.command {
      case Rle =>
        var b := c[t.idx + 1];
        var i := 0;
        while i < t.length
          invariant i <= t.length
          invariant dst[..] == Fill(old(dst[..]), dstIdx, i, b)
        {
          dst[dstIdx + i] := b;
          i := i + 1;
        }
        bytesWritten := t.length;
      case Rep =>
        var readIdx: nat := c[t.idx + 1];
        var writeIdx := dstIdx;
        var i := 0;
        while i < t.length
          invariant i <= t.length
          invariant readIdx == c[t.idx + 1] + i && writeIdx == dstIdx + i
          invariant dst[..] == CopyForward(old(dst[..]), c[t.idx + 1], dstIdx, i)
        {
          dst[writeIdx] := dst[readIdx];
          writeIdx, readIdx := writeIdx + 1, readIdx + 1;
          i := i + 1;
        }
        bytesWritten := t.length;
      case Raw =>
        var readIdx := t.idx + 1;
        var writeIdx := dstIdx;
        var i := 0;
        while i < t.length
          invariant i <= t.length
          invariant readIdx == t.idx + 1 + i && writeIdx == dstIdx + i
          invariant dst[..] == Put(old(dst[..]), dstIdx, c, t.idx + 1, i)
        {
          dst[writeIdx] := c[readIdx];
          writeIdx, readIdx := writeIdx + 1, readIdx + 1;
          i := i + 1;
        }
        bytesWritten := t.length;
      case Eos =>
        bytesWritten := 0;
    }
  }

  /** Every token, written in turn from `cursor` on, stays in bounds. */
  predicate Replayable(c: seq<byte>, toks: seq<Token>, cursor: nat)
    decreases |toks|
  {
    toks == [] || (InBounds(toks[0], c, cursor) && Replayable(c, toks[1..], cursor + Extent(toks[0])))
  }

  /** The destination buffer and cursor after writing `toks` in turn from `cursor` on. */
  function ReplayFrom(c: seq<byte>, toks: seq<Token>, d: seq<byte>, cursor: nat): (r: (seq<byte>, nat))
    requires |d| == DST_SIZE && cursor <= DST_SIZE && Replayable(c, toks, cursor)
    ensures |r.0| == DST_SIZE && cursor <= r.1 <= DST_SIZE
    ensures r.1 == cursor + Total(toks)
    ensures forall k | 0 <= k < cursor :: r.0[k] == d[k]
    decreases |toks|
  {
    if toks == [] then (d, cursor)
    else ReplayFrom(c, toks[1..], Apply(toks[0], c, d, cursor), cursor + Extent(toks[0]))
  }

  /** A zeroed destination buffer, as `new byte[256]` gives. */
  function Zeros(): (d: seq<byte>)
    ensures |d| == DST_SIZE && forall k | 0 <= k < DST_SIZE :: d[k] == 0
  {
    seq(DST_SIZE, _ => 0)
  }

  /** The compressed stream can be replayed as `Decompress` parses it. */
  predicate Decodable(c: seq<byte>) {
    Replayable(c, Parse(c), 0)
  }

  /**
    What `Decompress` returns: the bytes before the final cursor, as many
    as the parsed tokens write, and never more than the 256-byte buffer.
  */
  function Decoded(c: seq<byte>): (r: seq<byte>)
    requires Decodable(c)
    ensures |r| == Total(Parse(c)) <= DST_SIZE
  {
    var (d, n) := ReplayFrom(c, Parse(c), Zeros(), 0);
    d[..n]
  }

  /** Before token `i` of a replayable list is written, it is in bounds. */
  lemma ReplayStep(c: seq<byte>, toks: seq<Token>, i: nat, t: Token, cursor: nat)
    requires i < |toks| && t == toks[i] && Replayable(c, toks[i..], cursor)
    ensures InBounds(t, c, cursor)
  {
  }

  /** After token `i` is written, the rest of the list replays from the cursor it leaves to the same end. */
  lemma ReplayAfter(c: seq<byte>, toks: seq<Token>, i: nat, t: Token, d0: seq<byte>, d1: seq<byte>, cursor: nat, next: nat)
    requires i < |toks| && t == toks[i] && |d0| == DST_SIZE && cursor <= DST_SIZE
    requires Replayable(c, toks[i..], cursor) && InBounds(t, c, cursor)
    requires d1 == Apply(t, c, d0, cursor) && next == cursor + Extent(t)
    ensures next <= DST_SIZE && Replayable(c, toks[i + 1..], next)
    ensures ReplayFrom(c, toks[i + 1..], d1, next) == ReplayFrom(c, toks[i..], d0, cursor)
  {
    assert toks[i..][1..] == toks[i + 1..];
  }

  /** The replay loop of `Decompress`: every token written in turn from cursor 0 into a zeroed buffer. */
  method ReplayLoop(c: seq<byte>, tokens: seq<Token>) returns (out: seq<byte>)
    requires Replayable(c, tokens, 0)
    ensures var (d, n) := ReplayFrom(c, tokens, Zeros(), 0); out == d[..n]
  {
    var dstData := new byte[DST_SIZE](_ => 0);
    assert dstData[..] == Zeros();
    var dstIdx: nat := 0;
    var i := 0;
    ghost var final := ReplayFrom(c, tokens, Zeros(), 0);
    while i < |tokens|
      invariant i <= |tokens| && dstIdx <= DST_SIZE
      invariant Replayable(c, tokens[i..], dstIdx)
      invariant ReplayFrom(c, tokens[i..], dstData[..], dstIdx) == final
    {
      ghost var d0 := dstData[..];
      var t := tokens[i];
      ReplayStep(c, tokens, i, t, dstIdx);
      var written := WriteDecompressBuffer(t, c, dstData, dstIdx);
      ReplayAfter(c, tokens, i, t, d0, dstData[..], dstIdx, dstIdx + written);
      dstIdx := dstIdx + written;
      i := i + 1;
    }
    assert tokens[i..] == [];
    out := dstData[0..dstIdx];
  }

  /** `Decompress`: the parse loop, then the replay loop. */
  method Decompress(c: seq<byte>) returns (out: seq<byte>)
    requires Decodable(c)
    ensures out == Decoded(c)
  {
    var tokens := ParseLoop(c);
    out := ReplayLoop(c, tokens);
  }
}
