/**
  Where the headers of an emitted stream fall. The parse loop of
  `Decompress` keeps each header's offset in a token's byte, so a header at
  offset 256 or more is read at its offset minus 256. The final EOS header
  does not care; a RAW header there reads its payload from the front of
  the stream, which is wrong unless those bytes happen to match. Buffers
  of 256 bytes, mostly compressed to runs of two bytes, show each case: one
  whose stream is 257 bytes long comes back whole, one whose last
  literal's header lands at offset 256 comes back with its last byte
  replaced by its first, and one where those two bytes are equal comes
  back whole by chance.
*/
module HeaderOffsets {
  import opened Bytes
  import opened Format
  import opened MatchFinder
  import opened Serializer
  import opened Encoder
  import opened Decoder
  import opened RoundTrip
  import opened Wide

  /**
    Every header before the last data token starts below offset 256, and
    that token is RAW, `n` bytes long, with its header at offset 256
    exactly.
  */
  predicate LastAt256(toks: seq<Token>, at: nat, n: nat)
    decreases |toks|
  {
    if |toks| <= 2 then |toks| == 2 && at == 256 && toks[0].command == Raw && toks[0].length == n
    else at < 256 && LastAt256(toks[1..], at + Size(toks[0]), n)
  }

  /** The last RAW token of a description stands for the last `n` bytes of `s`, so there are at least `n` of them. */
  lemma {:induction false} LastInSource(s: seq<byte>, toks: seq<Token>, from: nat, at: nat, n: nat)
    requires Describes(s, toks, from) && LastAt256(toks, at, n)
    ensures from + n <= |s|
    decreases |toks|
  {
    if |toks| > 2 {
      LastInSource(s, toks[1..], from + Extent(toks[0]), at + Size(toks[0]), n);
    } else {
      assert Describes(s, toks[1..], from + n);
    }
  }

  /** The `n` literal bytes of the last RAW token follow its header at offset 256. */
  lemma LastInStream(s: seq<byte>, toks: seq<Token>, p: seq<byte>, c: seq<byte>, n: nat)
    requires AllEmittable(s, toks) && c == p + EmitAll(s, toks) && LastAt256(toks, |p|, n)
    ensures 257 + n <= |c|
  {
    EmitSize(s, toks);
    LastSize(toks, |p|, n);
  }

  /** Tokens from `at` on whose last data header lies at offset 256, `n` bytes long, reach at least `257 + n` bytes. */
  lemma {:induction false} LastSize(toks: seq<Token>, at: nat, n: nat)
    requires LastAt256(toks, at, n)
    ensures 257 + n <= at + StreamSize(toks)
    decreases |toks|
  {
    if |toks| > 2 {
      LastSize(toks[1..], at + Size(toks[0]), n);
    }
  }

  /**
    Replaying the tokens read back from the bytes emitted for a list that
    describes `s[from..]`, whose last RAW header lies at offset 256: that
    token is read at offset 0, so its `n` literal bytes come from just
    after the stream's first byte, and they take the place of the last `n`
    bytes of `s`; everything before them is restored.
  */
  lemma {:induction false} ReplayMisread(s: seq<byte>, toks: seq<Token>, from: nat, p: seq<byte>, c: seq<byte>, d: seq<byte>,
                                         n: nat, t: seq<byte>)
    requires Describes(s, toks, from) && AllEmittable(s, toks) && Narrow(toks) && |s| <= DST_SIZE
    requires c == p + EmitAll(s, toks) && LastAt256(toks, |p|, n)
    requires |d| == DST_SIZE && from <= |s| && d[..from] == s[..from]
    requires n <= |s| && 1 + n <= |c| && t == s[..|s| - n] + c[1 .. 1 + n]
    ensures Replayable(c, Wire(toks, |p|), from)
    ensures ReplayFrom(c, Wire(toks, |p|), d, from).1 == |s|
    ensures ReplayFrom(c, Wire(toks, |p|), d, from).0[..|s|] == t
    decreases |toks|
  {
    if |toks| <= 2 {
      MisreadLast(s, toks, from, p, c, d, n, t);
    } else {
      var q, w, next := MisreadHead(s, toks, from, p, c, d, n);
      ReplayMisread(s, toks[1..], next, q, c, Apply(w, c, d, from), n, t);
      ReplayJoin(c, w, Wire(toks[1..], |q|), d, from, next, t);
    }
  }

  /**
    A token before the last RAW one, emitted after `p`: it is read back as
    `w` and restores `s[from .. next]`, and what follows it is laid out
    as before, from `q` and `next` on.
  */
  lemma MisreadHead(s: seq<byte>, toks: seq<Token>, from: nat, p: seq<byte>, c: seq<byte>, d: seq<byte>, n: nat)
      returns (q: seq<byte>, w: Token, next: nat)
    requires Describes(s, toks, from) && AllEmittable(s, toks) && Narrow(toks) && |s| <= DST_SIZE
    requires c == p + EmitAll(s, toks) && LastAt256(toks, |p|, n) && |toks| > 2
    requires |d| == DST_SIZE && from <= |s| && d[..from] == s[..from]
    ensures Describes(s, toks[1..], next) && AllEmittable(s, toks[1..]) && Narrow(toks[1..])
    ensures c == q + EmitAll(s, toks[1..]) && LastAt256(toks[1..], |q|, n)
    ensures next == from + Extent(w) <= |s| && InBounds(w, c, from)
    ensures Apply(w, c, d, from)[..next] == s[..next]
    ensures Wire(toks, |p|) == [w] + Wire(toks[1..], |q|)
  {
    var e := EmitCompressStream(toks[0], s);
    w := NewToken(|p|, toks[0].length, toks[0].command);
    next := from + toks[0].length;
    ReplayHead(s, toks, from, p, c, d, e, w, next);
    q := p + e;
  }

  /**
    The last RAW token and EOS, emitted at offset 256: the RAW token is read
    with position 0 and writes `c[1 .. 1 + n]`, the EOS token writes
    nothing.
  */
  lemma MisreadLast(s: seq<byte>, toks: seq<Token>, from: nat, p: seq<byte>, c: seq<byte>, d: seq<byte>, n: nat, t: seq<byte>)
    requires Describes(s, toks, from) && AllEmittable(s, toks) && |s| <= DST_SIZE
    requires c == p + EmitAll(s, toks) && |toks| <= 2 && LastAt256(toks, |p|, n)
    requires |d| == DST_SIZE && from <= |s| && d[..from] == s[..from]
    requires n <= |s| && 1 + n <= |c| && t == s[..|s| - n] + c[1 .. 1 + n]
    ensures Replayable(c, Wire(toks, |p|), from)
    ensures ReplayFrom(c, Wire(toks, |p|), d, from).1 == |s|
    ensures ReplayFrom(c, Wire(toks, |p|), d, from).0[..|s|] == t
  {
    var w, eos := LastShape(s, toks, from, p, c, n);
    MisreadTail(s, c, d, from, w, eos);
  }

  /** The RAW token read at offset 0 and the final EOS, replayed from `from`: the bytes after the stream's first byte end the buffer. */
  lemma MisreadTail(s: seq<byte>, c: seq<byte>, d: seq<byte>, from: nat, w: Token, eos: Token)
    requires |s| <= DST_SIZE && |d| == DST_SIZE && from <= |s| && d[..from] == s[..from]
    requires w.command == Raw && w.idx == 0 && from + w.length == |s| && 1 + w.length <= |c|
    requires eos.command == Eos && eos.length == 0
    ensures Replayable(c, [w] + [eos], from)
    ensures ReplayFrom(c, [w] + [eos], d, from).1 == |s|
    ensures ReplayFrom(c, [w] + [eos], d, from).0[..|s|] == s[..|s| - w.length] + c[1 .. 1 + w.length]
  {
    var t := s[..from] + c[1 .. 1 + w.length];
    assert s[..|s| - w.length] == s[..from];
    MisreadWrite(s, c, d, from, w, t);
    ReplayEos(c, eos, Apply(w, c, d, from), |s|);
    ReplayJoin(c, w, [eos], d, from, |s|, t);
  }

  /** An EOS token alone writes nothing and leaves the cursor where it is. */
  lemma ReplayEos(c: seq<byte>, eos: Token, d: seq<byte>, cursor: nat)
    requires eos.command == Eos && eos.length == 0 && |d| == DST_SIZE && cursor <= DST_SIZE
    ensures Replayable(c, [eos], cursor) && ReplayFrom(c, [eos], d, cursor) == (d, cursor)
  {
    assert [eos][1..] == [];
  }

  /** The last two tokens, a RAW token standing for the end of `s` and EOS, emitted at offset 256, read back with positions cast to bytes. */
  lemma LastShape(s: seq<byte>, toks: seq<Token>, from: nat, p: seq<byte>, c: seq<byte>, n: nat) returns (w: Token, eos: Token)
    requires Describes(s, toks, from) && AllEmittable(s, toks) && |s| <= DST_SIZE
    requires c == p + EmitAll(s, toks) && |toks| <= 2 && LastAt256(toks, |p|, n)
    ensures from + n == |s| && 1 + n <= |c|
    ensures w == Token(0, n, Raw) && eos.command == Eos && eos.length == 0
    ensures Wire(toks, |p|) == [w] + [eos]
  {
    assert Describes(s, toks[1..], from + n);
    assert toks[1..] == [EOS];
    EmitHead(s, toks, p, c);
    var q := |p| + Size(toks[0]);
    w := NewToken(|p|, n, Raw);
    eos := NewToken(q, 0, Eos);
    assert Wire(toks[1..], q) == [eos] + [];
    WireHead(toks, |p|, w, q);
  }

  /** The RAW token read at offset 0 writes the bytes after the stream's first byte where the last bytes of `s` belong. */
  lemma MisreadWrite(s: seq<byte>, c: seq<byte>, d: seq<byte>, from: nat, w: Token, t: seq<byte>)
    requires |s| <= DST_SIZE && |d| == DST_SIZE && from <= |s| && d[..from] == s[..from]
    requires w.command == Raw && w.idx == 0 && from + w.length == |s| && 1 + w.length <= |c|
    requires t == s[..from] + c[1 .. 1 + w.length]
    ensures InBounds(w, c, from) && Apply(w, c, d, from)[..|s|] == t
  {
    var d1 := Apply(w, c, d, from);
    forall k | 0 <= k < |s|
      ensures d1[k] == t[k]
    {
      if k < from {
        assert d[..from][k] == s[..from][k];
      }
    }
  }

  /**
    Decompressing the bytes emitted for a covering list whose last RAW
    header, `n` bytes long, lies at offset 256 gives back the buffer with
    its last `n` bytes replaced by the `n` bytes after the stream's first
    byte.
  */
  lemma DecodeMisread(s: seq<byte>, toks: seq<Token>, n: nat)
    requires Covers(s, toks) && AllEmittable(s, toks) && Narrow(toks) && |s| <= DST_SIZE && LastAt256(toks, 0, n)
    ensures var c := EmitAll(s, toks);
            n <= |s| && 1 + n <= |c| && Decodable(c) && Decoded(c) == s[..|s| - n] + c[1 .. 1 + n]
  {
    var c := EmitAll(s, toks);
    assert c == [] + c;
    LastInSource(s, toks, 0, 0, n);
    LastInStream(s, toks, [], c, n);
    ParseEmitted(s, toks);
    ReplayMisread(s, toks, 0, [], c, Zeros(), n, s[..|s| - n] + c[1 .. 1 + n]);
  }

  /** `n` RLE tokens of two bytes each, one after another from `from` on. */
  function PairRuns(from: nat, n: nat): (r: seq<Token>)
    requires from + 2 * n <= 257
    ensures |r| == n
    decreases n
  {
    if n == 0 then [] else [Token(from, 2, Rle)] + PairRuns(from + 2, n - 1)
  }

  /** The loop picks an RLE token of two bytes at `lo` and at every second position after it, below `hi`. */
  predicate PicksPairs(picks: seq<Token>, lo: nat, hi: nat) {
    lo <= hi <= |picks| && hi <= 256 &&
    forall k | lo <= k < hi && (k - lo) % 2 == 0 :: picks[k] == Token(k, 2, Rle)
  }

  /**
    `s[lo .. hi]` holds the pairs `0 0 1 1 2 2 …`, and every byte outside
    it is at least as large as the number of pairs.
  */
  predicate PairedBetween(s: seq<byte>, lo: nat, hi: nat) {
    lo <= hi <= |s| && (hi - lo) % 2 == 0 &&
    (forall k | lo <= k < hi :: s[k] == (k - lo) / 2) &&
    (forall k | 0 <= k < |s| && !(lo <= k < hi) :: s[k] >= (hi - lo) / 2)
  }

  /** Two equal bytes that start a run of exactly two, with no copy of that byte before them: the loop picks an RLE token of length 2. */
  lemma PairPick(s: seq<byte>, idx: nat)
    requires Encodable(s) && idx + 1 < |s| && s[idx + 1] == s[idx]
    requires idx + 2 == |s| || s[idx + 2] != s[idx]
    requires forall k | 0 <= k < idx :: s[k] != s[idx]
    ensures Select(s, idx) == Token(idx, 2, Rle)
  {
    assert RunLength(s, idx) == 2;
    RepTokenFound(s, idx);
    var rep := RepToken(s, idx);
    if rep.command == Rep {
      assert s[rep.idx .. rep.idx + rep.length][0] == s[idx .. idx + rep.length][0];
    }
  }

  /** A byte that differs from the next one, at the first or last position: the loop picks it as a one-byte literal. */
  lemma LonePick(s: seq<byte>, idx: nat)
    requires Encodable(s) && idx < |s| && (idx == 0 || idx + 1 == |s|)
    requires idx + 1 == |s| || s[idx + 1] != s[idx]
    ensures Select(s, idx) == Token(idx, 1, Raw)
  {
    assert RunLength(s, idx) == 1;
  }

  /**
    In a paired stretch of `s`, the pair `v` is two equal bytes, followed
    by the end of `s` or by another byte, with no copy of that byte before
    it.
  */
  lemma PairFacts(s: seq<byte>, lo: nat, hi: nat, v: nat, idx: nat)
    requires PairedBetween(s, lo, hi) && idx == lo + 2 * v < hi
    ensures idx + 1 < |s| && s[idx + 1] == s[idx]
    ensures idx + 2 == |s| || s[idx + 2] != s[idx]
    ensures forall k | 0 <= k < idx :: s[k] != s[idx]
  {
    assert idx + 1 < hi;
    assert s[idx] == v && s[idx + 1] == v;
    if idx + 2 < hi {
      assert s[idx + 2] == v + 1;
    }
    forall k | 0 <= k < idx
      ensures s[k] != s[idx]
    {
      if lo <= k {
        assert s[k] == (k - lo) / 2 < v;
      }
    }
  }

  /** In a paired stretch of `s`, the loop picks an RLE token of two bytes at every pair. */
  lemma PairsPicked(s: seq<byte>, lo: nat, hi: nat)
    requires Encodable(s) && PairedBetween(s, lo, hi)
    ensures PicksPairs(Picks(s), lo, hi)
  {
    forall k | lo <= k < hi && (k - lo) % 2 == 0
      ensures Picks(s)[k] == Token(k, 2, Rle)
    {
      PairAt(s, lo, hi, (k - lo) / 2, k);
    }
  }

  /** At a pair of a paired stretch, the loop picks an RLE token of two bytes. */
  lemma PairAt(s: seq<byte>, lo: nat, hi: nat, v: nat, idx: nat)
    requires Encodable(s) && PairedBetween(s, lo, hi) && idx == lo + 2 * v < hi
    ensures idx < 256 && idx < |Picks(s)| && Picks(s)[idx] == Token(idx, 2, Rle)
  {
    PairFacts(s, lo, hi, v, idx);
    PairPick(s, idx);
  }

  /** From pair `v` of the pairs the loop picks, with no RAW token pending, it lays down the `n` pairs up to `hi` first. */
  lemma {:induction false} PairsEncode(s: seq<byte>, picks: seq<Token>, lo: nat, hi: nat, v: nat, n: nat, from: nat)
    requires Advances(s, picks) && PicksPairs(picks, lo, hi) && from == lo + 2 * v && from + 2 * n == hi
    ensures EncodeFrom(s, picks, from, None) == PairRuns(from, n) + EncodeFrom(s, picks, hi, None)
    decreases n
  {
    if n > 0 {
      PairsEncode(s, picks, lo, hi, v + 1, n - 1, from + 2);
      PairEncode(s, picks, lo, hi, v, n, from);
    }
  }

  /** The loop lays down the pair it picks at `from`, then goes on two bytes later. */
  lemma PairEncode(s: seq<byte>, picks: seq<Token>, lo: nat, hi: nat, v: nat, n: nat, from: nat)
    requires Advances(s, picks) && PicksPairs(picks, lo, hi) && from == lo + 2 * v && from + 2 * n == hi && 0 < n
    requires EncodeFrom(s, picks, from + 2, None) == PairRuns(from + 2, n - 1) + EncodeFrom(s, picks, hi, None)
    ensures EncodeFrom(s, picks, from, None) == PairRuns(from, n) + EncodeFrom(s, picks, hi, None)
  {
    var t := picks[from];
    assert t == Token(from, 2, Rle);
    assert EncodeFrom(s, picks, from, None) == [t] + EncodeFrom(s, picks, from + 2, None);
    Regroup([t], PairRuns(from + 2, n - 1), EncodeFrom(s, picks, hi, None));
  }

  /** `n` pairs emitted after `at` with the headers that follow: the pairs take two bytes each and their headers come before `at + 2n`. */
  lemma {:induction false} PairsLate(from: nat, n: nat, tail: seq<Token>, at: nat, m: nat)
    requires from + 2 * n <= 257 && at + 2 * n == 256 && LastAt256(tail, 256, m)
    ensures LastAt256(PairRuns(from, n) + tail, at, m)
    decreases n
  {
    if n > 0 {
      var r := PairRuns(from, n) + tail;
      assert r[0] == Token(from, 2, Rle) && Size(r[0]) == 2;
      assert r[1..] == PairRuns(from + 2, n - 1) + tail;
      PairsLate(from + 2, n - 1, tail, at + 2, m);
    } else {
      assert PairRuns(from, n) + tail == tail;
    }
  }

  /** The headers of `n` pairs emitted from `at` on all start below `at + 2n`, before a tail whose headers start below 256 too. */
  lemma {:induction false} PairsBelow(from: nat, n: nat, tail: seq<Token>, at: nat)
    requires from + 2 * n <= 257 && at + 2 * n <= 256 && HeadersBelow(tail, at + 2 * n)
    ensures HeadersBelow(PairRuns(from, n) + tail, at)
    decreases n
  {
    if n > 0 {
      var r := PairRuns(from, n) + tail;
      assert r[0] == Token(from, 2, Rle) && Size(r[0]) == 2;
      assert r[1..] == PairRuns(from + 2, n - 1) + tail;
      PairsBelow(from + 2, n - 1, tail, at + 2);
    } else {
      assert PairRuns(from, n) + tail == tail;
    }
  }

  /** Two bytes per pair fit in a header, so `n` pairs before a narrow tail keep the list narrow. */
  lemma {:induction false} PairsNarrow(from: nat, n: nat, tail: seq<Token>)
    requires from + 2 * n <= 257 && Narrow(tail)
    ensures Narrow(PairRuns(from, n) + tail)
    decreases n
  {
    if n > 0 {
      var t := Token(from, 2, Rle);
      var rest := PairRuns(from + 2, n - 1) + tail;
      PairsNarrow(from + 2, n - 1, tail);
      assert PairRuns(from, n) + tail == [t] + rest;
      NarrowCons(t, rest);
    } else {
      assert PairRuns(from, n) + tail == tail;
    }
  }

  /** A token whose length fits in a header, before a narrow list, keeps it narrow. */
  lemma NarrowCons(t: Token, rest: seq<Token>)
    requires t.length <= MAX_WIRE_LENGTH && Narrow(rest)
    ensures Narrow([t] + rest)
  {
    forall i | 0 <= i < |[t] + rest|
      ensures ([t] + rest)[i].length <= MAX_WIRE_LENGTH
    {
      if i > 0 {
        assert ([t] + rest)[i] == rest[i - 1];
      }
    }
  }

  /** Every pair's repeated byte lies in `s`, so `n` pairs before an emittable tail keep the list emittable. */
  lemma {:induction false} PairsEmittable(s: seq<byte>, from: nat, n: nat, tail: seq<Token>)
    requires from + 2 * n <= |s| <= 256 && AllEmittable(s, tail)
    ensures AllEmittable(s, PairRuns(from, n) + tail)
    decreases n
  {
    if n > 0 {
      PairsEmittable(s, from + 2, n - 1, tail);
      PairsCons(from, n, tail);
      ConsBytes(s, Token(from, 2, Rle), PairRuns(from + 2, n - 1) + tail);
    } else {
      assert PairRuns(from, n) + tail == tail;
    }
  }

  /** How many bytes the tokens take in the compressed stream, one after another. */
  function StreamSize(toks: seq<Token>): nat {
    if toks == [] then 0 else Size(toks[0]) + StreamSize(toks[1..])
  }

  /** The stream of a token list is as long as its tokens' sizes add up to. */
  lemma {:induction false} EmitSize(s: seq<byte>, toks: seq<Token>)
    requires AllEmittable(s, toks)
    ensures |EmitAll(s, toks)| == StreamSize(toks)
    decreases |toks|
  {
    if toks != [] {
      assert [] + EmitAll(s, toks) == EmitAll(s, toks);
      EmitHead(s, toks, [], EmitAll(s, toks));
      EmitSize(s, toks[1..]);
    }
  }

  /** `n` pairs take two bytes each, in front of their tail. */
  lemma {:induction false} PairsSize(from: nat, n: nat, tail: seq<Token>)
    requires from + 2 * n <= 257
    ensures StreamSize(PairRuns(from, n) + tail) == 2 * n + StreamSize(tail)
    decreases n
  {
    if n > 0 {
      var rest := PairRuns(from + 2, n - 1) + tail;
      PairsSize(from + 2, n - 1, tail);
      PairsCons(from, n, tail);
      assert ([Token(from, 2, Rle)] + rest)[1..] == rest;
    } else {
      assert PairRuns(from, n) + tail == tail;
    }
  }

  /** The first of `n` pairs, split off the front. */
  lemma PairsCons(from: nat, n: nat, tail: seq<Token>)
    requires 0 < n && from + 2 * n <= 257
    ensures PairRuns(from, n) + tail == [Token(from, 2, Rle)] + (PairRuns(from + 2, n - 1) + tail)
  {
  }

  /** A token in front of a list adds its own bytes to the stream. */
  lemma ConsBytes(s: seq<byte>, t: Token, rest: seq<Token>)
    requires Emittable(s, t) && AllEmittable(s, rest)
    ensures AllEmittable(s, [t] + rest) && |EmitAll(s, [t] + rest)| == Size(t) + |EmitAll(s, rest)|
  {
    EmitCons(s, t, rest);
  }

  /**
    The buffer `0 0 1 1 … 127 127` compresses to 128 RLE tokens of two bytes
    and EOS: a stream of 257 bytes, whose last header, the EOS, lies at
    offset 256. Decompressing it still gives the buffer back.
  */
  lemma HalvesRoundTrip(s: seq<byte>)
    requires |s| == DST_SIZE && forall k | 0 <= k < |s| :: s[k] == k / 2
    ensures Encodable(s) && Tokenize(s) == PairRuns(0, 128) + [EOS]
    ensures |EmitAll(s, Tokenize(s))| == 257
    ensures Decodable(EmitAll(s, Tokenize(s))) && Decoded(EmitAll(s, Tokenize(s))) == s
  {
    assert PairedBetween(s, 0, 256);
    PairsPicked(s, 0, 256);
    HalvesEncode(s, Picks(s));
    TokenizePicks(s);
    HalvesStream(s, PairRuns(0, 128) + [EOS]);
    RoundTrip.RoundTrip(s);
  }

  /** The loop lays down the 128 pairs it picks, then EOS. */
  lemma HalvesEncode(s: seq<byte>, picks: seq<Token>)
    requires Advances(s, picks) && |s| == DST_SIZE && PicksPairs(picks, 0, 256)
    ensures EncodeFrom(s, picks, 0, None) == PairRuns(0, 128) + [EOS]
  {
    PairsEncode(s, picks, 0, 256, 0, 128, 0);
    assert EncodeFrom(s, picks, 256, None) == [EOS];
  }

  /** The token list of `Compress` is the loop's output from the first position, with no RAW token pending. */
  lemma TokenizePicks(s: seq<byte>)
    requires Encodable(s)
    ensures Tokenize(s) == EncodeFrom(s, Picks(s), 0, None)
  {
  }

  /** The 128 pairs and EOS fit in headers, take 257 bytes, and keep every header but the EOS below offset 256. */
  lemma HalvesStream(s: seq<byte>, toks: seq<Token>)
    requires |s| == DST_SIZE && toks == PairRuns(0, 128) + [EOS]
    ensures AllEmittable(s, toks) && |EmitAll(s, toks)| == 257
    ensures Narrow(toks) && HeadersBelow(toks, 0)
  {
    PairsEmittable(s, 0, 128, [EOS]);
    EmitSize(s, toks);
    PairsSize(0, 128, [EOS]);
    assert StreamSize([EOS]) == 1 + StreamSize([]);
    PairsNarrow(0, 128, [EOS]);
    PairsBelow(0, 128, [EOS], 0);
  }

  /**
    A buffer of 256 bytes: a byte `a`, the pairs `0 0 1 1 … 126 126`, and a
    byte `b` other than `a`, both at least 127. `Compress` emits RAW `a`,
    127 RLE tokens of two bytes and RAW `b`, whose header lands at offset
    256 of a 259-byte stream. `Decompress` reads that header at offset 0 and
    copies `a` in place of `b`; with offsets kept as ints the buffer comes
    back whole.
  */
  lemma LateRawMisread(s: seq<byte>)
    requires |s| == DST_SIZE && s[0] >= 127 && s[255] >= 127 && s[0] != s[255]
    requires forall k | 1 <= k < 255 :: s[k] == (k - 1) / 2
    ensures Encodable(s) && Tokenize(s) == [Token(0, 1, Raw)] + (PairRuns(1, 127) + [Token(255, 1, Raw), EOS])
    ensures |EmitAll(s, Tokenize(s))| == 259
    ensures Decodable(EmitAll(s, Tokenize(s))) && Decoded(EmitAll(s, Tokenize(s))) == s[..255] + [s[0]]
    ensures Decoded(EmitAll(s, Tokenize(s))) != s
    ensures WideDecodable(EmitAll(s, Tokenize(s))) && WideDecoded(EmitAll(s, Tokenize(s))) == s
  {
    var toks := LateTokens(s);
    LateDecodes(s, toks);
  }

  /** The stream of the tokens of `LateRawMisread` decompresses to the buffer with its last byte replaced by its first, and to the buffer itself with offsets kept as ints. */
  lemma LateDecodes(s: seq<byte>, toks: seq<Token>)
    requires |s| == DST_SIZE && s[0] != s[255] && Covers(s, toks)
    requires toks == [Token(0, 1, Raw)] + (PairRuns(1, 127) + [Token(255, 1, Raw), EOS])
    ensures AllEmittable(s, toks) && |EmitAll(s, toks)| == 259
    ensures Decodable(EmitAll(s, toks)) && Decoded(EmitAll(s, toks)) == s[..255] + [s[0]]
    ensures Decoded(EmitAll(s, toks)) != s
    ensures WideDecodable(EmitAll(s, toks)) && WideDecoded(EmitAll(s, toks)) == s
  {
    var c := LateBytes(s, toks);
    LateHeaders(s, toks);
    DecodeMisread(s, toks, 1);
    assert c[1 .. 2] == [s[0]];
    assert Decoded(c)[255] != s[255];
    WideDecodeEmitted(s, toks);
  }

  /**
    The same buffer with `b` equal to `a`: its last RAW header still lands
    at offset 256, so not every header but the last starts below 256, yet
    the byte read from the front of the stream is the right one and the
    buffer comes back whole. Headers below 256 are enough for the round
    trip, not needed.
  */
  lemma LateRawKept(s: seq<byte>)
    requires |s| == DST_SIZE && s[0] >= 127 && s[255] == s[0]
    requires forall k | 1 <= k < 255 :: s[k] == (k - 1) / 2
    ensures Encodable(s) && Tokenize(s) == [Token(0, 1, Raw)] + (PairRuns(1, 127) + [Token(255, 1, Raw), EOS])
    ensures !HeadersBelow(Tokenize(s), 0)
    ensures Decodable(EmitAll(s, Tokenize(s))) && Decoded(EmitAll(s, Tokenize(s))) == s
  {
    var toks := LateTokens(s);
    LateKeeps(s, toks);
  }

  /** The stream of the tokens of `LateRawKept` misses the header condition and decompresses to the buffer. */
  lemma LateKeeps(s: seq<byte>, toks: seq<Token>)
    requires |s| == DST_SIZE && s[255] == s[0] && Covers(s, toks)
    requires toks == [Token(0, 1, Raw)] + (PairRuns(1, 127) + [Token(255, 1, Raw), EOS])
    ensures AllEmittable(s, toks) && !HeadersBelow(toks, 0)
    ensures Decodable(EmitAll(s, toks)) && Decoded(EmitAll(s, toks)) == s
  {
    var c := LateBytes(s, toks);
    LateHeaders(s, toks);
    LateNotBelow(toks, 0, 1);
    DecodeMisread(s, toks, 1);
    assert c[1 .. 2] == [s[0]];
    assert s[..255] + [s[0]] == s;
  }

  /** A list whose last data header lies at offset 256 does not keep every header but the last below 256. */
  lemma {:induction false} LateNotBelow(toks: seq<Token>, at: nat, n: nat)
    requires LastAt256(toks, at, n)
    ensures !HeadersBelow(toks, at)
    decreases |toks|
  {
    if |toks| > 2 {
      LateNotBelow(toks[1..], at + Size(toks[0]), n);
    }
  }

  /** The tokens `Compress` picks for the buffers of `LateRawMisread` and `LateRawKept`. */
  lemma LateTokens(s: seq<byte>) returns (toks: seq<Token>)
    requires |s| == DST_SIZE && s[0] >= 127 && s[255] >= 127
    requires forall k | 1 <= k < 255 :: s[k] == (k - 1) / 2
    ensures Encodable(s) && toks == Tokenize(s) && Covers(s, toks)
    ensures toks == [Token(0, 1, Raw)] + (PairRuns(1, 127) + [Token(255, 1, Raw), EOS])
  {
    LatePicks(s);
    LateEncode(s, Picks(s));
    TokenizePicks(s);
    toks := Tokenize(s);
    assert toks[0] != Token(0, 0, Raw);
  }

  /** The loop picks a literal at both ends of the buffer of `LateRawMisread`, and the 127 pairs between them. */
  lemma LatePicks(s: seq<byte>)
    requires |s| == DST_SIZE && s[0] >= 127 && s[255] >= 127
    requires forall k | 1 <= k < 255 :: s[k] == (k - 1) / 2
    ensures Encodable(s)
    ensures Picks(s)[0] == Token(0, 1, Raw) && Picks(s)[255] == Token(255, 1, Raw) && PicksPairs(Picks(s), 1, 255)
  {
    assert PairedBetween(s, 1, 255);
    PairsPicked(s, 1, 255);
    LonePick(s, 0);
    LonePick(s, 255);
  }

  /** A literal, 127 pairs and a literal picked in turn: the loop lays them down as they are, then EOS. */
  lemma LateEncode(s: seq<byte>, picks: seq<Token>)
    requires Advances(s, picks) && |s| == DST_SIZE
    requires picks[0] == Token(0, 1, Raw) && picks[255] == Token(255, 1, Raw) && PicksPairs(picks, 1, 255)
    ensures EncodeFrom(s, picks, 0, None) == [Token(0, 1, Raw)] + (PairRuns(1, 127) + [Token(255, 1, Raw), EOS])
  {
    PairsEncode(s, picks, 1, 255, 0, 127, 1);
    LiteralFirst(s, picks);
    LiteralLast(s, picks);
  }

  /** A literal picked at 0 and a pair at 1: the literal is pushed in front of what the loop lays down from 1. */
  lemma LiteralFirst(s: seq<byte>, picks: seq<Token>)
    requires Advances(s, picks) && |s| == DST_SIZE && picks[0] == Token(0, 1, Raw) && picks[1].command == Rle
    ensures EncodeFrom(s, picks, 0, None) == [Token(0, 1, Raw)] + EncodeFrom(s, picks, 1, None)
  {
    var first := Token(0, 1, Raw);
    MergedWraps(None, first);
    assert EncodeFrom(s, picks, 0, None) == EncodeFrom(s, picks, 1, Some(first));
  }

  /** A literal picked at the last position: the loop lays it down, then EOS. */
  lemma LiteralLast(s: seq<byte>, picks: seq<Token>)
    requires Advances(s, picks) && |s| == DST_SIZE && picks[255] == Token(255, 1, Raw)
    ensures EncodeFrom(s, picks, 255, None) == [Token(255, 1, Raw), EOS]
  {
    MergedWraps(None, Token(255, 1, Raw));
  }

  /** The stream of the tokens of `LateRawMisread`: 259 bytes, with the first literal at offset 1. */
  lemma LateBytes(s: seq<byte>, toks: seq<Token>) returns (c: seq<byte>)
    requires |s| == DST_SIZE && toks == [Token(0, 1, Raw)] + (PairRuns(1, 127) + [Token(255, 1, Raw), EOS])
    ensures AllEmittable(s, toks) && c == EmitAll(s, toks) && |c| == 259 && c[1] == s[0]
  {
    var first, last := Token(0, 1, Raw), Token(255, 1, Raw);
    var tail := [last, EOS];
    EmitLast(s, last);
    PairsEmittable(s, 1, 127, tail);
    FirstLiteral(s, PairRuns(1, 127) + tail);
    c := EmitAll(s, toks);
    EmitSize(s, toks);
    LateSize(toks);
  }

  /** The tokens of `LateRawMisread` take 259 bytes: two for each literal, two for each pair and one for EOS. */
  lemma LateSize(toks: seq<Token>)
    requires toks == [Token(0, 1, Raw)] + (PairRuns(1, 127) + [Token(255, 1, Raw), EOS])
    ensures StreamSize(toks) == 259
  {
    var tail := [Token(255, 1, Raw), EOS];
    PairsSize(1, 127, tail);
    assert tail[1..] == [EOS] && tail[1..][1..] == [];
    assert StreamSize([EOS]) == 1 + StreamSize([]);
    assert StreamSize(tail) == 2 + StreamSize([EOS]);
    assert toks[1..] == PairRuns(1, 127) + tail;
  }

  /** A one-byte literal for `s[0]` in front of a list: its second byte is `s[0]`. */
  lemma FirstLiteral(s: seq<byte>, rest: seq<Token>)
    requires 0 < |s| && AllEmittable(s, rest)
    ensures AllEmittable(s, [Token(0, 1, Raw)] + rest)
    ensures EmitAll(s, [Token(0, 1, Raw)] + rest)[1] == s[0]
  {
    var first := Token(0, 1, Raw);
    EmitCons(s, first, rest);
    assert EmitCompressStream(first, s)[1] == s[0];
  }

  /** The tokens of `LateRawMisread` fit in headers, and the header of the last literal lies at offset 256. */
  lemma LateHeaders(s: seq<byte>, toks: seq<Token>)
    requires toks == [Token(0, 1, Raw)] + (PairRuns(1, 127) + [Token(255, 1, Raw), EOS])
    ensures Narrow(toks) && LastAt256(toks, 0, 1)
  {
    var first, tail := Token(0, 1, Raw), [Token(255, 1, Raw), EOS];
    PairsNarrow(1, 127, tail);
    NarrowCons(first, PairRuns(1, 127) + tail);
    assert tail[1..] == [EOS];
    PairsLate(1, 127, tail, 2, 1);
    assert toks[1..] == PairRuns(1, 127) + tail;
  }
}
