/**
  The replay `Decompress` evidently means to do: each header's offset kept
  as an int, so every RAW, RLE or REP token reads its payload just after
  its own header, wherever that header lies in the stream. With it, the
  emitted stream of any covering list with narrow lengths decompresses to
  its buffer, however long the stream is.
*/
module Wide {
  import opened Bytes
  import opened Format
  import opened Serializer
  import opened Encoder
  import opened Decoder
  import opened RoundTrip
  import opened Capped

  /** The token read from the header at offset `idx`, positioned at that offset: its payload starts at `c[idx + 1]`. */
  function HeadAt(c: seq<byte>, idx: nat): (t: Token)
    requires idx < |c|
    ensures t.idx == 0 && t.length <= MAX_WIRE_LENGTH
  {
    Token(0, LowBits(c[idx]), CommandOf(HighBits(c[idx])))
  }

  /** Every token read from offset `idx` on, written in turn from `cursor`, stays in bounds. */
  predicate WideReplayable(c: seq<byte>, idx: nat, cursor: nat)
    decreases |c| - idx
  {
    idx >= |c| ||
    (var w := HeadAt(c, idx);
     InBounds(w, c[idx..], cursor) && WideReplayable(c, idx + Step(w.command, w.length), cursor + Extent(w)))
  }

  /**
    The destination buffer and cursor after reading the headers from
    offset `idx` on and writing each token in turn, its payload read just
    after its own header.
  */
  function WideReplay(c: seq<byte>, idx: nat, d: seq<byte>, cursor: nat): (r: (seq<byte>, nat))
    requires |d| == DST_SIZE && cursor <= DST_SIZE && WideReplayable(c, idx, cursor)
    ensures |r.0| == DST_SIZE && cursor <= r.1 <= DST_SIZE
    ensures forall k | 0 <= k < cursor :: r.0[k] == d[k]
    decreases |c| - idx
  {
    if idx >= |c| then (d, cursor)
    else
      var w := HeadAt(c, idx);
      WideReplay(c, idx + Step(w.command, w.length), Apply(w, c[idx..], d, cursor), cursor + Extent(w))
  }

  predicate WideDecodable(c: seq<byte>) {
    WideReplayable(c, 0, 0)
  }

  /** What the corrected `Decompress` returns: the bytes before the final cursor, never more than the 256-byte buffer. */
  function WideDecoded(c: seq<byte>): (r: seq<byte>)
    requires WideDecodable(c)
    ensures |r| <= DST_SIZE
  {
    var (d, n) := WideReplay(c, 0, Zeros(), 0);
    d[..n]
  }

  /**
    Replaying, with offsets kept as ints, the bytes emitted for a token list
    that describes `s[from..]`, into a buffer that already holds
    `s[..from]`, stays in bounds, ends with the cursor at `|s|` and leaves
    `s` in front of the buffer: no header offset is too large.
  */
  lemma {:induction false} WideEmitted(s: seq<byte>, toks: seq<Token>, from: nat, p: seq<byte>, c: seq<byte>, d: seq<byte>)
    requires Describes(s, toks, from) && AllEmittable(s, toks) && Narrow(toks) && |s| <= DST_SIZE
    requires c == p + EmitAll(s, toks)
    requires |d| == DST_SIZE && from <= |s| && d[..from] == s[..from]
    ensures WideReplayable(c, |p|, from)
    ensures WideReplay(c, |p|, d, from).1 == |s|
    ensures WideReplay(c, |p|, d, from).0[..|s|] == s
    decreases |toks|
  {
    if |toks| <= 1 {
      WideLast(s, toks, from, p, c, d);
    } else {
      var t := toks[0];
      var e := EmitCompressStream(t, s);
      var next := from + t.length;
      var w := WideHead(s, toks, from, p, c, d, e, next);
      var d' := Apply(w, c[|p|..], d, from);
      WideEmitted(s, toks[1..], next, p + e, c, d');
      WideStep(c, |p|, d, from, w, |p + e|, next, d');
    }
  }

  /** One turn of the corrected loop: the header at `idx` is written, and the loop goes on past its payload. */
  lemma WideStep(c: seq<byte>, idx: nat, d: seq<byte>, cursor: nat, w: Token, next: nat, after: nat, d': seq<byte>)
    requires idx < |c| && w == HeadAt(c, idx) && |d| == DST_SIZE && InBounds(w, c[idx..], cursor)
    requires next == idx + Step(w.command, w.length) && after == cursor + Extent(w) && after <= DST_SIZE
    requires WideReplayable(c, next, after) && d' == Apply(w, c[idx..], d, cursor) && |d'| == DST_SIZE
    ensures WideReplayable(c, idx, cursor)
    ensures WideReplay(c, idx, d, cursor) == WideReplay(c, next, d', after)
  {
    StepReplayable(c, idx, cursor, w, next, after);
  }

  /** A header in bounds, followed by a replayable rest, replays in bounds from its own offset. */
  lemma StepReplayable(c: seq<byte>, idx: nat, cursor: nat, w: Token, next: nat, after: nat)
    requires idx < |c| && w == HeadAt(c, idx) && InBounds(w, c[idx..], cursor)
    requires next == idx + Step(w.command, w.length) && after == cursor + Extent(w)
    requires WideReplayable(c, next, after)
    ensures WideReplayable(c, idx, cursor)
  {
  }

  /** The final EOS header is read as a token that writes nothing, and the loop ends just after it. */
  lemma WideLast(s: seq<byte>, toks: seq<Token>, from: nat, p: seq<byte>, c: seq<byte>, d: seq<byte>)
    requires Describes(s, toks, from) && |toks| <= 1 && AllEmittable(s, toks) && |s| <= DST_SIZE
    requires c == p + EmitAll(s, toks)
    requires |d| == DST_SIZE && from <= |s| && d[..from] == s[..from]
    ensures WideReplayable(c, |p|, from)
    ensures WideReplay(c, |p|, d, from).1 == |s|
    ensures WideReplay(c, |p|, d, from).0[..|s|] == s
  {
    DescribesLast(s, toks, from);
    EmitHead(s, toks, p, c);
    HeaderFields(Eos, 0);
    assert EmitAll(s, toks[1..]) == [];
    var w := HeadAt(c, |p|);
    assert w.command == Eos && |c| == |p| + 1;
  }

  /**
    One token of a description, emitted after `p`: the header read at
    `|p|` is the token `w`, which writes back `s[from .. next]` from the
    bytes just after it, and the rest is emitted after its bytes.
  */
  lemma WideHead(s: seq<byte>, toks: seq<Token>, from: nat, p: seq<byte>, c: seq<byte>, d: seq<byte>,
                 e: seq<byte>, next: nat) returns (w: Token)
    requires Describes(s, toks, from) && |toks| > 1 && AllEmittable(s, toks) && Narrow(toks) && |s| <= DST_SIZE
    requires c == p + EmitAll(s, toks)
    requires |d| == DST_SIZE && from <= |s| && d[..from] == s[..from]
    requires e == EmitCompressStream(toks[0], s) && next == from + toks[0].length
    ensures |p| < |c| && w == HeadAt(c, |p|) && |p + e| == |p| + Step(w.command, w.length)
    ensures Describes(s, toks[1..], next) && AllEmittable(s, toks[1..]) && Narrow(toks[1..])
    ensures c == (p + e) + EmitAll(s, toks[1..])
    ensures next == from + Extent(w) <= |s| && InBounds(w, c[|p|..], from)
    ensures Apply(w, c[|p|..], d, from)[..next] == s[..next]
  {
    var t := toks[0];
    DescribesHead(s, toks, from, next);
    EmitHead(s, toks, p, c);
    assert Narrow(toks[1..]) by {
      forall i | 0 <= i < |toks[1..]|
        ensures toks[1..][i].length <= MAX_WIRE_LENGTH
      {
        assert toks[1..][i] == toks[i + 1];
      }
    }
    HeaderFields(t.command, t.length);
    w := HeadAt(c, |p|);
    assert c[|p|] == e[0];
    assert w == Token(0, t.length, t.command);
    var tail := c[|p|..];
    assert tail[0 .. Size(t)] == e;
    WriteRestores(s, t, from, tail, 0, d, w, next);
  }

  /** With offsets kept as ints, the bytes emitted for a covering list with narrow lengths decompress to the buffer. */
  lemma WideDecodeEmitted(s: seq<byte>, toks: seq<Token>)
    requires Covers(s, toks) && AllEmittable(s, toks) && Narrow(toks) && |s| <= DST_SIZE
    ensures WideDecodable(EmitAll(s, toks)) && WideDecoded(EmitAll(s, toks)) == s
  {
    var c := EmitAll(s, toks);
    assert c == [] + c;
    WideEmitted(s, toks, 0, [], c, Zeros());
  }

  /**
    The round trip with offsets kept as ints: when every token `Compress`
    picks fits in a header, decompressing gives back `s`, however long the
    stream, except for the wrapped RAW token of a 256-byte buffer.
  */
  lemma WideRoundTrip(s: seq<byte>)
    requires Encodable(s) && Narrow(Tokenize(s))
    ensures WideDecodable(EmitAll(s, Tokenize(s)))
    ensures WideDecoded(EmitAll(s, Tokenize(s))) == s ||
            (|s| == DST_SIZE && Tokenize(s) == [Token(0, 0, Raw), EOS] && WideDecoded(EmitAll(s, Tokenize(s))) == [])
  {
    var toks := Tokenize(s);
    if Covers(s, toks) {
      WideDecodeEmitted(s, toks);
    } else {
      WrapCase(s, toks);
      WrapDecodesEmpty(s);
      WideWrap(EmitAll(s, toks));
    }
  }

  /** The stream `00 C0` of the wrapped RAW token decompresses to nothing with offsets kept as ints too. */
  lemma WideWrap(c: seq<byte>)
    requires c == [0x00, 0xC0]
    ensures WideDecodable(c) && WideDecoded(c) == []
  {
    assert HighBits(0x00) == 0 && LowBits(0x00) == 0;
    assert HighBits(0xC0) == 0xC0 && LowBits(0xC0) == 0;
    var raw, eos := HeadAt(c, 0), HeadAt(c, 1);
    assert raw == Token(0, 0, Raw) && eos == Token(0, 0, Eos);
    var d := Zeros();
    assert Apply(raw, c[0..], d, 0) == d && Apply(eos, c[1..], d, 0) == d;
    WideStep(c, 1, d, 0, eos, 2, 0, d);
    WideStep(c, 0, d, 0, raw, 1, 0, d);
  }

  /**
    The codec with both corrections, the capped token list and offsets
    kept as ints: every buffer `Compress` accepts comes back from its
    stream.
  */
  lemma CappedWideRoundTrip(s: seq<byte>)
    requires Encodable(s)
    ensures AllEmittable(s, CappedTokens(s))
    ensures WideDecodable(EmitAll(s, CappedTokens(s))) && WideDecoded(EmitAll(s, CappedTokens(s))) == s
  {
    CappedCovers(s);
    WideDecodeEmitted(s, CappedTokens(s));
  }
}
