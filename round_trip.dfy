/**
  Decompressing what `Compress` emits gives back the source buffer, as
  long as every token length fits in the six length bits of a header and
  every header before the final EOS starts below offset 256 (the parse
  loop casts each header's offset to a byte, and a RAW, RLE or REP token
  reads its payload just after that offset).
*/
module RoundTrip {
  import opened Bytes
  import opened Format
  import opened MatchFinder
  import opened Serializer
  import opened Encoder
  import opened Decoder

  /**
    A REP copy, byte by byte from an earlier position holding the same
    bytes, restores the target range once everything before it is
    restored.
  */
  lemma CopyRestores(s: seq<byte>, d: seq<byte>, from: nat, to: nat, n: nat)
    requires from < to && to + n <= |s| <= |d|
    requires s[from .. from + n] == s[to .. to + n]
    requires d[..to] == s[..to]
    ensures CopyForward(d, from, to, n)[..to + n] == s[..to + n]
  {
    var r := CopyForward(d, from, to, n);
    forall k | 0 <= k < to + n
      ensures r[k] == s[k]
    {
      CopyAt(s, d, from, to, n, k);
    }
  }

  /**
    Byte `k` of the copied buffer is `s[k]`: below `to` it was already
    restored, and from `to` on it repeats the byte `to - from` places
    earlier, which holds by induction on `k`.
  */
  lemma {:induction false} CopyAt(s: seq<byte>, d: seq<byte>, from: nat, to: nat, n: nat, k: nat)
    requires from < to && to + n <= |s| <= |d|
    requires s[from .. from + n] == s[to .. to + n]
    requires d[..to] == s[..to]
    requires k < to + n
    ensures CopyForward(d, from, to, n)[k] == s[k]
    decreases k
  {
    var r := CopyForward(d, from, to, n);
    if k < to {
      assert r[k] == d[k] == d[..to][k];
    } else {
      var j := k - to + from;
      assert r[k] == r[j];
      CopyAt(s, d, from, to, n, j);
      assert s[from .. from + n][k - to] == s[to .. to + n][k - to];
    }
  }

  /**
    The token the parse loop reads at offset `at` for a token `t` that
    stands at `from`, with its bytes emitted at `at`, writes back
    `s[from .. from + t.length]` and stays in bounds.
  */
  lemma WriteRestores(s: seq<byte>, t: Token, from: nat, c: seq<byte>, at: nat, d: seq<byte>, w: Token, next: nat)
    requires Stands(s, t, from) && Emittable(s, t) && |s| <= DST_SIZE
    requires at < 256 && at + Size(t) <= |c| && c[at .. at + Size(t)] == EmitCompressStream(t, s)
    requires |d| == DST_SIZE && d[..from] == s[..from]
    requires w == NewToken(at, t.length, t.command) && next == from + t.length
    ensures InBounds(w, c, from) && next == from + Extent(w)
    ensures Apply(w, c, d, from)[..next] == s[..next]
  {
    match t.command {
      case Raw => RawRestores(s, t, from, c, at, d, w, next);
      case Rle => RleRestores(s, t, from, c, at, d, w, next);
      case Rep => RepRestores(s, t, from, c, at, d, w, next);
    }
  }

  /** `WriteRestores` for a RAW token: the literal bytes are put back from the stream. */
  lemma RawRestores(s: seq<byte>, t: Token, from: nat, c: seq<byte>, at: nat, d: seq<byte>, w: Token, next: nat)
    requires Stands(s, t, from) && t.command == Raw && |s| <= DST_SIZE
    requires at < 256 && at + Size(t) <= |c| && c[at .. at + Size(t)] == EmitCompressStream(t, s)
    requires |d| == DST_SIZE && d[..from] == s[..from]
    requires w == NewToken(at, t.length, t.command) && next == from + t.length
    ensures InBounds(w, c, from) && next == from + Extent(w)
    ensures Apply(w, c, d, from)[..next] == s[..next]
  {
    RawPayload(s, t, from, c, at);
    assert w == Token(at, t.length, Raw);
    var r := Put(d, from, c, at + 1, t.length);
    forall k | 0 <= k < next
      ensures r[k] == s[k]
    {
      if k < from {
        assert d[..from][k] == s[..from][k];
      }
    }
  }

  /** The literal bytes after a RAW header in the stream are the source bytes the token stands for. */
  lemma RawPayload(s: seq<byte>, t: Token, from: nat, c: seq<byte>, at: nat)
    requires Stands(s, t, from) && t.command == Raw
    requires at + Size(t) <= |c| && c[at .. at + Size(t)] == EmitCompressStream(t, s)
    ensures forall k | from <= k < from + t.length :: c[at + 1 + (k - from)] == s[k]
  {
    var e := EmitCompressStream(t, s);
    forall k | from <= k < from + t.length
      ensures c[at + 1 + (k - from)] == s[k]
    {
      assert c[at .. at + Size(t)][1 + (k - from)] == e[1 + (k - from)];
    }
  }

  /** `WriteRestores` for an RLE token: the run's byte is read from the stream and filled in. */
  lemma RleRestores(s: seq<byte>, t: Token, from: nat, c: seq<byte>, at: nat, d: seq<byte>, w: Token, next: nat)
    requires Stands(s, t, from) && t.command == Rle && |s| <= DST_SIZE
    requires at < 256 && at + Size(t) <= |c| && c[at .. at + Size(t)] == EmitCompressStream(t, s)
    requires |d| == DST_SIZE && d[..from] == s[..from]
    requires w == NewToken(at, t.length, t.command) && next == from + t.length
    ensures InBounds(w, c, from) && next == from + Extent(w)
    ensures Apply(w, c, d, from)[..next] == s[..next]
  {
    var e := EmitCompressStream(t, s);
    assert c[at + 1] == e[1] == s[from];
    assert w == Token(at, t.length, Rle);
    var r := Fill(d, from, t.length, c[at + 1]);
    forall k | 0 <= k < next
      ensures r[k] == s[k]
    {
      if k < from {
        assert d[..from][k] == s[..from][k];
      }
    }
  }

  /** `WriteRestores` for a REP token: the position copied from is read from the stream and the copy restores the bytes. */
  lemma RepRestores(s: seq<byte>, t: Token, from: nat, c: seq<byte>, at: nat, d: seq<byte>, w: Token, next: nat)
    requires Stands(s, t, from) && t.command == Rep && |s| <= DST_SIZE
    requires at < 256 && at + Size(t) <= |c| && c[at .. at + Size(t)] == EmitCompressStream(t, s)
    requires |d| == DST_SIZE && d[..from] == s[..from]
    requires w == NewToken(at, t.length, t.command) && next == from + t.length
    ensures InBounds(w, c, from) && next == from + Extent(w)
    ensures Apply(w, c, d, from)[..next] == s[..next]
  {
    var e := EmitCompressStream(t, s);
    assert c[at + 1] == e[1] == t.idx;
    assert w == Token(at, t.length, Rep);
    CopyRestores(s, d, t.idx, from, t.length);
  }

  /**
    Replaying `[w] + ws` restores `s` when writing `w` at `cursor` does not
    overrun, and replaying `ws` after it restores `s` from the buffer `w`
    leaves.
  */
  lemma ReplayJoin(c: seq<byte>, w: Token, ws: seq<Token>, d: seq<byte>, cursor: nat, next: nat, s: seq<byte>)
    requires |d| == DST_SIZE && next == cursor + Extent(w) <= DST_SIZE && InBounds(w, c, cursor)
    requires Replayable(c, ws, next)
    requires ReplayFrom(c, ws, Apply(w, c, d, cursor), next).1 == |s|
    requires ReplayFrom(c, ws, Apply(w, c, d, cursor), next).0[..|s|] == s
    ensures Replayable(c, [w] + ws, cursor)
    ensures ReplayFrom(c, [w] + ws, d, cursor).1 == |s|
    ensures ReplayFrom(c, [w] + ws, d, cursor).0[..|s|] == s
  {
    assert ([w] + ws)[1..] == ws;
  }

  /** The first token of a description longer than one stands at `from`, and the rest describe what follows it. */
  lemma DescribesHead(s: seq<byte>, toks: seq<Token>, from: nat, next: nat)
    requires Describes(s, toks, from) && |toks| > 1 && next == from + toks[0].length
    ensures Stands(s, toks[0], from) && toks[0].command != Eos
    ensures Describes(s, toks[1..], next)
  {
  }

  /** The last token of a description is EOS, standing for nothing at the end of `s`. */
  lemma DescribesLast(s: seq<byte>, toks: seq<Token>, from: nat)
    requires Describes(s, toks, from) && |toks| <= 1
    ensures toks == [EOS] && from == |s|
  {
  }

  /** The EOS token that ends a description reads back as a token that writes nothing. */
  lemma ReplayLast(s: seq<byte>, toks: seq<Token>, from: nat, p: seq<byte>, c: seq<byte>, d: seq<byte>)
    requires Describes(s, toks, from) && |toks| <= 1 && AllEmittable(s, toks) && |s| <= DST_SIZE
    requires c == p + EmitAll(s, toks)
    requires |d| == DST_SIZE && from <= |s| && d[..from] == s[..from]
    ensures Replayable(c, Wire(toks, |p|), from)
    ensures ReplayFrom(c, Wire(toks, |p|), d, from).1 == |s|
    ensures ReplayFrom(c, Wire(toks, |p|), d, from).0[..|s|] == s
  {
    DescribesLast(s, toks, from);
    EmitHead(s, toks, p, c);
    var w := NewToken(|p|, 0, Eos);
    assert w.command == Eos && w.length == 0;
    assert Wire(toks, |p|) == [w] + [];
    ReplayJoin(c, w, [], d, from, from, s);
  }

  /**
    One token of a description, emitted after `p` and read back as `w`:
    the rest of the description, its bytes and its read-back tokens follow
    on from it, and writing `w` at `from` restores `s` up to `next`.
  */
  lemma ReplayHead(s: seq<byte>, toks: seq<Token>, from: nat, p: seq<byte>, c: seq<byte>, d: seq<byte>,
                   e: seq<byte>, w: Token, next: nat)
    requires Describes(s, toks, from) && |toks| > 1 && AllEmittable(s, toks) && Narrow(toks) && |s| <= DST_SIZE
    requires c == p + EmitAll(s, toks) && |p| < 256
    requires |d| == DST_SIZE && from <= |s| && d[..from] == s[..from]
    requires e == EmitCompressStream(toks[0], s) && w == NewToken(|p|, toks[0].length, toks[0].command)
    requires next == from + toks[0].length
    ensures Describes(s, toks[1..], next) && AllEmittable(s, toks[1..]) && Narrow(toks[1..])
    ensures c == (p + e) + EmitAll(s, toks[1..])
    ensures next == from + Extent(w) <= |s| && InBounds(w, c, from)
    ensures Apply(w, c, d, from)[..next] == s[..next]
    ensures Wire(toks, |p|) == [w] + Wire(toks[1..], |p + e|)
  {
    DescribesHead(s, toks, from, next);
    EmitHead(s, toks, p, c);
    assert Narrow(toks[1..]);
    WriteRestores(s, toks[0], from, c, |p|, d, w, next);
    WireHead(toks, |p|, w, |p + e|);
  }

  /**
    Replaying the tokens read back from the bytes emitted for a token list
    that describes `s[from..]`, into a buffer that already holds
    `s[..from]`, stays in bounds, ends with the cursor at `|s|` and leaves
    `s` in front of the buffer.
  */
  lemma {:induction false} ReplayEmitted(s: seq<byte>, toks: seq<Token>, from: nat, p: seq<byte>, c: seq<byte>, d: seq<byte>)
    requires Describes(s, toks, from) && AllEmittable(s, toks) && Narrow(toks) && |s| <= DST_SIZE
    requires c == p + EmitAll(s, toks) && HeadersBelow(toks, |p|)
    requires |d| == DST_SIZE && from <= |s| && d[..from] == s[..from]
    ensures Replayable(c, Wire(toks, |p|), from)
    ensures ReplayFrom(c, Wire(toks, |p|), d, from).1 == |s|
    ensures ReplayFrom(c, Wire(toks, |p|), d, from).0[..|s|] == s
    decreases |toks|
  {
    if |toks| <= 1 {
      ReplayLast(s, toks, from, p, c, d);
    } else {
      var e := EmitCompressStream(toks[0], s);
      var w := NewToken(|p|, toks[0].length, toks[0].command);
      var next := from + toks[0].length;
      ReplayHead(s, toks, from, p, c, d, e, w, next);
      ReplayEmitted(s, toks[1..], next, p + e, c, Apply(w, c, d, from));
      ReplayJoin(c, w, Wire(toks[1..], |p + e|), d, from, next, s);
    }
  }

  /**
    Decompressing the bytes emitted for a token list that covers `s` gives
    back `s`, when every length fits in a header and every header before
    the final EOS starts below offset 256.
  */
  lemma DecodeEmitted(s: seq<byte>, toks: seq<Token>)
    requires Covers(s, toks) && AllEmittable(s, toks) && Narrow(toks) && |s| <= DST_SIZE
    requires HeadersBelow(toks, 0)
    ensures Decodable(EmitAll(s, toks)) && Decoded(EmitAll(s, toks)) == s
  {
    var c := EmitAll(s, toks);
    ParseEmitted(s, toks);
    assert c == [] + EmitAll(s, toks);
    ReplayEmitted(s, toks, 0, [], c, Zeros());
  }

  /**
    The round trip `Decompress(Compress(s))`: when every token `Compress`
    picks fits in a header and every header before the final EOS starts
    below offset 256, decompressing gives back `s`, except when the merged RAW token of a
    256-byte buffer wraps to length 0, and decompressing gives nothing.
  */
  lemma RoundTrip(s: seq<byte>)
    requires Encodable(s) && Narrow(Tokenize(s)) && HeadersBelow(Tokenize(s), 0)
    ensures Decodable(EmitAll(s, Tokenize(s)))
    ensures Decoded(EmitAll(s, Tokenize(s))) == s ||
            (|s| == DST_SIZE && Tokenize(s) == [Token(0, 0, Raw), EOS] && Decoded(EmitAll(s, Tokenize(s))) == [])
  {
    var toks := Tokenize(s);
    if Covers(s, toks) {
      DecodeEmitted(s, toks);
    } else {
      WrapCase(s, toks);
    }
  }

  /** The list `Compress` lays down either covers the buffer or is the wrapped RAW token of a 256-byte buffer, which decompresses to nothing. */
  lemma WrapCase(s: seq<byte>, toks: seq<Token>)
    requires Laid(s, toks, 0) && AllEmittable(s, toks) && !Covers(s, toks)
    ensures |s| == DST_SIZE && toks == [Token(0, 0, Raw), EOS]
    ensures Decodable(EmitAll(s, toks)) && Decoded(EmitAll(s, toks)) == []
  {
    WrapDecodesEmpty(s);
  }

  /** A 256-byte buffer compressed to one RAW token of length 0 and EOS decompresses to nothing. */
  lemma WrapDecodesEmpty(s: seq<byte>)
    requires |s| == DST_SIZE
    ensures AllEmittable(s, [Token(0, 0, Raw), EOS])
    ensures var c := EmitAll(s, [Token(0, 0, Raw), EOS]);
            c == [0x00, 0xC0] && Decodable(c) && Decoded(c) == []
  {
    var raw, eos := Token(0, 0, Raw), Token(1, 0, Eos);
    EmitCons(s, EOS, []);
    EmitCons(s, raw, [EOS]);
    var toks := [raw, EOS];
    assert [raw] + [EOS] == toks && toks[1..] == [EOS];
    var c := EmitAll(s, toks);
    assert c == [0x00, 0xC0];
    assert Narrow(toks);
    ParseEmitted(s, toks);
    WireHead([EOS], 1, eos, 2);
    WireHead(toks, 0, raw, 1);
    assert [eos] + [] == [eos];
    var d1 := Apply(raw, c, Zeros(), 0);
    ReplayJoin(c, eos, [], d1, 0, 0, []);
    ReplayJoin(c, raw, [eos], Zeros(), 0, 0, []);
  }

  /** No byte value occurs twice in `s`. */
  predicate Distinct(s: seq<byte>) {
    forall i, j | 0 <= i < j < |s| :: s[i] != s[j]
  }

  /**
    A buffer of 256 distinct bytes has no run and no repeat: `Compress`
    merges its 256 literals into one RAW token whose length is cast to 0,
    emits `00 C0`, and decompressing that gives nothing.
  */
  lemma DistinctWraps(s: seq<byte>)
    requires |s| == DST_SIZE && Distinct(s)
    ensures Encodable(s) && Tokenize(s) == [Token(0, 0, Raw), EOS]
    ensures Decodable(EmitAll(s, Tokenize(s))) && Decoded(EmitAll(s, Tokenize(s))) == []
  {
    assert RunLength(s, 0) == 1 by {
      assert s[1] != s[0];
    }
    var picks := Picks(s);
    forall i | 0 <= i < |s|
      ensures picks[i] == Token(i, 1, Raw)
    {
      DistinctPick(s, i);
    }
    var first := picks[0];
    assert EncodeFrom(s, picks, 0, None) == EncodeFrom(s, picks, 1, Some(Merged(None, first)));
    RawRun(s, picks, 1);
    WrapDecodesEmpty(s);
  }

  /** In a buffer of distinct bytes every position picks a one-byte literal. */
  lemma DistinctPick(s: seq<byte>, i: nat)
    requires Encodable(s) && Distinct(s) && i < |s|
    ensures Select(s, i) == Token(i, 1, Raw)
  {
    assert i + 1 < |s| ==> s[i + 1] != s[i];
    assert RunLength(s, i) == 1;
    RepTokenFound(s, i);
    var rep := RepToken(s, i);
    if rep.command == Rep {
      assert false;
    }
  }

  /** Literal picks from `idx` on merge into the pending RAW token that starts at 0, whose length is cast to a byte. */
  lemma {:induction false} RawRun(s: seq<byte>, picks: seq<Token>, idx: nat)
    requires Advances(s, picks) && 0 < idx <= |s| <= 256
    requires forall i | idx <= i < |s| :: picks[i] == Token(i, 1, Raw)
    ensures EncodeFrom(s, picks, idx, Some(Token(0, ToByte(idx), Raw))) == [Token(0, ToByte(|s|), Raw), EOS]
    decreases |s| - idx
  {
    var raw := Some(Token(0, ToByte(idx), Raw));
    if idx < |s| {
      var t := picks[idx];
      assert Merged(raw, t) == Token(0, ToByte(idx + 1), Raw);
      assert EncodeFrom(s, picks, idx, raw) == EncodeFrom(s, picks, idx + 1, Some(Merged(raw, t)));
      RawRun(s, picks, idx + 1);
    } else {
      assert EncodeFrom(s, picks, idx, raw) == [raw.value] + [EOS];
    }
  }

  /** The bytes emitted for `[t] + rest` are those of `t`, then those of `rest`. */
  lemma EmitCons(s: seq<byte>, t: Token, rest: seq<Token>)
    requires Emittable(s, t) && AllEmittable(s, rest)
    ensures AllEmittable(s, [t] + rest)
    ensures EmitAll(s, [t] + rest) == EmitCompressStream(t, s) + EmitAll(s, rest)
  {
    assert ([t] + rest)[1..] == rest;
  }

  /**
    A run of 64 equal bytes overflows its header: `Compress` picks one RLE
    token of length 64, whose header `0x80 | 64` is the EOS byte `0xC0`.
    For 64 zero bytes the stream is `C0 00 C0`, which decompresses to
    nothing: an EOS, an empty RAW and an EOS.
  */
  lemma ZeroRunVanishes(s: seq<byte>)
    requires |s| == 64 && forall k | 0 <= k < |s| :: s[k] == 0
    ensures Encodable(s) && Tokenize(s) == [Token(0, 64, Rle), EOS]
    ensures var c := EmitAll(s, Tokenize(s)); |c| == 3 && c[0] == 0xC0 && c[1] == 0x00 && c[2] == 0xC0
    ensures Decodable(EmitAll(s, Tokenize(s))) && Decoded(EmitAll(s, Tokenize(s))) == []
  {
    ZeroRunTokens(s);
    var c := EmitAll(s, Tokenize(s));
    RunStream(s, Token(0, 64, Rle), c);
    StreamC000C0Empty(c);
  }

  /** The stream of a run token of length 64 over zero bytes, then EOS: `C0 00 C0`. */
  lemma RunStream(s: seq<byte>, run: Token, c: seq<byte>)
    requires run == Token(0, 64, Rle) && 0 < |s| && s[0] == 0
    requires AllEmittable(s, [run, EOS]) && c == EmitAll(s, [run, EOS])
    ensures |c| == 3 && c[0] == 0xC0 && c[1] == 0x00 && c[2] == 0xC0
  {
    EmitLast(s, run);
    var e := EmitCompressStream(run, s);
    RunBytes(s, run, e);
    assert c == e + [Header(Eos, 0)];
  }

  /** A run token of length 64 emits the EOS byte as its header. */
  lemma RunBytes(s: seq<byte>, run: Token, e: seq<byte>)
    requires run == Token(0, 64, Rle) && 0 < |s| && s[0] == 0 && e == EmitCompressStream(run, s)
    ensures |e| == 2 && e[0] == 0xC0 && e[1] == 0 && Header(Eos, 0) == 0xC0
  {
    HeaderCollisions();
  }

  /** The bytes emitted for a token and EOS: the token's bytes, then the EOS header. */
  lemma EmitLast(s: seq<byte>, t: Token)
    requires Emittable(s, t)
    ensures AllEmittable(s, [t, EOS]) && EmitAll(s, [t, EOS]) == EmitCompressStream(t, s) + [Header(Eos, 0)]
  {
    var toks := [t, EOS];
    assert toks[1..] == [EOS] && toks[1..][1..] == [];
    assert EmitAll(s, toks[1..]) == [Header(Eos, 0)] + [];
  }

  /** `Compress` picks one RLE token for a run of 64 zero bytes. */
  lemma ZeroRunTokens(s: seq<byte>)
    requires |s| == 64 && forall k | 0 <= k < |s| :: s[k] == 0
    ensures Encodable(s) && Tokenize(s) == [Token(0, 64, Rle), EOS]
  {
    assert RunLength(s, 0) == 64;
    var picks := Picks(s);
    var run := Select(s, 0);
    assert picks[0] == run;
    assert run.command == Rle && run.length == 64 && run.idx == 0;
    assert EncodeFrom(s, picks, 64, None) == [EOS];
    assert EncodeFrom(s, picks, 0, None) == [] + ([run] + [EOS]);
  }

  /**
    256 copies of one byte: the run at 0 has its RLE length cast to 0, so
    the loop picks the literal at 0 and moves on; from 1 the run of 255
    bytes fits in a byte, and the loop ends with one RLE token for it.
  */
  lemma EqualBytesSplit(s: seq<byte>)
    requires |s| == DST_SIZE && forall k | 0 <= k < |s| :: s[k] == s[0]
    ensures Encodable(s) && Tokenize(s) == [Token(0, 1, Raw), Token(1, 255, Rle), EOS]
  {
    var picks := Picks(s);
    var lit, run := Token(0, 1, Raw), Token(1, 255, Rle);
    EqualLiteralPick(s);
    EqualRunPick(s);
    assert picks[0] == lit && picks[1] == run;
    assert EncodeFrom(s, picks, 256, None) == [EOS];
    assert EncodeFrom(s, picks, 1, Some(lit)) == [lit] + ([run] + [EOS]);
    assert EncodeFrom(s, picks, 0, None) == EncodeFrom(s, picks, 1, Some(Merged(None, lit)));
  }

  /** At 0 the run of 256 equal bytes is cast to length 0, and the literal wins. */
  lemma EqualLiteralPick(s: seq<byte>)
    requires |s| == DST_SIZE && forall k | 0 <= k < |s| :: s[k] == s[0]
    ensures Select(s, 0) == Token(0, 1, Raw)
  {
    assert RunLength(s, 0) == 256;
  }

  /** At 1 the run of the 255 equal bytes left is at least as long as any back-reference, and wins. */
  lemma EqualRunPick(s: seq<byte>)
    requires |s| == DST_SIZE && forall k | 0 <= k < |s| :: s[k] == s[0]
    ensures Select(s, 1) == Token(1, 255, Rle)
  {
    assert RunLength(s, 1) == 255;
    RepTokenFound(s, 1);
  }

  /**
    256 zero bytes compress to `01 00 FF 00 C0`: the RLE header `0x80 | 255`
    is `0xFF`, which masks to the EOS command, and the repeated byte 0 that
    follows it parses as an empty RAW token. Decompressing gives back only
    the first byte.
  */
  lemma ZeroBufferShrinks(s: seq<byte>)
    requires |s| == DST_SIZE && forall k | 0 <= k < |s| :: s[k] == 0
    ensures Encodable(s) && Tokenize(s) == [Token(0, 1, Raw), Token(1, 255, Rle), EOS]
    ensures var c := EmitAll(s, Tokenize(s)); c == [0x01, 0x00, 0xFF, 0x00, 0xC0]
    ensures Decodable(EmitAll(s, Tokenize(s))) && Decoded(EmitAll(s, Tokenize(s))) == [0]
  {
    EqualBytesSplit(s);
    ZeroStream(s, Tokenize(s));
    StreamShrinks(EmitAll(s, Tokenize(s)));
  }

  /** The bytes of a literal 0, a run of 255 zero bytes and EOS: `01 00 FF 00 C0`. */
  lemma ZeroStream(s: seq<byte>, toks: seq<Token>)
    requires |s| == DST_SIZE && forall k | 0 <= k < |s| :: s[k] == 0
    requires toks == [Token(0, 1, Raw), Token(1, 255, Rle), EOS]
    ensures AllEmittable(s, toks) && EmitAll(s, toks) == [0x01, 0x00, 0xFF, 0x00, 0xC0]
  {
    var lit, run := Token(0, 1, Raw), Token(1, 255, Rle);
    EmitLast(s, run);
    EmitCons(s, lit, [run, EOS]);
    assert [lit] + [run, EOS] == toks;
    assert EmitCompressStream(lit, s) == [0x01, 0x00] by {
      assert Header(Raw, 1) == 0x01 && s[0 .. 1] == [0];
    }
    assert EmitCompressStream(run, s) == [0xFF, 0x00] by {
      assert HighBits(255) == 0xC0 && LowBits(255) == 63;
    }
    assert Header(Eos, 0) == 0xC0 by {
      assert HighBits(0) == 0 && LowBits(0) == 0;
    }
  }

  /** The stream `01 00 FF 00 C0` parses as RAW 1, EOS, an empty RAW and EOS, and replays to the one byte 0. */
  lemma StreamShrinks(c: seq<byte>)
    requires c == [0x01, 0x00, 0xFF, 0x00, 0xC0]
    ensures Parse(c) == [Token(0, 1, Raw), Token(2, 63, Eos), Token(3, 0, Raw), Token(4, 0, Eos)]
    ensures Decodable(c) && Decoded(c) == [0]
  {
    assert CommandOf(HighBits(c[4])) == Eos && LowBits(c[4]) == 0;
    assert CommandOf(HighBits(c[3])) == Raw && LowBits(c[3]) == 0;
    assert CommandOf(HighBits(c[2])) == Eos && LowBits(c[2]) == 63;
    assert CommandOf(HighBits(c[0])) == Raw && LowBits(c[0]) == 1;
    var lit := Token(0, 1, Raw);
    var p4 := ParseFrom(c, 4);
    var p3 := ParseFrom(c, 3);
    var p2 := ParseFrom(c, 2);
    var toks := Parse(c);
    assert p4 == [Token(4, 0, Eos)] + ParseFrom(c, 5);
    assert p3 == [Token(3, 0, Raw)] + p4;
    assert p2 == [Token(2, 63, Eos)] + p3;
    assert toks == [lit] + p2;
    var d1 := Apply(lit, c, Zeros(), 0);
    assert d1[0] == 0;
    ReplaysNothingFrom(c, p2, d1, 1);
    ReplayJoin(c, lit, p2, Zeros(), 0, 1, [0]);
  }

  /** The stream `C0 00 C0` parses as EOS, an empty RAW and EOS, and replays to nothing. */
  lemma StreamC000C0Empty(c: seq<byte>)
    requires |c| == 3 && c[0] == 0xC0 && c[1] == 0x00 && c[2] == 0xC0
    ensures Parse(c) == [Token(0, 0, Eos), Token(1, 0, Raw), Token(2, 0, Eos)]
    ensures Decodable(c) && Decoded(c) == []
  {
    assert CommandOf(HighBits(c[2])) == Eos && LowBits(c[2]) == 0;
    assert CommandOf(HighBits(c[1])) == Raw && LowBits(c[1]) == 0;
    assert CommandOf(HighBits(c[0])) == Eos && LowBits(c[0]) == 0;
    var p3 := ParseFrom(c, 3);
    var p2 := ParseFrom(c, 2);
    var p1 := ParseFrom(c, 1);
    var toks := Parse(c);
    assert p3 == [];
    assert p2 == [Token(2, 0, Eos)] + p3;
    assert p1 == [Token(1, 0, Raw)] + p2;
    assert toks == [Token(0, 0, Eos)] + p1;
    assert |toks| == 3 && toks[0].command == Eos && toks[1] == Token(1, 0, Raw) && toks[2].command == Eos;
    ReplaysNothingFrom(c, toks, Zeros(), 0);
  }

  /** Tokens that write nothing replay in bounds from any cursor, keep it, and leave the buffer as it is. */
  lemma {:induction false} ReplaysNothingFrom(c: seq<byte>, toks: seq<Token>, d: seq<byte>, cursor: nat)
    requires |d| == DST_SIZE && cursor <= DST_SIZE
    requires forall i | 0 <= i < |toks| ::
               cursor + toks[i].length <= DST_SIZE && (toks[i] == Token(toks[i].idx, 0, Raw) || toks[i].command == Eos)
    ensures Replayable(c, toks, cursor) && ReplayFrom(c, toks, d, cursor) == (d, cursor)
    decreases |toks|
  {
    if toks != [] {
      var rest := toks[1..];
      assert forall i | 0 <= i < |rest| :: rest[i] == toks[i + 1];
      assert Extent(toks[0]) == 0;
      ReplaysNothingFrom(c, rest, d, cursor);
    }
  }
}
