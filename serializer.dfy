/**
  The compressed stream: the bytes each token emits (`EmitCompressStream`)
  and the first loop of `Decompress`, which reads tokens back from their
  header bytes.
*/
module Serializer {
  import opened Bytes
  import opened Format

  /** The source bytes a token's payload is taken from exist (the C# slice and index would throw otherwise). */
  predicate Emittable(s: seq<byte>, t: Token) {
    match t.command
    case Raw => t.idx + t.length <= |s|
    case Rle => t.idx < |s|
    case Rep => true
    case Eos => true
  }

  predicate AllEmittable(s: seq<byte>, toks: seq<Token>) {
    forall i | 0 <= i < |toks| :: Emittable(s, toks[i])
  }

  /** All lengths fit in the six length bits of a header. */
  predicate Narrow(toks: seq<Token>) {
    forall i | 0 <= i < |toks| :: toks[i].length <= MAX_WIRE_LENGTH
  }

  /** How many bytes a token takes in the compressed stream. */
  function Size(t: Token): nat {
    match t.command
    case Raw => 1 + t.length
    case Rep => 2
    case Rle => 2
    case Eos => 1
  }

  /**
    `LzToken.EmitCompressStream`: the header byte `commandFlag | length`,
    then the literal bytes (RAW), the repeated byte (RLE) or the position
    copied from (REP). A header whose length fits in six bits reads back as
    the token's command and length.
  */
  function EmitCompressStream(t: Token, s: seq<byte>): (r: seq<byte>)
    requires Emittable(s, t)
    ensures |r| == Size(t) && r[0] == Header(t.command, t.length)
  {
    var command := Header(t.command, t.length);
    match t.command
    case Eos => [command]
    case Rle => [command, s[t.idx]]
    case Rep => [command, t.idx]
    case Raw => [command] + s[t.idx .. t.idx + t.length]
  }

  /**
    The bytes `Compress` writes for a token list, one token after another:
    at least one byte per token, and a list that ends with EOS gives a
    stream that ends with the EOS byte.
  */
  function EmitAll(s: seq<byte>, toks: seq<Token>): (r: seq<byte>)
    requires AllEmittable(s, toks)
    ensures |r| >= |toks|
    ensures toks != [] && toks[|toks| - 1] == EOS ==> r[|r| - 1] == EOS_FLAG
  {
    if toks == [] then [] else EmitCompressStream(toks[0], s) + EmitAll(s, toks[1..])
  }

  /** How far the parse loop moves past a header (`step`). */
  function Step(command: Command, length: byte): nat {
    match command
    case Raw => length + 1
    case Rep => 2
    case Rle => 2
    case Eos => 1
  }

  /**
    The parse loop of `Decompress` from offset `idx` on: each header byte
    gives a token at its own offset, cast to a byte, with the masked command
    and length; the loop then skips the token's payload and goes on to the
    end of the buffer, past EOS headers too. It makes at most one token per
    byte, and every length it reads fits in the six length bits.
  */
  function ParseFrom(c: seq<byte>, idx: nat): (r: seq<Token>)
    ensures idx <= |c| ==> |r| <= |c| - idx
    ensures idx >= |c| ==> r == []
    ensures Narrow(r)
    decreases |c| - idx
  {
    if idx >= |c| then []
    else
      var command := CommandOf(HighBits(c[idx]));
      var length := LowBits(c[idx]);
      [NewToken(idx, length, command)] + ParseFrom(c, idx + Step(command, length))
  }

  /** The tokens `Decompress` reads from the whole stream: at most one per byte, each with a six-bit length. */
  function Parse(c: seq<byte>): (r: seq<Token>)
    ensures |r| <= |c| && Narrow(r)
  {
    ParseFrom(c, 0)
  }

  /**
    The tokens emitted from offset `at` on, as the parse loop reads them
    back: the same commands and lengths, each at the offset of its own
    header byte, cast to a byte.
  */
  function Wire(toks: seq<Token>, at: nat): (r: seq<Token>)
    ensures |r| == |toks|
  {
    if toks == [] then [] else [NewToken(at, toks[0].length, toks[0].command)] + Wire(toks[1..], at + Size(toks[0]))
  }

  /**
    Every header of the emitted tokens except the last one starts below
    offset 256, when the first starts at `at`: the parse loop keeps each
    header's offset in a token's byte, and only headers before the final
    EOS read a payload from there.
  */
  predicate HeadersBelow(toks: seq<Token>, at: nat)
    decreases |toks|
  {
    |toks| <= 1 || (at < 256 && HeadersBelow(toks[1..], at + Size(toks[0])))
  }

  /** A stream of at most 257 bytes from `at` on keeps every header but the last below offset 256. */
  lemma {:induction false} ShortHeadersBelow(s: seq<byte>, toks: seq<Token>, at: nat)
    requires AllEmittable(s, toks) && at + |EmitAll(s, toks)| <= 257
    ensures HeadersBelow(toks, at)
    decreases |toks|
  {
    if |toks| > 1 {
      EmitHead(s, toks, [], EmitAll(s, toks));
      assert [] + EmitAll(s, toks) == EmitAll(s, toks);
      ShortHeadersBelow(s, toks[1..], at + Size(toks[0]));
    }
  }

  /** `Wire` reads the first token back at its own offset and the rest after its bytes. */
  lemma WireHead(toks: seq<Token>, at: nat, w: Token, next: nat)
    requires toks != [] && w == NewToken(at, toks[0].length, toks[0].command) && next == at + Size(toks[0])
    ensures Wire(toks, at) == [w] + Wire(toks[1..], next)
  {
  }

  /** The parse loop reads a header byte back as the token it was emitted for, and moves on to just past that token's bytes. */
  lemma ParseHead(c: seq<byte>, at: nat, t: Token, next: nat)
    requires at < |c| && t.length <= MAX_WIRE_LENGTH && next == at + Size(t)
    requires c[at] == Header(t.command, t.length)
    ensures ParseFrom(c, at) == [NewToken(at, t.length, t.command)] + ParseFrom(c, next)
  {
    HeaderFields(t.command, t.length);
    var command, length := CommandOf(HighBits(c[at])), LowBits(c[at]);
    assert command == t.command && length == t.length;
    assert at + Step(command, length) == next;
    ParseUnfold(c, at, command, length, next);
  }

  /** One turn of the parse loop at offset `at`. */
  lemma ParseUnfold(c: seq<byte>, at: nat, command: Command, length: byte, next: nat)
    requires at < |c| && command == CommandOf(HighBits(c[at])) && length == LowBits(c[at])
    requires next == at + Step(command, length)
    ensures ParseFrom(c, at) == [NewToken(at, length, command)] + ParseFrom(c, next)
  {
  }

  /**
    Parsing undoes emitting: the bytes emitted for `toks` after the bytes
    `p` parse back, from the end of `p`, to the tokens `Wire` gives, as
    long as every length fits in a header.
  */
  lemma {:induction false} ParseWire(s: seq<byte>, toks: seq<Token>, p: seq<byte>)
    requires AllEmittable(s, toks) && Narrow(toks)
    ensures ParseFrom(p + EmitAll(s, toks), |p|) == Wire(toks, |p|)
    decreases |toks|
  {
    if toks == [] {
      assert p + EmitAll(s, toks) == p;
    } else {
      var c := p + EmitAll(s, toks);
      var e := EmitCompressStream(toks[0], s);
      var q := p + e;
      WireStep(s, toks, p, c, e, q);
      ParseWire(s, toks[1..], q);
    }
  }

  /** One token of `ParseWire`: its header is read back, and the rest are emitted after its bytes. */
  lemma WireStep(s: seq<byte>, toks: seq<Token>, p: seq<byte>, c: seq<byte>, e: seq<byte>, q: seq<byte>)
    requires toks != [] && AllEmittable(s, toks) && Narrow(toks) && c == p + EmitAll(s, toks)
    requires e == EmitCompressStream(toks[0], s) && q == p + e
    ensures AllEmittable(s, toks[1..]) && Narrow(toks[1..])
    ensures c == q + EmitAll(s, toks[1..])
    ensures ParseFrom(c, |p|) == [NewToken(|p|, toks[0].length, toks[0].command)] + ParseFrom(c, |q|)
    ensures Wire(toks, |p|) == [NewToken(|p|, toks[0].length, toks[0].command)] + Wire(toks[1..], |q|)
  {
    EmitHead(s, toks, p, c);
    assert Narrow(toks[1..]) by {
      forall i | 0 <= i < |toks[1..]|
        ensures toks[1..][i].length <= MAX_WIRE_LENGTH
      {
        assert toks[1..][i] == toks[i + 1];
      }
    }
    assert c[|p|] == e[0] && |q| == |p| + Size(toks[0]);
    ParseHead(c, |p|, toks[0], |q|);
    WireHead(toks, |p|, NewToken(|p|, toks[0].length, toks[0].command), |q|);
  }

  /** The bytes emitted for a non-empty token list start with the bytes of its first token, followed by those of the rest. */
  lemma EmitHead(s: seq<byte>, toks: seq<Token>, p: seq<byte>, c: seq<byte>)
    requires toks != [] && AllEmittable(s, toks) && c == p + EmitAll(s, toks)
    ensures AllEmittable(s, toks[1..])
    ensures |p| + Size(toks[0]) <= |c|
    ensures c[|p| .. |p| + Size(toks[0])] == EmitCompressStream(toks[0], s)
    ensures c == (p + EmitCompressStream(toks[0], s)) + EmitAll(s, toks[1..])
  {
    assert AllEmittable(s, toks[1..]) by {
      forall i | 0 <= i < |toks[1..]|
        ensures Emittable(s, toks[1..][i])
      {
        assert toks[1..][i] == toks[i + 1];
      }
    }
    var e := EmitCompressStream(toks[0], s);
    assert EmitAll(s, toks) == e + EmitAll(s, toks[1..]);
    Split(p, e, EmitAll(s, toks[1..]), c);
  }

  /** Splitting `p + (e + r)` just after `e`. */
  lemma Split(p: seq<byte>, e: seq<byte>, r: seq<byte>, c: seq<byte>)
    requires c == p + (e + r)
    ensures |p| + |e| <= |c| && c[|p| .. |p| + |e|] == e && c == (p + e) + r
  {
    assert c[|p| .. |p| + |e|] == e;
  }

  /** The tokens read back carry the commands and lengths of the tokens emitted. */
  lemma {:induction false} WireFields(toks: seq<Token>, at: nat)
    ensures forall j | 0 <= j < |toks| ::
              Wire(toks, at)[j].command == toks[j].command && Wire(toks, at)[j].length == toks[j].length
    decreases |toks|
  {
    if toks != [] {
      var rest := toks[1..];
      WireFields(rest, at + Size(toks[0]));
      var w := Wire(toks, at);
      forall j | 0 <= j < |toks|
        ensures w[j].command == toks[j].command && w[j].length == toks[j].length
      {
        if j > 0 {
          assert w[j] == Wire(rest, at + Size(toks[0]))[j - 1];
          assert toks[j] == rest[j - 1];
        }
      }
    }
  }

  /** The whole compressed stream of a token list parses back to its commands and lengths. */
  lemma ParseEmitted(s: seq<byte>, toks: seq<Token>)
    requires AllEmittable(s, toks) && Narrow(toks)
    ensures Parse(EmitAll(s, toks)) == Wire(toks, 0)
    ensures |Parse(EmitAll(s, toks))| == |toks|
    ensures forall j | 0 <= j < |toks| ::
              Parse(EmitAll(s, toks))[j].command == toks[j].command &&
              Parse(EmitAll(s, toks))[j].length == toks[j].length
  {
    ParseWire(s, toks, []);
    WireFields(toks, 0);
    assert [] + EmitAll(s, toks) == EmitAll(s, toks);
  }
}
