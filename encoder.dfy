/**
  The greedy token loop of `Compress`: at each position the longer of the
  run and the back-reference found there (the run on a tie), consecutive
  one-byte literals merged into one RAW token, and one EOS token at the
  end; then the bytes of every token, one after another.
*/
module Encoder {
  import opened Bytes
  import opened Format
  import opened MatchFinder
  import opened Serializer

  datatype Option<T> = None | Some(value: T)

  /**
    The buffers the codec is built for: at most 256 bytes, since a token
    keeps its source position in a byte and `Decompress` writes into a
    256-byte buffer.
  */
  predicate Encodable(s: seq<byte>) {
    |s| <= 256
  }

  /**
    The token picked at `idx`: the RLE result when it is at least as long as
    the REP result, else the REP result. It stands for the bytes at `idx`,
    and a RAW token is a single literal byte. Below 256 bytes of run it is
    as long as the longer of the run and the back-reference. A run of 256
    bytes (the whole buffer) has its RLE length cast to 0, so the literal
    REP result wins and the loop moves on by one byte.
  */
  function Select(s: seq<byte>, idx: nat): (t: Token)
    requires Encodable(s) && idx < |s|
    ensures Stands(s, t, idx)
    ensures t.command == Raw ==> t == Token(idx, 1, Raw)
    ensures RunLength(s, idx) < 256 ==> t.length >= RunLength(s, idx) && t.length >= RepToken(s, idx).length
    ensures RunLength(s, idx) < 256 ==>
              (t.command == Rle <==> RunLength(s, idx) >= 2 && RunLength(s, idx) >= RepToken(s, idx).length)
    ensures RunLength(s, idx) == 256 ==> idx == 0 && t == Token(0, 1, Raw)
  {
    var rle := RunToken(s, idx);
    var rep := RepToken(s, idx);
    RepTokenFound(s, idx);
    if rle.length >= rep.length then rle else rep
  }

  /**
    The tokens picked at every position of `s`: each stands for the bytes
    at its position, and a RAW pick is a single literal byte.
  */
  predicate Picked(s: seq<byte>, picks: seq<Token>) {
    |picks| == |s| <= 256 &&
    forall i | 0 <= i < |picks| :: Stands(s, picks[i], i) && (picks[i].command == Raw ==> picks[i] == Token(i, 1, Raw))
  }

  /** Each pick moves the loop forward, and not past the end of `s`. */
  predicate Advances(s: seq<byte>, picks: seq<Token>) {
    |picks| == |s| && forall i | 0 <= i < |picks| :: 1 <= picks[i].length <= |s| - i
  }

  /** The token the loop of `Compress` picks at each position. */
  function Picks(s: seq<byte>): (picks: seq<Token>)
    requires Encodable(s)
    ensures Advances(s, picks)
  {
    seq(|s|, i requires 0 <= i < |s| => Select(s, i))
  }

  /** Every pick stands for the bytes at its position. */
  lemma PicksStand(s: seq<byte>)
    requires Encodable(s)
    ensures Picked(s, Picks(s))
  {
    var picks := Picks(s);
    forall i | 0 <= i < |s|
      ensures Stands(s, picks[i], i) && (picks[i].command == Raw ==> picks[i] == Token(i, 1, Raw))
    {
      assert picks[i] == Select(s, i);
    }
  }

  /** The pending RAW token, if any, as a list. */
  function Flush(raw: Option<Token>): (r: seq<Token>)
    ensures raw.Some? ==> r == [raw.value]
    ensures raw.None? ==> r == []
  {
    if raw.Some? then [raw.value] else []
  }

  /** A RAW token added to the pending one: it becomes pending itself, or the pending token's length grows by its length, cast to a byte. */
  function Merged(raw: Option<Token>, t: Token): Token {
    if raw.None? then t else raw.value.(length := ToByte(raw.value.length + t.length))
  }

  /**
    Merging keeps the pending token's position and command. Its byte
    length grows by the new token's length and wraps past 255.
  */
  lemma MergedWraps(raw: Option<Token>, t: Token)
    ensures raw.None? ==> Merged(raw, t) == t
    ensures raw.Some? ==> Merged(raw, t).idx == raw.value.idx && Merged(raw, t).command == raw.value.command
    ensures raw.Some? && raw.value.length + t.length < 256 ==> Merged(raw, t).length == raw.value.length + t.length
    ensures raw.Some? && raw.value.length + t.length >= 256 ==> Merged(raw, t).length == raw.value.length + t.length - 256
  {
  }

  /**
    The pending RAW token `raw` of the token loop at position `idx`: none,
    or literal bytes from its own position up to `idx`, its length cast to
    a byte.
  */
  predicate Pending(s: seq<byte>, idx: nat, raw: Option<Token>) {
    idx <= |s| <= 256 &&
    (raw.Some? ==> raw.value.command == Raw && raw.value.idx < idx &&
                   raw.value.length == ToByte(idx - raw.value.idx))
  }

  /** Where the bytes still to be described start: at the pending RAW token, if any. */
  function Start(idx: nat, raw: Option<Token>): nat {
    if raw.Some? then raw.value.idx else idx
  }

  /** No two RAW tokens follow one another: consecutive literals have been merged. */
  predicate RawsMerged(toks: seq<Token>) {
    forall j | 0 <= j < |toks| - 1 :: !(toks[j].command == Raw && toks[j + 1].command == Raw)
  }

  /**
    The tokens the loop of `Compress` adds from position `idx` with the
    pending RAW token `raw`, given the token it picks at each position: a
    RAW pick merges into the pending token, any other pick follows it; at
    the end come the pending token and EOS, so the list ends with EOS.
  */
  function EncodeFrom(s: seq<byte>, picks: seq<Token>, idx: nat, raw: Option<Token>): (r: seq<Token>)
    requires Advances(s, picks) && idx <= |s|
    ensures |r| >= 1
    decreases |s| - idx
  {
    if idx >= |s| then
      Flush(raw) + [EOS]
    else
      var t := picks[idx];
      if t.command == Raw then
        EncodeFrom(s, picks, idx + t.length, Some(Merged(raw, t)))
      else
        Flush(raw) + ([t] + EncodeFrom(s, picks, idx + t.length, None))
  }

  /**
    The loop never leaves two RAW tokens in a row: a pending RAW token is
    pushed only in front of a non-RAW pick or of EOS, and every RAW pick is
    merged into the pending token instead of being pushed.
  */
  lemma {:induction false} EncodeFromMerged(s: seq<byte>, picks: seq<Token>, idx: nat, raw: Option<Token>)
    requires Advances(s, picks) && idx <= |s|
    ensures RawsMerged(EncodeFrom(s, picks, idx, raw))
    decreases |s| - idx
  {
    if idx >= |s| {
      MergedCons(Flush(raw), EOS, []);
    } else {
      var t := picks[idx];
      var next := idx + t.length;
      if t.command == Raw {
        EncodeFromMerged(s, picks, next, Some(Merged(raw, t)));
      } else {
        var rest := EncodeFrom(s, picks, next, None);
        EncodeFromMerged(s, picks, next, None);
        MergedCons(Flush(raw), t, rest);
      }
    }
  }

  /** At most one token, then a non-RAW token, then a merged list: still merged. */
  lemma MergedCons(p: seq<Token>, t: Token, rest: seq<Token>)
    requires |p| <= 1 && t.command != Raw && RawsMerged(rest)
    ensures RawsMerged(p + ([t] + rest))
  {
    var r := p + ([t] + rest);
    forall j | 0 <= j < |r| - 1
      ensures !(r[j].command == Raw && r[j + 1].command == Raw)
    {
      if j > |p| {
        assert r[j] == rest[j - |p| - 1] && r[j + 1] == rest[j - |p|];
      } else if j == |p| {
        assert r[j] == t;
      } else {
        assert r[j + 1] == t;
      }
    }
  }

  /**
    The list describes `s[from..]`, or it is the list of a buffer of 256
    literal bytes whose merged RAW token had its length cast to 0.
  */
  predicate Laid(s: seq<byte>, r: seq<Token>, from: nat) {
    Describes(s, r, from) || (from == 0 && |s| == 256 && r == [Token(0, 0, Raw), EOS])
  }

  /**
    From a state the loop reaches, the tokens it adds describe the rest of
    the buffer, except in one case: a buffer of 256 literal bytes, whose
    merged RAW token has its length cast to 0.
  */
  lemma {:induction false} EncodeFromLaid(s: seq<byte>, picks: seq<Token>, idx: nat, raw: Option<Token>)
    requires Advances(s, picks) && Picked(s, picks) && idx <= |s| && Pending(s, idx, raw)
    ensures Laid(s, EncodeFrom(s, picks, idx, raw), Start(idx, raw))
    decreases |s| - idx
  {
    if idx >= |s| {
      Finish(s, idx, raw, Flush(raw) + [EOS]);
    } else {
      var t := picks[idx];
      var next := idx + t.length;
      if t.command == Raw {
        var merged := Merged(raw, t);
        assert EncodeFrom(s, picks, idx, raw) == EncodeFrom(s, picks, next, Some(merged));
        Merge(s, idx, raw, t, merged);
        EncodeFromLaid(s, picks, next, Some(merged));
      } else {
        var rest := EncodeFrom(s, picks, next, None);
        assert EncodeFrom(s, picks, idx, raw) == Flush(raw) + ([t] + rest);
        EncodeFromLaid(s, picks, next, None);
        Push(s, idx, raw, t, rest);
      }
    }
  }

  /** After the last position, the pending RAW token and the EOS token describe what is left. */
  lemma Finish(s: seq<byte>, idx: nat, raw: Option<Token>, r: seq<Token>)
    requires idx == |s| && r == Flush(raw) + [EOS]
    ensures Pending(s, idx, raw) ==> Laid(s, r, Start(idx, raw))
  {
    if Pending(s, idx, raw) && raw.Some? {
      var p := raw.value;
      assert r[1..] == [EOS];
      if idx - p.idx < 256 {
        assert Stands(s, p, p.idx);
      }
    }
  }

  /** A one-byte literal at `idx` merges into the pending RAW token, which then reaches `idx + 1`. */
  lemma Merge(s: seq<byte>, idx: nat, raw: Option<Token>, t: Token, merged: Token)
    requires idx < |s| <= 256 && t == Token(idx, 1, Raw)
    requires merged == Merged(raw, t)
    ensures Pending(s, idx, raw) ==>
              Pending(s, idx + t.length, Some(merged)) && Start(idx + t.length, Some(merged)) == Start(idx, raw)
  {
  }

  /** The pending RAW token, if any, and a non-RAW token go in front of the tokens that follow them. */
  lemma Push(s: seq<byte>, idx: nat, raw: Option<Token>, t: Token, rest: seq<Token>)
    requires idx < |s| && Stands(s, t, idx) && t.command != Raw && |rest| >= 1
    requires Laid(s, rest, idx + t.length)
    ensures Pending(s, idx, raw) ==> Laid(s, Flush(raw) + ([t] + rest), Start(idx, raw))
  {
    assert Describes(s, rest, idx + t.length);
    DescribesCons(s, t, rest, idx);
    if Pending(s, idx, raw) {
      if raw.Some? {
        var p := raw.value;
        assert p.length == idx - p.idx;
        assert Stands(s, p, p.idx);
        DescribesCons(s, p, [t] + rest, p.idx);
        assert Flush(raw) + ([t] + rest) == [p] + ([t] + rest);
      } else {
        assert Flush(raw) + ([t] + rest) == [t] + rest;
      }
    }
  }

  /** A token standing at `from` in front of a list describing what follows it. */
  lemma DescribesCons(s: seq<byte>, t: Token, rest: seq<Token>, from: nat)
    requires |rest| >= 1
    ensures Stands(s, t, from) && Describes(s, rest, from + Extent(t)) ==> Describes(s, [t] + rest, from)
  {
    assert ([t] + rest)[1..] == rest;
  }

  /**
    The token list `Compress` builds for the whole buffer: it describes the
    buffer (or is the wrapped 256-byte literal), every payload exists, and
    consecutive literals are merged.
  */
  function Tokenize(s: seq<byte>): (r: seq<Token>)
    requires Encodable(s)
    ensures Laid(s, r, 0)
    ensures AllEmittable(s, r)
    ensures RawsMerged(r)
  {
    var picks := Picks(s);
    var r := EncodeFrom(s, picks, 0, None);
    PicksStand(s);
    EncodeFromLaid(s, picks, 0, None);
    EncodeFromMerged(s, picks, 0, None);
    LaidShape(s, r);
    r
  }

  /**
    A list describing `s[from..]` ends with its one EOS token, its other
    tokens' lengths add up to the bytes left, and every token's payload can
    be taken from `s`.
  */
  lemma {:induction false} DescribesShape(s: seq<byte>, toks: seq<Token>, from: nat)
    requires Describes(s, toks, from)
    ensures toks[|toks| - 1] == EOS
    ensures forall j | 0 <= j < |toks| - 1 :: toks[j].command != Eos
    ensures from + Total(toks) == |s|
    ensures AllEmittable(s, toks)
    decreases |toks|
  {
    if |toks| > 1 {
      var rest := toks[1..];
      DescribesShape(s, rest, from + Extent(toks[0]));
      assert forall j | 1 <= j < |toks| :: toks[j] == rest[j - 1];
    }
  }

  /** A list laid out from 0: the shape above, or the two tokens of the wrapped 256-byte literal. */
  lemma LaidShape(s: seq<byte>, toks: seq<Token>)
    requires Laid(s, toks, 0)
    ensures AllEmittable(s, toks)
    ensures toks[|toks| - 1] == EOS
    ensures Covers(s, toks) ==> Total(toks) == |s|
  {
    if Covers(s, toks) {
      DescribesShape(s, toks, 0);
    } else {
      assert Emittable(s, toks[0]) && Emittable(s, toks[1]);
    }
  }

  /** The choice at the head of the token loop of `Compress`: RLE when its length is at least REP's. */
  method SelectAt(idx: nat, src: seq<byte>, ghost picks: seq<Token>) returns (token: Token)
    requires Encodable(src) && idx < |src| && picks == Picks(src)
    ensures token == picks[idx]
  {
    var rleToken := RunLengthAt(idx, src);
    var repToken := RepLengthAt(idx, src);
    if rleToken.length >= repToken.length {
      token := rleToken;
    } else {
      token := repToken;
    }
  }

  /** The token loop of `Compress`: the tokens for the whole buffer, EOS included. */
  method TokenLoop(src: seq<byte>) returns (tokens: seq<Token>)
    requires Encodable(src)
    ensures tokens == EncodeFrom(src, Picks(src), 0, None)
  {
    ghost var picks := Picks(src);
    tokens := [];
    var rawToken: Option<Token> := None;
    var idx := 0;
    while idx < |src|
      invariant idx <= |src|
      invariant tokens + EncodeFrom(src, picks, idx, rawToken) == EncodeFrom(src, picks, 0, None)
      decreases |src| - idx
    {
      var token := SelectAt(idx, src, picks);
      ghost var before, pending, at := tokens, rawToken, idx;
      if token.command == Raw {
        if rawToken.None? {
          rawToken := Some(token);
        } else {
          rawToken := Some(rawToken.value.(length := ToByte(rawToken.value.length + token.length)));
        }
        assert rawToken == Some(Merged(pending, token));
      } else {
        if rawToken.Some? {
          tokens := tokens + [rawToken.value];
          rawToken := None;
        }
        tokens := tokens + [token];
        assert tokens == before + Flush(pending) + [token];
      }
      idx := idx + token.length;
      LoopStep(src, picks, at, pending, before, idx, rawToken, tokens);
    }
    ghost var last := tokens;
    EncodeStop(src, picks, idx, rawToken);
    if rawToken.Some? {
      tokens := tokens + [rawToken.value];
    }
    tokens := tokens + [NewToken(0, 0, Eos)];
    assert tokens == last + Flush(rawToken) + [EOS];
    Regroup(last, Flush(rawToken), [EOS]);
  }

  /** At the end of the buffer the loop adds the pending RAW token, if any, and EOS. */
  lemma EncodeStop(s: seq<byte>, picks: seq<Token>, idx: nat, raw: Option<Token>)
    requires Advances(s, picks) && idx == |s|
    ensures EncodeFrom(s, picks, idx, raw) == Flush(raw) + [EOS]
  {
  }

  /**
    A turn of the token loop keeps the tokens built so far followed by
    the tokens still to come equal to the whole list.
  */
  lemma LoopStep(s: seq<byte>, picks: seq<Token>, at: nat, pending: Option<Token>, before: seq<Token>,
                 idx: nat, raw: Option<Token>, tokens: seq<Token>)
    requires Advances(s, picks) && at < |s|
    requires idx == at + picks[at].length
    requires picks[at].command == Raw ==> tokens == before && raw == Some(Merged(pending, picks[at]))
    requires picks[at].command != Raw ==> tokens == before + Flush(pending) + [picks[at]] && raw == None
    ensures tokens + EncodeFrom(s, picks, idx, raw) == before + EncodeFrom(s, picks, at, pending)
  {
    EncodeStep(s, picks, at, pending);
    if picks[at].command != Raw {
      var rest := EncodeFrom(s, picks, idx, raw);
      Regroup(before + Flush(pending), [picks[at]], rest);
      Regroup(before, Flush(pending), [picks[at]] + rest);
    }
  }

  /** One turn of the token loop: the pick at `idx` is merged into the pending RAW token, or pushed after it. */
  lemma EncodeStep(s: seq<byte>, picks: seq<Token>, idx: nat, raw: Option<Token>)
    requires Advances(s, picks) && idx < |s|
    ensures picks[idx].command == Raw ==>
              EncodeFrom(s, picks, idx, raw) == EncodeFrom(s, picks, idx + picks[idx].length, Some(Merged(raw, picks[idx])))
    ensures picks[idx].command != Raw ==>
              EncodeFrom(s, picks, idx, raw) == Flush(raw) + ([picks[idx]] + EncodeFrom(s, picks, idx + picks[idx].length, None))
  {
  }

  /** The output loop of `Compress`: the bytes of every token, in order. */
  method EmitLoop(src: seq<byte>, tokens: seq<Token>) returns (out: seq<byte>)
    requires AllEmittable(src, tokens)
    ensures out == EmitAll(src, tokens)
  {
    out := [];
    var i := 0;
    while i < |tokens|
      invariant i <= |tokens|
      invariant out + EmitAll(src, tokens[i..]) == EmitAll(src, tokens)
    {
      EmitNext(src, tokens, i, out, EmitAll(src, tokens));
      out := out + EmitCompressStream(tokens[i], src);
      i := i + 1;
    }
  }

  /** A turn of the output loop keeps the bytes written so far followed by the bytes still to come equal to the whole stream. */
  lemma EmitNext(s: seq<byte>, toks: seq<Token>, i: nat, out: seq<byte>, c: seq<byte>)
    requires AllEmittable(s, toks) && i < |toks| && c == EmitAll(s, toks)
    requires out + EmitAll(s, toks[i..]) == c
    ensures AllEmittable(s, toks[i + 1..])
    ensures (out + EmitCompressStream(toks[i], s)) + EmitAll(s, toks[i + 1..]) == c
  {
    var rest := toks[i..];
    assert rest[1..] == toks[i + 1..] && rest[0] == toks[i];
    EmitHead(s, rest, out, c);
  }

  /** `Compress`: the tokens of the buffer, then their bytes. */
  method Compress(src: seq<byte>) returns (out: seq<byte>)
    requires Encodable(src)
    ensures out == EmitAll(src, Tokenize(src))
  {
    var tokens := TokenLoop(src);
    assert tokens == Tokenize(src);
    out := EmitLoop(src, tokens);
  }
}
