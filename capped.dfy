/**
  The token list the token loop of `Compress` evidently means to build:
  the same picks, but no token longer than the six length bits of a
  header hold. A run or back-reference is cut to 63 bytes (the loop then
  picks again where it stops), and a pending RAW token that has reached
  63 bytes is pushed before the next literal byte starts a new one.
*/
module Capped {
  import opened Bytes
  import opened Format
  import opened Serializer
  import opened Encoder
  import opened Decoder
  import opened RoundTrip

  /** A picked token, cut to the longest length a header holds. */
  function Cap(t: Token): Token {
    if t.length <= MAX_WIRE_LENGTH then t else t.(length := MAX_WIRE_LENGTH)
  }

  /** Cutting a token that stands for bytes of `s` leaves one that stands for a prefix of them and fits in a header. */
  lemma CapStands(s: seq<byte>, t: Token, at: nat)
    requires Stands(s, t, at)
    ensures Stands(s, Cap(t), at) && 1 <= Cap(t).length <= MAX_WIRE_LENGTH
    ensures Cap(t).command == t.command && (t.length <= MAX_WIRE_LENGTH ==> Cap(t) == t)
  {
    if t.length > MAX_WIRE_LENGTH && t.command == Rep {
      var n := MAX_WIRE_LENGTH;
      assert s[t.idx .. t.idx + n] == s[t.idx .. t.idx + t.length][..n];
      assert s[at .. at + n] == s[at .. at + t.length][..n];
    }
  }

  /**
    The tokens the capped loop adds from position `idx` with the pending
    RAW token `raw`: as `EncodeFrom`, with each pick cut by `Cap`, and a
    pending RAW token of 63 bytes pushed before a literal byte is added.
  */
  function CappedFrom(s: seq<byte>, picks: seq<Token>, idx: nat, raw: Option<Token>): (r: seq<Token>)
    requires Advances(s, picks) && idx <= |s|
    ensures |r| >= 1
    decreases |s| - idx
  {
    if idx >= |s| then
      Flush(raw) + [EOS]
    else
      var t := Cap(picks[idx]);
      if t.command == Raw then
        if raw.Some? && raw.value.length == MAX_WIRE_LENGTH then
          [raw.value] + CappedFrom(s, picks, idx + t.length, Some(t))
        else
          CappedFrom(s, picks, idx + t.length, Some(Merged(raw, t)))
      else
        Flush(raw) + ([t] + CappedFrom(s, picks, idx + t.length, None))
  }

  /** The capped token list for the whole buffer. */
  function CappedTokens(s: seq<byte>): seq<Token>
    requires Encodable(s)
  {
    CappedFrom(s, Picks(s), 0, None)
  }

  /** The pending RAW token of the capped loop: literal bytes from its own position up to `idx`, at most 63 of them. */
  predicate Short(s: seq<byte>, idx: nat, raw: Option<Token>) {
    idx <= |s| <= 256 &&
    (raw.Some? ==> raw.value.command == Raw && raw.value.idx < idx &&
                   raw.value.length == idx - raw.value.idx <= MAX_WIRE_LENGTH)
  }

  /** A list that describes `s[from..]` and fits in headers. */
  predicate Fits(s: seq<byte>, toks: seq<Token>, from: nat) {
    Describes(s, toks, from) && Narrow(toks)
  }

  /**
    From a state the capped loop reaches, the tokens it adds describe the
    rest of the buffer and every one of them fits in a header.
  */
  lemma {:induction false} CappedFits(s: seq<byte>, picks: seq<Token>, idx: nat, raw: Option<Token>)
    requires Advances(s, picks) && Picked(s, picks) && Short(s, idx, raw)
    ensures Fits(s, CappedFrom(s, picks, idx, raw), Start(idx, raw))
    decreases |s| - idx
  {
    if idx >= |s| {
      CappedLast(s, idx, raw);
    } else {
      var t := Cap(picks[idx]);
      var next := idx + t.length;
      CapStands(s, picks[idx], idx);
      if t.command == Raw {
        assert t == Token(idx, 1, Raw) && next == idx + 1;
        if raw.Some? && raw.value.length == MAX_WIRE_LENGTH {
          var rest := CappedFrom(s, picks, next, Some(t));
          assert CappedFrom(s, picks, idx, raw) == [raw.value] + rest;
          CappedFits(s, picks, next, Some(t));
          CappedFull(s, idx, raw, rest);
        } else {
          var merged := Merged(raw, t);
          assert CappedFrom(s, picks, idx, raw) == CappedFrom(s, picks, next, Some(merged));
          CappedMerge(s, idx, raw, t, merged);
          CappedFits(s, picks, next, Some(merged));
        }
      } else {
        var rest := CappedFrom(s, picks, next, None);
        assert CappedFrom(s, picks, idx, raw) == Flush(raw) + ([t] + rest);
        CappedFits(s, picks, next, None);
        CappedPush(s, idx, raw, t, rest, next);
      }
    }
  }

  /** The pending RAW token, if any, and a non-RAW token go in front of the fitting tokens that follow them. */
  lemma CappedPush(s: seq<byte>, idx: nat, raw: Option<Token>, t: Token, rest: seq<Token>, next: nat)
    requires Short(s, idx, raw) && Stands(s, t, idx) && t.length <= MAX_WIRE_LENGTH && next == idx + t.length
    requires Fits(s, rest, next)
    ensures Fits(s, Flush(raw) + ([t] + rest), Start(idx, raw))
  {
    FitsCons(s, t, rest, idx, next);
    if raw.Some? {
      var p := raw.value;
      assert Stands(s, p, p.idx);
      FitsCons(s, p, [t] + rest, p.idx, idx);
      assert Flush(raw) + ([t] + rest) == [p] + ([t] + rest);
    } else {
      assert Flush(raw) + ([t] + rest) == [t] + rest;
    }
  }

  /** A pending RAW token of 63 bytes goes in front of the fitting tokens that follow it. */
  lemma CappedFull(s: seq<byte>, idx: nat, raw: Option<Token>, rest: seq<Token>)
    requires Short(s, idx, raw) && raw.Some? && raw.value.length == MAX_WIRE_LENGTH
    requires Fits(s, rest, idx)
    ensures Fits(s, [raw.value] + rest, Start(idx, raw))
  {
    assert Stands(s, raw.value, raw.value.idx);
    FitsCons(s, raw.value, rest, raw.value.idx, idx);
  }

  /** At the end of the buffer the pending RAW token, if any, and EOS describe what is left. */
  lemma CappedLast(s: seq<byte>, idx: nat, raw: Option<Token>)
    requires idx == |s| && Short(s, idx, raw)
    ensures Fits(s, Flush(raw) + [EOS], Start(idx, raw))
  {
    assert Fits(s, [EOS], idx);
    if raw.Some? {
      var p := raw.value;
      assert Stands(s, p, p.idx);
      FitsCons(s, p, [EOS], p.idx, idx);
      assert Flush(raw) + [EOS] == [p] + [EOS];
    } else {
      assert Flush(raw) + [EOS] == [EOS];
    }
  }

  /** A literal byte merged into a pending RAW token shorter than 63 bytes keeps it short. */
  lemma CappedMerge(s: seq<byte>, idx: nat, raw: Option<Token>, t: Token, merged: Token)
    requires Short(s, idx, raw) && idx < |s| && t == Token(idx, 1, Raw) && merged == Merged(raw, t)
    requires raw.Some? ==> raw.value.length < MAX_WIRE_LENGTH
    ensures Short(s, idx + 1, Some(merged)) && Start(idx + 1, Some(merged)) == Start(idx, raw)
  {
  }

  /** A token that stands at `from` and fits in a header, in front of a fitting list for what follows it. */
  lemma FitsCons(s: seq<byte>, t: Token, rest: seq<Token>, from: nat, next: nat)
    requires Stands(s, t, from) && t.length <= MAX_WIRE_LENGTH && next == from + t.length
    requires Fits(s, rest, next)
    ensures Fits(s, [t] + rest, from)
  {
    DescribesCons(s, t, rest, from);
    assert ([t] + rest)[1..] == rest;
    forall i | 0 <= i < |[t] + rest|
      ensures ([t] + rest)[i].length <= MAX_WIRE_LENGTH
    {
      if i > 0 {
        assert ([t] + rest)[i] == rest[i - 1];
      }
    }
  }

  /** The capped list covers the buffer and every token fits in a header. */
  lemma CappedCovers(s: seq<byte>)
    requires Encodable(s)
    ensures Covers(s, CappedTokens(s)) && Narrow(CappedTokens(s)) && AllEmittable(s, CappedTokens(s))
  {
    PicksStand(s);
    CappedFits(s, Picks(s), 0, None);
    DescribesShape(s, CappedTokens(s), 0);
  }

  /**
    With the capped list, decompressing what is emitted gives back every
    buffer `Compress` accepts, as long as every header before the final
    EOS starts below offset 256.
  */
  lemma CappedRoundTrip(s: seq<byte>)
    requires Encodable(s)
    ensures AllEmittable(s, CappedTokens(s))
    ensures HeadersBelow(CappedTokens(s), 0) ==>
              Decodable(EmitAll(s, CappedTokens(s))) && Decoded(EmitAll(s, CappedTokens(s))) == s
  {
    CappedCovers(s);
    if HeadersBelow(CappedTokens(s), 0) {
      DecodeEmitted(s, CappedTokens(s));
    }
  }
}
