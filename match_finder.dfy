/**
  The two match finders of the encoder: the run of equal bytes starting at a
  position (`RunLengthAt`) and the longest back-reference found by repeated
  first-occurrence searches (`RepLengthAt`).
*/
module MatchFinder {
  import opened Bytes
  import opened Format

  /** How many bytes equal to `s[i]` follow one another from position `i` on. */
  function RunLength(s: seq<byte>, i: nat): (r: nat)
    requires i < |s|
    ensures 1 <= r <= |s| - i
    ensures forall k | i <= k < i + r :: s[k] == s[i]
    ensures i + r == |s| || s[i + r] != s[i]
    decreases |s| - i
  {
    if i + 1 < |s| && s[i + 1] == s[i] then 1 + RunLength(s, i + 1) else 1
  }

  /** The token `RunLengthAt` returns: a one-byte RAW token when the byte does not repeat, else an RLE token. */
  function RunToken(s: seq<byte>, idx: nat): (t: Token)
    requires idx < |s| <= 256
    ensures t.command == Raw || t.command == Rle
    ensures t.command == Raw <==> idx + 1 == |s| || s[idx + 1] != s[idx]
    ensures t.command == Raw ==> t == Token(idx, 1, Raw)
    ensures RunLength(s, idx) < 256 ==> t.length == RunLength(s, idx)
    ensures t.command == Rle && RunLength(s, idx) < 256 ==>
              Stands(s, t, idx) && (idx + t.length == |s| || s[idx + t.length] != s[idx])
    ensures t.command == Rle && RunLength(s, idx) == 256 ==> t == Token(0, 0, Rle)
  {
    var n := RunLength(s, idx);
    if n == 1 then NewToken(idx, 1, Raw) else NewToken(idx, n, Rle)
  }

  /** `RunLengthAt`: counts the bytes equal to `src[idx]` from `idx` on. */
  method RunLengthAt(idx: nat, src: seq<byte>) returns (t: Token)
    requires idx < |src| <= 256
    ensures t == RunToken(src, idx)
  {
    var testData := src[idx];
    var runLength := 1;
    var i := idx + 1;
    while i < |src|
      invariant idx + 1 <= i <= |src|
      invariant runLength == i - idx
      invariant forall k | idx <= k < i :: src[k] == testData
    {
      if testData == src[i] {
        runLength := runLength + 1;
      } else {
        break;
      }
      i := i + 1;
    }
    ghost var n := RunLength(src, idx);
    assert idx + n < |src| ==> src[idx + n] != testData;
    assert i < |src| ==> src[i] != testData;
    assert runLength == n;
    if runLength == 1 {
      t := NewToken(idx, 1, Raw);
    } else {
      t := NewToken(idx, runLength, Rle);
    }
  }

  /** The pattern occurs in `s` at position `j`. */
  predicate OccursAt(s: seq<byte>, pat: seq<byte>, j: nat) {
    j + |pat| <= |s| && s[j .. j + |pat|] == pat
  }

  /** `pat` occurs at `j` and nowhere before. */
  predicate FirstCopy(s: seq<byte>, pat: seq<byte>, j: nat) {
    OccursAt(s, pat, j) && NoCopyBefore(s, pat, j)
  }

  /** No position before `idx` holds a copy of `pat`. */
  predicate NoCopyBefore(s: seq<byte>, pat: seq<byte>, idx: nat) {
    forall j | 0 <= j < idx :: !OccursAt(s, pat, j)
  }

  /**
    `Span.IndexOf` on a byte span: the first position of `pat` in `s`, or -1
    when it does not occur.
  */
  function IndexOf(s: seq<byte>, pat: seq<byte>): (r: int)
    ensures -1 <= r <= |s|
    ensures r >= 0 ==> FirstCopy(s, pat, r)
    ensures r < 0 ==> NoCopyBefore(s, pat, |s| + 1)
  {
    IndexOfFrom(s, pat, 0)
  }

  function IndexOfFrom(s: seq<byte>, pat: seq<byte>, from: nat): (r: int)
    ensures r == -1 || (from <= r <= |s| && OccursAt(s, pat, r))
    ensures forall j | from <= j < (if r < 0 then |s| + 1 else r) :: !OccursAt(s, pat, j)
    decreases |s| + 1 - from
  {
    if from + |pat| > |s| then -1
    else if s[from .. from + |pat|] == pat then from
    else IndexOfFrom(s, pat, from + 1)
  }

  /**
    The loop of `RepLengthAt` from the state (`length`, `matchIdx`,
    `matchLen`) on: it grows the slice at `idx` by one byte at a time and
    keeps the first position of the last slice found before `idx`. The
    result is the final (`matchIdx`, `matchLen`): the state it starts
    from, or a position before `idx` with a match longer than `length`
    that stays inside the buffer.
  */
  function RepSearch(s: seq<byte>, idx: nat, length: nat, matchIdx: nat, matchLen: nat): (r: (nat, nat))
    requires idx + length <= |s|
    ensures r == (matchIdx, matchLen) || (r.0 < idx && length < r.1 && idx + r.1 <= |s|)
    decreases |s| - idx - length
  {
    if !(matchIdx < idx && length + matchIdx < |s|) then (matchIdx, matchLen)
    else if idx + (length + 1) > |s| then (matchIdx, matchLen)
    else
      var t := ToByte(IndexOf(s, s[idx .. idx + (length + 1)]));
      if 0 <= t < idx then RepSearch(s, idx, length + 1, t, length + 1)
      else (matchIdx, matchLen)
  }

  /**
    From a state the loop can reach, the search ends as `SearchResult`
    says; in particular the loop's bound `length + matchIdx < |s|` never
    stops it early.
  */
  lemma {:induction false} SearchEnds(s: seq<byte>, idx: nat, length: nat, m: nat, l: nat)
    requires SearchState(s, idx, length, m, l)
    ensures SearchResult(s, idx, length, RepSearch(s, idx, length, m, l))
    decreases |s| - idx - length, 1
  {
    if idx + (length + 1) > |s| {
      EndStop(s, idx, length, m, l, RepSearch(s, idx, length, m, l));
    } else {
      SearchGoes(s, idx, length, m, l);
    }
  }

  /** `SearchEnds` while the slice can still grow by a byte. */
  lemma {:induction false} SearchGoes(s: seq<byte>, idx: nat, length: nat, m: nat, l: nat)
    requires SearchState(s, idx, length, m, l) && idx + (length + 1) <= |s|
    ensures SearchResult(s, idx, length, RepSearch(s, idx, length, m, l))
    decreases |s| - idx - length, 0
  {
    var r := RepSearch(s, idx, length, m, l);
    var found, t := SearchTurn(s, idx, length, m, l, r);
    if found {
      SearchOn(s, idx, length, t, r);
    }
  }

  /** The search goes on from the slice one byte longer, found first at `t`, and ends as it would from there. */
  lemma {:induction false} SearchOn(s: seq<byte>, idx: nat, length: nat, t: nat, r: (nat, nat))
    requires SearchState(s, idx, length + 1, t, length + 1) && r == RepSearch(s, idx, length + 1, t, length + 1)
    ensures SearchResult(s, idx, length, r)
    decreases |s| - idx - (length + 1), 2
  {
    SearchEnds(s, idx, length + 1, t, length + 1);
    ResultWeakens(s, idx, length, r, r);
  }

  /**
    One turn of the search loop: the loop's bound never stops it, and the
    slice grown by a byte is either found first before `idx`, at `t`, and
    the search goes on from there, or it is not, and the search ends.
  */
  lemma SearchTurn(s: seq<byte>, idx: nat, length: nat, m: nat, l: nat, r: (nat, nat)) returns (found: bool, t: nat)
    requires SearchState(s, idx, length, m, l) && r == RepSearch(s, idx, length, m, l)
    requires idx + (length + 1) <= |s|
    ensures found ==> SearchState(s, idx, length + 1, t, length + 1) && r == RepSearch(s, idx, length + 1, t, length + 1)
    ensures !found ==> SearchResult(s, idx, length, r)
  {
    var pat := s[idx .. idx + (length + 1)];
    var i := ToByte(IndexOf(s, pat));
    assert m < idx && length + m < |s|;
    SearchStep(s, idx, pat);
    found, t := 0 <= i < idx, i;
    if !found {
      assert r == (m, l);
      NotFound(s, idx, pat, length, m, l);
    }
  }

  /** A result that holds for a search started one byte longer holds for this one. */
  lemma ResultWeakens(s: seq<byte>, idx: nat, length: nat, r': (nat, nat), r: (nat, nat))
    requires idx < |s| && SearchResult(s, idx, length + 1, r') && r == r'
    ensures SearchResult(s, idx, length, r)
  {
  }

  /** The search stops at the end of the buffer with what it has found. */
  lemma EndStop(s: seq<byte>, idx: nat, length: nat, m: nat, l: nat, r: (nat, nat))
    requires SearchState(s, idx, length, m, l) && idx + (length + 1) > |s| && r == RepSearch(s, idx, length, m, l)
    ensures SearchResult(s, idx, length, r)
  {
    assert r == (m, l);
  }

  /** The search stops when the slice grown by a byte is first found at `idx` or later: it has no copy before `idx`. */
  lemma NotFound(s: seq<byte>, idx: nat, pat: seq<byte>, length: nat, m: nat, l: nat)
    requires SearchState(s, idx, length, m, l) && idx + (length + 1) <= |s|
    requires pat == s[idx .. idx + (length + 1)] && IndexOf(s, pat) >= idx
    ensures SearchResult(s, idx, length, (m, l))
  {
  }

  /**
    A state the search loop reaches in a buffer of at most 256 bytes: either
    nothing found yet, or the `length` bytes at `idx` were found first at
    `m`, before `idx`.
  */
  predicate SearchState(s: seq<byte>, idx: nat, length: nat, m: nat, l: nat) {
    0 < idx < |s| <= 256 && idx + length <= |s| && l == length &&
    (length == 0 ==> m == 0) &&
    (length > 0 ==> m < idx && FirstCopy(s, s[idx .. idx + length], m))
  }

  /**
    The end state (`m`, `l`) of the search started with a slice of `length`
    bytes: no shorter, first position `m` before `idx` of the `l` bytes at
    `idx`, and no copy before `idx` of one byte more.
  */
  predicate SearchResult(s: seq<byte>, idx: nat, length: nat, r: (nat, nat))
    requires idx < |s|
  {
    var (m, l) := r;
    length <= l && idx + l <= |s| &&
    (l == 0 ==> m == 0) &&
    (l > 0 ==> m < idx && FirstCopy(s, s[idx .. idx + l], m)) &&
    (idx + l == |s| || NoCopyBefore(s, s[idx .. idx + l + 1], idx))
  }

  /** The slice at `idx` is found, at `idx` itself or earlier, and the position found is its first. */
  lemma SearchStep(s: seq<byte>, idx: nat, pat: seq<byte>)
    requires idx + |pat| <= |s| && pat == s[idx .. idx + |pat|]
    ensures 0 <= IndexOf(s, pat) <= idx
    ensures idx < 256 ==> ToByte(IndexOf(s, pat)) == IndexOf(s, pat)
    ensures FirstCopy(s, pat, IndexOf(s, pat))
  {
    assert OccursAt(s, pat, idx);
  }

  /** The token `RepLengthAt` returns: a REP token when a match of two bytes or more was kept, else a one-byte RAW token. */
  function RepToken(s: seq<byte>, idx: nat): (t: Token)
    requires idx < |s|
    ensures t.command == Raw || t.command == Rep
    ensures idx == 0 ==> t == Token(0, 1, Raw)
  {
    var (matchIdx, matchLen) := RepSearch(s, idx, 0, 0, 0);
    if matchLen > 1 then NewToken(matchIdx, matchLen, Rep) else NewToken(idx, 1, Raw)
  }

  /**
    In a buffer of at most 256 bytes a REP token copies two bytes or more
    from an earlier position, which is the first position of those bytes in
    the buffer, and is as long as such a copy gets; a RAW token means the
    two bytes at `idx` have no earlier copy.
  */
  lemma RepTokenFound(s: seq<byte>, idx: nat)
    requires idx < |s| <= 256
    ensures var t := RepToken(s, idx);
            t.command == Raw ==>
              t == Token(idx, 1, Raw) && (idx + 2 > |s| || NoCopyBefore(s, s[idx .. idx + 2], idx))
    ensures var t := RepToken(s, idx);
            t.command == Rep ==>
              Stands(s, t, idx) && FirstCopy(s, s[idx .. idx + t.length], t.idx) &&
              (idx + t.length == |s| || NoCopyBefore(s, s[idx .. idx + t.length + 1], idx))
  {
    var (m, l) := RepSearch(s, idx, 0, 0, 0);
    var t := RepToken(s, idx);
    if 0 < idx {
      SearchEnds(s, idx, 0, 0, 0);
    } else {
      assert (m, l) == (0, 0);
    }
    if l > 1 {
      RepFound(s, idx, m, l, t);
    } else {
      RawFound(s, idx, m, l, t);
    }
  }

  /** A kept match of two bytes or more gives a REP token that copies them from their first position. */
  lemma RepFound(s: seq<byte>, idx: nat, m: nat, l: nat, t: Token)
    requires 0 < idx < |s| <= 256 && SearchResult(s, idx, 0, (m, l)) && l > 1
    requires t == NewToken(m, l, Rep)
    ensures Stands(s, t, idx) && FirstCopy(s, s[idx .. idx + t.length], t.idx)
    ensures idx + t.length == |s| || NoCopyBefore(s, s[idx .. idx + t.length + 1], idx)
  {
    assert t.idx == m && t.length == l && OccursAt(s, s[idx .. idx + l], m);
  }

  /** Without such a match the token is a one-byte RAW token, and the two bytes at `idx` have no earlier copy. */
  lemma RawFound(s: seq<byte>, idx: nat, m: nat, l: nat, t: Token)
    requires idx < |s| <= 256 && l <= 1 && t == NewToken(idx, 1, Raw)
    requires idx == 0 || SearchResult(s, idx, 0, (m, l))
    ensures t == Token(idx, 1, Raw) && (idx + 2 > |s| || NoCopyBefore(s, s[idx .. idx + 2], idx))
  {
    NoCopyGrows(s, idx, 1);
  }

  /** `RepLengthAt`: the search loop, with `IndexOf` for `Span.IndexOf`. */
  method RepLengthAt(idx: nat, src: seq<byte>) returns (t: Token)
    requires idx < |src|
    ensures t == RepToken(src, idx)
  {
    var length, matchIdx, matchLen := 0, 0, 0;
    while matchIdx < idx && length + matchIdx < |src|
      invariant idx + length <= |src|
      invariant RepSearch(src, idx, length, matchIdx, matchLen) == RepSearch(src, idx, 0, 0, 0)
      decreases |src| - idx - length
    {
      ghost var before := length;
      length := length + 1;
      if idx + length > |src| {
        assert RepSearch(src, idx, before, matchIdx, matchLen) == (matchIdx, matchLen);
        break;
      }
      var found := ToByte(IndexOf(src, src[idx .. idx + length]));
      SearchUnfold(src, idx, before, matchIdx, matchLen, found);
      if 0 <= found < idx {
        matchIdx, matchLen := found, length;
      } else {
        break;
      }
    }
    if matchLen > 1 {
      t := NewToken(matchIdx, matchLen, Rep);
    } else {
      t := NewToken(idx, 1, Raw);
    }
  }

  /** One turn of the search loop: the slice one byte longer is found before `idx`, or the search stops. */
  lemma SearchUnfold(s: seq<byte>, idx: nat, length: nat, m: nat, l: nat, found: byte)
    requires m < idx && length + m < |s| && idx + (length + 1) <= |s|
    requires found == ToByte(IndexOf(s, s[idx .. idx + (length + 1)]))
    ensures 0 <= found < idx ==> RepSearch(s, idx, length, m, l) == RepSearch(s, idx, length + 1, found, length + 1)
    ensures !(0 <= found < idx) ==> RepSearch(s, idx, length, m, l) == (m, l)
  {
  }

  /** A slice with no copy before `idx` has none once it grows by a byte. */
  lemma NoCopyGrows(s: seq<byte>, idx: nat, len: nat)
    ensures idx + len + 1 <= |s| && NoCopyBefore(s, s[idx .. idx + len], idx) ==>
              NoCopyBefore(s, s[idx .. idx + len + 1], idx)
  {
    if idx + len + 1 <= |s| && NoCopyBefore(s, s[idx .. idx + len], idx) {
      var longer := s[idx .. idx + len + 1];
      forall j | 0 <= j < idx
        ensures !OccursAt(s, longer, j)
      {
        if OccursAt(s, longer, j) {
          assert s[j .. j + len] == s[j .. j + len + 1][..len];
          assert s[idx .. idx + len] == longer[..len];
          assert OccursAt(s, s[idx .. idx + len], j);
        }
      }
    }
  }
}
