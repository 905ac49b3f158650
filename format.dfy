/**
  The LZ65 token model: the command flags and masks, the token triple
  (position, length, command), the header byte that packs a command and a
  length, and what it means for a list of tokens to describe a source buffer.
*/
module Format {
  import opened Bytes

  // Command flags (top two bits of a header byte) and the two masks.
  const RAW_FLAG: byte := 0x00  // copy the next n bytes of the compressed stream
  const REP_FLAG: byte := 0x40  // copy n bytes from the destination buffer at an offset
  const RLE_FLAG: byte := 0x80  // repeat the next compressed byte n times
  const EOS_FLAG: byte := 0xC0  // end of stream
  const COM_MASK: byte := 0xC0
  const LEN_MASK: byte := 0x3F

  /** The largest length a header byte can carry. */
  const MAX_WIRE_LENGTH := 63

  datatype Command = Raw | Rep | Rle | Eos

  function Flag(c: Command): (f: byte)
    ensures IsHigh(f)
    ensures CommandOf(f) == c
  {
    match c
    case Raw => RAW_FLAG
    case Rep => REP_FLAG
    case Rle => RLE_FLAG
    case Eos => EOS_FLAG
  }

  /**
    The `switch` on a masked command byte. The flag `EOS_FLAG` and the
    `default` branch behave alike wherever the codec switches (step 1 when
    parsing, nothing written when replaying), so every byte other than the
    three data flags reads as `Eos`.
  */
  function CommandOf(masked: byte): Command {
    if masked == RAW_FLAG then Raw
    else if masked == REP_FLAG then Rep
    else if masked == RLE_FLAG then Rle
    else Eos
  }

  /** The header byte `commandFlag | length`; a length of 64 or more spills into the command bits. */
  function Header(c: Command, length: byte): byte {
    OrHigh(Flag(c), length)
  }

  /** A header whose length fits in six bits gives back its command and its length under the two masks. */
  lemma HeaderFields(c: Command, length: byte)
    requires length <= MAX_WIRE_LENGTH
    ensures HighBits(Header(c, length)) == Flag(c)
    ensures CommandOf(HighBits(Header(c, length))) == c
    ensures LowBits(Header(c, length)) == length
  {
  }

  /**
    A length of 64 or more does not survive the header: the masks give back
    its low six bits only, and its seventh and eighth bits are or-ed into the
    command.
  */
  lemma HeaderOverflow(c: Command, length: byte)
    requires length > MAX_WIRE_LENGTH
    ensures LowBits(Header(c, length)) == LowBits(length) < length
  {
    assert HighBits(length) >= 64;
  }

  /** Two collisions that overflow causes: a run of 64 is emitted as the EOS byte, a literal run of 64 as a zero-length back-reference. */
  lemma HeaderCollisions()
    ensures Header(Rle, 64) == Header(Eos, 0) == EOS_FLAG
    ensures Header(Raw, 64) == Header(Rep, 0) == REP_FLAG
  {
    assert HighBits(64) == 64 && LowBits(64) == 0 && HighBits(0) == 0 && LowBits(0) == 0;
    assert OrHighs(RLE_FLAG, 64) == EOS_FLAG && OrHighs(EOS_FLAG, 0) == EOS_FLAG;
    assert OrHighs(RAW_FLAG, 64) == REP_FLAG && OrHighs(REP_FLAG, 0) == REP_FLAG;
  }

  /** One token. The C# class keeps all three fields as bytes. */
  datatype Token = Token(idx: byte, length: byte, command: Command)

  /** The constructor `LzToken(int, int, int)`: position and length are cast to `byte`. */
  function NewToken(idx: int, length: int, command: Command): (t: Token)
    ensures 0 <= idx < 256 ==> t.idx == idx
    ensures 0 <= length < 256 ==> t.length == length
    ensures length == 256 ==> t.length == 0
    ensures (idx - t.idx) % 256 == 0 && (length - t.length) % 256 == 0
    ensures t.command == command
  {
    Token(ToByte(idx), ToByte(length), command)
  }

  /** The terminating token `LzToken(0, 0, EOS_FLAG)`. */
  const EOS := Token(0, 0, Eos)

  /** How many destination bytes a token produces (`bytesWritten`). */
  function Extent(t: Token): nat {
    if t.command == Eos then 0 else t.length
  }

  /** The bytes all tokens of a list produce: for a describing list, the source bytes they stand for. */
  function Total(toks: seq<Token>): nat {
    if toks == [] then 0 else Extent(toks[0]) + Total(toks[1..])
  }

  /**
    Token `t` stands for the bytes `s[at .. at + t.length]` of the source
    buffer: a literal copy taken at `at`, a run of one byte value of length
    at least two, or a back-reference of length at least two to an earlier
    position holding the same bytes (the two ranges may overlap).
  */
  predicate Stands(s: seq<byte>, t: Token, at: nat) {
    at + t.length <= |s| &&
    match t.command
    case Raw => t.idx == at && t.length >= 1
    case Rle => t.idx == at && t.length >= 2 && forall k | at <= k < at + t.length :: s[k] == s[at]
    case Rep => t.idx < at && t.length >= 2 && s[t.idx .. t.idx + t.length] == s[at .. at + t.length]
    case Eos => false
  }

  /**
    A token list describes `s[from..]`: its tokens stand, one after
    another, for consecutive pieces that reach the end of `s`, and the list
    ends with exactly one EOS token.
  */
  predicate Describes(s: seq<byte>, toks: seq<Token>, from: nat)
    decreases |toks|
  {
    if |toks| <= 1 then toks == [EOS] && from == |s|
    else Stands(s, toks[0], from) && Describes(s, toks[1..], from + Extent(toks[0]))
  }

  /** A token list describes the whole of `s`. */
  predicate Covers(s: seq<byte>, toks: seq<Token>) {
    Describes(s, toks, 0)
  }

  /** Concatenation of token lists (or of any sequences) regrouped to the right. */
  lemma Regroup<T>(a: seq<T>, b: seq<T>, c: seq<T>)
    ensures (a + b) + c == a + (b + c)
  {
  }
}
