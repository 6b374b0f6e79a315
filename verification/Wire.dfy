/**
 The byte-level vocabulary of the binary coders: zig-zag base-128 varints ("Base 128
 Varints" and "Signed Integers" in the Protocol Buffers encoding guide), length-prefixed byte
 strings with a nil token, and fixed-width words. For every item there is an encoder
 (a function into bytes), a parser (a function that also returns what is left), and the
 methods that do the same on a writer or a reader.
 */
module Wire {
  import opened Basics
  import opened Bits

  datatype WireError =
    | UnexpectedEnd
    | VarintOverflow
    | NilToken
    | InvalidLength
    | InvalidFieldCount
    | FieldCountMismatch

  /** A parsed value and the bytes after it. */
  type Parsed<T> = Result<(T, bytes), WireError>

  const MAX_BYTES_LENGTH := 64 * 1024 * 1024
  const MAX_INT64 := 0x7FFF_FFFF_FFFF_FFFF
  const MAX_VARINT_LEN64 := 10

  class Sink {
    var out: bytes

    constructor ()
      ensures out == []
    {
      out := [];
    }

    method Write(b: bytes)
      modifies this
      ensures out == old(out) + b
    {
      out := out + b;
    }
  }

  class Source {
    var rest: bytes

    constructor (data: bytes)
      ensures rest == data
    {
      rest := data;
    }

    method ReadFull(n: nat) returns (r: Result<bytes, WireError>)
      modifies this
      ensures Yields(r, Take(old(rest), n), rest)
    {
      if n <= |rest| {
        r := Ok(rest[..n]);
        rest := rest[n..];
      } else {
        r := Err(UnexpectedEnd);
        rest := [];
      }
    }

    method ReadByte() returns (r: Result<byte, WireError>)
      modifies this
      ensures if old(rest) == [] then r == Err(UnexpectedEnd) else r == Ok(old(rest)[0]) && rest == old(rest)[1..]
    {
      if rest == [] {
        return Err(UnexpectedEnd);
      }
      r := Ok(rest[0]);
      rest := rest[1..];
    }
  }

  /** What a reading method returns and leaves, given what the parser says of the old input. */
  ghost predicate Yields<T>(r: Result<T, WireError>, p: Parsed<T>, rest: bytes) {
    match p
    case Ok(v) => r == Ok(v.0) && rest == v.1
    case Err(e) => r == Err(e)
  }

  function Take(s: bytes, n: nat): Parsed<bytes> {
    if n <= |s| then Ok((s[..n], s[n..])) else Err(UnexpectedEnd)
  }

  // ---------------------------------------------------------------- varints

  /** uint64(v) << 1, inverted for negative v. */
  function ZigZag(v: int64): (u: uint64)
    ensures u == if v >= 0 then 2 * v else -2 * v - 1
  {
    var u := ToUint64(2 * ToUint64(v));
    if v < 0 then 0xFFFF_FFFF_FFFF_FFFF - u else u
  }

  function UnZigZag(u: uint64): int64 {
    if u % 2 == 1 then -(u / 2) - 1 else u / 2
  }

  function Uvarint(u: nat): bytes {
    if u < 0x80 then [u] else [u % 0x80 + 0x80] + Uvarint(u / 0x80)
  }

  function Varint(v: int64): bytes {
    Uvarint(ZigZag(v))
  }

  /** What a varint may still hold at its i-th byte. */
  function Room(i: nat): nat
    requires i < MAX_VARINT_LEN64
    decreases MAX_VARINT_LEN64 - i
  {
    if i == MAX_VARINT_LEN64 - 1 then 2 else 0x80 * Room(i + 1)
  }

  lemma RoomValues()
    ensures Room(0) == 0x1_0000_0000_0000_0000
  {
    assert Room(7) == 0x8000;
    assert Room(4) == 0x80 * 0x80 * 0x80 * Room(7);
    assert Room(1) == 0x80 * 0x80 * 0x80 * Room(4);
  }

  function ParseUvarint(s: bytes, i: nat): (p: Parsed<nat>)
    requires i <= MAX_VARINT_LEN64
    ensures p.Ok? ==> i < MAX_VARINT_LEN64 && p.value.0 < Room(i)
    ensures p.Err? ==> p.error != NilToken
    decreases MAX_VARINT_LEN64 - i
  {
    if i == MAX_VARINT_LEN64 then Err(VarintOverflow)
    else if s == [] then Err(UnexpectedEnd)
    else if s[0] < 0x80 then
      if i == MAX_VARINT_LEN64 - 1 && s[0] > 1 then Err(VarintOverflow)
      else
        RoomGrows(i);
        Ok((s[0], s[1..]))
    else
      match ParseUvarint(s[1..], i + 1)
      case Ok(v) => Ok((s[0] - 0x80 + 0x80 * v.0, v.1))
      case Err(e) => Err(e)
  }

  lemma {:induction false} RoomGrows(i: nat)
    requires i < MAX_VARINT_LEN64
    ensures Room(i) >= if i == MAX_VARINT_LEN64 - 1 then 2 else 0x100
    decreases MAX_VARINT_LEN64 - i
  {
    if i < MAX_VARINT_LEN64 - 1 {
      RoomGrows(i + 1);
    }
  }

  function ParseVarint(s: bytes): Parsed<int64> {
    match ParseUvarint(s, 0)
    case Ok(v) => RoomValues(); Ok((UnZigZag(v.0), v.1))
    case Err(e) => Err(e)
  }

  lemma {:induction false} UvarintRoundTrip(u: nat, i: nat, rest: bytes)
    requires i < MAX_VARINT_LEN64 && u < Room(i)
    ensures ParseUvarint(Uvarint(u) + rest, i) == Ok((u, rest))
    decreases MAX_VARINT_LEN64 - i
  {
    var s := Uvarint(u) + rest;
    if u >= 0x80 {
      assert s[1..] == Uvarint(u / 0x80) + rest;
      UvarintRoundTrip(u / 0x80, i + 1, rest);
    } else {
      assert s[1..] == rest;
    }
  }

  lemma VarintRoundTrip(v: int64, rest: bytes)
    ensures ParseVarint(Varint(v) + rest) == Ok((v, rest))
  {
    RoomValues();
    UvarintRoundTrip(ZigZag(v), 0, rest);
  }

  /** Small magnitudes are short: a varint never takes more than ten bytes. */
  lemma {:induction false} UvarintLength(u: nat, i: nat)
    requires i < MAX_VARINT_LEN64 && u < Room(i)
    ensures 1 <= |Uvarint(u)| <= MAX_VARINT_LEN64 - i
    decreases MAX_VARINT_LEN64 - i
  {
    if u >= 0x80 {
      UvarintLength(u / 0x80, i + 1);
    }
  }

  method WriteVarint(w: Sink, v: int64)
    modifies w
    ensures w.out == old(w.out) + Varint(v)
  {
    w.Write(Varint(v));
  }

  method ReadUvarint(r: Source, i: nat) returns (res: Result<nat, WireError>)
    requires i <= MAX_VARINT_LEN64
    modifies r
    ensures Yields(res, ParseUvarint(old(r.rest), i), r.rest)
    decreases MAX_VARINT_LEN64 - i
  {
    if i == MAX_VARINT_LEN64 {
      return Err(VarintOverflow);
    }
    var b := r.ReadByte();
    if b.Err? {
      return Err(b.error);
    }
    var c := b.value;
    if c < 0x80 {
      return if i == MAX_VARINT_LEN64 - 1 && c > 1 then Err(VarintOverflow) else Ok(c);
    }
    res := ReadUvarint(r, i + 1);
    if res.Ok? {
      res := Ok(c - 0x80 + 0x80 * res.value);
    }
  }

  method ReadVarint(r: Source) returns (res: Result<int64, WireError>)
    modifies r
    ensures Yields(res, ParseVarint(old(r.rest)), r.rest)
  {
    var u := ReadUvarint(r, 0);
    if u.Err? {
      return Err(u.error);
    }
    RoomValues();
    return Ok(UnZigZag(u.value));
  }

  // ---------------------------------------------------------------- byte strings

  function LengthPrefixed(b: bytes): bytes
    requires |b| <= MAX_INT64
  {
    Varint(|b|) + b
  }

  const NIL_TOKEN: bytes := Varint(-1)

  function ParseBytes(s: bytes): Parsed<bytes> {
    match ParseVarint(s)
    case Err(e) => Err(e)
    case Ok(v) =>
      var (n, rest) := v;
      if n == -1 then Err(NilToken)
      else if n < -1 || n > MAX_BYTES_LENGTH then Err(InvalidLength)
      else if n == 0 then Ok(([], rest))
      else Take(rest, n)
  }

  lemma BytesRoundTrip(b: bytes, rest: bytes)
    requires |b| <= MAX_BYTES_LENGTH
    ensures ParseBytes(LengthPrefixed(b) + rest) == Ok((b, rest))
  {
    assert LengthPrefixed(b) + rest == Varint(|b|) + (b + rest);
    VarintRoundTrip(|b|, b + rest);
    assert (b + rest)[..|b|] == b && (b + rest)[|b|..] == rest;
  }

  /** A negative length is the nil token or refused. */
  lemma NegativeLengths(n: int64, rest: bytes)
    requires n < 0
    ensures ParseBytes(Varint(n) + rest) == Err(if n == -1 then NilToken else InvalidLength)
  {
    VarintRoundTrip(n, rest);
  }

  /** The limit in figures: byte strings of up to 64 MiB come back, longer ones are refused. */
  lemma BytesLimit(b: bytes, rest: bytes)
    requires |b| <= MAX_INT64
    ensures ParseBytes(LengthPrefixed(b) + rest) == if |b| <= 67108864 then Ok((b, rest)) else Err(InvalidLength)
  {
    if |b| <= MAX_BYTES_LENGTH {
      BytesRoundTrip(b, rest);
    } else {
      LongBytesAreRefused(b, rest);
    }
  }

  /** The writer has no limit of its own: what is longer than the reader's limit is refused by the reader. */
  lemma LongBytesAreRefused(b: bytes, rest: bytes)
    requires MAX_BYTES_LENGTH < |b| <= MAX_INT64
    ensures ParseBytes(LengthPrefixed(b) + rest) == Err(InvalidLength)
  {
    assert LengthPrefixed(b) + rest == Varint(|b|) + (b + rest);
    VarintRoundTrip(|b|, b + rest);
  }

  /** The nil token is never the beginning of a byte string. */
  lemma NilTokenParses(rest: bytes)
    ensures ParseBytes(NIL_TOKEN + rest) == Err(NilToken)
  {
    VarintRoundTrip(-1, rest);
  }

  method WriteBytes(w: Sink, b: bytes)
    requires |b| <= MAX_INT64
    modifies w
    ensures w.out == old(w.out) + LengthPrefixed(b)
  {
    WriteVarint(w, |b|);
    w.Write(b);
  }

  method ReadBytes(r: Source) returns (res: Result<bytes, WireError>)
    modifies r
    ensures Yields(res, ParseBytes(old(r.rest)), r.rest)
    ensures res == Err(NilToken) ==>
              ParseVarint(old(r.rest)).Ok? && r.rest == ParseVarint(old(r.rest)).value.1
  {
    var n := ReadVarint(r);
    if n.Err? {
      return Err(n.error);
    }
    if n.value == -1 {
      return Err(NilToken);
    }
    if n.value < -1 || n.value > MAX_BYTES_LENGTH {
      return Err(InvalidLength);
    }
    if n.value == 0 {
      return Ok([]);
    }
    res := r.ReadFull(n.value);
  }

  // ---------------------------------------------------------------- fixed-width words

  function Pow256(n: nat): (p: nat)
    ensures p >= 1
  {
    if n == 0 then 1 else 0x100 * Pow256(n - 1)
  }

  lemma Pow256Values()
    ensures Pow256(2) == 0x1_0000 && Pow256(4) == 0x1_0000_0000 && Pow256(8) == 0x1_0000_0000_0000_0000
  {
    assert Pow256(2) == 0x1_0000;
    assert Pow256(4) == 0x1_0000 * Pow256(2);
    assert Pow256(6) == 0x1_0000 * Pow256(4);
    assert Pow256(8) == 0x1_0000 * Pow256(6);
  }

  function LittleEndian(u: nat, n: nat): (b: bytes)
    ensures |b| == n
  {
    if n == 0 then [] else [u % 0x100] + LittleEndian(u / 0x100, n - 1)
  }

  function FromLittleEndian(b: bytes): (u: nat)
    ensures u < Pow256(|b|)
  {
    if b == [] then 0 else b[0] + 0x100 * FromLittleEndian(b[1..])
  }

  lemma {:induction false} LittleEndianRoundTrip(u: nat, n: nat)
    requires u < Pow256(n)
    ensures FromLittleEndian(LittleEndian(u, n)) == u
  {
    if n > 0 {
      LittleEndianRoundTrip(u / 0x100, n - 1);
      assert LittleEndian(u, n)[1..] == LittleEndian(u / 0x100, n - 1);
    }
  }

  function BigEndian(u: nat, n: nat): (b: bytes)
    ensures |b| == n
  {
    if n == 0 then [] else BigEndian(u / 0x100, n - 1) + [u % 0x100]
  }

  function FromBigEndian(b: bytes): (u: nat)
    ensures u < Pow256(|b|)
  {
    if b == [] then 0 else FromBigEndian(b[..|b| - 1]) * 0x100 + b[|b| - 1]
  }

  lemma {:induction false} BigEndianRoundTrip(u: nat, n: nat)
    requires u < Pow256(n)
    ensures FromBigEndian(BigEndian(u, n)) == u
  {
    if n > 0 {
      BigEndianRoundTrip(u / 0x100, n - 1);
      assert BigEndian(u, n)[..n - 1] == BigEndian(u / 0x100, n - 1);
    }
  }

  // ---------------------------------------------------------------- more input

  /** More input after what a parser has read changes nothing but what is left. */
  ghost predicate Stable<T>(p: Parsed<T>, longer: Parsed<T>, more: bytes) {
    p.Ok? ==> longer == Ok((p.value.0, p.value.1 + more))
  }

  lemma {:induction false} UvarintExtends(s: bytes, i: nat, more: bytes)
    requires i <= MAX_VARINT_LEN64
    ensures Stable(ParseUvarint(s, i), ParseUvarint(s + more, i), more)
    decreases MAX_VARINT_LEN64 - i
  {
    if i < MAX_VARINT_LEN64 && s != [] {
      assert (s + more)[1..] == s[1..] + more;
      UvarintExtends(s[1..], i + 1, more);
    }
  }

  lemma VarintExtends(s: bytes, more: bytes)
    ensures Stable(ParseVarint(s), ParseVarint(s + more), more)
  {
    hide ParseUvarint;
    UvarintExtends(s, 0, more);
  }

  lemma TakeExtends(s: bytes, n: nat, more: bytes)
    ensures Stable(Take(s, n), Take(s + more, n), more)
  {
    if n <= |s| {
      assert (s + more)[..n] == s[..n] && (s + more)[n..] == s[n..] + more;
    }
  }

  lemma BytesExtend(s: bytes, more: bytes)
    ensures Stable(ParseBytes(s), ParseBytes(s + more), more)
  {
    hide ParseVarint, Take;
    VarintExtends(s, more);
    if ParseVarint(s).Ok? && ParseVarint(s).value.0 > 0 {
      TakeExtends(ParseVarint(s).value.1, ParseVarint(s).value.0, more);
    }
  }

  // ---------------------------------------------------------------- in figures

  /** 150 is the example of the Protocol Buffers encoding guide; small signed numbers alternate. */
  lemma VarintsInFigures()
    ensures Uvarint(150) == [0x96, 0x01]
    ensures Varint(0) == [0] && Varint(-1) == [1] && Varint(1) == [2] && Varint(-2) == [3] && Varint(63) == [126]
    ensures Varint(64) == [0x80, 0x01] && NIL_TOKEN == [1]
  {
    assert Uvarint(1) == [1];
  }

  lemma FixedWidthsInFigures()
    ensures LittleEndian(0x0102_0304, 4) == [4, 3, 2, 1] && BigEndian(0x0102_0304, 4) == [1, 2, 3, 4]
  {
    assert LittleEndian(0x0102, 2) == [2, 1] && BigEndian(0x0102, 2) == [1, 2];
    assert LittleEndian(0x0102_03, 3) == [3] + LittleEndian(0x0102, 2);
    assert BigEndian(0x0102_03, 3) == BigEndian(0x0102, 2) + [3];
  }
}
