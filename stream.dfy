/** The byte cursor that tmodunpack.py reads the archive with: the file object
    `f` and the in-memory `io.BytesIO` buffer, both only ever read forwards with
    `read(n)`, `read()`, `readTmodString` and `readUInt32`. */
module Stream {

  /** One octet of a Python `bytes` value. */
  type byte = b: int | 0 <= b < 256

  const UINT32_LIMIT: nat := 0x1_0000_0000

  datatype Option<T> = None | Some(value: T)

  /** The exceptions that a malformed archive raises out of the parser. */
  datatype Error =
    | MissingLengthPrefix  // IndexError: `f.read(1)[0]` on an exhausted stream
    | ShortUInt32          // struct.error: `struct.unpack('<I', b)` on fewer than four bytes
    | InvalidUtf8          // UnicodeDecodeError from `.decode('utf-8')`
    | CorruptPayload       // zlib.error from the raw-deflate decompressor

  datatype Result<T> = Ok(value: T) | Err(error: Error)

  /** A value decoded at some position, with the position just past it. */
  datatype Parsed<T> = Parsed(item: T, next: nat)

  function Min(a: nat, b: nat): nat {
    if a <= b then a else b
  }

  /** What `read(n)` returns when the stream over `buf` stands at `pos`:
      the next `n` bytes, or every byte that is left when fewer remain. */
  function Take(buf: seq<byte>, pos: nat, n: nat): (r: seq<byte>)
    requires pos <= |buf|
    ensures |r| <= n && pos + |r| <= |buf|
    ensures |r| == n || pos + |r| == |buf|
  {
    buf[pos..Min(pos + n, |buf|)]
  }

  /** The little-endian unsigned value of four bytes (`struct.unpack('<I', b)`). */
  function DecodeUInt32(b: seq<byte>): (n: nat)
    requires |b| == 4
    ensures n < UINT32_LIMIT
  {
    b[0] as int + 256 * (b[1] as int) + 65536 * (b[2] as int) + 16777216 * (b[3] as int)
  }

  /** The four little-endian bytes of a 32-bit unsigned value (`struct.pack('<I', n)`). */
  function EncodeUInt32(n: nat): (b: seq<byte>)
    requires n < UINT32_LIMIT
    ensures |b| == 4
  {
    [n % 256, (n / 256) % 256, (n / 65536) % 256, n / 16777216]
  }

  /** Division by 256 splits off the low byte. */
  lemma DivMod256(x: int, lo: int, hi: int)
    requires 0 <= lo < 256 && x == lo + 256 * hi
    ensures x / 256 == hi && x % 256 == lo
  {
  }

  lemma DecodeEncodeUInt32(n: nat)
    requires n < UINT32_LIMIT
    ensures DecodeUInt32(EncodeUInt32(n)) == n
  {
    var q1 := n / 256;
    var q2 := q1 / 256;
    DivMod256(n, n % 256, q1);
    DivMod256(q1, q1 % 256, q2);
    DivMod256(q2, q2 % 256, q2 / 256);
    assert n / 65536 == q2;
    assert n / 16777216 == q2 / 256;
  }

  lemma EncodeDecodeUInt32(b: seq<byte>)
    requires |b| == 4
    ensures EncodeUInt32(DecodeUInt32(b)) == b
  {
    var n := DecodeUInt32(b);
    var q2 := b[2] as int + 256 * (b[3] as int);
    var q1 := b[1] as int + 256 * q2;
    DivMod256(n, b[0], q1);
    DivMod256(q1, b[1], q2);
    DivMod256(q2, b[2], b[3]);
    assert n / 65536 == q2;
    assert n / 16777216 == b[3];
  }

  /** `readTmodString` on `buf` at `pos`: a one-byte length `L`, then `read(L)`. */
  function StringAt(buf: seq<byte>, pos: nat): (r: Result<Parsed<seq<byte>>>)
    requires pos <= |buf|
    ensures r.Err? <==> pos == |buf|
    ensures r.Err? ==> r.error == MissingLengthPrefix
    ensures r.Ok? ==> r.value.next == pos + 1 + |r.value.item| <= |buf|
  {
    if pos == |buf| then Err(MissingLengthPrefix)
    else
      var s := Take(buf, pos + 1, buf[pos]);
      Ok(Parsed(s, pos + 1 + |s|))
  }

  /** What `readTmodString` returns: the `L` bytes after the length byte `L`,
      fewer only when the data ends first; it fails, rather than returning an
      empty string, when no byte is left for the length. */
  lemma StringLayout(buf: seq<byte>, pos: nat)
    requires pos <= |buf|
    ensures StringAt(buf, pos).Err? <==> pos == |buf|
    ensures StringAt(buf, pos).Ok? ==>
      var s := StringAt(buf, pos).value;
      && |s.item| <= buf[pos]
      && s.item == buf[pos + 1..s.next]
      && (|s.item| == buf[pos] || s.next == |buf|)
  {
  }

  /** `readUInt32` on `buf` at `pos`. */
  function UInt32At(buf: seq<byte>, pos: nat): (r: Result<Parsed<nat>>)
    requires pos <= |buf|
    ensures r.Err? <==> |buf| - pos < 4
    ensures r.Err? ==> r.error == ShortUInt32
    ensures r.Ok? ==> r.value.next == pos + 4 <= |buf| && r.value.item < UINT32_LIMIT
  {
    var b := Take(buf, pos, 4);
    if |b| < 4 then Err(ShortUInt32)
    else Ok(Parsed(DecodeUInt32(b), pos + 4))
  }

  /** What `readUInt32` returns: `b0 + 256*b1 + 65536*b2 + 16777216*b3` of the
      next four bytes, always below 2^32; a failure when fewer than four remain. */
  lemma UInt32Layout(buf: seq<byte>, pos: nat)
    requires pos <= |buf|
    ensures UInt32At(buf, pos).Err? <==> |buf| - pos < 4
    ensures UInt32At(buf, pos).Ok? ==>
      && UInt32At(buf, pos).value.next == pos + 4
      && UInt32At(buf, pos).value.item < UINT32_LIMIT
      && UInt32At(buf, pos).value.item
         == buf[pos] as int + 256 * (buf[pos + 1] as int) + 65536 * (buf[pos + 2] as int) + 16777216 * (buf[pos + 3] as int)
  {
  }

  /** The layout `readTmodString` reads: a one-byte length, then the bytes. */
  function EncodeString(s: seq<byte>): (r: seq<byte>)
    requires |s| < 256
    ensures |r| == 1 + |s|
  {
    [|s|] + s
  }

  /** `readTmodString` reads back what `EncodeString` wrote, leaving the
      cursor in front of whatever follows. */
  lemma StringAtEncoded(buf: seq<byte>, pos: nat, s: seq<byte>, rest: seq<byte>)
    requires |s| < 256 && pos <= |buf| && buf[pos..] == EncodeString(s) + rest
    ensures StringAt(buf, pos) == Ok(Parsed(s, pos + 1 + |s|))
    ensures buf[pos + 1 + |s|..] == rest
  {
    assert buf[pos] == buf[pos..][0];
    assert buf[pos + 1..pos + 1 + |s|] == buf[pos..][1..1 + |s|];
    assert buf[pos + 1 + |s|..] == buf[pos..][1 + |s|..];
  }

  /** `readUInt32` reads back what `EncodeUInt32` wrote. */
  lemma UInt32AtEncoded(buf: seq<byte>, pos: nat, n: nat, rest: seq<byte>)
    requires n < UINT32_LIMIT && pos <= |buf| && buf[pos..] == EncodeUInt32(n) + rest
    ensures UInt32At(buf, pos) == Ok(Parsed(n, pos + 4))
    ensures buf[pos + 4..] == rest
  {
    assert Take(buf, pos, 4) == buf[pos..][..4];
    assert buf[pos + 4..] == buf[pos..][4..];
    DecodeEncodeUInt32(n);
  }

  /** A forward-only stream over immutable bytes: Python's file object opened
      with 'br', or an `io.BytesIO`. Only the position changes. */
  class ByteStream {
    const data: seq<byte>
    var pos: nat

    ghost predicate Valid()
      reads this
    {
      pos <= |data|
    }

    constructor (bytes: seq<byte>)
      ensures Valid() && data == bytes && pos == 0
    {
      data := bytes;
      pos := 0;
    }

    /** `read(n)`: at most `n` bytes, short only at the end of the data. */
    method Read(n: nat) returns (r: seq<byte>)
      requires Valid()
      modifies this
      ensures Valid()
      ensures r == Take(data, old(pos), n)
      ensures pos == old(pos) + |r|
    {
      r := Take(data, pos, n);
      pos := pos + |r|;
    }

    /** `read()`: everything from the position to the end. */
    method ReadAll() returns (r: seq<byte>)
      requires Valid()
      modifies this
      ensures Valid()
      ensures r == data[old(pos)..] && pos == |data|
    {
      r := data[pos..];
      pos := |data|;
    }

    /** `readTmodString`: the cursor passes the length byte and the bytes
        returned; with no byte left for the length it fails where it stands. */
    method ReadTmodString() returns (r: Result<seq<byte>>)
      requires Valid()
      modifies this
      ensures Valid()
      ensures old(pos) == |data| ==> r == Err(MissingLengthPrefix) && pos == old(pos)
      ensures old(pos) < |data| ==>
        r == Ok(StringAt(data, old(pos)).value.item) && pos == StringAt(data, old(pos)).value.next
    {
      var prefix := Read(1);
      if |prefix| == 0 {
        return Err(MissingLengthPrefix);
      }
      var s := Read(prefix[0]);
      r := Ok(s);
    }

    /** `readUInt32`: four bytes, little-endian; on fewer than four the short
        read has already moved the cursor to the end of the data. */
    method ReadUInt32() returns (r: Result<nat>)
      requires Valid()
      modifies this
      ensures Valid()
      ensures |data| - old(pos) < 4 ==> r == Err(ShortUInt32) && pos == |data|
      ensures |data| - old(pos) >= 4 ==>
        r == Ok(UInt32At(data, old(pos)).value.item) && pos == old(pos) + 4
    {
      var b := Read(4);
      if |b| != 4 {
        return Err(ShortUInt32);
      }
      r := Ok(DecodeUInt32(b));
    }
  }
}
