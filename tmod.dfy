/** The TMOD container as `unpacktmod` in tmodunpack.py reads it:
      "TMOD" | tmod version (length-prefixed) | 20-byte SHA-1 | 256-byte signature
      | uint32 pack size | packed payload to end of file,
    where the payload is one raw-deflate stream holding
      name | version | uint32 entry count | count x (path | uint32 size | size bytes).
    Hashing, decompression and UTF-8 decoding are library code the parser only
    calls; they are the fields of `Codecs`. */
module Tmod {
  import opened Stream

  const MAGIC: seq<byte> := [84, 77, 79, 68]  // "TMOD"
  const DIGEST_SIZE: nat := 20
  const SIGNATURE_SIZE: nat := 256

  /** `hashlib.sha1(..).digest()`, `zlib.decompress(.., -15)` (None where zlib
      raises) and whether `.decode('utf-8')` succeeds. */
  datatype Codecs = Codecs(
    sha1: seq<byte> -> seq<byte>,
    inflate: seq<byte> -> Option<seq<byte>>,
    utf8: seq<byte> -> bool)

  /** The fields before the payload, and the offset at which the payload starts. */
  datatype Header = Header(
    tmodVersion: seq<byte>,
    digest: seq<byte>,
    signature: seq<byte>,
    packSize: nat,
    packedStart: nat)

  /** One extracted file: the `fpath` it is written to and the `fdata` written. */
  datatype Entry = Entry(path: seq<byte>, data: seq<byte>)

  /** The entry loop's result: the entries read, the position where the last
      entry read ended (where the cursor stands when the loop finishes), and the
      error that ended the loop early, if one did. */
  datatype Scan = Scan(entries: seq<Entry>, end: nat, error: Option<Error>)

  /** The fields in front of the entries of the decompressed payload, and the
      offset of the first entry. */
  datatype Preamble = Preamble(name: seq<byte>, version: seq<byte>, count: nat, entriesStart: nat)

  /** The decompressed payload: name, version, declared entry count, entries. */
  datatype Body = Body(name: seq<byte>, version: seq<byte>, count: nat, scan: Scan)

  /** What `unpacktmod` does with one file: gives up on a wrong magic, lets one
      of the parser's exceptions escape after writing `extracted`, or writes
      `entries` in order. `digestMatches` picks which message is printed. */
  datatype Outcome =
    | NotTmod
    | Aborted(error: Error, extracted: seq<Entry>)
    | Extracted(header: Header, digestMatches: bool, name: seq<byte>, version: seq<byte>, entries: seq<Entry>)

  function HeaderEnd(versionLength: nat): nat {
    |MAGIC| + 1 + versionLength + DIGEST_SIZE + SIGNATURE_SIZE + 4
  }

  /** The header fields after the magic. The 20- and 256-byte reads may come up
      short, but then nothing is left for the pack size and the parse fails, so
      a header that parses starts its payload exactly at `HeaderEnd`. */
  function HeaderAt(file: seq<byte>, utf8: seq<byte> -> bool): (r: Result<Header>)
    requires |MAGIC| <= |file|
    ensures r.Ok? ==> r.value.packedStart <= |file|
  {
    match StringAt(file, |MAGIC|)
    case Err(e) => Err(e)
    case Ok(v) =>
      if !utf8(v.item) then Err(InvalidUtf8)
      else
        var digest := Take(file, v.next, DIGEST_SIZE);
        var signature := Take(file, v.next + |digest|, SIGNATURE_SIZE);
        match UInt32At(file, v.next + |digest| + |signature|)
        case Err(e) => Err(e)
        case Ok(size) => Ok(Header(v.item, digest, signature, size.item, size.next))
  }

  /** The layout a header that parses has: the payload starts exactly at
      `HeaderEnd` of the declared version length, and each field lies at its
      fixed offset. A header parses exactly when the file is long enough and the
      version is valid UTF-8; otherwise the first failing read names the error. */
  lemma HeaderLayout(file: seq<byte>, utf8: seq<byte> -> bool)
    requires |MAGIC| <= |file|
    ensures HeaderAt(file, utf8).Ok? <==>
      |MAGIC| < |file| && HeaderEnd(file[4]) <= |file| && utf8(file[5..5 + file[4]])
    ensures HeaderAt(file, utf8).Ok? ==>
      var h := HeaderAt(file, utf8).value;
      && h.packedStart == HeaderEnd(file[4])
      && h.tmodVersion == file[5..5 + file[4]]
      && h.digest == file[5 + file[4]..25 + file[4]]
      && h.signature == file[25 + file[4]..281 + file[4]]
      && h.packSize == DecodeUInt32(file[281 + file[4]..285 + file[4]])
    ensures |MAGIC| == |file| ==> HeaderAt(file, utf8) == Err(MissingLengthPrefix)
    ensures |MAGIC| < |file| && !utf8(Take(file, 5, file[4])) ==> HeaderAt(file, utf8) == Err(InvalidUtf8)
    ensures |MAGIC| < |file| && utf8(Take(file, 5, file[4])) && |file| < HeaderEnd(file[4]) ==>
      HeaderAt(file, utf8) == Err(ShortUInt32)
  {
  }

  /** The bytes one entry occupies: length byte, path, size field, data. */
  function EntrySize(e: Entry): nat {
    1 + |e.path| + 4 + |e.data|
  }

  function Footprint(es: seq<Entry>): nat {
    if es == [] then 0 else EntrySize(es[0]) + Footprint(es[1..])
  }

  /** One turn of the entry loop: `fpath` (decoded at once), `fsize`, then
      `read(fsize)`, which may return fewer bytes without complaint. */
  function EntryAt(buf: seq<byte>, utf8: seq<byte> -> bool, pos: nat): (r: Result<Parsed<Entry>>)
    requires pos <= |buf|
    ensures r.Ok? ==> r.value.next == pos + EntrySize(r.value.item) <= |buf|
  {
    match StringAt(buf, pos)
    case Err(e) => Err(e)
    case Ok(p) =>
      if !utf8(p.item) then Err(InvalidUtf8)
      else
        match UInt32At(buf, p.next)
        case Err(e) => Err(e)
        case Ok(size) =>
          var data := Take(buf, size.next, size.item);
          Ok(Parsed(Entry(p.item, data), size.next + |data|))
  }

  /** Where an entry's fields lie: a full-length path (a short one leaves no
      bytes for the size), the little-endian size after it, then at most that
      many bytes of data. The entry fails exactly when one of these reads does. */
  lemma EntryLayout(buf: seq<byte>, utf8: seq<byte> -> bool, pos: nat)
    requires pos <= |buf|
    ensures var r := EntryAt(buf, utf8, pos);
      r.Err? <==> pos == |buf| || !utf8(Take(buf, pos + 1, buf[pos])) || |buf| < pos + 5 + buf[pos]
    ensures var r := EntryAt(buf, utf8, pos);
      r.Ok? ==>
        && buf[pos] == |r.value.item.path|
        && r.value.item.path == buf[pos + 1..pos + 1 + buf[pos]]
        && utf8(r.value.item.path)
        && r.value.item.data
           == Take(buf, pos + 5 + buf[pos], DecodeUInt32(buf[pos + 1 + buf[pos]..pos + 5 + buf[pos]]))
  {
  }

  /** `for i in range(n)` over the entries starting at `pos`. */
  function ScanEntries(buf: seq<byte>, utf8: seq<byte> -> bool, pos: nat, n: nat): (r: Scan)
    requires pos <= |buf|
    ensures pos <= r.end <= |buf|
    ensures r.error.None? ==> |r.entries| == n
    ensures r.error.Some? ==> |r.entries| < n
    decreases n
  {
    if n == 0 then Scan([], pos, None)
    else
      match EntryAt(buf, utf8, pos)
      case Err(e) => Scan([], pos, Some(e))
      case Ok(first) =>
        var rest := ScanEntries(buf, utf8, first.next, n - 1);
        Scan([first.item] + rest.entries, rest.end, rest.error)
  }

  /** The entries a scan yields lie back to back: it ends after exactly
      their bytes. */
  lemma {:induction false} ScanFootprint(buf: seq<byte>, utf8: seq<byte> -> bool, pos: nat, n: nat)
    requires pos <= |buf|
    ensures var r := ScanEntries(buf, utf8, pos, n); r.end == pos + Footprint(r.entries)
    decreases n
  {
    if 0 < n && EntryAt(buf, utf8, pos).Ok? {
      var first := EntryAt(buf, utf8, pos).value;
      var rest := ScanEntries(buf, utf8, first.next, n - 1);
      ScanCons(buf, utf8, pos, n, first.item, first.next);
      ScanFootprint(buf, utf8, first.next, n - 1);
      assert rest.end == first.next + Footprint(rest.entries);
      FootprintCons(first.item, rest.entries);
    } else {
      ScanNothing(buf, utf8, pos, n);
    }
  }

  /** Name, version (each decoded as soon as it is read) and entry count. */
  function PreambleAt(body: seq<byte>, utf8: seq<byte> -> bool): (r: Result<Preamble>)
    ensures r.Ok? ==> r.value.entriesStart == 6 + |r.value.name| + |r.value.version| <= |body|
  {
    match StringAt(body, 0)
    case Err(e) => Err(e)
    case Ok(name) =>
      if !utf8(name.item) then Err(InvalidUtf8)
      else
        match StringAt(body, name.next)
        case Err(e) => Err(e)
        case Ok(version) =>
          if !utf8(version.item) then Err(InvalidUtf8)
          else
            match UInt32At(body, version.next)
            case Err(e) => Err(e)
            case Ok(count) => Ok(Preamble(name.item, version.item, count.item, count.next))
  }

  /** The decompressed payload, read from its start. */
  function BodyAt(body: seq<byte>, utf8: seq<byte> -> bool): (r: Result<Body>)
    ensures r.Ok? <==> PreambleAt(body, utf8).Ok?
    ensures r.Ok? ==> r.value.scan.end <= |body|
    ensures r.Ok? && r.value.scan.error.None? ==> |r.value.scan.entries| == r.value.count
    ensures r.Ok? && r.value.scan.error.Some? ==> |r.value.scan.entries| < r.value.count
  {
    match PreambleAt(body, utf8)
    case Err(e) => Err(e)
    case Ok(p) => Ok(Body(p.name, p.version, p.count, ScanEntries(body, utf8, p.entriesStart, p.count)))
  }

  /** Everything `unpacktmod` does with the bytes of one file. */
  function TmodOutcome(file: seq<byte>, c: Codecs): (o: Outcome)
    ensures o.Extracted? ==> o.header.packedStart == HeaderEnd(|o.header.tmodVersion|) <= |file|
    ensures o.Extracted? ==> o.digestMatches == (c.sha1(file[o.header.packedStart..]) == o.header.digest)
  {
    if Take(file, 0, |MAGIC|) != MAGIC then NotTmod
    else
      match HeaderAt(file, c.utf8)
      case Err(e) => Aborted(e, [])
      case Ok(h) =>
        var packed := file[h.packedStart..];
        match c.inflate(packed)
        case None => Aborted(CorruptPayload, [])
        case Some(body) =>
          match BodyAt(body, c.utf8)
          case Err(e) => Aborted(e, [])
          case Ok(b) =>
            if b.scan.error.Some? then Aborted(b.scan.error.value, b.scan.entries)
            else Extracted(h, c.sha1(packed) == h.digest, b.name, b.version, b.scan.entries)
  }

  /** The entries read so far in front of what the rest of the loop reads. */
  function Prepend(done: seq<Entry>, s: Scan): Scan {
    Scan(done + s.entries, s.end, s.error)
  }

  /** `unpacktmod`, step by step over a file stream and a `BytesIO`. */
  method UnpackTmod(file: seq<byte>, c: Codecs) returns (o: Outcome)
    ensures o == TmodOutcome(file, c)
  {
    var f := new ByteStream(file);
    var magic := f.Read(|MAGIC|);
    if magic != MAGIC {
      return NotTmod;
    }
    var header := ReadHeader(f, c.utf8);
    if header.Err? {
      return Aborted(header.error, []);
    }
    var packed := f.ReadAll();
    var digestMatches := c.sha1(packed) == header.value.digest;
    var inflated := c.inflate(packed);
    if inflated.None? {
      return Aborted(CorruptPayload, []);
    }
    var unpacked := new ByteStream(inflated.value);
    var preamble := ReadPreamble(unpacked, c.utf8);
    if preamble.Err? {
      return Aborted(preamble.error, []);
    }
    var scan := ExtractEntries(unpacked, c.utf8, preamble.value.count);
    if scan.error.Some? {
      return Aborted(scan.error.value, scan.entries);
    }
    o := Extracted(header.value, digestMatches, preamble.value.name, preamble.value.version, scan.entries);
  }

  /** The header reads after the magic: version (decoded at once), the 20-byte
      digest, the 256-byte signature and the unused pack size. */
  method ReadHeader(f: ByteStream, utf8: seq<byte> -> bool) returns (r: Result<Header>)
    requires f.Valid() && f.pos == |MAGIC| <= |f.data|
    modifies f
    ensures f.Valid()
    ensures r == HeaderAt(f.data, utf8)
    ensures r.Ok? ==> f.pos == r.value.packedStart
  {
    var tmodVersion := f.ReadTmodString();
    if tmodVersion.Err? {
      return Err(tmodVersion.error);
    }
    if !utf8(tmodVersion.value) {
      return Err(InvalidUtf8);
    }
    var fsha := f.Read(DIGEST_SIZE);
    var signature := f.Read(SIGNATURE_SIZE);
    var packsize := f.ReadUInt32();
    if packsize.Err? {
      return Err(packsize.error);
    }
    r := Ok(Header(tmodVersion.value, fsha, signature, packsize.value, f.pos));
  }

  /** Name, version and `fileamt` from the start of the `BytesIO` buffer. */
  method ReadPreamble(unpacked: ByteStream, utf8: seq<byte> -> bool) returns (r: Result<Preamble>)
    requires unpacked.Valid() && unpacked.pos == 0
    modifies unpacked
    ensures unpacked.Valid()
    ensures r == PreambleAt(unpacked.data, utf8)
    ensures r.Ok? ==> unpacked.pos == r.value.entriesStart
  {
    var name := unpacked.ReadTmodString();
    if name.Err? {
      return Err(name.error);
    }
    if !utf8(name.value) {
      return Err(InvalidUtf8);
    }
    var version := unpacked.ReadTmodString();
    if version.Err? {
      return Err(version.error);
    }
    if !utf8(version.value) {
      return Err(InvalidUtf8);
    }
    var fileamt := unpacked.ReadUInt32();
    if fileamt.Err? {
      return Err(fileamt.error);
    }
    r := Ok(Preamble(name.value, version.value, fileamt.value, unpacked.pos));
  }

  /** One turn of the entry loop: `fpath`, `fsize`, `fdata`. */
  method ReadEntry(unpacked: ByteStream, utf8: seq<byte> -> bool) returns (r: Result<Entry>)
    requires unpacked.Valid()
    modifies unpacked
    ensures unpacked.Valid()
    ensures r.Err? ==> EntryAt(unpacked.data, utf8, old(unpacked.pos)) == Err(r.error)
    ensures r.Ok? ==> EntryAt(unpacked.data, utf8, old(unpacked.pos)) == Ok(Parsed(r.value, unpacked.pos))
  {
    var fpath := unpacked.ReadTmodString();
    if fpath.Err? {
      return Err(fpath.error);
    }
    if !utf8(fpath.value) {
      return Err(InvalidUtf8);
    }
    var fsize := unpacked.ReadUInt32();
    if fsize.Err? {
      return Err(fsize.error);
    }
    var fdata := unpacked.Read(fsize.value);
    r := Ok(Entry(fpath.value, fdata));
  }

  /** The `for i in range(fileamt)` loop of `unpacktmod` on the `BytesIO`
      buffer: it stops at the first exception, keeping what was extracted. */
  method ExtractEntries(unpacked: ByteStream, utf8: seq<byte> -> bool, count: nat) returns (s: Scan)
    requires unpacked.Valid()
    modifies unpacked
    ensures unpacked.Valid()
    ensures s == ScanEntries(unpacked.data, utf8, old(unpacked.pos), count)
    ensures s.error.None? ==> unpacked.pos == s.end
  {
    ghost var all := ScanEntries(unpacked.data, utf8, unpacked.pos, count);
    var extracted: seq<Entry> := [];
    var left := count;
    while left > 0
      invariant unpacked.Valid()
      invariant Prepend(extracted, ScanEntries(unpacked.data, utf8, unpacked.pos, left)) == all
    {
      var here := unpacked.pos;
      var entry := ReadEntry(unpacked, utf8);
      if entry.Err? {
        ScanStops(unpacked.data, utf8, here, left, extracted, all, entry.error);
        return Scan(extracted, here, Some(entry.error));
      }
      ghost var before := extracted;
      extracted := extracted + [entry.value];
      left := left - 1;
      ScanAdvances(unpacked.data, utf8, here, left + 1, left, before, all, entry.value, unpacked.pos);
    }
    ScanFinished(unpacked.data, utf8, unpacked.pos, extracted, all);
    s := Scan(extracted, unpacked.pos, None);
  }

  /** A turn of the loop whose entry fails: the loop's result is what it
      had extracted, stopped where that entry began. */
  lemma ScanStops(buf: seq<byte>, utf8: seq<byte> -> bool, pos: nat, m: nat, done: seq<Entry>, all: Scan, e: Error)
    requires pos <= |buf| && 0 < m && EntryAt(buf, utf8, pos) == Err(e)
    requires Prepend(done, ScanEntries(buf, utf8, pos, m)) == all
    ensures all == Scan(done, pos, Some(e))
  {
    assert done + [] == done;
  }

  /** The loop has run out of entries to read: its result is what it extracted. */
  lemma ScanFinished(buf: seq<byte>, utf8: seq<byte> -> bool, pos: nat, done: seq<Entry>, all: Scan)
    requires pos <= |buf| && Prepend(done, ScanEntries(buf, utf8, pos, 0)) == all
    ensures all == Scan(done, pos, None)
  {
    assert done + [] == done;
  }

  /** A turn of the loop whose entry `e` parses and ends at `next`: `e` joins
      the entries extracted and the rest of the loop starts at `next`. */
  lemma ScanAdvances(buf: seq<byte>, utf8: seq<byte> -> bool, pos: nat, m: nat, left: nat, done: seq<Entry>, all: Scan,
                     e: Entry, next: nat)
    requires pos <= |buf| && left + 1 == m && EntryAt(buf, utf8, pos) == Ok(Parsed(e, next))
    requires Prepend(done, ScanEntries(buf, utf8, pos, m)) == all
    ensures next <= |buf|
    ensures Prepend(done + [e], ScanEntries(buf, utf8, next, left)) == all
  {
    var rest := ScanEntries(buf, utf8, next, left);
    assert ScanEntries(buf, utf8, pos, m) == Prepend([e], rest);
    assert done + ([e] + rest.entries) == (done + [e]) + rest.entries;
  }

  /** A file whose first four bytes are not "TMOD" gives up before any other
      field is read: the outcome does not depend on any codec and holds no entry. */
  lemma WrongMagicStops(file: seq<byte>, c: Codecs)
    ensures TmodOutcome(file, c).NotTmod? <==> !(|MAGIC| <= |file| && file[..|MAGIC|] == MAGIC)
  {
  }

  /** The digest comparison only chooses the message: hashing with any other
      function gives the same header, name, version and entries, and the same
      failures; only `digestMatches` follows the digest. */
  lemma DigestOnlyChangesMessage(file: seq<byte>, c: Codecs, otherSha1: seq<byte> -> seq<byte>)
    ensures var o := TmodOutcome(file, c);
      o.Extracted? ==> o.digestMatches == (c.sha1(file[o.header.packedStart..]) == o.header.digest)
    ensures var o := TmodOutcome(file, c);
      TmodOutcome(file, c.(sha1 := otherSha1)) ==
        if o.Extracted? then o.(digestMatches := otherSha1(file[o.header.packedStart..]) == o.header.digest)
        else o
  {
  }

  /** The declared pack size neither bounds nor moves the payload: writing any
      other value into its four bytes changes nothing but `packSize`. */
  lemma PackSizeIgnored(file: seq<byte>, c: Codecs, size: nat)
    requires |MAGIC| <= |file| && file[..|MAGIC|] == MAGIC
    requires HeaderAt(file, c.utf8).Ok? && size < UINT32_LIMIT
    ensures var start := HeaderAt(file, c.utf8).value.packedStart;
      var other := file[..start - 4] + EncodeUInt32(size) + file[start..];
      var o := TmodOutcome(file, c);
      && HeaderAt(other, c.utf8) == Ok(HeaderAt(file, c.utf8).value.(packSize := size))
      && TmodOutcome(other, c) == if o.Extracted? then o.(header := o.header.(packSize := size)) else o
  {
    var start := HeaderAt(file, c.utf8).value.packedStart;
    var other := file[..start - 4] + EncodeUInt32(size) + file[start..];
    assert |other| == |file|;
    assert other[..start - 4] == file[..start - 4];
    assert other[start - 4..start] == EncodeUInt32(size);
    assert other[start..] == file[start..];
    assert other[..|MAGIC|] == file[..|MAGIC|];
    assert other[4] == file[4];
    var v := file[4] as nat;
    assert other[5..5 + v] == file[5..5 + v];
    assert other[5 + v..25 + v] == file[5 + v..25 + v];
    assert other[25 + v..281 + v] == file[25 + v..281 + v];
    DecodeEncodeUInt32(size);
  }

  lemma FootprintCons(e: Entry, es: seq<Entry>)
    ensures Footprint([e] + es) == EntrySize(e) + Footprint(es)
  {
    assert ([e] + es)[1..] == es;
  }

  /** A scan whose first entry parses is that entry followed by the scan after it. */
  lemma ScanCons(buf: seq<byte>, utf8: seq<byte> -> bool, pos: nat, n: nat, e: Entry, next: nat)
    requires pos <= |buf| && 0 < n && EntryAt(buf, utf8, pos) == Ok(Parsed(e, next))
    ensures next <= |buf|
    ensures ScanEntries(buf, utf8, pos, n) == Prepend([e], ScanEntries(buf, utf8, next, n - 1))
  {
  }

  /** `es` can be read back to back from `pos`: each entry parses where the
      one before it ended. */
  ghost predicate BackToBack(buf: seq<byte>, utf8: seq<byte> -> bool, pos: nat, es: seq<Entry>)
    decreases |es|
  {
    es != [] ==>
      && pos <= |buf|
      && EntryAt(buf, utf8, pos) == Ok(Parsed(es[0], pos + EntrySize(es[0])))
      && BackToBack(buf, utf8, pos + EntrySize(es[0]), es[1..])
  }

  /** Every scan, finished or stopped by an error, yields entries that lie
      back to back from where it started. */
  lemma {:induction false} ScanBackToBack(buf: seq<byte>, utf8: seq<byte> -> bool, pos: nat, n: nat)
    requires pos <= |buf|
    ensures BackToBack(buf, utf8, pos, ScanEntries(buf, utf8, pos, n).entries)
    decreases n
  {
    if 0 < n && EntryAt(buf, utf8, pos).Ok? {
      var first := EntryAt(buf, utf8, pos).value;
      ScanBackToBack(buf, utf8, first.next, n - 1);
      ScanBackToBackStep(buf, utf8, pos, n, first.item, first.next);
    } else {
      ScanNothing(buf, utf8, pos, n);
    }
  }

  /** A first entry that parses, in front of the back-to-back entries of the
      rest of the scan. */
  lemma ScanBackToBackStep(buf: seq<byte>, utf8: seq<byte> -> bool, pos: nat, n: nat, e: Entry, next: nat)
    requires pos <= |buf| && 0 < n && EntryAt(buf, utf8, pos) == Ok(Parsed(e, next))
    requires next <= |buf| && BackToBack(buf, utf8, next, ScanEntries(buf, utf8, next, n - 1).entries)
    ensures BackToBack(buf, utf8, pos, ScanEntries(buf, utf8, pos, n).entries)
  {
    var tail := ScanEntries(buf, utf8, next, n - 1).entries;
    ScanCons(buf, utf8, pos, n, e, next);
    assert ScanEntries(buf, utf8, pos, n).entries == [e] + tail;
    BackToBackCons(buf, utf8, pos, e, tail);
  }

  /** A scan that fails at once, or is asked for no entries, reads none. */
  lemma ScanNothing(buf: seq<byte>, utf8: seq<byte> -> bool, pos: nat, n: nat)
    requires pos <= |buf| && (n == 0 || EntryAt(buf, utf8, pos).Err?)
    ensures ScanEntries(buf, utf8, pos, n).entries == [] && ScanEntries(buf, utf8, pos, n).end == pos
  {
  }

  /** An entry that parses where it stands, in front of entries lying back to
      back after it. */
  lemma BackToBackCons(buf: seq<byte>, utf8: seq<byte> -> bool, pos: nat, e: Entry, tail: seq<Entry>)
    requires pos <= |buf| && EntryAt(buf, utf8, pos) == Ok(Parsed(e, pos + EntrySize(e)))
    requires BackToBack(buf, utf8, pos + EntrySize(e), tail)
    ensures BackToBack(buf, utf8, pos, [e] + tail)
  {
    assert ([e] + tail)[0] == e && ([e] + tail)[1..] == tail;
  }

  /** Conversely, entries that lie back to back are exactly what a scan for
      that many entries reads: it finishes, right after the last of them. */
  lemma {:induction false} BackToBackScan(buf: seq<byte>, utf8: seq<byte> -> bool, pos: nat, es: seq<Entry>)
    requires pos <= |buf| && BackToBack(buf, utf8, pos, es)
    ensures ScanEntries(buf, utf8, pos, |es|) == Scan(es, pos + Footprint(es), None)
    decreases |es|
  {
    if es == [] {
      assert ScanEntries(buf, utf8, pos, 0) == Scan([], pos, None);
    } else {
      var next := pos + EntrySize(es[0]);
      BackToBackScan(buf, utf8, next, es[1..]);
      ScanFinishes(buf, utf8, pos, |es|, es[0], next, es[1..]);
      assert [es[0]] + es[1..] == es;
    }
  }

  /** A first entry that parses, followed by a scan that finishes, is a scan
      that finishes. */
  lemma ScanFinishes(buf: seq<byte>, utf8: seq<byte> -> bool, pos: nat, n: nat, e: Entry, next: nat, tail: seq<Entry>)
    requires pos <= |buf| && 0 < n && EntryAt(buf, utf8, pos) == Ok(Parsed(e, next))
    requires next <= |buf| && ScanEntries(buf, utf8, next, n - 1) == Scan(tail, next + Footprint(tail), None)
    ensures ScanEntries(buf, utf8, pos, n) == Scan([e] + tail, pos + Footprint([e] + tail), None)
  {
    FootprintCons(e, tail);
  }

  /** A file that is extracted completely yields exactly `fileamt` entries,
      read back to back from the first byte after the count: the loop ends
      right after the last entry's data. */
  lemma ExtractedAll(file: seq<byte>, c: Codecs)
    ensures var o := TmodOutcome(file, c);
      o.Extracted? ==>
        && c.inflate(file[o.header.packedStart..]).Some?
        && var body := c.inflate(file[o.header.packedStart..]).value;
        && PreambleAt(body, c.utf8).Ok?
        && var p := PreambleAt(body, c.utf8).value;
        && o.name == p.name && o.version == p.version
        && |o.entries| == p.count
        && BackToBack(body, c.utf8, p.entriesStart, o.entries)
        && ScanEntries(body, c.utf8, p.entriesStart, p.count).end == p.entriesStart + Footprint(o.entries)
  {
    var o := TmodOutcome(file, c);
    if o.Extracted? {
      var body := c.inflate(file[o.header.packedStart..]).value;
      var p := PreambleAt(body, c.utf8).value;
      ScanFootprint(body, c.utf8, p.entriesStart, p.count);
      ScanBackToBack(body, c.utf8, p.entriesStart, p.count);
    }
  }
}
