/** The writer's side of the TMOD layout that `unpacktmod` reads: serialisers
    for the decompressed payload and for the container around it, and the
    round trips that parsing their output completes. */
module Layout {
  import opened Stream
  import opened Tmod

  /** An entry the layout can hold: a path of at most 255 bytes and data whose
      length fits the 32-bit size field. */
  predicate Encodable(e: Entry) {
    |e.path| < 256 && |e.data| < UINT32_LIMIT
  }

  predicate AllEncodable(es: seq<Entry>) {
    forall i :: 0 <= i < |es| ==> Encodable(es[i])
  }

  /** Every path is one that `.decode('utf-8')` accepts. */
  predicate PathsDecode(es: seq<Entry>, utf8: seq<byte> -> bool) {
    forall i :: 0 <= i < |es| ==> utf8(es[i].path)
  }

  /** path | uint32 size | data. */
  function EncodeEntry(e: Entry): (r: seq<byte>)
    requires Encodable(e)
    ensures |r| == EntrySize(e)
  {
    EncodeString(e.path) + (EncodeUInt32(|e.data|) + e.data)
  }

  function EncodeEntries(es: seq<Entry>): (r: seq<byte>)
    requires AllEncodable(es)
    ensures |r| == Footprint(es)
  {
    if es == [] then [] else EncodeEntry(es[0]) + EncodeEntries(es[1..])
  }

  /** name | version | uint32 entry count | entries: what the payload inflates to. */
  function EncodeBody(name: seq<byte>, version: seq<byte>, es: seq<Entry>): (r: seq<byte>)
    requires |name| < 256 && |version| < 256 && |es| < UINT32_LIMIT && AllEncodable(es)
    ensures |r| == 1 + |name| + 1 + |version| + 4 + Footprint(es)
  {
    EncodeString(name) + (EncodeString(version) + (EncodeUInt32(|es|) + EncodeEntries(es)))
  }

  /** "TMOD" | tmod version | digest | signature | uint32 pack size | payload. */
  function EncodeContainer(tmodVersion: seq<byte>, digest: seq<byte>, signature: seq<byte>,
                           packSize: nat, packed: seq<byte>): (r: seq<byte>)
    requires |tmodVersion| < 256 && |digest| == DIGEST_SIZE && |signature| == SIGNATURE_SIZE
    requires packSize < UINT32_LIMIT
    ensures |r| == HeaderEnd(|tmodVersion|) + |packed|
  {
    MAGIC + (EncodeString(tmodVersion) + (digest + (signature + (EncodeUInt32(packSize) + packed))))
  }

  /** A buffer that continues at `pos` with `a` and then `rest` holds `a`
      right there and `rest` after it. */
  lemma Split(buf: seq<byte>, pos: nat, a: seq<byte>, rest: seq<byte>)
    requires pos <= |buf| && buf[pos..] == a + rest
    ensures pos + |a| <= |buf| && buf[pos..pos + |a|] == a && buf[pos + |a|..] == rest
  {
    assert buf[pos..pos + |a|] == buf[pos..][..|a|];
    assert buf[pos + |a|..] == buf[pos..][|a|..];
  }

  /** An encoded entry in a buffer parses back to that entry, and the next
      entry starts right after it. */
  lemma EntryAtEncoded(buf: seq<byte>, utf8: seq<byte> -> bool, pos: nat, e: Entry, rest: seq<byte>)
    requires Encodable(e) && utf8(e.path)
    requires pos <= |buf| && buf[pos..] == EncodeEntry(e) + rest
    ensures EntryAt(buf, utf8, pos) == Ok(Parsed(e, pos + EntrySize(e)))
    ensures buf[pos + EntrySize(e)..] == rest
  {
    var size := EncodeUInt32(|e.data|);
    var afterPath := pos + 1 + |e.path|;
    assert EncodeEntry(e) + rest == EncodeString(e.path) + (size + (e.data + rest));
    StringAtEncoded(buf, pos, e.path, size + (e.data + rest));
    UInt32AtEncoded(buf, afterPath, |e.data|, e.data + rest);
    Split(buf, afterPath + 4, e.data, rest);
    assert Take(buf, afterPath + 4, |e.data|) == e.data;
    EntryAtParts(buf, utf8, pos, e);
  }

  /** An entry parses when its path, its size and its data are read in turn. */
  lemma EntryAtParts(buf: seq<byte>, utf8: seq<byte> -> bool, pos: nat, e: Entry)
    requires pos + 1 + |e.path| <= |buf| && utf8(e.path)
    requires StringAt(buf, pos) == Ok(Parsed(e.path, pos + 1 + |e.path|))
    requires UInt32At(buf, pos + 1 + |e.path|) == Ok(Parsed(|e.data|, pos + 5 + |e.path|))
    requires Take(buf, pos + 5 + |e.path|, |e.data|) == e.data
    ensures EntryAt(buf, utf8, pos) == Ok(Parsed(e, pos + EntrySize(e)))
  {
  }

  /** What holds of all entries holds of all but the first. */
  lemma TailEncodable(es: seq<Entry>, utf8: seq<byte> -> bool)
    requires es != [] && AllEncodable(es) && PathsDecode(es, utf8)
    ensures Encodable(es[0]) && utf8(es[0].path)
    ensures AllEncodable(es[1..]) && PathsDecode(es[1..], utf8)
  {
    forall i | 0 <= i < |es[1..]|
      ensures Encodable(es[1..][i]) && utf8(es[1..][i].path)
    {
      assert es[1..][i] == es[i + 1];
    }
  }

  /** The encoding of some entries is the first one's followed by the others'. */
  lemma EncodeEntriesCons(es: seq<Entry>, rest: seq<byte>)
    requires es != [] && AllEncodable(es)
    ensures AllEncodable(es[1..])
    ensures EncodeEntries(es) + rest == EncodeEntry(es[0]) + (EncodeEntries(es[1..]) + rest)
  {
    assert AllEncodable(es[1..]) by {
      forall i | 0 <= i < |es[1..]|
        ensures Encodable(es[1..][i])
      {
        assert es[1..][i] == es[i + 1];
      }
    }
  }

  /** `es` lies in `buf` from `pos` on, each entry's encoding right after the
      one before it. */
  ghost predicate Laid(buf: seq<byte>, pos: nat, es: seq<Entry>)
    requires AllEncodable(es)
    decreases |es|
  {
    es != [] ==>
      && pos + EntrySize(es[0]) <= |buf|
      && buf[pos..pos + EntrySize(es[0])] == EncodeEntry(es[0])
      && AllEncodable(es[1..])
      && Laid(buf, pos + EntrySize(es[0]), es[1..])
  }

  /** Bytes that continue with the encoded entries hold them laid out one after another. */
  lemma {:induction false} EncodedLaid(buf: seq<byte>, pos: nat, es: seq<Entry>, rest: seq<byte>)
    requires AllEncodable(es)
    requires pos <= |buf| && buf[pos..] == EncodeEntries(es) + rest
    ensures Laid(buf, pos, es)
    decreases |es|
  {
    if es != [] {
      EncodeEntriesCons(es, rest);
      Split(buf, pos, EncodeEntry(es[0]), EncodeEntries(es[1..]) + rest);
      EncodedLaid(buf, pos + EntrySize(es[0]), es[1..], rest);
    }
  }

  /** An entry whose encoding occupies `buf` from `pos` on parses there. */
  lemma EntryAtSlice(buf: seq<byte>, utf8: seq<byte> -> bool, pos: nat, e: Entry)
    requires Encodable(e) && utf8(e.path)
    requires pos + EntrySize(e) <= |buf| && buf[pos..pos + EntrySize(e)] == EncodeEntry(e)
    ensures EntryAt(buf, utf8, pos) == Ok(Parsed(e, pos + EntrySize(e)))
  {
    assert buf[pos..] == EncodeEntry(e) + buf[pos + EntrySize(e)..];
    EntryAtEncoded(buf, utf8, pos, e, buf[pos + EntrySize(e)..]);
  }

  /** Laid-out entries whose paths decode are read back to back. */
  lemma {:induction false} LaidBackToBack(buf: seq<byte>, utf8: seq<byte> -> bool, pos: nat, es: seq<Entry>)
    requires AllEncodable(es) && PathsDecode(es, utf8)
    requires pos <= |buf| && Laid(buf, pos, es)
    ensures BackToBack(buf, utf8, pos, es)
    decreases |es|
  {
    if es != [] {
      TailEncodable(es, utf8);
      EntryAtSlice(buf, utf8, pos, es[0]);
      LaidBackToBack(buf, utf8, pos + EntrySize(es[0]), es[1..]);
    }
  }

  /** Encoded entries parse back to themselves: a loop over as many as were
      written reads each of them, finishes, and stops right after the last. */
  lemma ScanEncoded(buf: seq<byte>, utf8: seq<byte> -> bool, pos: nat, es: seq<Entry>, rest: seq<byte>)
    requires AllEncodable(es) && PathsDecode(es, utf8)
    requires pos <= |buf| && buf[pos..] == EncodeEntries(es) + rest
    ensures ScanEntries(buf, utf8, pos, |es|) == Scan(es, pos + Footprint(es), None)
  {
    EncodedLaid(buf, pos, es, rest);
    LaidBackToBack(buf, utf8, pos, es);
    BackToBackScan(buf, utf8, pos, es);
  }

  /** The fields in front of the entries come back, and the entries follow. */
  lemma PreambleAtEncoded(name: seq<byte>, version: seq<byte>, es: seq<Entry>, utf8: seq<byte> -> bool)
    requires |name| < 256 && |version| < 256 && |es| < UINT32_LIMIT && AllEncodable(es)
    requires utf8(name) && utf8(version)
    ensures var body := EncodeBody(name, version, es);
      var start := 6 + |name| + |version|;
      && start <= |body|
      && PreambleAt(body, utf8) == Ok(Preamble(name, version, |es|, start))
      && body[start..] == EncodeEntries(es)
  {
    var body := EncodeBody(name, version, es);
    var entries := EncodeEntries(es);
    var afterName := 1 + |name|;
    var afterVersion := afterName + 1 + |version|;
    assert body[0..] == body;
    StringAtEncoded(body, 0, name, EncodeString(version) + (EncodeUInt32(|es|) + entries));
    StringAtEncoded(body, afterName, version, EncodeUInt32(|es|) + entries);
    assert entries == entries + [];
    UInt32AtEncoded(body, afterVersion, |es|, entries);
  }

  /** A payload's entries, when its bytes from `start` on are exactly the
      encoded entries, are those entries, and the loop ends at its last byte. */
  lemma EntriesEncodedToEnd(body: seq<byte>, utf8: seq<byte> -> bool, start: nat, es: seq<Entry>)
    requires AllEncodable(es) && PathsDecode(es, utf8)
    requires start <= |body| && body[start..] == EncodeEntries(es)
    ensures ScanEntries(body, utf8, start, |es|) == Scan(es, |body|, None)
  {
    assert body[start..] == EncodeEntries(es) + [];
    ScanEncoded(body, utf8, start, es, []);
  }

  /** `BodyAt` is the preamble followed by the scan of as many entries as it announces. */
  lemma BodyAtParts(body: seq<byte>, utf8: seq<byte> -> bool, name: seq<byte>, version: seq<byte>,
                    count: nat, start: nat, s: Scan)
    requires PreambleAt(body, utf8) == Ok(Preamble(name, version, count, start))
    requires start <= |body| && ScanEntries(body, utf8, start, count) == s
    ensures BodyAt(body, utf8) == Ok(Body(name, version, count, s))
  {
  }

  /** A payload whose preamble parses and whose remaining bytes are exactly
      the encoded entries it announces. */
  lemma BodyAtEncodedEntries(body: seq<byte>, utf8: seq<byte> -> bool, name: seq<byte>, version: seq<byte>,
                             es: seq<Entry>, start: nat)
    requires AllEncodable(es) && PathsDecode(es, utf8)
    requires PreambleAt(body, utf8) == Ok(Preamble(name, version, |es|, start))
    requires start <= |body| && body[start..] == EncodeEntries(es)
    ensures BodyAt(body, utf8) == Ok(Body(name, version, |es|, Scan(es, |body|, None)))
  {
    EntriesEncodedToEnd(body, utf8, start, es);
    BodyAtParts(body, utf8, name, version, |es|, start, Scan(es, |body|, None));
  }

  /** The decompressed payload round trip: reading what `EncodeBody` wrote
      gives back the name, the version, the count and every entry, and the
      loop ends exactly at the end of the buffer. */
  lemma ParseEncodedBody(name: seq<byte>, version: seq<byte>, es: seq<Entry>, utf8: seq<byte> -> bool)
    requires |name| < 256 && |version| < 256 && |es| < UINT32_LIMIT && AllEncodable(es)
    requires utf8(name) && utf8(version) && PathsDecode(es, utf8)
    ensures BodyAt(EncodeBody(name, version, es), utf8)
         == Ok(Body(name, version, |es|, Scan(es, |EncodeBody(name, version, es)|, None)))
  {
    PreambleAtEncoded(name, version, es, utf8);
    BodyAtEncodedEntries(EncodeBody(name, version, es), utf8, name, version, es, 6 + |name| + |version|);
  }

  /** The header round trip: the fields `EncodeContainer` wrote come back, and
      the payload is found right after them. */
  lemma HeaderAtEncoded(tmodVersion: seq<byte>, digest: seq<byte>, signature: seq<byte>,
                        packSize: nat, packed: seq<byte>, utf8: seq<byte> -> bool)
    requires |tmodVersion| < 256 && |digest| == DIGEST_SIZE && |signature| == SIGNATURE_SIZE
    requires packSize < UINT32_LIMIT && utf8(tmodVersion)
    ensures var file := EncodeContainer(tmodVersion, digest, signature, packSize, packed);
      && Take(file, 0, |MAGIC|) == MAGIC
      && HeaderAt(file, utf8) == Ok(Header(tmodVersion, digest, signature, packSize, HeaderEnd(|tmodVersion|)))
      && file[HeaderEnd(|tmodVersion|)..] == packed
  {
    var file := EncodeContainer(tmodVersion, digest, signature, packSize, packed);
    var size := EncodeUInt32(packSize);
    var v := |tmodVersion|;
    assert file[0..] == file;
    Split(file, 0, MAGIC, EncodeString(tmodVersion) + (digest + (signature + (size + packed))));
    StringAtEncoded(file, 4, tmodVersion, digest + (signature + (size + packed)));
    Split(file, 5 + v, digest, signature + (size + packed));
    Split(file, 25 + v, signature, size + packed);
    UInt32AtEncoded(file, 281 + v, packSize, packed);
  }

  /** The whole round trip: a container whose payload inflates to an encoded
      body is extracted completely, entry for entry, and the digest check only
      compares the declared digest with the hash of the payload. */
  lemma UnpackEncodedContainer(tmodVersion: seq<byte>, digest: seq<byte>, signature: seq<byte>,
                               packSize: nat, packed: seq<byte>,
                               name: seq<byte>, version: seq<byte>, es: seq<Entry>, c: Codecs)
    requires |tmodVersion| < 256 && |digest| == DIGEST_SIZE && |signature| == SIGNATURE_SIZE
    requires packSize < UINT32_LIMIT && c.utf8(tmodVersion)
    requires |name| < 256 && |version| < 256 && |es| < UINT32_LIMIT && AllEncodable(es)
    requires c.utf8(name) && c.utf8(version) && PathsDecode(es, c.utf8)
    requires c.inflate(packed) == Some(EncodeBody(name, version, es))
    ensures TmodOutcome(EncodeContainer(tmodVersion, digest, signature, packSize, packed), c)
         == Extracted(Header(tmodVersion, digest, signature, packSize, HeaderEnd(|tmodVersion|)),
                      c.sha1(packed) == digest, name, version, es)
  {
    HeaderAtEncoded(tmodVersion, digest, signature, packSize, packed, c.utf8);
    ParseEncodedBody(name, version, es, c.utf8);
  }
}
