# TMOD unpacker: a verified model of its parser

`tmodunpack.py` reads a tModLoader `.tmod` archive and writes out the files it holds.
The file starts with a header:

- the magic `"TMOD"`;
- a length-prefixed tmod version string;
- a 20-byte SHA-1 of the payload;
- a 256-byte signature;
- a little-endian `uint32` pack size.

Every byte after the header is the packed payload: one raw-deflate stream. Once
inflated, the payload holds:

- a length-prefixed mod name;
- a length-prefixed mod version;
- a `uint32` entry count `fileamt`;
- `fileamt` entries, each a length-prefixed path, a `uint32` size and that many bytes of data.

This project models the parsing side of `unpacktmod` in Dafny. The model is
imperative where the program is. A `ByteStream` class, with an immutable byte
sequence and a mutable position, stands for both the file object and the
`io.BytesIO` buffer. Its reader methods model `f.read(n)`, `f.read()`,
`readTmodString` and `readUInt32`. `UnpackTmod` runs the same steps as
`unpacktmod`, including the `for i in range(fileamt)` loop (`ExtractEntries`).
Each method is proved against a specification function that reads the same
bytes by position:

- `StringAt`, `UInt32At`, `HeaderAt`, `PreambleAt`, `EntryAt`, `ScanEntries`;
- `TmodOutcome`, which describes the whole run.

The properties of the format are proved about those functions.

The hash, the raw-deflate decompressor and the UTF-8 check are library code the
program only calls. They are passed in as the fields of `Codecs`. The exceptions
that escape `unpacktmod` are not caught by its `except OSError`. They become the
`Aborted(error, extracted)` outcome, which keeps the entries already written:

- `IndexError`, when the length prefix of a string is missing;
- `struct.error`, from a short `uint32`;
- `UnicodeDecodeError`;
- `zlib.error`.

A serialiser for the container and for the decompressed payload is in `layout.dfy`, with the round trips:

- parsing an encoded body gives back its name, its version and every entry, and ends exactly at the end of the buffer;
- parsing an encoded container extracts everything.

Files: `stream.dfy` (module `Stream`), `tmod.dfy` (module `Tmod`), `layout.dfy` (module `Layout`).

Two behaviours of `tmodunpack.py` are kept as written:

- A short `read(20)`, `read(256)` or `read(fsize)` raises nothing.
  - After a short `read(20)` or `read(256)` no bytes are left for the pack
    size, so a header parses only when it is complete (`Tmod.HeaderLayout`).
  - A short `read(fsize)` silently truncates the entry's data: `data` is
    whatever the read returns (`Tmod.EntryAt`, `Tmod.EntryLayout`).
- Only `OSError` is caught. The parser's own exceptions escape `unpacktmod`
  (`Outcome.Aborted`).

## Model

| member | source | states |
|---|---|---|
| Stream.Take | tmodunpack.py:16 | `read(n)` returns at most `n` bytes and stays inside the data; it is short only at the end of the data |
| Stream.StringAt | tmodunpack.py:14-16 | `readTmodString` fails with `IndexError` exactly when no byte is left; otherwise the cursor passes the length byte and the bytes returned |
| Stream.StringLayout | tmodunpack.py:14-16 | the returned string is the bytes after the length byte `L`; there are at most `L` of them, fewer only when the data ends; it fails, instead of returning empty, only on an exhausted stream |
| Stream.UInt32At | tmodunpack.py:19-21 | `readUInt32` fails exactly when fewer than four bytes remain; otherwise it advances by 4 and returns a value below 2^32 |
| Stream.UInt32Layout | tmodunpack.py:19-21 | the value is `b0 + 256*b1 + 65536*b2 + 16777216*b3` of the next four bytes, it is below 2^32, and the cursor moves by 4 |
| Stream.DecodeUInt32 | tmodunpack.py:21 | `struct.unpack('<I', b)` of four bytes is always below 2^32 |
| Stream.DecodeEncodeUInt32 | tmodunpack.py:21 | little-endian decoding inverts little-endian encoding for every 32-bit value |
| Stream.EncodeDecodeUInt32 | tmodunpack.py:21 | every four bytes are the encoding of the value decoded from them |
| Stream.StringAtEncoded | tmodunpack.py:14-16 | a length-prefixed string is read back whole and the cursor stops right after it |
| Stream.UInt32AtEncoded | tmodunpack.py:19-21 | an encoded `uint32` is read back and the cursor stops right after it |
| Stream.ByteStream.Read | tmodunpack.py:16 | `read(n)` returns the next `min(n, remaining)` bytes and moves the cursor past them |
| Stream.ByteStream.ReadAll | tmodunpack.py:39 | `read()` returns every byte left and leaves the cursor at the end |
| Stream.ByteStream.ReadTmodString | tmodunpack.py:14-16 | the cursor method returns what `StringAt` specifies and moves to its end; on an exhausted stream it fails without moving |
| Stream.ByteStream.ReadUInt32 | tmodunpack.py:19-21 | the cursor method returns what `UInt32At` specifies; a failed read has already moved the cursor to the end |
| Tmod.HeaderAt | tmodunpack.py:33-39 | a parsed header leaves the payload start inside the file |
| Tmod.HeaderLayout | tmodunpack.py:33-39 | a header parses exactly when the file reaches `4 + (1 + versionLen) + 20 + 256 + 4` and the version decodes; the payload then starts exactly there; each field sits at its fixed offset; otherwise the first failing read names the error |
| Tmod.ReadHeader | tmodunpack.py:33-39 | the step-by-step header reads give `HeaderAt` and leave the cursor at the payload start |
| Tmod.WrongMagicStops | tmodunpack.py:28-31 | the run stops with no entries exactly when the first four bytes are not "TMOD", whatever the codecs do |
| Tmod.PackSizeIgnored | tmodunpack.py:38-39 | rewriting the pack size changes only the reported `packSize`: the payload, the parse and every entry stay the same |
| Tmod.DigestOnlyChangesMessage | tmodunpack.py:40-48 | the digest comparison decides only `digestMatches`; a different hash function gives the same header, name, version, entries and errors |
| Tmod.PreambleAt | tmodunpack.py:51-54 | after a parsed name, version and count the first entry starts at offset `6 + len(name) + len(version)`, inside the buffer |
| Tmod.BodyAt | tmodunpack.py:51-66 | the inflated buffer parses exactly when its name, version and count do; a loop that finishes yields exactly `fileamt` entries and one stopped by an error fewer; the last entry read ends inside the buffer |
| Tmod.ReadPreamble | tmodunpack.py:51-54 | the reads of name, version and `fileamt` give `PreambleAt` and leave the cursor at the first entry |
| Tmod.EntryAt | tmodunpack.py:64-66 | a parsed entry ends exactly `1 + len(path) + 4 + len(data)` bytes after where it started |
| Tmod.EntryLayout | tmodunpack.py:64-66 | an entry fails exactly when the length byte is missing, the path does not decode, or the size field is cut off; otherwise its path and data sit at fixed offsets, and the data may be shorter than the size |
| Tmod.ReadEntry | tmodunpack.py:64-66 | one loop turn through the cursor gives `EntryAt`, and the cursor stops where the entry ends |
| Tmod.ScanEntries | tmodunpack.py:63-66 | a loop that finishes yields exactly `n` entries; one stopped by an error yields fewer |
| Tmod.ExtractEntries | tmodunpack.py:63-66 | the cursor loop returns `ScanEntries`: the same entries in order, the same error, and the position where the last entry read ended; a loop that finishes leaves the cursor exactly there |
| Tmod.ScanFootprint | tmodunpack.py:63-66 | the last entry read ends exactly `sum(1 + len(path) + 4 + len(data))` bytes after the loop started |
| Tmod.ScanBackToBack | tmodunpack.py:63-66 | each entry the loop yields parses where the previous entry's data ended |
| Tmod.BackToBackScan | tmodunpack.py:63-66 | conversely, entries that lie back to back are exactly what a loop over that many entries reads, and it finishes after the last one |
| Tmod.TmodOutcome | tmodunpack.py:28-66 | a completed run read its payload from exactly `HeaderEnd` of the version length, inside the file, and `digestMatches` is the comparison of the hash of that payload with the declared digest (see also WrongMagicStops, PackSizeIgnored, DigestOnlyChangesMessage, ExtractedAll) |
| Tmod.UnpackTmod | tmodunpack.py:24-74 | the step-by-step run over the file stream and the `BytesIO` buffer has the outcome `TmodOutcome` |
| Tmod.ExtractedAll | tmodunpack.py:51-66 | a completed extraction has exactly `fileamt` entries, read back to back from the first byte after the count, and the loop ends right after the last entry |
| Layout.EntryAtEncoded | tmodunpack.py:64-66 | an encoded entry parses back to itself, and what follows starts right after it |
| Layout.EncodedLaid | tmodunpack.py:63-66 | bytes that continue with encoded entries hold each entry's encoding right after the one before |
| Layout.LaidBackToBack | tmodunpack.py:63-66 | entries laid out one after another, with decodable paths, are read back to back |
| Layout.ScanEncoded | tmodunpack.py:63-66 | the loop over encoded entries returns every one of them and stops right after the last |
| Layout.PreambleAtEncoded | tmodunpack.py:51-54 | an encoded name, version and count are read back, and the entries start right after them |
| Layout.ParseEncodedBody | tmodunpack.py:51-66 | parsing an encoded body returns its name, version, count and entry list, and consumes the whole buffer |
| Layout.HeaderAtEncoded | tmodunpack.py:28-39 | an encoded header passes the magic check, its fields are read back, and the payload is exactly the bytes after it |
| Layout.UnpackEncodedContainer | tmodunpack.py:24-66 | a container whose payload inflates to an encoded body is extracted completely, and the digest only sets `digestMatches` |

## Left out

- File I/O left out: opening the file, `os.mkdir` and `os.makedirs`, the `unpacked_` output directory and writing each `fdata`. The model's `Extracted` and `Aborted` outcomes list, in order, the entries the program would write.
- The `except OSError` handler is left out. It reacts only to file-system errors, which are outside the model. So an entry whose path cannot be written is not modelled as stopping the run.
- Console output (`print`) and the digest, name and version messages are left out. `digestMatches` records which digest message is printed.
- Foreign code: SHA-1, `zlib.decompress(.., -15)` and UTF-8 decoding are `Codecs` fields, not reimplementations. Decoded strings are kept as their raw bytes, and only whether the decoding succeeds matters.
- The command-line loop over `sys.argv` and the usage message are left out.
