# file_url in Dafny

A model of the core of the `file_url` Rust library, which turns filesystem paths into `file://` URLs and back. The core has two parts:

- **`PercentOps`** (`percent_ops.dfy`) models `src/percent_ops.rs`:
  - `FILE_URL_BYTES` is the constant set of reserved bytes. It holds the C0 controls and DEL, plus 24 ASCII characters: the reserved characters of section 2.2 of RFC 3986 without ':', plus space and some unsafe characters.
  - `encode_path_component` percent-encodes the raw bytes of one path component, as in section 2.1 of RFC 3986. A byte is written as `%XX` with uppercase hex when it is not ASCII or is in the set. Every other byte is copied.
  - `decode_path_component` decodes leniently into a buffer, and `to_vec` returns that buffer.
  - The `percent_encoding` crate is not part of this model. Its encoder and decoder are written out as explicit functions (`EncodeByte`, `EncodePathComponent`, `PercentDecode`).
- **`FileUrl`** (`file_url.dfy`) models `src/lib.rs`:
  - `file_url_to_pathbuf` and `from_file_url` split a URL at every '/' and '\'. A first piece that is exactly `file:` becomes the root `/`. Every other piece is percent-decoded.
  - `to_file_url` works on the components of a path:
    - it drops the root of an absolute path;
    - it writes `.` and `..` literally and percent-encodes names;
    - it joins them with '/' after `file:///`;
    - on Windows, it writes the first drive prefix unencoded, followed by '/'.
- **`FileUrlTests`** (`file_url_tests.dfy`) holds the library's unit tests and its documentation examples as lemmas about the model.

Modelling choices:

- Text is its bytes (`Byte` is `0..255`). A Rust `&str` is its UTF-8 bytes.
- A `Path` is the sequence of `Component`s that `Path::components` would yield: `Prefix`, `RootDir`, `CurDir`, `ParentDir` and `Normal`.
- A `PathBuf` is the ordered sequence of segments collected into it.
- The platform is a parameter (`Unix` or `Windows`). It replaces the `cfg(target_family)` branches.

Notes on what the code does:

- Section 2.4 of RFC 3986 says a data '%' is written as `%25`. `FILE_URL_BYTES` does not contain '%', so '%' passes through the encoder unchanged. As a result, encoding is idempotent (`EncodeIdempotent`). The round trip is proved for bytes without '%' (`DecodeEncode`). It fails where a '%' is followed by two hex digits, as `PercentBreaksRoundTrip` shows with `%41`.
- A name is *transparent* when it holds no '%' and no '\' (`FileUrl.Transparent`). The path round trip is proved for transparent names only. '\' breaks it too: the encoder copies '\' (`src/percent_ops.rs:29-53`), and the splitter then cuts the name at it (`src/lib.rs:20`). `BackslashBreaksRoundTrip` shows a name `a\b` coming back as the two segments `a` and `b`.
- `src/lib.rs` does not type-check as written in two places. The closure at `src/lib.rs:43-50` returns an `OsString` in one branch and a `DecodeResult` in the other. `src/lib.rs:119` passes an owned `OsString` where `&[u8]` is expected. The model follows the evident intent: the decoded buffer's bytes become the segment, and the component's raw bytes are encoded.

## Model

| member | source | states |
|---|---|---|
| PercentOps.PassthroughIsComplement | src/percent_ops.rs:25-55 | A byte is left unescaped exactly when it is a digit, a letter, one of `-._~`, or one of ':', '%', '\', '"', '|'. So ':' is kept, as the comment at lines 27-28 explains. |
| PercentOps.EncodeByte | src/percent_ops.rs:57-59 | A byte the encoder escapes becomes '%' and two uppercase hex digits whose value is the byte. Any other byte is copied unchanged. |
| PercentOps.EncodeEscapedByte | src/percent_ops.rs:29-58 | A single reserved or non-ASCII byte encodes to exactly three bytes: '%' and the two uppercase hex digits of its value. |
| PercentOps.EncodePassthroughByte | src/percent_ops.rs:57-59 | A single unreserved ASCII byte encodes to itself. |
| PercentOps.EncodePathComponent | src/percent_ops.rs:57-59 | The output is printable ASCII with no byte the encoder would escape. It contains no '/' and no space. Its length is between the input's length and three times that. |
| PercentOps.EncodeAppend | src/percent_ops.rs:57-59 | Encoding distributes over concatenation. |
| PercentOps.EncodeLength | src/percent_ops.rs:57-59 | The output length is the input length plus two for every escaped byte. |
| PercentOps.EncodeIdentity | src/percent_ops.rs:57-59 | Encoding leaves a component unchanged exactly when none of its bytes is escaped (both directions). |
| PercentOps.EncodePassthrough | src/percent_ops.rs:57-59 | A component made only of passthrough bytes is its own encoding. |
| PercentOps.EncodeIdempotent | src/percent_ops.rs:57-59 | Encoding already-encoded text changes nothing, because '%' is not reserved. |
| PercentOps.PercentDecode | src/percent_ops.rs:61-64 | Lenient decoding never fails and never grows the input. Non-empty input gives non-empty output. |
| PercentOps.DecodeEscape | src/percent_ops.rs:61-63 | `%` followed by two hex digits of either case decodes to the byte they denote, then the rest is decoded. |
| PercentOps.DecodeLonePercent | src/percent_ops.rs:61-63 | A `%` not followed by two hex digits is copied literally. This includes a `%` at the end of the input. |
| PercentOps.DecodeOtherByte | src/percent_ops.rs:61-63 | Any byte other than `%` is copied. |
| PercentOps.LowerCaseEscapeDecodes | src/percent_ops.rs:61-63 | The lower-case escape `%3e` decodes to `>`. |
| PercentOps.MalformedEscapesCopied | src/percent_ops.rs:61-63 | `%4`, a lone `%` and `%zz` decode to themselves. |
| PercentOps.DecodePathComponent | src/percent_ops.rs:61-64 | The decoded buffer is no longer than the piece. A piece without '%' decodes to its own bytes. |
| PercentOps.DecodeNoPercent | src/percent_ops.rs:61-63 | Input without '%' decodes to itself. |
| PercentOps.DecodeEncodedByte | src/percent_ops.rs:57-63 | The decoder reads back the encoding of any byte other than '%'. |
| PercentOps.DecodeEncode | src/percent_ops.rs:57-64 | Round trip: decoding the encoding of bytes without '%' gives those bytes back. |
| PercentOps.PercentBreaksRoundTrip | src/percent_ops.rs:57-64 | `%41` encodes to itself and then decodes to `A`, so the round trip's condition is needed. |
| FileUrl.Split | src/lib.rs:19-21 | Splitting at '/' and '\' gives one piece more than there are separators, empty pieces included. No piece contains a separator. |
| FileUrl.JoinSplit | src/lib.rs:40-41 | The pieces keep their order and lose nothing: joined with '/', they give the URL back with '\' read as '/'. |
| FileUrl.SplitJoin | src/lib.rs:114-123 | Splitting undoes joining with '/' when no piece holds a separator. |
| FileUrl.JoinSlashCount | src/lib.rs:114-123 | Joining pieces free of '/' puts exactly one '/' between neighbours. |
| FileUrl.DecodeAll | src/lib.rs:48 | Every piece is decoded in order, and no decoded piece is longer than its piece. |
| FileUrl.FileUrlToPathBuf | src/lib.rs:39-52 | There is one segment per piece. When the first piece is exactly `file:`, the segments are the root followed by the decoded remaining pieces. Otherwise every piece is decoded. |
| FileUrl.FromFileUrl | src/lib.rs:143-145 | Equals `file_url_to_pathbuf`. For a URL starting with `file:/`, the first segment is the root. |
| FileUrl.FirstPrefix | src/lib.rs:89-98 | The text of the first `Prefix` component, which no earlier prefix precedes. It is `None` exactly when the path has no prefix. |
| FileUrl.WithoutPrefixes | src/lib.rs:89-100 | No prefix component remains. A path without prefixes is unchanged. The result contains the root exactly when the path does. That every other component is kept, in order, is stated by the next two rows. |
| FileUrl.WithoutPrefixesAppend | src/lib.rs:89-95 | Removing prefixes distributes over concatenation. Together with `WithoutPrefixesSingle`, this means every non-prefix component is kept, in its order. |
| FileUrl.WithoutPrefixesSingle | src/lib.rs:89-95 | A single component is dropped when it is a prefix and kept otherwise. |
| FileUrl.EncodeComponent | src/lib.rs:115-121 | `.` and `..` are written literally and a name is percent-encoded. The result never contains '/' or a space. |
| FileUrl.EncodeComponents | src/lib.rs:114-122 | There is one encoded piece per component, and none contains '/'. |
| FileUrl.ToFileUrl | src/lib.rs:87-129 | Every URL produced starts with `file:///`. |
| FileUrl.RelativePathUrl | src/lib.rs:107-126 | A relative path keeps all its components: the URL is `file:///` followed by all its encoded components joined with '/'. |
| FileUrl.ToFileUrlSlashCount | src/lib.rs:114-126 | Without a drive prefix, the URL after `file:///` holds one '/' fewer than there are encoded components (none when there are none). |
| FileUrl.WindowsPrefixUnencoded | src/lib.rs:125-128 | On Windows, the URL is `file:///`, then the drive prefix unencoded, then '/', then exactly what the rest of the path gives on Unix after `file:///`. |
| FileUrl.DecodeEncodeComponents | src/lib.rs:114-121 | Decoding the encoded `.`, `..` and transparent names gives back their segments. |
| FileUrl.EncodeComponentsNoSeparator | src/lib.rs:114-121 | Encoded `.`, `..` and names without '\' contain no separator. |
| FileUrl.EncodedBackslash | src/percent_ops.rs:57-59 | The encoder emits '\' only where its input had one. |
| FileUrl.SplitUrlStart | src/lib.rs:126 | `file:///` splits into the scheme and two empty pieces. |
| FileUrl.SplitUrlTail | src/lib.rs:125-128 | What follows `file:///` splits back into the drive prefix (if any) and one piece per encoded component. |
| FileUrl.FromToFileUrl | src/lib.rs:87-145 | For transparent components and prefix, `from_file_url(to_file_url(p))` is the root, two empty pieces, the prefix, then each `.`, `..` and name as it was. An empty remainder gives a single empty piece. |
| FileUrl.DecodeUrlRest | src/lib.rs:39-52 | Decoding the pieces after the scheme gives the empty pieces, the prefix and the segments back. |
| FileUrl.UnixAbsoluteRoundTrip | src/lib.rs:87-145 | For an absolute Unix path with transparent names, the round trip gives the root, two empty pieces and the path's segments after the root. |
| FileUrlTests.AbsolutePathUrl | src/lib.rs:108-126 | The URL of an absolute Unix path is `file:///` followed by its encoded names joined with '/'. |
| FileUrlTests.NamesRoundTrip | src/lib.rs:159-207 | For transparent names, from-URL after to-URL of `/n1/…/nk` gives the root, two empty pieces and the names. |
| FileUrlTests.LaterSchemeIsDecoded | src/lib.rs:43-49 | A later `file:` piece is decoded like any other piece rather than made the root, and '\' separates like '/'. |
| FileUrlTests.BackslashBreaksRoundTrip | src/lib.rs:20 | A name of two '%'-free passthrough runs around a '\' comes back from the URL round trip as two segments, so the round trip needs names without '\'. |
| FileUrlTests.BackslashNameUrl | src/percent_ops.rs:29-53 | The '\' inside such a name is copied into the URL unescaped. |
| FileUrlTests.BackslashUrlSplits | src/lib.rs:20-52 | `file:///` followed by two '%'-free pieces around a '\' gives the root, two empty pieces and the two pieces. |
| FileUrlTests.ColonPassesThrough | src/percent_ops.rs:27-28 | The drive designator `c:` encodes to itself. |
| FileUrlTests.EmojiEncoding | src/lib.rs:196-200 | The emoji bytes F0 9F 98 80 encode to `%F0%9F%98%80`. |
| FileUrlTests.HashBracesEncoding | src/lib.rs:196-200 | `#{}^.txt` encodes to `%23%7B%7D%5E.txt`. |
| FileUrlTests.GiEncoding | src/lib.rs:166-172 | `gi>` encodes to `gi%3E`. |
| FileUrlTests.SomeWhatEncoding | src/lib.rs:166-172 | `some & what.whtvr` encodes to `some%20%26%20what.whtvr`. |
| FileUrlTests.BarBazEncoding | src/lib.rs:79-86 | `bar baz.txt` encodes to `bar%20baz.txt`. |
| FileUrlTests.BasicPathbufToUrl | src/lib.rs:158-164 | `/some/file.txt` becomes `file:///some/file.txt`. |
| FileUrlTests.OddballPathbufToUrl | src/lib.rs:166-172 | `/gi>/some & what.whtvr` becomes `file:///gi%3E/some%20%26%20what.whtvr`. |
| FileUrlTests.BasicPathbufFromUrl | src/lib.rs:174-179 | `file:///some/file.txt` gives the root, two empty pieces, `some` and `file.txt`. |
| FileUrlTests.OddballPathbufFromUrl | src/lib.rs:181-186 | `file:///gi%3E/some%20%26%20what.whtvr` gives the root, two empty pieces, `gi>` and `some & what.whtvr`. |
| FileUrlTests.BasicPathToUrl | src/lib.rs:188-193 | `/foo/bar.txt` becomes `file:///foo/bar.txt`. |
| FileUrlTests.UnicodePathToUrl | src/lib.rs:195-200 | `/tmp/😀/#{}^.txt` becomes `file:///tmp/%F0%9F%98%80/%23%7B%7D%5E.txt`. |
| FileUrlTests.UnicodeUrlToPath | src/lib.rs:202-207 | `file:///tmp/%F0%9F%98%80/%23%7B%7D%5E.txt` gives the root, two empty pieces, `tmp`, the emoji bytes and `#{}^.txt`. |
| FileUrlTests.DocPathToUrl | src/lib.rs:79-86 | `/foo/bar baz.txt` becomes `file:///foo/bar%20baz.txt`. |
| FileUrlTests.DocUrlToPathBuf | src/lib.rs:31-38 | `file:///foo/bar%20baz.txt` gives the root, two empty pieces, `foo` and `bar baz.txt`. |
| FileUrlTests.WindowsPathbufToUrl | src/lib.rs:216-222 | `c:\WINDOWS\clock.avi` (prefix `c:`, root, two names) becomes `file:///c:/WINDOWS/clock.avi` on Windows. |
| FileUrlTests.BasicPathbufToUrlLiteral | src/lib.rs:158-164 | `/some/file.txt` becomes `file:///some/file.txt`, stated on the literals. |
| FileUrlTests.OddballPathbufToUrlLiteral | src/lib.rs:166-172 | `/gi>/some & what.whtvr` becomes `file:///gi%3E/some%20%26%20what.whtvr`, stated on the literals. |
| FileUrlTests.BasicPathbufFromUrlLiteral | src/lib.rs:174-179 | `file:///some/file.txt` gives the root, two empty pieces, `some` and `file.txt`, stated on the literals. |
| FileUrlTests.OddballPathbufFromUrlLiteral | src/lib.rs:181-186 | `file:///gi%3E/some%20%26%20what.whtvr` gives the root, two empty pieces, `gi>` and `some & what.whtvr`, stated on the literals. |
| FileUrlTests.BasicPathToUrlLiteral | src/lib.rs:188-193 | `/foo/bar.txt` becomes `file:///foo/bar.txt`, stated on the literals. |
| FileUrlTests.UnicodeUrlToPathLiteral | src/lib.rs:202-207 | `file:///tmp/%F0%9F%98%80/%23%7B%7D%5E.txt` gives the root, two empty pieces, `tmp`, the emoji bytes and `#{}^.txt`, stated on the literals. |
| FileUrlTests.DocPathToUrlLiteral | src/lib.rs:79-86 | `/foo/bar baz.txt` becomes `file:///foo/bar%20baz.txt`, stated on the literals. |
| FileUrlTests.DocUrlToPathBufLiteral | src/lib.rs:31-38 | `file:///foo/bar%20baz.txt` gives the root, two empty pieces, `foo` and `bar baz.txt`, stated on the literals. |

## Left out

- `src/os_str_from_bytes.rs` and `DecodeResult::as_os_str`: building an `OsString` from bytes. On Unix this is the identity, so segments are kept as raw bytes. The Windows branch pairs bytes into UTF-16 units and does not type-check as written.
- `std::path` parsing (`components()`, `has_root()`, prefix recognition): a path is given by its components. `has_root` is modelled as "the components contain `RootDir`". That is exact for the component sequences the standard library produces, but it does not capture the Windows rule that a verbatim or UNC prefix alone counts as a root.
- `PathBuf` collection and `push` normalisation: the result is the ordered sequence of segments. So the tests' `PathBuf` equalities are stated on segments, including the two empty pieces between the slashes of `file:///`, which `push` would absorb.
- `ToFileUrl`: the panic for a `RootDir` or `Prefix` component left after skipping is a precondition (`Encodable`), not a modelled panic.
- `ToFileUrl`: `to_string_lossy`, which replaces invalid UTF-8 with U+FFFD, is not modelled. The prefix text and the `.`/`..` components are taken as given bytes.
- The `regex` crate: the `[/\\]` pattern is a plain split on '/' and '\'.
- `lazy_static` one-time initialisation: the reserved set and the separator are constants.
- The sealed-trait boilerplate (`src/lib.rs:148-151`) and the trait declarations: the operations are plain functions.
- `DecodeResult.ToVec` returns the buffer. It has no contract of its own, and `DecodePathComponent` states its properties through it.
