/** The path/URL translator of the file URL library: splitting a `file://` URL
    into decoded path segments, and turning a path, given as its sequence of
    components, into a `file://` URL.

    A URL is modelled by the bytes of its text. A `PathBuf` is modelled by the
    ordered sequence of segments that are collected into it; a `Path` by the
    sequence of components that `Path::components` yields for it. */
module FileUrl {
  import opened PercentOps

  datatype Option<T> = None | Some(value: T)

  /** One component of a path, as the standard library reports it. */
  datatype Component =
    | Prefix(text: seq<Byte>)
    | RootDir
    | CurDir
    | ParentDir
    | Normal(name: seq<Byte>)

  /** The two platform families the library is built for. */
  datatype Platform = Unix | Windows

  type Path = seq<Component>

  /** The segments collected into a `PathBuf`, in order. */
  type PathBuf = seq<seq<Byte>>

  /** The scheme token `file:` that stands first in a file URL. */
  const FILE_SCHEME: seq<Byte> := ['f' as Byte, 'i' as Byte, 'l' as Byte, 'e' as Byte, ':' as Byte]

  /** `file:///`, the start of every URL that `ToFileUrl` produces. */
  const FILE_URL_START: seq<Byte> := FILE_SCHEME + [SLASH, SLASH, SLASH]

  /** The segment that a leading `file:` becomes: the root `/`. */
  const ROOT: seq<Byte> := [SLASH]

  const DOT: seq<Byte> := ['.' as Byte]
  const DOT_DOT: seq<Byte> := ['.' as Byte, '.' as Byte]

  // ---------------------------------------------------------------------
  // Splitting at separators and joining with '/'
  // ---------------------------------------------------------------------

  /** The separators of the `[/\\]` pattern. */
  predicate IsSeparator(b: Byte) {
    b == SLASH || b == BACKSLASH
  }

  function SeparatorCount(s: seq<Byte>): nat {
    if s == [] then 0 else (if IsSeparator(s[0]) then 1 else 0) + SeparatorCount(s[1..])
  }

  /** The number of occurrences of byte `b` in `s`. */
  function Count(s: seq<Byte>, b: Byte): nat {
    if s == [] then 0 else (if s[0] == b then 1 else 0) + Count(s[1..], b)
  }

  /** `s` with every '\' turned into '/'. */
  function ForwardSlashes(s: seq<Byte>): (r: seq<Byte>)
    ensures |r| == |s|
  {
    if s == [] then [] else [if s[0] == BACKSLASH then SLASH else s[0]] + ForwardSlashes(s[1..])
  }

  predicate NoSeparator(s: seq<Byte>) {
    forall j :: 0 <= j < |s| ==> !IsSeparator(s[j])
  }

  /** Splitting at every '/' and every '\': the pieces between separators,
      empty ones included, one more than there are separators, none of them
      containing a separator. */
  function Split(s: seq<Byte>): (r: seq<seq<Byte>>)
    ensures |r| == SeparatorCount(s) + 1
    ensures forall i :: 0 <= i < |r| ==> NoSeparator(r[i])
  {
    if s == [] then [[]]
    else if IsSeparator(s[0]) then [[]] + Split(s[1..])
    else
      var t := Split(s[1..]);
      assert NoSeparator(t[0]);
      [[s[0]] + t[0]] + t[1..]
  }

  /** `join(sep)`: the pieces with one `sep` between neighbours. */
  function Join(pieces: seq<seq<Byte>>, sep: Byte): seq<Byte> {
    if |pieces| == 0 then []
    else if |pieces| == 1 then pieces[0]
    else pieces[0] + [sep] + Join(pieces[1..], sep)
  }

  lemma JoinConsHead(x: Byte, head: seq<Byte>, rest: seq<seq<Byte>>, sep: Byte)
    ensures Join([[x] + head] + rest, sep) == [x] + Join([head] + rest, sep)
  {
    var a := [[x] + head] + rest;
    var b := [head] + rest;
    if rest != [] {
      assert a[1..] == rest && b[1..] == rest;
    }
  }

  /** Splitting loses nothing but the kind of each separator: joining the
      pieces with '/' gives back the text with '\' read as '/'. */
  lemma {:induction false} JoinSplit(s: seq<Byte>)
    ensures Join(Split(s), SLASH) == ForwardSlashes(s)
  {
    if s != [] {
      JoinSplit(s[1..]);
      var t := Split(s[1..]);
      if IsSeparator(s[0]) {
        assert Split(s) == [[]] + t;
        assert ([[]] + t)[1..] == t;
      } else {
        JoinConsHead(s[0], t[0], t[1..], SLASH);
        assert [t[0]] + t[1..] == t;
      }
    }
  }

  lemma {:induction false} SplitNoSeparator(a: seq<Byte>)
    requires NoSeparator(a)
    ensures Split(a) == [a]
  {
    if a != [] {
      SplitNoSeparator(a[1..]);
      assert [a[0]] + a[1..] == a;
    }
  }

  /** A separator-free piece followed by a separator splits off as one piece. */
  lemma {:induction false} SplitConcat(a: seq<Byte>, sep: Byte, b: seq<Byte>)
    requires NoSeparator(a) && IsSeparator(sep)
    ensures Split(a + [sep] + b) == [a] + Split(b)
  {
    var s := a + [sep] + b;
    if a == [] {
      assert s[1..] == b;
    } else {
      assert s[1..] == a[1..] + [sep] + b;
      SplitConcat(a[1..], sep, b);
      assert [a[0]] + a[1..] == a;
    }
  }

  /** Splitting inverts joining with '/' when no piece holds a separator. */
  lemma {:induction false} SplitJoin(pieces: seq<seq<Byte>>)
    requires |pieces| >= 1
    requires forall i :: 0 <= i < |pieces| ==> NoSeparator(pieces[i])
    ensures Split(Join(pieces, SLASH)) == pieces
  {
    if |pieces| == 1 {
      SplitNoSeparator(pieces[0]);
    } else {
      SplitJoin(pieces[1..]);
      SplitConcat(pieces[0], SLASH, Join(pieces[1..], SLASH));
      assert [pieces[0]] + pieces[1..] == pieces;
    }
  }

  lemma {:induction false} CountAppend(a: seq<Byte>, b: seq<Byte>, x: Byte)
    ensures Count(a + b, x) == Count(a, x) + Count(b, x)
  {
    if a == [] {
      assert a + b == b;
    } else {
      assert (a + b)[1..] == a[1..] + b;
      CountAppend(a[1..], b, x);
    }
  }

  lemma {:induction false} CountAbsent(a: seq<Byte>, x: Byte)
    requires forall j :: 0 <= j < |a| ==> a[j] != x
    ensures Count(a, x) == 0
  {
    if a != [] {
      CountAbsent(a[1..], x);
    }
  }

  /** Joining pieces free of '/' puts exactly one '/' between neighbours. */
  lemma {:induction false} JoinSlashCount(pieces: seq<seq<Byte>>)
    requires |pieces| >= 1
    requires forall i, j :: 0 <= i < |pieces| && 0 <= j < |pieces[i]| ==> pieces[i][j] != SLASH
    ensures Count(Join(pieces, SLASH), SLASH) == |pieces| - 1
  {
    CountAbsent(pieces[0], SLASH);
    if |pieces| > 1 {
      JoinSlashCount(pieces[1..]);
      CountAppend(pieces[0] + [SLASH], Join(pieces[1..], SLASH), SLASH);
      CountAppend(pieces[0], [SLASH], SLASH);
    }
  }

  // ---------------------------------------------------------------------
  // URL to path: `file_url_to_pathbuf` and `from_file_url`
  // ---------------------------------------------------------------------

  /** The decoded bytes of every piece, in order. */
  function DecodeAll(pieces: seq<seq<Byte>>): (r: seq<seq<Byte>>)
    ensures |r| == |pieces|
    ensures forall i :: 0 <= i < |r| ==> r[i] == DecodePathComponent(pieces[i]).ToVec()
    ensures forall i :: 0 <= i < |r| ==> |r[i]| <= |pieces[i]|
  {
    seq(|pieces|, i requires 0 <= i < |pieces| => DecodePathComponent(pieces[i]).ToVec())
  }

  lemma DecodeAllAppend(a: seq<seq<Byte>>, b: seq<seq<Byte>>)
    ensures DecodeAll(a + b) == DecodeAll(a) + DecodeAll(b)
  {
  }

  /** `file_url_to_pathbuf`: the URL is split at every '/' and '\'; a first
      piece that is exactly `file:` becomes the root `/`, and every other
      piece (a first piece that is not `file:`, or a later `file:`) is
      percent-decoded. The segments keep the order of the pieces. */
  function FileUrlToPathBuf(url: seq<Byte>): (r: PathBuf)
    ensures |r| == SeparatorCount(url) + 1
    ensures Split(url)[0] == FILE_SCHEME ==> r == [ROOT] + DecodeAll(Split(url)[1..])
    ensures Split(url)[0] != FILE_SCHEME ==> r == DecodeAll(Split(url))
  {
    var pieces := Split(url);
    var r := seq(|pieces|, i requires 0 <= i < |pieces| => Segment(pieces, i));
    SegmentsDecoded(pieces, r);
    r
  }

  /** What piece `i` of the split URL becomes. */
  function Segment(pieces: seq<seq<Byte>>, i: nat): seq<Byte>
    requires i < |pieces|
  {
    if i == 0 && pieces[i] == FILE_SCHEME then ROOT
    else DecodePathComponent(pieces[i]).ToVec()
  }

  lemma SegmentsDecoded(pieces: seq<seq<Byte>>, r: PathBuf)
    requires |pieces| > 0 && |r| == |pieces|
    requires forall i :: 0 <= i < |r| ==> r[i] == Segment(pieces, i)
    ensures pieces[0] == FILE_SCHEME ==> r == [ROOT] + DecodeAll(pieces[1..])
    ensures pieces[0] != FILE_SCHEME ==> r == DecodeAll(pieces)
  {
    var d := if pieces[0] == FILE_SCHEME then [ROOT] + DecodeAll(pieces[1..]) else DecodeAll(pieces);
    assert |d| == |r|;
    forall i | 0 <= i < |r|
      ensures r[i] == d[i]
    {
      if i > 0 && pieces[0] == FILE_SCHEME {
        assert d[i] == DecodeAll(pieces[1..])[i - 1];
        assert pieces[1..][i - 1] == pieces[i];
      }
    }
  }

  /** `PathBuf::from_file_url`: the same conversion as `file_url_to_pathbuf`;
      its first segment is the root whenever the URL starts with `file:/`. */
  function FromFileUrl(url: seq<Byte>): (r: PathBuf)
    ensures r == FileUrlToPathBuf(url)
    ensures |url| > |FILE_SCHEME| && url[..|FILE_SCHEME|] == FILE_SCHEME && url[|FILE_SCHEME|] == SLASH
            ==> r[0] == ROOT
  {
    var n := |FILE_SCHEME|;
    if |url| > n && url[..n] == FILE_SCHEME && url[n] == SLASH then
      assert url == FILE_SCHEME + [SLASH] + url[n + 1..];
      SplitConcat(FILE_SCHEME, SLASH, url[n + 1..]);
      FileUrlToPathBuf(url)
    else
      FileUrlToPathBuf(url)
  }

  // ---------------------------------------------------------------------
  // Path to URL: `to_file_url`
  // ---------------------------------------------------------------------

  /** The text of the first prefix component, if any. */
  function FirstPrefix(path: Path): (r: Option<seq<Byte>>)
    ensures r.None? <==> forall i :: 0 <= i < |path| ==> !path[i].Prefix?
    ensures r.Some? ==> exists i :: 0 <= i < |path| && path[i] == Prefix(r.value)
                                    && forall j :: 0 <= j < i ==> !path[j].Prefix?
  {
    if path == [] then None
    else if path[0].Prefix? then Some(path[0].text)
    else
      var r := FirstPrefix(path[1..]);
      if r.Some? then
        ghost var i :| 0 <= i < |path[1..]| && path[1..][i] == Prefix(r.value)
                       && forall j :: 0 <= j < i ==> !path[1..][j].Prefix?;
        assert path[i + 1] == Prefix(r.value);
        r
      else r
  }

  /** The components that are not prefixes, in their order. */
  function WithoutPrefixes(path: Path): (r: Path)
    ensures forall i :: 0 <= i < |r| ==> !r[i].Prefix?
    ensures (forall i :: 0 <= i < |path| ==> !path[i].Prefix?) ==> r == path
    ensures RootDir in r <==> RootDir in path
  {
    if path == [] then []
    else if path[0].Prefix? then WithoutPrefixes(path[1..])
    else
      assert path == [path[0]] + path[1..];
      [path[0]] + WithoutPrefixes(path[1..])
  }

  /** The partition keeps every non-prefix component in its place: it works
      component by component and distributes over concatenation. */
  lemma {:induction false} WithoutPrefixesAppend(a: Path, b: Path)
    ensures WithoutPrefixes(a + b) == WithoutPrefixes(a) + WithoutPrefixes(b)
  {
    if a == [] {
      assert a + b == b;
    } else {
      assert (a + b)[0] == a[0];
      assert (a + b)[1..] == a[1..] + b;
      WithoutPrefixesAppend(a[1..], b);
    }
  }

  /** A single component is dropped when it is a prefix and kept otherwise. */
  lemma WithoutPrefixesSingle(c: Component)
    ensures WithoutPrefixes([c]) == if c.Prefix? then [] else [c]
  {
    assert [c][1..] == [];
  }

  /** The drive prefix that is written out, and the components that are
      encoded: on Windows the components are partitioned into prefixes and
      the rest, and the first prefix is kept; on Unix nothing is a prefix. */
  function DrivePrefix(path: Path, platform: Platform): Option<seq<Byte>> {
    match platform
    case Windows => FirstPrefix(path)
    case Unix => None
  }

  function NonPrefixComponents(path: Path, platform: Platform): Path {
    match platform
    case Windows => WithoutPrefixes(path)
    case Unix => path
  }

  /** `has_root`: the path has a root directory. */
  predicate HasRoot(path: Path) {
    RootDir in path
  }

  /** The components left once the root of an absolute path (the first
      non-prefix component) is skipped. */
  function EncodedPart(path: Path, platform: Platform): (r: Path)
  {
    var cmp := NonPrefixComponents(path, platform);
    if HasRoot(path) && |cmp| > 0 then cmp[1..] else cmp
  }

  /** The components that `to_file_url` can encode without panicking. */
  predicate IsPlain(c: Component) {
    c.CurDir? || c.ParentDir? || c.Normal?
  }

  /** `to_file_url` panics unless every component left after skipping the
      root is `.`, `..` or a normal name. */
  predicate Encodable(path: Path, platform: Platform) {
    var cs := EncodedPart(path, platform);
    forall i :: 0 <= i < |cs| ==> IsPlain(cs[i])
  }

  /** One component as it appears in the URL: `.` and `..` literally, a
      normal name percent-encoded; never with a '/' or a space. */
  function EncodeComponent(c: Component): (r: seq<Byte>)
    requires IsPlain(c)
    ensures forall j :: 0 <= j < |r| ==> r[j] != SLASH && r[j] != SPACE
    ensures c.CurDir? ==> r == DOT
    ensures c.ParentDir? ==> r == DOT_DOT
    ensures c.Normal? ==> r == EncodePathComponent(c.name)
  {
    match c
    case CurDir => DOT
    case ParentDir => DOT_DOT
    case Normal(name) => EncodePathComponent(name)
  }

  function EncodeComponents(cs: Path): (r: seq<seq<Byte>>)
    requires forall i :: 0 <= i < |cs| ==> IsPlain(cs[i])
    ensures |r| == |cs|
    ensures forall i, j :: 0 <= i < |r| && 0 <= j < |r[i]| ==> r[i][j] != SLASH
  {
    seq(|cs|, i requires 0 <= i < |cs| => EncodeComponent(cs[i]))
  }

  /** `to_file_url`: `file:///`, then the drive prefix unencoded and a '/'
      when there is one, then the encoded components joined with '/'. */
  function ToFileUrl(path: Path, platform: Platform): (url: seq<Byte>)
    requires Encodable(path, platform)
    ensures |url| >= |FILE_URL_START| && url[..|FILE_URL_START|] == FILE_URL_START
  {
    FILE_URL_START + UrlTail(DrivePrefix(path, platform), Join(EncodeComponents(EncodedPart(path, platform)), SLASH))
  }

  /** What follows `file:///`: the drive prefix unencoded and a '/' when
      there is one, then the joined components. */
  function UrlTail(p: Option<seq<Byte>>, joined: seq<Byte>): seq<Byte> {
    match p
    case None => joined
    case Some(t) => t + [SLASH] + joined
  }

  /** A relative path of `.`, `..` and names keeps all its components: no
      root is skipped and no prefix is written, on either platform. */
  lemma RelativePathUrl(path: Path, platform: Platform)
    requires forall i :: 0 <= i < |path| ==> IsPlain(path[i])
    ensures Encodable(path, platform)
    ensures ToFileUrl(path, platform) == FILE_URL_START + Join(EncodeComponents(path), SLASH)
  {
    assert !HasRoot(path);
    assert forall i :: 0 <= i < |path| ==> !path[i].Prefix?;
    assert NonPrefixComponents(path, platform) == path;
    assert DrivePrefix(path, platform) == None;
    assert EncodedPart(path, platform) == path;
  }

  /** Without a drive prefix, the URL after `file:///` holds one '/' fewer
      than there are encoded components. */
  lemma ToFileUrlSlashCount(path: Path, platform: Platform)
    requires Encodable(path, platform)
    requires DrivePrefix(path, platform).None?
    ensures var url := ToFileUrl(path, platform);
            var n := |EncodedPart(path, platform)|;
            Count(url[|FILE_URL_START|..], SLASH) == if n == 0 then 0 else n - 1
  {
    var cs := EncodedPart(path, platform);
    var url := ToFileUrl(path, platform);
    assert url[|FILE_URL_START|..] == Join(EncodeComponents(cs), SLASH);
    if |cs| > 0 {
      JoinSlashCount(EncodeComponents(cs));
    }
  }

  /** On Windows the drive prefix is written out as it is, followed by '/'
      and exactly what the rest of the path would give on Unix after
      `file:///`. */
  lemma WindowsPrefixUnencoded(t: seq<Byte>, rest: Path)
    requires forall i :: 0 <= i < |rest| ==> !rest[i].Prefix?
    requires Encodable(rest, Unix)
    ensures Encodable([Prefix(t)] + rest, Windows)
    ensures ToFileUrl([Prefix(t)] + rest, Windows)
            == FILE_URL_START + t + [SLASH] + ToFileUrl(rest, Unix)[|FILE_URL_START|..]
  {
    var path := [Prefix(t)] + rest;
    assert path[1..] == rest;
    assert FirstPrefix(path) == Some(t);
    assert WithoutPrefixes(path) == rest;
    assert HasRoot(path) == HasRoot(rest) by {
      assert RootDir in path <==> RootDir in rest;
    }
    assert EncodedPart(path, Windows) == EncodedPart(rest, Unix);
    var j := Join(EncodeComponents(EncodedPart(rest, Unix)), SLASH);
    assert ToFileUrl(rest, Unix)[|FILE_URL_START|..] == j by {
      assert ToFileUrl(rest, Unix) == FILE_URL_START + j;
    }
    assert ToFileUrl(path, Windows) == FILE_URL_START + (t + [SLASH] + j);
    Assoc(FILE_URL_START, t + [SLASH], j);
    Assoc(FILE_URL_START, t, [SLASH]);
  }

  // Sequence identities stated on their own, so that the solver proves them
  // in a small context instead of inside a large proof.

  lemma Assoc<T>(x: seq<T>, y: seq<T>, z: seq<T>)
    ensures x + y + z == x + (y + z)
  {
  }

  // ---------------------------------------------------------------------
  // Round trip
  // ---------------------------------------------------------------------

  /** The segment that a component comes back as. */
  function SegmentOf(c: Component): seq<Byte>
    requires IsPlain(c)
  {
    match c
    case CurDir => DOT
    case ParentDir => DOT_DOT
    case Normal(name) => name
  }

  function SegmentsOf(cs: Path): (r: seq<seq<Byte>>)
    requires forall i :: 0 <= i < |cs| ==> IsPlain(cs[i])
    ensures |r| == |cs|
  {
    seq(|cs|, i requires 0 <= i < |cs| => SegmentOf(cs[i]))
  }

  /** Raw bytes that survive encoding, splitting and decoding: no '%' (which
      the encoder leaves for the decoder to read as an escape) and no '\'
      (which the encoder leaves for the splitter to treat as a separator). */
  predicate Transparent(s: seq<Byte>) {
    forall j :: 0 <= j < |s| ==> s[j] != PERCENT && s[j] != BACKSLASH
  }

  /** Components that are `.`, `..` or transparent names only. */
  predicate RoundTrippable(cs: Path) {
    forall i :: 0 <= i < |cs| ==> IsPlain(cs[i]) && (cs[i].Normal? ==> Transparent(cs[i].name))
  }

  lemma DecodeEncodeComponents(cs: Path)
    requires RoundTrippable(cs)
    ensures DecodeAll(EncodeComponents(cs)) == SegmentsOf(cs)
  {
    forall i | 0 <= i < |cs|
      ensures DecodeAll(EncodeComponents(cs))[i] == SegmentsOf(cs)[i]
    {
      match cs[i]
      case CurDir => DecodeNoPercent(DOT);
      case ParentDir => DecodeNoPercent(DOT_DOT);
      case Normal(name) => DecodeEncode(name);
    }
  }

  lemma EncodeComponentsNoSeparator(cs: Path)
    requires RoundTrippable(cs)
    ensures forall i :: 0 <= i < |EncodeComponents(cs)| ==> NoSeparator(EncodeComponents(cs)[i])
  {
    forall i, j | 0 <= i < |cs| && 0 <= j < |EncodeComponents(cs)[i]|
      ensures !IsSeparator(EncodeComponents(cs)[i][j])
    {
      if cs[i].Normal? {
        var name := cs[i].name;
        var e := EncodePathComponent(name);
        if e[j] == BACKSLASH {
          EncodedBackslash(name, j);
        }
      }
    }
  }

  /** The encoder emits '\' only where its input had one. */
  lemma {:induction false} EncodedBackslash(c: seq<Byte>, j: nat)
    requires j < |EncodePathComponent(c)| && EncodePathComponent(c)[j] == BACKSLASH
    ensures exists k :: 0 <= k < |c| && c[k] == BACKSLASH
  {
    var e := EncodeByte(c[0]);
    if j < |e| {
      assert c[0] == BACKSLASH;
    } else {
      EncodedBackslash(c[1..], j - |e|);
      var k :| 0 <= k < |c[1..]| && c[1..][k] == BACKSLASH;
      assert c[k + 1] == BACKSLASH;
    }
  }

  lemma SplitAfterSlash(x: seq<Byte>)
    ensures Split([SLASH] + x) == [[]] + Split(x)
  {
    assert ([SLASH] + x)[1..] == x;
  }

  /** `file:///` splits into the scheme and two empty pieces. */
  lemma SplitUrlStart(x: seq<Byte>)
    ensures Split(FILE_URL_START + x) == [FILE_SCHEME, [], []] + Split(x)
  {
    assert FILE_URL_START + x == FILE_SCHEME + [SLASH] + ([SLASH] + ([SLASH] + x));
    SplitConcat(FILE_SCHEME, SLASH, [SLASH] + ([SLASH] + x));
    SplitAfterSlash([SLASH] + x);
    SplitAfterSlash(x);
  }

  /** The pieces a drive prefix contributes. */
  function PrefixPieces(p: Option<seq<Byte>>): seq<seq<Byte>> {
    match p
    case None => []
    case Some(t) => [t]
  }

  /** The text after `file:///` splits back into the drive prefix (if any)
      and one piece per encoded component. */
  lemma SplitUrlTail(p: Option<seq<Byte>>, encoded: seq<seq<Byte>>)
    requires p.Some? ==> NoSeparator(p.value)
    requires forall i :: 0 <= i < |encoded| ==> NoSeparator(encoded[i])
    ensures Split(UrlTail(p, Join(encoded, SLASH)))
            == PrefixPieces(p) + (if encoded == [] then [[]] else encoded)
  {
    var j := Join(encoded, SLASH);
    var body: seq<seq<Byte>> := if encoded == [] then [[]] else encoded;
    assert Split(j) == body by {
      if encoded != [] {
        SplitJoin(encoded);
      } else {
        assert j == [];
      }
    }
    match p
    case None =>
      assert PrefixPieces(p) + body == body;
    case Some(t) =>
      assert UrlTail(p, j) == t + [SLASH] + j;
      SplitConcat(t, SLASH, j);
  }

  /** `from_file_url` after `to_file_url` gives the root, the two empty pieces
      between the slashes of `file:///`, the drive prefix (if any), and then
      each `.`, `..` and name of the path as it was (a single empty piece
      when no component is left), for transparent components and a prefix
      with no '%' and no separator. */
  lemma FromToFileUrl(path: Path, platform: Platform)
    requires Encodable(path, platform)
    requires RoundTrippable(EncodedPart(path, platform))
    requires DrivePrefix(path, platform).Some? ==>
               Transparent(DrivePrefix(path, platform).value) && NoSeparator(DrivePrefix(path, platform).value)
    ensures var cs := EncodedPart(path, platform);
            FromFileUrl(ToFileUrl(path, platform))
            == [ROOT, [], []] + PrefixPieces(DrivePrefix(path, platform))
               + (if cs == [] then [[]] else SegmentsOf(cs))
  {
    var cs := EncodedPart(path, platform);
    var p := DrivePrefix(path, platform);
    var encoded := EncodeComponents(cs);
    var body: seq<seq<Byte>> := if encoded == [] then [[]] else encoded;
    var url := ToFileUrl(path, platform);
    var empty: seq<Byte> := [];
    var rest := [empty, empty] + PrefixPieces(p) + body;
    ConsThree(ROOT, empty, empty, PrefixPieces(p), if cs == [] then [[]] else SegmentsOf(cs));
    var tail := UrlTail(p, Join(encoded, SLASH));
    assert url == FILE_URL_START + tail;
    SplitUrlStart(tail);
    assert Split(tail) == PrefixPieces(p) + body by {
      EncodeComponentsNoSeparator(cs);
      SplitUrlTail(p, encoded);
    }
    ConsThree(FILE_SCHEME, empty, empty, PrefixPieces(p), body);
    assert Split(url)[1..] == rest;
    DecodeUrlRest(p, cs);
  }

  /** A sequence identity for the solver, as `Assoc` is. */
  lemma ConsThree<T>(x: T, y: T, z: T, u: seq<T>, v: seq<T>)
    ensures [x, y, z] + (u + v) == [x] + ([y, z] + u + v)
    ensures [x, y, z] + u + v == [x] + ([y, z] + u + v)
  {
  }

  /** Decoding what follows the scheme gives the pieces back. */
  lemma DecodeUrlRest(p: Option<seq<Byte>>, cs: Path)
    requires RoundTrippable(cs)
    requires p.Some? ==> Transparent(p.value)
    ensures var encoded := EncodeComponents(cs);
            var empty: seq<Byte> := [];
            DecodeAll([empty, empty] + PrefixPieces(p) + (if encoded == [] then [[]] else encoded))
            == [empty, empty] + PrefixPieces(p) + (if cs == [] then [[]] else SegmentsOf(cs))
  {
    var encoded := EncodeComponents(cs);
    var body: seq<seq<Byte>> := if encoded == [] then [[]] else encoded;
    var empty: seq<Byte> := [];
    DecodeAllAppend([empty, empty] + PrefixPieces(p), body);
    DecodeAllAppend([empty, empty], PrefixPieces(p));
    DecodeNoPercent(empty);
    assert DecodeAll([empty, empty]) == [empty, empty];
    if p.Some? {
      DecodeNoPercent(p.value);
      assert DecodeAll(PrefixPieces(p)) == PrefixPieces(p);
    }
    if encoded == [] {
      assert DecodeAll(body) == [empty];
    } else {
      DecodeEncodeComponents(cs);
    }
  }

  /** For an absolute Unix path whose names are transparent, converting to a
      URL and back reproduces its segments after the root. */
  lemma UnixAbsoluteRoundTrip(rest: Path)
    requires |rest| > 0
    requires RoundTrippable(rest)
    ensures Encodable([RootDir] + rest, Unix)
    ensures FromFileUrl(ToFileUrl([RootDir] + rest, Unix)) == [ROOT, [], []] + SegmentsOf(rest)
  {
    var path := [RootDir] + rest;
    assert HasRoot(path);
    assert EncodedPart(path, Unix) == rest;
    FromToFileUrl(path, Unix);
  }
}
