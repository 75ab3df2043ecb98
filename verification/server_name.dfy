/**
 * The name of the local endpoint that every instance of one application
 * agrees on (genBlockServerName). A hash is fed a fixed prefix and the
 * application's identity, then optional fields chosen by the mode flags and
 * the platform; the Base64 text of the digest, with every '/' turned into
 * '_', is the name. The hash functions, Base64, UTF-8 encoding and lower-casing
 * are library calls and enter as parameters.
 */
module ServerName {
  import opened Bytes

  /** The mode flags of a SingleApplication instance. */
  datatype Mode = User | System | SecondaryNotification | ExcludeAppVersion | ExcludeAppPath

  /** The platform the library was built for; it selects the digest and the path rule. */
  datatype Platform = Windows | Linux | MacOS | OtherUnix

  /** What the application object reports about itself. */
  datatype Identity = Identity(
    appName: string,
    orgName: string,
    orgDomain: string,
    appVersion: string,
    appFilePath: string)

  /**
   * What the host provides: the platform, the raw value of the APPIMAGE
   * environment variable (empty when unset) and the user name.
   */
  datatype Host = Host(platform: Platform, appImage: seq<byte>, username: string)

  /** The library functions the derivation calls, left uninterpreted. */
  datatype Primitives = Primitives(
    utf8: string -> seq<byte>,
    toLower: string -> string,
    sha256: seq<byte> -> seq<byte>,
    md5: seq<byte> -> seq<byte>,
    base64: seq<byte> -> seq<byte>)

  /** The fields that may be fed to the hash, in the order they are fed. */
  datatype Field = Tag | AppName | OrgName | OrgDomain | AppDataText | Version | Path | Username

  /** One addData call: which field it feeds and the bytes it feeds. */
  datatype Chunk = Chunk(field: Field, data: seq<byte>)

  /** The ASCII bytes of "SingleApplication", the 17-byte tag every hash input starts with. */
  const TagBytes: seq<byte> := [0x53, 0x69, 0x6E, 0x67, 0x6C, 0x65, 0x41, 0x70, 0x70, 0x6C, 0x69, 0x63, 0x61, 0x74, 0x69, 0x6F, 0x6E]

  /** The app-data list joined with the empty separator. */
  function Join(parts: seq<string>): string
  {
    if |parts| == 0 then [] else parts[0] + Join(parts[1..])
  }

  /**
   * The bytes naming the executable: the lower-cased path on Windows; on
   * Linux the APPIMAGE value when it is set, since each AppImage launch runs
   * from its own mount point; the path elsewhere.
   */
  function PathBytes(id: Identity, host: Host, p: Primitives): (b: seq<byte>)
    ensures host.platform == Linux && |host.appImage| > 0 ==> b == host.appImage
    ensures host.platform == Windows ==> b == p.utf8(p.toLower(id.appFilePath))
    ensures host.platform != Windows && (host.platform != Linux || |host.appImage| == 0) ==> b == p.utf8(id.appFilePath)
  {
    match host.platform
    case Windows => p.utf8(p.toLower(id.appFilePath))
    case Linux => if |host.appImage| == 0 then p.utf8(id.appFilePath) else host.appImage
    case _ => p.utf8(id.appFilePath)
  }

  /** What each field contributes when it is fed. */
  function FieldValue(f: Field, id: Identity, appData: seq<string>, host: Host, p: Primitives): seq<byte>
  {
    match f
    case Tag => TagBytes
    case AppName => p.utf8(id.appName)
    case OrgName => p.utf8(id.orgName)
    case OrgDomain => p.utf8(id.orgDomain)
    case AppDataText => p.utf8(Join(appData))
    case Version => p.utf8(id.appVersion)
    case Path => PathBytes(id, host, p)
    case Username => p.utf8(host.username)
  }

  /** A conditional addData call: the field when the condition holds, nothing otherwise. */
  function FeedIf(f: Field, when: bool): (r: seq<Field>)
    ensures f in r <==> when
    ensures forall g :: g in r ==> g == f
  {
    if when then [f] else []
  }

  /**
   * The fields fed to the hash, in the order they are fed. The tag,
   * application name, organization name and organization domain always come
   * first, in that order; the joined app data is fed iff the list is
   * non-empty, the version iff ExcludeAppVersion is not set, the executable
   * iff ExcludeAppPath is not set, and the user name iff User is set.
   */
  function FedFields(appData: seq<string>, options: set<Mode>): (fs: seq<Field>)
    ensures |fs| >= 4 && fs[0] == Tag && fs[1] == AppName && fs[2] == OrgName && fs[3] == OrgDomain
    ensures AppDataText in fs <==> |appData| > 0
    ensures Version in fs <==> ExcludeAppVersion !in options
    ensures Path in fs <==> ExcludeAppPath !in options
    ensures Username in fs <==> User in options
  {
    [Tag, AppName, OrgName, OrgDomain]
      + FeedIf(AppDataText, |appData| > 0)
      + FeedIf(Version, ExcludeAppVersion !in options)
      + FeedIf(Path, ExcludeAppPath !in options)
      + FeedIf(Username, User in options)
  }

  /** A field's place in the sequence of addData calls, counted from the tag. */
  function Rank(f: Field): nat
  {
    match f
    case Tag => 0
    case AppName => 1
    case OrgName => 2
    case OrgDomain => 3
    case AppDataText => 4
    case Version => 5
    case Path => 6
    case Username => 7
  }

  /** Each field comes after every field fed before it: in call order, and each at most once. */
  predicate InFeedOrder(fs: seq<Field>)
  {
    forall i, j :: 0 <= i < j < |fs| ==> Rank(fs[i]) < Rank(fs[j])
  }

  /** A field appended under its condition after fields that all precede it keeps the order. */
  lemma FeedIfKeepsOrder(fs: seq<Field>, f: Field, when: bool)
    requires InFeedOrder(fs) && forall g :: g in fs ==> Rank(g) < Rank(f)
    ensures InFeedOrder(fs + FeedIf(f, when))
    ensures forall g :: g in fs + FeedIf(f, when) ==> Rank(g) <= Rank(f)
  {
    if when {
      var r := fs + [f];
      forall i, j | 0 <= i < j < |r| ensures Rank(r[i]) < Rank(r[j])
      {
        assert r[i] == fs[i];
        if j == |fs| {
          assert fs[i] in fs;
        } else {
          assert r[j] == fs[j];
        }
      }
    } else {
      assert fs + [] == fs;
    }
  }

  /**
   * The fields are fed in the order of the source: tag, application name,
   * organization name, organization domain, then the joined app data, the
   * version, the executable and the user name, so none is fed twice.
   */
  lemma FedFieldsInFeedOrder(appData: seq<string>, options: set<Mode>)
    ensures InFeedOrder(FedFields(appData, options))
    ensures forall i, j :: 0 <= i < j < |FedFields(appData, options)| ==>
              FedFields(appData, options)[i] != FedFields(appData, options)[j]
  {
    var fixed := [Tag, AppName, OrgName, OrgDomain];
    assert InFeedOrder(fixed) by {
      forall i, j | 0 <= i < j < 4 ensures Rank(fixed[i]) < Rank(fixed[j]) {
        assert Rank(fixed[i]) == i && Rank(fixed[j]) == j;
      }
    }
    assert forall g :: g in fixed ==> Rank(g) <= 3;
    var f1 := fixed + FeedIf(AppDataText, |appData| > 0);
    var f2 := f1 + FeedIf(Version, ExcludeAppVersion !in options);
    var f3 := f2 + FeedIf(Path, ExcludeAppPath !in options);
    var f4 := f3 + FeedIf(Username, User in options);
    FeedIfKeepsOrder(fixed, AppDataText, |appData| > 0);
    FeedIfKeepsOrder(f1, Version, ExcludeAppVersion !in options);
    FeedIfKeepsOrder(f2, Path, ExcludeAppPath !in options);
    FeedIfKeepsOrder(f3, Username, User in options);
    forall i, j | 0 <= i < j < |f4| ensures f4[i] != f4[j] {
      assert Rank(f4[i]) < Rank(f4[j]);
    }
  }

  /** The addData calls for a sequence of fields: each field with its value. */
  function ChunksOf(fs: seq<Field>, id: Identity, appData: seq<string>, host: Host, p: Primitives): (cs: seq<Chunk>)
    ensures |cs| == |fs|
    ensures forall i :: 0 <= i < |cs| ==> cs[i] == Chunk(fs[i], FieldValue(fs[i], id, appData, host, p))
  {
    seq(|fs|, i requires 0 <= i < |fs| => Chunk(fs[i], FieldValue(fs[i], id, appData, host, p)))
  }

  /** The hash input as a sequence of addData calls: each fed field with its value. */
  function HashChunks(id: Identity, appData: seq<string>, options: set<Mode>, host: Host, p: Primitives): (cs: seq<Chunk>)
    ensures |cs| == |FedFields(appData, options)|
    ensures forall i :: 0 <= i < |cs| ==>
              cs[i] == Chunk(FedFields(appData, options)[i], FieldValue(FedFields(appData, options)[i], id, appData, host, p))
  {
    ChunksOf(FedFields(appData, options), id, appData, host, p)
  }

  /**
   * The bytes genBlockServerName hands to the hash, written as its straight
   * line of addData calls, one term per call, each guarded by its own test.
   */
  function AddDataInput(id: Identity, appData: seq<string>, options: set<Mode>, host: Host, p: Primitives): seq<byte>
  {
    TagBytes
      + p.utf8(id.appName)
      + p.utf8(id.orgName)
      + p.utf8(id.orgDomain)
      + When(|appData| > 0, p.utf8(Join(appData)))
      + When(ExcludeAppVersion !in options, p.utf8(id.appVersion))
      + When(ExcludeAppPath !in options, PathBytes(id, host, p))
      + When(User in options, p.utf8(host.username))
  }

  /** The bytes of a guarded addData call: the data when the test holds, nothing otherwise. */
  function When(test: bool, data: seq<byte>): seq<byte>
  {
    if test then data else []
  }

  /** All the bytes of the chunks, in order: what the incremental hash digests. */
  function Concat(cs: seq<Chunk>): seq<byte>
  {
    if |cs| == 0 then [] else Concat(cs[..|cs| - 1]) + cs[|cs| - 1].data
  }

  /** MD5 on macOS, whose shared-memory keys are at most 31 characters; SHA-256 elsewhere. */
  function Digest(platform: Platform, p: Primitives, input: seq<byte>): (d: seq<byte>)
    ensures platform == MacOS ==> d == p.md5(input)
    ensures platform != MacOS ==> d == p.sha256(input)
  {
    if platform == MacOS then p.md5(input) else p.sha256(input)
  }

  const Slash: byte := 0x2F
  const Underscore: byte := 0x5F

  /** The Base64 text with every '/' replaced by '_', each other byte kept where it was. */
  function ReplaceSlash(s: seq<byte>): (r: seq<byte>)
    ensures |r| == |s|
    ensures forall i :: 0 <= i < |s| ==> r[i] == if s[i] == Slash then Underscore else s[i]
    ensures Slash !in r
  {
    if |s| == 0 then []
    else
      var head := if s[0] == Slash then Underscore else s[0];
      [head] + ReplaceSlash(s[1..])
  }

  /**
   * The endpoint name: the Base64 text of the digest of the hash input, with
   * '/' rewritten so that the name is a valid server name. It never holds a
   * '/' and is exactly as long as the Base64 text.
   */
  function BlockServerName(id: Identity, appData: seq<string>, options: set<Mode>, host: Host, p: Primitives): (name: seq<byte>)
    ensures var b64 := p.base64(Digest(host.platform, p, Concat(HashChunks(id, appData, options, host, p))));
            && |name| == |b64|
            && forall i :: 0 <= i < |name| ==> name[i] == if b64[i] == Slash then Underscore else b64[i]
    ensures Slash !in name
  {
    ReplaceSlash(p.base64(Digest(host.platform, p, Concat(HashChunks(id, appData, options, host, p)))))
  }

  /** The app-data list after addAppData: the new entry appended at the end. */
  function AddAppData(appData: seq<string>, data: string): (r: seq<string>)
    ensures |r| == |appData| + 1 && r[..|appData|] == appData && r[|appData|] == data
  {
    appData + [data]
  }

  /** Base64 text in the alphabet of section 6.8 of RFC 2045. */
  predicate Base64Byte(b: byte)
  {
    (0x41 <= b <= 0x5A) || (0x61 <= b <= 0x7A) || (0x30 <= b <= 0x39) || b == 0x2B || b == Slash || b == 0x3D
  }

  /** The same alphabet with '_' in place of '/'. */
  predicate NameByte(b: byte)
  {
    (0x41 <= b <= 0x5A) || (0x61 <= b <= 0x7A) || (0x30 <= b <= 0x39) || b == 0x2B || b == Underscore || b == 0x3D
  }

  /** The rewrite takes Base64 text into the server-name alphabet. */
  lemma ReplaceSlashAlphabet(s: seq<byte>)
    requires forall i :: 0 <= i < |s| ==> Base64Byte(s[i])
    ensures forall i :: 0 <= i < |ReplaceSlash(s)| ==> NameByte(ReplaceSlash(s)[i])
  {
  }

  /** Rewriting twice is rewriting once, and text without '/' is left alone. */
  lemma ReplaceSlashIdempotent(s: seq<byte>)
    ensures ReplaceSlash(ReplaceSlash(s)) == ReplaceSlash(s)
    ensures Slash !in s ==> ReplaceSlash(s) == s
  {
    var r := ReplaceSlash(s);
    assert forall i :: 0 <= i < |r| ==> r[i] != Slash;
  }

  /** Appending an entry to the list appends its text to the joined text. */
  lemma {:induction false} JoinAppend(parts: seq<string>, data: string)
    ensures Join(parts + [data]) == Join(parts) + data
    decreases |parts|
  {
    if |parts| == 0 {
      assert [] + [data] == [data];
      assert Join([data]) == data + Join([]);
    } else {
      assert (parts + [data])[1..] == parts[1..] + [data];
      JoinAppend(parts[1..], data);
    }
  }

  /**
   * addAppData followed by appData: the list grows by the new entry, and the
   * next derivation feeds the joined text with the entry at its end.
   */
  lemma AddedDataIsHashed(appData: seq<string>, data: string, id: Identity, options: set<Mode>, host: Host, p: Primitives)
    ensures AppDataText in FedFields(AddAppData(appData, data), options)
    ensures var cs := HashChunks(id, AddAppData(appData, data), options, host, p);
            forall i :: 0 <= i < |cs| && cs[i].field == AppDataText ==> cs[i].data == p.utf8(Join(appData) + data)
  {
    JoinAppend(appData, data);
  }

  /** The bytes fed for a sequence of fields, the last field's value last. */
  function FedBytes(fs: seq<Field>, id: Identity, appData: seq<string>, host: Host, p: Primitives): seq<byte>
    decreases |fs|
  {
    if |fs| == 0 then [] else FedBytes(fs[..|fs| - 1], id, appData, host, p) + FieldValue(fs[|fs| - 1], id, appData, host, p)
  }

  /** The chunks of a sequence of fields carry exactly its fed bytes. */
  lemma {:induction false} ConcatChunksOf(fs: seq<Field>, id: Identity, appData: seq<string>, host: Host, p: Primitives)
    ensures Concat(ChunksOf(fs, id, appData, host, p)) == FedBytes(fs, id, appData, host, p)
    decreases |fs|
  {
    if |fs| > 0 {
      var cs := ChunksOf(fs, id, appData, host, p);
      assert cs[..|cs| - 1] == ChunksOf(fs[..|fs| - 1], id, appData, host, p);
      ConcatChunksOf(fs[..|fs| - 1], id, appData, host, p);
    }
  }

  /** A conditional addData call appends the field's bytes exactly when its test holds. */
  lemma FedBytesFeedIf(fs: seq<Field>, f: Field, when: bool, id: Identity, appData: seq<string>, host: Host, p: Primitives)
    ensures FedBytes(fs + FeedIf(f, when), id, appData, host, p)
            == FedBytes(fs, id, appData, host, p) + When(when, FieldValue(f, id, appData, host, p))
  {
    if when {
      assert (fs + [f])[..|fs|] == fs;
    } else {
      assert fs + [] == fs;
    }
  }

  /**
   * The chunk model feeds the hash exactly the bytes of the source's
   * straight line of addData calls, so the name is the rewritten Base64
   * digest of those bytes.
   */
  lemma HashInputIsAddDataCalls(id: Identity, appData: seq<string>, options: set<Mode>, host: Host, p: Primitives)
    ensures Concat(HashChunks(id, appData, options, host, p)) == AddDataInput(id, appData, options, host, p)
    ensures BlockServerName(id, appData, options, host, p)
            == ReplaceSlash(p.base64(Digest(host.platform, p, AddDataInput(id, appData, options, host, p))))
  {
    ConcatChunksOf(FedFields(appData, options), id, appData, host, p);
    FedFieldsBytes(id, appData, options, host, p);
  }

  /** The fed bytes of the fed fields, one conditional addData call at a time. */
  lemma FedFieldsBytes(id: Identity, appData: seq<string>, options: set<Mode>, host: Host, p: Primitives)
    ensures FedBytes(FedFields(appData, options), id, appData, host, p) == AddDataInput(id, appData, options, host, p)
  {
    var f5 := [Tag, AppName, OrgName, OrgDomain] + FeedIf(AppDataText, |appData| > 0) + FeedIf(Version, ExcludeAppVersion !in options);
    var f6 := f5 + FeedIf(Path, ExcludeAppPath !in options);
    LeadingBytes(id, appData, options, host, p);
    FedBytesFeedIf(f5, Path, ExcludeAppPath !in options, id, appData, host, p);
    FedBytesFeedIf(f6, Username, User in options, id, appData, host, p);
    assert FieldValue(Path, id, appData, host, p) == PathBytes(id, host, p);
    assert FieldValue(Username, id, appData, host, p) == p.utf8(host.username);
  }

  /** The fed bytes up to the version: the first six addData calls. */
  lemma LeadingBytes(id: Identity, appData: seq<string>, options: set<Mode>, host: Host, p: Primitives)
    ensures FedBytes([Tag, AppName, OrgName, OrgDomain] + FeedIf(AppDataText, |appData| > 0)
                       + FeedIf(Version, ExcludeAppVersion !in options), id, appData, host, p)
            == TagBytes + p.utf8(id.appName) + p.utf8(id.orgName) + p.utf8(id.orgDomain)
               + When(|appData| > 0, p.utf8(Join(appData)))
               + When(ExcludeAppVersion !in options, p.utf8(id.appVersion))
  {
    var f3 := [Tag, AppName, OrgName, OrgDomain];
    IdentityBytes(id, appData, host, p);
    FedBytesFeedIf(f3, AppDataText, |appData| > 0, id, appData, host, p);
    FedBytesFeedIf(f3 + FeedIf(AppDataText, |appData| > 0), Version, ExcludeAppVersion !in options, id, appData, host, p);
  }

  /** The four unconditional addData calls feed the tag and the application's identity. */
  lemma IdentityBytes(id: Identity, appData: seq<string>, host: Host, p: Primitives)
    ensures FedBytes([Tag, AppName, OrgName, OrgDomain], id, appData, host, p)
            == TagBytes + p.utf8(id.appName) + p.utf8(id.orgName) + p.utf8(id.orgDomain)
  {
    var f1, f2, f3, f4 := [Tag], [Tag, AppName], [Tag, AppName, OrgName], [Tag, AppName, OrgName, OrgDomain];
    assert f1[..0] == [] && f2[..1] == f1 && f3[..2] == f2 && f4[..3] == f3;
    assert FedBytes(f1, id, appData, host, p) == TagBytes;
    assert FedBytes(f2, id, appData, host, p) == TagBytes + p.utf8(id.appName);
    assert FedBytes(f3, id, appData, host, p) == TagBytes + p.utf8(id.appName) + p.utf8(id.orgName);
  }

  /** The bytes of a prefix of the chunks are a prefix of the hash input. */
  lemma {:induction false} ConcatPrefix(cs: seq<Chunk>, k: nat)
    requires k <= |cs|
    ensures |Concat(cs[..k])| <= |Concat(cs)| && Concat(cs)[..|Concat(cs[..k])|] == Concat(cs[..k])
    decreases |cs|
  {
    if k < |cs| {
      var init := cs[..|cs| - 1];
      assert init[..k] == cs[..k];
      ConcatPrefix(init, k);
      assert Concat(cs) == Concat(init) + cs[|cs| - 1].data;
    } else {
      assert cs[..k] == cs;
    }
  }

  /**
   * The hash input always starts with the tag "SingleApplication" followed
   * by the UTF-8 of the application name, organization name and
   * organization domain, whatever the options.
   */
  lemma HashInputStart(id: Identity, appData: seq<string>, options: set<Mode>, host: Host, p: Primitives)
    ensures var start := TagBytes + p.utf8(id.appName) + p.utf8(id.orgName) + p.utf8(id.orgDomain);
            var input := Concat(HashChunks(id, appData, options, host, p));
            |start| <= |input| && input[..|start|] == start
  {
    var cs := HashChunks(id, appData, options, host, p);
    var fs := FedFields(appData, options);
    assert fs[0] == Tag && fs[1] == AppName && fs[2] == OrgName && fs[3] == OrgDomain;
    ConcatPrefix(cs, 4);
    var c4 := cs[..4];
    assert c4[..3] == cs[..3] && cs[..3][..2] == cs[..2] && cs[..2][..1] == cs[..1] && cs[..1][..0] == [];
    assert Concat(cs[..1]) == TagBytes;
    assert Concat(cs[..2]) == TagBytes + p.utf8(id.appName);
    assert Concat(cs[..3]) == TagBytes + p.utf8(id.appName) + p.utf8(id.orgName);
  }

  /**
   * The name depends only on the fields that are fed: two derivations on
   * one platform, with the same options and the same value for every fed
   * field, give the same name.
   */
  lemma SameFedValuesSameName(id: Identity, appData: seq<string>, host: Host, id': Identity, appData': seq<string>, host': Host, options: set<Mode>, p: Primitives)
    requires host.platform == host'.platform
    requires (|appData| > 0 <==> |appData'| > 0)
    requires forall f :: f in FedFields(appData, options) ==> FieldValue(f, id, appData, host, p) == FieldValue(f, id', appData', host', p)
    ensures BlockServerName(id, appData, options, host, p) == BlockServerName(id', appData', options, host', p)
  {
    var fs, fs' := FedFields(appData, options), FedFields(appData', options);
    assert fs == fs';
    var cs, cs' := HashChunks(id, appData, options, host, p), HashChunks(id', appData', options, host', p);
    assert forall i :: 0 <= i < |cs| ==> fs[i] in fs;
    assert cs == cs';
  }

  /** With ExcludeAppVersion set the application version does not change the name. */
  lemma ExcludedVersionIgnored(id: Identity, appData: seq<string>, options: set<Mode>, host: Host, p: Primitives, version: string)
    requires ExcludeAppVersion in options
    ensures BlockServerName(id, appData, options, host, p) == BlockServerName(id.(appVersion := version), appData, options, host, p)
  {
    var id' := id.(appVersion := version);
    forall f | f in FedFields(appData, options)
      ensures FieldValue(f, id, appData, host, p) == FieldValue(f, id', appData, host, p)
    {
      assert f != Version;
    }
    SameFedValuesSameName(id, appData, host, id', appData, host, options, p);
  }

  /** With ExcludeAppPath set neither the executable path nor APPIMAGE changes the name. */
  lemma ExcludedPathIgnored(id: Identity, appData: seq<string>, options: set<Mode>, host: Host, p: Primitives, path: string, appImage: seq<byte>)
    requires ExcludeAppPath in options
    ensures BlockServerName(id, appData, options, host, p)
            == BlockServerName(id.(appFilePath := path), appData, options, host.(appImage := appImage), p)
  {
    var id', host' := id.(appFilePath := path), host.(appImage := appImage);
    forall f | f in FedFields(appData, options)
      ensures FieldValue(f, id, appData, host, p) == FieldValue(f, id', appData, host', p)
    {
      assert f != Path;
    }
    SameFedValuesSameName(id, appData, host, id', appData, host', options, p);
  }

  /** Without User mode the user name does not change the name, so all users share it. */
  lemma UserIgnoredOutsideUserMode(id: Identity, appData: seq<string>, options: set<Mode>, host: Host, p: Primitives, username: string)
    requires User !in options
    ensures BlockServerName(id, appData, options, host, p) == BlockServerName(id, appData, options, host.(username := username), p)
  {
    var host' := host.(username := username);
    forall f | f in FedFields(appData, options)
      ensures FieldValue(f, id, appData, host, p) == FieldValue(f, id, appData, host', p)
    {
      assert f != Username;
    }
    SameFedValuesSameName(id, appData, host, id, appData, host', options, p);
  }

  /**
   * On Linux a non-empty APPIMAGE stands for the executable: its raw bytes are
   * what is fed, and the executable path no longer changes the name.
   */
  lemma AppImageReplacesPath(id: Identity, appData: seq<string>, options: set<Mode>, host: Host, p: Primitives, path: string)
    requires host.platform == Linux && |host.appImage| > 0
    ensures FieldValue(Path, id, appData, host, p) == host.appImage
    ensures BlockServerName(id, appData, options, host, p) == BlockServerName(id.(appFilePath := path), appData, options, host, p)
  {
    var id' := id.(appFilePath := path);
    forall f | f in FedFields(appData, options)
      ensures FieldValue(f, id, appData, host, p) == FieldValue(f, id', appData, host, p)
    {
      if f == Path {
        assert PathBytes(id, host, p) == host.appImage == PathBytes(id', host, p);
      }
    }
    SameFedValuesSameName(id, appData, host, id', appData, host, options, p);
  }

  /**
   * On Windows the path is lower-cased before it is fed, so two paths that
   * differ only in letter case name the same endpoint; elsewhere the path
   * is fed as it is (unless an AppImage stands for it on Linux).
   */
  lemma PathCaseIgnoredOnWindows(id: Identity, appData: seq<string>, options: set<Mode>, host: Host, p: Primitives, path: string)
    requires host.platform == Windows && p.toLower(path) == p.toLower(id.appFilePath)
    ensures BlockServerName(id, appData, options, host, p) == BlockServerName(id.(appFilePath := path), appData, options, host, p)
  {
    var id' := id.(appFilePath := path);
    forall f | f in FedFields(appData, options)
      ensures FieldValue(f, id, appData, host, p) == FieldValue(f, id', appData, host, p)
    {
      if f == Path {
        assert PathBytes(id, host, p) == PathBytes(id', host, p);
      }
    }
    SameFedValuesSameName(id, appData, host, id', appData, host, options, p);
  }

  /**
   * With MD5 giving 16 bytes, SHA-256 32 and Base64 four characters per three
   * bytes (padded), the name has 24 characters on macOS, within the 31 its
   * shared-memory keys allow, and 44 elsewhere.
   */
  lemma NameLengthByPlatform(id: Identity, appData: seq<string>, options: set<Mode>, host: Host, p: Primitives)
    requires forall b :: |p.md5(b)| == 16
    requires forall b :: |p.sha256(b)| == 32
    requires forall b :: |p.base64(b)| == 4 * ((|b| + 2) / 3)
    ensures |BlockServerName(id, appData, options, host, p)| == if host.platform == MacOS then 24 else 44
    ensures host.platform == MacOS ==> |BlockServerName(id, appData, options, host, p)| <= 31
  {
    var d := Digest(host.platform, p, Concat(HashChunks(id, appData, options, host, p)));
    assert |d| == if host.platform == MacOS then 16 else 32;
  }

  /**
   * The entries are joined with no separator, so any two lists with the same
   * joined text give the same name, provided both are fed or neither is (or
   * the empty text encodes to no bytes, when a list of empty entries and the
   * empty list feed the same nothing).
   */
  lemma AppDataJoinedWithoutSeparator(id: Identity, appData: seq<string>, appData': seq<string>, options: set<Mode>, host: Host, p: Primitives)
    requires Join(appData) == Join(appData')
    requires (|appData| > 0 <==> |appData'| > 0) || p.utf8([]) == []
    ensures BlockServerName(id, appData, options, host, p) == BlockServerName(id, appData', options, host, p)
  {
    HashInputIsAddDataCalls(id, appData, options, host, p);
    HashInputIsAddDataCalls(id, appData', options, host, p);
    var fed := if |appData| > 0 then p.utf8(Join(appData)) else [];
    var fed' := if |appData'| > 0 then p.utf8(Join(appData')) else [];
    assert fed == fed';
  }

  /** Two different lists, ["ab"] and ["a", "b"], that name the same endpoint. */
  lemma AppDataSplitCollides(id: Identity, options: set<Mode>, host: Host, p: Primitives)
    ensures ["ab"] != ["a", "b"]
    ensures BlockServerName(id, ["ab"], options, host, p) == BlockServerName(id, ["a", "b"], options, host, p)
  {
    assert Join(["a", "b"]) == "a" + Join(["b"]);
    assert Join(["b"]) == "b" + Join([]);
    assert Join(["ab"]) == "ab" + Join([]);
    AppDataJoinedWithoutSeparator(id, ["ab"], ["a", "b"], options, host, p);
  }
}
