/** Image references: the digest tests of the Go side and of the SQL side, and
    the reference parser with its two printers. */
module ImageReferences {
  import opened Options
  import opened SqlLike
  import opened Text

  predicate IsHex(c: char) { '0' <= c <= '9' || 'a' <= c <= 'f' }

  predicate AllHex(s: string) { forall i | 0 <= i < |s| :: IsHex(s[i]) }

  /** The hex length of each algorithm the digest library knows. */
  function HexLength(algorithm: string): Option<nat> {
    if algorithm == "sha256" then Some(64)
    else if algorithm == "sha384" then Some(96)
    else if algorithm == "sha512" then Some(128)
    else None
  }

  /** digest.Parse succeeds: "<algorithm>:<hex>", with a known algorithm and its hex length. */
  predicate ValidDigest(s: string) {
    var i := IndexOf(s, ':');
    i > 0 && i + 1 < |s| && HexLength(s[..i]) == Some(|s| - i - 1) && AllHex(s[i + 1..])
  }

  /** registry.IsDigestReference. */
  predicate IsDigestReference(image: string) {
    ValidDigest(AfterLastAt(TrimSpace(image)))
  }

  function AfterLastAt(s: string): string {
    s[LastIndexOf(s, '@') + 1..]
  }

  /** stableImageReference and registryImageRef: a digest never displaces a known tag. */
  function StableImageReference(operationImage: string, storedImage: string): string {
    if IsDigestReference(operationImage) && storedImage != "" && !IsDigestReference(storedImage)
    then storedImage
    else operationImage
  }

  // Agreement of the two digest tests.

  /** A digest for Go is one for SQL unless it has neither a repository part nor
      the sha256 prefix, that is, unless it is a bare sha384 or sha512 digest or a
      bare digest behind leading blanks. */
  lemma GoDigestSeenBySql(image: string)
    requires IsDigestReference(image)
    ensures SqlDigest(image) <==> '@' in image || SameAt(image, 0, "sha256:")
  {
    SqlDigestMeaning(image);
    if '@' in image {
      TrimKeeps(image, '@');
      ColonFollowsAt(image);
    }
  }

  lemma ColonFollowsAt(image: string)
    requires IsDigestReference(image) && '@' in TrimSpace(image)
    ensures ColonAfterAt(image)
  {
    var from, to := TrimSpaceIsSlice(image);
    ValidHasColon(AfterLastAt(TrimSpace(image)));
    TrimmedColonAfterAt(image, from, TrimSpace(image));
  }

  lemma ValidHasColon(s: string)
    requires ValidDigest(s)
    ensures ':' in s
  {
  }

  lemma TrimmedColonAfterAt(image: string, from: nat, trimmed: string)
    requires from + |trimmed| <= |image| && trimmed == image[from..from + |trimmed|]
    requires '@' in trimmed && ':' in AfterLastAt(trimmed)
    ensures ColonAfterAt(image)
  {
  }

  lemma SliceColonAfterAt(image: string, from: nat, trimmed: string, at: nat, colon: nat)
    requires from + |trimmed| <= |image| && trimmed == image[from..from + |trimmed|]
    requires at < |trimmed| && trimmed[at] == '@'
    requires at + 1 + colon < |trimmed| && trimmed[at + 1 + colon] == ':'
    ensures ColonAfterAt(image)
  {
  }

  lemma {:induction false} TrimLeftKeeps(s: string, c: char)
    requires c in s && !IsSpace(c)
    ensures c in TrimLeft(s)
  {
    if s != "" && IsSpace(s[0]) {
      TrimLeftKeeps(s[1..], c);
    }
  }

  lemma {:induction false} TrimRightKeeps(s: string, c: char)
    requires c in s && !IsSpace(c)
    ensures c in TrimRight(s)
  {
    if s != "" && IsSpace(s[|s| - 1]) {
      TrimRightKeeps(s[..|s| - 1], c);
    }
  }

  lemma TrimKeeps(s: string, c: char)
    requires c in s && !IsSpace(c)
    ensures c in TrimSpace(s)
  {
    TrimLeftKeeps(s, c);
    TrimRightKeeps(TrimLeft(s), c);
  }

  /** A raw image ID, the form inspect reports. */
  predicate RawImageId(image: string) {
    |image| == 71 && image[..7] == "sha256:" && AllHex(image[7..])
  }

  /** A repository pinned by a sha256 digest. */
  predicate CanonicalReference(image: string) {
    && |image| > 72 && image[|image| - 72] == '@' && RawImageId(image[|image| - 71..])
    && Graphic(image)
  }

  /** No blanks. */
  predicate Graphic(image: string) {
    forall i | 0 <= i < |image| :: !IsSpace(image[i])
  }

  /** A tag reference: no digest separator, and what stands before the first
      colon is not the name of a digest algorithm. */
  predicate TagReference(image: string) {
    && image != "" && '@' !in image && Graphic(image)
    && (':' in image ==> HexLength(image[..IndexOf(image, ':')]).None?)
    && !SameAt(image, 0, "sha256:")
  }

  predicate DockerReference(image: string) {
    RawImageId(image) || CanonicalReference(image) || TagReference(image)
  }

  lemma GraphicIsTrimmed(image: string)
    requires Graphic(image)
    ensures TrimSpace(image) == image
  {
  }

  lemma RawImageIdIsValid(image: string)
    requires RawImageId(image)
    ensures ValidDigest(image) && Graphic(image) && '@' !in image
  {
    assert image == "sha256" + [':'] + image[7..];
    IndexOfUnique("sha256", ':', image[7..]);
    forall i | 0 <= i < |image| ensures !IsSpace(image[i]) && image[i] != '@' {
      if i >= 7 {
        assert image[7..][i - 7] == image[i];
      } else {
        assert image[..7][i] == image[i];
      }
    }
  }

  /** On every reference Docker produces the SQL and the Go test agree, and both
      say "digest" for exactly the two immutable forms. */
  lemma DigestTestsAgree(image: string)
    requires DockerReference(image)
    ensures SqlDigest(image) <==> IsDigestReference(image)
    ensures IsDigestReference(image) <==> RawImageId(image) || CanonicalReference(image)
  {
    SqlDigestMeaning(image);
    if RawImageId(image) {
      RawIsDigest(image);
    } else if CanonicalReference(image) {
      CanonicalIsDigest(image);
    } else {
      GraphicIsTrimmed(image);
    }
  }

  lemma RawIsDigest(image: string)
    requires RawImageId(image)
    ensures IsDigestReference(image) && SameAt(image, 0, "sha256:")
  {
    RawImageIdIsValid(image);
    GraphicIsTrimmed(image);
    assert forall j | 0 <= j < 7 :: image[j] == image[..7][j];
  }

  lemma CanonicalIsDigest(image: string)
    requires CanonicalReference(image)
    ensures IsDigestReference(image) && ColonAfterAt(image)
  {
    var name, id := image[..|image| - 72], image[|image| - 71..];
    RawImageIdIsValid(id);
    GraphicIsTrimmed(image);
    assert image == name + ['@'] + id;
    DigestAfterName(name, id);
    assert id[6] == id[..7][6] == ':';
    SliceColonAfterAt(image, 0, image, |name|, 6);
  }

  lemma DigestAfterName(name: string, id: string)
    requires '@' !in id
    ensures AfterLastAt(name + ['@'] + id) == id
  {
    LastIndexOfUnique(name, '@', id);
  }

  // References.

  const DOCKER_HUB := "registry-1.docker.io"
  const LIBRARY := "library/"

  datatype Ref = Ref(registry: string, repository: string, tag: string)

  predicate LooksLikeHost(segment: string) {
    '.' in segment || ':' in segment || segment == "localhost"
  }

  /** The registry of a first segment, and what is left to split into repository and tag. */
  function SplitRegistry(image: string): (string, string) {
    var slash := IndexOf(image, '/');
    if slash != -1 && LooksLikeHost(image[..slash]) then (image[..slash], image[slash + 1..])
    else (DOCKER_HUB, image)
  }

  function SplitTag(remainder: string): (string, string) {
    var colon := LastIndexOf(remainder, ':');
    if colon != -1 then (remainder[..colon], remainder[colon + 1..]) else (remainder, "latest")
  }

  function ServingRegistry(registry: string): string {
    if registry == "docker.io" || registry == "index.docker.io" then DOCKER_HUB else registry
  }

  /** Official images live below library/ on Docker Hub. */
  function WithLibrary(registry: string, repo: string): string {
    if registry == DOCKER_HUB && '/' !in repo then LIBRARY + repo else repo
  }

  /** registry.ParseRef. */
  function ParseRef(image: string): Ref {
    var (host, remainder) := SplitRegistry(image);
    var (repo, tag) := SplitTag(remainder);
    var registry := ServingRegistry(host);
    Ref(registry, WithLibrary(registry, repo), tag)
  }

  /** registry.ReplaceTag. */
  function ReplaceTag(ref: Ref, tag: string): string {
    (if ref.registry != DOCKER_HUB then ref.registry + "/" + ref.repository
     else if |ref.repository| > |LIBRARY| && HasPrefix(ref.repository, LIBRARY) then ref.repository[|LIBRARY|..]
     else ref.repository) + ":" + tag
  }

  /** stripImageTag. */
  function StripImageTag(image: string): string {
    var slash := LastIndexOf(image, '/');
    var colon := LastIndexOf(image, ':');
    if colon > slash then image[..colon] else image
  }

  /** A parsed reference that the printer cannot write back: a Docker Hub
      repository whose first segment would be read as a host, or one below
      library/ with a further slash. */
  predicate Unprintable(ref: Ref) {
    && ref.registry == DOCKER_HUB
    && (if |ref.repository| > |LIBRARY| && HasPrefix(ref.repository, LIBRARY)
        then '/' in ref.repository[|LIBRARY|..]
        else '/' in ref.repository && LooksLikeHost(ref.repository[..IndexOf(ref.repository, '/')]))
  }

  lemma SplitTagOf(repo: string, tag: string)
    requires ':' !in tag
    ensures SplitTag(repo + ":" + tag) == (repo, tag)
  {
    var text := repo + [':'] + tag;
    LastIndexOfUnique(repo, ':', tag);
    assert text[..|repo|] == repo && text[|repo| + 1..] == tag;
  }

  lemma SplitRegistryOf(first: string, rest: string)
    requires '/' !in first
    ensures SplitRegistry(first + "/" + rest)
         == if LooksLikeHost(first) then (first, rest) else (DOCKER_HUB, first + "/" + rest)
  {
    var text := first + ['/'] + rest;
    IndexOfUnique(first, '/', rest);
    assert text[..|first|] == first && text[|first| + 1..] == rest;
  }

  /** Parsing "first/rest:tag". */
  lemma ParseRefOf(first: string, rest: string, tag: string)
    requires '/' !in first && ':' !in tag
    ensures ParseRef(first + "/" + rest + ":" + tag)
         == if LooksLikeHost(first)
            then Ref(ServingRegistry(first), WithLibrary(ServingRegistry(first), rest), tag)
            else Ref(DOCKER_HUB, first + "/" + rest, tag)
  {
    var tail := rest + ":" + tag;
    assert first + "/" + rest + ":" + tag == first + "/" + tail;
    SplitRegistryOf(first, tail);
    SplitTagOf(rest, tag);
    if !LooksLikeHost(first) {
      SplitTagOf(first + "/" + rest, tag);
      assert (first + "/" + rest)[|first|] == '/';
    }
  }

  /** Parsing "name:tag" when neither part holds a slash. */
  lemma ParseRefOfShort(name: string, tag: string)
    requires '/' !in name && ':' !in tag && '/' !in tag
    ensures ParseRef(name + ":" + tag) == Ref(DOCKER_HUB, LIBRARY + name, tag)
  {
    assert '/' !in name + ":" + tag;
    SplitTagOf(name, tag);
  }

  /** A bare name is the latest official image on Docker Hub. */
  lemma BareNameIsOfficial(name: string)
    requires ':' !in name && '/' !in name
    ensures ParseRef(name) == Ref("registry-1.docker.io", "library/" + name, "latest")
  {
  }

  /** The digest algorithms and the lengths of their hexadecimal texts. */
  lemma KnownAlgorithms(algorithm: string)
    ensures HexLength(algorithm) == Some(64) <==> algorithm == "sha256"
    ensures HexLength(algorithm) == Some(96) <==> algorithm == "sha384"
    ensures HexLength(algorithm) == Some(128) <==> algorithm == "sha512"
    ensures HexLength(algorithm).Some? ==> algorithm in ["sha256", "sha384", "sha512"]
  {
  }

  /** The first segment of a reference names its registry exactly when it has a dot or a
      colon or is localhost. */
  lemma FirstSegmentIsRegistry(first: string, rest: string, tag: string)
    requires '/' !in first && ':' !in tag && '/' in rest && first != "docker.io" && first != "index.docker.io"
    ensures ParseRef(first + "/" + rest + ":" + tag)
         == if '.' in first || ':' in first || first == "localhost" then Ref(first, rest, tag)
            else Ref(DOCKER_HUB, first + "/" + rest, tag)
  {
    ParseRefOf(first, rest, tag);
  }

  /** docker.io and index.docker.io stand for Docker Hub. */
  lemma HubHasAliases(first: string, rest: string, tag: string)
    requires first == "docker.io" || first == "index.docker.io"
    requires ':' !in tag && '/' in rest
    ensures ParseRef(first + "/" + rest + ":" + tag) == Ref(DOCKER_HUB, rest, tag)
  {
    assert '.' in first by {
      assert first[if |first| == 9 then 6 else 5] == '.';
    }
    ParseRefOf(first, rest, tag);
  }

  lemma ParsedRegistry(image: string)
    ensures var r := ParseRef(image).registry;
            '/' !in r && (r != DOCKER_HUB ==> LooksLikeHost(r) && ServingRegistry(r) == r)
    ensures ParseRef(image).registry == DOCKER_HUB ==> '/' in ParseRef(image).repository
  {
  }

  /** A text cut at its first slash. */
  lemma CutAtSlash(text: string) returns (first: string, rest: string)
    requires '/' in text
    ensures text == first + "/" + rest && '/' !in first && first == text[..IndexOf(text, '/')]
  {
    var slash := IndexOf(text, '/');
    first, rest := text[..slash], text[slash + 1..];
  }

  /** Printing a parsed reference with another tag and parsing it again gives the
      same registry and repository, exactly when the reference is printable. */
  lemma ReplaceTagRoundTrip(image: string, tag: string)
    requires ':' !in tag && '/' !in tag
    ensures ParseRef(ReplaceTag(ParseRef(image), tag)) == ParseRef(image).(tag := tag)
       <==> !Unprintable(ParseRef(image))
  {
    ParsedRegistry(image);
    PrintedRoundTrip(ParseRef(image), tag);
  }

  lemma PrintedRoundTrip(ref: Ref, tag: string)
    requires ':' !in tag && '/' !in tag && '/' !in ref.registry
    requires if ref.registry == DOCKER_HUB then '/' in ref.repository
             else LooksLikeHost(ref.registry) && ServingRegistry(ref.registry) == ref.registry
    ensures ParseRef(ReplaceTag(ref, tag)) == ref.(tag := tag) <==> !Unprintable(ref)
  {
    var repo := ref.repository;
    if ref.registry != DOCKER_HUB {
      ParseRefOf(ref.registry, repo, tag);
      assert ReplaceTag(ref, tag) == ref.registry + "/" + repo + ":" + tag;
    } else if |repo| > |LIBRARY| && HasPrefix(repo, LIBRARY) {
      var name := repo[|LIBRARY|..];
      assert ReplaceTag(ref, tag) == name + ":" + tag;
      assert repo == LIBRARY + name;
      LibraryRoundTrip(name, tag);
    } else {
      assert ReplaceTag(ref, tag) == repo + ":" + tag;
      HubRoundTrip(repo, tag);
    }
  }

  lemma LibraryRoundTrip(name: string, tag: string)
    requires ':' !in tag && '/' !in tag
    ensures ParseRef(name + ":" + tag) == Ref(DOCKER_HUB, LIBRARY + name, tag) <==> '/' !in name
  {
    if '/' in name {
      var first, rest := CutAtSlash(name);
      ParseRefOf(first, rest, tag);
      assert |ParseRef(name + ":" + tag).repository| < |LIBRARY + name|;
    } else {
      ParseRefOfShort(name, tag);
    }
  }

  lemma HubRoundTrip(repo: string, tag: string)
    requires ':' !in tag && '/' in repo
    ensures ParseRef(repo + ":" + tag) == Ref(DOCKER_HUB, repo, tag)
       <==> !LooksLikeHost(repo[..IndexOf(repo, '/')])
  {
    var first, rest := CutAtSlash(repo);
    ParseRefOf(first, rest, tag);
    if LooksLikeHost(first) {
      NotLibrary(first, rest);
    }
  }

  lemma NotLibrary(first: string, rest: string)
    requires LooksLikeHost(first)
    ensures first + "/" + rest != LIBRARY + rest && first + "/" + rest != rest
  {
    assert first == (first + "/" + rest)[..|first|];
    assert (LIBRARY + rest)[..7] == "library";
    assert |first + "/" + rest| > |rest|;
  }

  predicate SameRepository(a: Ref, b: Ref) {
    a.registry == b.registry && a.repository == b.repository
  }

  /** Stripping the tag keeps registry and repository, exactly when no colon stands after
      the last slash or the repository itself holds no colon. */
  lemma StripImageTagKeepsRepository(image: string)
    ensures SameRepository(ParseRef(StripImageTag(image)), ParseRef(image))
       <==> LastIndexOf(image, ':') <= LastIndexOf(image, '/') || ':' !in ParseRef(image).repository
  {
    if StripImageTag(image) != image {
      var tag := StripShape(image);
      StripTagged(StripImageTag(image), tag);
    }
  }

  lemma StripShape(image: string) returns (tag: string)
    requires StripImageTag(image) != image
    ensures image == StripImageTag(image) + ":" + tag && ':' !in tag && '/' !in tag
  {
    var colon := LastIndexOf(image, ':');
    tag := image[colon + 1..];
    NoSlashAfter(image, LastIndexOf(image, '/'), colon);
    RejoinAt(image, colon);
  }

  lemma RejoinAt(s: string, i: nat)
    requires i < |s|
    ensures s == s[..i] + [s[i]] + s[i + 1..]
  {
  }

  lemma NoSlashAfter(image: string, slash: int, colon: nat)
    requires -1 <= slash < colon < |image| && '/' !in image[slash + 1..]
    ensures '/' !in image[colon + 1..]
  {
  }

  lemma StripTagged(short: string, tag: string)
    requires ':' !in tag && '/' !in tag
    ensures SameRepository(ParseRef(short), ParseRef(short + ":" + tag))
       <==> ':' !in ParseRef(short + ":" + tag).repository
  {
    if '/' in short {
      var first, rest := CutAtSlash(short);
      StripBelowSlash(first, rest, tag);
    } else {
      ParseRefOfShort(short, tag);
      StripCore(DOCKER_HUB, short);
    }
  }

  /** Where a reference with a slash is served from and what it names, before its tag is
      taken off. */
  function ServedAs(first: string, rest: string): (string, string) {
    if LooksLikeHost(first) then (ServingRegistry(first), rest) else (DOCKER_HUB, first + "/" + rest)
  }

  lemma ParseServed(first: string, rest: string)
    requires '/' !in first
    ensures var (registry, repo) := ServedAs(first, rest);
            var ref := ParseRef(first + "/" + rest);
            ref.registry == registry && ref.repository == WithLibrary(registry, SplitTag(repo).0)
  {
    SplitRegistryOf(first, rest);
  }

  lemma ParseServedTagged(first: string, rest: string, tag: string)
    requires '/' !in first && ':' !in tag
    ensures var (registry, repo) := ServedAs(first, rest);
            ParseRef(first + "/" + rest + ":" + tag) == Ref(registry, WithLibrary(registry, repo), tag)
  {
    ParseRefOf(first, rest, tag);
    assert (first + "/" + rest)[|first|] == '/';
  }

  lemma StripBelowSlash(first: string, rest: string, tag: string)
    requires '/' !in first && ':' !in tag
    ensures var short := first + "/" + rest;
            SameRepository(ParseRef(short), ParseRef(short + ":" + tag))
            <==> ':' !in ParseRef(short + ":" + tag).repository
  {
    ParseServed(first, rest);
    ParseServedTagged(first, rest, tag);
    StripCore(ServedAs(first, rest).0, ServedAs(first, rest).1);
  }

  lemma StripCore(registry: string, repo: string)
    ensures WithLibrary(registry, SplitTag(repo).0) == WithLibrary(registry, repo)
       <==> ':' !in WithLibrary(registry, repo)
  {
  }
}
