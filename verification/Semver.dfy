/** Strict semantic-version tags and the update candidates a check derives from them. */
module Semver {
  import opened Options
  import opened Text
  import opened ImageReferences
  import opened UpdateCandidates

  datatype Version = Version(major: nat, minor: nat, patch: nat)

  const MAX_INT := 0x7fff_ffff_ffff_ffff

  predicate AllDigits(s: string) {
    forall i | 0 <= i < |s| :: '0' <= s[i] <= '9'
  }

  function Value(digits: string): nat
    requires AllDigits(digits)
  {
    if digits == "" then 0 else 10 * Value(digits[..|digits| - 1]) + (digits[|digits| - 1] as int - '0' as int)
  }

  /** strconv.Atoi on a run of digits, its range error ignored: the value saturates. */
  function Atoi(digits: string): nat
    requires AllDigits(digits)
  {
    if Value(digits) <= MAX_INT then Value(digits) else MAX_INT
  }

  function WithoutV(tag: string): string {
    if tag != "" && tag[0] == 'v' then tag[1..] else tag
  }

  predicate Number(s: string) {
    s != "" && AllDigits(s)
  }

  /** The text before the first dot and the text after it. */
  function CutAtDot(s: string): Option<(string, string)> {
    var i := IndexOf(s, '.');
    if i < 0 then None else Some((s[..i], s[i + 1..]))
  }

  /** parseSemanticVersion. */
  function Parse(tag: string): Option<Version> {
    match CutAtDot(WithoutV(tag))
    case None => None
    case Some((a, rest)) =>
      match CutAtDot(rest)
      case None => None
      case Some((b, c)) =>
        if Number(a) && Number(b) && Number(c) then Some(Version(Atoi(a), Atoi(b), Atoi(c))) else None
  }

  /** The regular expression: an optional v and three dotted numbers. */
  predicate Strict(tag: string, prefix: string, a: string, b: string, c: string) {
    && (prefix == "" || prefix == "v") && Number(a) && Number(b) && Number(c)
    && tag == prefix + (a + ['.'] + (b + ['.'] + c))
  }

  lemma CutAtFirstDot(a: string, b: string)
    requires '.' !in a
    ensures CutAtDot(a + ['.'] + b) == Some((a, b))
  {
    IndexOfUnique(a, '.', b);
    var s := a + ['.'] + b;
    assert s[..|a|] == a && s[|a| + 1..] == b;
  }

  lemma CutRejoins(s: string)
    requires CutAtDot(s).Some?
    ensures s == CutAtDot(s).value.0 + ['.'] + CutAtDot(s).value.1
  {
  }

  lemma DigitsOnly(s: string)
    requires AllDigits(s)
    ensures '.' !in s && ':' !in s && '/' !in s && 'v' !in s
  {
  }

  lemma WithoutPrefix(prefix: string, t: string)
    requires (prefix == "" || prefix == "v") && t != "" && t[0] != 'v'
    ensures WithoutV(prefix + t) == t
  {
  }

  /** Every text of that form parses, to its three numbers. */
  lemma StrictParses(tag: string, prefix: string, a: string, b: string, c: string)
    requires Strict(tag, prefix, a, b, c)
    ensures Parse(tag) == Some(Version(Atoi(a), Atoi(b), Atoi(c)))
  {
    DigitsOnly(a);
    DigitsOnly(b);
    var t := a + ['.'] + (b + ['.'] + c);
    assert t[0] == a[0];
    WithoutPrefix(prefix, t);
    CutAtFirstDot(a, b + ['.'] + c);
    CutAtFirstDot(b, c);
  }

  /** And nothing else does. */
  lemma ParsedIsStrict(tag: string) returns (prefix: string, a: string, b: string, c: string)
    requires Parse(tag).Some?
    ensures Strict(tag, prefix, a, b, c)
  {
    var t := WithoutV(tag);
    CutRejoins(t);
    CutRejoins(CutAtDot(t).value.1);
    prefix := if t == tag then "" else "v";
    assert tag == prefix + t;
    a := CutAtDot(t).value.0;
    b, c := CutAtDot(CutAtDot(t).value.1).value.0, CutAtDot(CutAtDot(t).value.1).value.1;
  }

  /** A version tag can stand in a reference. */
  lemma ParsedIsPlain(tag: string)
    requires Parse(tag).Some?
    ensures ':' !in tag && '/' !in tag
  {
    var prefix, a, b, c := ParsedIsStrict(tag);
    StrictIsPlain(tag, prefix, a, b, c);
  }

  lemma StrictIsPlain(tag: string, prefix: string, a: string, b: string, c: string)
    requires Strict(tag, prefix, a, b, c)
    ensures ':' !in tag && '/' !in tag
  {
  }

  // Precedence.

  predicate Greater(v: Version, w: Version) {
    if v.major != w.major then v.major > w.major
    else if v.minor != w.minor then v.minor > w.minor
    else v.patch > w.patch
  }

  /** Precedence as in item 11 of Semantic Versioning 2.0.0: the first field that differs,
      from major to patch, decides. */
  lemma PrecedenceByField(v: Version, w: Version)
    ensures v.major > w.major ==> Greater(v, w)
    ensures v.major == w.major && v.minor > w.minor ==> Greater(v, w)
    ensures v.major == w.major && v.minor == w.minor ==> (Greater(v, w) <==> v.patch > w.patch)
    ensures Greater(v, w) ==> !Greater(w, v)
  {
  }

  /** A number in decimal is read back, up to the largest 64-bit integer. */
  lemma {:induction false} AtoiReadsDecimals(n: nat)
    ensures Number(Decimal(n)) && Value(Decimal(n)) == n
    ensures Atoi(Decimal(n)) == if n <= 0x7fff_ffff_ffff_ffff then n else 0x7fff_ffff_ffff_ffff
  {
    if n >= 10 {
      AtoiReadsDecimals(n / 10);
      var digits := Decimal(n);
      assert digits == Decimal(n / 10) + Decimal(n % 10);
      assert digits[..|digits| - 1] == Decimal(n / 10);
      assert digits[|digits| - 1] == Decimal(n % 10)[0];
    } else {
      assert Decimal(n)[..0] == "";
    }
  }

  datatype Level = Major | Minor | Patch

  predicate Compatible(level: Level, candidate: Version, current: Version) {
    match level
    case Major => true
    case Minor => candidate.major == current.major
    case Patch => candidate.major == current.major && candidate.minor == current.minor
  }

  /** What each level may change: a major update anything, a minor one not the major
      version, a patch only the patch. */
  lemma LevelsAllow(candidate: Version, current: Version)
    ensures Compatible(Major, candidate, current)
    ensures Compatible(Minor, candidate, current)
       <==> candidate == current.(minor := candidate.minor, patch := candidate.patch)
    ensures Compatible(Patch, candidate, current) <==> candidate == current.(patch := candidate.patch)
  {
  }

  /** How tags are read; always Parse, kept abstract where only the order matters. */
  type Reader = string -> Option<Version>

  /** A tag the level may update to. */
  predicate Offered(read: Reader, tag: string, current: Version, level: Level) {
    read(tag).Some? && Greater(read(tag).value, current) && Compatible(level, read(tag).value, current)
  }

  /** The tag's version is the highest on offer. */
  ghost predicate Best(read: Reader, tags: set<string>, current: Version, level: Level, tag: string) {
    && tag in tags && Offered(read, tag, current, level)
    && forall other | other in tags && Offered(read, other, current, level) ::
          !Greater(read(other).value, read(tag).value)
  }

  /** The level has its best tag, or none exactly when nothing is on offer. */
  ghost predicate Chosen(read: Reader, tags: set<string>, current: Version, level: Level, out: map<Level, string>) {
    if level in out then Best(read, tags, current, level, out[level])
    else forall tag | tag in tags :: !Offered(read, tag, current, level)
  }

  ghost predicate Selection(read: Reader, tags: set<string>, current: Version, out: map<Level, string>) {
    forall level :: Chosen(read, tags, current, level, out)
  }

  method SelectSemverCandidates(tags: map<string, string>, currentTag: string) returns (out: map<Level, string>)
    ensures Parse(currentTag).None? ==> out == map[]
    ensures Parse(currentTag).Some? ==> Selection(Parse, tags.Keys, Parse(currentTag).value, out)
  {
    var current := Parse(currentTag);
    if current.None? {
      return map[];
    }
    out := SelectNewer(Parse, tags.Keys, current.value);
  }

  method SelectNewer(read: Reader, tags: set<string>, current: Version) returns (out: map<Level, string>)
    ensures Selection(read, tags, current, out)
  {
    out := map[];
    var rest := tags;
    while rest != {}
      invariant rest <= tags && Selection(read, tags - rest, current, out)
      decreases rest
    {
      var tag :| tag in rest;
      out := Consider(read, tags - rest, out, tag, current);
      assert tags - (rest - {tag}) == tags - rest + {tag};
      rest := rest - {tag};
    }
    assert tags - {} == tags;
  }

  /** One tag's turn: it takes every level it is compatible with and better for. */
  method Consider(read: Reader, ghost seen: set<string>, choices: map<Level, string>, tag: string, current: Version)
    returns (out: map<Level, string>)
    requires Selection(read, seen, current, choices)
    ensures Selection(read, seen + {tag}, current, out)
  {
    out := choices;
    var candidate := read(tag);
    if candidate.None? || !Greater(candidate.value, current) {
      forall level ensures Chosen(read, seen + {tag}, current, level, out) {
        assert Chosen(read, seen, current, level, out);
      }
      return;
    }
    var levels := [Major, Minor, Patch];
    for i := 0 to 3
      invariant forall k | 0 <= k < i :: Chosen(read, seen + {tag}, current, levels[k], out)
      invariant forall k | i <= k < 3 :: Chosen(read, seen, current, levels[k], out)
    {
      var level := levels[i];
      assert Chosen(read, seen, current, level, out);
      ghost var before := out;
      if Compatible(level, candidate.value, current)
         && (level !in out || Greater(candidate.value, read(out[level]).value)) {
        out := out[level := tag];
      }
      ConsiderLevel(read, seen, before, tag, current, level);
    }
    forall level ensures Chosen(read, seen + {tag}, current, level, out) {
      assert level == levels[0] || level == levels[1] || level == levels[2];
    }
  }

  lemma ConsiderLevel(read: Reader, seen: set<string>, out: map<Level, string>, tag: string, current: Version,
                      level: Level)
    requires Chosen(read, seen, current, level, out)
    requires read(tag).Some? && Greater(read(tag).value, current)
    ensures var v := read(tag).value;
            if Compatible(level, v, current) && (level !in out || Greater(v, read(out[level]).value))
            then Chosen(read, seen + {tag}, current, level, out[level := tag])
            else Chosen(read, seen + {tag}, current, level, out)
  {
  }

  /** Two selections from the same tags pick the same versions, so the order in which
      the tags are visited does not matter. */
  lemma SelectionIsUnique(read: Reader, tags: set<string>, current: Version, out: map<Level, string>, out': map<Level,
                          string>, level: Level)
    requires Selection(read, tags, current, out) && Selection(read, tags, current, out')
    ensures level in out <==> level in out'
    ensures level in out ==> read(out[level]) == read(out'[level])
  {
    assert Chosen(read, tags, current, level, out) && Chosen(read, tags, current, level, out');
    if level in out && level in out' {
      GreaterIsTotal(read(out[level]).value, read(out'[level]).value);
    }
  }

  lemma GreaterIsTotal(v: Version, w: Version)
    ensures Greater(v, w) || Greater(w, v) || v == w
  {
  }

  /** Two versions, the first no newer than the second. */
  predicate NoneNewer(read: Reader, a: string, b: string) {
    read(a).Some? && read(b).Some? && !Greater(read(a).value, read(b).value)
  }

  /** A wider scope never offers less: patch <= minor <= major. */
  lemma ScopesAreNested(read: Reader, tags: set<string>, current: Version, out: map<Level, string>)
    requires Selection(read, tags, current, out)
    ensures Patch in out ==> Minor in out && NoneNewer(read, out[Patch], out[Minor])
    ensures Minor in out ==> Major in out && NoneNewer(read, out[Minor], out[Major])
  {
    assert Chosen(read, tags, current, Patch, out) && Chosen(read, tags, current, Minor, out);
    assert Chosen(read, tags, current, Major, out);
    assert Patch in out ==> Offered(read, out[Patch], current, Minor);
    assert Minor in out ==> Offered(read, out[Minor], current, Major);
  }

  // The candidates a check stores.

  function Name(level: Level): string {
    match level
    case Major => "major"
    case Minor => "minor"
    case Patch => "patch"
  }

  lemma NamesAreScopes(a: Level, b: Level)
    ensures Name(a) in SCOPES && (Name(a) == Name(b) ==> a == b)
    ensures Name(Patch) == "patch" && Name(Minor) == "minor" && Name(Major) == "major"
  {
    assert SCOPES[0] == "patch" && SCOPES[1] == "minor" && SCOPES[2] == "major";
    assert "patch"[0] != "minor"[0] && "patch"[0] != "major"[0] && "minor"[1] != "major"[1];
  }

  /** The tag moved: the registry's digest for it is none of the local ones. */
  predicate Moved(f: Facts) {
    f.remoteDigest !in f.localDigests
  }

  /** What a check knows of one container: its reference, the digests of the image it
      runs, the registry's digest for the tag, and the repository's tags with theirs. */
  datatype Facts = Facts(image: string, ref: Ref, localDigests: seq<string>, remoteDigest: string, tags: map<string,
                         string>)

  /** A stored candidate either is the configured reference, whose tag has moved, or
      names the level's best newer tag, which is not the image already running. */
  ghost predicate Sound(read: Reader, f: Facts, level: Level, c: Choice) {
    && c.scope == Name(level)
    && (|| (Moved(f) && c.image == f.image && c.version == f.ref.tag)
        || (&& NewerTag(read, f, level, c.version) && f.tags[c.version] !in f.localDigests
            && c.image == ReplaceTag(f.ref, c.version)))
  }

  ghost predicate NewerTag(read: Reader, f: Facts, level: Level, tag: string) {
    tag in f.tags && read(f.ref.tag).Some? && Best(read, f.tags.Keys, read(f.ref.tag).value, level, tag)
  }

  /** A level without a candidate: its tag stands still, and it has nothing newer or
      already runs the newest. */
  ghost predicate Settled(read: Reader, f: Facts, level: Level) {
    !Moved(f) && (read(f.ref.tag).Some? ==> NothingNewer(read, f, level) || RunsNewest(read, f, level))
  }

  ghost predicate NothingNewer(read: Reader, f: Facts, level: Level)
    requires read(f.ref.tag).Some?
  {
    forall tag | tag in f.tags :: !Offered(read, tag, read(f.ref.tag).value, level)
  }

  ghost predicate RunsNewest(read: Reader, f: Facts, level: Level) {
    exists tag | tag in f.tags :: NewerTag(read, f, level, tag) && f.tags[tag] in f.localDigests
  }

  ghost predicate AllSound(read: Reader, f: Facts, candidates: map<Level, Choice>) {
    forall level | level in candidates :: Sound(read, f, level, candidates[level])
  }

  ghost predicate OthersSettled(read: Reader, f: Facts, candidates: map<Level, Choice>) {
    forall level | level !in candidates :: Settled(read, f, level)
  }

  /** The candidate-building part of checkOneContainer. */
  method BuildCandidates(image: string, localDigests: seq<string>, remoteDigest: string, tags: map<string, string>)
    returns (candidates: map<Level, Choice>, hasUpdate: bool)
    ensures var f := Facts(image, ParseRef(image), localDigests, remoteDigest, tags);
            AllSound(Parse, f, candidates) && OthersSettled(Parse, f, candidates)
    ensures hasUpdate <==> candidates != map[]
  {
    var f := Facts(image, ParseRef(image), localDigests, remoteDigest, tags);
    candidates, hasUpdate := BuildFrom(Parse, f);
  }

  method BuildFrom(read: Reader, f: Facts) returns (candidates: map<Level, Choice>, hasUpdate: bool)
    ensures AllSound(read, f, candidates) && OthersSettled(read, f, candidates)
    ensures hasUpdate <==> candidates != map[]
  {
    hasUpdate := f.remoteDigest !in f.localDigests;
    candidates := map[];
    if hasUpdate {
      for i := 0 to 3
        invariant AllSound(read, f, candidates)
        invariant i >= 1 ==> Patch in candidates
        invariant i >= 2 ==> Minor in candidates
        invariant i >= 3 ==> Major in candidates
      {
        var level := [Patch, Minor, Major][i];
        candidates := candidates[level := Choice(Name(level), f.image, f.ref.tag)];
      }
      forall level: Level ensures level in candidates {
        match level
        case Patch =>
        case Minor =>
        case Major =>
      }
    }
    if read(f.ref.tag).Some? {
      candidates := AddNewerTags(read, f, candidates);
      hasUpdate := candidates != map[];
    }
  }

  method AddNewerTags(read: Reader, f: Facts, start: map<Level, Choice>) returns (candidates: map<Level, Choice>)
    requires read(f.ref.tag).Some? && AllSound(read, f, start)
    requires Moved(f) ==> forall level: Level :: level in start
    ensures AllSound(read, f, candidates) && OthersSettled(read, f, candidates)
  {
    candidates := start;
    var selected := SelectNewer(read, f.tags.Keys, read(f.ref.tag).value);
    SelectedAreNewer(read, f, selected);
    var rest := selected.Keys;
    while rest != {}
      invariant rest <= selected.Keys && start.Keys <= candidates.Keys
      invariant AllSound(read, f, candidates)
      invariant forall level | level in selected && level !in rest && level !in candidates ::
                  f.tags[selected[level]] in f.localDigests
      decreases rest
    {
      var level :| level in rest;
      rest := rest - {level};
      if f.tags[selected[level]] !in f.localDigests {
        candidates := candidates[level := Choice(Name(level), ReplaceTag(f.ref, selected[level]), selected[level])];
      }
    }
    forall level | level !in candidates ensures Settled(read, f, level) {
      SettledLevel(read, f, selected, level);
    }
  }

  lemma SelectedAreNewer(read: Reader, f: Facts, selected: map<Level, string>)
    requires read(f.ref.tag).Some? && Selection(read, f.tags.Keys, read(f.ref.tag).value, selected)
    ensures forall level | level in selected :: selected[level] in f.tags && NewerTag(read, f, level, selected[level])
  {
    forall level | level in selected ensures selected[level] in f.tags && NewerTag(read, f, level, selected[level]) {
      assert Chosen(read, f.tags.Keys, read(f.ref.tag).value, level, selected);
    }
  }

  lemma SettledLevel(read: Reader, f: Facts, selected: map<Level, string>, level: Level)
    requires read(f.ref.tag).Some? && Selection(read, f.tags.Keys, read(f.ref.tag).value, selected) && !Moved(f)
    requires level in selected ==> selected[level] in f.tags && f.tags[selected[level]] in f.localDigests
    ensures Settled(read, f, level)
  {
    assert Chosen(read, f.tags.Keys, read(f.ref.tag).value, level, selected);
    if level in selected {
      assert NewerTag(read, f, level, selected[level]);
    }
  }

  /** For a strict tag, the version a level would be updated to never goes back and changes
      no more than the level allows: a patch candidate keeps major and minor. Its image
      names that version of the same repository, exactly unless it is a new tag of a
      reference the printer cannot write back. */
  lemma CandidateRespectsLevel(f: Facts, level: Level, c: Choice)
    requires f.ref == ParseRef(f.image) && Parse(f.ref.tag).Some?
    requires Sound(Parse, f, level, c)
    ensures ParseRef(c.image) == f.ref.(tag := c.version) <==> c.version == f.ref.tag || !Unprintable(f.ref)
    ensures Parse(c.version).Some?
    ensures !Greater(Parse(f.ref.tag).value, Parse(c.version).value)
    ensures Compatible(level, Parse(c.version).value, Parse(f.ref.tag).value)
    ensures level == Patch ==>
              && Parse(c.version).value.major == Parse(f.ref.tag).value.major
              && Parse(c.version).value.minor == Parse(f.ref.tag).value.minor
  {
    if !(c.image == f.image && c.version == f.ref.tag) {
      assert NewerTag(Parse, f, level, c.version);
      NewerRespectsLevel(Parse, f, level, c.version);
      ParsedIsPlain(c.version);
      ReplaceTagRoundTrip(f.image, c.version);
    }
  }

  lemma NewerRespectsLevel(read: Reader, f: Facts, level: Level, tag: string)
    requires NewerTag(read, f, level, tag)
    ensures tag != f.ref.tag
    ensures read(tag).Some? && !Greater(read(f.ref.tag).value, read(tag).value)
    ensures Compatible(level, read(tag).value, read(f.ref.tag).value)
  {
  }
}
