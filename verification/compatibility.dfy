/** The Docker-version-gated backend (`docker_utils/compatibility.py`): the
    installed version is read from `docker --version`, and the one backend
    whose half-open version range contains it decides how images are tagged
    and where the static client is downloaded from. */
module Compatibility {
  import opened Wrappers
  import opened Text

  // -------------------------------------------------------------- versions

  /** A prerelease suffix such as `a1` or `b2`. */
  datatype Prerelease = Prerelease(letter: char, number: nat)

  /** A strict version: three numeric components and an optional
      prerelease. */
  datatype Version = Version(major: nat, minor: nat, patch: nat, prerelease: Option<Prerelease>)

  function Release(major: nat, minor: nat, patch: nat): Version {
    Version(major, minor, patch, None)
  }

  predicate TripleLess(v: Version, w: Version) {
    || v.major < w.major
    || (v.major == w.major && v.minor < w.minor)
    || (v.major == w.major && v.minor == w.minor && v.patch < w.patch)
  }

  predicate PrereleaseLess(a: Option<Prerelease>, b: Option<Prerelease>) {
    match (a, b)
    case (Some(_), None) => true
    case (Some(x), Some(y)) => x.letter < y.letter || (x.letter == y.letter && x.number < y.number)
    case _ => false
  }

  /** The strict-version order: the numeric triples lexicographically; on
      equal triples a prerelease comes before the release, and prereleases
      compare by letter, then number. */
  predicate Less(v: Version, w: Version) {
    if (v.major, v.minor, v.patch) != (w.major, w.minor, w.patch) then TripleLess(v, w)
    else PrereleaseLess(v.prerelease, w.prerelease)
  }

  predicate LessEq(v: Version, w: Version) {
    v == w || Less(v, w)
  }

  /** `Less` is a strict total order, so `v <= w` is exactly "not `w < v`". */
  lemma LessEqIsNotGreater(v: Version, w: Version)
    ensures LessEq(v, w) <==> !Less(w, v)
  {
  }

  lemma LessTransitive(u: Version, v: Version, w: Version)
    requires Less(u, v) && Less(v, w)
    ensures Less(u, w)
  {
  }

  /** `StrictVerboseVersion.__str__`: all three numeric components joined by
      `.`, then the prerelease letter and number if present. */
  function VersionString(v: Version): string {
    var numeric := NatToString(v.major) + "." + (NatToString(v.minor) + "." + NatToString(v.patch));
    match v.prerelease
    case None => numeric
    case Some(p) => numeric + [p.letter] + NatToString(p.number)
  }

  // ---------------------------------------------------------------- parsing

  const Banner: string := "Docker version "

  /** The length of the run of decimal digits at the start of `s`. */
  function DigitRun(s: string): (n: nat)
    ensures n <= |s|
    ensures AllDigits(s[..n])
    ensures n < |s| ==> !IsDigit(s[n])
  {
    if |s| == 0 || !IsDigit(s[0]) then 0
    else
      var n := 1 + DigitRun(s[1..]);
      assert s[..n] == [s[0]] + s[1..][..n - 1];
      n
  }

  datatype VersionError = CannotDetermineVersion

  /** `_get_docker_version` followed by the strict-version parse: the
      `X.Y.Z` at the very start of the output after `Docker version `, each
      component the longest run of digits there (as the greedy `\d+` takes
      it); no match is an error. */
  function ParseDockerVersion(output: string): (r: Result<Version, VersionError>)
    ensures r.Ok? ==> Banner <= output && r.value.prerelease.None?
  {
    if Banner <= output then ParseNumbers(output[|Banner|..]) else Err(CannotDetermineVersion)
  }

  /** The `\d+\.\d+\.\d+` part of the match, at the start of `s1`. */
  function ParseNumbers(s1: string): (r: Result<Version, VersionError>)
    ensures r.Ok? ==> r.value.prerelease.None?
  {
    var n1 := DigitRun(s1);
    if n1 == 0 || n1 == |s1| || s1[n1] != '.' then Err(CannotDetermineVersion)
    else
      var s2 := s1[n1 + 1..];
      var n2 := DigitRun(s2);
      if n2 == 0 || n2 == |s2| || s2[n2] != '.' then Err(CannotDetermineVersion)
      else
        var s3 := s2[n2 + 1..];
        var n3 := DigitRun(s3);
        if n3 == 0 then Err(CannotDetermineVersion)
        else Ok(Release(DigitsValue(s1[..n1]), DigitsValue(s2[..n2]), DigitsValue(s3[..n3])))
  }

  lemma {:induction false} DigitRunOfDigitsThen(d: string, t: string)
    requires AllDigits(d)
    requires |t| == 0 || !IsDigit(t[0])
    ensures DigitRun(d + t) == |d|
  {
    if |d| > 0 {
      assert (d + t)[0] == d[0];
      assert (d + t)[1..] == d[1..] + t;
      DigitRunOfDigitsThen(d[1..], t);
    } else {
      assert d + t == t;
    }
  }

  lemma {:induction false} DigitRunAtLeast(d: string, t: string)
    requires AllDigits(d)
    ensures DigitRun(d + t) >= |d|
  {
    if |d| > 0 {
      assert (d + t)[0] == d[0];
      assert (d + t)[1..] == d[1..] + t;
      DigitRunAtLeast(d[1..], t);
    }
  }

  /** A digit run followed by a dot: the run is taken whole and the text
      after the dot is what remains. */
  lemma DottedRun(d: string, t: string)
    requires |d| > 0 && AllDigits(d)
    ensures var s := d + "." + t;
      && DigitRun(s) == |d| && |d| < |s| && s[|d|] == '.'
      && s[..|d|] == d && s[|d| + 1..] == t
  {
    var s := d + "." + t;
    assert s == d + ("." + t);
    DigitRunOfDigitsThen(d, "." + t);
  }

  /** The numeric part read from `a.b.t`: `a`, `b`, and the digit run that
      starts `t`, if there is one. */
  lemma ParseNumbersOf(a: string, b: string, t: string)
    requires |a| > 0 && AllDigits(a) && |b| > 0 && AllDigits(b)
    ensures ParseNumbers(a + "." + (b + "." + t)) ==
      if DigitRun(t) == 0 then Err(CannotDetermineVersion)
      else Ok(Release(DigitsValue(a), DigitsValue(b), DigitsValue(t[..DigitRun(t)])))
  {
    var s1 := a + "." + (b + "." + t);
    var bt := b + "." + t;
    DottedRun(a, bt);
    assert DigitRun(s1) == |a| && s1[|a|] == '.' && s1[..|a|] == a && s1[|a| + 1..] == bt;
    DottedRun(b, t);
    assert DigitRun(bt) == |b| && bt[|b|] == '.' && bt[..|b|] == b && bt[|b| + 1..] == t;
  }

  lemma BannerThen(s: string)
    ensures Banner <= Banner + s
    ensures (Banner + s)[|Banner|..] == s
  {
  }

  /** `output` is matched by `^Docker version \d+\.\d+\.\d+` with the three
      groups `a`, `b`, `c`, and `rest` is the text after the match. */
  ghost predicate IsVersionMatch(output: string, a: string, b: string, c: string, rest: string) {
    && |a| > 0 && AllDigits(a)
    && |b| > 0 && AllDigits(b)
    && |c| > 0 && AllDigits(c)
    && output == Banner + (a + "." + (b + "." + (c + rest)))
  }

  /** The regular expression matches at the start of `output`. */
  ghost predicate VersionPatternMatches(output: string) {
    exists a, b, c, rest :: IsVersionMatch(output, a, b, c, rest)
  }

  /** The parse succeeds exactly when the version pattern matches. */
  lemma ParseSucceedsIffPatternMatches(output: string)
    ensures ParseDockerVersion(output).Ok? <==> VersionPatternMatches(output)
  {
    if ParseDockerVersion(output).Ok? {
      ParseFindsMatch(output);
    }
    if VersionPatternMatches(output) {
      var a, b, c, rest :| IsVersionMatch(output, a, b, c, rest);
      var t := c + rest;
      BannerThen(a + "." + (b + "." + t));
      ParseNumbersOf(a, b, t);
      DigitRunAtLeast(c, rest);
    }
  }

  lemma ParseFindsMatch(output: string)
    requires ParseDockerVersion(output).Ok?
    ensures VersionPatternMatches(output)
  {
    var s1 := output[|Banner|..];
    var a, b, c, rest := NumbersFound(s1);
    assert output == Banner + s1;
    assert IsVersionMatch(output, a, b, c, rest);
  }

  /** A successful numeric parse found three digit runs separated by dots. */
  lemma NumbersFound(s1: string) returns (a: string, b: string, c: string, rest: string)
    requires ParseNumbers(s1).Ok?
    ensures |a| > 0 && AllDigits(a) && |b| > 0 && AllDigits(b) && |c| > 0 && AllDigits(c)
    ensures s1 == a + "." + (b + "." + (c + rest))
  {
    var n1 := DigitRun(s1);
    var s2 := s1[n1 + 1..];
    var n2 := DigitRun(s2);
    var s3 := s2[n2 + 1..];
    var n3 := DigitRun(s3);
    assert n1 > 0 && n1 < |s1| && s1[n1] == '.';
    assert n2 > 0 && n2 < |s2| && s2[n2] == '.';
    assert n3 > 0;
    a, b, c, rest := s1[..n1], s2[..n2], s3[..n3], s3[n3..];
    assert s3 == c + rest;
    SplitAtDot(s2, n2);
    assert s2 == b + "." + s3;
    SplitAtDot(s1, n1);
    assert s1 == a + "." + s2;
  }

  lemma SplitAtDot(s: string, n: nat)
    requires n < |s| && s[n] == '.'
    ensures s == s[..n] + "." + s[n + 1..]
  {
    assert s == s[..n] + [s[n]] + s[n + 1..];
  }

  /** When the pattern matches with groups `a`, `b`, `c` (the digit run
      `c` taken whole, as the greedy `\d+` takes it), the parsed version is
      `int(a).int(b).int(c)`. */
  lemma ParseOfMatch(output: string, a: string, b: string, c: string, rest: string)
    requires IsVersionMatch(output, a, b, c, rest)
    requires |rest| == 0 || !IsDigit(rest[0])
    ensures ParseDockerVersion(output) == Ok(Release(DigitsValue(a), DigitsValue(b), DigitsValue(c)))
  {
    var t := c + rest;
    BannerThen(a + "." + (b + "." + t));
    ParseNumbersOf(a, b, t);
    DigitRunOfDigitsThen(c, rest);
    assert t[..|c|] == c;
  }

  /** Printing a release version and reading it back after the banner gives
      the same version, whatever non-digit text follows it (`, build ...`). */
  lemma ParseOfPrintedVersion(v: Version, tail: string)
    requires v.prerelease.None?
    requires |tail| == 0 || !IsDigit(tail[0])
    ensures ParseDockerVersion(Banner + (VersionString(v) + tail)) == Ok(v)
  {
    var a, b, c := NatToString(v.major), NatToString(v.minor), NatToString(v.patch);
    var t := c + tail;
    var x, y := a + ".", b + ".";
    assert VersionString(v) == x + (y + c);
    assert x + (y + c) + tail == x + ((y + c) + tail);
    assert (y + c) + tail == y + t;
    BannerThen(a + "." + (b + "." + t));
    ParseNumbersOf(a, b, t);
    DigitRunOfDigitsThen(c, tail);
    assert t[..|c|] == c;
    DigitsValueOfNatToString(v.major);
    DigitsValueOfNatToString(v.minor);
    DigitsValueOfNatToString(v.patch);
  }

  /** Release versions print to distinct strings. */
  lemma VersionStringInjective(v: Version, w: Version)
    requires v.prerelease.None? && w.prerelease.None?
    requires VersionString(v) == VersionString(w)
    ensures v == w
  {
    ParseOfPrintedVersion(v, "");
    ParseOfPrintedVersion(w, "");
  }

  // --------------------------------------------------------------- backends

  /** `<min, max)`; `None` is an absent bound. */
  datatype VersionRange = VersionRange(min: Option<Version>, max: Option<Version>)

  datatype ConfigError = ImproperlyConfigured

  /** `BaseDockerBackend.is_supported_version`. */
  function IsSupportedVersion(range: VersionRange, v: Version): (r: Result<bool, ConfigError>)
    ensures range.min.Some? && range.max.Some? ==>
      r == Ok(LessEq(range.min.value, v) && Less(v, range.max.value))
    ensures range.min.Some? && range.max.None? ==> r == Ok(LessEq(range.min.value, v))
    ensures range.min.None? ==> r == Err(ImproperlyConfigured)
  {
    if range.min.Some? && range.max.Some? then Ok(LessEq(range.min.value, v) && Less(v, range.max.value))
    else if range.min.None? then Err(ImproperlyConfigured)
    else Ok(LessEq(range.min.value, v))
  }

  datatype Backend = V1 | V2 | V3

  const Docker1_6: Version := Release(1, 6, 0)
  const Docker1_10: Version := Release(1, 10, 0)
  const Docker1_11: Version := Release(1, 11, 0)

  function RangeOf(b: Backend): VersionRange {
    match b
    case V1 => VersionRange(Some(Docker1_6), Some(Docker1_10))
    case V2 => VersionRange(Some(Docker1_10), Some(Docker1_11))
    case V3 => VersionRange(Some(Docker1_11), None)
  }

  /** The backends the factory scans (the source discovers them as the
      subclasses of the base backend, in no fixed order). */
  const Backends: seq<Backend> := [V1, V2, V3]

  predicate Supports(b: Backend, v: Version) {
    IsSupportedVersion(RangeOf(b), v) == Ok(true)
  }

  /** Every backend's range has a minimum, so the check never raises. */
  lemma BackendsAreConfigured(b: Backend, v: Version)
    ensures IsSupportedVersion(RangeOf(b), v).Ok?
  {
  }

  /** An independent reading of the three ranges: compare `v` with the
      boundaries in increasing order. */
  function BackendFor(v: Version): Option<Backend> {
    if Less(v, Docker1_6) then None
    else if Less(v, Docker1_10) then Some(V1)
    else if Less(v, Docker1_11) then Some(V2)
    else Some(V3)
  }

  /** A backend supports `v` exactly when it is the one the boundaries pick. */
  lemma SupportsIffBackendFor(b: Backend, v: Version)
    ensures Supports(b, v) <==> BackendFor(v) == Some(b)
  {
    LessEqIsNotGreater(Docker1_6, v);
    LessEqIsNotGreater(Docker1_10, v);
    LessEqIsNotGreater(Docker1_11, v);
    if Less(v, Docker1_6) {
      LessTransitive(v, Docker1_6, Docker1_10);
    }
    if Less(v, Docker1_10) {
      LessTransitive(v, Docker1_10, Docker1_11);
    }
  }

  /** The ranges are pairwise disjoint. */
  lemma BackendRangesDisjoint(b1: Backend, b2: Backend, v: Version)
    requires Supports(b1, v) && Supports(b2, v)
    ensures b1 == b2
  {
    SupportsIffBackendFor(b1, v);
    SupportsIffBackendFor(b2, v);
  }

  /** Together they cover exactly the versions from 1.6.0 up. */
  lemma BackendRangesCover(v: Version)
    ensures (exists b :: Supports(b, v)) <==> LessEq(Docker1_6, v)
  {
    LessEqIsNotGreater(Docker1_6, v);
    forall b ensures Supports(b, v) <==> BackendFor(v) == Some(b) {
      SupportsIffBackendFor(b, v);
    }
    if BackendFor(v).Some? {
      assert Supports(BackendFor(v).value, v);
    }
  }

  /** The first backend of `table` that supports `v`. */
  function SelectBackend(table: seq<Backend>, v: Version): (r: Option<Backend>)
    ensures r.Some? ==> r.value in table && Supports(r.value, v)
    ensures r.None? <==> forall b :: b in table ==> !Supports(b, v)
  {
    if |table| == 0 then None
    else if Supports(table[0], v) then Some(table[0])
    else
      assert forall b :: b in table <==> b == table[0] || b in table[1..];
      SelectBackend(table[1..], v)
  }

  /** Because the ranges are disjoint, the order in which the backends are
      scanned does not change the choice. */
  lemma SelectionIgnoresTableOrder(table: seq<Backend>, v: Version)
    requires forall b :: b in table <==> b in Backends
    ensures SelectBackend(table, v) == SelectBackend(Backends, v)
  {
    var r1, r2 := SelectBackend(table, v), SelectBackend(Backends, v);
    if r1.Some? && r2.Some? {
      BackendRangesDisjoint(r1.value, r2.value, v);
    }
  }

  datatype FactoryError =
    | VersionUnknown
    | Unsupported(message: string)

  /** `_docker_backend_factory`, with the output of `docker --version`
      passed in: the backend for the installed version, or the message
      printed before exiting with 1. */
  function DockerBackend(output: string): (r: Result<Backend, FactoryError>)
    ensures r.Err? && r.error.VersionUnknown? <==> ParseDockerVersion(output).Err?
    ensures ParseDockerVersion(output).Ok? ==>
      var v := ParseDockerVersion(output).value;
      && (r.Ok? ==> Supports(r.value, v) && forall b :: Supports(b, v) ==> b == r.value)
      && (r.Err? <==> Less(v, Docker1_6))
      && (r.Err? ==> r.error == Unsupported("Docker version " + VersionString(v) + " is unsupported."))
  {
    match ParseDockerVersion(output)
    case Err(_) => Err(VersionUnknown)
    case Ok(v) =>
      BackendRangesCover(v);
      LessEqIsNotGreater(Docker1_6, v);
      match SelectBackend(Backends, v)
      case Some(b) =>
        assert forall b' :: Supports(b', v) ==> b' == b by {
          forall b' | Supports(b', v) ensures b' == b {
            BackendRangesDisjoint(b', b, v);
          }
        }
        Ok(b)
      case None =>
        assert forall b :: !Supports(b, v) by {
          forall b ensures !Supports(b, v) { assert b == Backends[0] || b == Backends[1] || b == Backends[2]; }
        }
        Err(Unsupported("Docker version " + VersionString(v) + " is unsupported."))
  }

  // ----------------------------------------------------------- behaviours

  /** `build_tag_command`: V1 forces the tag with `-f`; V2 drops the flag,
      and V3 inherits V2's form. */
  function BuildTagCommand(b: Backend, source: string, destination: string): string {
    match b
    case V1 => "docker tag -f " + (source + " " + destination)
    case _ => "docker tag " + (source + " " + destination)
  }

  /** The argument vector each backend means its tag command to be. */
  function TagArguments(b: Backend, source: string, destination: string): seq<string> {
    if b == V1 then ["docker", "tag", "-f", source, destination]
    else ["docker", "tag", source, destination]
  }

  /** The tag command is its argument vector joined by blanks. */
  lemma TagCommandIsJoined(b: Backend, source: string, destination: string)
    ensures BuildTagCommand(b, source, destination) == Join(TagArguments(b, source, destination), " ")
  {
    var images := source + " " + destination;
    assert Join([source, destination], " ") == images;
    if b == V1 {
      var ws := TagArguments(b, source, destination);
      assert ws[1..] == ["tag", "-f", source, destination];
      assert ws[1..][1..] == ["-f", source, destination];
      assert ws[1..][1..][1..] == [source, destination];
      assert ws[1..][1..][1..][1..] == [destination];
      assert Join(["-f", source, destination], " ") == "-f" + " " + images;
      assert Join(["tag", "-f", source, destination], " ") == "tag" + " " + ("-f" + " " + images);
      assert "docker tag -f " + images == "docker" + " " + ("tag" + " " + ("-f" + " " + images));
    } else {
      var ws := TagArguments(b, source, destination);
      assert ws[1..] == ["tag", source, destination];
      assert ws[1..][1..] == [source, destination];
      assert ws[1..][1..][1..] == [destination];
      assert Join(["tag", source, destination], " ") == "tag" + " " + images;
      assert "docker tag " + images == "docker" + " " + ("tag" + " " + images);
    }
  }

  /** `tag_image` splits the command on whitespace: for image names without
      whitespace that gives exactly the intended argument vector. */
  lemma TagCommandArguments(b: Backend, source: string, destination: string)
    requires |source| > 0 && NoSpace(source)
    requires |destination| > 0 && NoSpace(destination)
    ensures Words(BuildTagCommand(b, source, destination)) ==
      if b == V1 then ["docker", "tag", "-f", source, destination]
      else ["docker", "tag", source, destination]
  {
    TagCommandIsJoined(b, source, destination);
    WordsOfJoin(TagArguments(b, source, destination));
  }

  const StaticClientDir: string := "/opt/armada-docker-client/"
  const DownloadBase: string := "https://get.docker.com/builds/Linux/x86_64/"

  function CachedName(v: Version): string {
    "docker-" + VersionString(v)
  }

  /** What `get_static_docker_client` downloads: from where, to which path,
      and whether the download is a `.tgz` archive to unpack. */
  datatype Download = Download(url: string, output: string, archive: bool)

  /** `get_static_docker_client`: nothing when the cached client exists;
      otherwise the client for the running version, fetched as a plain
      binary by V1 and V2 and as a `.tgz` archive by V3. */
  function StaticClientDownload(b: Backend, v: Version, cached: bool): (d: Option<Download>)
    ensures d.None? <==> cached
    ensures d.Some? ==> d.value.output == StaticClientDir + CachedName(v)
    ensures d.Some? ==> (d.value.archive <==> b == V3)
  {
    if cached then None
    else
      var url := DownloadBase + CachedName(v);
      Some(Download(if b == V3 then url + ".tgz" else url, StaticClientDir + CachedName(v), b == V3))
  }

  /** The download URL names the version: two release versions never share
      a URL. */
  lemma DownloadUrlIdentifiesVersion(b: Backend, v: Version, w: Version)
    requires v.prerelease.None? && w.prerelease.None?
    requires StaticClientDownload(b, v, false).value.url == StaticClientDownload(b, w, false).value.url
    ensures v == w
  {
    var suffix := if b == V3 then ".tgz" else "";
    assert StaticClientDownload(b, v, false).value.url == DownloadBase + CachedName(v) + suffix;
    assert StaticClientDownload(b, w, false).value.url == DownloadBase + CachedName(w) + suffix;
    CancelAround(DownloadBase, CachedName(v), CachedName(w), suffix);
    CancelAround("docker-", VersionString(v), VersionString(w), "");
    VersionStringInjective(v, w);
  }

  lemma CancelAround(p: string, x: string, y: string, s: string)
    requires p + x + s == p + y + s
    ensures x == y
  {
    assert |x| == |y|;
    assert x == (p + x + s)[|p|..|p| + |x|];
    assert y == (p + y + s)[|p|..|p| + |y|];
  }

  /** V3's URL is V1's and V2's with `.tgz` appended. */
  lemma ArchiveUrlExtendsBinaryUrl(v: Version)
    ensures StaticClientDownload(V3, v, false).value.url == StaticClientDownload(V1, v, false).value.url + ".tgz"
    ensures StaticClientDownload(V2, v, false).value.url == StaticClientDownload(V1, v, false).value.url
  {
  }
}
