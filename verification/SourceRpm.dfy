/** ext/featurefmt/rpm/rpm.go: `parseSourceRPM`, a backward scan with a state, and the printer
    `name-version-release.arch.rpm` it undoes. */
module SourceRpm {
  import opened VersionText
  import Versions

  datatype Source = Source(name: string, version: string, release: string, arch: string)

  datatype ScanState = ParseRpm | ParseArchitecture | ParseRelease | ParseVersion | Terminate

  datatype Error =
    | UnexpectedPackageType
    | UnexpectedArchitecture
    | EmptyRelease
    | EmptyVersion
    | UnexpectedTermination(state: ScanState)
    | InvalidVersion
    | EmptyName

  datatype Result = Ok(source: Source) | Err(error: Error)

  function Print(p: Source): string {
    p.name + "-" + p.version + "-" + p.release + "." + p.arch + ".rpm"
  }

  function SourceVersion(p: Source): string {
    p.version + "-" + p.release
  }

  predicate IsArchitecture(arch: string) {
    arch == "src" || arch == "nosrc"
  }

  predicate WellFormed(p: Source) {
    && p.name != "" && p.version != "" && p.release != ""
    && '-' !in p.version && '-' !in p.release
    && IsArchitecture(p.arch)
    && Versions.Parse(Versions.Rpm, SourceVersion(p)).Ok?
  }

  // ----- The marks the scan looks for, from the end

  function Dot1(s: string): int { LastIndexBefore(s, '.', |s|) }

  function Dot2(s: string): int
    requires Dot1(s) >= 0
  {
    LastIndexBefore(s, '.', Dot1(s))
  }

  function Hyphen1(s: string): int
    requires Dot1(s) >= 0 && Dot2(s) >= 0
  {
    LastIndexBefore(s, '-', Dot2(s))
  }

  function Hyphen2(s: string): int
    requires Dot1(s) >= 0 && Dot2(s) >= 0 && Hyphen1(s) >= 0
  {
    LastIndexBefore(s, '-', Hyphen1(s))
  }

  /** What the scan finds wrong first, if anything. */
  function ScanError(s: string): Option<Error> {
    if Dot1(s) < 0 then Some(UnexpectedTermination(ParseRpm))
    else if s[Dot1(s) + 1..] != "rpm" then Some(UnexpectedPackageType)
    else if Dot2(s) < 0 then Some(UnexpectedTermination(ParseArchitecture))
    else if !IsArchitecture(s[Dot2(s) + 1..Dot1(s)]) then Some(UnexpectedArchitecture)
    else if Hyphen1(s) < 0 then Some(UnexpectedTermination(ParseRelease))
    else if s[Hyphen1(s) + 1..Dot2(s)] == "" then Some(EmptyRelease)
    else if Hyphen2(s) < 0 then Some(UnexpectedTermination(ParseVersion))
    else if s[Hyphen2(s) + 1..Hyphen1(s)] == "" then Some(EmptyVersion)
    else None
  }

  function Parts(s: string): Source
    requires ScanError(s).None?
  {
    Source(s[..Hyphen2(s)], s[Hyphen2(s) + 1..Hyphen1(s)], s[Hyphen1(s) + 1..Dot2(s)], s[Dot2(s) + 1..Dot1(s)])
  }

  function Parsed(s: string): Result {
    if ScanError(s).Some? then Err(ScanError(s).value)
    else if !Versions.Parse(Versions.Rpm, SourceVersion(Parts(s))).Ok? then Err(InvalidVersion)
    else if Parts(s).name == "" then Err(EmptyName)
    else Ok(Parts(s))
  }

  // ----- Parsing and printing undo each other

  lemma PrintOfParts(s: string)
    requires ScanError(s).None?
    ensures Print(Parts(s)) == s
  {
  }

  /** On success the input is the print of the parts, and the parts are well formed. */
  lemma PrintOfParsed(s: string)
    ensures Parsed(s).Ok? ==> WellFormed(Parsed(s).source) && Print(Parsed(s).source) == s
  {
    if Parsed(s).Ok? {
      PrintOfParts(s);
      PartsAreHyphenFree(s);
    }
  }

  lemma PartsAreHyphenFree(s: string)
    requires ScanError(s).None?
    ensures var p := Parts(s);
            '-' !in p.version && '-' !in p.release && p.version != "" && p.release != "" && IsArchitecture(p.arch)
  {
  }

  /** A mark with nothing like it between it and `before` is where the scan finds it. */
  lemma LastBefore(s: string, c: char, before: nat, i: nat)
    requires i < before <= |s| && s[i] == c && forall k :: i < k < before ==> s[k] != c
    ensures LastIndexBefore(s, c, before) == i
  {
  }

  /** The dots of a printed source. */
  lemma DotsOfPrint(s: string, front: string, arch: string)
    requires IsArchitecture(arch) && s == front + "." + arch + ".rpm"
    ensures var d := |front| + 1 + |arch|;
            && d < |s| && Dot1(s) == d && s[d + 1..] == "rpm"
            && LastIndexBefore(s, '.', d) == |front| && s[|front| + 1..d] == arch && s[..|front|] == front
  {
    var d := |front| + 1 + |arch|;
    assert '.' !in arch;
    assert s[d..] == ".rpm" && s[d] == '.' && s[d + 1..] == "rpm";
    assert forall k :: d < k < |s| ==> s[k] == "rpm"[k - d - 1];
    LastBefore(s, '.', |s|, d);
    assert s[|front|] == '.' && forall k :: |front| < k < d ==> s[k] == arch[k - |front| - 1];
    LastBefore(s, '.', d, |front|);
  }

  lemma HyphensOfPrint(s: string, name: string, version: string, release: string, d: nat)
    requires '-' !in version && '-' !in release
    requires d == |name| + 1 + |version| + 1 + |release| && d <= |s|
    requires s[..d] == name + "-" + version + "-" + release
    ensures var h := |name| + 1 + |version|;
            && LastIndexBefore(s, '-', d) == h && s[h + 1..d] == release
            && LastIndexBefore(s, '-', h) == |name| && s[|name| + 1..h] == version && s[..|name|] == name
  {
    var h := |name| + 1 + |version|;
    HyphenSlices(s, name + "-" + version, release, d);
    HyphenSlices(s, name, version, h);
  }

  lemma HyphenSlices(s: string, front: string, back: string, d: nat)
    requires '-' !in back && d == |front| + 1 + |back| <= |s| && s[..d] == front + "-" + back
    ensures LastIndexBefore(s, '-', d) == |front| && s[|front| + 1..d] == back && s[..|front|] == front
  {
    var t := s[..d];
    assert forall k :: 0 <= k < d ==> s[k] == t[k];
    assert t[|front|] == '-' && forall k :: |front| < k < d ==> t[k] == back[k - |front| - 1];
    LastBefore(s, '-', d, |front|);
    assert s[|front| + 1..d] == t[|front| + 1..] && s[..|front|] == t[..|front|];
  }

  /** The marks and the slices between them are those of `p`. */
  ghost predicate MarkedAs(s: string, h2: int, h1: int, d2: int, d1: int, p: Source) {
    && 0 <= h2 < h1 < d2 < d1 < |s| && s[d1 + 1..] == "rpm" && s[d2 + 1..d1] == p.arch
    && s[..h2] == p.name && s[h2 + 1..h1] == p.version && s[h1 + 1..d2] == p.release
    && LastIndexBefore(s, '.', |s|) == d1 && LastIndexBefore(s, '.', d1) == d2
    && LastIndexBefore(s, '-', d2) == h1 && LastIndexBefore(s, '-', h1) == h2
  }

  lemma ScanOfMarked(s: string, h2: int, h1: int, d2: int, d1: int, p: Source)
    requires MarkedAs(s, h2, h1, d2, d1, p)
    requires p.version != "" && p.release != "" && IsArchitecture(p.arch)
    ensures ScanError(s).None? && Parts(s) == p
  {
  }

  lemma PrintIsMarked(s: string, p: Source)
    requires '-' !in p.version && '-' !in p.release && IsArchitecture(p.arch) && s == Print(p)
    ensures exists h2, h1, d2, d1 :: MarkedAs(s, h2, h1, d2, d1, p)
  {
    var front := p.name + "-" + p.version + "-" + p.release;
    DotsOfPrint(s, front, p.arch);
    HyphensOfPrint(s, p.name, p.version, p.release, |front|);
    assert MarkedAs(s, |p.name|, |p.name| + 1 + |p.version|, |front|, |front| + 1 + |p.arch|, p);
  }

  /** The scan of a printed source finds its parts. */
  lemma ScanOfPrint(s: string, p: Source)
    requires p.version != "" && p.release != "" && '-' !in p.version && '-' !in p.release && IsArchitecture(p.arch)
    requires s == Print(p)
    ensures ScanError(s).None? && Parts(s) == p
  {
    PrintIsMarked(s, p);
    var h2, h1, d2, d1 :| MarkedAs(s, h2, h1, d2, d1, p);
    ScanOfMarked(s, h2, h1, d2, d1, p);
  }

  /** Every well-formed source parses back from its print. */
  lemma ParsedOfPrint(p: Source)
    requires WellFormed(p)
    ensures Parsed(Print(p)) == Ok(p)
  {
    ScanOfPrint(Print(p), p);
  }

  function Front(p: Source): string {
    p.name + "-" + p.version + "-" + p.release
  }

  lemma PrintSpelledOut(p: Source)
    requires p.arch == "src" || p.arch == "nosrc"
    ensures Print(p) == Front(p) + if p.arch == "src" then ".src.rpm" else ".nosrc.rpm"
  {
    Ending(Front(p), p.arch);
    assert "." + "src" + ".rpm" == ".src.rpm" && "." + "nosrc" + ".rpm" == ".nosrc.rpm";
  }

  lemma Ending(front: string, arch: string)
    ensures front + "." + arch + ".rpm" == front + ("." + arch + ".rpm")
  {
  }

  /** A name, a version and a release, none of them empty and the last two without a hyphen, that make
      a valid rpm version are parsed back from their text, for either architecture. */
  lemma ParsedSpelledOut(p: Source, s: string)
    requires p.name != "" && p.version != "" && p.release != "" && '-' !in p.version && '-' !in p.release
    requires p.arch == "src" || p.arch == "nosrc"
    requires s == p.name + "-" + p.version + "-" + p.release + if p.arch == "src" then ".src.rpm" else ".nosrc.rpm"
    ensures Versions.Parse(Versions.Rpm, p.version + "-" + p.release).Ok? ==> Parsed(s) == Ok(p)
  {
    PrintSpelledOut(p);
    if WellFormed(p) {
      ParsedOfPrint(p);
      assert s == Print(p);
    }
  }

  /** Nothing else is accepted. */
  lemma AcceptedSpelledOut(s: string)
    ensures Parsed(s).Ok? ==> IsSpelled(s, Parsed(s).source)
  {
    if Parsed(s).Ok? {
      PrintOfParsed(s);
      SpelledIfPrinted(s, Parsed(s).source);
    }
  }

  predicate IsSpelled(s: string, p: Source) {
    && (s == p.name + "-" + p.version + "-" + p.release + ".src.rpm" ||
        s == p.name + "-" + p.version + "-" + p.release + ".nosrc.rpm")
    && p.name != "" && p.version != "" && p.release != "" && '-' !in p.version && '-' !in p.release
  }

  lemma SpelledIfPrinted(s: string, p: Source)
    requires WellFormed(p) && Print(p) == s
    ensures IsSpelled(s, p)
  {
    PrintSpelledOut(p);
  }

  // ----- The scan

  /** What the scan knows when it has looked at the positions from `i` on. */
  ghost predicate Scanned(s: string, i: nat, state: ScanState, checkPoint: nat, release: string, version: string)
    requires i <= |s|
  {
    match state
    case ParseRpm => checkPoint == |s| && forall k :: i <= k < |s| ==> s[k] != '.'
    case ParseArchitecture =>
      && Dot1(s) == checkPoint >= i && s[checkPoint + 1..] == "rpm"
      && forall k :: i <= k < checkPoint ==> s[k] != '.'
    case ParseRelease =>
      && Dot1(s) >= 0 && s[Dot1(s) + 1..] == "rpm"
      && Dot2(s) == checkPoint >= i && IsArchitecture(s[checkPoint + 1..Dot1(s)])
      && forall k :: i <= k < checkPoint ==> s[k] != '-'
    case ParseVersion =>
      && Dot1(s) >= 0 && s[Dot1(s) + 1..] == "rpm"
      && Dot2(s) >= 0 && IsArchitecture(s[Dot2(s) + 1..Dot1(s)])
      && Hyphen1(s) == checkPoint >= i && release == s[checkPoint + 1..Dot2(s)] && release != ""
      && forall k :: i <= k < checkPoint ==> s[k] != '-'
    case Terminate =>
      && ScanError(s).None? && checkPoint == Hyphen2(s)
      && release == Parts(s).release && version == Parts(s).version
  }

  /** `strutil.Substring`. */
  function Substring(s: string, start: int, end: int): string {
    if start > |s| || start < 0 || end > |s| || end < 0 || start >= end then "" else s[start..end]
  }

  /** The variables of the scan. */
  datatype Scan = Scan(state: ScanState, checkPoint: nat, release: string, version: string)

  ghost predicate ScannedTo(s: string, i: nat, scan: Scan)
    requires i <= |s|
  {
    Scanned(s, i, scan.state, scan.checkPoint, scan.release, scan.version)
  }

  /** A position that is no mark for the state does not change the scan. */
  lemma NoMark(s: string, i: nat, scan: Scan)
    requires i < |s| && ScannedTo(s, i + 1, scan)
    requires s[i] != if scan.state.ParseRpm? || scan.state.ParseArchitecture? then '.' else '-'
    ensures ScannedTo(s, i, scan)
  {
  }

  /** What is known when the scan has reached the start of the text. */
  lemma AtTheStart(s: string, scan: Scan)
    requires ScannedTo(s, 0, scan)
    ensures if scan.state == Terminate then
              ScanError(s).None? && scan == Scan(Terminate, Hyphen2(s), Parts(s).release, Parts(s).version)
            else ScanError(s) == Some(UnexpectedTermination(scan.state))
  {
  }

  /** The switch on the state at a mark; the scan goes on or ends with an error. */
  method AtMark(s: string, i: nat, scan: Scan) returns (error: Option<Error>, scan': Scan)
    requires i < |s| && ScannedTo(s, i + 1, scan) && scan.state != Terminate
    requires s[i] == if scan.state.ParseRpm? || scan.state.ParseArchitecture? then '.' else '-'
    ensures error.Some? ==> error == ScanError(s)
    ensures error.None? ==> ScannedTo(s, i, scan')
  {
    match scan.state {
      case ParseRpm => error, scan' := AtFirstDot(s, i, scan);
      case ParseArchitecture => error, scan' := AtSecondDot(s, i, scan);
      case ParseRelease => error, scan' := AtFirstHyphen(s, i, scan);
      case ParseVersion => error, scan' := AtSecondHyphen(s, i, scan);
    }
  }

  method AtFirstDot(s: string, i: nat, scan: Scan) returns (error: Option<Error>, scan': Scan)
    requires i < |s| && ScannedTo(s, i + 1, scan) && scan.state == ParseRpm && s[i] == '.'
    ensures error.Some? ==> error == ScanError(s)
    ensures error.None? ==> ScannedTo(s, i, scan')
  {
    LastBefore(s, '.', |s|, i);
    var packageType := Substring(s, i + 1, |s|);
    scan' := scan.(state := ParseArchitecture, checkPoint := i);
    error := if packageType != "rpm" then Some(UnexpectedPackageType) else None;
  }

  method AtSecondDot(s: string, i: nat, scan: Scan) returns (error: Option<Error>, scan': Scan)
    requires i < |s| && ScannedTo(s, i + 1, scan) && scan.state == ParseArchitecture && s[i] == '.'
    ensures error.Some? ==> error == ScanError(s)
    ensures error.None? ==> ScannedTo(s, i, scan')
  {
    LastBefore(s, '.', scan.checkPoint, i);
    var architecture := Substring(s, i + 1, scan.checkPoint);
    scan' := scan.(state := ParseRelease, checkPoint := i);
    error := if architecture != "src" && architecture != "nosrc" then Some(UnexpectedArchitecture) else None;
  }

  method AtFirstHyphen(s: string, i: nat, scan: Scan) returns (error: Option<Error>, scan': Scan)
    requires i < |s| && ScannedTo(s, i + 1, scan) && scan.state == ParseRelease && s[i] == '-'
    ensures error.Some? ==> error == ScanError(s)
    ensures error.None? ==> ScannedTo(s, i, scan')
  {
    LastBefore(s, '-', scan.checkPoint, i);
    var release := Substring(s, i + 1, scan.checkPoint);
    scan' := scan.(state := ParseVersion, checkPoint := i, release := release);
    error := if release == "" then Some(EmptyRelease) else None;
  }

  method AtSecondHyphen(s: string, i: nat, scan: Scan) returns (error: Option<Error>, scan': Scan)
    requires i < |s| && ScannedTo(s, i + 1, scan) && scan.state == ParseVersion && s[i] == '-'
    ensures error.Some? ==> error == ScanError(s)
    ensures error.None? ==> ScannedTo(s, i, scan')
  {
    LastBefore(s, '-', scan.checkPoint, i);
    var version := Substring(s, i + 1, scan.checkPoint);
    scan' := scan.(state := Terminate, checkPoint := i, version := version);
    error := if version == "" then Some(EmptyVersion) else None;
  }

  /** The backward loop: an error, or the name's end, the version and the release. */
  method ScanSourceRPM(s: string) returns (error: Option<Error>, scan: Scan)
    ensures error == ScanError(s)
    ensures error.None? ==> scan == Scan(Terminate, Hyphen2(s), Parts(s).release, Parts(s).version)
  {
    scan := Scan(ParseRpm, |s|, "", "");
    var i: nat := |s|;
    while i > 0
      invariant i <= |s| && ScannedTo(s, i, scan)
    {
      i := i - 1;
      var mark := if scan.state.ParseRpm? || scan.state.ParseArchitecture? then '.' else '-';
      if scan.state == Terminate {
        continue;
      }
      if s[i] == mark {
        error, scan := AtMark(s, i, scan);
        if error.Some? {
          return;
        }
      } else {
        NoMark(s, i, scan);
      }
    }
    AtTheStart(s, scan);
    if scan.state != Terminate {
      return Some(UnexpectedTermination(scan.state)), scan;
    }
    return None, scan;
  }

  method ParseSourceRPM(s: string) returns (r: Result)
    ensures r == Parsed(s)
  {
    var error, scan := ScanSourceRPM(s);
    if error.Some? {
      return Err(error.value);
    }
    var concatVersion := scan.version + "-" + scan.release;
    var v := Versions.NewVersion(Versions.Rpm, concatVersion);
    if !v.Ok? {
      return Err(InvalidVersion);
    }
    var name := Substring(s, 0, scan.checkPoint);
    if name == "" {
      return Err(EmptyName);
    }
    return Ok(Source(name, scan.version, scan.release, Parts(s).arch));
  }

  /** The feature whose source fields the parser fills. */
  class Package {
    var sourceName: string
    var sourceVersion: string

    constructor ()
      ensures sourceName == "" && sourceVersion == ""
    {
      sourceName, sourceVersion := "", "";
    }

    /** The fields are set on success only. */
    method FillSource(sourceRpm: string) returns (error: Option<Error>)
      modifies this
      ensures match Parsed(sourceRpm)
              case Err(e) => error == Some(e) && sourceName == old(sourceName) && sourceVersion == old(sourceVersion)
              case Ok(p) => error == None && sourceName == p.name && sourceVersion == SourceVersion(p)
    {
      var r := ParseSourceRPM(sourceRpm);
      match r {
        case Err(e) => return Some(e);
        case Ok(p) =>
          sourceName, sourceVersion := p.name, p.version + "-" + p.release;
          return None;
      }
    }
  }
}
