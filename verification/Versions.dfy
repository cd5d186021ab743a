/** ext/versionfmt/{driver,dpkg/parser,rpm/parser}.go: parsing, printing and comparing versions.
    The two parser files share their code up to the separator they look for, the symbols they
    allow and the text comparison, so a `Format` parameter tells them apart. */
module Versions {
  import opened VersionText
  import KeyOrder
  import DpkgOrder
  import RpmOrder

  datatype Format = Dpkg | Rpm

  /** `revision` is called `release` in the rpm parser. */
  datatype Version = Version(epoch: int, version: string, revision: string)

  datatype Error =
    | UnknownVersionFormat
    | EmptyVersion
    | EpochNotANumber
    | EpochNegative
    | NoVersion
    | InvalidVersionCharacter
    | InvalidRevisionCharacter

  /** `Panics` is a slice expression out of bounds. */
  datatype Outcome<+T> = Ok(value: T) | Err(error: Error) | Panics

  const MIN_VERSION := Version(0, "#MINV#", "")
  const MAX_VERSION := Version(0, "#MAXV#", "")

  const VERSION_SYMBOLS := ['.', '-', '+', '~', ':', '_']

  function RevisionSymbols(f: Format): seq<char> {
    match f
    case Dpkg => ['.', '+', '~', '_']
    case Rpm => VERSION_SYMBOLS
  }

  predicate Allowed(symbols: seq<char>, c: char) {
    IsDigit(c) || IsLetter(c) || c in symbols
  }

  predicate AllAllowed(symbols: seq<char>, s: string) {
    forall i :: 0 <= i < |s| ==> Allowed(symbols, s[i])
  }

  /** Where the revision is split off: the last hyphen for dpkg, the first for rpm. */
  function Hyphen(f: Format, s: string): (i: int)
    ensures -1 <= i < |s|
    ensures i == -1 ==> '-' !in s
    ensures i >= 0 ==> s[i] == '-'
  {
    match f
    case Dpkg => LastIndex(s, '-')
    case Rpm => Index(s, '-')
  }

  function Print(v: Version): string
    requires v.epoch >= 0
  {
    (if v.epoch != 0 then Itoa(v.epoch) + ":" else "") + v.version +
    (if v.revision != "" then "-" + v.revision else "")
  }

  /** The number before the first colon; 0 without a colon. */
  function EpochOf(str: string): Outcome<int> {
    var sepepoch := Index(str, ':');
    if sepepoch == -1 then Ok(0)
    else
      match Atoi(str[..sepepoch])
      case None => Err(EpochNotANumber)
      case Some(n) => if n < 0 then Err(EpochNegative) else Ok(n)
  }

  /** Version and revision, once the epoch is `epoch`. */
  function SplitOf(f: Format, str: string, epoch: int): Outcome<Version> {
    var sepepoch, sep := Index(str, ':'), Hyphen(f, str);
    if sep == -1 then Ok(Version(epoch, str[sepepoch + 1..], ""))
    else if sep < sepepoch + 1 then Panics
    else Ok(Version(epoch, str[sepepoch + 1..sep], str[sep + 1..]))
  }

  function Validated(f: Format, v: Version): Outcome<Version> {
    if v.version == [] then Err(NoVersion)
    else if !AllAllowed(VERSION_SYMBOLS, v.version) then Err(InvalidVersionCharacter)
    else if !AllAllowed(RevisionSymbols(f), v.revision) then Err(InvalidRevisionCharacter)
    else Ok(v)
  }

  function FieldsOf(f: Format, str: string): Outcome<Version> {
    match EpochOf(str)
    case Err(e) => Err(e)
    case Panics => Panics
    case Ok(epoch) => SplitOf(f, str, epoch)
  }

  function ParseParts(f: Format, str: string): Outcome<Version> {
    match FieldsOf(f, str)
    case Err(e) => Err(e)
    case Panics => Panics
    case Ok(v) => Validated(f, v)
  }

  function ParseTrimmed(f: Format, str: string): Outcome<Version> {
    if str == [] then Err(EmptyVersion)
    else if str == MAX_VERSION.version then Ok(MAX_VERSION)
    else if str == MIN_VERSION.version then Ok(MIN_VERSION)
    else ParseParts(f, str)
  }

  function Parse(f: Format, text: string): Outcome<Version> {
    ParseTrimmed(f, TrimSpace(text))
  }

  /** The loops that verify the characters of the version and of the revision. */
  method CheckSymbols(symbols: seq<char>, s: string) returns (ok: bool)
    ensures ok == AllAllowed(symbols, s)
  {
    for i := 0 to |s|
      invariant AllAllowed(symbols, s[..i])
    {
      var found := false;
      for k := 0 to |symbols|
        invariant !found && s[i] !in symbols[..k]
      {
        if symbols[k] == s[i] {
          found := true;
          break;
        }
      }
      if !IsDigit(s[i]) && !IsLetter(s[i]) && !found {
        assert symbols[..|symbols|] == symbols;
        return false;
      }
      assert s[..i + 1] == s[..i] + [s[i]];
    }
    assert s[..|s|] == s;
    return true;
  }

  lemma SentinelsPrintAsThemselves()
    ensures Print(MAX_VERSION) == MAX_VERSION.version && Print(MIN_VERSION) == MIN_VERSION.version
  {
  }

  method NewVersion(f: Format, text: string) returns (r: Outcome<Version>)
    ensures r == Parse(f, text)
  {
    var str := TrimSpace(text);
    if |str| == 0 {
      return Err(EmptyVersion);
    }
    SentinelsPrintAsThemselves();
    if str == Print(MAX_VERSION) {
      return Ok(MAX_VERSION);
    }
    if str == Print(MIN_VERSION) {
      return Ok(MIN_VERSION);
    }
    r := NewVersionFromParts(f, str);
  }

  /** `newVersion` from the search for the epoch on. */
  method NewVersionFromParts(f: Format, str: string) returns (r: Outcome<Version>)
    ensures r == ParseParts(f, str)
  {
    r := FillFields(f, str);
    if !r.Ok? {
      return;
    }
    var v := r.value;
    if |v.version| == 0 {
      return Err(NoVersion);
    }
    var ok := CheckSymbols(VERSION_SYMBOLS, v.version);
    if !ok {
      return Err(InvalidVersionCharacter);
    }
    ok := CheckSymbols(RevisionSymbols(f), v.revision);
    if !ok {
      return Err(InvalidRevisionCharacter);
    }
  }

  method FillFields(f: Format, str: string) returns (r: Outcome<Version>)
    ensures r == FieldsOf(f, str)
  {
    var epoch := ReadEpoch(str);
    match epoch {
      case Err(e) => return Err(e);
      case Panics => return Panics;
      case Ok(n) => r := SplitVersion(f, str, n);
    }
  }

  method ReadEpoch(str: string) returns (r: Outcome<int>)
    ensures r == EpochOf(str)
  {
    var sepepoch := Index(str, ':');
    if sepepoch > -1 {
      var intepoch := Atoi(str[..sepepoch]);
      if intepoch.None? {
        return Err(EpochNotANumber);
      }
      if intepoch.value < 0 {
        return Err(EpochNegative);
      }
      return Ok(intepoch.value);
    }
    return Ok(0);
  }

  method SplitVersion(f: Format, str: string, epoch: int) returns (r: Outcome<Version>)
    ensures r == SplitOf(f, str, epoch)
  {
    var v := Version(epoch, "", "");
    var sepepoch := Index(str, ':');
    var seprevision := Hyphen(f, str);
    if seprevision > -1 {
      if seprevision < sepepoch + 1 {
        return Panics;
      }
      v := v.(version := str[sepepoch + 1..seprevision], revision := str[seprevision + 1..]);
    } else {
      v := v.(version := str[sepepoch + 1..], revision := "");
    }
    return Ok(v);
  }

  // ----- What parsing yields, and printing

  /** The versions other than the two sentinels that the parser of a format can produce. */
  predicate WellFormed(f: Format, v: Version) {
    && 0 <= v.epoch <= MAX_INT
    && v.version != ""
    && AllAllowed(VERSION_SYMBOLS, v.version)
    && AllAllowed(RevisionSymbols(f), v.revision)
    && (f.Rpm? ==> '-' !in v.version)
  }

  predicate Sentinel(v: Version) {
    v == MIN_VERSION || v == MAX_VERSION
  }

  predicate SentinelText(s: string) {
    s == MIN_VERSION.version || s == MAX_VERSION.version
  }

  lemma AllowedTextIsNotASentinel(s: string)
    requires s != "" && AllAllowed(VERSION_SYMBOLS, s)
    ensures !SentinelText(s)
  {
    assert MIN_VERSION.version[0] == '#' == MAX_VERSION.version[0] && !Allowed(VERSION_SYMBOLS, '#');
  }

  lemma EpochRange(str: string)
    ensures EpochOf(str).Ok? ==> 0 <= EpochOf(str).value <= MAX_INT
    ensures !EpochOf(str).Panics?
  {
  }

  lemma SplitShape(f: Format, str: string, epoch: int)
    ensures SplitOf(f, str, epoch).Ok? ==>
              var v := SplitOf(f, str, epoch).value;
              && v.epoch == epoch
              && (f.Rpm? ==> '-' !in v.version)
              && |v.version| + |v.revision| == |str| - (Index(str, ':') + 1) - (if '-' in str then 1 else 0)
  {
    var c, h := Index(str, ':'), Hyphen(f, str);
    if f.Rpm? && h >= 0 {
      assert forall k :: c < k < h ==> str[..h][k] != '-';
    }
  }

  lemma PartsAreWellFormed(f: Format, str: string)
    ensures ParseParts(f, str).Ok? ==>
              var v := ParseParts(f, str).value;
              && WellFormed(f, v) && !Sentinel(v)
              && |v.version| + |v.revision| == |str| - (Index(str, ':') + 1) - (if '-' in str then 1 else 0)
  {
    if ParseParts(f, str).Ok? {
      EpochRange(str);
      SplitShape(f, str, EpochOf(str).value);
      AllowedTextIsNotASentinel(ParseParts(f, str).value.version);
    }
  }

  /** The characters, bounds and sentinel texts of the formats, written out. */
  lemma FormatsSpelledOut(f: Format, v: Version)
    ensures MIN_VERSION == Version(0, "#MINV#", "") && MAX_VERSION == Version(0, "#MAXV#", "")
    ensures WellFormed(f, v) <==>
            && 0 <= v.epoch <= 9_223_372_036_854_775_807 && v.version != ""
            && (forall c :: c in v.version ==> IsLetter(c) || IsDigit(c) || c in ".-+~:_")
            && (forall c :: c in v.revision ==> IsLetter(c) || IsDigit(c) || c in if f == Dpkg then ".+~_" else ".-+~:_")
            && (f == Rpm ==> '-' !in v.version)
  {
    assert forall i :: 0 <= i < |v.version| ==> v.version[i] in v.version;
    assert forall i :: 0 <= i < |v.revision| ==> v.revision[i] in v.revision;
  }

  /** Only the sentinel texts parse to the sentinels; everything else accepted is well formed. */
  lemma ParsedVersions(f: Format, text: string)
    ensures Parse(f, text) == Ok(MAX_VERSION) <==> TrimSpace(text) == MAX_VERSION.version
    ensures Parse(f, text) == Ok(MIN_VERSION) <==> TrimSpace(text) == MIN_VERSION.version
    ensures Parse(f, text).Ok? && !Sentinel(Parse(f, text).value) ==> WellFormed(f, Parse(f, text).value)
  {
    TrimmedVersions(f, TrimSpace(text));
  }

  lemma TrimmedVersions(f: Format, str: string)
    ensures ParseTrimmed(f, str) == Ok(MAX_VERSION) <==> str == MAX_VERSION.version
    ensures ParseTrimmed(f, str) == Ok(MIN_VERSION) <==> str == MIN_VERSION.version
    ensures ParseTrimmed(f, str).Ok? && !Sentinel(ParseTrimmed(f, str).value) ==> WellFormed(f, ParseTrimmed(f, str).value)
  {
    SentinelsDiffer();
    PartsAreWellFormed(f, str);
  }

  lemma SentinelsDiffer()
    ensures MIN_VERSION.version != MAX_VERSION.version && MIN_VERSION.version != [] && MAX_VERSION.version != []
  {
  }

  /** The ways to write a version down: with or without the epoch and the hyphen. */
  ghost predicate Spells(f: Format, e: string, v: Version, tail: string) {
    && WellFormed(f, v)
    && (e == "" || e == Itoa(v.epoch) + ":")
    && (tail == "" || tail == "-" + v.revision)
  }

  lemma SpelledEpoch(f: Format, e: string, v: Version, tail: string)
    requires Spells(f, e, v, tail)
    requires e == "" ==> v.epoch == 0 && ':' !in v.version && ':' !in v.revision
    ensures var str := e + v.version + tail; Index(str, ':') == |e| - 1 && EpochOf(str) == Ok(v.epoch)
  {
    var str := e + v.version + tail;
    if e == "" {
      assert ':' !in str;
    } else {
      var n := |e| - 1;
      assert str[..n] == Itoa(v.epoch);
      assert str[n] == ':';
      AtoiOfItoa(v.epoch);
    }
  }

  lemma SpelledHyphen(f: Format, e: string, v: Version, tail: string)
    requires Spells(f, e, v, tail)
    requires tail == "" ==> v.revision == "" && '-' !in v.version
    ensures var str := e + v.version + tail;
            Hyphen(f, str) == (if tail == "" then -1 else |e| + |v.version|)
  {
    var str, n := e + v.version + tail, |e| + |v.version|;
    assert forall k :: 0 <= k < |e| ==> str[k] == e[k] != '-';
    if tail == "" {
      assert forall k :: |e| <= k < |str| ==> str[k] == v.version[k - |e|];
    } else {
      assert str[n] == '-';
      match f {
        case Dpkg => HyphenFreeRevision(v.revision, e + v.version);
        case Rpm => assert forall k :: |e| <= k < n ==> str[k] == v.version[k - |e|];
      }
    }
  }

  lemma HyphenFreeRevision(revision: string, front: string)
    requires AllAllowed(RevisionSymbols(Dpkg), revision)
    ensures var str := front + ("-" + revision); forall k :: |front| < k < |str| ==> str[k] != '-'
  {
  }

  lemma SpelledIsTrimmed(f: Format, e: string, v: Version, tail: string)
    requires Spells(f, e, v, tail)
    ensures var str := e + v.version + tail; TrimSpace(str) == str && !SentinelText(str)
  {
    var str := e + v.version + tail;
    var l := |str| - 1;
    assert !IsSpace(str[0]) && str[0] != '#' by {
      if e != "" {
        assert str[0] == Itoa(v.epoch)[0];
      } else {
        assert str[0] == v.version[0] && Allowed(VERSION_SYMBOLS, str[0]);
      }
    }
    assert !IsSpace(str[l]) by {
      if tail == "" {
        assert str[l] == v.version[|v.version| - 1] && Allowed(VERSION_SYMBOLS, str[l]);
      } else if v.revision != "" {
        assert str[l] == v.revision[|v.revision| - 1] && Allowed(RevisionSymbols(f), str[l]);
      }
    }
    TrimSpaceIsIdentity(str);
    assert MIN_VERSION.version[0] == '#' == MAX_VERSION.version[0];
  }

  /** Epoch text, version and revision put together parse back to the version they came from. */
  lemma ParseSpelled(f: Format, e: string, v: Version, tail: string)
    requires Spells(f, e, v, tail)
    requires e == "" ==> v.epoch == 0 && ':' !in v.version && ':' !in v.revision
    requires tail == "" ==> v.revision == "" && '-' !in v.version
    ensures Parse(f, e + v.version + tail) == Ok(v)
  {
    SpelledEpoch(f, e, v, tail);
    SpelledIsTrimmed(f, e, v, tail);
    SpelledSplit(f, e, v, tail);
    assert FieldsOf(f, e + v.version + tail) == Ok(v);
  }

  lemma SpelledSplit(f: Format, e: string, v: Version, tail: string)
    requires Spells(f, e, v, tail)
    requires Index(e + v.version + tail, ':') == |e| - 1
    requires tail == "" ==> v.revision == "" && '-' !in v.version
    ensures SplitOf(f, e + v.version + tail, v.epoch) == Ok(v)
  {
    SpelledHyphen(f, e, v, tail);
    if tail == "" {
      assert e + v.version + tail == e + v.version && (e + v.version)[|e|..] == v.version;
    } else {
      SpelledSlices(e, v.version, v.revision);
      assert e + v.version + "-" + v.revision == e + v.version + tail;
    }
  }

  lemma SpelledSlices(e: string, version: string, revision: string)
    ensures var str, n := e + version + "-" + revision, |e| + |version|;
            str[|e|..n] == version && str[n + 1..] == revision
  {
  }

  /** Every well-formed version is the parse of its text with explicit epoch and revision, so
      `WellFormed` is exactly what the parser produces besides the sentinels. */
  lemma WellFormedVersionsAreParsed(f: Format, v: Version)
    requires WellFormed(f, v)
    ensures Parse(f, (Itoa(v.epoch) + ":") + v.version + ("-" + v.revision)) == Ok(v)
  {
    ParseSpelled(f, Itoa(v.epoch) + ":", v, "-" + v.revision);
  }

  /** When printing loses nothing: a zero epoch is not printed, so no colon may follow, and an
      empty revision is not printed, so for dpkg no hyphen may be left. */
  predicate PrintsFaithfully(f: Format, v: Version) {
    && (v.epoch == 0 ==> ':' !in v.version && ':' !in v.revision)
    && (f.Dpkg? && v.revision == "" ==> '-' !in v.version)
  }

  /** Printing a parsed version and parsing the text again gives the version back exactly when
      it prints faithfully. */
  lemma PrintThenParse(f: Format, text: string)
    requires Parse(f, text).Ok?
    ensures var v := Parse(f, text).value;
            v.epoch >= 0 && (Parse(f, Print(v)) == Ok(v) <==> PrintsFaithfully(f, v))
  {
    var v := Parse(f, text).value;
    ParsedVersions(f, text);
    if Sentinel(v) {
      PrintThenParseSentinel(f, v);
    } else {
      PrintThenParseWellFormed(f, v);
    }
  }

  lemma PrintThenParseSentinel(f: Format, v: Version)
    requires Sentinel(v)
    ensures Parse(f, Print(v)) == Ok(v) && PrintsFaithfully(f, v)
  {
    SentinelsPrintAsThemselves();
    SentinelsParse(f);
  }

  lemma SentinelsParse(f: Format)
    ensures Parse(f, MAX_VERSION.version) == Ok(MAX_VERSION) && Parse(f, MIN_VERSION.version) == Ok(MIN_VERSION)
  {
    SentinelsDiffer();
    TrimSpaceIsIdentity(MAX_VERSION.version);
    TrimSpaceIsIdentity(MIN_VERSION.version);
  }

  lemma PrintThenParseWellFormed(f: Format, v: Version)
    requires WellFormed(f, v)
    ensures Parse(f, Print(v)) == Ok(v) <==> PrintsFaithfully(f, v)
  {
    var e := if v.epoch != 0 then Itoa(v.epoch) + ":" else "";
    var tail := if v.revision != "" then "-" + v.revision else "";
    if PrintsFaithfully(f, v) {
      ParseSpelled(f, e, v, tail);
    } else {
      var str := e + v.version + tail;
      SpelledIsTrimmed(f, e, v, tail);
      UnfaithfulText(f, e, v, tail);
      PartsAreWellFormed(f, str);
    }
  }

  lemma ParseWithEpoch(n: nat, version: string)
    requires n < 10 && WellFormed(Dpkg, Version(n, version, "")) && '-' !in version
    ensures Parse(Dpkg, Itoa(n) + ":" + version) == Ok(Version(n, version, ""))
  {
    ParseSpelled(Dpkg, Itoa(n) + ":", Version(n, version, ""), "");
    assert Itoa(n) + ":" + version + "" == Itoa(n) + ":" + version;
  }

  lemma ZeroOneTwo()
    ensures Parse(Dpkg, "0:1:2") == Ok(Version(0, "1:2", ""))
  {
    assert "0:1:2" == Itoa(0) + ":" + "1:2";
    ParseWithEpoch(0, "1:2");
  }

  lemma OneTwo()
    ensures Parse(Dpkg, "1:2") == Ok(Version(1, "2", ""))
  {
    assert "1:2" == Itoa(1) + ":" + "2";
    ParseWithEpoch(1, "2");
  }

  /** A zero epoch is not printed: the text 0:1:2 prints as 1:2, which has epoch 1. */
  lemma UnprintedEpochIsLost()
    ensures var v := Version(0, "1:2", ""); Parse(Dpkg, "0:1:2") == Ok(v) && Parse(Dpkg, Print(v)) == Ok(Version(1, "2", ""))
  {
    ZeroOneTwo();
    OneTwo();
    assert Print(Version(0, "1:2", "")) == "1:2";
  }

  /** A text that hides a colon or a hyphen is too short to be read as the version it prints. */
  lemma UnfaithfulText(f: Format, e: string, v: Version, tail: string)
    requires WellFormed(f, v) && !PrintsFaithfully(f, v)
    requires e == if v.epoch != 0 then Itoa(v.epoch) + ":" else ""
    requires tail == if v.revision != "" then "-" + v.revision else ""
    ensures var str := e + v.version + tail;
            |v.version| + |v.revision| > |str| - (Index(str, ':') + 1) - (if '-' in str then 1 else 0)
  {
  }

  /** The one way to make the parser panic: a negative zero before the colon, and, for dpkg, no
      hyphen after it. */
  ghost predicate NegativeZeroEpoch(f: Format, str: string) {
    var c := Index(str, ':');
    && c > 0 && str[0] == '-' && Atoi(str[..c]) == Some(0)
    && (f.Dpkg? ==> forall k :: c < k < |str| ==> str[k] != '-')
  }

  lemma ParsePanics(f: Format, text: string)
    ensures Parse(f, text).Panics? <==> NegativeZeroEpoch(f, TrimSpace(text))
  {
    var str := TrimSpace(text);
    assert ':' !in MIN_VERSION.version && ':' !in MAX_VERSION.version;
    assert SentinelText(str) || str == [] ==> Index(str, ':') == -1;
    FieldsPanic(f, str);
  }

  /** Both parsers panic on the text -0:1. */
  lemma NegativeZeroPanics(f: Format)
    ensures Parse(f, "-0:1").Panics?
  {
    TrimSpaceIsIdentity("-0:1");
    assert "-0:1"[2] == ':' && "-0:1"[..2] == "-0" && "-0"[1..] == Itoa(0);
    ItoaValue(0);
    ParsePanics(f, "-0:1");
  }

  lemma FieldsPanic(f: Format, str: string)
    ensures ParseParts(f, str).Panics? <==> NegativeZeroEpoch(f, str)
  {
    SplitPanics(f, str);
    var c := Index(str, ':');
    if c >= 0 {
      EpochIsZero(str, c);
      if Atoi(str[..c]).Some? {
        EarlyHyphen(f, str, c);
      }
    }
  }

  lemma SplitPanics(f: Format, str: string)
    ensures ParseParts(f, str).Panics? <==> EpochOf(str).Ok? && -1 < Hyphen(f, str) < Index(str, ':') + 1
  {
  }

  lemma EpochIsZero(str: string, c: int)
    requires c == Index(str, ':') && c >= 0
    ensures EpochOf(str).Ok? ==> Atoi(str[..c]).Some?
    ensures c > 0 && str[0] == '-' ==> (EpochOf(str).Ok? <==> Atoi(str[..c]) == Some(0))
  {
  }

  lemma EarlyHyphen(f: Format, str: string, c: int)
    requires c == Index(str, ':') && c >= 0 && Atoi(str[..c]).Some?
    ensures -1 < Hyphen(f, str) < c + 1 <==>
            c > 0 && str[0] == '-' && (f.Dpkg? ==> forall k :: c < k < |str| ==> str[k] != '-')
  {
  }

  // ----- Comparison

  function TextKey(f: Format, s: string): KeyOrder.Key {
    match f
    case Dpkg => DpkgOrder.KeyOf(s)
    case Rpm => RpmOrder.KeyOf(s)
  }

  function Rank(v: Version): int {
    if v == MIN_VERSION then 0 else if v == MAX_VERSION then 2 else 1
  }

  /** Sentinels outermost, then epoch, then version text, then revision text. */
  function Order(f: Format, v1: Version, v2: Version): (r: int)
    ensures -1 <= r <= 1
  {
    if Rank(v1) != Rank(v2) then KeyOrder.Sign(Rank(v1) - Rank(v2))
    else if Sentinel(v1) then 0
    else if v1.epoch != v2.epoch then KeyOrder.Sign(v1.epoch - v2.epoch)
    else
      var c := KeyOrder.Compare(TextKey(f, v1.version), TextKey(f, v2.version));
      if c != 0 then c else KeyOrder.Compare(TextKey(f, v1.revision), TextKey(f, v2.revision))
  }

  method CompareTexts(f: Format, a: string, b: string) returns (r: int)
    ensures r == KeyOrder.Compare(TextKey(f, a), TextKey(f, b))
  {
    match f {
      case Dpkg =>
        r := DpkgOrder.Verrevcmp(a, b);
        r := KeyOrder.Sign(r);
      case Rpm =>
        r := RpmOrder.Rpmvercmp(a, b);
    }
  }

  /** What `Compare` returns for two texts: the first error, or the order of the versions. */
  function Compared(f: Format, a: string, b: string): Outcome<int> {
    match Parse(f, a)
    case Err(e) => Err(e)
    case Panics => Panics
    case Ok(v1) =>
      match Parse(f, b)
      case Err(e) => Err(e)
      case Panics => Panics
      case Ok(v2) => Ok(Order(f, v1, v2))
  }

  method Compare(f: Format, a: string, b: string) returns (r: Outcome<int>)
    ensures r == Compared(f, a, b)
  {
    var p1 := NewVersion(f, a);
    if !p1.Ok? {
      return match p1 case Err(e) => Err(e) case Panics => Panics;
    }
    var p2 := NewVersion(f, b);
    if !p2.Ok? {
      return match p2 case Err(e) => Err(e) case Panics => Panics;
    }
    var v1, v2 := p1.value, p2.value;
    if v1 == v2 {
      KeyOrder.Reflexive(TextKey(f, v1.version));
      KeyOrder.Reflexive(TextKey(f, v1.revision));
      return Ok(0);
    }
    if v1 == MIN_VERSION || v2 == MAX_VERSION {
      return Ok(-1);
    }
    if v2 == MIN_VERSION || v1 == MAX_VERSION {
      return Ok(1);
    }
    if v1.epoch > v2.epoch {
      return Ok(1);
    }
    if v1.epoch < v2.epoch {
      return Ok(-1);
    }
    var rc := CompareTexts(f, v1.version, v2.version);
    if rc != 0 {
      return Ok(rc);
    }
    rc := CompareTexts(f, v1.revision, v2.revision);
    return Ok(rc);
  }

  /** `Order` is a total preorder on versions, strict wherever one of its steps is. */
  lemma OrderIsTotalPreorder(f: Format, u: Version, v: Version, w: Version)
    ensures Order(f, u, u) == 0
    ensures Order(f, u, v) == -Order(f, v, u)
    ensures Order(f, u, v) <= 0 && Order(f, v, w) <= 0 ==> Order(f, u, w) <= 0
    ensures Order(f, u, v) <= 0 && Order(f, v, w) <= 0 && Order(f, u, w) == 0 ==>
              Order(f, u, v) == 0 && Order(f, v, w) == 0
  {
    KeyOrder.Reflexive(TextKey(f, u.version));
    KeyOrder.Reflexive(TextKey(f, u.revision));
    KeyOrder.Antisymmetric(TextKey(f, u.version), TextKey(f, v.version));
    KeyOrder.Antisymmetric(TextKey(f, u.revision), TextKey(f, v.revision));
    TextTransitive(f, u.version, v.version, w.version);
    TextTransitive(f, u.revision, v.revision, w.revision);
  }

  lemma TextTransitive(f: Format, a: string, b: string, c: string)
    ensures var x, y, z := TextKey(f, a), TextKey(f, b), TextKey(f, c);
            KeyOrder.Compare(x, y) <= 0 && KeyOrder.Compare(y, z) <= 0 ==>
              && KeyOrder.Compare(x, z) <= 0
              && (KeyOrder.Compare(x, z) == 0 ==> KeyOrder.Compare(x, y) == 0 == KeyOrder.Compare(y, z))
  {
    var x, y, z := TextKey(f, a), TextKey(f, b), TextKey(f, c);
    if KeyOrder.Compare(x, y) <= 0 && KeyOrder.Compare(y, z) <= 0 {
      KeyOrder.Transitive(x, y, z);
    }
  }

  /** The sentinels are the strict ends of the order. */
  lemma SentinelsAreExtreme(f: Format, v: Version)
    ensures v != MIN_VERSION ==> Order(f, MIN_VERSION, v) == -1
    ensures v != MAX_VERSION ==> Order(f, v, MAX_VERSION) == -1
  {
  }

  // ----- How versions compare, step by step

  /** The parsed version of a text, unless it is one of the sentinels. */
  ghost predicate IsPlain(f: Format, text: string, v: Version) {
    Parse(f, text) == Ok(v) && v.version != "#MINV#" && v.version != "#MAXV#"
  }

  /** A smaller epoch decides alone. */
  lemma EpochDecides(f: Format, a: string, b: string, v: Version, w: Version)
    ensures IsPlain(f, a, v) && IsPlain(f, b, w) && v.epoch < w.epoch ==>
              Compared(f, a, b) == Ok(-1) && Compared(f, b, a) == Ok(1)
  {
  }

  /** With equal epochs the versions decide by the order of verrevcmp, and where they are equivalent
      the revisions do. */
  lemma DpkgComparesBySteps(a: string, b: string, v: Version, w: Version)
    ensures IsPlain(Dpkg, a, v) && IsPlain(Dpkg, b, w) && v.epoch == w.epoch ==>
              var c := KeyOrder.Compare(DpkgOrder.KeyOf(v.version), DpkgOrder.KeyOf(w.version));
              var d := KeyOrder.Compare(DpkgOrder.KeyOf(v.revision), DpkgOrder.KeyOf(w.revision));
              Compared(Dpkg, a, b) == Ok(if c != 0 then c else d)
  {
  }

  /** The same for rpm by the order of rpmvercmp. */
  lemma RpmComparesBySteps(a: string, b: string, v: Version, w: Version)
    ensures IsPlain(Rpm, a, v) && IsPlain(Rpm, b, w) && v.epoch == w.epoch ==>
              var c := KeyOrder.Compare(RpmOrder.KeyOf(v.version), RpmOrder.KeyOf(w.version));
              var d := KeyOrder.Compare(RpmOrder.KeyOf(v.revision), RpmOrder.KeyOf(w.revision));
              Compared(Rpm, a, b) == Ok(if c != 0 then c else d)
  {
  }

  /** A version with epoch and revision written out. */
  function FullText(v: Version): string
    requires v.epoch >= 0
  {
    Itoa(v.epoch) + ":" + v.version + "-" + v.revision
  }

  lemma FullTextIsPlain(f: Format, v: Version)
    requires WellFormed(f, v)
    ensures IsPlain(f, FullText(v), v)
  {
    WellFormedVersionsAreParsed(f, v);
    AllowedTextIsNotASentinel(v.version);
    assert FullText(v) == (Itoa(v.epoch) + ":") + v.version + ("-" + v.revision);
  }

  /** In both formats a pre-release, marked by a tilde, is older than the release, whatever the
      revisions. */
  lemma PreReleaseIsOlder(f: Format, v: Version, t: string, revision: string)
    requires WellFormed(f, v) && WellFormed(f, Version(v.epoch, v.version + "~" + t, revision))
    ensures Compared(f, FullText(Version(v.epoch, v.version + "~" + t, revision)), FullText(v)) == Ok(-1)
  {
    var w := Version(v.epoch, v.version + "~" + t, revision);
    FullTextIsPlain(f, v);
    FullTextIsPlain(f, w);
    match f {
      case Dpkg =>
        DpkgOrder.TildeIsBelowTheEnd(v.version, t);
        DpkgComparesBySteps(FullText(w), FullText(v), w, v);
      case Rpm =>
        RpmOrder.TildeIsBelowTheEnd(v.version, t);
        RpmComparesBySteps(FullText(w), FullText(v), w, v);
    }
  }

  // ----- InRange

  /** Versions are in range strictly below the affected version. */
  function InRange(f: Format, version: string, range: string): Outcome<bool> {
    match Compared(f, version, range)
    case Err(e) => Err(e)
    case Panics => Panics
    case Ok(c) => Ok(c < 0)
  }

  /** The comparison of two texts puts the first not above the second. */
  predicate AtMost(f: Format, a: string, b: string) {
    Compared(f, a, b).Ok? && Compared(f, a, b).value <= 0
  }

  /** The range of affected versions is closed downward in the version and upward in the bound. */
  lemma InRangeIsMonotone(f: Format, a: string, b: string, r: string, s: string)
    ensures AtMost(f, a, b) && AtMost(f, r, s) && InRange(f, b, r) == Ok(true) ==>
              InRange(f, a, r) == Ok(true) && InRange(f, b, s) == Ok(true) && InRange(f, a, s) == Ok(true)
  {
    if AtMost(f, a, b) && AtMost(f, r, s) && InRange(f, b, r) == Ok(true) {
      var va, vb, vr, vs := Parse(f, a).value, Parse(f, b).value, Parse(f, r).value, Parse(f, s).value;
      OrderIsTotalPreorder(f, va, vb, vr);
      OrderIsTotalPreorder(f, vb, vr, vs);
      OrderIsTotalPreorder(f, va, vr, vs);
    }
  }

  /** An affected version of `#MAXV#` covers every valid version but `#MAXV#` itself, and one of
      `#MINV#` covers none. */
  lemma SentinelRanges(f: Format, text: string)
    requires Parse(f, text).Ok?
    ensures InRange(f, text, MAX_VERSION.version) == Ok(TrimSpace(text) != MAX_VERSION.version)
    ensures InRange(f, text, MIN_VERSION.version) == Ok(false)
  {
    var v := Parse(f, text).value;
    SentinelsParse(f);
    ParsedVersions(f, text);
    SentinelsAreExtreme(f, v);
    OrderIsTotalPreorder(f, MIN_VERSION, v, v);
    OrderIsTotalPreorder(f, MAX_VERSION, v, v);
  }

  /** The parsers registered with the driver. */
  function FormatNamed(name: string): Option<Format> {
    if name == "dpkg" then Some(Dpkg) else if name == "rpm" then Some(Rpm) else None
  }

  /** `versionfmt.InRange`. */
  function InRangeOf(format: string, version: string, range: string): Outcome<bool> {
    match FormatNamed(format)
    case None => Err(UnknownVersionFormat)
    case Some(f) => InRange(f, version, range)
  }

  /** Where the two formats differ: a dot at the end counts for dpkg and only separates for rpm. */
  lemma TrailingDot(version: string)
    requires WellFormed(Dpkg, Version(0, version, "")) && WellFormed(Rpm, Version(0, version, ""))
    ensures var a, b := FullText(Version(0, version, "")), FullText(Version(0, version + ".", ""));
            InRangeOf("dpkg", a, b) == Ok(true) && InRangeOf("rpm", a, b) == Ok(false)
  {
    var v, w := Version(0, version, ""), Version(0, version + ".", "");
    FullTextIsPlain(Dpkg, v);
    FullTextIsPlain(Dpkg, w);
    FullTextIsPlain(Rpm, v);
    FullTextIsPlain(Rpm, w);
    DpkgComparesBySteps(FullText(v), FullText(w), v, w);
    RpmComparesBySteps(FullText(v), FullText(w), v, w);
    assert version + "." + "" == version + ".";
    DpkgOrder.EndIsBelowSymbols(version, '.', "");
    RpmOrder.SeparatorsOnlySeparate(version, '.', "");
    assert RpmOrder.KeyOf("") == [] && RpmOrder.KeyOf(version) + [] == RpmOrder.KeyOf(version);
    KeyOrder.Reflexive(RpmOrder.KeyOf(version));
  }
}
