/** Choosing the parser for a platform (`ParserFactory.createParser`). */
module ParserFactory {
  import opened Js
  import opened Base
  import opened BuilderFactory
  import Config
  import ParserCore

  /** The parser variant `createParser` builds for a platform: Windows is tested first, then
      macOS, then Linux. `Ok(None)` is the `null` returned when no branch applies. */
  function ParserDialect(platform: string): Result<Option<Dialect>>
  {
    if !IsPlatformSupport(platform) then Err(UnsupportedPlatform)
    else if IsWindow(platform) then Ok(Some(WinDialect))
    else if IsMacOS(platform) then Ok(Some(MacDialect))
    else if IsLinux(platform) then Ok(Some(LinuxDialect))
    else Ok(None)
  }

  /** The dialect of each platform's family. */
  function DialectOf(f: Family): Dialect
  {
    match f
    case LinuxFamily => LinuxDialect
    case MacFamily => MacDialect
    case WinFamily => WinDialect
  }

  /** An unsupported platform is refused; every supported one gets the parser of its family
      and never `null`. */
  lemma ParserDialectByFamily(platform: string)
    ensures var r := ParserDialect(platform);
      && (FamilyOf(platform).None? <==> r == Err(UnsupportedPlatform))
      && (FamilyOf(platform).Some? ==> r == Ok(Some(DialectOf(FamilyOf(platform).value))))
  {
    Classification(platform);
  }

  /** The parser and the argument builder of a supported platform belong to the same
      family. */
  lemma ParserMatchesBuilder(platform: string)
    ensures ParserDialect(platform).Ok? <==> CreateBuilder(platform).Ok?
    ensures CreateBuilder(platform) == Ok(Some(LinuxBuilder)) <==> ParserDialect(platform) == Ok(Some(LinuxDialect))
    ensures CreateBuilder(platform) == Ok(Some(WinBuilder)) <==> ParserDialect(platform) == Ok(Some(WinDialect))
    ensures CreateBuilder(platform) == Ok(Some(MacBuilder)) <==> ParserDialect(platform) == Ok(Some(MacDialect))
  {
    ParserDialectByFamily(platform);
    BuilderByFamily(platform);
  }

  /** `createParser(addr, platform, config)`: a missing configuration becomes a fresh empty
      one, an unsupported platform throws before any parser exists, and otherwise a fresh
      parser of the platform's variant starts from the initial state. */
  method CreateParser(addr: string, platform: string, config: Config.ConfigObject?, isIPv4: string -> bool)
    returns (r: Result<ParserCore.Parser?>)
    requires config != null ==> NumberLike(config.Get(Config.PacketSize))
    ensures r.Err? <==> !IsPlatformSupport(platform)
    ensures r.Err? ==> r.error == UnsupportedPlatform
    ensures r.Ok? ==> && r.value != null && fresh(r.value) && r.value.Valid()
                      && r.value.State() == Initial(addr)
                      && ParserDialect(platform) == Ok(Some(r.value.dialect))
  {
    var c := config;
    if c == null {
      c := new Config.ConfigObject(map[]);
    }
    if !IsPlatformSupport(platform) {
      return Err(UnsupportedPlatform);
    }
    Classification(platform);
    if IsWindow(platform) {
      var p := new ParserCore.Parser(WinDialect, addr, c, isIPv4);
      r := Ok(p);
    } else if IsMacOS(platform) {
      var p := new ParserCore.Parser(MacDialect, addr, c, isIPv4);
      r := Ok(p);
    } else if IsLinux(platform) {
      var p := new ParserCore.Parser(LinuxDialect, addr, c, isIPv4);
      r := Ok(p);
    } else {
      assert false;
      r := Ok(null);
    }
  }
}
