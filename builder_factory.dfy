/** Classifying platform names into the three supported families, and choosing the `ping`
    executable and the argument builder for a platform. */
module BuilderFactory {
  import opened Js

  /** The families of platforms the package supports. */
  datatype Family = LinuxFamily | MacFamily | WinFamily

  /** The builder a platform gets (`MacBuilder` is only named here: its arguments are not
      part of this model). */
  datatype Builder = LinuxBuilder | WinBuilder | MacBuilder

  const LinuxPlatforms: seq<string> := ["aix", "android", "linux"]
  const MacPlatforms: seq<string> := ["darwin", "freebsd"]

  /** `isLinux(p)`: `p` is one of the Linux-family names. */
  predicate IsLinux(p: string)
  {
    IndexOf(LinuxPlatforms, p) >= 0
  }

  /** `isMacOS(p)`: `p` is one of the macOS-family names. */
  predicate IsMacOS(p: string)
  {
    IndexOf(MacPlatforms, p) >= 0
  }

  /** `isWindow(p)` for a string: `p` starts with `win`. */
  predicate IsWindow(p: string)
  {
    |p| >= 3 && p[..3] == "win"
  }

  /** `isWindow(p)` as written, for a platform that may be missing (`None` stands for
      `undefined` and `null`): `p?.match(/^win/)` is then `undefined`, which is not `null`. */
  predicate IsWindowAsWritten(p: Option<string>)
  {
    match p
    case None => true
    case Some(s) => IsWindow(s)
  }

  /** `isPlatformSupport(p)` as written, for a platform that may be missing: `indexOf` of a
      missing value in a list of strings is -1, so only the Windows test can accept it. */
  predicate IsPlatformSupportAsWritten(p: Option<string>)
  {
    IsWindowAsWritten(p) || (p.Some? && (IsLinux(p.value) || IsMacOS(p.value)))
  }

  /** The corrected test: a missing platform is not Windows. */
  predicate IsWindowCorrected(p: Option<string>)
  {
    p.Some? && IsWindow(p.value)
  }

  /** The corrected support test: a missing platform is not supported. */
  predicate IsPlatformSupportCorrected(p: Option<string>)
  {
    p.Some? && IsPlatformSupport(p.value)
  }

  /** `isPlatformSupport(p)`. */
  predicate IsPlatformSupport(p: string)
  {
    IsWindow(p) || IsLinux(p) || IsMacOS(p)
  }

  /** The family of a platform, stated directly on the names (a reference definition for the
      tests above). */
  function FamilyOf(p: string): Option<Family>
  {
    if p == "aix" || p == "android" || p == "linux" then Some(LinuxFamily)
    else if p == "darwin" || p == "freebsd" then Some(MacFamily)
    else if |p| >= 3 && p[0] == 'w' && p[1] == 'i' && p[2] == 'n' then Some(WinFamily)
    else None
  }

  /** Each test holds exactly on its family, so the three are pairwise disjoint and a
      platform is supported exactly when it has a family. */
  lemma Classification(p: string)
    ensures IsLinux(p) <==> FamilyOf(p) == Some(LinuxFamily)
    ensures IsMacOS(p) <==> FamilyOf(p) == Some(MacFamily)
    ensures IsWindow(p) <==> FamilyOf(p) == Some(WinFamily)
    ensures IsPlatformSupport(p) <==> FamilyOf(p).Some?
  {
    assert IsLinux(p) <==> p in LinuxPlatforms;
    assert IsMacOS(p) <==> p in MacPlatforms;
    if IsWindow(p) {
      assert p[0] == 'w' && p[1] == 'i' && p[2] == 'n' by { assert p[..3][0] == p[0] && p[..3][1] == p[1] && p[..3][2] == p[2]; }
    }
    if |p| >= 3 && p[0] == 'w' && p[1] == 'i' && p[2] == 'n' {
      assert p[..3] == "win";
    }
  }

  /** No platform name is in two families. */
  lemma FamiliesDisjoint(p: string)
    ensures !(IsLinux(p) && IsMacOS(p))
    ensures !(IsLinux(p) && IsWindow(p))
    ensures !(IsMacOS(p) && IsWindow(p))
  {
    Classification(p);
  }

  /** `getExecutablePath(platform, v6)`, with the value of the `SystemRoot` environment
      variable passed in (`None` when it is not set, which `+` turns into `undefined`).
      `Ok(None)` is the `null` the function returns when no branch applies. */
  function ExecutablePath(platform: string, v6: bool, systemRoot: Option<string>): Result<Option<string>>
  {
    if !IsPlatformSupport(platform) then Err(UnsupportedPlatform)
    else if platform == "aix" then Ok(Some("/usr/sbin/ping"))
    else if IsLinux(platform) then Ok(Some(if v6 then "ping6" else "ping"))
    else if IsWindow(platform) then
      Ok(Some((if systemRoot.Some? then systemRoot.value else "undefined") + "/system32/ping.exe"))
    else if IsMacOS(platform) then Ok(Some(if v6 then "/sbin/ping6" else "/sbin/ping"))
    else Ok(None)
  }

  /** The executable for each family; an unsupported platform is refused and a supported one
      always gets a path, never `null`. */
  lemma ExecutablePathByFamily(platform: string, v6: bool, systemRoot: Option<string>)
    ensures var r := ExecutablePath(platform, v6, systemRoot);
      && (FamilyOf(platform).None? <==> r == Err(UnsupportedPlatform))
      && (r.Ok? ==> r.value.Some?)
      && (platform == "aix" ==> r == Ok(Some("/usr/sbin/ping")))
      && (FamilyOf(platform) == Some(LinuxFamily) && platform != "aix" ==> r == Ok(Some(if v6 then "ping6" else "ping")))
      && (FamilyOf(platform) == Some(MacFamily) ==> r == Ok(Some(if v6 then "/sbin/ping6" else "/sbin/ping")))
      && (FamilyOf(platform) == Some(WinFamily) ==>
            r == Ok(Some((if systemRoot.Some? then systemRoot.value else "undefined") + "/system32/ping.exe")))
  {
    Classification(platform);
  }

  /** `createBuilder(platform)`; `Ok(None)` is the `null` returned when no branch applies. */
  function CreateBuilder(platform: string): Result<Option<Builder>>
  {
    if !IsPlatformSupport(platform) then Err(UnsupportedPlatform)
    else if IsLinux(platform) then Ok(Some(LinuxBuilder))
    else if IsWindow(platform) then Ok(Some(WinBuilder))
    else if IsMacOS(platform) then Ok(Some(MacBuilder))
    else Ok(None)
  }

  /** Every supported platform gets the builder of its family, `aix` and `android`
      included, and never `null`; every other platform is refused. */
  lemma BuilderByFamily(platform: string)
    ensures var r := CreateBuilder(platform);
      && (FamilyOf(platform).None? <==> r == Err(UnsupportedPlatform))
      && (FamilyOf(platform) == Some(LinuxFamily) <==> r == Ok(Some(LinuxBuilder)))
      && (FamilyOf(platform) == Some(WinFamily) <==> r == Ok(Some(WinBuilder)))
      && (FamilyOf(platform) == Some(MacFamily) <==> r == Ok(Some(MacBuilder)))
      && r != Ok(None)
  {
    Classification(platform);
  }

  /** As written, a missing platform is taken for Windows, so it counts as supported (and
      would get the Windows parser and executable); the corrected tests refuse it. */
  lemma MissingPlatformIsWindow()
    ensures IsWindowAsWritten(None) && IsPlatformSupportAsWritten(None)
    ensures !IsWindowCorrected(None) && !IsPlatformSupportCorrected(None)
  {
  }

  /** On every platform name the corrected tests agree with the written ones. */
  lemma CorrectedAgreesOnStrings(p: string)
    ensures IsWindowAsWritten(Some(p)) == IsWindowCorrected(Some(p)) == IsWindow(p)
    ensures IsPlatformSupportAsWritten(Some(p)) == IsPlatformSupportCorrected(Some(p)) == IsPlatformSupport(p)
  {
  }
}
