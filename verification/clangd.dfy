/**
 * The two clangd strategies the installer is exercised with: reading the
 * version out of `clangd --version` output, and picking the release asset
 * for a platform and architecture.
 */
module Clangd {
  import opened Outcomes
  import opened Text
  import opened Paths
  import Semver
  import Github

  // ---------------------------------------------------------------------
  // `parseVersion`.

  const VersionPrefix := "clangd version "

  /** The characters that end the version token: a space, or the `~` some
      vendors put before a patch level. */
  const Stops: set<char> := {' ', '~'}

  /** `pos` is where the version prefix first occurs in `output`. */
  predicate FirstAt(output: string, pos: int) {
    && OccursAt(output, VersionPrefix, pos)
    && forall j :: 0 <= j < pos ==> !OccursAt(output, VersionPrefix, j)
  }

  lemma FirstAtUnique(output: string, p: int, q: int)
    requires FirstAt(output, p) && FirstAt(output, q)
    ensures p == q
  {
  }

  /** `token` is the longest prefix of `rest` holding neither stop
      character. */
  predicate IsToken(token: string, rest: string) {
    && |token| <= |rest| && rest[..|token|] == token
    && (forall i :: 0 <= i < |token| ==> token[i] !in Stops)
    && (|token| < |rest| ==> rest[|token|] in Stops)
  }

  /** The text before the prefix names Apple's build. */
  predicate IsAppleVendor(output: string, pos: int)
    requires 0 <= pos <= |output|
  {
    Trim(output[..pos]) == "Apple"
  }

  /** `parseVersion`: the token after the first `clangd version `, up to the
      first space or `~`. Output without the prefix is not a version line,
      and Apple's build (the text before the prefix, trimmed, is exactly
      `Apple`) cannot be compared with upstream releases. */
  function ParseVersion(output: string): (res: Result<string>)
    ensures res == Err(NoVersionLine) <==> forall p :: !OccursAt(output, VersionPrefix, p)
    ensures res == Err(VendorVersion) <==>
              exists pos :: FirstAt(output, pos) && IsAppleVendor(output, pos)
    ensures res.Ok? <==>
              exists pos :: FirstAt(output, pos) && !IsAppleVendor(output, pos)
    ensures res.Ok? ==>
              forall pos :: FirstAt(output, pos) ==> IsToken(res.value, output[pos + |VersionPrefix|..])
  {
    match IndexOf(output, VersionPrefix)
    case None => Err(NoVersionLine)
    case Some(pos) =>
      assert FirstAt(output, pos);
      assert forall q :: FirstAt(output, q) ==> q == pos by {
        forall q | FirstAt(output, q) ensures q == pos {
          FirstAtUnique(output, pos, q);
        }
      }
      ParseAt(output, pos)
  }

  /** The version line found at `pos`, the first occurrence of the
      prefix: the vendor check, then the token after the prefix. */
  function ParseAt(output: string, pos: nat): (res: Result<string>)
    requires FirstAt(output, pos)
    ensures res != Err(NoVersionLine)
    ensures res == Err(VendorVersion) <==> IsAppleVendor(output, pos)
    ensures res.Ok? <==> !IsAppleVendor(output, pos)
    ensures res.Ok? ==> IsToken(res.value, output[pos + |VersionPrefix|..])
  {
    if pos == 0 then
      assert output[..pos] == [];
      TrimUnchanged([]);
      Ok(UpToAny(output[|VersionPrefix|..], Stops))
    else if IsAppleVendor(output, pos) then Err(VendorVersion)
    else Ok(UpToAny(output[pos + |VersionPrefix|..], Stops))
  }

  /** The token a stop-free text followed by a stop or by nothing is that
      text. */
  lemma TokenOfPrefix(x: string, tail: string)
    requires forall i :: 0 <= i < |x| ==> x[i] !in Stops
    requires tail == [] || tail[0] in Stops
    ensures UpToAny(x + tail, Stops) == x
  {
    var s := x + tail;
    assert forall i :: 0 <= i < |x| ==> s[i] == x[i];
    assert |x| < |s| ==> s[|x|] == tail[0];
  }

  /** Upstream output: the version is read back whole, whatever follows
      it after a space or `~`. */
  lemma {:induction false} ParseUpstream(v: Semver.Version, tail: string)
    requires tail == [] || tail[0] in Stops
    ensures ParseVersion(VersionPrefix + Semver.Format(v) + tail) == Ok(Semver.Format(v))
  {
    var f := Semver.Format(v);
    var s := VersionPrefix + f + tail;
    Semver.FormatDigitsAndDots(v);
    assert OccursAt(s, VersionPrefix, 0);
    assert s[|VersionPrefix|..] == f + tail;
    TokenOfPrefix(f, tail);
  }

  /** Apple's build is refused even when its version line is well formed. */
  lemma {:induction false} ParseApple(rest: string)
    ensures ParseVersion("Apple " + VersionPrefix + rest) == Err(VendorVersion)
  {
    var s := "Apple " + VersionPrefix + rest;
    AppleFirstAt(rest);
    assert s[..6] == "Apple ";
    AppleTrim();
    assert FirstAt(s, 6) && IsAppleVendor(s, 6);
  }

  /** In Apple's output the prefix first occurs after `Apple `. */
  lemma AppleFirstAt(rest: string)
    ensures FirstAt("Apple " + VersionPrefix + rest, 6)
  {
    var s := "Apple " + VersionPrefix + rest;
    assert OccursAt(s, VersionPrefix, 6);
    forall j | 0 <= j < 6
      ensures !OccursAt(s, VersionPrefix, j)
    {
      assert s[j] == "Apple "[j];
      assert s[j..j + |VersionPrefix|][0] == s[j];
    }
  }

  lemma AppleTrim()
    ensures Trim("Apple ") == "Apple"
  {
    AppleTrimStart();
    AppleTrimEnd();
  }

  lemma AppleTrimStart()
    ensures TrimStart("Apple ") == "Apple "
  {
    assert "Apple "[0] == 'A' && !IsSpace('A');
  }

  lemma AppleTrimEnd()
    ensures TrimEnd("Apple ") == "Apple"
  {
    assert "Apple "[..5] == "Apple" && "Apple "[5] == ' ';
    assert "Apple"[4] == 'e' && !IsSpace('e');
  }

  // ---------------------------------------------------------------------
  // `chooseAsset`.

  /** The variant name clangd's release assets carry for a platform. */
  function Variant(platform: Platform): Option<string> {
    match platform
    case Win32 => Some("windows")
    case Linux => Some("linux")
    case Darwin => Some("mac")
    case _ => None
  }

  /** Whether the variant's binaries run on `arch`: 32-bit editors on
      64-bit Windows are common, and the Mac build is a fat binary for
      x64 and arm64. */
  predicate Accepted(variant: string, arch: string) {
    arch == "x64" || variant == "windows" || (arch == "arm64" && variant == "mac")
  }

  /** `names.findIndex(name => name.indexOf(sub) >= 0)`. */
  function FindIndex(names: seq<string>, sub: string): (i: int)
    ensures -1 <= i < |names|
    ensures i >= 0 ==> Contains(names[i], sub)
    ensures i >= 0 ==> forall j :: 0 <= j < i ==> !Contains(names[j], sub)
    ensures i == -1 ==> forall j :: 0 <= j < |names| ==> !Contains(names[j], sub)
    decreases |names|
  {
    if |names| == 0 then -1
    else if Contains(names[0], sub) then 0
    else
      var k := FindIndex(names[1..], sub);
      if k < 0 then -1 else k + 1
  }

  /** `chooseAsset(platform, arch, assetNames)`: the first asset whose name
      mentions `clangd-<variant>` when the platform and architecture are
      supported, and -1 (no asset) otherwise. */
  function ChooseAsset(platform: Platform, arch: string, names: seq<string>): (i: int)
    ensures -1 <= i < |names|
    ensures Variant(platform).None? ==> i == -1
    ensures Variant(platform).Some? && !Accepted(Variant(platform).value, arch) ==> i == -1
    ensures i >= 0 ==> Contains(names[i], "clangd-" + Variant(platform).value)
    ensures i >= 0 ==> forall j :: 0 <= j < i ==> !Contains(names[j], "clangd-" + Variant(platform).value)
    ensures Variant(platform).Some? && Accepted(Variant(platform).value, arch) && i == -1 ==>
              forall j :: 0 <= j < |names| ==> !Contains(names[j], "clangd-" + Variant(platform).value)
  {
    match Variant(platform)
    case Some(variant) =>
      if Accepted(variant, arch) then FindIndex(names, "clangd-" + variant) else -1
    case None => -1
  }

  /** The arch rules spelled out per platform: Windows for any arch, Mac
      for x64 and arm64, Linux for x64 only, anything else never. */
  lemma {:induction false} ArchRules(platform: Platform, arch: string)
    ensures (Variant(platform).Some? && Accepted(Variant(platform).value, arch)) <==>
            || platform == Win32
            || (platform == Darwin && (arch == "x64" || arch == "arm64"))
            || (platform == Linux && arch == "x64")
  {
    match platform
    case Win32 =>
    case Darwin =>
    case Linux =>
      assert "linux" != "windows" && "linux" != "mac";
    case _ =>
  }

  /** Composed with the installer's asset gate, the clangd picker yields an
      asset exactly when the platform is supported and some asset name
      mentions its variant, and the asset it yields is the first such. */
  lemma {:induction false} GatedChoice(release: Github.Release, platform: Platform, arch: string)
    ensures var res := Github.ChooseAsset(release, ChooseAsset(platform, arch, Github.AssetNames(release.assets)));
      && (res.Ok? <==>
            && Variant(platform).Some? && Accepted(Variant(platform).value, arch)
            && exists j :: 0 <= j < |release.assets|
                             && Contains(release.assets[j].name, "clangd-" + Variant(platform).value))
      && (res.Ok? ==> Contains(res.value.name, "clangd-" + Variant(platform).value))
      && (res.Err? ==> res.error == NoCompatibleAsset)
  {
  }
}
