/** Finding what to install on the mounted volume (DmgInstallCommand.php lines 224-291).
    `listing` is what `glob` returns for the pattern `*` in the volume directory: the paths of the
    volume's top-level entries whose names do not start with a dot, in glob's sorted order. The
    pattern `*.pkg` there yields the part of that listing whose names end in `.pkg`, in the same order. */
module VolumeResolver {
  import opened Support
  import opened Text

  /** What the resolver found: an application bundle (`MacApplication`), an installer package
      (`PkgFile`) or a plain file (the path string). */
  datatype Artifact = AppBundle(path: string) | Package(path: string) | LooseFile(path: string)

  const PkgSuffix: string := ".pkg"

  /** Entry `i` is the first entry of the listing named `name`. */
  ghost predicate IsFirstNamed(listing: seq<string>, name: string, i: int)
  {
    && 0 <= i < |listing|
    && Basename(listing[i]) == name
    && (forall j :: 0 <= j < i ==> Basename(listing[j]) != name)
  }

  /** No entry of the listing is named `name`. */
  ghost predicate NoneNamed(listing: seq<string>, name: string)
  {
    forall j :: 0 <= j < |listing| ==> Basename(listing[j]) != name
  }

  /** The `*.pkg` pattern matches this path. */
  predicate IsPkgPath(path: string)
  {
    EndsWith(Basename(path), PkgSuffix)
  }

  /** Entry `i` is a package and no other entry is. */
  ghost predicate IsOnlyPkg(listing: seq<string>, i: int)
  {
    && 0 <= i < |listing|
    && IsPkgPath(listing[i])
    && (forall j :: 0 <= j < |listing| && j != i ==> !IsPkgPath(listing[j]))
  }

  ghost predicate HasSinglePkg(listing: seq<string>)
  {
    exists i :: IsOnlyPkg(listing, i)
  }

  /** The first entry named like the destination is an application bundle. */
  ghost predicate HasAppMatch(listing: seq<string>, name: string, isAppBundle: string -> bool)
  {
    exists i :: IsFirstNamed(listing, name, i) && isAppBundle(listing[i])
  }

  /** The position of the first entry named `name`, `|listing|` when there is none. */
  function MatchIndex(listing: seq<string>, name: string): (i: nat)
    ensures i <= |listing|
    ensures forall j :: 0 <= j < i ==> Basename(listing[j]) != name
    ensures i < |listing| ==> Basename(listing[i]) == name
  {
    if |listing| == 0 then 0
    else if Basename(listing[0]) == name then 0
    else 1 + MatchIndex(listing[1..], name)
  }

  /** `getMatchFromVolume`: the first entry whose basename is the basename of the destination. */
  function MatchFromVolume(listing: seq<string>, destination: string): (r: Option<string>)
    ensures r.None? <==> NoneNamed(listing, Basename(destination))
    ensures forall i :: IsFirstNamed(listing, Basename(destination), i) ==> r == Some(listing[i])
  {
    var name := Basename(destination);
    var i := MatchIndex(listing, name);
    if i < |listing| then
      assert IsFirstNamed(listing, name, i);
      assert forall j :: IsFirstNamed(listing, name, j) ==> j == i;
      Some(listing[i])
    else
      assert NoneNamed(listing, name);
      None
  }

  /** `getMatchFromVolume` as the source writes it: a `foreach` that returns on the first match. */
  method GetMatchFromVolume(listing: seq<string>, destination: string) returns (r: Option<string>)
    ensures r == MatchFromVolume(listing, destination)
  {
    var name := Basename(destination);
    var k := 0;
    while k < |listing|
      invariant 0 <= k <= |listing|
      invariant forall j :: 0 <= j < k ==> Basename(listing[j]) != name
    {
      if name == Basename(listing[k]) {
        assert IsFirstNamed(listing, name, k);
        return Some(listing[k]);
      }
      k := k + 1;
    }
    return None;
  }

  /** What `glob` returns for `*.pkg` in the volume: the entries of the listing that are packages, in listing order. */
  function PkgEntries(listing: seq<string>): seq<string>
  {
    if |listing| == 0 then []
    else (if IsPkgPath(listing[0]) then [listing[0]] else []) + PkgEntries(listing[1..])
  }

  lemma {:induction false} NoPkgEntries(listing: seq<string>)
    ensures |PkgEntries(listing)| == 0 <==> forall j :: 0 <= j < |listing| ==> !IsPkgPath(listing[j])
  {
    if |listing| > 0 {
      NoPkgEntries(listing[1..]);
      assert forall j :: 1 <= j < |listing| ==> listing[j] == listing[1..][j - 1];
    }
  }

  /** The `*.pkg` pattern yields exactly one path when exactly one entry is a package, and then that one. */
  lemma {:induction false} SinglePkgEntry(listing: seq<string>)
    ensures |PkgEntries(listing)| == 1 <==> HasSinglePkg(listing)
    ensures forall i :: IsOnlyPkg(listing, i) ==> PkgEntries(listing) == [listing[i]]
  {
    if |listing| > 0 {
      var tail := listing[1..];
      SinglePkgEntry(tail);
      NoPkgEntries(tail);
      assert forall j :: 1 <= j < |listing| ==> listing[j] == tail[j - 1];
      if IsPkgPath(listing[0]) {
        assert PkgEntries(listing) == [listing[0]] + PkgEntries(tail);
        forall i | IsOnlyPkg(listing, i) ensures i == 0 {
        }
        if |PkgEntries(tail)| == 0 {
          assert IsOnlyPkg(listing, 0);
        }
      } else {
        assert PkgEntries(listing) == PkgEntries(tail);
        forall i | IsOnlyPkg(listing, i) ensures i >= 1 && IsOnlyPkg(tail, i - 1) {
          assert i != 0;
          forall j | 0 <= j < |tail| && j != i - 1 ensures !IsPkgPath(tail[j]) {
            assert tail[j] == listing[j + 1];
          }
        }
        if HasSinglePkg(tail) {
          var i :| IsOnlyPkg(tail, i);
          assert IsOnlyPkg(listing, i + 1);
        }
      }
    }
  }

  /** `getPkgFromVolume`: the package, when the volume holds exactly one. */
  function PkgFromVolume(listing: seq<string>): (r: Option<string>)
    ensures r.Some? <==> HasSinglePkg(listing)
    ensures forall i :: IsOnlyPkg(listing, i) ==> r == Some(listing[i])
  {
    SinglePkgEntry(listing);
    var pkgs := PkgEntries(listing);
    if |pkgs| == 1 then Some(pkgs[0]) else None
  }

  /** `getAppFromVolume`: the entry named like the destination, when it is an application bundle. */
  function AppFromVolume(listing: seq<string>, destination: string, isAppBundle: string -> bool): (r: Option<string>)
    ensures r.Some? <==> HasAppMatch(listing, Basename(destination), isAppBundle)
    ensures forall i :: IsFirstNamed(listing, Basename(destination), i) && isAppBundle(listing[i]) ==> r == Some(listing[i])
  {
    var m := MatchFromVolume(listing, destination);
    if m.Some? && isAppBundle(m.value) then m else None
  }

  /** `getDestinationFromVolume`: an application bundle named like the destination comes first, then
      the volume's only package, then any entry named like the destination. */
  function DestinationFromVolume(listing: seq<string>, destination: string, isAppBundle: string -> bool)
    : (r: Option<Artifact>)
    ensures forall i :: IsFirstNamed(listing, Basename(destination), i) && isAppBundle(listing[i]) ==>
      r == Some(AppBundle(listing[i]))
    ensures forall i :: IsOnlyPkg(listing, i) && !HasAppMatch(listing, Basename(destination), isAppBundle) ==>
      r == Some(Package(listing[i]))
    ensures forall i :: IsFirstNamed(listing, Basename(destination), i) && !isAppBundle(listing[i]) && !HasSinglePkg(listing) ==>
      r == Some(LooseFile(listing[i]))
    ensures NoneNamed(listing, Basename(destination)) && !HasSinglePkg(listing) ==> r == None
  {
    var app := AppFromVolume(listing, destination, isAppBundle);
    if app.Some? then Some(AppBundle(app.value))
    else
      var pkg := PkgFromVolume(listing);
      if pkg.Some? then Some(Package(pkg.value))
      else
        var file := MatchFromVolume(listing, destination);
        if file.Some? then Some(LooseFile(file.value)) else None
  }

  /** Two packages and no entry named like the destination leave nothing to install. */
  lemma TwoPackagesNoMatch(listing: seq<string>, destination: string, isAppBundle: string -> bool, i: int, j: int)
    requires 0 <= i < |listing| && 0 <= j < |listing| && i != j
    requires IsPkgPath(listing[i]) && IsPkgPath(listing[j])
    requires NoneNamed(listing, Basename(destination))
    ensures DestinationFromVolume(listing, destination, isAppBundle) == None
  {
    forall k | 0 <= k < |listing| ensures !IsOnlyPkg(listing, k) {
      if k == i { assert IsPkgPath(listing[j]); } else { assert IsPkgPath(listing[i]); }
    }
  }
}
