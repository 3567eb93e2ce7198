/** The `install:dmg` command's workflow (`execute` and `isInstallNeeded`, DmgInstallCommand.php
    lines 34-222): upgrade check, download, mount, resolve, version decision, install, verify,
    unmount and clean-up. Everything the parent class and the operating system answer is an input. */
module DmgInstall {
  import opened Support
  import opened Text
  import opened MountParser
  import opened Unmounter
  import opened VolumeResolver

  /** A PHP value used as the command's result: an integer constant, or the boolean that
      `isInstallNeeded` returns and line 86 stores in `$retval`. */
  datatype Value = IntValue(i: int) | BoolValue(b: bool)

  /** The parent class's `CONTINUE`, `EXIT_SUCCESS` and `EXIT_ERROR`, whose values are not part of
      this model. Comparisons with them are PHP's `===`, which is equality of `Value`s: so the
      boolean stored at line 86 counts as `CONTINUE` exactly when `cont` is that same boolean. */
  datatype Codes = Codes(cont: Value, success: Value, error: Value)

  /** A version as the version library holds it; its comparisons are inputs. */
  type Version = string

  /** The answers of everything `execute` consults. */
  datatype Env = Env(
    upgradeCheck: Value,                      // executeUpgradeCheck()
    download: Value,                          // executeDownload()
    attach: ProcessResult,                    // hdiutil attach
    listing: seq<string>,                     // the top-level entries of the mounted volume
    destination: string,                      // getDestination()
    isAppBundle: string -> bool,              // isAppBundle()
    bundleVersion: Option<Version>,           // getShortVersion() of the bundle found
    target: Option<Version>,                  // getTargetVersion() at lines 75 and 163, unless line 84 sets it
    versionEq: (Version, Version) -> bool,    // SemanticVersion::eq, target first
    installedBefore: bool,                    // isInstalled() while deciding
    overwrite: bool,                          // isOverwrite()
    versionGreater: Version -> bool,          // isVersionGreater()
    overwriteCheck: Value,                    // executeOverwriteCheck()
    installs: Artifact -> bool,               // installAppFile(), installPkgFile() or installFile(), by kind
    installedAfter: bool,                     // isInstalled() while verifying
    versionMatch: Version -> bool,            // isVersionMatch()
    volumeIsDir: nat -> bool,                 // is_dir() of the volume, before detaching and after each sleep
    detach: ProcessResult,                    // hdiutil detach
    dmgExists: bool,                          // file_exists() of the downloaded image
    unlinkSucceeds: bool                      // unlink() of the downloaded image
  )

  /** What `unmount` reported. */
  datatype UnmountReport = UnmountReport(ok: bool, error: string, detached: Option<string>, sleeps: nat)

  /** What a run did, step by step. */
  datatype Report = Report(
    attached: bool,                 // hdiutil attach was run
    handle: Option<MountHandle>,    // what mount returned
    artifact: Option<Artifact>,     // what the resolver returned
    decision: Value,                // $retval once the volume has been examined (line 105)
    installed: Option<Artifact>,    // the artifact handed to an installer
    target: Option<Version>,        // the target version at verification
    verdict: Value,                 // $retval after verification (line 188)
    unmount: Option<UnmountReport>, // what unmount reported, if it was called
    cleanup: bool                   // the clean-up step was reached
  )

  /** `isInstallNeeded`: install unless it is already there, no overwrite is asked for and the
      offered version is not newer. */
  function IsInstallNeeded(env: Env, offer: Version): (needed: bool)
    ensures !needed <==> env.installedBefore && !env.overwrite && !env.versionGreater(offer)
  {
    !env.installedBefore || env.overwrite || env.versionGreater(offer)
  }

  /** The bundle found offers a version that the known target is not `eq` to. */
  predicate VersionConflict(env: Env)
  {
    env.bundleVersion.Some? && env.target.Some? && !env.versionEq(env.target.value, env.bundleVersion.value)
  }

  predicate PastDownload(K: Codes, env: Env)
  {
    env.upgradeCheck == K.cont && env.download == K.cont
  }

  /** Lines 65-102: what the volume offers and the decision about it. A failed mount leaves the
      decision at `EXIT_ERROR` without looking at the volume. */
  method Examine(K: Codes, env: Env, handle: Option<MountHandle>)
    returns (file: Option<Artifact>, decision: Value, target: Option<Version>)
    ensures handle.None? ==> file.None? && decision == K.error && target == env.target
    ensures handle.Some? ==> file == DestinationFromVolume(env.listing, env.destination, env.isAppBundle)
    ensures handle.Some? && file.None? ==> decision == K.error && target == env.target
    ensures file.Some? && !file.value.AppBundle? ==> decision == env.overwriteCheck && target == env.target
    ensures file.Some? && file.value.AppBundle? && VersionConflict(env) ==> decision == K.error && target == env.target
    ensures (file.Some? && file.value.AppBundle? && !VersionConflict(env) && env.bundleVersion.Some?) ==>
      decision == BoolValue(IsInstallNeeded(env, env.bundleVersion.value)) && target == env.bundleVersion
    ensures file.Some? && file.value.AppBundle? && env.bundleVersion.None? ==> decision == K.cont && target == env.target
  {
    file, decision, target := None, K.error, env.target;
    if handle.Some? {
      file := DestinationFromVolume(env.listing, env.destination, env.isAppBundle);
      if file.Some? {
        if file.value.AppBundle? {
          var offer := env.bundleVersion;
          if offer.Some? && target.Some? && !env.versionEq(target.value, offer.value) {
            decision := K.error;
          } else if offer.Some? {
            target := offer;
            decision := BoolValue(IsInstallNeeded(env, offer.value));
          } else {
            decision := K.cont;
          }
        } else {
          decision := env.overwriteCheck;
        }
      }
    }
  }

  /** Lines 104-160: install the artifact found when the decision is `CONTINUE`. */
  method Install(K: Codes, env: Env, file: Option<Artifact>, decision: Value)
    returns (installed: Option<Artifact>, r: Value)
    ensures installed.Some? <==> decision == K.cont && file.Some?
    ensures installed.Some? ==> installed == file && r == (if env.installs(file.value) then K.success else K.error)
    ensures installed.None? ==> r == decision
  {
    installed, r := None, decision;
    if K.cont == r && file.Some? {
      installed := file;
      r := if env.installs(file.value) then K.success else K.error;
    }
  }

  /** Lines 162-188: an installed destination decides the result by its version; a missing one
      leaves the result as it was. */
  method Verify(K: Codes, env: Env, r: Value, target: Option<Version>) returns (verdict: Value)
    ensures !env.installedAfter ==> verdict == r
    ensures env.installedAfter && target.Some? && !env.versionMatch(target.value) ==> verdict == K.error
    ensures env.installedAfter && (target.None? || env.versionMatch(target.value)) ==> verdict == K.success
  {
    if !env.installedAfter {
      verdict := r;
    } else if target.Some? && !env.versionMatch(target.value) {
      verdict := K.error;
    } else {
      verdict := K.success;
    }
  }

  /** `execute`. */
  method Execute(K: Codes, env: Env) returns (r: Value, rep: Report)
    requires K.error != K.cont
    // an upgrade check or download that does not say CONTINUE ends the run before anything is mounted
    ensures env.upgradeCheck != K.cont ==>
      r == env.upgradeCheck && !rep.attached && rep.installed.None? && rep.unmount.None? && !rep.cleanup
    ensures env.upgradeCheck == K.cont && env.download != K.cont ==>
      r == env.download && !rep.attached && rep.installed.None? && rep.unmount.None? && !rep.cleanup
    // mount
    ensures PastDownload(K, env) ==>
      rep.attached && rep.handle == (if MountResult(env.attach).Ok? then Some(MountResult(env.attach).value) else None)
    ensures PastDownload(K, env) && rep.handle.None? ==>
      rep.artifact.None? && rep.decision == K.error && rep.target == env.target
    // resolve and decide
    ensures PastDownload(K, env) && rep.handle.Some? ==>
      rep.artifact == DestinationFromVolume(env.listing, env.destination, env.isAppBundle)
    ensures PastDownload(K, env) && rep.handle.Some? && rep.artifact.None? ==>
      rep.decision == K.error && rep.target == env.target
    ensures PastDownload(K, env) && rep.artifact.Some? && !rep.artifact.value.AppBundle? ==>
      rep.decision == env.overwriteCheck && rep.target == env.target
    ensures PastDownload(K, env) && rep.artifact.Some? && rep.artifact.value.AppBundle? && VersionConflict(env) ==>
      rep.decision == K.error && rep.target == env.target
    ensures (PastDownload(K, env) && rep.artifact.Some? && rep.artifact.value.AppBundle? && !VersionConflict(env)
             && env.bundleVersion.Some?) ==>
      rep.decision == BoolValue(IsInstallNeeded(env, env.bundleVersion.value)) && rep.target == env.bundleVersion
    ensures PastDownload(K, env) && rep.artifact.Some? && rep.artifact.value.AppBundle? && env.bundleVersion.None? ==>
      rep.decision == K.cont && rep.target == env.target
    // install only what was found, and only on CONTINUE
    ensures PastDownload(K, env) ==> (rep.installed.Some? <==> rep.decision == K.cont && rep.artifact.Some?)
    ensures rep.installed.Some? ==> rep.installed == rep.artifact
    ensures rep.installed.Some? && rep.installed.value.AppBundle? ==> !VersionConflict(env)
    // the boolean of line 86 against CONTINUE, for the two readings of CONTINUE
    ensures (PastDownload(K, env) && K.cont == BoolValue(true) && rep.artifact.Some? && rep.artifact.value.AppBundle?
             && !VersionConflict(env) && env.bundleVersion.Some?) ==>
      (rep.installed.Some? <==> IsInstallNeeded(env, env.bundleVersion.value))
    ensures (PastDownload(K, env) && K.cont.IntValue? && rep.artifact.Some? && rep.artifact.value.AppBundle?
             && env.bundleVersion.Some?) ==>
      rep.installed.None?
    // verify: an installed destination decides the result, whatever came before
    ensures PastDownload(K, env) && env.installedAfter && (rep.target.None? || env.versionMatch(rep.target.value)) ==>
      rep.verdict == K.success
    ensures PastDownload(K, env) && env.installedAfter && rep.target.Some? && !env.versionMatch(rep.target.value) ==>
      rep.verdict == K.error
    ensures PastDownload(K, env) && !env.installedAfter ==>
      rep.verdict == (if rep.installed.Some? then (if env.installs(rep.installed.value) then K.success else K.error)
                      else rep.decision)
    // unmount always runs, and succeeds without detaching when nothing was mounted
    ensures PastDownload(K, env) ==> rep.unmount.Some? && rep.unmount.value.sleeps <= MaxPolls
    ensures PastDownload(K, env) && rep.handle.None? ==> rep.unmount == Some(UnmountReport(true, "", None, 0))
    ensures PastDownload(K, env) && rep.handle.Some? ==>
      rep.unmount.value.detached == (if env.volumeIsDir(0) then Some(rep.handle.value.dev) else None)
    // clean-up: a download that cannot be removed is an error; otherwise the verdict stands
    ensures PastDownload(K, env) ==>
      rep.cleanup && r == (if env.dmgExists && !env.unlinkSucceeds then K.error else rep.verdict)
  {
    r := env.upgradeCheck;
    rep := Report(false, None, None, r, None, env.target, r, None, false);
    if K.cont != r {
      return;
    }
    r := env.download;
    rep := rep.(decision := r, verdict := r);
    if K.cont != r {
      return;
    }

    // Mount the DMG
    var mounted := Mount(env.attach);
    var handle: Option<MountHandle> := if mounted.Ok? then Some(mounted.value) else None;

    var file, decision, target := Examine(K, env, handle);
    var installed, installResult := Install(K, env, file, decision);
    var verdict := Verify(K, env, installResult, target);
    r := verdict;

    // Unmount
    var ok, error, detached, sleeps := Unmount(handle, env.volumeIsDir, env.detach);

    // Clean up
    rep := Report(true, handle, file, decision, installed, target, verdict,
                  Some(UnmountReport(ok, error, detached, sleeps)), true);
    if env.dmgExists && !env.unlinkSucceeds {
      return K.error, rep;
    }
  }
}
