/** Detaching the disk image and waiting for the volume to go (`unmount`, DmgInstallCommand.php lines 293-324). */
module Unmounter {
  import opened Support
  import opened MountParser

  /** The most one-second sleeps `unmount` spends waiting for the volume to disappear. */
  const MaxPolls: nat := 30
  const StillMounted: string := "Volume still exists after unmount."

  /** `unmount`. `mount` is the handle `mount` returned, or `None` when it failed (PHP's `false`,
      whose `['volume']` is `null`, which `is_dir` rejects). `volumeIsDir(0)` is what `is_dir` says of
      the volume before detaching and `volumeIsDir(i)` what it says after the `i`-th sleep; `detach`
      is the outcome of `hdiutil detach`. The results are the return value, the by-reference
      `$error` (left empty when nothing is written to it), the argument `hdiutil detach` was run
      with (`None` when it was not run) and the number of `sleep(1)` calls. */
  method Unmount(mount: Option<MountHandle>, volumeIsDir: nat -> bool, detach: ProcessResult)
    returns (ok: bool, error: string, detached: Option<string>, sleeps: nat)
    ensures sleeps <= MaxPolls
    ensures ok ==> error == ""
    // nothing mounted: succeed without detaching
    ensures !(mount.Some? && volumeIsDir(0)) ==> ok && detached.None? && sleeps == 0
    ensures mount.Some? && volumeIsDir(0) ==> detached == Some(mount.value.dev)
    // the detach command failed: report its error output, do not wait
    ensures mount.Some? && volumeIsDir(0) && !detach.successful ==>
      !ok && error == detach.stderr && sleeps == 0
    // the detach command succeeded: poll once per sleep until the volume is gone, at most 30 times
    ensures mount.Some? && volumeIsDir(0) && detach.successful ==>
      && 1 <= sleeps
      && (forall i :: 1 <= i < sleeps ==> volumeIsDir(i))
      && (ok <==> !volumeIsDir(sleeps))
    ensures mount.Some? && volumeIsDir(0) && detach.successful ==>
      (!ok <==> forall i :: 1 <= i <= MaxPolls ==> volumeIsDir(i))
    ensures mount.Some? && volumeIsDir(0) && detach.successful && !ok ==>
      error == StillMounted && sleeps == MaxPolls
  {
    ok, error, detached, sleeps := true, "", None, 0;
    if mount.Some? && volumeIsDir(0) {
      detached := Some(mount.value.dev);
      if !detach.successful {
        ok, error := false, detach.stderr;
        return;
      }
      var x: nat := 0;
      while true
        invariant x <= MaxPolls
        invariant sleeps == x
        invariant forall i :: 1 <= i <= x ==> volumeIsDir(i)
        decreases MaxPolls - x
      {
        x := x + 1;
        if x > MaxPolls {
          ok, error := false, StillMounted;
          return;
        }
        sleeps := sleeps + 1;
        if !volumeIsDir(x) {
          break;
        }
      }
    }
  }
}
