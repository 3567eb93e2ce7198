/** Attaching the disk image and reading where it was mounted (`mount`, DmgInstallCommand.php lines 326-351). */
module MountParser {
  import opened Support
  import opened Text

  /** What `mount` returns on success. `dev` is capture group 2 of the attach-line pattern (the text
      between the device token and the mount point, usually the partition type and the tabs after it),
      `volume` is capture group 3 (the `/Volumes/...` mount point). */
  datatype MountHandle = MountHandle(dev: string, volume: string)

  const DevPrefix: string := "/dev/"
  const VolumesPrefix: string := "/Volumes/"
  const NoMountPoint: string := "Could not determine mount point!"

  predicate AllNonSpace(s: string) { forall i :: 0 <= i < |s| ==> !IsSpace(s[i]) }
  predicate AllSpace(s: string) { forall i :: 0 <= i < |s| ==> IsSpace(s[i]) }
  predicate NoSlash(s: string) { forall i :: 0 <= i < |s| ==> s[i] != '/' }
  predicate NoNewline(s: string) { forall i :: 0 <= i < |s| ==> s[i] != '\n' }

  lemma NoNewlineDrop(s: string, k: nat)
    requires NoNewline(s) && k <= |s|
    ensures NoNewline(s[k..])
  {
    assert forall i :: 0 <= i < |s| - k ==> s[k..][i] == s[k + i];
  }

  /** What follows group 1 in a match: `gap` is what `\s+` consumed, `dev` group 2, `name` group 4. */
  ghost predicate IsAttachTail(after: string, gap: string, dev: string, name: string)
  {
    && after == gap + dev + VolumesPrefix + name
    && |gap| > 0 && AllSpace(gap)
    && |dev| > 0 && NoSlash(dev)
    && NoNewline(name)
  }

  /** The pattern `^/dev/([^\s]+)\s+([^/]+)(/Volumes/(.*))$` as a decomposition of `line`:
      `node` is group 1, `gap` what `\s+` consumed, `dev` group 2 and `name` group 4. */
  ghost predicate IsAttachLine(line: string, node: string, gap: string, dev: string, name: string)
  {
    && line == DevPrefix + node + gap + dev + VolumesPrefix + name
    && |node| > 0 && AllNonSpace(node)
    && |gap| > 0 && AllSpace(gap)
    && |dev| > 0 && NoSlash(dev)
    && NoNewline(name)
  }

  /** The match PCRE reports for the attach-line pattern on one line of output. */
  function ParseLine(line: string): Option<MountHandle>
  {
    if StartsWith(line, DevPrefix) then ParseDevice(line[|DevPrefix|..]) else None
  }

  /** After `/dev/`: group 1 must be the whole run of non-space characters, since `\s+` has to follow it. */
  function ParseDevice(rest: string): Option<MountHandle>
  {
    var n := SpanNonSpace(rest);
    if n == 0 then None else ParseTail(rest[n..])
  }

  /** After group 1: group 2 ends at the first `/`, which must open `/Volumes/`; of the ways to share
      the blanks between `\s+` and group 2, PCRE takes the one where `\s+` is longest. */
  function ParseTail(after: string): Option<MountHandle>
  {
    var w := SpanSpace(after);
    var p := IndexOf(after, '/');
    if w == 0 || p == |after| || p < 2 || !StartsWith(after[p..], VolumesPrefix) then None
    else
      var k := if w < p then w else p - 1;
      Some(MountHandle(after[k..p], after[p..]))
  }

  lemma PrefixAllSpace(s: string, k: nat)
    requires k <= SpanSpace(s)
    ensures AllSpace(s[..k])
  {
    assert forall i :: 0 <= i < k ==> s[..k][i] == s[i];
  }

  lemma SliceNoSlash(s: string, k: nat, p: nat)
    requires k <= p <= IndexOf(s, '/')
    ensures NoSlash(s[k..p])
  {
    assert forall i :: 0 <= i < p - k ==> s[k..p][i] == s[k + i];
  }

  /** A text with `/Volumes/` at `p` falls apart at `k` and `p` into its four pieces. */
  lemma FourPieces(s: string, k: nat, p: nat)
    requires k <= p <= |s| && StartsWith(s[p..], VolumesPrefix)
    ensures s == s[..k] + s[k..p] + VolumesPrefix + s[p + |VolumesPrefix|..]
    ensures s[p..] == VolumesPrefix + s[p + |VolumesPrefix|..]
  {
    assert s[p..] == VolumesPrefix + s[p + |VolumesPrefix|..] by {
      assert s[p..][..|VolumesPrefix|] == VolumesPrefix;
    }
    assert s == s[..k] + s[k..p] + s[p..];
  }

  /** A handle `ParseTail` reports comes from a match of the part of the pattern after group 1. */
  lemma TailSound(after: string) returns (gap: string, name: string)
    requires NoNewline(after)
    requires ParseTail(after).Some?
    ensures IsAttachTail(after, gap, ParseTail(after).value.dev, name)
    ensures ParseTail(after).value.volume == VolumesPrefix + name
  {
    var w := SpanSpace(after);
    var p := IndexOf(after, '/');
    var k := if w < p then w else p - 1;
    assert ParseTail(after) == Some(MountHandle(after[k..p], after[p..]));
    gap, name := after[..k], after[p + |VolumesPrefix|..];
    PrefixAllSpace(after, k);
    SliceNoSlash(after, k, p);
    NoNewlineDrop(after, p + |VolumesPrefix|);
    FourPieces(after, k, p);
  }

  /** Group 1 and what follows it, when `ParseDevice` reports a handle. */
  lemma DeviceWitness(rest: string) returns (node: string, after: string)
    requires ParseDevice(rest).Some?
    ensures rest == node + after && |node| > 0 && AllNonSpace(node)
    ensures ParseDevice(rest) == ParseTail(after)
  {
    var n := SpanNonSpace(rest);
    node, after := rest[..n], rest[n..];
    assert rest == node + after;
    assert forall j :: 0 <= j < n ==> node[j] == rest[j];
  }

  /** A match of group 1 followed by a match of the rest is a match of the pattern. */
  lemma LineFromTail(line: string, node: string, after: string, gap: string, dev: string, name: string)
    requires line == DevPrefix + node + after
    requires |node| > 0 && AllNonSpace(node)
    requires IsAttachTail(after, gap, dev, name)
    ensures IsAttachLine(line, node, gap, dev, name)
  {
    assert line == DevPrefix + node + gap + dev + VolumesPrefix + name;
  }

  /** A line `ParseLine` accepts starts with `/dev/`, and the rest goes to `ParseDevice`. */
  lemma LineDevice(line: string) returns (rest: string)
    requires ParseLine(line).Some?
    ensures line == DevPrefix + rest
    ensures ParseLine(line) == ParseDevice(rest)
  {
    rest := line[|DevPrefix|..];
    assert line[..|DevPrefix|] == DevPrefix;
    assert line == line[..|DevPrefix|] + rest;
  }

  lemma NoNewlineSuffix(a: string, b: string)
    requires NoNewline(a + b)
    ensures NoNewline(b)
  {
    assert forall i :: 0 <= i < |b| ==> b[i] == (a + b)[|a| + i];
  }

  /** The parts of the match behind a handle `ParseLine` reports. */
  lemma LineWitness(line: string) returns (node: string, gap: string, name: string)
    requires NoNewline(line)
    requires ParseLine(line).Some?
    ensures IsAttachLine(line, node, gap, ParseLine(line).value.dev, name)
    ensures ParseLine(line).value.volume == VolumesPrefix + name
  {
    var rest := LineDevice(line);
    var after;
    node, after := DeviceWitness(rest);
    NoNewlineSuffix(DevPrefix, rest);
    NoNewlineSuffix(node, after);
    gap, name := TailSound(after);
    LineFromTail(line, node, after, gap, ParseTail(after).value.dev, name);
  }

  /** Every handle `ParseLine` reports comes from a match of the pattern. */
  lemma ParseLineSound(line: string)
    requires NoNewline(line)
    ensures ParseLine(line).Some? ==>
      exists node, gap, name ::
        IsAttachLine(line, node, gap, ParseLine(line).value.dev, name) && ParseLine(line).value.volume == VolumesPrefix + name
  {
    if ParseLine(line).Some? {
      var node, gap, name := LineWitness(line);
    }
  }

  lemma IndexOfAt(s: string, c: char, q: nat)
    requires q < |s| && s[q] == c
    requires forall j :: 0 <= j < q ==> s[j] != c
    ensures IndexOf(s, c) == q
  {
  }

  lemma SpanSpaceAtLeast(s: string, g: nat)
    requires g <= |s|
    requires forall j :: 0 <= j < g ==> IsSpace(s[j])
    ensures g <= SpanSpace(s)
  {
  }

  /** In a match of the part after group 1, the first `/` is the one that opens `/Volumes/`, and
      `\s+` can take at least the blanks of the match. */
  lemma TailPositions(after: string, gap: string, dev: string, name: string)
    requires IsAttachTail(after, gap, dev, name)
    ensures IndexOf(after, '/') == |gap| + |dev|
    ensures |gap| <= SpanSpace(after)
    ensures after[|gap| + |dev|..] == VolumesPrefix + name
    ensures after[|gap|..|gap| + |dev|] == dev
    ensures after[|gap|] == dev[0]
  {
    var q := |gap| + |dev|;
    assert after == gap + dev + (VolumesPrefix + name);
    assert forall i :: 0 <= i < |gap| ==> after[i] == gap[i];
    assert forall i :: |gap| <= i < q ==> after[i] == dev[i - |gap|];
    assert after[q] == VolumesPrefix[0];
    IndexOfAt(after, '/', q);
    SpanSpaceAtLeast(after, |gap|);
  }

  /** Where PCRE splits the blanks between `\s+` and group 2 in a match of the part after group 1:
      at `k`, no earlier than the match's own split, and exactly there when group 2 starts with a
      non-blank. */
  lemma TailChoice(after: string, gap: string, dev: string, name: string) returns (k: nat)
    requires IsAttachTail(after, gap, dev, name)
    ensures |gap| <= k < |gap| + |dev|
    ensures ParseTail(after) == Some(MountHandle(after[k..|gap| + |dev|], after[|gap| + |dev|..]))
    ensures !IsSpace(dev[0]) ==> k == |gap|
  {
    TailPositions(after, gap, dev, name);
    var w := SpanSpace(after);
    var p := |gap| + |dev|;
    k := if w < p then w else p - 1;
    StartsWithAppend(VolumesPrefix, name);
    if !IsSpace(dev[0]) {
      assert after[|gap|] == dev[0];
    }
  }

  lemma TailComplete(after: string, gap: string, dev: string, name: string)
    requires IsAttachTail(after, gap, dev, name)
    ensures ParseTail(after).Some?
    ensures ParseTail(after).value.volume == VolumesPrefix + name
    ensures |ParseTail(after).value.dev| <= |dev|
    ensures dev[|dev| - |ParseTail(after).value.dev|..] == ParseTail(after).value.dev
    ensures !IsSpace(dev[0]) ==> ParseTail(after).value.dev == dev
  {
    TailPositions(after, gap, dev, name);
    var k := TailChoice(after, gap, dev, name);
    SliceOfSlice(after, |gap|, k, |gap| + |dev|);
  }

  /** A match of the whole pattern leaves group 1 to `ParseDevice` and the rest to `ParseTail`. */
  lemma LineToTail(line: string, node: string, gap: string, dev: string, name: string)
    requires IsAttachLine(line, node, gap, dev, name)
    ensures IsAttachTail(gap + dev + VolumesPrefix + name, gap, dev, name)
    ensures ParseLine(line) == ParseTail(gap + dev + VolumesPrefix + name)
  {
    var after := gap + dev + VolumesPrefix + name;
    var rest := node + after;
    assert line == DevPrefix + rest;
    assert line[..|DevPrefix|] == DevPrefix && line[|DevPrefix|..] == rest;
    assert rest[|node|] == gap[0];
    assert forall i :: 0 <= i < |node| ==> rest[i] == node[i];
    assert SpanNonSpace(rest) == |node|;
    assert rest[|node|..] == after;
    assert ParseDevice(rest) == ParseTail(after);
  }

  /** Every match of the pattern is found, with the same mount point; the reported group 2 is a
      suffix of that match's group 2, and equals it when that group does not start with a blank. */
  lemma ParseLineComplete(line: string, node: string, gap: string, dev: string, name: string)
    requires IsAttachLine(line, node, gap, dev, name)
    ensures ParseLine(line).Some?
    ensures ParseLine(line).value.volume == VolumesPrefix + name
    ensures |ParseLine(line).value.dev| <= |dev|
    ensures dev[|dev| - |ParseLine(line).value.dev|..] == ParseLine(line).value.dev
    ensures !IsSpace(dev[0]) ==> ParseLine(line).value.dev == dev
  {
    LineToTail(line, node, gap, dev, name);
    TailComplete(gap + dev + VolumesPrefix + name, gap, dev, name);
  }

  /** `line` is the first line of `lines` that the pattern matches. */
  ghost predicate IsFirstAttachLine(lines: seq<string>, i: int)
  {
    && 0 <= i < |lines|
    && ParseLine(lines[i]).Some?
    && (forall j :: 0 <= j < i ==> ParseLine(lines[j]).None?)
  }

  /** The handle of the first line of output the pattern matches, or the error for none. */
  function MountLines(lines: seq<string>): Result<MountHandle>
  {
    if |lines| == 0 then Err(NoMountPoint)
    else if ParseLine(lines[0]).Some? then Ok(ParseLine(lines[0]).value)
    else MountLines(lines[1..])
  }

  /** With no matching line, and only then, the result is the error "Could not determine mount point!". */
  lemma {:induction false} MountLinesNone(lines: seq<string>)
    ensures MountLines(lines).Err? <==> forall j :: 0 <= j < |lines| ==> ParseLine(lines[j]).None?
    ensures MountLines(lines).Err? ==> MountLines(lines).error == NoMountPoint
  {
    if |lines| > 0 && ParseLine(lines[0]).None? {
      var tail := lines[1..];
      MountLinesNone(tail);
      assert forall j :: 1 <= j < |lines| ==> lines[j] == tail[j - 1];
    }
  }

  /** The first line that matches decides the handle. */
  lemma {:induction false} MountLinesFirst(lines: seq<string>, i: int)
    requires IsFirstAttachLine(lines, i)
    ensures MountLines(lines) == Ok(ParseLine(lines[i]).value)
  {
    if i > 0 {
      var tail := lines[1..];
      assert IsFirstAttachLine(tail, i - 1) by {
        assert tail[i - 1] == lines[i];
        forall j | 0 <= j < i - 1 ensures ParseLine(tail[j]).None? {
          assert tail[j] == lines[j + 1];
        }
      }
      MountLinesFirst(tail, i - 1);
    }
  }

  /** What `mount` computes from the attach command's outcome: a failed attach reports its error
      output, a successful one the first matching line of its standard output. */
  function MountResult(attach: ProcessResult): (r: Result<MountHandle>)
    ensures !attach.successful ==> r == Err(attach.stderr)
    ensures attach.successful ==> r == MountLines(Split(attach.stdout, '\n'))
    ensures attach.successful ==>
      (r.Err? <==> forall j :: 0 <= j < |Split(attach.stdout, '\n')| ==> ParseLine(Split(attach.stdout, '\n')[j]).None?)
    ensures attach.successful && r.Err? ==> r.error == NoMountPoint
  {
    if !attach.successful then Err(attach.stderr)
    else
      var lines := Split(attach.stdout, '\n');
      MountLinesNone(lines);
      MountLines(lines)
  }

  /** After a successful attach, the first line of its output that the pattern matches gives the handle. */
  lemma MountFirstMatch(attach: ProcessResult, i: int)
    requires attach.successful && IsFirstAttachLine(Split(attach.stdout, '\n'), i)
    ensures MountResult(attach) == Ok(ParseLine(Split(attach.stdout, '\n')[i]).value)
  {
    MountLinesFirst(Split(attach.stdout, '\n'), i);
  }

  /** `mount`: attach the image, then scan the output line by line and return the first match. */
  method Mount(attach: ProcessResult) returns (r: Result<MountHandle>)
    ensures r == MountResult(attach)
  {
    if !attach.successful {
      return Err(attach.stderr);
    }
    var lines := Split(attach.stdout, '\n');
    var k := 0;
    while k < |lines|
      invariant 0 <= k <= |lines|
      invariant MountLines(lines[k..]) == MountLines(lines)
    {
      assert lines[k..][0] == lines[k] && lines[k..][1..] == lines[k + 1..];
      var m := ParseLine(lines[k]);
      if m.Some? {
        return Ok(m.value);
      }
      k := k + 1;
    }
    return Err(NoMountPoint);
  }

  /** Lines after the first matching one do not change the handle. */
  lemma {:induction false} MountLinesAppend(lines: seq<string>, extra: seq<string>)
    requires MountLines(lines).Ok?
    ensures MountLines(lines + extra) == MountLines(lines)
  {
    assert (lines + extra)[0] == lines[0];
    if ParseLine(lines[0]).None? {
      MountLinesAppend(lines[1..], extra);
      assert (lines + extra)[1..] == lines[1..] + extra;
    }
  }

  /** Output after a line that already matched does not change what `mount` returns. */
  lemma LaterOutputIgnored(out: string, more: string, err: string)
    requires MountResult(ProcessResult(true, out, err)).Ok?
    ensures MountResult(ProcessResult(true, out + "\n" + more, err)) == MountResult(ProcessResult(true, out, err))
  {
    SplitAppend(out, more, '\n');
    MountLinesAppend(Split(out, '\n'), Split(more, '\n'));
  }

  /** A handle comes from some line of the scanned output. */
  lemma {:induction false} MountLinesSource(lines: seq<string>) returns (i: nat)
    requires MountLines(lines).Ok?
    ensures i < |lines| && ParseLine(lines[i]) == Some(MountLines(lines).value)
  {
    if ParseLine(lines[0]).Some? {
      i := 0;
    } else {
      var k := MountLinesSource(lines[1..]);
      i := k + 1;
      assert lines[1..][k] == lines[i];
    }
  }

  /** Every handle `mount` returns was read from one line of the attach command's output, and that
      line matches the pattern with the handle's `dev` as group 2 and its `volume` as group 3. */
  lemma MountedFromOutput(attach: ProcessResult) returns (line: string, node: string, gap: string, name: string)
    requires MountResult(attach).Ok?
    ensures attach.successful && line in Split(attach.stdout, '\n')
    ensures IsAttachLine(line, node, gap, MountResult(attach).value.dev, name)
    ensures MountResult(attach).value.volume == VolumesPrefix + name
  {
    var lines := Split(attach.stdout, '\n');
    var i := MountLinesSource(lines);
    line := lines[i];
    SplitSpec(attach.stdout, '\n');
    assert '\n' !in line;
    assert NoNewline(line);
    node, gap, name := LineWitness(line);
  }

  /** `hdiutil attach` separates device node, partition type and mount point by tabs, as in
      "/dev/disk4s1<TAB>Apple_HFS<TAB>/Volumes/Installer": on such a line the code's `dev` is the
      partition type with its trailing tab ("Apple_HFS<TAB>"), not the device node. */
  lemma TabSeparatedLine(node: string, kind: string, name: string)
    requires |node| > 0 && AllNonSpace(node)
    requires |kind| > 0 && NoSlash(kind) && !IsSpace(kind[0])
    requires NoNewline(name)
    ensures ParseLine(DevPrefix + node + "\t" + kind + "\t" + VolumesPrefix + name)
         == Some(MountHandle(kind + "\t", VolumesPrefix + name))
  {
    var line := DevPrefix + node + "\t" + kind + "\t" + VolumesPrefix + name;
    var dev := kind + "\t";
    assert line == DevPrefix + node + "\t" + dev + VolumesPrefix + name;
    assert AllSpace("\t");
    assert forall i :: 0 <= i < |dev| ==> dev[i] == if i < |kind| then kind[i] else '\t';
    assert IsAttachLine(line, node, "\t", dev, name);
    assert dev[0] == kind[0];
    ParseLineComplete(line, node, "\t", dev, name);
  }
}
