/**
 core/services/autoinstall_renderer.py: how the rendered installer config names the disk
 to wipe, and when rendering refuses. The template around the snippets is left out.
 */
module Autoinstall {
  import opened Prelude
  import opened Text
  import opened Numerals

  /** `premount` keeps only the script line that carries the serial. */
  datatype Snippets = Snippets(premount: string, directives: string, diskMatch: string)

  datatype Target = BySerial(serial: string) | ByPath(path: string)

  /** `nvme\d+n\d+` */
  predicate IsNvmeHandle(s: string) {
    exists k | 4 < k < |s| - 1 ::
      s[..4] == "nvme" && s[k] == 'n' && AllDigits(s[4..k]) && AllDigits(s[k + 1..])
  }

  predicate IsLetter(c: char) {
    'a' <= c <= 'z'
  }

  /** A genuine Linux block-device name. */
  predicate IsHandle(s: string) {
    || IsNvmeHandle(s)
    || (|s| > 2 && (s[..2] == "sd" || s[..2] == "vd") && forall i | 2 <= i < |s| :: IsLetter(s[i]))
  }

  predicate IsUbuntu(family: string) {
    Lower(family) == "ubuntu" || Lower(family) == "debian"
  }

  function DeviceLines(bare: string): string {
    "ignoredisk --only-use=" + bare + "\n" +
    "clearpart --drives=" + bare + " --all --initlabel\n" +
    "bootloader --boot-drive=" + bare + " --location=mbr"
  }

  function SerialLine(serial: string): string {
    "TARGET_SERIAL='" + serial + "'"
  }

  function DiskSnippets(family: string, device0: string, serial0: string): Result<Snippets> {
    var device, serial := Strip(device0), Strip(serial0);
    var isAbs := StartsWith(device, "/dev/");
    var bare := if isAbs then device[5..] else device;
    if serial == "" && !(isAbs || IsHandle(device)) then Err("cannot target a disk safely")
    else if IsUbuntu(family) then
      var path := if isAbs then device else "/dev/" + device;
      Ok(Snippets("", "", if serial != "" then "serial: " + serial else "path: " + path))
    else if serial != "" then Ok(Snippets(SerialLine(serial), "%include /tmp/clusterone-disk.ks", ""))
    else Ok(Snippets("", DeviceLines(bare), ""))
  }

  const FAMILIES := ["rocky", "rhel", "alma", "ubuntu", "debian"]

  /** The disk part of `render` with the bundled template of the family. */
  function Render(family: string, disk: string, serial: string): Result<Snippets> {
    if Lower(family) !in FAMILIES then Err("No bundled autoinstall template")
    else DiskSnippets(family, disk, serial)
  }

  /** The kickstart directives that install on one device and touch no other. */
  function OnlyUse(device: string): string {
    "ignoredisk --only-use=" + device + "\nclearpart --drives=" + device + " --all --initlabel\n"
    + "bootloader --boot-drive=" + device + " --location=mbr"
  }

  /** In the form the family's installer reads, the snippets name `target`. */
  predicate Aims(family: string, s: Snippets, target: Target) {
    if Lower(family) in ["ubuntu", "debian"] then
      s == Snippets("", "", match target case BySerial(n) => "serial: " + n case ByPath(p) => "path: " + p)
    else
      match target
      case BySerial(n) => s == Snippets("TARGET_SERIAL='" + n + "'", "%include /tmp/clusterone-disk.ks", "")
      case ByPath(p) => StartsWith(p, "/dev/") && s == Snippets("", OnlyUse(p[5..]), "")
  }

  lemma LinesAreOnlyUse(bare: string)
    ensures DeviceLines(bare) == OnlyUse(bare)
  {
  }

  /** What a Linux block device is called: a namespace of an NVMe drive, or a SCSI or virtual disk. */
  predicate IsDeviceName(s: string) {
    || (StartsWith(s, "nvme") && exists k | 4 < k < |s| - 1 ::
          s[k] == 'n' && (forall i | 4 <= i < k :: '0' <= s[i] <= '9')
          && forall i | k < i < |s| :: '0' <= s[i] <= '9')
    || ((StartsWith(s, "sd") || StartsWith(s, "vd")) && |s| > 2 && forall i | 2 <= i < |s| :: 'a' <= s[i] <= 'z')
  }

  lemma HandleIff(s: string)
    ensures IsHandle(s) <==> IsDeviceName(s)
  {
    NvmeIff(s);
    assert |s| > 2 ==> (s[..2] == "sd" <==> "sd" <= s) && (s[..2] == "vd" <==> "vd" <= s);
  }

  lemma NvmeIff(s: string)
    ensures IsNvmeHandle(s) <==>
              StartsWith(s, "nvme") && exists k | 4 < k < |s| - 1 ::
                s[k] == 'n' && (forall i | 4 <= i < k :: '0' <= s[i] <= '9')
                && forall i | k < i < |s| :: '0' <= s[i] <= '9'
  {
    assert |s| >= 4 ==> (s[..4] == "nvme" <==> "nvme" <= s);
    forall k | 4 < k < |s| - 1
      ensures AllDigits(s[4..k]) <==> forall i | 4 <= i < k :: '0' <= s[i] <= '9'
      ensures AllDigits(s[k + 1..]) <==> forall i | k < i < |s| :: '0' <= s[i] <= '9'
    {
      DigitsBetween(s, 4, k);
      DigitsBetween(s, k + 1, |s|);
      assert s[k + 1..|s|] == s[k + 1..];
    }
  }

  lemma DigitsBetween(s: string, a: nat, b: nat)
    requires a <= b <= |s|
    ensures AllDigits(s[a..b]) <==> forall i | a <= i < b :: '0' <= s[i] <= '9'
  {
    forall i | a <= i < b
      ensures s[i] == s[a..b][i - a]
    {
    }
    if forall i | a <= i < b :: '0' <= s[i] <= '9' {
      assert forall j | 0 <= j < b - a :: s[a..b][j] == s[a + j];
    }
  }

  /** No config names two targets, so what it aims at is settled by its text. */
  lemma OneTarget(family: string, s: Snippets, a: Target, b: Target)
    requires Aims(family, s, a) && Aims(family, s, b)
    ensures a == b
  {
    if IsUbuntu(family) {
      assert s.diskMatch[0] == if a.BySerial? then 's' else 'p';
      assert s.diskMatch[0] == if b.BySerial? then 's' else 'p';
      var n := if a.BySerial? then |"serial: "| else |"path: "|;
      assert s.diskMatch[n..] == if a.BySerial? then a.serial else a.path;
      assert s.diskMatch[n..] == if b.BySerial? then b.serial else b.path;
    } else if a.BySerial? {
      var n := |"TARGET_SERIAL='"|;
      assert s.premount[n..|s.premount| - 1] == a.serial;
      assert s.premount[n..|s.premount| - 1] == b.serial;
    } else {
      LinesAreOnlyUse(a.path[5..]);
      LinesAreOnlyUse(b.path[5..]);
      SameDevice(a.path[5..], b.path[5..]);
      assert a.path == "/dev/" + a.path[5..] && b.path == "/dev/" + b.path[5..];
    }
  }

  lemma SameDevice(a: string, b: string)
    requires DeviceLines(a) == DeviceLines(b)
    ensures a == b
  {
    var n := |"ignoredisk --only-use="|;
    assert |DeviceLines(a)| - 3 * |a| == |DeviceLines(b)| - 3 * |b|;
    assert DeviceLines(a)[n..n + |a|] == a;
    assert DeviceLines(b)[n..n + |b|] == b;
  }

  /** The disk to use: the serial when one is known, else the device under `/dev/`. */
  function TargetOf(device: string, serial: string): Target {
    if Strip(serial) != "" then BySerial(Strip(serial))
    else if StartsWith(Strip(device), "/dev/") then ByPath(Strip(device))
    else ByPath("/dev/" + Strip(device))
  }

  /**
   Rendering for a known family refuses exactly when no serial is known and the name is
   neither a Linux handle nor a `/dev/` path; otherwise the config aims at that target.
   */
  lemma RenderAimsOrRefuses(family: string, device: string, serial: string)
    ensures Render(family, device, serial).Ok? <==>
              && Lower(family) in ["rocky", "rhel", "alma", "ubuntu", "debian"]
              && (Strip(serial) != "" || IsDeviceName(Strip(device)) || StartsWith(Strip(device), "/dev/"))
    ensures Render(family, device, serial).Ok? ==>
              Aims(family, Render(family, device, serial).value, TargetOf(device, serial))
  {
    var d := Strip(device);
    HandleIff(d);
    assert IsUbuntu(family) <==> Lower(family) in ["ubuntu", "debian"];
    LinesAreOnlyUse(if StartsWith(d, "/dev/") then d[5..] else d);
    if !StartsWith(d, "/dev/") {
      assert ("/dev/" + d)[5..] == d;
    }
  }

  // ---- the script on the host ---------------------------------------------

  /** One name the script's patterns expand to: whether it is a block device, and `lsblk`'s serial of it. */
  datatype Device = Device(path: string, isBlock: bool, serial: string)

  predicate Carries(d: Device, serial: string) {
    d.isBlock && d.serial == serial
  }

  /** The text up to the first single quote. */
  function UpToQuote(s: string): string {
    if '\'' in s then SplitOnce(s, '\'').0 else s
  }

  /** The word between the quotes of the script's assignment, as the shell reads it: no escapes. */
  function ShellSerial(line: string): string {
    var head := "TARGET_SERIAL='";
    if StartsWith(line, head) then UpToQuote(line[|head|..]) else ""
  }

  /** The shell reads back the serial the line was written for exactly when it holds no quote. */
  lemma SerialReadsBackIff(serial: string)
    ensures ShellSerial(SerialLine(serial)) == serial <==> '\'' !in serial
  {
    var head := "TARGET_SERIAL='";
    var rest := serial + "'";
    assert SerialLine(serial) == head + rest && SerialLine(serial)[|head|..] == rest;
    if '\'' !in serial {
      assert rest == serial + ['\''] + "";
      SplitOnceAt(serial, '\'', "");
    } else {
      assert '\'' !in UpToQuote(rest);
    }
  }

  /**
   The script a serial-aimed kickstart runs before installing: it writes the disk lines for
   the first block device that carries the serial the shell reads from `line`, and stops the
   installation when none does.
   */
  method SearchBySerial(line: string, devices: seq<Device>) returns (lines: Option<string>)
    ensures lines.None? <==> forall d | d in devices :: !Carries(d, ShellSerial(line))
    ensures lines.Some? ==> exists i ::
              && 0 <= i < |devices| && Carries(devices[i], ShellSerial(line))
              && (forall j | 0 <= j < i :: !Carries(devices[j], ShellSerial(line)))
              && lines.value == OnlyUse(if "/dev/" <= devices[i].path then devices[i].path[5..] else devices[i].path)
  {
    var serial := ShellSerial(line);
    for i := 0 to |devices|
      invariant forall j | 0 <= j < i :: !Carries(devices[j], serial)
    {
      if devices[i].isBlock {
        if devices[i].serial == serial {
          LinesAreOnlyUse(Bare(devices[i].path));
          assert devices[i] in devices && Carries(devices[i], serial);
          return Some(DeviceLines(Bare(devices[i].path)));
        }
      }
    }
    return None;
  }

  /** `${d#/dev/}` */
  function Bare(path: string): string {
    if StartsWith(path, "/dev/") then path[5..] else path
  }
}
