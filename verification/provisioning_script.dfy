/** The per-node paths and the `virt-install.sh` script of
    bin/mk-node-defs.py: the VM image directory under
    `/var/lib/libvirt/images`, the disk and seed ISO paths in it, the
    backing image path, and the script that builds the seed ISO and runs
    `virt-install`. */
module ProvisioningScript {
  import opened Text
  import opened Results
  import opened Template

  /** Python's `os.path.isabs` on POSIX: the path starts with a slash. */
  predicate IsAbsolute(p: string) {
    |p| > 0 && p[0] == '/'
  }

  /** Python's `os.path.join(a, b)` on POSIX: an absolute `b` replaces
      `a`; otherwise a slash goes between them unless `a` is empty or
      already ends with one. */
  function PathJoin(a: string, b: string): string {
    if IsAbsolute(b) then b
    else if a == [] || a[|a| - 1] == '/' then a + b
    else a + "/" + b
  }

  /** A relative file joined onto a directory that was itself joined from
      a relative name not ending in a slash goes right under it, behind a
      single slash. */
  lemma PathJoinUnder(dir: string, name: string, file: string)
    requires |name| > 0 && !IsAbsolute(name) && name[|name| - 1] != '/'
    requires !IsAbsolute(file)
    ensures PathJoin(PathJoin(dir, name), file) == PathJoin(dir, name) + "/" + file
  {
    var d := PathJoin(dir, name);
    assert d[|d| - 1] == name[|name| - 1];
  }

  /** Where libvirt keeps the node disks. */
  const ImageRoot := "/var/lib/libvirt/images"

  function VmImageDir(nodeName: string): string {
    PathJoin(ImageRoot, nodeName)
  }

  function DiskPath(nodeName: string): string {
    PathJoin(VmImageDir(nodeName), nodeName + ".qcow2")
  }

  function IsoPath(nodeName: string): string {
    PathJoin(VmImageDir(nodeName), "seed-" + nodeName + ".iso")
  }

  /** The backing image before `os.path.abspath`: an absolute image path
      as given, a relative one inside the image directory. */
  function BackingImage(ubuntuImage: string, imageDir: string): string {
    if IsAbsolute(ubuntuImage) then ubuntuImage else PathJoin(imageDir, ubuntuImage)
  }

  /** A joined path ends with its second part, starts with its first part
      when the second is relative, and is absolute exactly when one of the
      parts is. */
  lemma PathJoinParts(a: string, b: string)
    ensures EndsWith(PathJoin(a, b), b)
    ensures !IsAbsolute(b) ==> a <= PathJoin(a, b)
    ensures IsAbsolute(PathJoin(a, b)) <==> IsAbsolute(a) || IsAbsolute(b)
  {
    var r := PathJoin(a, b);
    if !IsAbsolute(b) && a != [] {
      assert r[0] == a[0];
    }
    assert r[|r| - |b|..] == b;
  }

  /** The backing image names the image file, lies under the image
      directory when the file name is relative, and is absolute exactly
      when the file name or the directory is. */
  lemma BackingImageOf(ubuntuImage: string, imageDir: string)
    ensures EndsWith(BackingImage(ubuntuImage, imageDir), ubuntuImage)
    ensures !IsAbsolute(ubuntuImage) ==> imageDir <= BackingImage(ubuntuImage, imageDir)
    ensures IsAbsolute(BackingImage(ubuntuImage, imageDir)) <==> IsAbsolute(ubuntuImage) || IsAbsolute(imageDir)
  {
    var r := BackingImage(ubuntuImage, imageDir);
    if IsAbsolute(ubuntuImage) {
      assert r[|r| - |ubuntuImage|..] == ubuntuImage;
    } else {
      PathJoinParts(imageDir, ubuntuImage);
    }
  }

  lemma ImageRootShape()
    ensures ImageRoot != [] && ImageRoot[|ImageRoot| - 1] != '/'
  {
  }

  /** The image root holds no `"`, so a node's image directory holds one
      only if the node name does. */
  lemma ImageDirNoQuote(nodeName: string)
    requires '"' !in nodeName
    ensures '"' !in ImageRoot + "/" + nodeName
  {
    assert '"' !in ImageRoot;
  }

  /** A relative node name gets its own directory right under the image
      root, and the disk and seed ISO paths sit directly in it (the name
      must not end in a slash, or the slash before the file name would be
      the name's own). */
  lemma NodePaths(nodeName: string)
    requires !IsAbsolute(nodeName) && |nodeName| > 0 && nodeName[|nodeName| - 1] != '/'
    ensures VmImageDir(nodeName) == ImageRoot + "/" + nodeName
    ensures DiskPath(nodeName) == VmImageDir(nodeName) + "/" + nodeName + ".qcow2"
    ensures IsoPath(nodeName) == VmImageDir(nodeName) + "/" + "seed-" + nodeName + ".iso"
  {
    ImageRootShape();
    var d := VmImageDir(nodeName);
    assert d[|d| - 1] == nodeName[|nodeName| - 1];
    assert !IsAbsolute(nodeName + ".qcow2") && !IsAbsolute("seed-" + nodeName + ".iso");
  }

  /** The values `main` substitutes into the script. */
  datatype ScriptConfig = ScriptConfig(
    vmImageDir: string,
    nodeName: string,
    memory: int,
    cpus: int,
    diskSize: int,
    backingImage: string)

  const NameKey := "virt-install --name "
  const MemoryKey := "  --memory "
  const CpusKey := " --vcpus "
  const SizeKey := ",size="
  const BackingKey := ",backing_store=\""
  const VmImageDirKey := "VM_IMAGE_DIR=\""

  /** The start of the script, up to the `VM_IMAGE_DIR` assignment. */
  const ScriptHead :=
    "#!/bin/bash\n"
      + "# Determine absolute path of this script's directory (node config directory)\n"
      + "CONFIG_DIR=\"$(readlink -f \"$(dirname \"$0\")\")\"\n"
      + "# Define paths for cloud-init files (assumed to be in the config directory)\n"
      + "USER_DATA=\"$CONFIG_DIR/user-data\"\n"
      + "META_DATA=\"$CONFIG_DIR/meta-data\"\n"
      + "\n"
      + "# Define VM image directory and file paths\n"

  /** The rest of the `ISO_PATH` line after its dot, the seed ISO steps,
      and the start of the `virt-install` command. */
  const IsoSection :=
    "iso\"\n"
      + "\n"
      + "# Create VM image directory if it doesn't exist\n"
      + "if [ ! -d \"${VM_IMAGE_DIR}\" ]; then\n"
      + "    mkdir -p \"${VM_IMAGE_DIR}\"\n"
      + "fi\n"
      + "\n"
      + "# If the seed ISO doesn't exist, generate it using genisoimage\n"
      + "if [ ! -f \"${ISO_PATH}\" ]; then\n"
      + "    echo \"Generating seed ISO at ${ISO_PATH}...\"\n"
      + "    if ! command -v genisoimage >/dev/null 2>&1; then\n"
      + "        echo \"Error: genisoimage is not installed. Please install it with: sudo apt install genisoimage\" >&2\n"
      + "        exit 1\n"
      + "    fi\n"
      + "    genisoimage -output \"${ISO_PATH}\" -volid cidata -joliet -rock \"$USER_DATA\" \"$META_DATA\"\n"
      + "fi\n"
      + "\n"
      + "# Run virt-install with the desired parameters\n"

  /** The end of the script after the backing image's closing quote. */
  const ScriptTail :=
    " \\\n"
      + "  --disk path=\"${ISO_PATH}\",device=cdrom \\\n"
      + "  --os-variant ubuntu24.04 --import \\\n"
      + "  --network bridge=br0,model=virtio --graphics none\n"

  /** The literal text of the `virt-install.sh` template between the places
      where the image directory, the node name (three times), the memory,
      the vCPU count, the disk size and the backing image go, around the
      script's three long literal passages. Python's `{{`, `}}` and `\\`
      in the template are written here as the `{`, `}` and `\` they
      produce. */
  function ScriptPiecesOf(head: string, iso: string, tail: string): seq<string> {
    [ head + VmImageDirKey,
      "\"" + "\nDISK_PATH=\"${VM_IMAGE_DIR}/",
      "." + "qcow2\"\nISO_PATH=\"${VM_IMAGE_DIR}/seed-",
      "." + iso + NameKey,
      " " + "\\\n" + MemoryKey,
      CpusKey,
      " " + "\\\n  --disk path=\"${DISK_PATH}\"" + SizeKey,
      BackingKey,
      "\"" + tail ]
  }

  const ScriptPieces: seq<string> := ScriptPiecesOf(ScriptHead, IsoSection, ScriptTail)

  /** The substituted values in template order; the numbers are written
      as Python's `str` writes an `int`. */
  function ScriptValues(s: ScriptConfig): (r: seq<string>)
    ensures |r| == 8
  {
    [s.vmImageDir, s.nodeName, s.nodeName, s.nodeName,
     IntText(s.memory), IntText(s.cpus), IntText(s.diskSize), s.backingImage]
  }

  /** The text of `virt-install.sh`. */
  function Script(s: ScriptConfig): string {
    Fill(ScriptPieces, ScriptValues(s))
  }

  // ------------------------------------------------------------- reading

  /** The integer a Python `str(int)` text denotes: an optional minus sign
      and canonical decimal digits, with no `-0`. */
  function ReadInt(t: string): Option<int> {
    if |t| > 0 && t[0] == '-' then
      if IsCanonical(t[1..]) && t[1..] != "0" then Some(-(DigitsValue(t[1..]) as int)) else None
    else if IsCanonical(t) then Some(DigitsValue(t) as int)
    else None
  }

  /** `ReadInt` accepts exactly the texts `IntText` writes. */
  lemma ReadIntIff(t: string, i: int)
    ensures ReadInt(t) == Some(i) <==> t == IntText(i)
  {
    assert DigitsValue("0") == 0;
    if ReadInt(t) == Some(i) {
      if t[0] == '-' {
        var s := t[1..];
        NatTextOfDigits(s);
        assert t == "-" + s;
      } else {
        NatTextOfDigits(t);
      }
    }
    if t == IntText(i) && i < 0 {
      assert t[1..] == NatText(-i);
    }
  }

  /** The script values a text was rendered from, if any: the node name
      must be the same all three times. */
  function ConfigOf(vs: seq<string>): Option<ScriptConfig> {
    if |vs| == 8 && vs[1] == vs[2] == vs[3] then
      match (ReadInt(vs[4]), ReadInt(vs[5]), ReadInt(vs[6]))
      case (Some(m), Some(c), Some(d)) => Some(ScriptConfig(vs[0], vs[1], m, c, d, vs[7]))
      case _ => None
    else None
  }

  /** The script values of a text rendered from the template `ps`. */
  function ReadWith(ps: seq<string>, text: string): Option<ScriptConfig>
    requires |ps| > 0
  {
    var vs :- Read(ps, text);
    ConfigOf(vs)
  }

  function ReadScript(text: string): Option<ScriptConfig> {
    ReadWith(ScriptPieces, text)
  }

  /** `ConfigOf` inverts `ScriptValues`. */
  lemma ConfigOfIff(vs: seq<string>, s: ScriptConfig)
    ensures ConfigOf(vs) == Some(s) <==> vs == ScriptValues(s)
  {
    if |vs| == 8 {
      ReadIntIff(vs[4], s.memory);
      ReadIntIff(vs[5], s.cpus);
      ReadIntIff(vs[6], s.diskSize);
    }
  }

  /** Values that can be told apart in a rendered script: the image
      directory and backing image hold no `"`, and the node name no `.`
      and no space. */
  predicate Readable(s: ScriptConfig) {
    && '"' !in s.vmImageDir && '.' !in s.nodeName && ' ' !in s.nodeName
    && '"' !in s.backingImage
  }

  /** `p` ends with `key`. */
  ghost predicate KeyEnds(p: string, key: string) {
    exists pre :: p == pre + key
  }

  /** The shape of the template the reader and the containment facts rely
      on: nine pieces, the character each piece after the first starts
      with, and the flag or assignment each piece ends with. */
  ghost predicate ScriptShape(ps: seq<string>) {
    && |ps| == 9
    && |ps[1]| > 0 && ps[1][0] == '"'
    && |ps[2]| > 0 && ps[2][0] == '.'
    && |ps[3]| > 0 && ps[3][0] == '.'
    && |ps[4]| > 0 && ps[4][0] == ' '
    && |ps[5]| > 0 && ps[5][0] == ' '
    && |ps[6]| > 0 && ps[6][0] == ' '
    && |ps[7]| > 0 && ps[7][0] == ','
    && |ps[8]| > 0 && ps[8][0] == '"'
    && KeyEnds(ps[0], VmImageDirKey) && KeyEnds(ps[3], NameKey)
    && KeyEnds(ps[4], MemoryKey) && ps[5] == CpusKey
    && KeyEnds(ps[6], SizeKey) && ps[7] == BackingKey
  }

  /** The template has that shape whatever its long passages say. */
  lemma ScriptPiecesOfShape(head: string, iso: string, tail: string)
    ensures ScriptShape(ScriptPiecesOf(head, iso, tail))
  {
    var ps := ScriptPiecesOf(head, iso, tail);
    assert ps[0] == head + VmImageDirKey;
    assert ps[3] == ("." + iso) + NameKey;
  }

  lemma ScriptPiecesShape()
    ensures ScriptShape(ScriptPieces)
  {
    ScriptPiecesOfShape(ScriptHead, IsoSection, ScriptTail);
  }

  /** In a template of that shape, the values are delimited exactly when
      they are readable. */
  lemma DelimitedIffReadable(ps: seq<string>, s: ScriptConfig)
    requires ScriptShape(ps)
    ensures Delimited(ps, ScriptValues(s)) <==> Readable(s)
  {
    IntTextNoChar(s.memory, ' ');
    IntTextNoChar(s.cpus, ' ');
    IntTextNoChar(s.diskSize, ',');
    var vs := ScriptValues(s);
    if Delimited(ps, vs) {
      assert ps[1][0] !in vs[0] && ps[2][0] !in vs[1] && ps[4][0] !in vs[3];
      assert ps[8][0] !in vs[7];
    }
  }

  /** In a template of that shape, a text reads as script values exactly
      when it is the rendering of those readable values. */
  lemma ReadWithIff(ps: seq<string>, text: string, s: ScriptConfig)
    requires ScriptShape(ps)
    ensures ReadWith(ps, text) == Some(s) <==> Readable(s) && text == Fill(ps, ScriptValues(s))
  {
    var vs := ScriptValues(s);
    DelimitedIffReadable(ps, s);
    ReadIff(ps, vs, text);
    ConfigOfIff(vs, s);
    if ReadWith(ps, text) == Some(s) {
      ConfigOfIff(Read(ps, text).value, s);
    }
  }

  /** A text reads as script values exactly when it is the script of those
      readable values. */
  lemma ReadScriptIff(text: string, s: ScriptConfig)
    ensures ReadScript(text) == Some(s) <==> Readable(s) && text == Script(s)
  {
    ScriptPiecesShape();
    ReadWithIff(ScriptPieces, text, s);
  }

  /** In a template of that shape, each value appears verbatim behind its
      flag or assignment. */
  lemma FillContainsFlags(ps: seq<string>, s: ScriptConfig)
    requires ScriptShape(ps)
    ensures Contains(Fill(ps, ScriptValues(s)), VmImageDirKey + s.vmImageDir + "\"")
    ensures Contains(Fill(ps, ScriptValues(s)), NameKey + s.nodeName + " ")
    ensures Contains(Fill(ps, ScriptValues(s)), MemoryKey + IntText(s.memory) + CpusKey + IntText(s.cpus))
    ensures Contains(Fill(ps, ScriptValues(s)), SizeKey + IntText(s.diskSize) + ",")
    ensures Contains(Fill(ps, ScriptValues(s)), BackingKey + s.backingImage + "\"")
  {
    var vs := ScriptValues(s);
    var pre0 :| ps[0] == pre0 + VmImageDirKey;
    FillContainsField(ps, vs, 0, pre0, VmImageDirKey, '"');
    var pre3 :| ps[3] == pre3 + NameKey;
    FillContainsField(ps, vs, 3, pre3, NameKey, ' ');
    var pre4 :| ps[4] == pre4 + MemoryKey;
    FillContainsPair(ps, vs, 4, pre4, MemoryKey);
    var pre6 :| ps[6] == pre6 + SizeKey;
    FillContainsField(ps, vs, 6, pre6, SizeKey, ',');
    assert ps[7] == [] + BackingKey;
    FillContainsField(ps, vs, 7, [], BackingKey, '"');
  }

  /** The image directory, node name, memory, vCPU count, disk size and
      backing image appear verbatim behind their flags in the script, with
      no quoting or escaping. */
  lemma ScriptContains(s: ScriptConfig)
    ensures Contains(Script(s), VmImageDirKey + s.vmImageDir + "\"")
    ensures Contains(Script(s), NameKey + s.nodeName + " ")
    ensures Contains(Script(s), MemoryKey + IntText(s.memory) + CpusKey + IntText(s.cpus))
    ensures Contains(Script(s), SizeKey + IntText(s.diskSize) + ",")
    ensures Contains(Script(s), BackingKey + s.backingImage + "\"")
  {
    ScriptPiecesShape();
    FillContainsFlags(ScriptPieces, s);
  }

  /** The shell's `DISK_PATH` and `ISO_PATH`, with `${VM_IMAGE_DIR}`
      expanded, are the disk and ISO paths `main` derives for the node. */
  lemma ShellPathsAgree(nodeName: string)
    requires !IsAbsolute(nodeName) && |nodeName| > 0 && nodeName[|nodeName| - 1] != '/'
    ensures VmImageDir(nodeName) + "/" + nodeName + ".qcow2" == DiskPath(nodeName)
    ensures VmImageDir(nodeName) + "/seed-" + nodeName + ".iso" == IsoPath(nodeName)
  {
    NodePaths(nodeName);
  }
}
