/** The pure logic of `main` in bin/mk-node-defs.py: the options are read
    once (memory, disk size, IP pattern, nameservers, backing image), then
    one node is produced per number in `range(node_base, node_base + nodes)`
    with its name, address, cloud-init texts, paths and `virt-install.sh`.
    Writing the files, `chmod` and the progress messages are not modelled;
    `os.path.abspath` is a parameter, since it depends on the working
    directory. */
module Generator {
  import opened Text
  import opened Results
  import opened Ipv4
  import opened Allocation
  import SizeParser
  import Nameservers
  import CloudInit
  import ProvisioningScript

  /** The options `main` reads, the root password already given. */
  datatype Request = Request(
    cpu: int,
    memory: string,
    diskSize: string,
    ipPattern: string,
    router: string,
    nodes: int,
    nodeBase: int,
    ubuntuImage: string,
    imageDir: string,
    rootPassword: string,
    nameservers: string,
    outputDir: string)

  /** Why `main` stops: an unreadable memory or disk size, a bad IP
      pattern, or a node address outside IPv4. */
  datatype Error =
    | MemoryError(memoryError: SizeParser.SizeError)
    | DiskError(diskError: SizeParser.SizeError)
    | BadPattern(patternError: PatternError)
    | AddressOutOfRange(nodeName: string, address: int)

  /** What `main` derives once, before the node loop. */
  datatype Settings = Settings(
    memory: int,
    diskSize: int,
    iface: Interface,
    direction: Direction,
    nameservers: string,
    backingImage: string)

  /** What `main` derives for one node: its name and address, the values
      it substitutes into the cloud-init and script templates, and its
      paths. The texts themselves are rendered by `Files`. */
  datatype Node = Node(
    nodeName: string,
    ip: string,
    cloudInit: CloudInit.NodeConfig,
    scriptConfig: ProvisioningScript.ScriptConfig,
    configDir: string,
    userDataFile: string,
    metaDataFile: string,
    scriptFile: string,
    vmImageDir: string,
    diskPath: string,
    isoPath: string)

  /** The settings, checked in the source's order: memory, disk size, the
      pattern's direction, then its CIDR part. */
  function Prepare(req: Request, absPath: string -> string): Result<Settings, Error> {
    var memory :- SizeParser.ParseMemory(req.memory).MapError(e => MemoryError(e));
    var disk :- SizeParser.ParseDiskSize(req.diskSize).MapError(e => DiskError(e));
    var pattern :- ParsePattern(req.ipPattern).MapError(e => BadPattern(e));
    var backing := ProvisioningScript.BackingImage(req.ubuntuImage, req.imageDir);
    Ok(Settings(memory, disk, pattern.0, pattern.1, Nameservers.Normalize(req.nameservers), absPath(backing)))
  }

  /** `f"node{i}"`. */
  function NodeName(i: int): string {
    "node" + IntText(i)
  }

  /** The node `offset` places into the loop. */
  function BuildNode(req: Request, st: Settings, offset: nat): Result<Node, Error> {
    var name := NodeName(req.nodeBase + offset);
    var address := NodeAddress(st.iface.address, st.direction, offset);
    match AddressText(address)
    case None => Err(AddressOutOfRange(name, address))
    case Some(ip) =>
      var configDir := ProvisioningScript.PathJoin(req.outputDir, name);
      var vmImageDir := ProvisioningScript.VmImageDir(name);
      Ok(Node(
        name, ip,
        CloudInit.NodeConfig(name, ip, st.iface.prefix, req.router, req.rootPassword, st.nameservers),
        ProvisioningScript.ScriptConfig(vmImageDir, name, st.memory, req.cpu, st.diskSize, st.backingImage),
        configDir,
        ProvisioningScript.PathJoin(configDir, "user-data"),
        ProvisioningScript.PathJoin(configDir, "meta-data"),
        ProvisioningScript.PathJoin(configDir, "virt-install.sh"),
        vmImageDir, ProvisioningScript.DiskPath(name), ProvisioningScript.IsoPath(name)))
  }

  function UserDataText(n: Node): string {
    CloudInit.UserData(n.cloudInit)
  }

  function MetaDataText(n: Node): string {
    CloudInit.MetaData(n.nodeName)
  }

  function ScriptText(n: Node): string {
    ProvisioningScript.Script(n.scriptConfig)
  }

  /** The files written for a node, as (path, text) pairs in the order
      `main` writes them. */
  function Files(n: Node): seq<(string, string)> {
    [ (n.userDataFile, UserDataText(n)),
      (n.metaDataFile, MetaDataText(n)),
      (n.scriptFile, ScriptText(n)) ]
  }

  /** The first `count` nodes in loop order, or the error of the first
      node that fails. */
  function BuildNodes(req: Request, st: Settings, count: nat): Result<seq<Node>, Error> {
    Collect(NodeStep(req, st), count)
  }

  /** The loop body, as a function of the offset. */
  function NodeStep(req: Request, st: Settings): nat -> Result<Node, Error> {
    (k: nat) => BuildNode(req, st, k)
  }

  /** The length of `range(node_base, node_base + nodes)`. */
  function NodeCount(req: Request): nat {
    if req.nodes > 0 then req.nodes else 0
  }

  /** `main` without its I/O: every node's output, or the error it stops
      with. */
  function Generate(req: Request, absPath: string -> string): Result<seq<Node>, Error> {
    var st :- Prepare(req, absPath);
    BuildNodes(req, st, NodeCount(req))
  }

  // --------------------------------------------------------- the node loop

  /** The settings are derived exactly when both sizes have a reading and
      the pattern is an interface's text followed by a direction character.
      They then hold those readings, that interface and direction, the
      option's nameserver entries joined by `", "`, and the absolute
      backing image. */
  lemma PrepareOk(req: Request, absPath: string -> string)
    ensures Prepare(req, absPath).Ok? <==>
      && (exists r :: SizeParser.IsReading(SizeParser.Memory, req.memory, r))
      && (exists r :: SizeParser.IsReading(SizeParser.Disk, req.diskSize, r))
      && PatternSpells(req.ipPattern)
    ensures Prepare(req, absPath).Ok? ==>
      var st := Prepare(req, absPath).value;
      var p := req.ipPattern;
      && SizeParser.IsReading(SizeParser.Memory, req.memory, st.memory)
      && SizeParser.IsReading(SizeParser.Disk, req.diskSize, st.diskSize)
      && |p| > 0 && p[|p| - 1] == DirectionChar(st.direction)
      && SpellsInterface(p[..|p| - 1], st.iface)
      && Nameservers.Entries(st.nameservers) == Nameservers.Entries(req.nameservers)
      && |Nameservers.Entries(req.nameservers)| > 0
      && Split(st.nameservers, ',') == Nameservers.Pad(Nameservers.Entries(req.nameservers))
      && st.nameservers == Join(Nameservers.Pad(Nameservers.Entries(req.nameservers)), ",")
      && st.backingImage == absPath(ProvisioningScript.BackingImage(req.ubuntuImage, req.imageDir))
  {
    var pat := ParsePattern(req.ipPattern);
    SizeParser.ParseOkIffReading(SizeParser.Memory, req.memory);
    SizeParser.ParseOkIffReading(SizeParser.Disk, req.diskSize);
    ParsePatternOkIff(req.ipPattern);
    if Prepare(req, absPath).Ok? {
      var st := Prepare(req, absPath).value;
      assert st.memory == SizeParser.Parse(SizeParser.Memory, req.memory).value;
      assert st.diskSize == SizeParser.Parse(SizeParser.Disk, req.diskSize).value;
      assert (st.iface, st.direction) == pat.value;
      Nameservers.EntriesOfNormalize(req.nameservers);
      Nameservers.SplitNormalize(req.nameservers);
      JoinSplit(st.nameservers, ',');
    }
  }

  /** Which option error `main` stops with: the memory is checked first,
      then the disk size, then that the pattern ends in a direction, then
      its CIDR part; no node is produced in any of these cases. */
  lemma GenerateOptionErrors(req: Request, absPath: string -> string)
    ensures SizeParser.ParseMemory(req.memory).Err? ==>
      Generate(req, absPath) == Err(MemoryError(SizeParser.ParseMemory(req.memory).error))
    ensures SizeParser.ParseMemory(req.memory).Ok? && SizeParser.ParseDiskSize(req.diskSize).Err? ==>
      Generate(req, absPath) == Err(DiskError(SizeParser.ParseDiskSize(req.diskSize).error))
    ensures
      var p := req.ipPattern;
      SizeParser.ParseMemory(req.memory).Ok? && SizeParser.ParseDiskSize(req.diskSize).Ok? ==>
        && (p == [] ==> Generate(req, absPath) == Err(BadPattern(EmptyPattern)))
        && (p != [] && p[|p| - 1] != '+' && p[|p| - 1] != '-' ==> Generate(req, absPath) == Err(BadPattern(NoDirection)))
        && (p != [] && (p[|p| - 1] == '+' || p[|p| - 1] == '-') && ParseInterface(p[..|p| - 1]).None? ==>
              Generate(req, absPath) == Err(BadPattern(InvalidCidr(p[..|p| - 1]))))
  {
  }

  /** A node is built exactly when its address is an IPv4 address. */
  lemma BuildNodeOkIff(req: Request, st: Settings, k: nat)
    ensures BuildNode(req, st, k).Ok? <==> 0 <= NodeAddress(st.iface.address, st.direction, k) < AddressCount
  {
  }

  /** A built node is named after its number and sits at the address `k`
      steps from the base. */
  lemma NodeAt(req: Request, st: Settings, k: nat, n: Node)
    requires BuildNode(req, st, k) == Ok(n)
    ensures n.nodeName == "node" + IntText(req.nodeBase + k)
    ensures ParseAddress(n.ip) == Some(Walk(st.iface.address, st.direction, k))
  {
    var a := NodeAddress(st.iface.address, st.direction, k);
    assert AddressText(a) == Some(n.ip);
    AddressTextRoundTrip(a, n.ip);
    NodeAddressIsWalk(st.iface.address, st.direction, k);
  }

  /** A node fails with its own name and its address, which lies outside
      IPv4. */
  lemma NodeFails(req: Request, st: Settings, k: nat, name: string, address: int)
    requires BuildNode(req, st, k) == Err(AddressOutOfRange(name, address))
    ensures name == NodeName(req.nodeBase + k)
    ensures address == NodeAddress(st.iface.address, st.direction, k)
    ensures !(0 <= address < AddressCount)
  {
  }

  /** The loop gets through `count` nodes exactly when the last one's
      address is still an IPv4 address: the addresses run monotonically
      from the base, so no node in between can leave the range first. */
  lemma BuildNodesOkIff(req: Request, st: Settings, count: nat)
    requires ValidInterface(st.iface)
    ensures BuildNodes(req, st, count).Ok? <==>
      count == 0 || 0 <= NodeAddress(st.iface.address, st.direction, count - 1) < AddressCount
  {
    if count > 0 {
      var f := NodeStep(req, st);
      AllInRangeIff(st.iface.address, st.direction, count);
      if 0 <= NodeAddress(st.iface.address, st.direction, count - 1) < AddressCount {
        forall k | 0 <= k < count
          ensures f(k).Ok?
        {
          BuildNodeOkIff(req, st, k);
        }
        CollectAllOk(f, count);
      } else {
        BuildNodeOkIff(req, st, count - 1);
      }
    }
  }

  /** `main` gets through all its nodes exactly when both sizes and the
      pattern are readable and the last node's address is still an IPv4
      address. */
  lemma GenerateOkIff(req: Request, absPath: string -> string)
    ensures Generate(req, absPath).Ok? <==>
      && SizeParser.ParseMemory(req.memory).Ok?
      && SizeParser.ParseDiskSize(req.diskSize).Ok?
      && ParsePattern(req.ipPattern).Ok?
      && (req.nodes > 0 ==>
            var (iface, d) := ParsePattern(req.ipPattern).value;
            0 <= NodeAddress(iface.address, d, req.nodes - 1) < AddressCount)
  {
    if Prepare(req, absPath).Ok? {
      BuildNodesOkIff(req, Prepare(req, absPath).value, NodeCount(req));
    }
  }

  /** The offset of the first node outside IPv4, going from `base` in
      direction `d`. */
  function FirstOutside(base: nat, d: Direction): nat {
    match d
    case Up => if base < AddressCount then AddressCount - base else 0
    case Down => base + 1
  }

  /** A failing loop names the first node that leaves IPv4 and its
      address: one past the top of the range going up, and one below zero
      going down. */
  lemma BuildNodesAddressError(req: Request, st: Settings, count: nat, name: string, address: int)
    requires ValidInterface(st.iface)
    requires BuildNodes(req, st, count) == Err(AddressOutOfRange(name, address))
    ensures FirstOutside(st.iface.address, st.direction) < count
    ensures name == NodeName(req.nodeBase + FirstOutside(st.iface.address, st.direction))
    ensures address == (if st.direction == Up then AddressCount else -1)
  {
    var base := st.iface.address;
    var k := FirstOutside(base, st.direction);
    BuildNodesOkIff(req, st, count);
    assert k < count;
    forall j | 0 <= j < k
      ensures NodeStep(req, st)(j).Ok?
    {
      BuildNodeOkIff(req, st, j);
    }
    BuildNodeOkIff(req, st, k);
    CollectFailsAt(NodeStep(req, st), count, k);
  }

  /** With both sizes and the pattern readable, a failing `main` names the
      first node that leaves IPv4 and its address. */
  lemma GenerateAddressError(req: Request, absPath: string -> string, name: string, address: int)
    requires Generate(req, absPath) == Err(AddressOutOfRange(name, address))
    ensures ParsePattern(req.ipPattern).Ok?
    ensures FirstOutside(ParsePattern(req.ipPattern).value.0.address, ParsePattern(req.ipPattern).value.1) < NodeCount(req)
    ensures name == NodeName(req.nodeBase + FirstOutside(ParsePattern(req.ipPattern).value.0.address, ParsePattern(req.ipPattern).value.1))
    ensures address == (if ParsePattern(req.ipPattern).value.1 == Up then AddressCount else -1)
  {
    BuildNodesAddressError(req, Prepare(req, absPath).value, NodeCount(req), name, address);
  }

  /** The nodes of a successful loop, in order: each named after its
      number and `k` steps from the base address. */
  lemma BuildNodesOk(req: Request, st: Settings, count: nat, nodes: seq<Node>)
    requires BuildNodes(req, st, count) == Ok(nodes)
    ensures |nodes| == count
    ensures forall k :: 0 <= k < |nodes| ==> nodes[k].nodeName == NodeName(req.nodeBase + k)
    ensures forall k :: 0 <= k < |nodes| ==> ParseAddress(nodes[k].ip) == Some(Walk(st.iface.address, st.direction, k))
  {
    var f := NodeStep(req, st);
    CollectOk(f, count, nodes);
    forall k | 0 <= k < |nodes|
      ensures nodes[k].nodeName == NodeName(req.nodeBase + k)
      ensures ParseAddress(nodes[k].ip) == Some(Walk(st.iface.address, st.direction, k))
    {
      assert f(k) == Ok(nodes[k]);
      NodeAt(req, st, k, nodes[k]);
    }
  }

  /** The nodes `main` produces: `max(0, nodes)` of them, named after
      consecutive numbers from `node_base`, the first at the base address
      and each next one a step further in the pattern's direction. */
  lemma GenerateNodes(req: Request, absPath: string -> string, nodes: seq<Node>)
    requires Generate(req, absPath) == Ok(nodes)
    ensures ParsePattern(req.ipPattern).Ok?
    ensures |nodes| == NodeCount(req)
    ensures forall k :: 0 <= k < |nodes| ==> nodes[k].nodeName == NodeName(req.nodeBase + k)
    ensures
      var (iface, d) := ParsePattern(req.ipPattern).value;
      forall k :: 0 <= k < |nodes| ==> ParseAddress(nodes[k].ip) == Some(Walk(iface.address, d, k))
  {
    BuildNodesOk(req, Prepare(req, absPath).value, NodeCount(req), nodes);
  }

  /** Every node of a run gets the router and password as given, the
      pattern's prefix length, and the nameserver option's entries joined
      by `", "`: the first as it is, each next one behind a comma and a
      space. */
  lemma GenerateCloudInit(req: Request, absPath: string -> string, nodes: seq<Node>, k: nat)
    requires Generate(req, absPath) == Ok(nodes) && k < |nodes|
    ensures ParsePattern(req.ipPattern).Ok?
    ensures nodes[k].cloudInit.prefix == ParsePattern(req.ipPattern).value.0.prefix
    ensures nodes[k].cloudInit.router == req.router
    ensures nodes[k].cloudInit.rootPassword == req.rootPassword
    ensures |Nameservers.Entries(req.nameservers)| > 0
    ensures nodes[k].cloudInit.nameservers == Join(Nameservers.Pad(Nameservers.Entries(req.nameservers)), ",")
  {
    var st := Prepare(req, absPath).value;
    PrepareOk(req, absPath);
    ParsePatternOkIff(req.ipPattern);
    var f := NodeStep(req, st);
    CollectOk(f, NodeCount(req), nodes);
    assert f(k) == Ok(nodes[k]);
    NodeCloudInitConfig(req, st, k, nodes[k]);
  }

  /** `f"node{i}"` names different numbers differently. */
  lemma NodeNameInjective(i: int, j: int)
    requires NodeName(i) == NodeName(j)
    ensures i == j
  {
    assert IntText(i) == NodeName(i)[4..];
    IntTextInjective(i, j);
  }

  /** No two nodes of the loop share a name. */
  lemma BuildNodesNamesDistinct(req: Request, st: Settings, count: nat, nodes: seq<Node>, j: nat, k: nat)
    requires BuildNodes(req, st, count) == Ok(nodes)
    requires j < |nodes| && k < |nodes| && j != k
    ensures nodes[j].nodeName != nodes[k].nodeName
  {
    BuildNodesOk(req, st, count, nodes);
    if nodes[j].nodeName == nodes[k].nodeName {
      NodeNameInjective(req.nodeBase + j, req.nodeBase + k);
    }
  }

  /** No two nodes `main` produces share a name. */
  lemma GenerateNamesDistinct(req: Request, absPath: string -> string, nodes: seq<Node>, j: nat, k: nat)
    requires Generate(req, absPath) == Ok(nodes)
    requires j < |nodes| && k < |nodes| && j != k
    ensures nodes[j].nodeName != nodes[k].nodeName
  {
    BuildNodesNamesDistinct(req, Prepare(req, absPath).value, NodeCount(req), nodes, j, k);
  }

  // ------------------------------------------------------ one node's files

  /** A node name holds no character outside `node`, the minus sign and
      the digits. */
  lemma NodeNameNoChar(i: int, c: char)
    requires c != '-' && !IsDigit(c) && c != 'n' && c != 'o' && c != 'd' && c != 'e'
    ensures c !in NodeName(i)
  {
    IntTextNoChar(i, c);
  }

  /** A node name is a relative path that does not end in a slash. */
  lemma NodeNameIsRelative(i: int)
    ensures |NodeName(i)| > 0 && !ProvisioningScript.IsAbsolute(NodeName(i))
    ensures NodeName(i)[|NodeName(i)| - 1] != '/'
  {
    NodeNameNoChar(i, '/');
  }

  /** Where a node's files go: its configuration directory under the
      output directory holds `user-data`, `meta-data` and
      `virt-install.sh`. */
  lemma NodeConfigFiles(req: Request, st: Settings, k: nat, n: Node)
    requires BuildNode(req, st, k) == Ok(n)
    ensures n.configDir ==
      if req.outputDir == [] || req.outputDir[|req.outputDir| - 1] == '/' then req.outputDir + n.nodeName
      else req.outputDir + "/" + n.nodeName
    ensures n.userDataFile == n.configDir + "/" + "user-data"
    ensures n.metaDataFile == n.configDir + "/" + "meta-data"
    ensures n.scriptFile == n.configDir + "/" + "virt-install.sh"
  {
    var name := n.nodeName;
    NodeNameIsRelative(req.nodeBase + k);
    ProvisioningScript.PathJoinUnder(req.outputDir, name, "user-data");
    ProvisioningScript.PathJoinUnder(req.outputDir, name, "meta-data");
    ProvisioningScript.PathJoinUnder(req.outputDir, name, "virt-install.sh");
  }

  /** Where a node's disks go: its own directory under
      `/var/lib/libvirt/images` holds `<name>.qcow2` and
      `seed-<name>.iso`. */
  lemma NodeImagePaths(req: Request, st: Settings, k: nat, n: Node)
    requires BuildNode(req, st, k) == Ok(n)
    ensures n.vmImageDir == ProvisioningScript.ImageRoot + "/" + n.nodeName
    ensures n.diskPath == n.vmImageDir + "/" + n.nodeName + ".qcow2"
    ensures n.isoPath == n.vmImageDir + "/seed-" + n.nodeName + ".iso"
  {
    NodeNameIsRelative(req.nodeBase + k);
    ProvisioningScript.NodePaths(n.nodeName);
    ProvisioningScript.ShellPathsAgree(n.nodeName);
  }

  /** The cloud-init values of a node: its name and address, the
      pattern's prefix length, and the router, root password and
      nameserver list; they can be told apart in the text when those last
      three can. */
  lemma NodeCloudInitConfig(req: Request, st: Settings, k: nat, n: Node)
    requires BuildNode(req, st, k) == Ok(n)
    ensures n.cloudInit == CloudInit.NodeConfig(n.nodeName, n.ip, st.iface.prefix, req.router, req.rootPassword, st.nameservers)
    ensures '\n' !in n.nodeName
    ensures CloudInit.Readable(n.cloudInit) <==>
      '\n' !in req.router && '\n' !in req.rootPassword && ']' !in st.nameservers
  {
    var a := NodeAddress(st.iface.address, st.direction, k);
    assert n.ip == FormatAddress(a);
    FormatAddressNoChar(a, '/');
    NodeNameNoChar(req.nodeBase + k, '\n');
  }

  /** A node's user-data reads back as its own name and address with the
      pattern's prefix length, the router, the root password and the
      nameserver list, provided those three can be told apart in the
      text. */
  lemma NodeUserData(req: Request, st: Settings, k: nat, n: Node)
    requires BuildNode(req, st, k) == Ok(n)
    requires '\n' !in req.router && '\n' !in req.rootPassword && ']' !in st.nameservers
    ensures CloudInit.ReadUserData(UserDataText(n)) ==
      Some(CloudInit.NodeConfig(n.nodeName, n.ip, st.iface.prefix, req.router, req.rootPassword, st.nameservers))
  {
    NodeCloudInitConfig(req, st, k, n);
    CloudInit.ReadUserDataOf(n.cloudInit);
  }

  /** A node's meta-data is exactly its instance-id and local-hostname
      lines, and reads back as its name. */
  lemma NodeMetaData(req: Request, st: Settings, k: nat, n: Node)
    requires BuildNode(req, st, k) == Ok(n)
    ensures MetaDataText(n) == CloudInit.InstanceKey + n.nodeName + "\n" + CloudInit.LocalHostnameKey + n.nodeName + "\n"
    ensures CloudInit.ReadMetaData(MetaDataText(n)) == Some(n.nodeName)
  {
    NodeCloudInitConfig(req, st, k, n);
    CloudInit.MetaDataText(n.nodeName);
    CloudInit.ReadMetaDataIff(MetaDataText(n), n.nodeName);
  }

  /** The script values of a node: its image directory and name, the
      memory, the vCPU count, the disk size and the backing image; they
      can be told apart in the text when the backing image holds no
      `"`. */
  lemma NodeScriptConfig(req: Request, st: Settings, k: nat, n: Node)
    requires BuildNode(req, st, k) == Ok(n)
    ensures n.scriptConfig == ProvisioningScript.ScriptConfig(
      ProvisioningScript.ImageRoot + "/" + n.nodeName, n.nodeName, st.memory, req.cpu, st.diskSize, st.backingImage)
    ensures ProvisioningScript.Readable(n.scriptConfig) <==> '"' !in st.backingImage
  {
    var name := n.nodeName;
    NodeNameIsRelative(req.nodeBase + k);
    ProvisioningScript.NodePaths(name);
    NodeNameNoChar(req.nodeBase + k, '"');
    NodeNameNoChar(req.nodeBase + k, '.');
    NodeNameNoChar(req.nodeBase + k, ' ');
    ProvisioningScript.ImageDirNoQuote(name);
  }

  /** A node's `virt-install.sh` reads back as its image directory, its
      name, the memory, the vCPU count, the disk size and the backing
      image, provided the backing image holds no `"`; in particular it
      sets `VM_IMAGE_DIR` to the node's own directory and names the VM
      after the node. */
  lemma NodeScript(req: Request, st: Settings, k: nat, n: Node)
    requires BuildNode(req, st, k) == Ok(n)
    requires '"' !in st.backingImage
    ensures ProvisioningScript.ReadScript(ScriptText(n)) ==
      Some(ProvisioningScript.ScriptConfig(
        ProvisioningScript.ImageRoot + "/" + n.nodeName, n.nodeName, st.memory, req.cpu, st.diskSize, st.backingImage))
    ensures Contains(ScriptText(n), ProvisioningScript.VmImageDirKey + (ProvisioningScript.ImageRoot + "/" + n.nodeName) + "\"")
    ensures Contains(ScriptText(n), ProvisioningScript.NameKey + n.nodeName + " ")
  {
    NodeScriptConfig(req, st, k, n);
    ProvisioningScript.ReadScriptIff(ScriptText(n), n.scriptConfig);
    ProvisioningScript.ScriptContains(n.scriptConfig);
  }
}
