/** `generate_cloud_init` of bin/mk-node-defs.py: the cloud-init user-data
    (host name, root password, a static netplan configuration and the
    commands that activate it) and meta-data of one node, rendered from
    two f-string templates. */
module CloudInit {
  import opened Text
  import opened Results
  import opened Template

  /** The values `generate_cloud_init` substitutes into its templates. */
  datatype NodeConfig = NodeConfig(
    nodeName: string,
    ip: string,
    prefix: nat,
    router: string,
    rootPassword: string,
    nameservers: string)

  // The text in front of each substituted value on its line.
  const Header := "#cloud-config\n"
  const HostnameKey := "hostname: "
  const RootKey := "    root:"
  const AddressKey := "              - "
  const GatewayKey := "            gateway4: "
  const NameserversKey := "              addresses: ["
  const InstanceKey := "instance-id: "
  const LocalHostnameKey := "local-hostname: "

  /** The literal text of the user-data template, between the places where
      the host name, root password, IP, prefix length, router and
      nameserver list go. */
  const UserDataPieces: seq<string> := [
    Header + "disable_root: false\n" + HostnameKey,
    "\n" + "chpasswd:\n  list: |\n" + RootKey,
    "\n" + "  expire: false\nssh_pwauth: true\npackages:\n  - nfs-common\nwrite_files:\n"
      + "  - path: /etc/netplan/00-local.yaml\n    content: |\n      network:\n"
      + "        version: 2\n        ethernets:\n          enp1s0:\n"
      + "            dhcp4: false\n            addresses:\n" + AddressKey,
    "/",
    "\n" + GatewayKey,
    "\n" + "            nameservers:\n" + NameserversKey,
    "]" + "\n  - path: /etc/ssh/sshd_config.d/00-local.conf\n    content: |\n"
      + "      PermitRootLogin yes\n      PasswordAuthentication yes\nruncmd:\n"
      + "  - rm -f /etc/netplan/50-cloud-init.yaml\n  - netplan apply\n"
      + "  - rm -f /etc/ssh/sshd_config.d/50-cloud-init.conf\n"
      + "  - rm -f /etc/ssh/sshd_config.d/60-cloudimg-settings.conf\n" ]

  /** The substituted values of the user-data, in template order; the
      prefix length is written in decimal. */
  function UserDataValues(c: NodeConfig): (r: seq<string>)
    ensures |r| + 1 == |UserDataPieces|
  {
    [c.nodeName, c.rootPassword, c.ip, NatText(c.prefix), c.router, c.nameservers]
  }

  function UserData(c: NodeConfig): string {
    Fill(UserDataPieces, UserDataValues(c))
  }

  /** The meta-data template: the node name twice. */
  const MetaDataPieces: seq<string> := [InstanceKey, "\n" + LocalHostnameKey, "\n"]

  function MetaData(nodeName: string): string {
    Fill(MetaDataPieces, [nodeName, nodeName])
  }

  /** `generate_cloud_init(...)`: the user-data and the meta-data text. */
  function GenerateCloudInit(c: NodeConfig): (string, string) {
    (UserData(c), MetaData(c.nodeName))
  }

  // ------------------------------------------------------------- reading

  /** The values that can be told apart in a rendered user-data: each ends
      at the character the template puts after it (a line break, the `/`
      after the IP, the `]` after the nameservers). */
  predicate Readable(c: NodeConfig) {
    && '\n' !in c.nodeName && '\n' !in c.rootPassword && '/' !in c.ip
    && '\n' !in c.router && ']' !in c.nameservers
  }

  /** The configuration whose user-data values are `vs`, if any: six
      values with the prefix length in canonical decimal. */
  function ConfigOf(vs: seq<string>): Option<NodeConfig> {
    if |vs| == 6 && IsCanonical(vs[3]) then
      Some(NodeConfig(vs[0], vs[2], DigitsValue(vs[3]), vs[4], vs[1], vs[5]))
    else None
  }

  /** The node configuration a user-data text was rendered from, if any. */
  function ReadUserData(text: string): Option<NodeConfig> {
    var vs :- Read(UserDataPieces, text);
    ConfigOf(vs)
  }

  /** The node name a meta-data text was rendered from, if any. */
  function ReadMetaData(text: string): Option<string> {
    var vs :- Read(MetaDataPieces, text);
    if |vs| == 2 && vs[0] == vs[1] then Some(vs[0]) else None
  }

  /** `ConfigOf` inverts `UserDataValues`. */
  lemma ConfigOfIff(vs: seq<string>, c: NodeConfig)
    ensures ConfigOf(vs) == Some(c) <==> vs == UserDataValues(c)
  {
    if ConfigOf(vs) == Some(c) {
      NatTextOfDigits(vs[3]);
    }
  }

  /** The shape of the user-data template the reader relies on: seven
      pieces, and the character each piece after the first starts with. */
  predicate UserDataShape(ps: seq<string>) {
    && |ps| == 7
    && |ps[1]| > 0 && ps[1][0] == '\n'
    && |ps[2]| > 0 && ps[2][0] == '\n'
    && ps[3] == "/"
    && |ps[4]| > 0 && ps[4][0] == '\n'
    && |ps[5]| > 0 && ps[5][0] == '\n'
    && |ps[6]| > 0 && ps[6][0] == ']'
  }

  lemma UserDataPiecesShape()
    ensures UserDataShape(UserDataPieces)
  {
  }

  /** In a template of that shape, a configuration's values are delimited
      exactly when the configuration is readable. */
  lemma DelimitedIffReadable(ps: seq<string>, c: NodeConfig)
    requires UserDataShape(ps)
    ensures Delimited(ps, UserDataValues(c)) <==> Readable(c)
  {
    NatTextNoChar(c.prefix, '\n');
    var vs := UserDataValues(c);
    if Delimited(ps, vs) {
      assert ps[1][0] !in vs[0] && ps[2][0] !in vs[1] && ps[3][0] !in vs[2];
      assert ps[5][0] !in vs[4] && ps[6][0] !in vs[5];
    }
  }

  /** A text reads as a configuration exactly when it is that readable
      configuration's user-data: no two configurations share a text, and
      nothing else is accepted. */
  lemma ReadUserDataIff(text: string, c: NodeConfig)
    ensures ReadUserData(text) == Some(c) <==> Readable(c) && text == UserData(c)
  {
    var ps := UserDataPieces;
    var vs := UserDataValues(c);
    UserDataPiecesShape();
    DelimitedIffReadable(ps, c);
    ReadIff(ps, vs, text);
    if ReadUserData(text) == Some(c) {
      ConfigOfIff(Read(ps, text).value, c);
    }
  }

  /** A readable configuration's user-data reads back as it. */
  lemma ReadUserDataOf(c: NodeConfig)
    requires Readable(c)
    ensures ReadUserData(UserData(c)) == Some(c)
  {
    ReadUserDataIff(UserData(c), c);
  }

  /** The user-data is a cloud-config document. */
  lemma UserDataHeader(c: NodeConfig)
    ensures Header <= UserData(c)
  {
    var ps := UserDataPieces;
    FillStart(ps, UserDataValues(c));
    assert ps[0] == Header + ("disable_root: false\n" + HostnameKey);
    PrefixOfAppend(Header, "disable_root: false\n" + HostnameKey);
  }

  /** The host name, root password, router and nameservers appear verbatim
      behind their keys, with no escaping, each up to the character the
      template puts after it. */
  lemma UserDataContains(c: NodeConfig)
    ensures Contains(UserData(c), HostnameKey + c.nodeName + "\n")
    ensures Contains(UserData(c), RootKey + c.rootPassword + "\n")
    ensures Contains(UserData(c), GatewayKey + c.router + "\n")
    ensures Contains(UserData(c), NameserversKey + c.nameservers + "]")
  {
    var ps := UserDataPieces;
    var vs := UserDataValues(c);
    UserDataPiecesShape();
    FillContainsField(ps, vs, 0, Header + "disable_root: false\n", HostnameKey, '\n');
    FillContainsField(ps, vs, 1, "\n" + "chpasswd:\n  list: |\n", RootKey, '\n');
    FillContainsField(ps, vs, 4, "\n", GatewayKey, '\n');
    FillContainsField(ps, vs, 5, "\n" + "            nameservers:\n", NameserversKey, ']');
  }

  /** The node's address appears as one `- ip/prefix` list entry. */
  lemma UserDataContainsAddress(c: NodeConfig)
    ensures Contains(UserData(c), AddressKey + c.ip + "/" + NatText(c.prefix))
  {
    var ps := UserDataPieces;
    var pre := "\n" + "  expire: false\nssh_pwauth: true\npackages:\n  - nfs-common\nwrite_files:\n"
      + "  - path: /etc/netplan/00-local.yaml\n    content: |\n      network:\n"
      + "        version: 2\n        ethernets:\n          enp1s0:\n"
      + "            dhcp4: false\n            addresses:\n";
    UserDataPiecesShape();
    FillContainsPair(ps, UserDataValues(c), 2, pre, AddressKey);
  }

  /** The meta-data is exactly the instance id and local host name lines,
      both the node name. */
  lemma MetaDataText(nodeName: string)
    ensures MetaData(nodeName) == InstanceKey + nodeName + "\n" + LocalHostnameKey + nodeName + "\n"
  {
    FillTwo(InstanceKey, "\n" + LocalHostnameKey, "\n", nodeName, nodeName);
  }

  /** A text reads as a node name exactly when it is that name's meta-data
      and the name holds no line break. */
  lemma ReadMetaDataIff(text: string, nodeName: string)
    ensures ReadMetaData(text) == Some(nodeName) <==> '\n' !in nodeName && text == MetaData(nodeName)
  {
    var ps := MetaDataPieces;
    var vs := [nodeName, nodeName];
    assert ps[1][0] == '\n' && ps[2][0] == '\n';
    ReadIff(ps, vs, text);
    if ReadMetaData(text) == Some(nodeName) {
      FillRead(ps, text);
      assert Read(ps, text).value == vs;
    }
  }
}
