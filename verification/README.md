# mk-node-defs in Dafny

This project models `bin/mk-node-defs.py` of kube-toolbox. The script prepares Kubernetes node virtual machines. From its options it derives, for each node, a name, a static IPv4 address, the cloud-init `user-data` and `meta-data` texts, the VM image paths and a `virt-install.sh` script.

The model is pure: the options go in, and either the list of planned nodes or the first error comes out. Each node carries its paths and the values substituted into the three templates. The texts are rendered from those values.

Modules, one file each:

- `Results` (`results.dfy`): `Option` and `Result` with early return. `Collect` is the node loop: it runs `f(0)`, `f(1)`, … and stops at the first error.
- `Text` (`text.dfy`) covers what the script does with strings:
  - Python's `str.strip` with the full whitespace set, and `str.upper` on ASCII;
  - `isdigit` and `int(s)` on ASCII digits, and `str(n)`;
  - `str.split` and `str.join`;
  - `endswith`, and containment.
- `Template` (`template.dfy`): an f-string template as literal pieces with values between them (`Fill`). `Read` recovers the values from a rendered text.
- `SizeParser` (`size_parser.dfy`): `parse_memory` and `parse_disk_size`.
  - Python's `float()` is read as an exact decimal. It ignores the whitespace `str.strip` removes, except the separators U+001C to U+001F, which make it fail.
  - `int()` truncates the exact quotient toward zero.
- `Ipv4` (`ipv4.dfy`): the IPv4 part of `ipaddress`.
  - `ip_interface` on the CIDR text, `int(iface.ip)` and `iface.network.prefixlen`.
  - `str(ip_address(n))`.
- `Allocation` (`allocation.dfy`): the IP pattern (`192.168.1.100/24+`) and the node addresses it hands out.
- `Nameservers` (`nameservers.dfy`): `', '.join([s.strip() for s in nameservers.split(',')])`.
- `CloudInit` (`cloud_init.dfy`): `generate_cloud_init`.
- `ProvisioningScript` (`provisioning_script.dfy`): `os.path.join`, the image directory, disk and ISO paths, the backing image and the `virt-install.sh` template.
- `Generator` (`generator.dfy`): the logic of `main`.
  - It checks the options in the source's order.
  - It builds one node per number in `range(node_base, node_base + nodes)`.

Partners: every parser has a reader or reference definition, and the lemmas connect them in both directions.

- `IsReading` for the size parsers.
- `SpellsInterface` for `ip_interface`.
- `ReadUserData`, `ReadMetaData` and `ReadScript` for the three templates.
- `Walk` for the address arithmetic.
- `Entries` for the nameserver normalisation.

## Model

| member | source | states |
|---|---|---|
| Text.StripOfPadded | bin/mk-node-defs.py:12 | `str.strip` of a stripped text with whitespace on both sides gives that text. |
| Text.JoinSplit | bin/mk-node-defs.py:177 | Joining the pieces of `s.split(c)` with `c` gives `s` back. |
| Text.SplitJoin | bin/mk-node-defs.py:177 | Splitting a join of pieces free of `c` at `c` gives the pieces back. |
| Text.NatTextOfDigits | bin/mk-node-defs.py:13-14 | `str(int(s))` is `s` for a digit string without leading zeros. |
| Text.IntTextInjective | bin/mk-node-defs.py:192 | Different integers have different `str` texts. |
| SizeParser.ParseIsReading | bin/mk-node-defs.py:7-77 | A size string parses to `r` exactly when `r` is a size it denotes. After stripping and upper-casing it is either a digit string already in the target unit, or a decimal followed by GB, G, MB or M. That decimal is converted (memory: G/GB times 1024; disk: M/MB divided by 1024 and at least 1) and truncated toward zero. |
| SizeParser.ParseFailsIffNoReading | bin/mk-node-defs.py:7-77 | Parsing raises exactly when the string denotes no size at all. |
| SizeParser.ParseOkIffReading | bin/mk-node-defs.py:7-77 | A size string parses exactly when it denotes some size, and the result is one it denotes. |
| SizeParser.ConvertIsMeaning | bin/mk-node-defs.py:16-73 | The integer arithmetic equals the real-number conversion followed by truncation toward zero. This covers `int(val * 1024)`, `int(val)` and `max(1, int(val / 1024))` for every unit and both parsers. |
| SizeParser.ParseLiteral | bin/mk-node-defs.py:18 | `float()` of a written decimal literal (optional minus, digits, point, digits) is exactly that number: its digits as one integer, scaled down by the fraction length. |
| SizeParser.ParseDecimalIff | bin/mk-node-defs.py:16-21 | `float()` reads `d` exactly when the text is a well-formed decimal literal denoting `d`, with only `float()`'s whitespace around it. A literal has an optional `+` or `-`, then digits, a point and digits, with at least one digit and the point optional when no digits follow it. |
| SizeParser.ParseNatText | bin/mk-node-defs.py:18 | `float()` of a whole number's decimal text is that number. |
| SizeParser.ParseWithUnit | bin/mk-node-defs.py:16-39 | After a recognised unit, the result is `Ok` exactly when the number in front parses. It is then that number converted for the unit. |
| SizeParser.InvalidNumberBeforeUnit | bin/mk-node-defs.py:20-21 | An unreadable number before a unit gives `InvalidNumber` naming the stripped, upper-cased input. |
| SizeParser.UnitsExclusive | bin/mk-node-defs.py:16-34 | No text ends in two different units, so the order of the suffix tests never decides between two readings. |
| SizeParser.LongUnitSame | bin/mk-node-defs.py:16-39 | `GB` and `G` give the same result after any number, and so do `MB` and `M`. |
| SizeParser.ParseIgnoresCase | bin/mk-node-defs.py:12-15 | The result does not depend on letter case, for either parser (the disk parser upper-cases at line 48). |
| SizeParser.ParseBareNumber | bin/mk-node-defs.py:13-14 | A bare whole number is returned unchanged by both parsers. |
| SizeParser.ParseNatWithUnit | bin/mk-node-defs.py:16-39 | A whole number followed by a unit in any letter case converts as that unit says. |
| SizeParser.ParseGigabytes | bin/mk-node-defs.py:16-61 | `nG` and `ngb` are `n * 1024` MB of memory (lines 16-25), and `nG` is `n` GB of disk (lines 57-61). |
| SizeParser.ParseMegabytes | bin/mk-node-defs.py:28-73 | `nMB` and `nmb` are `n` MB of memory (lines 28-33). `nM` is `n / 1024` GB of disk, or 1 GB when `n < 1024` (lines 63-73). |
| SizeParser.DiskMegabytesAtLeastOne | bin/mk-node-defs.py:63-73 | A disk size given in M or MB is never below 1 GB. |
| SizeParser.NegativeWithUnit | bin/mk-node-defs.py:16-73 | A negative number with a unit is accepted, and the sign goes through the unit's conversion. The result is negative for memory, and for disk in G or GB, when the number is not 0. Disk in M or MB is raised to 1 by `max(1, …)`. |
| SizeParser.NegativeBareRejected | bin/mk-node-defs.py:13-41 | The same negative number without a unit is refused as an unknown unit. |
| SizeParser.NoUnitAfter | bin/mk-node-defs.py:40-41 | A text whose last character is not B, G or M matches no unit. |
| SizeParser.MemoryBareExample | bin/mk-node-defs.py:13-14 | `2048` is 2048 MB. |
| SizeParser.MemoryGigabyteExample | bin/mk-node-defs.py:22-25 | `2G` is 2048 MB. |
| SizeParser.MemoryLowerCaseExample | bin/mk-node-defs.py:28-31 | `512mb` is 512 MB. |
| SizeParser.DiskGigabyteExample | bin/mk-node-defs.py:57-61 | `10G` is 10 GB of disk. |
| SizeParser.DiskMegabyteExample | bin/mk-node-defs.py:70-73 | `10240M` is 10 GB. |
| SizeParser.DiskSmallExample | bin/mk-node-defs.py:70-73 | `512M` is 1 GB. |
| SizeParser.NegativeMemoryExample | bin/mk-node-defs.py:12-41 | `-1G` is -1024 MB, while `-1` is refused. |
| SizeParser.SeparatorExample | bin/mk-node-defs.py:12-21 | `1`, the separator U+001C, then `G` is refused as an invalid number: `strip()` keeps the inner separator and `float()` refuses it. |
| SizeParser.UnknownUnitExample | bin/mk-node-defs.py:40-41 | `bogus` is refused as an unknown unit. |
| Ipv4.ParseAddressIff | bin/mk-node-defs.py:168-173 | A text reads as the address `n` exactly when `n < 2^32` and the text is `n`'s canonical dotted quad. |
| Ipv4.ParseFormatAddress | bin/mk-node-defs.py:198 | Every address's text reads back as the address. |
| Ipv4.FormatParseAddress | bin/mk-node-defs.py:168-173 | Every accepted address text is the canonical text of the address it reads as. |
| Ipv4.FormatCombine | bin/mk-node-defs.py:198 | The text of the address with octets a, b, c, d is their decimals joined by dots. |
| Ipv4.OctetsCombine | bin/mk-node-defs.py:173 | An address's four octets are the ones it was built from. |
| Ipv4.ParseInterfaceIff | bin/mk-node-defs.py:168-174 | `ip_interface` accepts exactly two forms: an address alone, with prefix 32, or an address, a slash and decimal digits for a prefix of at most 32. |
| Ipv4.ParseFormatInterface | bin/mk-node-defs.py:168-174 | An interface's CIDR text reads back as the interface. |
| Allocation.SplitPatternIff | bin/mk-node-defs.py:162-166 | The pattern splits into a CIDR text and a direction exactly when it is that text followed by `+` or `-`. |
| Allocation.SplitPatternFails | bin/mk-node-defs.py:162-164 | The direction check fails exactly when no CIDR text and direction spell the pattern. |
| Allocation.ParsePatternIff | bin/mk-node-defs.py:162-174 | A pattern is accepted exactly when its last character is the direction and the text before it spells the interface. |
| Allocation.ParsePatternOkIff | bin/mk-node-defs.py:162-174 | A pattern is accepted exactly when some interface's text followed by some direction character spells it, and it is then read as those. |
| Allocation.ParsePatternOfParts | bin/mk-node-defs.py:162-174 | An interface's CIDR text followed by a direction character reads back as that interface and direction. |
| Allocation.NodeAddressIsWalk | bin/mk-node-defs.py:193-197 | The node at offset `k` gets the address `k` single steps from the base, up for `+` and down for `-`. |
| Allocation.NodeAddressInjective | bin/mk-node-defs.py:193-197 | Different offsets give different addresses. |
| Allocation.AddressTextRoundTrip | bin/mk-node-defs.py:198 | A node's address text reads back as its address. |
| Allocation.AllInRangeIff | bin/mk-node-defs.py:191-198 | All nodes get IPv4 addresses exactly when the last one does. |
| Allocation.NodeAddressLastOctet | bin/mk-node-defs.py:193-197 | Staying within the last octet changes only the last octet. |
| Allocation.AllocationExample | bin/mk-node-defs.py:191-198 | From base `192.168.1.100`, the third node is `192.168.1.102` going up and `192.168.1.98` going down. |
| Nameservers.EntriesClean | bin/mk-node-defs.py:177 | There is one entry per comma-separated piece, empty pieces kept, each stripped and comma-free. |
| Nameservers.SplitNormalize | bin/mk-node-defs.py:177 | Cutting the output at its commas gives the entries, each after the first with one leading space. |
| Nameservers.EntriesOfNormalize | bin/mk-node-defs.py:177 | Cutting and stripping the output gives back exactly the entries: nothing lost, nothing invented. |
| Nameservers.NormalizeIdempotent | bin/mk-node-defs.py:177 | Normalizing an already normalized list changes nothing. |
| Nameservers.NormalizeJoined | bin/mk-node-defs.py:177 | Clean entries joined by bare commas come out joined by `", "`. |
| Nameservers.DefaultExample | bin/mk-node-defs.py:148-177 | The default `8.8.8.8,8.8.4.4` is written `8.8.8.8, 8.8.4.4`. |
| CloudInit.ReadUserDataIff | bin/mk-node-defs.py:86-118 | A text reads as a node configuration exactly when it is that configuration's user-data and the configuration is readable. So no two readable configurations share a user-data text. |
| CloudInit.ReadUserDataOf | bin/mk-node-defs.py:86-118 | A readable configuration's user-data reads back as it. |
| CloudInit.DelimitedIffReadable | bin/mk-node-defs.py:86-118 | The substituted values can be told apart in the text exactly when none holds the character the template puts after it. |
| CloudInit.UserDataHeader | bin/mk-node-defs.py:86-87 | The user-data starts with `#cloud-config` and a line break. |
| CloudInit.UserDataContains | bin/mk-node-defs.py:88-108 | The host name, root password, gateway and nameserver list appear verbatim behind their keys, each followed by the character the template puts after it: `hostname: N\n`, `root:P\n`, `gateway4: R\n`, `addresses: [NS]`. |
| CloudInit.UserDataContainsAddress | bin/mk-node-defs.py:104-105 | The node's address appears as one `- ip/prefix` list entry. |
| CloudInit.MetaDataText | bin/mk-node-defs.py:119-121 | The meta-data is exactly the `instance-id` line followed by the `local-hostname` line, both naming the node. |
| CloudInit.ReadMetaDataIff | bin/mk-node-defs.py:119-121 | A text reads as a node name exactly when it is that name's meta-data and the name has no line break. |
| ProvisioningScript.PathJoinParts | bin/mk-node-defs.py:184 | `os.path.join(a, b)` always ends with `b`. When `b` is relative it starts with `a`. It is absolute exactly when `a` or `b` is. |
| ProvisioningScript.BackingImageOf | bin/mk-node-defs.py:181-185 | The backing image path ends with the image file name and lies under the image directory when that name is relative. It is absolute exactly when the name or the directory is. |
| ProvisioningScript.PathJoinUnder | bin/mk-node-defs.py:204-207 | A file joined to a node directory sits directly under it, behind one slash. |
| ProvisioningScript.NodePaths | bin/mk-node-defs.py:213-219 | The VM image directory is `/var/lib/libvirt/images/<name>`, and the disk and seed ISO paths sit directly in it. |
| ProvisioningScript.ShellPathsAgree | bin/mk-node-defs.py:232-234 | The disk and ISO paths the script builds from `${VM_IMAGE_DIR}` are the ones `main` computes. |
| ProvisioningScript.ReadIntIff | bin/mk-node-defs.py:253-254 | A number text in the script reads as `i` exactly when it is `str(i)`. |
| ProvisioningScript.ReadScriptIff | bin/mk-node-defs.py:224-258 | A text reads as a script configuration exactly when it is that readable configuration's `virt-install.sh`, so the script loses none of its values. |
| ProvisioningScript.DelimitedIffReadable | bin/mk-node-defs.py:224-258 | The script's values can be told apart exactly when the image directory and backing image hold no `"`, and the node name holds no `.` or space. |
| ProvisioningScript.ScriptContains | bin/mk-node-defs.py:232-254 | The script has `VM_IMAGE_DIR="<dir>"`, `--name <name> `, `--memory <mem> --vcpus <cpu>`, `size=<disk>,` and `backing_store="<path>"`, each value verbatim and closed by the character the template puts after it. |
| Results.CollectOk | bin/mk-node-defs.py:191-198 | The loop succeeds with `vs` exactly when there are `count` results and the `k`-th is `f(k)`. |
| Results.CollectFailsAt | bin/mk-node-defs.py:191-198 | When `f(k)` is the first failure, the loop stops with that error. |
| Results.CollectErr | bin/mk-node-defs.py:191-198 | The loop fails with `e` exactly when some `f(k)` is the first failure and fails with `e`. |
| Generator.GenerateOptionErrors | bin/mk-node-defs.py:159-171 | The errors come in the source's order: memory first, then disk size, then an empty pattern or a missing direction, then an invalid CIDR naming the text. |
| Generator.PrepareOk | bin/mk-node-defs.py:159-185 | The options are accepted exactly when both sizes denote a size and the pattern spells an interface and a direction. The settings then hold those readings and that interface and direction. Their nameserver text is the option's stripped entries joined by `", "`: cut at its commas, it gives the first entry and then each next one behind a space. They also hold the absolute backing image path. |
| Generator.GenerateOkIff | bin/mk-node-defs.py:159-198 | Generation succeeds exactly when both sizes and the pattern parse and, if there are nodes, the last node's address is in IPv4. |
| Generator.BuildNodeOkIff | bin/mk-node-defs.py:193-198 | A node is produced exactly when its address is in IPv4. |
| Generator.NodeAt | bin/mk-node-defs.py:191-198 | The node at offset `k` is named `node<node_base + k>`, and its address text reads as `k` steps from the base. |
| Generator.NodeFails | bin/mk-node-defs.py:191-198 | A failing node reports its own name and its out-of-range address. |
| Generator.BuildNodesOkIff | bin/mk-node-defs.py:191-198 | The loop succeeds exactly when it is empty or its last address is in IPv4. |
| Generator.BuildNodesAddressError | bin/mk-node-defs.py:191-198 | When the loop fails, it fails at the first offset outside IPv4. The address is 2^32 going up and -1 going down. |
| Generator.GenerateAddressError | bin/mk-node-defs.py:191-198 | Generation can fail on an address only at the first offset that leaves IPv4. That offset lies within the node count. |
| Generator.BuildNodesOk | bin/mk-node-defs.py:191-198 | A successful loop gives `count` nodes in order, with their names and addresses. |
| Generator.GenerateNodes | bin/mk-node-defs.py:191-198 | A successful run gives `max(0, nodes)` nodes. Node `k` is `node<node_base + k>`, and its address is `k` steps from the pattern's base in its direction. |
| Generator.NodeNameInjective | bin/mk-node-defs.py:192 | Different numbers give different node names. |
| Generator.BuildNodesNamesDistinct | bin/mk-node-defs.py:191-192 | The nodes of one loop have distinct names. |
| Generator.GenerateNamesDistinct | bin/mk-node-defs.py:191-192 | The nodes of one run have distinct names. |
| Generator.NodeNameNoChar | bin/mk-node-defs.py:192 | A node name holds only the letters of `node`, digits and `-`. |
| Generator.NodeNameIsRelative | bin/mk-node-defs.py:192 | A node name is a non-empty relative path segment. |
| Generator.NodeConfigFiles | bin/mk-node-defs.py:204-207 | A node's config directory is the output directory joined with its name. It holds `user-data`, `meta-data` and `virt-install.sh`. |
| Generator.NodeImagePaths | bin/mk-node-defs.py:213-219 | The node's image directory, disk and seed ISO paths lie under `/var/lib/libvirt/images/<name>`. |
| Generator.NodeCloudInitConfig | bin/mk-node-defs.py:201 | The cloud-init values are the node's name and address, the settings' prefix, the router, the password and the settings' nameservers. They are readable exactly when router and password have no line break and the nameservers no `]`. |
| Generator.GenerateCloudInit | bin/mk-node-defs.py:174-201 | In a successful run, every node's cloud-init values hold the router and password as given and the pattern's prefix length. They also hold the nameserver option's stripped entries joined by `", "`. |
| Generator.NodeUserData | bin/mk-node-defs.py:201-209 | The node's user-data text reads back as exactly those values. |
| Generator.NodeMetaData | bin/mk-node-defs.py:201-211 | The node's meta-data is its two name lines, and it reads back as the node name. |
| Generator.NodeScriptConfig | bin/mk-node-defs.py:224-254 | The script values are the image directory, name, memory, vCPUs, disk size and backing image. They are readable exactly when the backing image has no `"`. |
| Generator.NodeScript | bin/mk-node-defs.py:224-258 | The node's script reads back as those values, holds `VM_IMAGE_DIR="/var/lib/libvirt/images/<name>"` and names the VM `<name>`. |

## Left out

- Option parsing (`argparse`) and the password prompt (`getpass`), lines 125-156: the model starts from a `Request` that holds the option values and the password.
- Directory creation, file writing, `chmod` and the progress messages are left out as I/O, lines 188, 205, 208-211, 215 and 259-269. `Files` lists the three (path, text) pairs each node would write.
- `os.path.abspath` depends on the working directory, so it is a parameter of `Generate`.
- SizeParser.ParseLiteral: Python's `float()` also accepts exponents, `inf`, `nan`, underscores and non-ASCII digits. The model reads only signed decimal literals and refuses the rest. Binary floating-point rounding is not modelled: the conversions use the exact value. Nor is overflow: a literal of about 309 or more digits becomes `inf` in the source (for memory in G or GB, `val * 1024` does so from about 306 digits), and `int()` then raises `OverflowError`, which the `except ValueError` clauses do not catch. The model gives the exact converted value instead.
- SizeParser.ParseDecimalIff: `float()` also reads the forms listed for `SizeParser.ParseLiteral`, and turns a literal too large for a double into `inf`. The model reads only the decimal literals, exactly.
- SizeParser.ParseWithUnit: a number before the unit that is too large for a double gives an `OverflowError` in the source, and the converted exact value in the model.
- SizeParser.ParseFailsIffNoReading: a huge number before a unit has a reading in the model, while the source stops with `OverflowError`.
- SizeParser.ParseOkIffReading: the same overflow is not modelled.
- Generator.PrepareOk: the same overflow is not modelled.
- SizeParser.ParseIsReading: `str.upper` is modelled on ASCII letters only.
- SizeParser.ParseIsReading: a number before a unit that is too large for a double is read exactly, where the source stops with `OverflowError` (see `SizeParser.ParseLiteral`).
- SizeParser.ParseIsReading: `isdigit` and `int` on the bare-number path (lines 13-14 and 49-50) are modelled on ASCII digits only. A bare non-ASCII digit string is the error `UnknownUnit` in the model. In the source, `"٣"` gives 3, and `"²"` passes `isdigit` and then makes `int` raise `ValueError`.
- Ipv4.ParseInterfaceIff: only the IPv4 forms of `ip_interface` are modelled. IPv6 addresses and the netmask form of the prefix (`/255.255.255.0`) are refused.
- Generator.GenerateOptionErrors: an empty pattern is the error `EmptyPattern`, whereas the source fails with an `IndexError` at line 163. An invalid CIDR carries only the offending text, not the `ipaddress` message.
- Generator.GenerateAddressError: an address outside IPv4 is the error `AddressOutOfRange`. The source raises for a negative address, but renders an address of 2^32 or more as IPv6 at line 198.
- Generator.GenerateOkIff: generation is all or nothing. The source has already written the files of the nodes before the failing one.
- CloudInit.ReadUserDataIff, ProvisioningScript.ReadScriptIff, Generator.NodeUserData and Generator.NodeScript read back only readable values. A value that contains the character the template puts after it (a line break, `]`, `"`) cannot be told apart from the text around it.

## Behaviours of the code

These follow from the code as written. Each is modelled as the code does it:

- A CIDR without `/prefix` is accepted with prefix 32, because `ip_interface` allows it (line 169). The help text at line 135 asks for the form `CIDR+/-`.
- A negative number followed by a unit is accepted, because the `float()` branches at lines 16-37 and 51-73 have no sign check. The sign goes through the conversion: `-1G` is -1024 MB of memory and -1 GB of disk, while `-2048M` is 1 GB of disk, because of `max(1, …)` at line 73.
- Megabytes of disk are truncated to whole gigabytes, and raised to 1 only below 1 GB (lines 67 and 73). The comment at line 66 says "round up".
- Node addresses are not checked against the subnet of the pattern (lines 193-198).
