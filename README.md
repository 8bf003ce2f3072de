# NetshTool core in Dafny

NetshTool is a Windows tool for saved Wi-Fi profiles. It sits on top of `netsh wlan`. This
project models the logic under its window and its subprocess calls, and proves properties of
that logic:

- **The profile entity** (`Profile`, `NetworkList`).
  - The three closed enums (connection mode, authentication, encryption) and their string values.
  - Construction-time validation: the name must not be blank, and the password needs at least 8 characters.
  - The derived `ssid_hex`: the upper-case hex of the name's UTF-8 bytes.
  - `to_dict`.
  - The list of saved-profile names, with its emptiness and membership queries.
- **The netsh text layer** (`NetshExecutor`).
  - The `label : value` reader of `netsh wlan show interfaces`. Bilingual labels, only the first colon splits a line, empty values are skipped, and the last match wins.
  - Its first-match sibling `_extract_value`.
  - The "connected" substring test and the `is_connected_to` decision.
  - The quoting of `key=value` arguments.
  - The "All User Profile" line scanner of `show_profiles`.
  - The decision of `connect`.
  - Running a command is not modelled: its `(success, output)` pair is an input, a `CommandResult`.
- **The WLAN profile XML codec** (`Xml`, `ProfileXmlGenerator`, `ProfileXmlParser`, `ProfileXmlRoundTrip`).
  - XML is an abstract element tree. Tags are (namespace, local name) pairs.
  - `Element.find` on a direct child and `find(".//…")` on a descendant are functions on that tree. `FindDescendant` is proved to return the first match in document order.
  - `Resolve` gives the namespace a namespace-aware reader assigns to each element when it reads the serialised tree back. An `xmlns` attribute sets the default namespace of its subtree.
  - The generator builds the fixed-shape tree of a profile.
  - The parser maps a tree, or a parse failure, to an optional profile.

Python's string builtins are modelled in `Text`, over `string` (sequences of Unicode scalar
values):

- `isspace` covers the 29 code points Python treats as whitespace.
- `strip` and `splitlines` are modelled, the latter with Python's line boundaries and `\r\n` read as one.
- `split(":", 1)`, `split(sep)` / `join`, `in` on strings, `startswith` and `lower` are modelled.

`Seqs` holds generic list helpers and `Wrappers` holds `Option` and `Result`.

`ProfileExamples` and `NetshExamples` restate the fixtures of the repository's tests as
lemmas:

- the validation cases;
- the "测试WiFi" bytes;
- the `to_dict` output;
- the Chinese and English `show interfaces` listings.

## Model

| member | source | states |
|---|---|---|
| Profile.ConnectionModeOf | src/NetshTool/domain/profile.py:9-12 | `ConnectionMode(text)`: returns `Some(m)` exactly when `text` is the value of member `m`, and `None` (the lookup raises) for any other text |
| Profile.AuthenticationTypeOf | src/NetshTool/domain/profile.py:15-19 | `AuthenticationType(text)`: `Some(a)` exactly when `text` is a's value |
| Profile.EncryptionTypeOf | src/NetshTool/domain/profile.py:22-26 | `EncryptionType(text)`: `Some(e)` exactly when `text` is e's value |
| Profile.ValueLookupInverts | src/NetshTool/domain/profile.py:9-26 | each enum's values are distinct, so looking up a member's own value gives back that member |
| Profile.NewProfile | src/NetshTool/domain/profile.py:50-55 | construction succeeds iff the name has a non-whitespace character and the password has at least 8 characters; it fails with the empty-name error iff the name is blank; a built profile is `Valid` and holds exactly the given fields |
| Profile.NewProfileWithDefaults | src/NetshTool/domain/profile.py:42-55 | with only a name and a password: success iff the name is not blank and the password has at least 8 characters; the defaults are AUTO, WPA2PSK, AES, `auto_switch` false and `enable_randomization` true |
| Profile.NewProfileOfValid | src/NetshTool/domain/profile.py:50-55 | rebuilding a valid profile from its own fields succeeds and gives the same profile |
| Profile.SsidHex | src/NetshTool/domain/profile.py:57-60 | `name.encode("utf-8").hex().upper()` equals two upper-case hex digits, high nibble first, for each UTF-8 byte of the name |
| Profile.SsidHexIsUpperHexOfUtf8 | src/NetshTool/domain/profile.py:57-60 | `ssid_hex` is the upper-case hex of the UTF-8 bytes of the name; it is twice as long as that byte string, uses only 0-9A-F, and decodes back to the bytes |
| Profile.UpperOfHexLower | src/NetshTool/domain/profile.py:60 | upper-casing lower-case hex (what `.hex().upper()` does) equals hex written with upper-case digits |
| Profile.HexRoundTrip | src/NetshTool/domain/profile.py:60 | the hex of any byte string is two upper-case digits per byte, and decoding it gives back the bytes |
| Profile.SsidHexAppend | src/NetshTool/domain/profile.py:60 | `ssid_hex` of a concatenation is the concatenation of the two `ssid_hex`s |
| Profile.Utf8EncodeAppend | src/NetshTool/domain/profile.py:60 | UTF-8 encoding distributes over concatenation |
| Profile.Utf8RoundTrip | src/NetshTool/domain/profile.py:60 | decoding the UTF-8 encoding of any string gives back the string |
| Profile.SsidHexInjective | src/NetshTool/domain/profile.py:57-60 | two names with the same `ssid_hex` are the same name |
| Profile.ToDict | src/NetshTool/domain/profile.py:62-72 | the dictionary has exactly the seven keys; the name and password are unchanged, the enums are replaced by their values, and the flags are kept as booleans |
| Profile.ToDictInjective | src/NetshTool/domain/profile.py:62-72 | two profiles with the same dictionary are equal, so the dictionary loses nothing |
| ProfileExamples.ValidationExamples | tests/domain/test_profile.py:13-46 | the test fixtures: "TestWiFi"/"password123" is accepted; an empty or whitespace name and a 7-character password are rejected with the matching error; exactly 8 characters is accepted |
| ProfileExamples.Utf8Example | tests/domain/test_profile.py:48-55 | "测试WiFi" encodes to the bytes E6 B5 8B E8 AF 95 57 69 46 69 |
| ProfileExamples.HexExample | tests/domain/test_profile.py:48-55 | those bytes, in groups, give the hex "E6B58B", "E8AF95", "5769" and "4669" |
| ProfileExamples.SsidHexFixture | tests/domain/test_profile.py:48-55 | the fixture itself: `ssid_hex` of "测试WiFi" is "E6B58BE8AF9557694669" |
| ProfileExamples.ToDictExample | tests/domain/test_profile.py:57-67 | the dictionary of the MANUAL fixture has "manual" for the mode and the other fields as given |
| NetworkList.WiFiNetworkList.IsEmpty | src/NetshTool/domain/network_list.py:17-19 | empty iff the list has length 0 |
| NetworkList.WiFiNetworkList.Contains | src/NetshTool/domain/network_list.py:21-23 | holds iff some entry equals the name |
| NetworkList.ContainsFrom | src/NetshTool/domain/network_list.py:21-23 | `name in xs` holds iff some position of `xs` holds the name |
| NetworkList.EmptyContainsNothing | src/NetshTool/domain/network_list.py:17-23 | an empty list contains no name |
| NetworkList.ContainsAppend | src/NetshTool/domain/network_list.py:21-23 | a concatenation contains a name iff one of its parts does |
| NetshExecutor.Classify | src/NetshTool/infrastructure/netsh_executor.py:123-134 | a label fills the interface name iff it is "name" or "名称", the state iff "state" or "状态", the SSID iff it starts with "ssid", and the profile iff "profile" or "配置文件"; the label sets do not overlap, so the order of the tests does not matter |
| NetshExecutor.LineRead | src/NetshTool/infrastructure/netsh_executor.py:114-134 | definition (no contract of its own) of what one line gives the status: a field and a non-empty value, or nothing; characterised by FirstColonSplits and Classify |
| NetshExecutor.StatusOf | src/NetshTool/infrastructure/netsh_executor.py:106-138 | definition (no contract of its own): every line's read applied in order to the empty status; characterised by LastMatchWins, and the loop is proved equal to it by ParseInterfaceStatus |
| NetshExecutor.LineEntry | src/NetshTool/infrastructure/netsh_executor.py:114-119 | a line is skipped iff its stripped form has no colon |
| NetshExecutor.FirstColonSplits | src/NetshTool/infrastructure/netsh_executor.py:114-119 | a line `head:rest`, with no colon in `head`, reads as the stripped, lower-cased `head` and the stripped `rest`; later colons stay in the value |
| NetshExecutor.ParseInterfaceStatus | src/NetshTool/infrastructure/netsh_executor.py:106-138 | the loop over `splitlines()` gives the status that folding the line reads over the empty status gives |
| NetshExecutor.ApplyField | src/NetshTool/infrastructure/netsh_executor.py:123-134 | a line that matches sets the one field its label names and leaves the other three |
| NetshExecutor.LastReadWins | src/NetshTool/infrastructure/netsh_executor.py:113-138 | a status field is `None` iff no read gives it a value; otherwise it holds the value of the last read that does |
| NetshExecutor.LastReadIsKept | src/NetshTool/infrastructure/netsh_executor.py:113-138 | the value of the last read giving a field a value is the field's final value |
| NetshExecutor.LastMatchWins | src/NetshTool/infrastructure/netsh_executor.py:113-138 | the same over lines: a field is `None` iff no line gives it a non-empty value, otherwise it holds the last such value |
| NetshExecutor.LastMatchIsKept | src/NetshTool/infrastructure/netsh_executor.py:113-138 | the last line giving a field a value decides it |
| NetshExecutor.NoMatchNoStatus | src/NetshTool/infrastructure/netsh_executor.py:108-138 | text with no matching line gives all four fields `None` |
| NetshExecutor.BssidIsNotSsid | src/NetshTool/infrastructure/netsh_executor.py:129-131 | "bssid" gives no field, while any label that starts with "ssid" fills the SSID |
| NetshExecutor.GetInterfaceStatus | src/NetshTool/infrastructure/netsh_executor.py:98-104 | the status is the one parsed from the command's output; a failed command with no output gives the empty status, as parsing empty text does |
| NetshExecutor.ExtractValue | src/NetshTool/infrastructure/netsh_executor.py:84-96 | the loop with its early return gives the first keyed value of the output's lines |
| NetshExecutor.FirstValue | src/NetshTool/infrastructure/netsh_executor.py:84-96 | definition (no contract of its own): the first keyed value among the lines; characterised by FirstMatchWins |
| NetshExecutor.FirstMatchWins | src/NetshTool/infrastructure/netsh_executor.py:84-96 | `_extract_value` is `None` iff no line has a key in `keys` and a non-empty value; otherwise it is the value of the first such line |
| NetshExecutor.NameKeysAgree | src/NetshTool/infrastructure/netsh_executor.py:84-96 | on one line, looking up {"name","名称"} gives what the status reader puts in the interface name |
| NetshExecutor.FirstAndLastDiffer | src/NetshTool/infrastructure/netsh_executor.py:84-138 | with two name lines, `_extract_value` returns the first value and the status reader keeps the second |
| NetshExecutor.IsConnectedState | src/NetshTool/infrastructure/netsh_executor.py:140-145 | `_is_connected_state`: false for a missing state; otherwise true iff the lower-cased state contains "connected" or the state contains "已连接", so stripping changes nothing |
| NetshExecutor.IsConnectedTo | src/NetshTool/infrastructure/netsh_executor.py:147-155 | definition (no contract of its own): the state passes the connected test and the profile or the SSID equals the name; compared with `connect`'s check by AlreadyConnectedIsConnectedTo |
| NetshExecutor.ContainingConnected | src/NetshTool/infrastructure/netsh_executor.py:140-145 | any state with "connected" inside it passes |
| NetshExecutor.ConnectedCounts | src/NetshTool/infrastructure/netsh_executor.py:140-145 | "connected" passes |
| NetshExecutor.DisconnectedCountsAsConnected | src/NetshTool/infrastructure/netsh_executor.py:140-145 | "disconnected" passes as well; a missing state does not |
| NetshExecutor.ChineseConnectedCounts | src/NetshTool/infrastructure/netsh_executor.py:140-145 | "已连接" passes |
| NetshExecutor.AlreadyConnectedIsConnectedTo | src/NetshTool/infrastructure/netsh_executor.py:147-155 | `connect`'s pre-check and `is_connected_to` are the same decision: the state is connected and the profile or the SSID equals the name |
| NetshExecutor.FormatKvArg | src/NetshTool/infrastructure/netsh_executor.py:157-161 | the argument starts with `key=` |
| NetshExecutor.QuotedIffSpace | src/NetshTool/infrastructure/netsh_executor.py:157-161 | the argument is `key="value"` iff the value holds a whitespace character, and `key=value` otherwise |
| NetshExecutor.KvArgRoundTrip | src/NetshTool/infrastructure/netsh_executor.py:157-161 | when the key has no `=` and an unspaced value is not already quoted, the argument reads back as the key and the value |
| NetshExecutor.ShowProfiles | src/NetshTool/infrastructure/netsh_executor.py:163-185 | a failed command gives `(false, [])`; otherwise `true` and the names that the `"\n"`-split lines carry, in line order |
| NetshExecutor.ProfileName | src/NetshTool/infrastructure/netsh_executor.py:174-181 | definition (no contract of its own) of what one line contributes to `show_profiles`; characterised by ProfileNameIff |
| NetshExecutor.ProfileNames | src/NetshTool/infrastructure/netsh_executor.py:172-181 | definition (no contract of its own): the names the lines carry, in line order; characterised by ProfileNamesMembers and ProfileNamesAppend |
| NetshExecutor.ProfileNameAfterFirstColon | src/NetshTool/infrastructure/netsh_executor.py:176-181 | a carried name is the stripped text after the line's first colon; it is never empty and has no whitespace at its ends |
| NetshExecutor.ProfileNameIff | src/NetshTool/infrastructure/netsh_executor.py:174-181 | a line carries `v` iff its stripped form contains "所有用户配置文件" or "All User Profile" anywhere and has a colon, and `v` is the non-empty stripped text after the first colon |
| NetshExecutor.ProfileLine | src/NetshTool/infrastructure/netsh_executor.py:175-181 | a line whose label holds "所有用户配置文件" or "All User Profile" carries the stripped text after its colon, unless that text is empty |
| NetshExecutor.MarkerSurvives | src/NetshTool/infrastructure/netsh_executor.py:174-175 | a marker in the label is still found after the line is stripped |
| NetshExecutor.ProfileNamesAppend | src/NetshTool/infrastructure/netsh_executor.py:172-181 | the names of consecutive blocks of lines come out block after block |
| NetshExecutor.ProfileNamesMembers | src/NetshTool/infrastructure/netsh_executor.py:172-181 | a name is listed iff some line carries it |
| NetshExecutor.ConnectCommand | src/NetshTool/infrastructure/netsh_executor.py:311-320 | the command is `netsh wlan connect` and the formatted `name=` argument, followed by the formatted `interface=` argument exactly when the interface name is known |
| NetshExecutor.Connect | src/NetshTool/infrastructure/netsh_executor.py:296-342 | no command is issued when the pre-status is connected to the name; otherwise the command quotes the name and adds the interface when known. Success iff already connected, or some poll sees the connection, or the command succeeded. The message is the success text, or the failure text with the output and the final status |
| NetshExamples.RowEntry | tests/infrastructure/test_profile_xml_generator.py:71-112 | an indented, padded `label : value` row of the listings reads as the lower-cased label and the value |
| NetshExamples.KnownRow | tests/infrastructure/test_profile_xml_generator.py:71-112 | a row whose label names a field fills that field with the value |
| NetshExamples.OtherRow | tests/infrastructure/test_profile_xml_generator.py:71-112 | a row with a label the reader does not know gives nothing |
| NetshExamples.ChineseStatus | tests/infrastructure/test_profile_xml_generator.py:71-91 | any thirteen lines that read as the Chinese fixture's rows do (which the per-row lemmas establish for rows of any indent and padding) give the name "Wi-Fi", the state "已连接", the SSID and profile "7-1客厅_5G", and the state counts as connected |
| NetshExamples.EnglishStatus | tests/infrastructure/test_profile_xml_generator.py:93-112 | any thirteen lines that read as the English fixture's rows do (established per row for any indent and padding) give "Wi-Fi", "connected" and "MyWifi" twice, and the state counts as connected |
| Xml.FirstIndex | src/NetshTool/infrastructure/profile_xml_parser.py:39 | the position found holds the tag and no earlier position does; it is the length when none does |
| Xml.FirstWithTag | src/NetshTool/infrastructure/profile_xml_parser.py:39 | `None` iff no element has the tag; otherwise an element of the list with that tag |
| Xml.FindChild | src/NetshTool/infrastructure/profile_xml_parser.py:39 | `find(tag)` is `None` iff no direct child has the tag; otherwise a child with that tag |
| Xml.FirstWithTagAppend | src/NetshTool/infrastructure/profile_xml_parser.py:39 | the first match in `a + b` is the first in `a`, or failing that the first in `b` |
| Xml.FindDescendant | src/NetshTool/infrastructure/profile_xml_parser.py:53 | `find(".//tag")`: whatever is found has the tag; FindDescendantIsFirst says which element it is |
| Xml.FindDescendantIsFirst | src/NetshTool/infrastructure/profile_xml_parser.py:53 | `find(".//tag")` is the first element with the tag among the descendants in document order |
| Xml.FindDescendantNone | src/NetshTool/infrastructure/profile_xml_parser.py:53 | the search is `None` iff no descendant has the tag |
| Xml.ChildFoundByDescendant | src/NetshTool/infrastructure/profile_xml_parser.py:53 | `.//` also finds direct children |
| Xml.FindDescendantAt | src/NetshTool/infrastructure/profile_xml_parser.py:53 | the search passes over the children that hold no match and stops at the first one that does |
| Xml.Resolve | src/NetshTool/infrastructure/profile_xml_generator.py:47 | when read back, an element with an `xmlns` attribute takes that namespace, and gives it to its subtree; otherwise it inherits the namespace in scope; the attribute is dropped; an empty text reads back as none |
| ProfileXmlGenerator.BoolText | src/NetshTool/infrastructure/profile_xml_generator.py:73 | `str(b).lower()` is "true" or "false", and "true" exactly when `b` |
| ProfileXmlGenerator.ProfileTree | src/NetshTool/infrastructure/profile_xml_generator.py:46-101 | definition (no contract of its own) of the tree `generate_xml` builds, with the namespaces of its two parts and their `xmlns` declarations as parameters; its shape and texts are stated by the Generated* lemmas |
| ProfileXmlGenerator.ProfileDocument | src/NetshTool/infrastructure/profile_xml_generator.py:46-101 | definition (no contract of its own): the tree as built, with plain tags and the v1 and v3 `xmlns` declarations; stated by GeneratedRoot and the Generated* lemmas |
| ProfileXmlGenerator.GeneratedRoot | src/NetshTool/infrastructure/profile_xml_generator.py:46-100 | the root is `WLANProfile` with `xmlns` set to the v1 namespace; its children are, in order, name, SSIDConfig, connectionType, connectionMode, autoSwitch, MSM, MacRandomization |
| ProfileXmlGenerator.GeneratedName | src/NetshTool/infrastructure/profile_xml_generator.py:50-51 | the `name` child's text is the profile name |
| ProfileXmlGenerator.SsidConfigTexts | src/NetshTool/infrastructure/profile_xml_generator.py:54-61 | `SSID/hex` is the `ssid_hex`, `SSID/name` is the name, and `nonBroadcast` is "false" |
| ProfileXmlGenerator.GeneratedSsidConfig | src/NetshTool/infrastructure/profile_xml_generator.py:54-61 | paths under the root's `SSIDConfig` child lead where they lead in the SSIDConfig subtree |
| ProfileXmlGenerator.GeneratedConnection | src/NetshTool/infrastructure/profile_xml_generator.py:64-69 | `connectionType` is "ESS"; `connectionMode` is the mode's value |
| ProfileXmlGenerator.GeneratedAutoSwitch | src/NetshTool/infrastructure/profile_xml_generator.py:72-73 | `autoSwitch` is "true" or "false" as the flag is |
| ProfileXmlGenerator.GeneratedMsm | src/NetshTool/infrastructure/profile_xml_generator.py:76-95 | paths under the root's `MSM` child lead where they lead in the MSM subtree |
| ProfileXmlGenerator.AuthEncryptionTexts | src/NetshTool/infrastructure/profile_xml_generator.py:80-86 | under `security/authEncryption`: `authentication` and `encryption` are the enum values, and `useOneX` is "false" |
| ProfileXmlGenerator.SharedKeyTexts | src/NetshTool/infrastructure/profile_xml_generator.py:89-95 | under `security/sharedKey`: `keyType` is "passPhrase", `protected` is "false", and `keyMaterial` is the password |
| ProfileXmlGenerator.GeneratedMacRandomization | src/NetshTool/infrastructure/profile_xml_generator.py:98-101 | `MacRandomization` declares the v3 namespace, and its `enableRandomization` is "true" or "false" as the flag is |
| ProfileXmlGenerator.ReadBackIsResolved | src/NetshTool/infrastructure/profile_xml_generator.py:46-101 | reading back the generated tree of a profile with a non-empty name and password gives the same tree, with every element in the v1 namespace except the MacRandomization subtree, which is in v3 |
| ProfileXmlGenerator.LeafReadsBack | src/NetshTool/infrastructure/profile_xml_generator.py:50-51 | a plain leaf with a non-empty text reads back in the namespace in scope, with its text |
| ProfileXmlGenerator.MacRandomizationReadsBack | src/NetshTool/infrastructure/profile_xml_generator.py:98-101 | the `MacRandomization` subtree reads back in the v3 namespace, without the `xmlns` attribute |
| ProfileXmlParser.ParseWith | src/NetshTool/infrastructure/profile_xml_parser.py:26-109 | malformed text, a missing `name` or a missing v1 `keyMaterial` gives `None`. Otherwise the result is a profile iff the mode text names a mode, the name text is not blank and the password text has at least 8 characters. A result is always valid, and its name and password are the elements' texts (`""` when there is no text) |
| ProfileXmlParser.ParseXml | src/NetshTool/infrastructure/profile_xml_parser.py:26-109 | definition (no contract of its own): `parse_xml` as written, ParseWith with plain direct lookups |
| ProfileXmlParser.ParseXmlCorrected | src/NetshTool/infrastructure/profile_xml_parser.py:26-109 | definition (no contract of its own): ParseWith with v1-qualified direct lookups |
| ProfileXmlParser.EmptyTextIsRejected | src/NetshTool/infrastructure/profile_xml_parser.py:91-109 | a `name` without text gives an empty name, and the result is `None` rather than an exception |
| ProfileXmlParser.ParsedConnectionMode | src/NetshTool/infrastructure/profile_xml_parser.py:46-50 | an absent `connectionMode` gives AUTO, and an empty text reads as "auto"; a found text is the mode's value; a text other than "auto"/"manual" makes the result `None` |
| ProfileXmlParser.ParsedAuthentication | src/NetshTool/infrastructure/profile_xml_parser.py:53-60 | an absent `authentication` gives WPA2PSK; a found text that names a member gives it, and any other text gives WPA2PSK |
| ProfileXmlParser.ParsedEncryption | src/NetshTool/infrastructure/profile_xml_parser.py:63-70 | the same for `encryption`, with AES as the fallback |
| ProfileXmlParser.ParsedEnums | src/NetshTool/infrastructure/profile_xml_parser.py:53-70 | a parsed profile carries those two lookups' results |
| ProfileXmlParser.ParsedFlags | src/NetshTool/infrastructure/profile_xml_parser.py:73-89 | `autoSwitch` is set iff the element is present with text exactly "true"; `enableRandomization` is set iff the element is absent or its text is exactly "true" |
| ProfileXmlParser.QualifiedChildrenHideName | src/NetshTool/infrastructure/profile_xml_parser.py:39-42 | when every child of the root has a namespace, the unqualified `find("name")` misses and the result is `None` |
| ProfileXmlParser.ParseReadsFields | src/NetshTool/infrastructure/profile_xml_parser.py:39-102 | a tree in which every lookup finds an element whose text spells the matching field of a valid profile parses to exactly that profile |
| ProfileXmlRoundTrip.ReadBackNamespaces | src/NetshTool/infrastructure/profile_xml_generator.py:46-99 | the generated document, read back, has a v1 `WLANProfile` root with seven children; the first six are in v1 and the last is the v3 `MacRandomization` |
| ProfileXmlRoundTrip.ReadBackFindsChildren | src/NetshTool/infrastructure/profile_xml_parser.py:39-76 | in the read-back document, the v1 direct children `name`, `connectionMode` and `autoSwitch` carry the name, the mode value and the flag text |
| ProfileXmlRoundTrip.ReadBackFindsAuthentication | src/NetshTool/infrastructure/profile_xml_parser.py:53 | the v1 `.//authentication` search finds the generated leaf with the authentication value |
| ProfileXmlRoundTrip.ReadBackFindsEncryption | src/NetshTool/infrastructure/profile_xml_parser.py:63 | the v1 `.//encryption` search finds the encryption value |
| ProfileXmlRoundTrip.ReadBackFindsKeyMaterial | src/NetshTool/infrastructure/profile_xml_parser.py:79 | the v1 `.//keyMaterial` search finds the password |
| ProfileXmlRoundTrip.ReadBackFindsV3 | src/NetshTool/infrastructure/profile_xml_parser.py:87 | the v3 `.//enableRandomization` search finds the flag text |
| ProfileXmlRoundTrip.GeneratedIsNotParsed | src/NetshTool/infrastructure/profile_xml_parser.py:39 | the parser as written returns `None` on the read-back output of any profile with a non-empty name and password |
| ProfileXmlRoundTrip.CorrectedRoundTrip | src/NetshTool/infrastructure/profile_xml_parser.py:26-102 | with v1-qualified direct lookups, reading back the generated document of any valid profile gives that profile again |
| ProfileXmlRoundTrip.CorrectedReadsBack | src/NetshTool/infrastructure/profile_xml_parser.py:26-102 | the corrected parser reads the v1-qualified profile tree back to the profile |
| Text.Strip | src/NetshTool/infrastructure/netsh_executor.py:114 | definition (no contract of its own) of `str.strip()`; characterised by StripUnique |
| Text.Lower | src/NetshTool/infrastructure/netsh_executor.py:118 | `str.lower()` keeps the length and maps each character to its lower-case form (ASCII letters) |
| Text.Contains | src/NetshTool/infrastructure/netsh_executor.py:144 | `w in s` holds iff `w` occurs at some position of `s` |
| Text.StartsWith | src/NetshTool/infrastructure/netsh_executor.py:129 | definition (no contract of its own) of `s.startswith(w)`: `w` is a prefix of `s` |
| Text.SplitLines | src/NetshTool/infrastructure/netsh_executor.py:113 | no line `splitlines()` returns contains a line boundary; SplitLinesJoin shows it inverts joining |
| Text.SplitOn | src/NetshTool/infrastructure/netsh_executor.py:174-177 | `split(sep)` returns at least one part; JoinSplit shows `join` inverts it |
| Text.Join | src/NetshTool/infrastructure/netsh_executor.py:179 | definition (no contract of its own) of `sep.join(parts)`; JoinSplit relates it to SplitOn |
| Text.StripUnique | src/NetshTool/infrastructure/netsh_executor.py:114 | `strip()` removes exactly the leading and trailing whitespace: when `s[..i]` and `s[j..]` are whitespace and `s[i]`, `s[j-1]` are not, the result is `s[i..j]` |
| Text.StripEmptyIff | src/NetshTool/infrastructure/netsh_executor.py:115 | a line strips to nothing iff it is all whitespace |
| Text.StripAround | src/NetshTool/infrastructure/netsh_executor.py:114-119 | stripping `a + c + b`, for a non-space `c`, strips only the front of `a` and the back of `b` |
| Text.ContainsStrip | src/NetshTool/infrastructure/netsh_executor.py:140-145 | a word that neither starts nor ends with whitespace occurs in the stripped text iff it occurs in the text |
| Text.StripIdempotent | src/NetshTool/infrastructure/netsh_executor.py:114 | stripping twice is stripping once |
| Text.LowerStrip | src/NetshTool/infrastructure/netsh_executor.py:144 | lower-casing and stripping commute |
| Text.JoinSplit | src/NetshTool/infrastructure/netsh_executor.py:178-179 | joining the `split(sep)` parts with `sep` gives back the text |
| Text.SplitTailIsAfter | src/NetshTool/infrastructure/netsh_executor.py:178-179 | `":".join(parts[1:])` is the text after the first colon |
| Text.SplitLinesJoin | src/NetshTool/infrastructure/netsh_executor.py:113 | `splitlines` of lines joined with newlines gives back the lines, when none contains a line boundary and the last is not empty |

## Left out

- `_run_command` and `_decode_output`: process launch, the exit status and byte decoding through the gbk, gb2312 and cp936 codecs. The command's result is an input, and the model sees only the decoded text.
- `connect`'s timing: `time.sleep` and the 15-second `time.monotonic` deadline. The statuses observed before the deadline are the finite input `polls`, in order. The statuses that `connect` reads are inputs too.
- NetshExamples.ChineseStatus / EnglishStatus: the fixture text itself is not instantiated. The per-row lemmas show that rows of any indent and padding read as the fixture's rows do. The status lemmas take any thirteen lines with those reads. The two are not composed on the fixture's concrete thirteen rows, and the fixture's `.strip()`/`splitlines()` of the whole listing is not modelled.
- `ProfileXmlGenerator._prettify` and `ET.fromstring`. Serialisation and parsing are not modelled as text. Instead, `Xml.Resolve` gives the namespaces and empty texts that a namespace-aware reader assigns, and a `ParseError` is the input case `XmlInput.Malformed`.
- ProfileXmlRoundTrip.CorrectedRoundTrip: every leaf text is assumed to read back unchanged after `tostring`, `minidom` and `fromstring`. That is not so for every valid profile. An XML parser turns `\r` and `\r\n` in a text into `\n`, so the password "abcdefg\rh" would read back as "abcdefg\nh". A character XML does not allow (such as U+0001) in the name or the password makes `minidom.parseString` raise, so `generate_xml` itself fails. The round trip holds at the level of the tree only.
- `ProfileXmlGenerator.ProfileDocument`: the tree is built as a value. The step-by-step `SubElement` calls, which mutate the root while each node's `.text` is assigned after creation, are not modelled. Only the finished tree is, so the model does not capture the order of those updates or aliasing between nodes.
- The whitespace texts that pretty-printing adds inside container elements are not modelled. None of the parser's lookups read the text of a container.
- Text.Lower: `str.lower` is modelled on the ASCII letters only. The source lower-cases only labels, which it then compares with ASCII or CJK words (which have no case), and the "connected" test. NetshExecutor.IsConnectedState states the test over this lower-casing.
- `NetshExecutor.ParseKvArg` is a reference reader, used to state that the quoting is reversible. It does not exist in the source.
- Exceptions other than those the source catches or raises in the modelled code are not modelled. The parser's broad `except Exception` is modelled only for the enum lookup and the validation error.
- `export_profile`, `add_profile`, `delete_profile`, `delete_all_profiles` and `disconnect`: these only build a command and report the result, and they are not part of this model.
- `application/wifi_service.py`, the window, the entry points, the paths module, the build script and all logging are not part of this model.

## Findings

| source | as written | input that shows it | evidently intended | confidence | as-written member | corrected member |
|---|---|---|---|---|---|---|
| src/NetshTool/infrastructure/profile_xml_parser.py:39 | the parser looks up `name` (and `connectionMode`, `autoSwitch` at lines 47 and 74) as unqualified direct children. The generator's root declares the v1 default namespace (src/NetshTool/infrastructure/profile_xml_generator.py:47), so on read-back every such child is v1-qualified | any valid profile, e.g. `WiFiProfile("TestWiFi", "password123")`: its generated XML parses to `None` because `find("name")` misses | look up the direct children in the v1 namespace, as the `.//` searches do, so that parsing the generated XML gives back the profile | not executed | ProfileXmlRoundTrip.GeneratedIsNotParsed | ProfileXmlRoundTrip.CorrectedRoundTrip |
