/** `ProfileXmlGenerator.generate_xml`: the Windows WLAN profile element tree built from a
    profile, up to (not including) its serialisation by `_prettify`. */
module ProfileXmlGenerator {
  import opened Wrappers
  import opened Xml
  import opened Profile

  const NamespaceV1 := "http://www.microsoft.com/networking/WLAN/profile/v1"
  const NamespaceV3 := "http://www.microsoft.com/networking/WLAN/profile/v3"

  /** `str(flag).lower()` */
  function BoolText(b: bool): (s: string)
    ensures s == "true" || s == "false"
    ensures s == "true" <==> b
  {
    if b then "true" else "false"
  }

  /** An element with a text and no children, as a `SubElement` followed by `.text = …` leaves it. */
  function Leaf(ns: Option<string>, tag: string, text: string): Element
  {
    Element(QName(ns, tag), map[], Some(text), [])
  }

  /** An element given children and no text. */
  function Container(ns: Option<string>, tag: string, children: seq<Element>): Element
  {
    Element(QName(ns, tag), map[], None, children)
  }

  /** The WLAN profile tree with the elements, texts and order `generate_xml` gives it. Every
      tag is in namespace `ns1` except the two of the MacRandomization subtree, which are in
      `ns3`; `decl1` and `decl3` are the attributes of the root and of MacRandomization. */
  function ProfileTree(p: WiFiProfile, ns1: Option<string>, ns3: Option<string>,
                       decl1: map<string, string>, decl3: map<string, string>): Element
  {
    Element(QName(ns1, "WLANProfile"), decl1, None, [
      Leaf(ns1, "name", p.name),
      SsidConfig(p, ns1),
      Leaf(ns1, "connectionType", "ESS"),
      Leaf(ns1, "connectionMode", p.connectionMode.Value()),
      Leaf(ns1, "autoSwitch", BoolText(p.autoSwitch)),
      Msm(p, ns1),
      MacRandomization(ns3, decl3, p.enableRandomization)])
  }

  function SsidConfig(p: WiFiProfile, ns: Option<string>): Element
  {
    Container(ns, "SSIDConfig", [
      Container(ns, "SSID", [Leaf(ns, "hex", SsidHex(p.name)), Leaf(ns, "name", p.name)]),
      Leaf(ns, "nonBroadcast", "false")])
  }

  function Msm(p: WiFiProfile, ns: Option<string>): Element
  {
    Container(ns, "MSM", [
      Container(ns, "security", [
        Container(ns, "authEncryption", [
          Leaf(ns, "authentication", p.authenticationType.Value()),
          Leaf(ns, "encryption", p.encryptionType.Value()),
          Leaf(ns, "useOneX", "false")]),
        Container(ns, "sharedKey", [
          Leaf(ns, "keyType", "passPhrase"),
          Leaf(ns, "protected", "false"),
          Leaf(ns, "keyMaterial", p.password)])])])
  }

  /** The tree `generate_xml` hands to `_prettify`: plain tags, with the v1 namespace declared
      on the root and the v3 namespace on MacRandomization. */
  function ProfileDocument(p: WiFiProfile): Element
  {
    ProfileTree(p, None, None, map[XmlnsAttribute := NamespaceV1], map[XmlnsAttribute := NamespaceV3])
  }

  /** The same tree as a namespace-aware reader sees it: every tag qualified. */
  function ReadBackDocument(p: WiFiProfile): Element
  {
    ProfileTree(p, Some(NamespaceV1), Some(NamespaceV3), map[], map[])
  }

  /** A plain tag, as `SubElement(parent, tag)` gives it. */
  function Plain(local: string): QName
  {
    QName(None, local)
  }

  // ---------------------------------------------------------------------------
  // What a namespace-aware reader makes of the serialised tree

  /** A leaf below a v1 or v3 declaration reads back in that namespace, its text intact. */
  lemma LeafReadsBack(ns: string, tag: string, text: string)
    requires ns != "" && text != ""
    ensures Resolve(Leaf(None, tag, text), Some(ns)) == Leaf(Some(ns), tag, text)
  {
    var none: map<string, string> := map[];
    assert none - {XmlnsAttribute} == none;
  }

  /** A container without a declaration of its own reads back in the namespace in scope. */
  lemma ContainerReadsBack(ns: string, tag: string, children: seq<Element>)
    ensures Resolve(Container(None, tag, children), Some(ns)) == Container(Some(ns), tag, ResolveAll(children, Some(ns)))
  {
    var none: map<string, string> := map[];
    assert none - {XmlnsAttribute} == none;
  }

  lemma SsidConfigReadsBack(p: WiFiProfile)
    requires p.name != []
    ensures Resolve(SsidConfig(p, None), Some(NamespaceV1)) == SsidConfig(p, Some(NamespaceV1))
  {
    var v1 := NamespaceV1;
    SsidHexIsUpperHexOfUtf8(p.name);
    LeafReadsBack(v1, "hex", SsidHex(p.name));
    LeafReadsBack(v1, "name", p.name);
    LeafReadsBack(v1, "nonBroadcast", "false");
    var ssid := [Leaf(None, "hex", SsidHex(p.name)), Leaf(None, "name", p.name)];
    ContainerReadsBack(v1, "SSID", ssid);
    assert ResolveAll(ssid, Some(v1)) == [Leaf(Some(v1), "hex", SsidHex(p.name)), Leaf(Some(v1), "name", p.name)];
    var config := [Container(None, "SSID", ssid), Leaf(None, "nonBroadcast", "false")];
    ContainerReadsBack(v1, "SSIDConfig", config);
    assert ResolveAll(config, Some(v1)) == SsidConfig(p, Some(v1)).children;
  }

  lemma MsmReadsBack(p: WiFiProfile)
    requires p.password != []
    ensures Resolve(Msm(p, None), Some(NamespaceV1)) == Msm(p, Some(NamespaceV1))
  {
    var v1 := NamespaceV1;
    var plain, read := Msm(p, None), Msm(p, Some(v1));
    var auth, key := plain.children[0].children[0], plain.children[0].children[1];
    LeafReadsBack(v1, "authentication", p.authenticationType.Value());
    LeafReadsBack(v1, "encryption", p.encryptionType.Value());
    LeafReadsBack(v1, "useOneX", "false");
    ContainerReadsBack(v1, "authEncryption", auth.children);
    assert ResolveAll(auth.children, Some(v1)) == read.children[0].children[0].children;
    LeafReadsBack(v1, "keyType", "passPhrase");
    LeafReadsBack(v1, "protected", "false");
    LeafReadsBack(v1, "keyMaterial", p.password);
    ContainerReadsBack(v1, "sharedKey", key.children);
    assert ResolveAll(key.children, Some(v1)) == read.children[0].children[1].children;
    ContainerReadsBack(v1, "security", plain.children[0].children);
    assert ResolveAll(plain.children[0].children, Some(v1)) == read.children[0].children;
    ContainerReadsBack(v1, "MSM", plain.children);
  }

  function MacRandomization(ns: Option<string>, decl: map<string, string>, enable: bool): Element
  {
    Element(QName(ns, "MacRandomization"), decl, None, [Leaf(ns, "enableRandomization", BoolText(enable))])
  }

  /** Re-reading the serialised tree puts every element in the v1 namespace the root declares,
      except MacRandomization and its child, which are in the v3 namespace it declares itself,
      and drops both declarations; no text is lost, since none of them is empty. */
  lemma ReadBackIsResolved(p: WiFiProfile)
    requires p.name != [] && p.password != []
    ensures Resolve(ProfileDocument(p), None) == ReadBackDocument(p)
  {
    var v1 := NamespaceV1;
    RootReadsBack(p);
    var cs, rs := ProfileDocument(p).children, ReadBackDocument(p).children;
    forall i | 0 <= i < |cs| ensures Resolve(cs[i], Some(v1)) == rs[i] {
      if i == 0 { NameReadsBack(p); }
      else if i == 1 { SsidConfigChildReadsBack(p); }
      else if i == 2 { ConnectionTypeReadsBack(p); }
      else if i == 3 { ConnectionModeReadsBack(p); }
      else if i == 4 { AutoSwitchReadsBack(p); }
      else if i == 5 { MsmChildReadsBack(p); }
      else { MacRandomizationChildReadsBack(p); }
    }
    ResolveAllPointwise(ProfileDocument(p).children, Some(v1), ReadBackDocument(p).children);
  }

  lemma RootReadsBack(p: WiFiProfile)
    ensures Resolve(ProfileDocument(p), None)
            == Element(QName(Some(NamespaceV1), "WLANProfile"), map[], None, ResolveAll(ProfileDocument(p).children, Some(NamespaceV1)))
  {
    var decl := map[XmlnsAttribute := NamespaceV1];
    assert decl - {XmlnsAttribute} == map[];
  }

  lemma NameReadsBack(p: WiFiProfile)
    requires p.name != []
    ensures ResolveAll(ProfileDocument(p).children, Some(NamespaceV1))[0] == ReadBackDocument(p).children[0]
  {
    LeafReadsBack(NamespaceV1, "name", p.name);
  }

  lemma SsidConfigChildReadsBack(p: WiFiProfile)
    requires p.name != []
    ensures ResolveAll(ProfileDocument(p).children, Some(NamespaceV1))[1] == ReadBackDocument(p).children[1]
  {
    SsidConfigReadsBack(p);
  }

  lemma ConnectionTypeReadsBack(p: WiFiProfile)
    ensures ResolveAll(ProfileDocument(p).children, Some(NamespaceV1))[2] == ReadBackDocument(p).children[2]
  {
    LeafReadsBack(NamespaceV1, "connectionType", "ESS");
  }

  lemma ConnectionModeReadsBack(p: WiFiProfile)
    ensures ResolveAll(ProfileDocument(p).children, Some(NamespaceV1))[3] == ReadBackDocument(p).children[3]
  {
    LeafReadsBack(NamespaceV1, "connectionMode", p.connectionMode.Value());
  }

  lemma AutoSwitchReadsBack(p: WiFiProfile)
    ensures ResolveAll(ProfileDocument(p).children, Some(NamespaceV1))[4] == ReadBackDocument(p).children[4]
  {
    LeafReadsBack(NamespaceV1, "autoSwitch", BoolText(p.autoSwitch));
  }

  lemma MsmChildReadsBack(p: WiFiProfile)
    requires p.password != []
    ensures ResolveAll(ProfileDocument(p).children, Some(NamespaceV1))[5] == ReadBackDocument(p).children[5]
  {
    MsmReadsBack(p);
  }

  lemma MacRandomizationChildReadsBack(p: WiFiProfile)
    ensures ResolveAll(ProfileDocument(p).children, Some(NamespaceV1))[6] == ReadBackDocument(p).children[6]
  {
    MacRandomizationReadsBack(p.enableRandomization);
  }

  lemma MacRandomizationReadsBack(enable: bool)
    ensures Resolve(MacRandomization(None, map[XmlnsAttribute := NamespaceV3], enable), Some(NamespaceV1))
            == MacRandomization(Some(NamespaceV3), map[], enable)
  {
    var v3 := NamespaceV3;
    LeafReadsBack(v3, "enableRandomization", BoolText(enable));
    var decl := map[XmlnsAttribute := v3];
    assert decl - {XmlnsAttribute} == map[];
  }

  // ---------------------------------------------------------------------------
  // The shape and texts of the generated tree

  /** The root is WLANProfile, declaring the v1 namespace, and its children come in the order
      `generate_xml` appends them. */
  lemma GeneratedRoot(p: WiFiProfile)
    ensures ProfileDocument(p).tag == Plain("WLANProfile")
    ensures ProfileDocument(p).attrib == map[XmlnsAttribute := NamespaceV1]
    ensures ChildTags(ProfileDocument(p)) == [Plain("name"), Plain("SSIDConfig"), Plain("connectionType"),
      Plain("connectionMode"), Plain("autoSwitch"), Plain("MSM"), Plain("MacRandomization")]
  {
  }

  /** Every root child is found by its tag, in the tree as written and as read back alike:
      no two of them share a local name. */
  lemma RootChildFound(p: WiFiProfile, ns1: Option<string>, ns3: Option<string>,
                       decl1: map<string, string>, decl3: map<string, string>, k: nat)
    requires k < 7
    ensures var root := ProfileTree(p, ns1, ns3, decl1, decl3);
      FindChild(root, root.children[k].tag) == Some(root.children[k])
  {
    var cs := ProfileTree(p, ns1, ns3, decl1, decl3).children;
    FirstWithTagAt(cs, cs[k].tag, k);
  }

  /** `name` holds the profile name. */
  lemma GeneratedName(p: WiFiProfile)
    ensures FindPath(ProfileDocument(p), [Plain("name")]) == Some(Leaf(None, "name", p.name))
  {
    var doc := ProfileDocument(p);
    RootChildFound(p, None, None, doc.attrib, map[XmlnsAttribute := NamespaceV3], 0);
    FindPathStep(doc, Plain("name"), [], doc.children[0]);
  }

  /** Within SSIDConfig, SSID/hex holds the hex form of the name, SSID/name the name itself,
      and nonBroadcast is always "false". */
  lemma SsidConfigTexts(p: WiFiProfile, ns: Option<string>)
    ensures FindPath(SsidConfig(p, ns), [QName(ns, "SSID"), QName(ns, "hex")]) == Some(Leaf(ns, "hex", SsidHex(p.name)))
    ensures FindPath(SsidConfig(p, ns), [QName(ns, "SSID"), QName(ns, "name")]) == Some(Leaf(ns, "name", p.name))
    ensures FindPath(SsidConfig(p, ns), [QName(ns, "nonBroadcast")]) == Some(Leaf(ns, "nonBroadcast", "false"))
  {
    var config := SsidConfig(p, ns);
    var ssid := config.children[0];
    FirstWithTagAt(config.children, QName(ns, "SSID"), 0);
    FirstWithTagAt(config.children, QName(ns, "nonBroadcast"), 1);
    FirstWithTagAt(ssid.children, QName(ns, "hex"), 0);
    FirstWithTagAt(ssid.children, QName(ns, "name"), 1);
    FindPathStep(config, QName(ns, "SSID"), [QName(ns, "hex")], ssid);
    FindPathStep(config, QName(ns, "SSID"), [QName(ns, "name")], ssid);
    FindPathStep(ssid, QName(ns, "hex"), [], ssid.children[0]);
    FindPathStep(ssid, QName(ns, "name"), [], ssid.children[1]);
    FindPathStep(config, QName(ns, "nonBroadcast"), [], config.children[1]);
  }

  /** SSIDConfig is reached from the root by its tag. */
  lemma GeneratedSsidConfig(p: WiFiProfile, rest: seq<QName>)
    ensures FindPath(ProfileDocument(p), [Plain("SSIDConfig")] + rest) == FindPath(SsidConfig(p, None), rest)
  {
    var doc := ProfileDocument(p);
    RootChildFound(p, None, None, doc.attrib, map[XmlnsAttribute := NamespaceV3], 1);
    FindPathStep(doc, Plain("SSIDConfig"), rest, doc.children[1]);
  }

  /** connectionType is always "ESS"; connectionMode holds the mode's value. */
  lemma GeneratedConnection(p: WiFiProfile)
    ensures FindPath(ProfileDocument(p), [Plain("connectionType")]) == Some(Leaf(None, "connectionType", "ESS"))
    ensures FindPath(ProfileDocument(p), [Plain("connectionMode")]) == Some(Leaf(None, "connectionMode", p.connectionMode.Value()))
  {
    var doc := ProfileDocument(p);
    RootChildFound(p, None, None, doc.attrib, map[XmlnsAttribute := NamespaceV3], 2);
    RootChildFound(p, None, None, doc.attrib, map[XmlnsAttribute := NamespaceV3], 3);
    FindPathStep(doc, Plain("connectionType"), [], doc.children[2]);
    FindPathStep(doc, Plain("connectionMode"), [], doc.children[3]);
  }

  /** autoSwitch reads "true" exactly when the flag is set, and "false" otherwise. */
  lemma GeneratedAutoSwitch(p: WiFiProfile)
    ensures FindPath(ProfileDocument(p), [Plain("autoSwitch")]) == Some(Leaf(None, "autoSwitch", BoolText(p.autoSwitch)))
  {
    var doc := ProfileDocument(p);
    RootChildFound(p, None, None, doc.attrib, map[XmlnsAttribute := NamespaceV3], 4);
    FindPathStep(doc, Plain("autoSwitch"), [], doc.children[4]);
  }

  /** MSM is reached from the root by its tag. */
  lemma GeneratedMsm(p: WiFiProfile, rest: seq<QName>)
    ensures FindPath(ProfileDocument(p), [Plain("MSM")] + rest) == FindPath(Msm(p, None), rest)
  {
    var doc := ProfileDocument(p);
    RootChildFound(p, None, None, doc.attrib, map[XmlnsAttribute := NamespaceV3], 5);
    FindPathStep(doc, Plain("MSM"), rest, doc.children[5]);
  }

  /** The path from MSM to a leaf of authEncryption. */
  function AuthEncryptionPath(ns: Option<string>, leaf: string): seq<QName>
  {
    [QName(ns, "security"), QName(ns, "authEncryption"), QName(ns, leaf)]
  }

  /** The path from MSM to a leaf of sharedKey. */
  function SharedKeyPath(ns: Option<string>, leaf: string): seq<QName>
  {
    [QName(ns, "security"), QName(ns, "sharedKey"), QName(ns, leaf)]
  }

  /** authentication and encryption hold the enum values; useOneX is always "false". */
  lemma AuthEncryptionTexts(p: WiFiProfile, ns: Option<string>)
    ensures FindPath(Msm(p, ns), AuthEncryptionPath(ns, "authentication")) == Some(Leaf(ns, "authentication", p.authenticationType.Value()))
    ensures FindPath(Msm(p, ns), AuthEncryptionPath(ns, "encryption")) == Some(Leaf(ns, "encryption", p.encryptionType.Value()))
    ensures FindPath(Msm(p, ns), AuthEncryptionPath(ns, "useOneX")) == Some(Leaf(ns, "useOneX", "false"))
  {
    var msm := Msm(p, ns);
    var security := msm.children[0];
    var authEnc := security.children[0];
    FirstWithTagAt(msm.children, QName(ns, "security"), 0);
    FirstWithTagAt(security.children, QName(ns, "authEncryption"), 0);
    FirstWithTagAt(authEnc.children, QName(ns, "authentication"), 0);
    FirstWithTagAt(authEnc.children, QName(ns, "encryption"), 1);
    FirstWithTagAt(authEnc.children, QName(ns, "useOneX"), 2);
    LeafPath(msm, security, authEnc, ns, "authentication", 0);
    LeafPath(msm, security, authEnc, ns, "encryption", 1);
    LeafPath(msm, security, authEnc, ns, "useOneX", 2);
  }

  /** keyType is always "passPhrase", protected always "false", and keyMaterial holds the
      password. */
  lemma SharedKeyTexts(p: WiFiProfile, ns: Option<string>)
    ensures FindPath(Msm(p, ns), SharedKeyPath(ns, "keyType")) == Some(Leaf(ns, "keyType", "passPhrase"))
    ensures FindPath(Msm(p, ns), SharedKeyPath(ns, "protected")) == Some(Leaf(ns, "protected", "false"))
    ensures FindPath(Msm(p, ns), SharedKeyPath(ns, "keyMaterial")) == Some(Leaf(ns, "keyMaterial", p.password))
  {
    var msm := Msm(p, ns);
    var security := msm.children[0];
    var key := security.children[1];
    FirstWithTagAt(msm.children, QName(ns, "security"), 0);
    FirstWithTagAt(security.children, QName(ns, "sharedKey"), 1);
    FirstWithTagAt(key.children, QName(ns, "keyType"), 0);
    FirstWithTagAt(key.children, QName(ns, "protected"), 1);
    FirstWithTagAt(key.children, QName(ns, "keyMaterial"), 2);
    LeafPath(msm, security, key, ns, "keyType", 0);
    LeafPath(msm, security, key, ns, "protected", 1);
    LeafPath(msm, security, key, ns, "keyMaterial", 2);
  }

  /** A three-step path, one child found at each step. */
  lemma LeafPath(msm: Element, security: Element, section: Element, ns: Option<string>, leaf: string, k: nat)
    requires k < |section.children|
    requires FindChild(msm, QName(ns, "security")) == Some(security)
    requires FindChild(security, section.tag) == Some(section)
    requires FindChild(section, QName(ns, leaf)) == Some(section.children[k])
    ensures FindPath(msm, [QName(ns, "security"), section.tag, QName(ns, leaf)]) == Some(section.children[k])
  {
    var tail := [section.tag, QName(ns, leaf)];
    FindPathStep(msm, QName(ns, "security"), tail, security);
    FindPathStep(security, section.tag, [QName(ns, leaf)], section);
    FindPathStep(section, QName(ns, leaf), [], section.children[k]);
  }

  /** MacRandomization declares the v3 namespace, and enableRandomization reads "true" exactly
      when randomisation is enabled. */
  lemma GeneratedMacRandomization(p: WiFiProfile)
    ensures FindChild(ProfileDocument(p), Plain("MacRandomization")) == Some(MacRandomization(None, map[XmlnsAttribute := NamespaceV3], p.enableRandomization))
    ensures FindPath(ProfileDocument(p), [Plain("MacRandomization"), Plain("enableRandomization")])
            == Some(Leaf(None, "enableRandomization", BoolText(p.enableRandomization)))
  {
    var doc := ProfileDocument(p);
    var mac := doc.children[6];
    RootChildFound(p, None, None, doc.attrib, map[XmlnsAttribute := NamespaceV3], 6);
    FirstWithTagAt(mac.children, Plain("enableRandomization"), 0);
    FindPathStep(doc, Plain("MacRandomization"), [Plain("enableRandomization")], mac);
    FindPathStep(mac, Plain("enableRandomization"), [], mac.children[0]);
  }
}
