/** What `parse_xml` makes of the tree `generate_xml` writes, once serialised and read back by
    a namespace-aware reader. */
module ProfileXmlRoundTrip {
  import opened Wrappers
  import opened Xml
  import opened Profile
  import opened ProfileXmlGenerator
  import opened ProfileXmlParser

  // ---------------------------------------------------------------------------
  // The read-back tree

  /** On reading back, the root WLANProfile and all its children but the last are in the v1
      namespace, and MacRandomization is in the v3 namespace. */
  lemma ReadBackNamespaces(p: WiFiProfile)
    requires p.name != [] && p.password != []
    ensures Resolve(ProfileDocument(p), None).tag == V1("WLANProfile")
    ensures |Resolve(ProfileDocument(p), None).children| == 7
    ensures forall k :: 0 <= k < 6 ==> Resolve(ProfileDocument(p), None).children[k].tag.ns == Some(NamespaceV1)
    ensures Resolve(ProfileDocument(p), None).children[6].tag == V3("MacRandomization")
  {
    ReadBackIsResolved(p);
  }

  /** No element of SSIDConfig other than its own four has a tag in its namespace. */
  lemma SsidConfigHasNo(p: WiFiProfile, ns: Option<string>, tag: QName)
    requires tag.ns != ns || (tag.local != "SSID" && tag.local != "hex" && tag.local != "name" && tag.local != "nonBroadcast")
    ensures FindDescendant(SsidConfig(p, ns), tag) == None
  {
    var config := SsidConfig(p, ns);
    FindDescendantNoneAt(config.children[0], tag);
    FindDescendantNoneAt(config, tag);
  }

  /** Every element below MSM is in MSM's own namespace. */
  lemma MsmHasNo(p: WiFiProfile, ns: Option<string>, tag: QName)
    requires tag.ns != ns
    ensures FindDescendant(Msm(p, ns), tag) == None
  {
    var msm := Msm(p, ns);
    var security := msm.children[0];
    FindDescendantNoneAt(security.children[0], tag);
    FindDescendantNoneAt(security.children[1], tag);
    FindDescendantNoneAt(security, tag);
    FindDescendantNoneAt(msm, tag);
  }

  /** The `.//` searches below MSM find authentication and encryption in authEncryption. */
  lemma MsmFindsAuthEncryption(p: WiFiProfile, ns: Option<string>)
    ensures FindDescendant(Msm(p, ns), QName(ns, "authentication")) == Some(Leaf(ns, "authentication", p.authenticationType.Value()))
    ensures FindDescendant(Msm(p, ns), QName(ns, "encryption")) == Some(Leaf(ns, "encryption", p.encryptionType.Value()))
  {
    var msm := Msm(p, ns);
    var security := msm.children[0];
    var authEnc := security.children[0];
    FindDescendantAt(authEnc, QName(ns, "authentication"), 0, authEnc.children[0]);
    FindDescendantAt(security, QName(ns, "authentication"), 0, authEnc.children[0]);
    FindDescendantAt(msm, QName(ns, "authentication"), 0, authEnc.children[0]);
    FindDescendantAt(authEnc, QName(ns, "encryption"), 1, authEnc.children[1]);
    FindDescendantAt(security, QName(ns, "encryption"), 0, authEnc.children[1]);
    FindDescendantAt(msm, QName(ns, "encryption"), 0, authEnc.children[1]);
  }

  /** The `.//` search below MSM finds keyMaterial in sharedKey, past authEncryption. */
  lemma MsmFindsKeyMaterial(p: WiFiProfile, ns: Option<string>)
    ensures FindDescendant(Msm(p, ns), QName(ns, "keyMaterial")) == Some(Leaf(ns, "keyMaterial", p.password))
  {
    var msm := Msm(p, ns);
    var security := msm.children[0];
    var key := security.children[1];
    var tag := QName(ns, "keyMaterial");
    FindDescendantNoneAt(security.children[0], tag);
    FindDescendantAt(key, tag, 2, key.children[2]);
    FindDescendantAt(security, tag, 1, key.children[2]);
    FindDescendantAt(msm, tag, 0, key.children[2]);
  }

  /** In the read-back tree the v1 search for authentication ends in MSM. */
  lemma ReadBackFindsAuthentication(p: WiFiProfile)
    ensures FindDescendant(ReadBackDocument(p), V1("authentication")) == Some(Leaf(Some(NamespaceV1), "authentication", p.authenticationType.Value()))
  {
    var v1 := Some(NamespaceV1);
    SsidConfigHasNo(p, v1, V1("authentication"));
    MsmFindsAuthEncryption(p, v1);
    FindDescendantAt(ReadBackDocument(p), V1("authentication"), 5, Leaf(v1, "authentication", p.authenticationType.Value()));
  }

  /** In the read-back tree the v1 search for encryption ends in MSM. */
  lemma ReadBackFindsEncryption(p: WiFiProfile)
    ensures FindDescendant(ReadBackDocument(p), V1("encryption")) == Some(Leaf(Some(NamespaceV1), "encryption", p.encryptionType.Value()))
  {
    var v1 := Some(NamespaceV1);
    SsidConfigHasNo(p, v1, V1("encryption"));
    MsmFindsAuthEncryption(p, v1);
    FindDescendantAt(ReadBackDocument(p), V1("encryption"), 5, Leaf(v1, "encryption", p.encryptionType.Value()));
  }

  /** In the read-back tree the v1 search for keyMaterial ends in MSM. */
  lemma ReadBackFindsKeyMaterial(p: WiFiProfile)
    ensures FindDescendant(ReadBackDocument(p), V1("keyMaterial")) == Some(Leaf(Some(NamespaceV1), "keyMaterial", p.password))
  {
    var v1 := Some(NamespaceV1);
    SsidConfigHasNo(p, v1, V1("keyMaterial"));
    MsmFindsKeyMaterial(p, v1);
    FindDescendantAt(ReadBackDocument(p), V1("keyMaterial"), 5, Leaf(v1, "keyMaterial", p.password));
  }

  /** In the read-back tree the direct v1 lookups find name, connectionMode and autoSwitch. */
  lemma ReadBackFindsChildren(p: WiFiProfile)
    ensures FindChild(ReadBackDocument(p), V1("name")) == Some(Leaf(Some(NamespaceV1), "name", p.name))
    ensures FindChild(ReadBackDocument(p), V1("connectionMode")) == Some(Leaf(Some(NamespaceV1), "connectionMode", p.connectionMode.Value()))
    ensures FindChild(ReadBackDocument(p), V1("autoSwitch")) == Some(Leaf(Some(NamespaceV1), "autoSwitch", BoolText(p.autoSwitch)))
  {
    var v1, v3 := Some(NamespaceV1), Some(NamespaceV3);
    RootChildFound(p, v1, v3, map[], map[], 0);
    RootChildFound(p, v1, v3, map[], map[], 3);
    RootChildFound(p, v1, v3, map[], map[], 4);
  }

  /** In the read-back tree the v3 search ends in MacRandomization, past everything in v1. */
  lemma ReadBackFindsV3(p: WiFiProfile)
    ensures FindDescendant(ReadBackDocument(p), V3("enableRandomization"))
            == Some(Leaf(Some(NamespaceV3), "enableRandomization", BoolText(p.enableRandomization)))
  {
    var v1 := Some(NamespaceV1);
    var doc := ReadBackDocument(p);
    var tag := V3("enableRandomization");
    var mac := doc.children[6];
    SsidConfigHasNo(p, v1, tag);
    MsmHasNo(p, v1, tag);
    FindDescendantAt(mac, tag, 0, mac.children[0]);
    FindDescendantAt(doc, tag, 6, mac.children[0]);
  }

  // ---------------------------------------------------------------------------
  // The as-written parser against the generator

  /** Every child of the read-back root is namespace-qualified, so the plain `root.find("name")`
      finds nothing and `parse_xml` returns `None` for every profile the generator writes. */
  lemma GeneratedIsNotParsed(p: WiFiProfile)
    requires p.name != [] && p.password != []
    ensures ParseXml(Parsed(Resolve(ProfileDocument(p), None))) == None
  {
    ReadBackNamespaces(p);
    QualifiedChildrenHideName(Resolve(ProfileDocument(p), None));
  }

  /** With its direct lookups v1-qualified the parser reads back exactly the profile that was
      written, for every valid profile. */
  lemma CorrectedRoundTrip(p: WiFiProfile)
    requires p.Valid()
    ensures ParseXmlCorrected(Parsed(Resolve(ProfileDocument(p), None))) == Some(p)
  {
    ReadBackIsResolved(p);
    CorrectedReadsBack(p);
  }

  lemma CorrectedReadsBack(p: WiFiProfile)
    requires p.Valid()
    ensures ParseXmlCorrected(Parsed(ReadBackDocument(p))) == Some(p)
  {
    ReadBackFindsChildren(p);
    ReadBackFindsAuthentication(p);
    ReadBackFindsEncryption(p);
    ReadBackFindsKeyMaterial(p);
    ReadBackFindsV3(p);
    ParseReadsFields(ReadBackDocument(p), Some(NamespaceV1), p);
  }
}
