/** `ProfileXmlParser.parse_xml`: from an element tree back to an optional profile. Every
    failure the source catches, from malformed text to a rejected profile, is `None`. */
module ProfileXmlParser {
  import opened Wrappers
  import opened Xml
  import opened Profile
  import ProfileXmlGenerator

  /** What `ET.fromstring` makes of the text: `Malformed` when it raises `ParseError`, else the
      root with every tag as the reader qualifies it. */
  datatype XmlInput = Malformed | Parsed(root: Element)

  /** A tag in the v1 namespace, as the `.//{…v1}…` searches spell it. */
  function V1(local: string): QName
  {
    QName(Some(ProfileXmlGenerator.NamespaceV1), local)
  }

  /** A tag in the v3 namespace, as the `enableRandomization` search spells it. */
  function V3(local: string): QName
  {
    QName(Some(ProfileXmlGenerator.NamespaceV3), local)
  }

  /** `elem.text or default`: a missing or empty text gives the default. */
  function TextOr(e: Element, default: string): string
  {
    if e.text.Some? && e.text.value != "" then e.text.value else default
  }

  /** `connectionMode`: AUTO when the child is absent, otherwise the member named by its text
      (empty text reads as "auto"); `None` when `ConnectionMode(text)` raises. */
  function ModeOf(root: Element, scope: Option<string>): Option<ConnectionMode>
  {
    match FindChild(root, QName(scope, "connectionMode"))
    case None => Some(Auto)
    case Some(e) => ConnectionModeOf(TextOr(e, "auto"))
  }

  /** `authentication`, searched at any depth: the member named by its text, WPA2PSK when the
      element is absent or the text names no member. */
  function AuthenticationOf(root: Element): AuthenticationType
  {
    match FindDescendant(root, V1("authentication"))
    case None => Wpa2Psk
    case Some(e) =>
      match AuthenticationTypeOf(TextOr(e, "WPA2PSK"))
      case Some(a) => a
      case None => Wpa2Psk
  }

  /** `encryption`, searched at any depth, with AES as the fallback. */
  function EncryptionOf(root: Element): EncryptionType
  {
    match FindDescendant(root, V1("encryption"))
    case None => Aes
    case Some(e) =>
      match EncryptionTypeOf(TextOr(e, "AES"))
      case Some(t) => t
      case None => Aes
  }

  /** `autoSwitch`: false when absent, else whether the text is exactly "true". */
  function AutoSwitchOf(root: Element, scope: Option<string>): bool
  {
    match FindChild(root, QName(scope, "autoSwitch"))
    case None => false
    case Some(e) => e.text == Some("true")
  }

  /** `enableRandomization`, a v3 element at any depth: true when absent, else whether the text
      is exactly "true". */
  function RandomizationOf(root: Element): bool
  {
    match FindDescendant(root, V3("enableRandomization"))
    case None => true
    case Some(e) => e.text == Some("true")
  }

  /** The steps of `parse_xml` after `fromstring`, with the direct-child lookups of `name`,
      `connectionMode` and `autoSwitch` made in namespace `scope`. */
  function ParseWith(x: XmlInput, scope: Option<string>): (r: Option<WiFiProfile>)
    ensures x.Malformed? ==> r == None
    ensures x.Parsed? && FindChild(x.root, QName(scope, "name")).None? ==> r == None
    ensures x.Parsed? && FindDescendant(x.root, V1("keyMaterial")).None? ==> r == None
    ensures r.Some? ==> r.value.Valid()
    ensures x.Parsed? ==> (r.Some? <==>
      FindChild(x.root, QName(scope, "name")).Some? && ModeOf(x.root, scope).Some? &&
      FindDescendant(x.root, V1("keyMaterial")).Some? &&
      !IsBlank(TextOr(FindChild(x.root, QName(scope, "name")).value, "")) &&
      |TextOr(FindDescendant(x.root, V1("keyMaterial")).value, "")| >= MinPasswordLength)
    ensures r.Some? ==>
      r.value.name == TextOr(FindChild(x.root, QName(scope, "name")).value, "") &&
      r.value.password == TextOr(FindDescendant(x.root, V1("keyMaterial")).value, "")
  {
    match x
    case Malformed => None
    case Parsed(root) =>
      match FindChild(root, QName(scope, "name"))
      case None => None
      case Some(nameElem) =>
        match ModeOf(root, scope)
        case None => None
        case Some(mode) =>
          match FindDescendant(root, V1("keyMaterial"))
          case None => None
          case Some(keyElem) =>
            NewProfile(TextOr(nameElem, ""), TextOr(keyElem, ""), mode, AuthenticationOf(root),
                       EncryptionOf(root), AutoSwitchOf(root, scope), RandomizationOf(root)).ToOption()
  }

  /** `parse_xml` as written: `root.find("name")` and the other two direct lookups use plain,
      unqualified tags. */
  function ParseXml(x: XmlInput): Option<WiFiProfile>
  {
    ParseWith(x, None)
  }

  /** `parse_xml` with the direct lookups qualified by the v1 namespace, like the three
      `.//` searches, so that it reads back what the generator writes. */
  function ParseXmlCorrected(x: XmlInput): Option<WiFiProfile>
  {
    ParseWith(x, Some(ProfileXmlGenerator.NamespaceV1))
  }

  // ---------------------------------------------------------------------------
  // What the parser promises

  /** An element without text gives an empty name or password, which validation rejects. */
  lemma EmptyTextIsRejected(root: Element, scope: Option<string>)
    requires FindChild(root, QName(scope, "name")).Some? && FindChild(root, QName(scope, "name")).value.text.None?
    ensures ParseWith(Parsed(root), scope) == None
  {
  }

  /** absent → AUTO; empty text → "auto"; "auto"/"manual" → that member; any other text makes
      `ConnectionMode(text)` raise and the result is `None`. */
  lemma ParsedConnectionMode(root: Element, scope: Option<string>)
    ensures var r := ParseWith(Parsed(root), scope);
      var found := FindChild(root, QName(scope, "connectionMode"));
      (r.Some? && found.None? ==> r.value.connectionMode == Auto) &&
      (r.Some? && found.Some? ==> r.value.connectionMode.Value() == TextOr(found.value, "auto")) &&
      (found.Some? && TextOr(found.value, "auto") != "auto" && TextOr(found.value, "auto") != "manual" ==> r == None)
  {
  }

  /** A found `authentication` text that names a member gives that member; anything else, an
      absent element included, gives WPA2PSK, and parsing goes on. */
  lemma ParsedAuthentication(root: Element)
    ensures var found := FindDescendant(root, V1("authentication"));
      (found.None? ==> AuthenticationOf(root) == Wpa2Psk) &&
      (found.Some? ==> forall a: AuthenticationType ::
        AuthenticationOf(root) == a <==>
          a.Value() == TextOr(found.value, "WPA2PSK") ||
          (a == Wpa2Psk && AuthenticationTypeOf(TextOr(found.value, "WPA2PSK")).None?))
  {
  }

  /** The same for `encryption`, with AES as the fallback. */
  lemma ParsedEncryption(root: Element)
    ensures var found := FindDescendant(root, V1("encryption"));
      (found.None? ==> EncryptionOf(root) == Aes) &&
      (found.Some? ==> forall t: EncryptionType ::
        EncryptionOf(root) == t <==>
          t.Value() == TextOr(found.value, "AES") ||
          (t == Aes && EncryptionTypeOf(TextOr(found.value, "AES")).None?))
  {
  }

  /** A parsed profile takes its enums from those lookups. */
  lemma ParsedEnums(root: Element, scope: Option<string>)
    requires ParseWith(Parsed(root), scope).Some?
    ensures ParseWith(Parsed(root), scope).value.authenticationType == AuthenticationOf(root)
    ensures ParseWith(Parsed(root), scope).value.encryptionType == EncryptionOf(root)
  {
  }

  /** autoSwitch is set exactly when the element is there and its text is exactly "true";
      enableRandomization is set unless the element is there with a text other than "true". */
  lemma ParsedFlags(root: Element, scope: Option<string>)
    requires ParseWith(Parsed(root), scope).Some?
    ensures var r := ParseWith(Parsed(root), scope).value;
      var sw := FindChild(root, QName(scope, "autoSwitch"));
      var rand := FindDescendant(root, V3("enableRandomization"));
      (r.autoSwitch <==> sw.Some? && sw.value.text == Some("true")) &&
      (r.enableRandomization <==> rand.None? || rand.value.text == Some("true"))
  {
  }

  /** A tree whose root has no plain-tagged child has no plain `name`: the as-written parser
      returns `None` for it. */
  lemma QualifiedChildrenHideName(root: Element)
    requires forall i :: 0 <= i < |root.children| ==> root.children[i].tag.ns.Some?
    ensures ParseXml(Parsed(root)) == None
  {
    assert FindChild(root, QName(None, "name")) == None;
  }

  /** A tree in which every lookup finds an element whose text spells the matching field of a
      valid profile parses to that very profile. */
  lemma ParseReadsFields(root: Element, scope: Option<string>, p: WiFiProfile)
    requires p.Valid()
    requires FindChild(root, QName(scope, "name")).Some? && FindChild(root, QName(scope, "name")).value.text == Some(p.name)
    requires FindChild(root, QName(scope, "connectionMode")).Some?
    requires FindChild(root, QName(scope, "connectionMode")).value.text == Some(p.connectionMode.Value())
    requires FindChild(root, QName(scope, "autoSwitch")).Some?
    requires FindChild(root, QName(scope, "autoSwitch")).value.text == Some(ProfileXmlGenerator.BoolText(p.autoSwitch))
    requires FindDescendant(root, V1("authentication")).Some?
    requires FindDescendant(root, V1("authentication")).value.text == Some(p.authenticationType.Value())
    requires FindDescendant(root, V1("encryption")).Some?
    requires FindDescendant(root, V1("encryption")).value.text == Some(p.encryptionType.Value())
    requires FindDescendant(root, V1("keyMaterial")).Some? && FindDescendant(root, V1("keyMaterial")).value.text == Some(p.password)
    requires FindDescendant(root, V3("enableRandomization")).Some?
    requires FindDescendant(root, V3("enableRandomization")).value.text == Some(ProfileXmlGenerator.BoolText(p.enableRandomization))
    ensures ParseWith(Parsed(root), scope) == Some(p)
  {
    ModeFromText(root, scope, p.connectionMode);
    AuthenticationFromText(root, p.authenticationType);
    EncryptionFromText(root, p.encryptionType);
    NewProfileOfValid(p);
  }

  /** A connectionMode whose text is a mode's value reads as that mode. */
  lemma ModeFromText(root: Element, scope: Option<string>, m: ConnectionMode)
    requires FindChild(root, QName(scope, "connectionMode")).Some?
    requires FindChild(root, QName(scope, "connectionMode")).value.text == Some(m.Value())
    ensures ModeOf(root, scope) == Some(m)
  {
    ValueLookupInverts(m, Wpa2Psk, Aes);
  }

  /** An authentication whose text is a member's value reads as that member. */
  lemma AuthenticationFromText(root: Element, a: AuthenticationType)
    requires FindDescendant(root, V1("authentication")).Some?
    requires FindDescendant(root, V1("authentication")).value.text == Some(a.Value())
    ensures AuthenticationOf(root) == a
  {
    ValueLookupInverts(Auto, a, Aes);
  }

  /** An encryption whose text is a member's value reads as that member. */
  lemma EncryptionFromText(root: Element, t: EncryptionType)
    requires FindDescendant(root, V1("encryption")).Some?
    requires FindDescendant(root, V1("encryption")).value.text == Some(t.Value())
    ensures EncryptionOf(root) == t
  {
    ValueLookupInverts(Auto, Wpa2Psk, t);
  }
}
