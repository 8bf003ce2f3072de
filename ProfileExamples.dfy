/** The fixtures of the entity's tests (tests/domain/test_profile.py), stated about the model. */
module ProfileExamples {
  import opened Wrappers
  import opened Text
  import opened Profile

  /** The fixtures of the entity's tests, and the boundary: exactly eight characters are enough. */
  lemma ValidationExamples()
    ensures NewProfileWithDefaults("TestWiFi", "password123").Success?
    ensures NewProfileWithDefaults("", "password123") == Failure(EmptyName)
    ensures NewProfileWithDefaults(" \t ", "password123") == Failure(EmptyName)
    ensures NewProfileWithDefaults("TestWiFi", "1234567") == Failure(ShortPassword)
    ensures NewProfileWithDefaults("TestWiFi", "12345678").Success?
  {
    assert Strip(" \t ") == [];
    assert !IsSpace("TestWiFi"[0]);
  }

  /** The fixture of the entity's tests, "测试WiFi" → "E6B58BE8AF9557694669", in the pieces
      `SsidHexAppend` joins: the UTF-8 bytes of the name, then the digits of each character. */
  lemma Utf8Example()
    ensures Utf8Encode("测试WiFi") == [0xE6, 0xB5, 0x8B, 0xE8, 0xAF, 0x95, 0x57, 0x69, 0x46, 0x69]
  {
    assert Utf8Char('测') == [0xE6, 0xB5, 0x8B];
    assert Utf8Char('试') == [0xE8, 0xAF, 0x95];
    assert Utf8Encode("WiFi") == [0x57, 0x69, 0x46, 0x69];
    assert Utf8Encode("试WiFi") == [0xE8, 0xAF, 0x95] + [0x57, 0x69, 0x46, 0x69];
  }

  lemma HexExample()
    ensures HexUpper([0xE6, 0xB5, 0x8B]) == "E6B58B"
    ensures HexUpper([0xE8, 0xAF, 0x95]) == "E8AF95"
    ensures HexUpper([0x57, 0x69]) == "5769"
    ensures HexUpper([0x46, 0x69]) == "4669"
  {
  }

  /** Hex of four consecutive pieces is the four hexes one after the other. */
  lemma HexOfPieces(a: seq<byte>, b: seq<byte>, c: seq<byte>, d: seq<byte>)
    ensures HexUpper(a + (b + (c + d))) == HexUpper(a) + (HexUpper(b) + (HexUpper(c) + HexUpper(d)))
  {
    HexUpperAppend(c, d);
    HexUpperAppend(b, c + d);
    HexUpperAppend(a, b + (c + d));
  }

  /** Any four byte groups with the fixture's group hexes give the fixture's full hex. */
  lemma FixtureHexOfGroups(a: seq<byte>, b: seq<byte>, c: seq<byte>, d: seq<byte>)
    requires HexUpper(a) == "E6B58B" && HexUpper(b) == "E8AF95"
    requires HexUpper(c) == "5769" && HexUpper(d) == "4669"
    ensures HexUpper(a + (b + (c + d))) == "E6B58BE8AF9557694669"
  {
    HexOfPieces(a, b, c, d);
    assert "E6B58B" + ("E8AF95" + ("5769" + "4669")) == "E6B58BE8AF9557694669";
  }

  /** The fixture's encoding, cut into the bytes of "测", "试", "Wi" and "Fi". */
  lemma FixtureBytesInGroups()
    ensures Utf8Encode("测试WiFi") == [0xE6, 0xB5, 0x8B] + ([0xE8, 0xAF, 0x95] + ([0x57, 0x69] + [0x46, 0x69]))
  {
    Utf8Example();
  }

  /** The `ssid_hex` fixture itself: "测试WiFi" → "E6B58BE8AF9557694669". */
  lemma SsidHexFixture()
    ensures SsidHex("测试WiFi") == "E6B58BE8AF9557694669"
  {
    assert SsidHex("测试WiFi") == HexUpper(Utf8Encode("测试WiFi"));
    FixtureBytesInGroups();
    HexExample();
    FixtureHexOfGroups([0xE6, 0xB5, 0x8B], [0xE8, 0xAF, 0x95], [0x57, 0x69], [0x46, 0x69]);
  }

  /** The `to_dict` fixture: a MANUAL profile maps its mode to "manual". */
  lemma ToDictExample()
    ensures var d := ToDict(WiFiProfile("TestWiFi", "password123", Manual, Wpa2Psk, Aes, false, true));
            d["name"] == Str("TestWiFi") && d["password"] == Str("password123") && d["connection_mode"] == Str("manual")
  {
  }
}
