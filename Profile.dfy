/** The wireless profile entity of `domain/profile.py`: the three closed enumerations,
    construction-time validation, the derived hexadecimal SSID and `to_dict`. */
module Profile {
  import opened Wrappers
  import opened Text

  // ---------------------------------------------------------------------------
  // Enumerations and their string values

  datatype ConnectionMode = Auto | Manual {
    function Value(): string
    {
      match this
      case Auto => "auto"
      case Manual => "manual"
    }
  }

  datatype AuthenticationType = Open | Wpa2Psk | Wpa3Sae {
    function Value(): string
    {
      match this
      case Open => "open"
      case Wpa2Psk => "WPA2PSK"
      case Wpa3Sae => "WPA3SAE"
    }
  }

  /** `NoEncryption` is the member the source calls `NONE`. */
  datatype EncryptionType = NoEncryption | Aes | Tkip {
    function Value(): string
    {
      match this
      case NoEncryption => "none"
      case Aes => "AES"
      case Tkip => "TKIP"
    }
  }

  /** `ConnectionMode(s)`: the member whose value is exactly `s`; `None` where Python raises `ValueError`. */
  function ConnectionModeOf(s: string): (r: Option<ConnectionMode>)
    ensures forall m: ConnectionMode :: r == Some(m) <==> m.Value() == s
  {
    if s == "auto" then Some(Auto) else if s == "manual" then Some(Manual) else None
  }

  /** `AuthenticationType(s)` */
  function AuthenticationTypeOf(s: string): (r: Option<AuthenticationType>)
    ensures forall a: AuthenticationType :: r == Some(a) <==> a.Value() == s
  {
    if s == "open" then Some(Open)
    else if s == "WPA2PSK" then Some(Wpa2Psk)
    else if s == "WPA3SAE" then Some(Wpa3Sae)
    else None
  }

  /** `EncryptionType(s)` */
  function EncryptionTypeOf(s: string): (r: Option<EncryptionType>)
    ensures forall e: EncryptionType :: r == Some(e) <==> e.Value() == s
  {
    if s == "none" then Some(NoEncryption)
    else if s == "AES" then Some(Aes)
    else if s == "TKIP" then Some(Tkip)
    else None
  }

  /** The declared values are pairwise distinct, so looking a member up by its value gives
      that member back, in all three enumerations. */
  lemma ValueLookupInverts(m: ConnectionMode, a: AuthenticationType, e: EncryptionType)
    ensures ConnectionModeOf(m.Value()) == Some(m)
    ensures AuthenticationTypeOf(a.Value()) == Some(a)
    ensures EncryptionTypeOf(e.Value()) == Some(e)
  {
  }

  // ---------------------------------------------------------------------------
  // The entity and its validation

  datatype WiFiProfile = WiFiProfile(
    name: string,
    password: string,
    connectionMode: ConnectionMode,
    authenticationType: AuthenticationType,
    encryptionType: EncryptionType,
    autoSwitch: bool,
    enableRandomization: bool)
  {
    /** What `__post_init__` enforces of every constructed profile. */
    predicate Valid()
    {
      !IsBlank(name) && |password| >= MinPasswordLength
    }
  }

  const MinPasswordLength := 8

  datatype ValidationError = EmptyName | ShortPassword {
    /** The message of the `ValueError` the source raises. */
    function Message(): string
    {
      match this
      case EmptyName => "WiFi 网络名称不能为空"
      case ShortPassword => "WiFi 密码长度至少为 8 个字符"
    }
  }

  /** `not s or not s.strip()` */
  predicate IsBlank(s: string)
  {
    s == [] || Strip(s) == []
  }

  /** The dataclass constructor followed by `__post_init__`: the name is checked first,
      then the password; an error is the `ValueError` the source raises. */
  function NewProfile(
    name: string, password: string, mode: ConnectionMode, auth: AuthenticationType,
    enc: EncryptionType, autoSwitch: bool, enableRandomization: bool): (r: Result<WiFiProfile, ValidationError>)
    ensures r.Success? <==> (exists i :: 0 <= i < |name| && !IsSpace(name[i])) && |password| >= 8
    ensures r == Failure(EmptyName) <==> forall i :: 0 <= i < |name| ==> IsSpace(name[i])
    ensures r.Success? ==> r.value.Valid()
    ensures r.Success? ==> r.value == WiFiProfile(name, password, mode, auth, enc, autoSwitch, enableRandomization)
  {
    StripEmptyIff(name);
    if name == [] || Strip(name) == [] then Failure(EmptyName)
    else if password == [] || |password| < MinPasswordLength then Failure(ShortPassword)
    else Success(WiFiProfile(name, password, mode, auth, enc, autoSwitch, enableRandomization))
  }

  /** `WiFiProfile(name=..., password=...)` with every other field left at its declared default. */
  function NewProfileWithDefaults(name: string, password: string): (r: Result<WiFiProfile, ValidationError>)
    ensures r.Success? <==> !IsBlank(name) && |password| >= 8
    ensures r.Success? ==> r.value.name == name && r.value.password == password
    ensures r.Success? ==> r.value.connectionMode == Auto && r.value.authenticationType == Wpa2Psk
    ensures r.Success? ==> r.value.encryptionType == Aes && !r.value.autoSwitch && r.value.enableRandomization
  {
    StripEmptyIff(name);
    NewProfile(name, password, Auto, Wpa2Psk, Aes, false, true)
  }

  /** A profile is constructible from its own fields exactly when it is valid. */
  lemma NewProfileOfValid(p: WiFiProfile)
    ensures NewProfile(p.name, p.password, p.connectionMode, p.authenticationType,
                       p.encryptionType, p.autoSwitch, p.enableRandomization)
            == (if p.Valid() then Success(p) else if IsBlank(p.name) then Failure(EmptyName) else Failure(ShortPassword))
  {
  }

  // ---------------------------------------------------------------------------
  // ssid_hex: `name.encode("utf-8").hex().upper()`

  type byte = b: int | 0 <= b < 256

  /** The UTF-8 encoding of one Unicode scalar value. */
  function Utf8Char(c: char): (bs: seq<byte>)
    ensures 1 <= |bs| <= 4
  {
    var n := c as int;
    if n < 0x80 then [n]
    else if n < 0x800 then [0xC0 + n / 64, 0x80 + n % 64]
    else if n < 0x1_0000 then [0xE0 + n / 4096, 0x80 + (n / 64) % 64, 0x80 + n % 64]
    else [0xF0 + n / 262144, 0x80 + (n / 4096) % 64, 0x80 + (n / 64) % 64, 0x80 + n % 64]
  }

  /** `s.encode("utf-8")` */
  function Utf8Encode(s: string): (bs: seq<byte>)
    ensures |s| <= |bs| <= 4 * |s|
  {
    if s == [] then [] else Utf8Char(s[0]) + Utf8Encode(s[1..])
  }

  /** The digit `bytes.hex()` writes for a nibble: 0-9, then a-f. */
  function LowerHexDigit(d: nat): char
    requires d < 16
  {
    if d < 10 then ('0' as int + d) as char else ('a' as int + d - 10) as char
  }

  function UpperHexDigit(d: nat): char
    requires d < 16
  {
    if d < 10 then ('0' as int + d) as char else ('A' as int + d - 10) as char
  }

  /** `bytes.hex()`: two lower-case digits per byte, high nibble first. */
  function HexLower(bs: seq<byte>): (h: string)
  {
    if bs == [] then [] else [LowerHexDigit(bs[0] / 16), LowerHexDigit(bs[0] % 16)] + HexLower(bs[1..])
  }

  /** `str.upper` as it acts on the characters `bytes.hex()` produces. */
  function UpperChar(c: char): char
  {
    if 'a' <= c <= 'z' then (c as int - 32) as char else c
  }

  function Upper(s: string): (r: string)
    ensures |r| == |s| && forall i :: 0 <= i < |s| ==> r[i] == UpperChar(s[i])
  {
    if s == [] then [] else [UpperChar(s[0])] + Upper(s[1..])
  }

  /** `WiFiProfile.ssid_hex`: two upper-case hex digits per UTF-8 byte of the name. */
  function SsidHex(name: string): (h: string)
    ensures h == HexUpper(Utf8Encode(name))
  {
    UpperOfHexLower(Utf8Encode(name));
    Upper(HexLower(Utf8Encode(name)))
  }

  predicate IsUpperHexDigit(c: char)
  {
    '0' <= c <= '9' || 'A' <= c <= 'F'
  }

  function HexDigitValue(c: char): (v: nat)
    requires IsUpperHexDigit(c)
    ensures v < 16
  {
    if c <= '9' then c as int - '0' as int else c as int - 'A' as int + 10
  }

  /** Reads upper-case hexadecimal back into bytes (the inverse of `ssid_hex`'s last two steps). */
  function HexDecode(h: string): (bs: seq<byte>)
    requires |h| % 2 == 0 && forall i :: 0 <= i < |h| ==> IsUpperHexDigit(h[i])
  {
    if h == [] then [] else [HexDigitValue(h[0]) * 16 + HexDigitValue(h[1])] + HexDecode(h[2..])
  }

  /** Two upper-case digits per byte, high nibble first. */
  function HexUpper(bs: seq<byte>): (h: string)
  {
    if bs == [] then [] else [UpperHexDigit(bs[0] / 16), UpperHexDigit(bs[0] % 16)] + HexUpper(bs[1..])
  }

  /** `ssid_hex` is the upper-case hexadecimal of the name's UTF-8 encoding: twice as long as
      that encoding, made only of the digits 0-9 and A-F, and reading it back gives exactly the
      encoding. */
  lemma SsidHexIsUpperHexOfUtf8(name: string)
    ensures SsidHex(name) == HexUpper(Utf8Encode(name))
    ensures |SsidHex(name)| == 2 * |Utf8Encode(name)|
    ensures forall i :: 0 <= i < |SsidHex(name)| ==> IsUpperHexDigit(SsidHex(name)[i])
    ensures HexDecode(SsidHex(name)) == Utf8Encode(name)
  {
    UpperOfHexLower(Utf8Encode(name));
    HexRoundTrip(Utf8Encode(name));
  }

  lemma {:induction false} UpperOfHexLower(bs: seq<byte>)
    ensures Upper(HexLower(bs)) == HexUpper(bs)
  {
    if bs != [] {
      var d0, d1 := LowerHexDigit(bs[0] / 16), LowerHexDigit(bs[0] % 16);
      assert HexLower(bs) == [d0, d1] + HexLower(bs[1..]);
      UpperAppend([d0, d1], HexLower(bs[1..]));
      UpperOfHexLower(bs[1..]);
      UpperOfLowerHexDigit(bs[0] / 16);
      UpperOfLowerHexDigit(bs[0] % 16);
    }
  }

  lemma UpperOfLowerHexDigit(d: nat)
    requires d < 16
    ensures UpperChar(LowerHexDigit(d)) == UpperHexDigit(d)
  {
  }

  lemma {:induction false} HexRoundTrip(bs: seq<byte>)
    ensures |HexUpper(bs)| == 2 * |bs|
    ensures forall i :: 0 <= i < |HexUpper(bs)| ==> IsUpperHexDigit(HexUpper(bs)[i])
    ensures HexDecode(HexUpper(bs)) == bs
  {
    if bs != [] {
      HexRoundTrip(bs[1..]);
      var h := HexUpper(bs);
      HexDigitRoundTrip(bs[0] / 16);
      HexDigitRoundTrip(bs[0] % 16);
      assert h[2..] == HexUpper(bs[1..]);
    }
  }

  lemma HexDigitRoundTrip(d: nat)
    requires d < 16
    ensures IsUpperHexDigit(UpperHexDigit(d)) && HexDigitValue(UpperHexDigit(d)) == d
  {
  }

  lemma {:induction false} UpperAppend(a: string, b: string)
    ensures Upper(a + b) == Upper(a) + Upper(b)
  {
    var l, r := Upper(a + b), Upper(a) + Upper(b);
    assert |l| == |r|;
    forall i | 0 <= i < |l| ensures l[i] == r[i] {
      if i < |a| { assert (a + b)[i] == a[i]; } else { assert (a + b)[i] == b[i - |a|]; }
    }
  }

  /** Both halves of `ssid_hex` work byte by byte, so the value of a concatenated name is the
      concatenation of the values of its parts. */
  lemma SsidHexAppend(a: string, b: string)
    ensures SsidHex(a + b) == SsidHex(a) + SsidHex(b)
  {
    SsidHexIsUpperHexOfUtf8(a + b);
    SsidHexIsUpperHexOfUtf8(a);
    SsidHexIsUpperHexOfUtf8(b);
    Utf8EncodeAppend(a, b);
    HexUpperAppend(Utf8Encode(a), Utf8Encode(b));
  }

  lemma {:induction false} Utf8EncodeAppend(a: string, b: string)
    ensures Utf8Encode(a + b) == Utf8Encode(a) + Utf8Encode(b)
  {
    if a != [] {
      assert (a + b)[1..] == a[1..] + b;
      Utf8EncodeAppend(a[1..], b);
    } else {
      assert a + b == b;
    }
  }

  lemma {:induction false} HexUpperAppend(a: seq<byte>, b: seq<byte>)
    ensures HexUpper(a + b) == HexUpper(a) + HexUpper(b)
  {
    if a != [] {
      assert (a + b)[1..] == a[1..] + b;
      HexUpperAppend(a[1..], b);
    } else {
      assert a + b == b;
    }
  }

  /** A UTF-8 decoder, to show that the encoding loses nothing: it reads one scalar value or
      fails on a malformed sequence. */
  predicate IsContinuation(b: byte)
  {
    0x80 <= b < 0xC0
  }

  /** How many bytes a sequence starting with `b0` takes, or 0 for a byte no sequence starts with. */
  function SequenceLength(b0: byte): nat
  {
    if b0 < 0x80 then 1 else if 0xC0 <= b0 < 0xE0 then 2 else if 0xE0 <= b0 < 0xF0 then 3
    else if 0xF0 <= b0 < 0xF8 then 4 else 0
  }

  /** The scalar value the first `len` bytes of `bs` carry. */
  function CodePoint(bs: seq<byte>, len: nat): int
    requires 1 <= len <= 4 && len <= |bs|
  {
    if len == 1 then bs[0] as int
    else if len == 2 then (bs[0] as int - 0xC0) * 64 + (bs[1] as int - 0x80)
    else if len == 3 then (bs[0] as int - 0xE0) * 4096 + (bs[1] as int - 0x80) * 64 + (bs[2] as int - 0x80)
    else (bs[0] as int - 0xF0) * 262144 + (bs[1] as int - 0x80) * 4096 + (bs[2] as int - 0x80) * 64 + (bs[3] as int - 0x80)
  }

  /** A UTF-8 decoder, to show that the encoding loses nothing: it reads one scalar value at a
      time and fails on a malformed sequence. */
  function Utf8Decode(bs: seq<byte>): (r: Option<string>)
    decreases |bs|
  {
    if bs == [] then Some([])
    else
      var len := SequenceLength(bs[0]);
      if len == 0 || |bs| < len then None
      else if (len >= 2 && !IsContinuation(bs[1])) || (len >= 3 && !IsContinuation(bs[2]))
              || (len == 4 && !IsContinuation(bs[3])) then None
      else
        var n := CodePoint(bs, len);
        if n < 0 || (0xD800 <= n < 0xE000) || n >= 0x11_0000 then None
        else match Utf8Decode(bs[len..])
          case None => None
          case Some(rest) => Some([n as char] + rest)
  }

  /** The encoding of one character is a well-formed sequence that carries that character. */
  lemma Utf8CharWellFormed(c: char)
    ensures |Utf8Char(c)| == SequenceLength(Utf8Char(c)[0])
    ensures forall k :: 1 <= k < |Utf8Char(c)| ==> IsContinuation(Utf8Char(c)[k])
    ensures CodePoint(Utf8Char(c), |Utf8Char(c)|) == c as int
  {
    var n := c as int;
    if n < 0x80 {
    } else if n < 0x800 {
      TwoByteWellFormed(c);
    } else if n < 0x1_0000 {
      ThreeByteWellFormed(c);
    } else {
      FourByteWellFormed(c);
    }
  }

  lemma TwoByteWellFormed(c: char)
    requires 0x80 <= c as int < 0x800
    ensures |Utf8Char(c)| == 2 == SequenceLength(Utf8Char(c)[0])
    ensures IsContinuation(Utf8Char(c)[1])
    ensures CodePoint(Utf8Char(c), 2) == c as int
  {
    var n := c as int;
    assert Utf8Char(c) == [0xC0 + n / 64, 0x80 + n % 64];
    assert CodePoint(Utf8Char(c), 2) == (n / 64) * 64 + n % 64;
  }

  lemma ThreeByteWellFormed(c: char)
    requires 0x800 <= c as int < 0x1_0000
    ensures |Utf8Char(c)| == 3 == SequenceLength(Utf8Char(c)[0])
    ensures IsContinuation(Utf8Char(c)[1]) && IsContinuation(Utf8Char(c)[2])
    ensures CodePoint(Utf8Char(c), 3) == c as int
  {
    var n := c as int;
    assert Utf8Char(c) == [0xE0 + n / 4096, 0x80 + (n / 64) % 64, 0x80 + n % 64];
    assert CodePoint(Utf8Char(c), 3) == (n / 4096) * 4096 + ((n / 64) % 64) * 64 + n % 64;
    assert (n / 4096) * 64 + (n / 64) % 64 == n / 64;
  }

  lemma FourByteWellFormed(c: char)
    requires 0x1_0000 <= c as int
    ensures |Utf8Char(c)| == 4 == SequenceLength(Utf8Char(c)[0])
    ensures IsContinuation(Utf8Char(c)[1]) && IsContinuation(Utf8Char(c)[2]) && IsContinuation(Utf8Char(c)[3])
    ensures CodePoint(Utf8Char(c), 4) == c as int
  {
    var n := c as int;
    assert n < 0x11_0000;
    assert Utf8Char(c) == [0xF0 + n / 262144, 0x80 + (n / 4096) % 64, 0x80 + (n / 64) % 64, 0x80 + n % 64];
    assert CodePoint(Utf8Char(c), 4) == (n / 262144) * 262144 + ((n / 4096) % 64) * 4096 + ((n / 64) % 64) * 64 + n % 64;
    assert (n / 262144) * 64 + (n / 4096) % 64 == n / 4096;
    assert (n / 4096) * 64 + (n / 64) % 64 == n / 64;
  }

  lemma Utf8CharDecodes(c: char, tail: seq<byte>)
    ensures Utf8Decode(Utf8Char(c) + tail) ==
            match Utf8Decode(tail) case None => None case Some(rest) => Some([c] + rest)
  {
    var e := Utf8Char(c);
    var bs := e + tail;
    var len := |e|;
    Utf8CharWellFormed(c);
    assert bs[len..] == tail;
    assert bs[0] == e[0];
    assert forall k :: 0 <= k < len ==> bs[k] == e[k];
    assert CodePoint(bs, len) == CodePoint(e, len);
    assert (CodePoint(bs, len) as char) == c;
  }

  /** UTF-8 decoding inverts the encoding, so the name is recoverable from `ssid_hex`. */
  lemma {:induction false} Utf8RoundTrip(s: string)
    ensures Utf8Decode(Utf8Encode(s)) == Some(s)
  {
    if s != [] {
      Utf8RoundTrip(s[1..]);
      Utf8CharDecodes(s[0], Utf8Encode(s[1..]));
      assert [s[0]] + s[1..] == s;
    }
  }

  /** Different names have different `ssid_hex` values. */
  lemma SsidHexInjective(a: string, b: string)
    requires SsidHex(a) == SsidHex(b)
    ensures a == b
  {
    SsidHexIsUpperHexOfUtf8(a);
    SsidHexIsUpperHexOfUtf8(b);
    Utf8RoundTrip(a);
    Utf8RoundTrip(b);
  }

  // ---------------------------------------------------------------------------
  // to_dict

  datatype DictValue = Str(s: string) | Flag(b: bool)

  /** `WiFiProfile.to_dict`: the seven fields under their Python names, enumerations
      replaced by their values. */
  function ToDict(p: WiFiProfile): (d: map<string, DictValue>)
    ensures d.Keys == {"name", "password", "connection_mode", "authentication_type",
                       "encryption_type", "auto_switch", "enable_randomization"}
    ensures d["name"] == Str(p.name) && d["password"] == Str(p.password)
    ensures d["connection_mode"] == Str(p.connectionMode.Value())
    ensures d["authentication_type"] == Str(p.authenticationType.Value())
    ensures d["encryption_type"] == Str(p.encryptionType.Value())
    ensures d["auto_switch"] == Flag(p.autoSwitch)
    ensures d["enable_randomization"] == Flag(p.enableRandomization)
  {
    map[
      "name" := Str(p.name),
      "password" := Str(p.password),
      "connection_mode" := Str(p.connectionMode.Value()),
      "authentication_type" := Str(p.authenticationType.Value()),
      "encryption_type" := Str(p.encryptionType.Value()),
      "auto_switch" := Flag(p.autoSwitch),
      "enable_randomization" := Flag(p.enableRandomization)
    ]
  }

  /** `to_dict` loses nothing: two profiles with the same dictionary are the same profile. */
  lemma ToDictInjective(p: WiFiProfile, q: WiFiProfile)
    requires ToDict(p) == ToDict(q)
    ensures p == q
  {
    var dp, dq := ToDict(p), ToDict(q);
    assert dp["connection_mode"] == dq["connection_mode"];
    assert dp["authentication_type"] == dq["authentication_type"];
    assert dp["encryption_type"] == dq["encryption_type"];
    ValueLookupInverts(p.connectionMode, p.authenticationType, p.encryptionType);
    ValueLookupInverts(q.connectionMode, q.authenticationType, q.encryptionType);
    assert dp["name"] == dq["name"] && dp["password"] == dq["password"];
    assert dp["auto_switch"] == dq["auto_switch"];
    assert dp["enable_randomization"] == dq["enable_randomization"];
  }
}
