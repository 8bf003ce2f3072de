/** The two `show interfaces` outputs of the executor's tests, a Chinese and an English one.
    Each row of an output is read by the model of one pass of `_parse_interface_status`'s
    loop, whatever its column widths, and any thirteen lines that read as a test's rows give
    the status the test expects, with a state `_is_connected_state` accepts. */
module NetshExamples {
  import opened Wrappers
  import opened Text
  import opened NetshExecutor

  /** `n` spaces. */
  function Spaces(n: nat): (s: string)
    ensures |s| == n && forall i :: 0 <= i < n ==> s[i] == ' '
  {
    seq(n, i => ' ')
  }

  /** A row as netsh prints it: indentation, the label, padding, a colon, a space, the value. */
  function Row(indent: nat, key: string, pad: nat, value: string): string
  {
    Spaces(indent) + key + Spaces(pad) + ": " + value
  }

  /** A text with something other than whitespace at both ends. */
  predicate Solid(s: string)
  {
    s != [] && !IsSpace(s[0]) && !IsSpace(s[|s| - 1])
  }

  /** A row reads as its lower-cased label and its value, whatever its padding. */
  lemma RowEntry(indent: nat, key: string, pad: nat, value: string)
    requires Solid(key) && ':' !in key && Solid(value)
    ensures LineEntry(Row(indent, key, pad, value)) == Some(Entry(Lower(key), value))
  {
    var head := Spaces(indent) + key + Spaces(pad);
    assert Row(indent, key, pad, value) == head + ":" + (" " + value);
    assert ':' !in Spaces(indent) + key + Spaces(pad);
    FirstColonSplits(head, " " + value);
    StripPadded(Spaces(indent), key, Spaces(pad));
    StripPadded(" ", value, "");
    assert " " + value + "" == " " + value;
  }

  /** A row whose lower-cased label the status parser knows fills that field. */
  lemma KnownRow(indent: nat, key: string, pad: nat, value: string, low: string, f: Field)
    requires Solid(key) && ':' !in key && Solid(value)
    requires Lower(key) == low && Classify(low) == Some(f)
    ensures LineRead(Row(indent, key, pad, value)) == Some((f, value))
  {
    RowEntry(indent, key, pad, value);
  }

  /** A row whose lower-cased label is none of the parser's and does not start with `s`
      contributes nothing. */
  lemma OtherRow(indent: nat, key: string, pad: nat, value: string, low: string)
    requires Solid(key) && ':' !in key && Solid(value)
    requires Lower(key) == low && low[0] != 's'
    requires low !in {"name", "名称", "state", "状态", "profile", "配置文件"}
    ensures LineRead(Row(indent, key, pad, value)) == None
  {
    RowEntry(indent, key, pad, value);
    if |low| >= 4 {
      assert low[..4][0] != "ssid"[0];
    }
  }

  /** What the rows of the Chinese output read as, row by row. In the test's output every
      row after the first is indented by 12 and the labels are padded by [19, 19, 19, 15, 19, 19, 18, 15, 13, 15, 19, 15, 15]. */
  const ChineseReads: seq<Read> := [
    Some((NameField, "Wi-Fi")),
    None,
    None,
    None,
    Some((StateField, "已连接")),
    Some((SsidField, "7-1客厅_5G")),
    None,
    None,
    None,
    None,
    None,
    None,
    Some((ProfileField, "7-1客厅_5G"))
  ]

  lemma ChineseNameRow(pad: nat)
    ensures LineRead(Row(0, "名称", pad, "Wi-Fi")) == Some((NameField, "Wi-Fi"))
  {
    KnownRow(0, "名称", pad, "Wi-Fi", "名称", NameField);
  }

  lemma ChineseDescriptionRow(indent: nat, pad: nat)
    ensures LineRead(Row(indent, "描述", pad, "Intel(R) Wi-Fi")) == None
  {
    OtherRow(indent, "描述", pad, "Intel(R) Wi-Fi", "描述");
  }

  lemma ChineseGuidRow(indent: nat, pad: nat)
    ensures LineRead(Row(indent, "GUID", pad, "00000000-0000-0000-0000-000000000000")) == None
  {
    OtherRow(indent, "GUID", pad, "00000000-0000-0000-0000-000000000000", "guid");
  }

  lemma ChinesePhysicalAddressRow(indent: nat, pad: nat)
    ensures LineRead(Row(indent, "物理地址", pad, "00:11:22:33:44:55")) == None
  {
    OtherRow(indent, "物理地址", pad, "00:11:22:33:44:55", "物理地址");
  }

  lemma ChineseStateRow(indent: nat, pad: nat)
    ensures LineRead(Row(indent, "状态", pad, "已连接")) == Some((StateField, "已连接"))
  {
    KnownRow(indent, "状态", pad, "已连接", "状态", StateField);
  }

  lemma ChineseSsidRow(indent: nat, pad: nat)
    ensures LineRead(Row(indent, "SSID", pad, "7-1客厅_5G")) == Some((SsidField, "7-1客厅_5G"))
  {
    KnownRow(indent, "SSID", pad, "7-1客厅_5G", "ssid", SsidField);
  }

  lemma ChineseBssidRow(indent: nat, pad: nat)
    ensures LineRead(Row(indent, "BSSID", pad, "11:22:33:44:55:66")) == None
  {
    OtherRow(indent, "BSSID", pad, "11:22:33:44:55:66", "bssid");
  }

  lemma ChineseNetworkTypeRow(indent: nat, pad: nat)
    ensures LineRead(Row(indent, "网络类型", pad, "结构")) == None
  {
    OtherRow(indent, "网络类型", pad, "结构", "网络类型");
  }

  lemma ChineseRadioTypeRow(indent: nat, pad: nat)
    ensures LineRead(Row(indent, "无线电类型", pad, "802.11ac")) == None
  {
    OtherRow(indent, "无线电类型", pad, "802.11ac", "无线电类型");
  }

  lemma ChineseAuthenticationRow(indent: nat, pad: nat)
    ensures LineRead(Row(indent, "身份验证", pad, "WPA2-Personal")) == None
  {
    OtherRow(indent, "身份验证", pad, "WPA2-Personal", "身份验证");
  }

  lemma ChineseCipherRow(indent: nat, pad: nat)
    ensures LineRead(Row(indent, "加密", pad, "CCMP")) == None
  {
    OtherRow(indent, "加密", pad, "CCMP", "加密");
  }

  lemma ChineseConnectionModeRow(indent: nat, pad: nat)
    ensures LineRead(Row(indent, "连接模式", pad, "自动连接")) == None
  {
    OtherRow(indent, "连接模式", pad, "自动连接", "连接模式");
  }

  lemma ChineseProfileRow(indent: nat, pad: nat)
    ensures LineRead(Row(indent, "配置文件", pad, "7-1客厅_5G")) == Some((ProfileField, "7-1客厅_5G"))
  {
    KnownRow(indent, "配置文件", pad, "7-1客厅_5G", "配置文件", ProfileField);
  }

  /** The Chinese reads give the test's status: the SSID and the profile come from their
      rows, the "BSSID" row after the SSID row leaves the SSID alone, and the state "已连接"
      counts as connected. */
  lemma ChineseReadsStatus()
    ensures ApplyAll(ChineseReads) == NetshInterfaceStatus(Some("Wi-Fi"), Some("已连接"), Some("7-1客厅_5G"), Some("7-1客厅_5G"))
    ensures IsConnectedState(ApplyAll(ChineseReads).state)
  {
    LastReadIsKept(ChineseReads, NameField, 0);
    LastReadIsKept(ChineseReads, StateField, 4);
    LastReadIsKept(ChineseReads, SsidField, 5);
    LastReadIsKept(ChineseReads, ProfileField, 12);
    ChineseConnectedCounts();
  }

  /** So any thirteen lines that read as the Chinese rows give that status. */
  lemma ChineseStatus(lines: seq<string>)
    requires |lines| == 13 && forall k :: 0 <= k < 13 ==> LineRead(lines[k]) == ChineseReads[k]
    ensures StatusOf(lines) == NetshInterfaceStatus(Some("Wi-Fi"), Some("已连接"), Some("7-1客厅_5G"), Some("7-1客厅_5G"))
    ensures IsConnectedState(StatusOf(lines).state)
  {
    assert ReadsOf(lines) == ChineseReads;
    ChineseReadsStatus();
  }

  /** What the rows of the English output read as, row by row. In the test's output every
      row after the first is indented by 12 and the labels are padded by [19, 12, 19, 7, 18, 19, 18, 11, 13, 9, 17, 8, 16]. */
  const EnglishReads: seq<Read> := [
    Some((NameField, "Wi-Fi")),
    None,
    None,
    None,
    Some((StateField, "connected")),
    Some((SsidField, "MyWifi")),
    None,
    None,
    None,
    None,
    None,
    None,
    Some((ProfileField, "MyWifi"))
  ]

  lemma EnglishNameRow(pad: nat)
    ensures LineRead(Row(0, "Name", pad, "Wi-Fi")) == Some((NameField, "Wi-Fi"))
  {
    KnownRow(0, "Name", pad, "Wi-Fi", "name", NameField);
  }

  lemma EnglishDescriptionRow(indent: nat, pad: nat)
    ensures LineRead(Row(indent, "Description", pad, "Intel(R) Wi-Fi")) == None
  {
    OtherRow(indent, "Description", pad, "Intel(R) Wi-Fi", "description");
  }

  lemma EnglishGuidRow(indent: nat, pad: nat)
    ensures LineRead(Row(indent, "GUID", pad, "00000000-0000-0000-0000-000000000000")) == None
  {
    OtherRow(indent, "GUID", pad, "00000000-0000-0000-0000-000000000000", "guid");
  }

  lemma EnglishPhysicalAddressRow(indent: nat, pad: nat)
    ensures LineRead(Row(indent, "Physical address", pad, "00:11:22:33:44:55")) == None
  {
    OtherRow(indent, "Physical address", pad, "00:11:22:33:44:55", "physical address");
  }

  lemma EnglishStateRow(indent: nat, pad: nat)
    ensures LineRead(Row(indent, "State", pad, "connected")) == Some((StateField, "connected"))
  {
    KnownRow(indent, "State", pad, "connected", "state", StateField);
  }

  lemma EnglishSsidRow(indent: nat, pad: nat)
    ensures LineRead(Row(indent, "SSID", pad, "MyWifi")) == Some((SsidField, "MyWifi"))
  {
    KnownRow(indent, "SSID", pad, "MyWifi", "ssid", SsidField);
  }

  lemma EnglishBssidRow(indent: nat, pad: nat)
    ensures LineRead(Row(indent, "BSSID", pad, "11:22:33:44:55:66")) == None
  {
    OtherRow(indent, "BSSID", pad, "11:22:33:44:55:66", "bssid");
  }

  lemma EnglishNetworkTypeRow(indent: nat, pad: nat)
    ensures LineRead(Row(indent, "Network type", pad, "Infrastructure")) == None
  {
    OtherRow(indent, "Network type", pad, "Infrastructure", "network type");
  }

  lemma EnglishRadioTypeRow(indent: nat, pad: nat)
    ensures LineRead(Row(indent, "Radio type", pad, "802.11ac")) == None
  {
    OtherRow(indent, "Radio type", pad, "802.11ac", "radio type");
  }

  lemma EnglishAuthenticationRow(indent: nat, pad: nat)
    ensures LineRead(Row(indent, "Authentication", pad, "WPA2-Personal")) == None
  {
    OtherRow(indent, "Authentication", pad, "WPA2-Personal", "authentication");
  }

  lemma EnglishCipherRow(indent: nat, pad: nat)
    ensures LineRead(Row(indent, "Cipher", pad, "CCMP")) == None
  {
    OtherRow(indent, "Cipher", pad, "CCMP", "cipher");
  }

  lemma EnglishConnectionModeRow(indent: nat, pad: nat)
    ensures LineRead(Row(indent, "Connection mode", pad, "Auto Connect")) == None
  {
    OtherRow(indent, "Connection mode", pad, "Auto Connect", "connection mode");
  }

  lemma EnglishProfileRow(indent: nat, pad: nat)
    ensures LineRead(Row(indent, "Profile", pad, "MyWifi")) == Some((ProfileField, "MyWifi"))
  {
    KnownRow(indent, "Profile", pad, "MyWifi", "profile", ProfileField);
  }

  /** The English reads give the test's status: the SSID and the profile come from their
      rows, the "BSSID" row after the SSID row leaves the SSID alone, and the state "connected"
      counts as connected. */
  lemma EnglishReadsStatus()
    ensures ApplyAll(EnglishReads) == NetshInterfaceStatus(Some("Wi-Fi"), Some("connected"), Some("MyWifi"), Some("MyWifi"))
    ensures IsConnectedState(ApplyAll(EnglishReads).state)
  {
    LastReadIsKept(EnglishReads, NameField, 0);
    LastReadIsKept(EnglishReads, StateField, 4);
    LastReadIsKept(EnglishReads, SsidField, 5);
    LastReadIsKept(EnglishReads, ProfileField, 12);
    ConnectedCounts();
  }

  /** So any thirteen lines that read as the English rows give that status. */
  lemma EnglishStatus(lines: seq<string>)
    requires |lines| == 13 && forall k :: 0 <= k < 13 ==> LineRead(lines[k]) == EnglishReads[k]
    ensures StatusOf(lines) == NetshInterfaceStatus(Some("Wi-Fi"), Some("connected"), Some("MyWifi"), Some("MyWifi"))
    ensures IsConnectedState(StatusOf(lines).state)
  {
    assert ReadsOf(lines) == EnglishReads;
    EnglishReadsStatus();
  }

}
