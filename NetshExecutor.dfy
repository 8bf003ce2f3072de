/** The text layer over `netsh wlan`: reading `label : value` lines, the "connected" test,
    the quoting of `key=value` arguments, the saved-profile scanner and the decision of
    `connect`. Running a command is not modelled: its `(success, output)` pair is an input. */
module NetshExecutor {
  import opened Wrappers
  import opened Text
  import opened Seqs

  /** What `netsh wlan show interfaces` says about the wireless interface; a field is `None`
      when no line gave it a value. */
  datatype NetshInterfaceStatus = NetshInterfaceStatus(
    interfaceName: Option<string>,
    state: Option<string>,
    ssid: Option<string>,
    profile: Option<string>)

  const NoStatus := NetshInterfaceStatus(None, None, None, None)

  /** What the command runner returns: whether the exit status was zero, and standard output
      followed by standard error. */
  datatype CommandResult = CommandResult(success: bool, output: string)

  // ---------------------------------------------------------------------------
  // One line of output

  /** A line's normalised label and its value. */
  datatype Entry = Entry(key: string, value: string)

  /** How both line loops read a line: strip it; a line left empty or without a colon is
      skipped; otherwise it splits at its first colon only, the label is stripped and
      lower-cased and the value stripped. */
  function LineEntry(rawLine: string): (r: Option<Entry>)
    ensures r.None? <==> ':' !in Strip(rawLine)
  {
    var line := Strip(rawLine);
    if line == [] || ':' !in line then None
    else Some(Entry(Lower(Strip(Before(line, ':'))), Strip(After(line, ':'))))
  }

  /** A stripped `head:rest` line splits at the colon after `head`. */
  lemma ColonLine(head: string, rest: string)
    requires ':' !in head
    ensures ':' in Strip(head + ":" + rest)
    ensures Strip(Before(Strip(head + ":" + rest), ':')) == Strip(head)
    ensures Strip(After(Strip(head + ":" + rest), ':')) == Strip(rest)
  {
    var raw := head + [':'] + rest;
    assert head + ":" + rest == raw;
    StripAround(head, ':', rest);
    var l, r := TrimLeft(head), TrimRight(rest);
    assert forall k :: 0 <= k < |l| ==> l[k] == head[StripStart(head) + k];
    SplitFirstOf(l, ':', r);
    StripTrimLeft(head);
    StripTrimRight(rest);
  }

  /** Only the first colon splits a line: whatever follows it, further colons included, is
      the value once stripped, and the label is everything before it. */
  lemma FirstColonSplits(head: string, rest: string)
    requires ':' !in head
    ensures LineEntry(head + ":" + rest) == Some(Entry(Lower(Strip(head)), Strip(rest)))
  {
    ColonLine(head, rest);
  }

  /** The fields of the status. */
  datatype Field = NameField | StateField | SsidField | ProfileField

  /** The field a normalised label fills, tried in the parser's order: the English or Chinese
      name, state, any label starting with "ssid", profile. */
  function Classify(key: string): (f: Option<Field>)
    ensures f == Some(NameField) <==> key in {"name", "名称"}
    ensures f == Some(StateField) <==> key in {"state", "状态"}
    ensures f == Some(SsidField) <==> StartsWith(key, "ssid")
    ensures f == Some(ProfileField) <==> key in {"profile", "配置文件"}
  {
    SsidPrefix(key);
    if key in {"name", "名称"} then Some(NameField)
    else if key in {"state", "状态"} then Some(StateField)
    else if StartsWith(key, "ssid") then Some(SsidField)
    else if key in {"profile", "配置文件"} then Some(ProfileField)
    else None
  }

  /** A label that starts with "ssid" starts with two `s`: none of the other labels does. */
  lemma SsidPrefix(key: string)
    ensures StartsWith(key, "ssid") ==> |key| >= 4 && key[0] == 's' && key[1] == 's'
  {
    if StartsWith(key, "ssid") {
      assert key[0] == key[..4][0] && key[1] == key[..4][1];
    }
  }

  /** What one line contributes to the status: the field it fills and the value, or nothing
      (skipped, empty value, or a label the parser does not know). */
  type Read = Option<(Field, string)>

  function EntryRead(e: Entry): Read
  {
    if e.value == [] then None
    else match Classify(e.key)
      case None => None
      case Some(f) => Some((f, e.value))
  }

  function LineRead(rawLine: string): Read
  {
    match LineEntry(rawLine)
    case None => None
    case Some(e) => EntryRead(e)
  }

  function ReadsOf(lines: seq<string>): (rs: seq<Read>)
    ensures |rs| == |lines| && forall i :: 0 <= i < |lines| ==> rs[i] == LineRead(lines[i])
  {
    MapSeq(LineRead, lines)
  }

  function FieldOf(st: NetshInterfaceStatus, f: Field): Option<string>
  {
    match f
    case NameField => st.interfaceName
    case StateField => st.state
    case SsidField => st.ssid
    case ProfileField => st.profile
  }

  /** One pass of the status loop: a read overwrites its field. */
  function Apply(st: NetshInterfaceStatus, r: Read): NetshInterfaceStatus
  {
    match r
    case None => st
    case Some((NameField, v)) => st.(interfaceName := Some(v))
    case Some((StateField, v)) => st.(state := Some(v))
    case Some((SsidField, v)) => st.(ssid := Some(v))
    case Some((ProfileField, v)) => st.(profile := Some(v))
  }

  /** The status after applying `rs` in order. */
  function ApplyAll(rs: seq<Read>): NetshInterfaceStatus
  {
    if rs == [] then NoStatus else Apply(ApplyAll(rs[..|rs| - 1]), rs[|rs| - 1])
  }

  /** The status after reading `lines` in order. */
  function StatusOf(lines: seq<string>): NetshInterfaceStatus
  {
    ApplyAll(ReadsOf(lines))
  }

  /** `_parse_interface_status` */
  method ParseInterfaceStatus(output: string) returns (status: NetshInterfaceStatus)
    ensures status == StatusOf(SplitLines(output))
  {
    var lines := SplitLines(output);
    ghost var rs := ReadsOf(lines);
    var interfaceName: Option<string>, state: Option<string> := None, None;
    var ssid: Option<string>, profile: Option<string> := None, None;
    for i := 0 to |lines|
      invariant NetshInterfaceStatus(interfaceName, state, ssid, profile) == ApplyAll(rs[..i])
    {
      assert rs[..i + 1][..i] == rs[..i];
      var line := Strip(lines[i]);
      if line == [] || ':' !in line {
        continue;
      }
      var left, right := Before(line, ':'), After(line, ':');
      var key := Lower(Strip(left));
      var value := Strip(right);
      if value == [] {
        continue;
      }
      if key in {"name", "名称"} {
        interfaceName := Some(value);
        continue;
      }
      if key in {"state", "状态"} {
        state := Some(value);
        continue;
      }
      if StartsWith(key, "ssid") {
        ssid := Some(value);
        continue;
      }
      if key in {"profile", "配置文件"} {
        profile := Some(value);
        continue;
      }
    }
    assert rs[..|lines|] == rs;
    status := NetshInterfaceStatus(interfaceName, state, ssid, profile);
  }

  /** The value a read gives field `f`, if it gives one. */
  function ValueFor(r: Read, f: Field): Option<string>
  {
    if r.Some? && r.value.0 == f then Some(r.value.1) else None
  }

  /** The value a line gives field `f`, if it gives one. */
  function LineValue(rawLine: string, f: Field): Option<string>
  {
    ValueFor(LineRead(rawLine), f)
  }

  /** A read sets the one field it names and leaves the other three as they were. */
  lemma ApplyField(st: NetshInterfaceStatus, r: Read, f: Field)
    ensures FieldOf(Apply(st, r), f) == if ValueFor(r, f).Some? then ValueFor(r, f) else FieldOf(st, f)
  {
  }

  /** Later reads overwrite earlier ones: a field is `None` exactly when no read gives it a
      value, and otherwise it holds the value of the last read that does. */
  lemma {:induction false} LastReadWins(rs: seq<Read>, f: Field)
    ensures FieldOf(ApplyAll(rs), f).None? <==>
            forall i :: 0 <= i < |rs| ==> ValueFor(rs[i], f).None?
    ensures FieldOf(ApplyAll(rs), f).Some? ==>
            exists i :: 0 <= i < |rs| && ValueFor(rs[i], f) == FieldOf(ApplyAll(rs), f) &&
                        forall j :: i < j < |rs| ==> ValueFor(rs[j], f).None?
  {
    if rs != [] {
      var n := |rs| - 1;
      var init := rs[..n];
      LastReadWins(init, f);
      ApplyField(ApplyAll(init), rs[n], f);
      assert forall i :: 0 <= i < n ==> init[i] == rs[i];
      if ValueFor(rs[n], f).None? && FieldOf(ApplyAll(init), f).Some? {
        var i :| 0 <= i < n && ValueFor(init[i], f) == FieldOf(ApplyAll(init), f) &&
                 forall j :: i < j < n ==> ValueFor(init[j], f).None?;
        assert ValueFor(rs[i], f) == FieldOf(ApplyAll(rs), f);
      }
    }
  }

  /** The value of the last read that gives a field one is the field's value. */
  lemma LastReadIsKept(rs: seq<Read>, f: Field, i: nat)
    requires i < |rs| && ValueFor(rs[i], f).Some?
    requires forall j :: i < j < |rs| ==> ValueFor(rs[j], f).None?
    ensures FieldOf(ApplyAll(rs), f) == ValueFor(rs[i], f)
  {
    LastReadWins(rs, f);
    var k :| 0 <= k < |rs| && ValueFor(rs[k], f) == FieldOf(ApplyAll(rs), f) &&
             forall j :: k < j < |rs| ==> ValueFor(rs[j], f).None?;
    assert k == i;
  }

  /** Later lines overwrite earlier ones: a field is `None` exactly when no line gives it a
      value, and otherwise it holds the value of the last line that does. */
  lemma LastMatchWins(lines: seq<string>, f: Field)
    ensures FieldOf(StatusOf(lines), f).None? <==>
            forall i :: 0 <= i < |lines| ==> LineValue(lines[i], f).None?
    ensures FieldOf(StatusOf(lines), f).Some? ==>
            exists i :: 0 <= i < |lines| && LineValue(lines[i], f) == FieldOf(StatusOf(lines), f) &&
                        forall j :: i < j < |lines| ==> LineValue(lines[j], f).None?
  {
    var rs := ReadsOf(lines);
    LastReadWins(rs, f);
    if FieldOf(StatusOf(lines), f).Some? {
      var i :| 0 <= i < |rs| && ValueFor(rs[i], f) == FieldOf(ApplyAll(rs), f) &&
               forall j :: i < j < |rs| ==> ValueFor(rs[j], f).None?;
      assert LineValue(lines[i], f) == FieldOf(StatusOf(lines), f);
    }
  }

  /** The value of the last line that gives a field one is the field's value. */
  lemma LastMatchIsKept(lines: seq<string>, f: Field, i: nat)
    requires i < |lines| && LineValue(lines[i], f).Some?
    requires forall j :: i < j < |lines| ==> LineValue(lines[j], f).None?
    ensures FieldOf(StatusOf(lines), f) == LineValue(lines[i], f)
  {
    LastMatchWins(lines, f);
    var k :| 0 <= k < |lines| && LineValue(lines[k], f) == FieldOf(StatusOf(lines), f) &&
             forall j :: k < j < |lines| ==> LineValue(lines[j], f).None?;
    assert k == i;
  }

  /** Text in which no line gives any field a value yields the empty status. */
  lemma NoMatchNoStatus(lines: seq<string>)
    requires forall i :: 0 <= i < |lines| ==> LineRead(lines[i]).None?
    ensures StatusOf(lines) == NoStatus
  {
    LastMatchWins(lines, NameField);
    LastMatchWins(lines, StateField);
    LastMatchWins(lines, SsidField);
    LastMatchWins(lines, ProfileField);
  }

  /** "BSSID" is not an "ssid" label, while any label that starts with "ssid" is. */
  lemma BssidIsNotSsid(rest: string)
    ensures Classify("bssid") == None
    ensures Classify("ssid" + rest) == Some(SsidField)
  {
    assert "bssid"[..4] != "ssid" by { assert "bssid"[0] != "ssid"[0]; }
    var key := "ssid" + rest;
    assert key[..4] == "ssid";
    assert key != "name" && key != "state" by { assert key[0] == 's' && key[1] == 's'; }
  }

  /** `get_interface_status`: a failed command with no output gives the empty status, which is
      also what reading its (empty) output would give. */
  method GetInterfaceStatus(run: CommandResult) returns (status: NetshInterfaceStatus)
    ensures status == StatusOf(SplitLines(run.output))
  {
    if !run.success && run.output == [] {
      assert ReadsOf(SplitLines(run.output)) == [];
      return NoStatus;
    }
    status := ParseInterfaceStatus(run.output);
  }

  // ---------------------------------------------------------------------------
  // `_extract_value`

  /** The value a line gives when its label is one of `keys`. */
  function EntryValue(e: Entry, keys: set<string>): Option<string>
  {
    if e.key in keys && e.value != [] then Some(e.value) else None
  }

  function KeyedValue(rawLine: string, keys: set<string>): Option<string>
  {
    match LineEntry(rawLine)
    case None => None
    case Some(e) => EntryValue(e, keys)
  }

  function KeyedValues(lines: seq<string>, keys: set<string>): (vs: seq<Option<string>>)
    ensures |vs| == |lines| && forall i :: 0 <= i < |lines| ==> vs[i] == KeyedValue(lines[i], keys)
  {
    MapSeq(l => KeyedValue(l, keys), lines)
  }

  function FirstValue(lines: seq<string>, keys: set<string>): Option<string>
  {
    FirstSome(KeyedValues(lines, keys))
  }

  /** `_extract_value` */
  method ExtractValue(output: string, keys: set<string>) returns (r: Option<string>)
    ensures r == FirstValue(SplitLines(output), keys)
  {
    var lines := SplitLines(output);
    ghost var vs := KeyedValues(lines, keys);
    for i := 0 to |lines|
      invariant FirstSome(vs) == FirstSome(vs[i..])
    {
      assert vs[i..][1..] == vs[i + 1..];
      var line := Strip(lines[i]);
      if line == [] || ':' !in line {
        continue;
      }
      var left, right := Before(line, ':'), After(line, ':');
      var key := Lower(Strip(left));
      if key in keys {
        var value := Strip(right);
        if value != [] {
          return Some(value);
        }
      }
    }
    return None;
  }

  /** Unlike the status parser, `_extract_value` keeps the first match: `None` exactly when
      no line has a listed label and a value, and otherwise the value of the first such line. */
  lemma FirstMatchWins(lines: seq<string>, keys: set<string>)
    ensures FirstValue(lines, keys).None? <==>
            forall i :: 0 <= i < |lines| ==> KeyedValue(lines[i], keys).None?
    ensures FirstValue(lines, keys).Some? ==>
            exists i :: 0 <= i < |lines| && KeyedValue(lines[i], keys) == FirstValue(lines, keys) &&
                        forall j :: 0 <= j < i ==> KeyedValue(lines[j], keys).None?
  {
    var vs := KeyedValues(lines, keys);
    FirstSomeIsFirst(vs);
    if FirstValue(lines, keys).Some? {
      var i :| 0 <= i < |vs| && vs[i] == FirstSome(vs) && forall j :: 0 <= j < i ==> vs[j].None?;
      assert KeyedValue(lines[i], keys) == FirstValue(lines, keys);
    }
  }

  /** Looking up the name labels gives what the status parser reads for the interface name. */
  lemma NameKeysAgree(rawLine: string)
    ensures KeyedValue(rawLine, {"name", "名称"}) == LineValue(rawLine, NameField)
  {
    match LineEntry(rawLine)
    case None =>
    case Some(e) => NameKeysAgreeOn(e);
  }

  lemma NameKeysAgreeOn(e: Entry)
    ensures EntryValue(e, {"name", "名称"}) == ValueFor(EntryRead(e), NameField)
  {
    assert Classify(e.key) == Some(NameField) <==> e.key in {"name", "名称"};
  }

  /** With two name lines the two readers disagree: `_extract_value` returns the first value,
      the status parser the last. */
  lemma FirstAndLastDiffer(a: string, b: string)
    requires LineValue(a, NameField).Some? && LineValue(b, NameField).Some?
    ensures FirstValue([a, b], {"name", "名称"}) == LineValue(a, NameField)
    ensures StatusOf([a, b]).interfaceName == LineValue(b, NameField)
  {
    NameKeysAgree(a);
    LastMatchIsKept([a, b], NameField, 1);
    var vs := KeyedValues([a, b], {"name", "名称"});
    assert vs[0] == LineValue(a, NameField);
  }

  // ---------------------------------------------------------------------------
  // `_is_connected_state`, `is_connected_to`

  /** `_is_connected_state`: the stripped, lower-cased state contains "connected" or the state
      contains "已连接". */
  /** Stripping makes no difference: the test is a plain substring test on the lower-cased
      state, so any state containing "connected" in any letter case passes, "disconnected"
      included. */
  predicate IsConnectedState(state: Option<string>)
    ensures IsConnectedState(state) <==>
      state.Some? && (Contains(Lower(state.value), "connected") || Contains(state.value, "已连接"))
  {
    match state
    case None => false
    case Some(s) =>
      LowerStrip(s);
      ContainsStrip(Lower(s), "connected");
      Contains(Lower(Strip(s)), "connected") || Contains(s, "已连接")
  }

  lemma LowerConnected()
    ensures Lower("connected") == "connected"
  {
  }

  /** Any state with "connected" inside it passes, whatever surrounds it. */
  lemma ContainingConnected(a: string, b: string)
    ensures IsConnectedState(Some(a + "connected" + b))
  {
    var s := a + "connected" + b;
    assert s[|a|..|a| + 9] == "connected";
    LowerSlice(s, |a|, |a| + 9);
    LowerConnected();
    assert OccursAt(Lower(s), "connected", |a|);
  }

  lemma ConnectedCounts()
    ensures IsConnectedState(Some("connected"))
  {
    ContainingConnected("", "");
    assert "" + "connected" + "" == "connected";
  }

  /** "disconnected" counts as connected too; a missing state does not. */
  lemma DisconnectedCountsAsConnected()
    ensures IsConnectedState(Some("disconnected"))
    ensures !IsConnectedState(None)
  {
    var s := "disconnected";
    assert s == "dis" + "connected" by {
      assert |s| == 12;
      assert forall k :: 0 <= k < 12 ==> s[k] == ("dis" + "connected")[k];
    }
    ContainingConnected("dis", "");
    assert "dis" + "connected" + "" == "dis" + "connected";
  }

  /** The Chinese "已连接" counts, by the second test. */
  lemma ChineseConnectedCounts()
    ensures IsConnectedState(Some("已连接"))
  {
    assert OccursAt("已连接", "已连接", 0);
  }

  /** The decision of `is_connected_to`, on the status it reads. */
  predicate IsConnectedTo(status: NetshInterfaceStatus, name: string)
  {
    if !IsConnectedState(status.state) then false
    else if status.profile.Some? && status.profile.value == name then true
    else if status.ssid.Some? && status.ssid.value == name then true
    else false
  }

  /** The check `connect` makes before issuing a command. */
  predicate AlreadyConnected(status: NetshInterfaceStatus, name: string)
  {
    IsConnectedState(status.state) && (status.profile == Some(name) || status.ssid == Some(name))
  }

  /** `connect`'s own check and `is_connected_to` agree: connected, and the profile or the SSID
      is the name. */
  lemma AlreadyConnectedIsConnectedTo(status: NetshInterfaceStatus, name: string)
    ensures AlreadyConnected(status, name) <==> IsConnectedTo(status, name)
  {
  }

  // ---------------------------------------------------------------------------
  // `_format_netsh_kv_arg`

  /** `key=value`, with the value in double quotes when it holds any whitespace. */
  function FormatKvArg(key: string, value: string): (arg: string)
    ensures |arg| > |key| && arg[..|key| + 1] == key + "="
  {
    if HasSpace(value) then key + "=\"" + value + "\"" else key + "=" + value
  }

  /** The value is quoted exactly when it contains whitespace. */
  lemma QuotedIffSpace(key: string, value: string)
    ensures FormatKvArg(key, value) == key + "=\"" + value + "\"" <==> HasSpace(value)
    ensures FormatKvArg(key, value) == key + "=" + value <==> !HasSpace(value)
  {
    var q, p := key + "=\"" + value + "\"", key + "=" + value;
    assert |q| != |p|;
  }

  predicate IsQuoted(s: string)
  {
    |s| >= 2 && s[0] == '"' && s[|s| - 1] == '"'
  }

  /** How the argument reads back: the key up to the first `=`, then the value, with one pair
      of surrounding quotes removed. */
  function ParseKvArg(arg: string): Option<(string, string)>
  {
    if '=' !in arg then None
    else
      var rest := After(arg, '=');
      Some((Before(arg, '='), if IsQuoted(rest) then rest[1..|rest| - 1] else rest))
  }

  /** For a key without `=`, the formatted argument reads back as the key and the value,
      whenever the value does not already look quoted without holding whitespace. */
  lemma KvArgRoundTrip(key: string, value: string)
    requires '=' !in key
    requires HasSpace(value) || !IsQuoted(value)
    ensures ParseKvArg(FormatKvArg(key, value)) == Some((key, value))
  {
    if HasSpace(value) {
      assert key + "=\"" + value + "\"" == key + ['='] + ("\"" + value + "\"");
      SplitFirstOf(key, '=', "\"" + value + "\"");
      var rest := "\"" + value + "\"";
      assert rest[1..|rest| - 1] == value;
    } else {
      assert key + "=" + value == key + ['='] + value;
      SplitFirstOf(key, '=', value);
    }
  }

  // ---------------------------------------------------------------------------
  // `show_profiles`

  /** The saved-profile name a line of `netsh wlan show profiles` carries: a stripped line
      that mentions "所有用户配置文件" or "All User Profile" and has a colon gives everything
      after its first colon, stripped, when that is not empty. */
  function ProfileName(rawLine: string): Option<string>
  {
    var line := Strip(rawLine);
    if Contains(line, "所有用户配置文件") || Contains(line, "All User Profile") then
      var parts := SplitOn(line, ':');
      if |parts| >= 2 then
        var name := Strip(Join(parts[1..], ':'));
        if name != [] then Some(name) else None
      else None
    else None
  }

  function NamesOf(lines: seq<string>): (names: seq<Option<string>>)
    ensures |names| == |lines| && forall i :: 0 <= i < |lines| ==> names[i] == ProfileName(lines[i])
  {
    MapSeq(ProfileName, lines)
  }

  /** The names of `lines`, in line order. */
  function ProfileNames(lines: seq<string>): seq<string>
  {
    Somes(NamesOf(lines))
  }

  /** `show_profiles`: a failed command gives `(false, [])`; otherwise the names its output's
      `\n`-separated lines carry. */
  method ShowProfiles(run: CommandResult) returns (ok: bool, profiles: seq<string>)
    ensures ok == run.success
    ensures profiles == if run.success then ProfileNames(SplitOn(run.output, '\n')) else []
  {
    if !run.success {
      return false, [];
    }
    var lines := SplitOn(run.output, '\n');
    profiles := [];
    ghost var names := NamesOf(lines);
    for i := 0 to |lines|
      invariant profiles == Somes(names[..i])
    {
      assert names[..i + 1][..i] == names[..i];
      var line := Strip(lines[i]);
      if Contains(line, "所有用户配置文件") || Contains(line, "All User Profile") {
        var parts := SplitOn(line, ':');
        if |parts| >= 2 {
          var profileName := Strip(Join(parts[1..], ':'));
          if profileName != [] {
            profiles := profiles + [profileName];
          }
        }
      }
    }
    assert names[..|lines|] == names;
    ok := true;
  }

  /** A carried name is what follows the line's first colon, stripped: never empty, with no
      whitespace at its ends, and with any later colons kept. */
  lemma ProfileNameAfterFirstColon(rawLine: string)
    ensures ProfileName(rawLine).Some? ==>
            ':' in Strip(rawLine) && ProfileName(rawLine).value == Strip(After(Strip(rawLine), ':'))
    ensures ProfileName(rawLine).Some? ==>
            ProfileName(rawLine).value != [] && Strip(ProfileName(rawLine).value) == ProfileName(rawLine).value
  {
    var line := Strip(rawLine);
    SplitTailIsAfter(line, ':');
    if ProfileName(rawLine).Some? {
      StripIdempotent(After(line, ':'));
    }
  }

  /** Both directions at once: a line carries `v` exactly when its stripped form mentions a
      profile marker anywhere and has a colon, and `v` is the non-empty stripped text after
      the first colon. */
  lemma ProfileNameIff(rawLine: string, v: string)
    ensures ProfileName(rawLine) == Some(v) <==>
      (Contains(Strip(rawLine), "所有用户配置文件") || Contains(Strip(rawLine), "All User Profile")) &&
      ':' in Strip(rawLine) && v == Strip(After(Strip(rawLine), ':')) && v != []
  {
    SplitTailIsAfter(Strip(rawLine), ':');
    ProfileNameAfterFirstColon(rawLine);
  }

  /** A line labelled "All User Profile" (or its Chinese form) before its first colon carries
      the stripped text after that colon, unless that text is blank. */
  lemma ProfileLine(head: string, rest: string)
    requires ':' !in head
    requires Contains(head, "所有用户配置文件") || Contains(head, "All User Profile")
    ensures ProfileName(head + ":" + rest) == if Strip(rest) == [] then None else Some(Strip(rest))
  {
    var raw := head + [':'] + rest;
    assert head + ":" + rest == raw;
    if Contains(head, "所有用户配置文件") {
      MarkerSurvives(head, rest, "所有用户配置文件");
    } else {
      MarkerSurvives(head, rest, "All User Profile");
    }
    ColonLine(head, rest);
    SplitTailIsAfter(Strip(raw), ':');
  }

  /** A marker before the colon is still there once the line is stripped. */
  lemma MarkerSurvives(head: string, rest: string, w: string)
    requires w != [] && !IsSpace(w[0]) && !IsSpace(w[|w| - 1])
    requires Contains(head, w)
    ensures Contains(Strip(head + ":" + rest), w)
  {
    var i: nat :| OccursAt(head, w, i);
    OccursInPrefix(head, ":", w, i);
    OccursInPrefix(head + ":", rest, w, i);
    ContainsStrip(head + ":" + rest, w);
  }

  /** The names of consecutive blocks of lines come out block after block. */
  lemma ProfileNamesAppend(a: seq<string>, b: seq<string>)
    ensures ProfileNames(a + b) == ProfileNames(a) + ProfileNames(b)
  {
    MapAppend(ProfileName, a, b);
    SomesAppend(NamesOf(a), NamesOf(b));
  }

  /** Every listed name is carried by some line, and every carried name is listed. */
  lemma ProfileNamesMembers(lines: seq<string>, name: string)
    ensures name in ProfileNames(lines) <==> exists i :: 0 <= i < |lines| && ProfileName(lines[i]) == Some(name)
  {
    SomesMembers(NamesOf(lines), name);
  }

  // ---------------------------------------------------------------------------
  // `connect`

  /** The connect command: the name argument, then the interface argument when the interface
      name is known. */
  function ConnectCommand(name: string, interfaceName: Option<string>): (cmd: seq<string>)
    ensures |cmd| == if interfaceName.Some? then 5 else 4
    ensures cmd[..4] == ["netsh", "wlan", "connect", FormatKvArg("name", name)]
    ensures interfaceName.Some? ==> cmd[4] == FormatKvArg("interface", interfaceName.value)
  {
    ["netsh", "wlan", "connect", FormatKvArg("name", name)] +
    (if interfaceName.Some? then [FormatKvArg("interface", interfaceName.value)] else [])
  }

  function SuccessMessage(name: string): string
  {
    "已成功连接到 " + name
  }

  /** Python's `x or '未知'` on an optional text: unknown when missing or empty. */
  function OrUnknown(s: Option<string>): string
  {
    if s.Some? && s.value != [] then s.value else "未知"
  }

  /** The status summary of the failure message. */
  function Detail(status: NetshInterfaceStatus): string
  {
    "接口=" + OrUnknown(status.interfaceName) + ", 状态=" + OrUnknown(status.state) +
    ", SSID=" + OrUnknown(status.ssid) + ", 配置文件=" + OrUnknown(status.profile)
  }

  function FailureMessage(output: string, status: NetshInterfaceStatus): string
  {
    "连接失败: " + output + "\n" + Detail(status)
  }

  /** `connect`. `before` is the status read first, `run` the result of the connect command,
      `polls` the statuses read while the deadline has not passed, and `after` the status read
      for the failure message. It returns the command issued (none when already connected),
      the success flag and the message. */
  method Connect(name: string, before: NetshInterfaceStatus, run: CommandResult,
                 polls: seq<NetshInterfaceStatus>, after: NetshInterfaceStatus)
    returns (issued: Option<seq<string>>, success: bool, message: string)
    ensures issued == if AlreadyConnected(before, name) then None
                      else Some(ConnectCommand(name, before.interfaceName))
    ensures success <==> AlreadyConnected(before, name) ||
                         (exists i :: 0 <= i < |polls| && IsConnectedTo(polls[i], name)) ||
                         run.success
    ensures message == if success then SuccessMessage(name) else FailureMessage(run.output, after)
  {
    if IsConnectedState(before.state) && (before.profile == Some(name) || before.ssid == Some(name)) {
      return None, true, "已成功连接到 " + name;
    }
    var cmd := ["netsh", "wlan", "connect", FormatKvArg("name", name)];
    if before.interfaceName.Some? {
      cmd := cmd + [FormatKvArg("interface", before.interfaceName.value)];
    }
    assert cmd == ConnectCommand(name, before.interfaceName);
    issued := Some(cmd);
    var i := 0;
    while i < |polls|
      invariant 0 <= i <= |polls|
      invariant issued == Some(ConnectCommand(name, before.interfaceName))
      invariant forall j :: 0 <= j < i ==> !IsConnectedTo(polls[j], name)
    {
      if IsConnectedTo(polls[i], name) {
        return issued, true, "已成功连接到 " + name;
      }
      i := i + 1;
    }
    if run.success {
      return issued, true, "已成功连接到 " + name;
    }
    var detail := "接口=" + OrUnknown(after.interfaceName) + ", 状态=" + OrUnknown(after.state) +
                  ", SSID=" + OrUnknown(after.ssid) + ", 配置文件=" + OrUnknown(after.profile);
    success, message := false, "连接失败: " + run.output + "\n" + detail;
  }
}
