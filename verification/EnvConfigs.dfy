/**
 Configuration from the environment (src/config/env.rs) and its merge into the file's
 (src/config/raw.rs). Parsing a value is a parameter; parsing a variable's name is not.
 */
module EnvConfigs {
  import opened Wrappers
  import opened Conflicts
  import opened Configs

  /** A parsed value, by the kind of parameter or setting it is for. */
  datatype Value =
    | Flag(on: bool) | Label(text: string) | Interface(interface: string) | Peers(peers: PeerList) | Macs(macs: MacSet)
    | Ports(ports: PortList) | Groups(groups: GroupList) | Services(services: nat) | Family(family: AddressFamily)
    | Account(account: string) | Seconds(seconds: nat)

  /** How each kind of value is read from text; flags are read below. */
  datatype Parsers = Parsers(
    logLevel: string -> bool, logTarget: string -> bool, account: string -> Option<string>, seconds: string -> Option<nat>,
    name: string -> Option<string>, interface: string -> Option<string>, peers: string -> Option<PeerList>,
    macs: string -> Option<MacSet>, ports: string -> Option<PortList>, groups: string -> Option<GroupList>,
    services: string -> Option<nat>, family: string -> Option<AddressFamily>)

  datatype Var = Var(name: string, value: string)

  datatype EnvError =
    | BadValue | MalformedVar | InvalidTag | ReservedTag | UnknownParam | DuplicateParam
    | MissingField(tag: string, field: string) | DuplicateReflector(tag: string)

  const PREFIX: string := "NETFLECTOR_"
  const RESERVED: set<string> := {"log", "debug", "counters"}
  const SOURCE_IF: string := "source_if"
  const TARGET_IF: string := "target_if"
  const FLAGS: set<string> := {"wol", "mdns", "ssdp", "dial", "wsd", "bidirectional", "udp_broadcast"}

  // ----- Names

  function LowerChar(c: char): char {
    if 'A' <= c <= 'Z' then c + 32 as char else c
  }

  function Lower(s: string): (r: string)
    ensures |r| == |s| && forall i :: 0 <= i < |s| ==> r[i] == LowerChar(s[i])
  {
    if s == [] then [] else [LowerChar(s[0])] + Lower(s[1..])
  }

  predicate Alphanumeric(c: char) {
    '0' <= c <= '9' || 'A' <= c <= 'Z' || 'a' <= c <= 'z'
  }

  predicate IsTag(s: string) {
    s != [] && forall i :: 0 <= i < |s| ==> Alphanumeric(s[i])
  }

  predicate Whitespace(c: char) {
    var u := c as int;
    9 <= u <= 13 || u in {0x20, 0x85, 0xa0, 0x1680, 0x2028, 0x2029, 0x202f, 0x205f, 0x3000} || 0x2000 <= u <= 0x200a
  }

  function Trim(s: string): string {
    if s != [] && Whitespace(s[0]) then Trim(s[1..])
    else if s != [] && Whitespace(s[|s| - 1]) then Trim(s[..|s| - 1])
    else s
  }

  /** What trimming cuts off is whitespace, and what it leaves neither starts nor ends with any. */
  lemma {:induction false} TrimExactly(s: string) returns (from: nat, to: nat)
    ensures from <= to <= |s| && Trim(s) == s[from..to]
    ensures forall i :: 0 <= i < from || to <= i < |s| ==> Whitespace(s[i])
    ensures from < to ==> !Whitespace(s[from]) && !Whitespace(s[to - 1])
    decreases |s|
  {
    hide Whitespace;
    if s != [] && Whitespace(s[0]) {
      var rest := s[1..];
      from, to := TrimExactly(rest);
      assert rest[from..to] == s[from + 1..to + 1];
      assert forall i :: 0 < i < |s| ==> s[i] == rest[i - 1];
      from, to := from + 1, to + 1;
    } else if s != [] && Whitespace(s[|s| - 1]) {
      from, to := TrimExactly(s[..|s| - 1]);
      assert s[..|s| - 1][from..to] == s[from..to];
    } else {
      from, to := 0, |s|;
    }
  }

  /** The parts before and after the first underscore. */
  function SplitOnce(s: string): (r: Option<(string, string)>)
    ensures r.Some? ==> s == r.value.0 + "_" + r.value.1 && '_' !in r.value.0
    ensures r.None? ==> '_' !in s
  {
    if s == [] then None
    else if s[0] == '_' then Some(([], s[1..]))
    else
      match SplitOnce(s[1..])
      case None => None
      case Some((a, b)) => Some(([s[0]] + a, b))
  }

  // ----- What one variable says

  datatype Setting = User | MemoryInterval | CountersInterval

  datatype Sense =
    | Nothing
    | Global(setting: Setting, value: Value)
    | Field(tag: string, param: string, value: Value)
    | Bad(error: EnvError)

  function Suffix(setting: Setting): string {
    match setting
    case User => "USER"
    case MemoryInterval => "DEBUG_MEMORY_INTERVAL_SECS"
    case CountersInterval => "COUNTERS_INTERVAL_SECS"
  }

  function Checked(ok: bool): Sense {
    if ok then Nothing else Bad(BadValue)
  }

  function Set(setting: Setting, value: Option<Value>): Sense {
    if value.Some? then Global(setting, value.value) else Bad(BadValue)
  }

  function Mapped<T>(o: Option<T>, wrap: T -> Value): Option<Value> {
    if o.Some? then Some(wrap(o.value)) else None
  }

  function ParseFlag(value: string): Option<Value> {
    var v := Lower(value);
    if v == "true" || v == "1" then Some(Flag(true))
    else if v == "false" || v == "0" then Some(Flag(false))
    else None
  }

  /** A parameter's value: unknown parameters are told apart from values that cannot be read. */
  function ParseParam(p: Parsers, param: string, value: string): Result<Value, EnvError> {
    if param in FLAGS then Read(ParseFlag(value))
    else if param == "name" then Read(Mapped(p.name(value), (x: string) => Label(x)))
    else if param == SOURCE_IF || param == TARGET_IF then Read(Mapped(p.interface(value), (x: string) => Interface(x)))
    else if param == "source_peers" || param == "target_peers" then Read(Mapped(p.peers(value), (x: PeerList) => Peers(x)))
    else if param == "macs" then Read(Mapped(p.macs(value), (x: MacSet) => Macs(x)))
    else if param == "wol_ports" || param == "udp_ports" then Read(Mapped(p.ports(value), (x: PortList) => Ports(x)))
    else if param == "udp_groups" then Read(Mapped(p.groups(value), (x: GroupList) => Groups(x)))
    else if param == "mdns_services" then Read(Mapped(p.services(value), (x: nat) => Services(x)))
    else if param == "address_family" then Read(Mapped(p.family(value), (x: AddressFamily) => Family(x)))
    else Failure(UnknownParam)
  }

  function Read(value: Option<Value>): Result<Value, EnvError> {
    if value.Some? then Success(value.value) else Failure(BadValue)
  }

  function SenseOf(p: Parsers, v: Var): Sense {
    if !(PREFIX <= v.name) then Nothing
    else
      var rest := v.name[|PREFIX|..];
      if rest == "LOG_LEVEL" then Checked(p.logLevel(v.value))
      else if rest == "LOG_TARGET" then Checked(p.logTarget(v.value))
      else if rest == Suffix(User) then Set(User, Mapped(p.account(v.value), (x: string) => Account(x)))
      else if rest == Suffix(MemoryInterval) then Set(MemoryInterval, Mapped(p.seconds(v.value), (x: nat) => Seconds(x)))
      else if rest == Suffix(CountersInterval) then Set(CountersInterval, Mapped(p.seconds(v.value), (x: nat) => Seconds(x)))
      else
        match SplitOnce(rest)
        case None => Bad(MalformedVar)
        case Some((tag, param)) =>
          if !IsTag(tag) then Bad(InvalidTag)
          else if Lower(tag) in RESERVED then Bad(ReservedTag)
          else
            match ParseParam(p, Lower(param), v.value)
            case Failure(error) => Bad(error)
            case Success(value) => Field(Lower(tag), Lower(param), value)
  }

  /** `value` is what `text` reads as for `param`. */
  predicate Reads(p: Parsers, param: string, text: string, value: Value) {
    match value
    case Flag(on) =>
      && (param == "wol" || param == "mdns" || param == "ssdp" || param == "dial" || param == "wsd"
          || param == "bidirectional" || param == "udp_broadcast")
      && if on then Lower(text) == "true" || Lower(text) == "1" else Lower(text) == "false" || Lower(text) == "0"
    case Label(name) => param == "name" && p.name(text) == Some(name)
    case Interface(name) => (param == "source_if" || param == "target_if") && p.interface(text) == Some(name)
    case Peers(list) => (param == "source_peers" || param == "target_peers") && p.peers(text) == Some(list)
    case Macs(macs) => param == "macs" && p.macs(text) == Some(macs)
    case Ports(ports) => (param == "wol_ports" || param == "udp_ports") && p.ports(text) == Some(ports)
    case Groups(groups) => param == "udp_groups" && p.groups(text) == Some(groups)
    case Services(services) => param == "mdns_services" && p.services(text) == Some(services)
    case Family(family) => param == "address_family" && p.family(text) == Some(family)
    case Account(_) => false
    case Seconds(_) => false
  }

  lemma ParamReads(p: Parsers, param: string, text: string, value: Value)
    ensures ParseParam(p, param, text) == Success(value) <==> Reads(p, param, text, value)
  {
    hide Lower;
  }

  /** Only the first underscore splits. */
  lemma {:induction false} SplitsAtTheFirst(tag: string, param: string)
    requires '_' !in tag
    ensures SplitOnce(tag + "_" + param) == Some((tag, param))
  {
    var s := tag + "_" + param;
    if tag == [] {
      assert s[1..] == param;
    } else {
      assert s[0] == tag[0] != '_' && s[1..] == tag[1..] + "_" + param;
      SplitsAtTheFirst(tag[1..], param);
      assert [tag[0]] + tag[1..] == tag;
    }
  }

  lemma LowersTo(s: string, t: string)
    requires |s| == |t| && forall i :: 0 <= i < |s| ==> LowerChar(s[i]) == t[i]
    ensures Lower(s) == t
  {
  }

  lemma LogIsReserved()
    ensures Lower("LOG") == "log"
  {
    LowersTo("LOG", "log");
  }

  lemma DebugIsReserved()
    ensures Lower("DEBUG") == "debug"
  {
    LowersTo("DEBUG", "debug");
  }

  lemma CountersIsReserved()
    ensures Lower("COUNTERS") == "counters"
  {
    LowersTo("COUNTERS", "counters");
  }

  /** Names that split at different first underscores differ. */
  lemma OtherTagsOtherNames(tag: string, param: string, name: string)
    requires '_' !in tag && (SplitOnce(name).Some? ==> tag != SplitOnce(name).value.0)
    ensures tag + "_" + param != name
  {
    SplitsAtTheFirst(tag, param);
    hide SplitOnce;
  }

  lemma SplitsAt(name: string, k: nat)
    requires k < |name| && name[k] == '_' && '_' !in name[..k]
    ensures SplitOnce(name).Some? && SplitOnce(name).value.0 == name[..k]
  {
    SplitsAtTheFirst(name[..k], name[k + 1..]);
    hide SplitOnce;
    assert name == name[..k] + "_" + name[k + 1..];
  }

  lemma LogLevelSplits()
    ensures SplitOnce("LOG_LEVEL").Some? && SplitOnce("LOG_LEVEL").value.0 == "LOG"
    ensures SplitOnce("LOG_TARGET").Some? && SplitOnce("LOG_TARGET").value.0 == "LOG"
  {
    SplitsAt("LOG_LEVEL", 3);
    SplitsAt("LOG_TARGET", 3);
    hide SplitOnce;
  }

  lemma MemoryIntervalSplits()
    ensures SplitOnce("DEBUG_MEMORY_INTERVAL_SECS").Some? && SplitOnce("DEBUG_MEMORY_INTERVAL_SECS").value.0 == "DEBUG"
  {
    hide SplitOnce;
    var name := "DEBUG_MEMORY_INTERVAL_SECS";
    assert name[..5] == "DEBUG";
    assert '_' !in "DEBUG";
    SplitsAt(name, 5);
  }

  lemma CountersIntervalSplits()
    ensures SplitOnce("COUNTERS_INTERVAL_SECS").Some? && SplitOnce("COUNTERS_INTERVAL_SECS").value.0 == "COUNTERS"
  {
    hide SplitOnce;
    var name := "COUNTERS_INTERVAL_SECS";
    assert name[..8] == "COUNTERS";
    assert '_' !in "COUNTERS";
    SplitsAt(name, 8);
  }

  lemma HasAnUnderscore(tag: string, param: string)
    ensures tag + "_" + param != "USER"
  {
    assert (tag + "_" + param)[|tag|] == '_';
    assert forall i :: 0 <= i < 4 ==> "USER"[i] != '_';
  }

  lemma NoSettingHasATag(tag: string, param: string)
    requires IsTag(tag) && Lower(tag) !in RESERVED
    ensures var rest := tag + "_" + param;
            && rest != "LOG_LEVEL" && rest != "LOG_TARGET" && rest != "USER"
            && rest != "DEBUG_MEMORY_INTERVAL_SECS" && rest != "COUNTERS_INTERVAL_SECS"
  {
    hide Lower, IsTag, SplitOnce;
    LogIsReserved();
    DebugIsReserved();
    CountersIsReserved();
    TagHasNoUnderscore(tag);
    LogLevelSplits();
    MemoryIntervalSplits();
    CountersIntervalSplits();
    OtherTagsOtherNames(tag, param, "LOG_LEVEL");
    OtherTagsOtherNames(tag, param, "LOG_TARGET");
    OtherTagsOtherNames(tag, param, "DEBUG_MEMORY_INTERVAL_SECS");
    OtherTagsOtherNames(tag, param, "COUNTERS_INTERVAL_SECS");
    HasAnUnderscore(tag, param);
  }

  /**
   A variable named for a tag and a parameter, in any case, gives exactly what its text reads as;
   only the three reserved tags are refused.
   */
  lemma VariableSays(p: Parsers, tag: string, param: string, text: string, value: Value)
    requires IsTag(tag)
    ensures var sense := SenseOf(p, Var("NETFLECTOR_" + tag + "_" + param, text));
            if Lower(tag) == "log" || Lower(tag) == "debug" || Lower(tag) == "counters" then
              (forall t, q, x :: sense != Field(t, q, x))
            else
              && !sense.Nothing? && !sense.Global?
              && (sense == Field(Lower(tag), Lower(param), value) <==> Reads(p, Lower(param), text, value))
  {
    hide Lower, ParseParam, Reads, IsTag, Suffix;
    var name := "NETFLECTOR_" + tag + "_" + param;
    var rest := tag + "_" + param;
    assert name == PREFIX + rest;
    assert name[|PREFIX|..] == rest;
    TagHasNoUnderscore(tag);
    SplitsAtTheFirst(tag, param);
    hide SplitOnce;
    ParamReads(p, Lower(param), text, value);
    if Lower(tag) !in RESERVED {
      NoSettingHasATag(tag, param);
      SuffixesAre();
    }
  }

  lemma SuffixesAre()
    ensures Suffix(User) == "USER" && Suffix(MemoryInterval) == "DEBUG_MEMORY_INTERVAL_SECS"
    ensures Suffix(CountersInterval) == "COUNTERS_INTERVAL_SECS"
  {
  }

  lemma TagHasNoUnderscore(tag: string)
    requires IsTag(tag)
    ensures '_' !in tag
  {
    forall i | 0 <= i < |tag|
      ensures tag[i] != '_'
    {
      assert Alphanumeric(tag[i]);
    }
  }

  lemma NamesSetting(p: Parsers, rest: string, text: string)
    ensures ("NETFLECTOR_" + rest)[|PREFIX|..] == rest && PREFIX <= "NETFLECTOR_" + rest
  {
  }

  /** The variables without a tag: a setting each, or a log setting read elsewhere and only checked here. */
  lemma SettingsSay(p: Parsers, text: string)
    ensures SenseOf(p, Var("NETFLECTOR_" + "USER", text)) ==
            if p.account(text).Some? then Global(User, Account(p.account(text).value)) else Bad(BadValue)
    ensures SenseOf(p, Var("NETFLECTOR_" + "DEBUG_MEMORY_INTERVAL_SECS", text)) ==
            if p.seconds(text).Some? then Global(MemoryInterval, Seconds(p.seconds(text).value)) else Bad(BadValue)
    ensures SenseOf(p, Var("NETFLECTOR_" + "COUNTERS_INTERVAL_SECS", text)) ==
            if p.seconds(text).Some? then Global(CountersInterval, Seconds(p.seconds(text).value)) else Bad(BadValue)
    ensures SenseOf(p, Var("NETFLECTOR_" + "LOG_LEVEL", text)) == if p.logLevel(text) then Nothing else Bad(BadValue)
    ensures SenseOf(p, Var("NETFLECTOR_" + "LOG_TARGET", text)) == if p.logTarget(text) then Nothing else Bad(BadValue)
  {
    hide SplitOnce, IsTag, Lower, ParseParam;
    NamesSetting(p, "USER", text);
    NamesSetting(p, "DEBUG_MEMORY_INTERVAL_SECS", text);
    NamesSetting(p, "COUNTERS_INTERVAL_SECS", text);
    NamesSetting(p, "LOG_LEVEL", text);
    NamesSetting(p, "LOG_TARGET", text);
  }

  // ----- What the variables say together

  type Fields = map<string, Given>

  /** The entries as far as they have been read, and the configuration they become. */
  datatype Partials = Partials(settings: map<Setting, Value>, fields: Fields)

  datatype RawConfig = RawConfig(settings: map<Setting, Value>, reflectors: map<string, RawReflector>)

  type Given = map<string, Value>

  function FlagIn(slots: Given, param: string): bool { param in slots && slots[param] == Flag(true) }

  function PeersIn(slots: Given, param: string): Option<PeerList> {
    if param in slots && slots[param].Peers? then Some(slots[param].peers) else None
  }

  function PortsIn(slots: Given, param: string): Option<PortList> {
    if param in slots && slots[param].Ports? then Some(slots[param].ports) else None
  }

  /** The entry, with the defaults of what was not given; both interfaces are required. */
  function IntoRaw(tag: string, slots: Given): Result<RawReflector, EnvError> {
    if !(SOURCE_IF in slots && slots[SOURCE_IF].Interface?) then Failure(MissingField(tag, SOURCE_IF))
    else if !(TARGET_IF in slots && slots[TARGET_IF].Interface?) then Failure(MissingField(tag, TARGET_IF))
    else
      Success(RawReflector(
        if "name" in slots && slots["name"].Label? then Some(slots["name"].text) else None,
        slots[SOURCE_IF].interface, slots[TARGET_IF].interface,
        PeersIn(slots, "source_peers"), PeersIn(slots, "target_peers"),
        if "macs" in slots && slots["macs"].Macs? then Some(slots["macs"].macs) else None,
        if "address_family" in slots && slots["address_family"].Family? then slots["address_family"].family else DefaultFamily,
        FlagIn(slots, "wol"), PortsIn(slots, "wol_ports"),
        FlagIn(slots, "mdns"),
        if "mdns_services" in slots && slots["mdns_services"].Services? then Some(slots["mdns_services"].services) else None,
        FlagIn(slots, "ssdp"), FlagIn(slots, "dial"), FlagIn(slots, "wsd"), FlagIn(slots, "bidirectional"),
        PortsIn(slots, "udp_ports"),
        if "udp_groups" in slots && slots["udp_groups"].Groups? then Some(slots["udp_groups"].groups) else None,
        FlagIn(slots, "udp_broadcast")))
  }

  ghost predicate SameSlot(p: Parsers, v: Var, w: Var) {
    var s, t := SenseOf(p, v), SenseOf(p, w);
    s.Field? && t.Field? && s.tag == t.tag && s.param == t.param
  }

  ghost predicate Says(p: Parsers, vars: seq<Var>, tag: string, param: string, value: Value) {
    exists i :: 0 <= i < |vars| && SenseOf(p, vars[i]) == Field(tag, param, value)
  }

  ghost predicate Mentions(p: Parsers, vars: seq<Var>, tag: string) {
    exists i :: 0 <= i < |vars| && SenseOf(p, vars[i]).Field? && SenseOf(p, vars[i]).tag == tag
  }

  ghost predicate Gives(p: Parsers, vars: seq<Var>, tag: string, param: string) {
    exists value :: Says(p, vars, tag, param, value)
  }

  /** Each variable is good on its own, and no two set one field of one entry. */
  ghost predicate Readable(p: Parsers, vars: seq<Var>) {
    && (forall i :: 0 <= i < |vars| ==> !SenseOf(p, vars[i]).Bad?)
    && (forall i, j :: 0 <= i < j < |vars| ==> !SameSlot(p, vars[i], vars[j]))
  }

  /** And each entry has both its interfaces. */
  ghost predicate Acceptable(p: Parsers, vars: seq<Var>) {
    && Readable(p, vars)
    && forall tag :: Mentions(p, vars, tag) ==> Gives(p, vars, tag, SOURCE_IF) && Gives(p, vars, tag, TARGET_IF)
  }

  ghost predicate FieldsAre(p: Parsers, vars: seq<Var>, fields: Fields) {
    && (forall tag :: tag in fields <==> Mentions(p, vars, tag))
    && (forall tag, param, value ::
          (tag in fields && param in fields[tag] && fields[tag][param] == value) <==> Says(p, vars, tag, param, value))
  }

  /** The last variable to give a setting gives its value. */
  function SettingsOf(p: Parsers, vars: seq<Var>): map<Setting, Value> {
    if vars == [] then map[]
    else
      var earlier := SettingsOf(p, vars[..|vars| - 1]);
      match SenseOf(p, vars[|vars| - 1])
      case Global(setting, value) => earlier[setting := value]
      case _ => earlier
  }

  // ----- Reading them

  function Entry(fields: Fields, tag: string): Given {
    if tag in fields then fields[tag] else map[]
  }

  lemma FieldNext(p: Parsers, vars: seq<Var>, fields: Fields, v: Var)
    requires FieldsAre(p, vars, fields) && SenseOf(p, v).Field?
    requires var s := SenseOf(p, v); s.param !in Entry(fields, s.tag)
    ensures var s := SenseOf(p, v);
            FieldsAre(p, vars + [v], fields[s.tag := Entry(fields, s.tag)[s.param := s.value]])
  {
    SaysNext(p, vars, v);
    hide SenseOf, Says, Mentions;
    var s, all := SenseOf(p, v), vars + [v];
    var next := fields[s.tag := Entry(fields, s.tag)[s.param := s.value]];
    forall tag, param, value
      ensures (tag in next && param in next[tag] && next[tag][param] == value) <==> Says(p, all, tag, param, value)
    {
      assert Says(p, vars, tag, param, value) <==> tag in fields && param in fields[tag] && fields[tag][param] == value;
    }
  }

  lemma SaysNext(p: Parsers, vars: seq<Var>, v: Var)
    ensures forall tag, param, value ::
              Says(p, vars + [v], tag, param, value) <==> Says(p, vars, tag, param, value) || SenseOf(p, v) == Field(tag, param, value)
    ensures forall tag :: Mentions(p, vars + [v], tag) <==>
                            Mentions(p, vars, tag) || (SenseOf(p, v).Field? && SenseOf(p, v).tag == tag)
  {
    var all := vars + [v];
    assert all[|vars|] == v && forall i :: 0 <= i < |vars| ==> all[i] == vars[i];
    forall tag, param, value
      ensures Says(p, all, tag, param, value) <==> Says(p, vars, tag, param, value) || SenseOf(p, v) == Field(tag, param, value)
    {
      if i :| 0 <= i < |vars| && SenseOf(p, vars[i]) == Field(tag, param, value) {
        assert SenseOf(p, all[i]) == Field(tag, param, value);
      }
    }
    forall tag
      ensures Mentions(p, all, tag) <==> Mentions(p, vars, tag) || (SenseOf(p, v).Field? && SenseOf(p, v).tag == tag)
    {
      if i :| 0 <= i < |vars| && SenseOf(p, vars[i]).Field? && SenseOf(p, vars[i]).tag == tag {
        assert SenseOf(p, all[i]).tag == tag;
      }
    }
  }

  /** A slot is taken exactly when an earlier variable clashes. */
  lemma TakenIsAClash(p: Parsers, vars: seq<Var>, fields: Fields, v: Var)
    requires FieldsAre(p, vars, fields) && SenseOf(p, v).Field?
    ensures SenseOf(p, v).param in Entry(fields, SenseOf(p, v).tag) <==>
              exists i :: 0 <= i < |vars| && SameSlot(p, vars[i], v)
  {
    var s := SenseOf(p, v);
    if s.param in Entry(fields, s.tag) {
      assert Says(p, vars, s.tag, s.param, fields[s.tag][s.param]);
      var i :| 0 <= i < |vars| && SenseOf(p, vars[i]) == Field(s.tag, s.param, fields[s.tag][s.param]);
      assert SameSlot(p, vars[i], v);
    }
    if i :| 0 <= i < |vars| && SameSlot(p, vars[i], v) {
      assert Says(p, vars, s.tag, s.param, SenseOf(p, vars[i]).value);
    }
  }

  lemma ReadableNext(p: Parsers, vars: seq<Var>, v: Var)
    ensures Readable(p, vars + [v]) <==>
              Readable(p, vars) && !SenseOf(p, v).Bad? && forall i :: 0 <= i < |vars| ==> !SameSlot(p, vars[i], v)
  {
    var all := vars + [v];
    assert all[|vars|] == v;
    assert forall i :: 0 <= i < |vars| ==> all[i] == vars[i];
  }

  lemma {:induction false} PrefixIsReadable(p: Parsers, vars: seq<Var>, n: nat)
    requires n <= |vars| && Readable(p, vars)
    ensures Readable(p, vars[..n])
  {
  }

  lemma GivesIsASlot(p: Parsers, vars: seq<Var>, fields: Fields, tag: string, param: string)
    requires FieldsAre(p, vars, fields)
    ensures Gives(p, vars, tag, param) <==> tag in fields && param in fields[tag]
  {
    if tag in fields && param in fields[tag] {
      assert Says(p, vars, tag, param, fields[tag][param]);
    }
  }

  /** Why a variable ends the reading: bad on its own, or a second value for one field. */
  ghost predicate Blames(p: Parsers, v: Var, e: EnvError) {
    e == if SenseOf(p, v).Bad? then SenseOf(p, v).error else DuplicateParam
  }

  /** One variable more: refused exactly when the variables so far can no longer be read. */
  method ReadOne(p: Parsers, ghost seen: seq<Var>, v: Var, settings: map<Setting, Value>, fields: Fields)
      returns (r: Result<Partials, EnvError>)
    requires Readable(p, seen) && FieldsAre(p, seen, fields) && settings == SettingsOf(p, seen)
    ensures r.Success? <==> Readable(p, seen + [v])
    ensures r.Success? ==> FieldsAre(p, seen + [v], r.value.fields) && r.value.settings == SettingsOf(p, seen + [v])
    ensures r.Failure? ==> Blames(p, v, r.error)
  {
    ReadableNext(p, seen, v);
    SettingsNext(p, seen, v);
    hide Readable, SenseOf, FieldsAre, SettingsOf;
    if SenseOf(p, v).Field? {
      TakenIsAClash(p, seen, fields, v);
      FieldNextIfFree(p, seen, fields, v);
    } else {
      FieldsStay(p, seen, fields, v);
    }
    match SenseOf(p, v)
    case Nothing =>
      return Success(Partials(settings, fields));
    case Global(setting, value) =>
      return Success(Partials(settings[setting := value], fields));
    case Bad(error) =>
      return Failure(error);
    case Field(tag, param, value) =>
      var entry := Entry(fields, tag);
      if param in entry {
        return Failure(DuplicateParam);
      }
      return Success(Partials(settings, fields[tag := entry[param := value]]));
  }

  lemma SettingsNext(p: Parsers, vars: seq<Var>, v: Var)
    ensures SettingsOf(p, vars + [v]) == match SenseOf(p, v)
                                         case Global(setting, value) => SettingsOf(p, vars)[setting := value]
                                         case _ => SettingsOf(p, vars)
  {
    assert (vars + [v])[..|vars|] == vars;
  }

  lemma FieldsStay(p: Parsers, vars: seq<Var>, fields: Fields, v: Var)
    requires FieldsAre(p, vars, fields) && !SenseOf(p, v).Field?
    ensures FieldsAre(p, vars + [v], fields)
  {
    SaysNext(p, vars, v);
    hide SenseOf, Says, Mentions;
  }

  lemma FieldNextIfFree(p: Parsers, vars: seq<Var>, fields: Fields, v: Var)
    requires FieldsAre(p, vars, fields) && SenseOf(p, v).Field?
    ensures var s := SenseOf(p, v);
            s.param !in Entry(fields, s.tag) ==>
              FieldsAre(p, vars + [v], fields[s.tag := Entry(fields, s.tag)[s.param := s.value]])
  {
    var s := SenseOf(p, v);
    if s.param !in Entry(fields, s.tag) {
      FieldNext(p, vars, fields, v);
    }
  }

  /** The entries the fields make whole: each with what it was given and the defaults of the rest. */
  predicate MadeWhole(fields: Fields, raws: map<string, RawReflector>) {
    raws.Keys == fields.Keys && forall tag :: tag in raws ==> IntoRaw(tag, fields[tag]) == Success(raws[tag])
  }

  /** Every entry the variables mention, as they say it. */
  ghost predicate EntriesAre(p: Parsers, vars: seq<Var>, raws: map<string, RawReflector>) {
    exists fields :: FieldsAre(p, vars, fields) && MadeWhole(fields, raws)
  }

  // ----- An entry's fields are what the variables say

  ghost predicate FlagReads(p: Parsers, vars: seq<Var>, tag: string, param: string, on: bool) {
    on <==> Says(p, vars, tag, param, Flag(true))
  }

  ghost predicate PeersRead(p: Parsers, vars: seq<Var>, tag: string, param: string, field: Option<PeerList>) {
    match field case Some(x) => Says(p, vars, tag, param, Peers(x)) case None => !Gives(p, vars, tag, param)
  }

  ghost predicate PortsRead(p: Parsers, vars: seq<Var>, tag: string, param: string, field: Option<PortList>) {
    match field case Some(x) => Says(p, vars, tag, param, Ports(x)) case None => !Gives(p, vars, tag, param)
  }

  /** Each field of the entry is the value its variable gives, or its default when none does. */
  ghost predicate ReadsAs(p: Parsers, vars: seq<Var>, tag: string, raw: RawReflector) {
    && (match raw.name case Some(x) => Says(p, vars, tag, "name", Label(x)) case None => !Gives(p, vars, tag, "name"))
    && Says(p, vars, tag, "source_if", Interface(raw.sourceIf))
    && Says(p, vars, tag, "target_if", Interface(raw.targetIf))
    && PeersRead(p, vars, tag, "source_peers", raw.sourcePeers)
    && PeersRead(p, vars, tag, "target_peers", raw.targetPeers)
    && (match raw.macs case Some(x) => Says(p, vars, tag, "macs", Macs(x)) case None => !Gives(p, vars, tag, "macs"))
    && (Says(p, vars, tag, "address_family", Family(raw.family))
        || (raw.family == DefaultFamily && !Gives(p, vars, tag, "address_family")))
    && FlagReads(p, vars, tag, "wol", raw.wol)
    && PortsRead(p, vars, tag, "wol_ports", raw.wolPorts)
    && FlagReads(p, vars, tag, "mdns", raw.mdns)
    && (match raw.mdnsServices case Some(x) => Says(p, vars, tag, "mdns_services", Services(x)) case None => !Gives(p, vars, tag, "mdns_services"))
    && FlagReads(p, vars, tag, "ssdp", raw.ssdp)
    && FlagReads(p, vars, tag, "dial", raw.dial)
    && FlagReads(p, vars, tag, "wsd", raw.wsd)
    && FlagReads(p, vars, tag, "bidirectional", raw.bidirectional)
    && PortsRead(p, vars, tag, "udp_ports", raw.udpPorts)
    && (match raw.udpGroups case Some(x) => Says(p, vars, tag, "udp_groups", Groups(x)) case None => !Gives(p, vars, tag, "udp_groups"))
    && FlagReads(p, vars, tag, "udp_broadcast", raw.udpBroadcast)
  }

  /** Every variable's value is of its parameter's kind. */
  lemma SaysInKind(p: Parsers, vars: seq<Var>, tag: string, param: string, value: Value)
    requires Says(p, vars, tag, param, value)
    ensures exists text :: Reads(p, param, text, value)
  {
    var i :| 0 <= i < |vars| && SenseOf(p, vars[i]) == Field(tag, param, value);
    SensedAsParsed(p, vars[i]);
    ParamReads(p, param, vars[i].value, value);
  }

  lemma SensedAsParsed(p: Parsers, v: Var)
    requires SenseOf(p, v).Field?
    ensures ParseParam(p, SenseOf(p, v).param, v.value) == Success(SenseOf(p, v).value)
  {
    hide Suffix, SplitOnce, IsTag, Lower, ParseParam;
  }

  /** What an entry's slot holds is what some variable says, and of the parameter's kind. */
  lemma SlotSays(p: Parsers, vars: seq<Var>, fields: Fields, tag: string, param: string)
    requires FieldsAre(p, vars, fields) && tag in fields
    ensures param in fields[tag] <==> Gives(p, vars, tag, param)
    ensures param in fields[tag] ==> Says(p, vars, tag, param, fields[tag][param])
    ensures param in fields[tag] ==> exists text :: Reads(p, param, text, fields[tag][param])
    ensures forall value :: Says(p, vars, tag, param, value) ==> param in fields[tag] && fields[tag][param] == value
  {
    hide Reads, Says;
    GivesIsASlot(p, vars, fields, tag, param);
    if param in fields[tag] {
      assert Says(p, vars, tag, param, fields[tag][param]);
      SaysInKind(p, vars, tag, param, fields[tag][param]);
    }
  }

  lemma FlagSlot(p: Parsers, vars: seq<Var>, fields: Fields, tag: string, param: string)
    requires FieldsAre(p, vars, fields) && tag in fields
    ensures FlagReads(p, vars, tag, param, FlagIn(fields[tag], param))
  {
    hide FieldsAre, Says, Gives;
    SlotSays(p, vars, fields, tag, param);
  }

  lemma PeersSlot(p: Parsers, vars: seq<Var>, fields: Fields, tag: string, param: string)
    requires FieldsAre(p, vars, fields) && tag in fields && (param == "source_peers" || param == "target_peers")
    ensures PeersRead(p, vars, tag, param, PeersIn(fields[tag], param))
  {
    hide FieldsAre, Says, Gives;
    SlotSays(p, vars, fields, tag, param);
  }

  lemma PortsSlot(p: Parsers, vars: seq<Var>, fields: Fields, tag: string, param: string)
    requires FieldsAre(p, vars, fields) && tag in fields && (param == "wol_ports" || param == "udp_ports")
    ensures PortsRead(p, vars, tag, param, PortsIn(fields[tag], param))
  {
    hide FieldsAre, Says, Gives;
    SlotSays(p, vars, fields, tag, param);
  }

  lemma FlagSlots(p: Parsers, vars: seq<Var>, fields: Fields, tag: string)
    requires FieldsAre(p, vars, fields) && tag in fields
    ensures forall param :: FlagReads(p, vars, tag, param, FlagIn(fields[tag], param))
  {
    hide FieldsAre, FlagReads, FlagIn;
    forall param
      ensures FlagReads(p, vars, tag, param, FlagIn(fields[tag], param))
    {
      FlagSlot(p, vars, fields, tag, param);
    }
  }

  lemma NameSlots(p: Parsers, vars: seq<Var>, fields: Fields, tag: string, raw: RawReflector)
    requires FieldsAre(p, vars, fields) && tag in fields && IntoRaw(tag, fields[tag]) == Success(raw)
    ensures match raw.name case Some(x) => Says(p, vars, tag, "name", Label(x)) case None => !Gives(p, vars, tag, "name")
    ensures Says(p, vars, tag, "source_if", Interface(raw.sourceIf)) && Says(p, vars, tag, "target_if", Interface(raw.targetIf))
  {
    hide FieldsAre, Says, Gives, FlagIn, PeersIn, PortsIn;
    SlotSays(p, vars, fields, tag, "name");
    SlotSays(p, vars, fields, tag, "source_if");
    SlotSays(p, vars, fields, tag, "target_if");
  }

  lemma OtherSlots(p: Parsers, vars: seq<Var>, fields: Fields, tag: string, raw: RawReflector)
    requires FieldsAre(p, vars, fields) && tag in fields && IntoRaw(tag, fields[tag]) == Success(raw)
    ensures match raw.macs case Some(x) => Says(p, vars, tag, "macs", Macs(x)) case None => !Gives(p, vars, tag, "macs")
    ensures Says(p, vars, tag, "address_family", Family(raw.family))
            || (raw.family == DefaultFamily && !Gives(p, vars, tag, "address_family"))
    ensures match raw.mdnsServices
            case Some(x) => Says(p, vars, tag, "mdns_services", Services(x)) case None => !Gives(p, vars, tag, "mdns_services")
    ensures match raw.udpGroups
            case Some(x) => Says(p, vars, tag, "udp_groups", Groups(x)) case None => !Gives(p, vars, tag, "udp_groups")
  {
    hide FieldsAre, Says, Gives, FlagIn, PeersIn, PortsIn;
    SlotSays(p, vars, fields, tag, "macs");
    SlotSays(p, vars, fields, tag, "address_family");
    SlotSays(p, vars, fields, tag, "mdns_services");
    SlotSays(p, vars, fields, tag, "udp_groups");
  }

  lemma EntryReads(p: Parsers, vars: seq<Var>, fields: Fields, tag: string, raw: RawReflector)
    requires FieldsAre(p, vars, fields) && tag in fields && IntoRaw(tag, fields[tag]) == Success(raw)
    ensures ReadsAs(p, vars, tag, raw)
  {
    hide FieldsAre, Says, Gives, FlagReads, PeersRead, PortsRead, FlagIn, PeersIn, PortsIn;
    FlagSlots(p, vars, fields, tag);
    PeersSlot(p, vars, fields, tag, "source_peers");
    PeersSlot(p, vars, fields, tag, "target_peers");
    PortsSlot(p, vars, fields, tag, "wol_ports");
    PortsSlot(p, vars, fields, tag, "udp_ports");
    NameSlots(p, vars, fields, tag, raw);
    OtherSlots(p, vars, fields, tag, raw);
  }

  /** The entries are those the variables mention, each as they say. */
  lemma EntriesRead(p: Parsers, vars: seq<Var>, raws: map<string, RawReflector>)
    requires EntriesAre(p, vars, raws)
    ensures forall tag :: tag in raws <==> Mentions(p, vars, tag)
    ensures forall tag :: tag in raws ==> ReadsAs(p, vars, tag, raws[tag])
  {
    hide FieldsAre, IntoRaw, ReadsAs;
    var fields :| FieldsAre(p, vars, fields) && MadeWhole(fields, raws);
    FieldTags(p, vars, fields);
    forall tag | tag in raws
      ensures ReadsAs(p, vars, tag, raws[tag])
    {
      EntryReads(p, vars, fields, tag, raws[tag]);
    }
  }

  lemma FieldTags(p: Parsers, vars: seq<Var>, fields: Fields)
    requires FieldsAre(p, vars, fields)
    ensures forall tag :: tag in fields <==> Mentions(p, vars, tag)
  {
  }

  /** A parameter's values are all of its kind. */
  lemma InterfacesAreInterfaces(p: Parsers, vars: seq<Var>, tag: string, param: string, value: Value)
    requires Says(p, vars, tag, param, value) && (param == SOURCE_IF || param == TARGET_IF)
    ensures value.Interface?
  {
    SaysInKind(p, vars, tag, param, value);
  }

  lemma CompleteExactly(p: Parsers, vars: seq<Var>, fields: Fields, tag: string)
    requires FieldsAre(p, vars, fields) && tag in fields
    ensures IntoRaw(tag, fields[tag]).Success? <==> Gives(p, vars, tag, SOURCE_IF) && Gives(p, vars, tag, TARGET_IF)
  {
    GivesIsASlot(p, vars, fields, tag, SOURCE_IF);
    GivesIsASlot(p, vars, fields, tag, TARGET_IF);
    if SOURCE_IF in fields[tag] && TARGET_IF in fields[tag] {
      InterfacesAreInterfaces(p, vars, tag, SOURCE_IF, fields[tag][SOURCE_IF]);
      InterfacesAreInterfaces(p, vars, tag, TARGET_IF, fields[tag][TARGET_IF]);
    }
  }

  /** Every entry made whole, if none lacks an interface. */
  method IntoRaws(fields: Fields) returns (r: Result<map<string, RawReflector>, EnvError>)
    ensures r.Success? <==> forall tag :: tag in fields ==> IntoRaw(tag, fields[tag]).Success?
    ensures r.Success? ==> MadeWhole(fields, r.value)
    ensures r.Failure? ==> exists tag :: tag in fields && IntoRaw(tag, fields[tag]) == Failure(r.error)
  {
    hide IntoRaw;
    var raws: map<string, RawReflector> := map[];
    var todo := fields.Keys;
    while todo != {}
      invariant todo <= fields.Keys && raws.Keys == fields.Keys - todo
      invariant forall tag :: tag in raws ==> IntoRaw(tag, fields[tag]) == Success(raws[tag])
    {
      var tag :| tag in todo;
      var raw := IntoRaw(tag, fields[tag]);
      if raw.Failure? {
        return Failure(raw.error);
      }
      raws, todo := raws[tag := raw.value], todo - {tag};
    }
    return Success(raws);
  }

  /** The first variable the ones before it cannot be read with, and why. */
  ghost predicate StopsAt(p: Parsers, vars: seq<Var>, i: int, e: EnvError) {
    0 <= i < |vars| && Readable(p, vars[..i]) && !Readable(p, vars[..i + 1]) && Blames(p, vars[i], e)
  }

  /** An entry lacks an interface; of the two, the source's is missed first. */
  ghost predicate Misses(p: Parsers, vars: seq<Var>, e: EnvError) {
    && e.MissingField? && Mentions(p, vars, e.tag)
    && if !Gives(p, vars, e.tag, "source_if") then e.field == "source_if"
       else e.field == "target_if" && !Gives(p, vars, e.tag, "target_if")
  }

  lemma MissedExactly(p: Parsers, vars: seq<Var>, fields: Fields, tag: string)
    requires FieldsAre(p, vars, fields) && tag in fields && IntoRaw(tag, fields[tag]).Failure?
    ensures Misses(p, vars, IntoRaw(tag, fields[tag]).error)
  {
    hide FieldsAre, Gives, Mentions;
    FieldTags(p, vars, fields);
    GivesIsASlot(p, vars, fields, tag, SOURCE_IF);
    GivesIsASlot(p, vars, fields, tag, TARGET_IF);
    KindOfInterfaces(p, vars, fields, tag);
  }

  lemma KindOfInterfaces(p: Parsers, vars: seq<Var>, fields: Fields, tag: string)
    requires FieldsAre(p, vars, fields) && tag in fields
    ensures SOURCE_IF in fields[tag] ==> fields[tag][SOURCE_IF].Interface?
    ensures TARGET_IF in fields[tag] ==> fields[tag][TARGET_IF].Interface?
  {
    hide FieldsAre, Says, Gives;
    SlotSays(p, vars, fields, tag, SOURCE_IF);
    SlotSays(p, vars, fields, tag, TARGET_IF);
  }

  /** Of readable variables no two say two things of one field, so a field is its variable's value and no other. */
  lemma SaidOnce(p: Parsers, vars: seq<Var>, tag: string, param: string, x: Value, y: Value)
    requires Readable(p, vars) && Says(p, vars, tag, param, x) && Says(p, vars, tag, param, y)
    ensures x == y
  {
    hide SenseOf;
    var i :| 0 <= i < |vars| && SenseOf(p, vars[i]) == Field(tag, param, x);
    var j :| 0 <= j < |vars| && SenseOf(p, vars[j]) == Field(tag, param, y);
    assert SameSlot(p, vars[i], vars[j]) && SameSlot(p, vars[j], vars[i]);
  }

  lemma NothingSetAtFirst(p: Parsers, vars: seq<Var>)
    requires vars == []
    ensures SettingsOf(p, vars) == map[]
  {
  }

  /** The variables in turn: what they say together, or why not. */
  method ReadAll(p: Parsers, vars: seq<Var>) returns (r: Result<Partials, EnvError>)
    ensures r.Success? <==> Readable(p, vars)
    ensures r.Success? ==> FieldsAre(p, vars, r.value.fields) && r.value.settings == SettingsOf(p, vars)
    ensures r.Failure? ==> exists i :: StopsAt(p, vars, i, r.error)
  {
    hide SenseOf, SettingsOf, Blames;
    NothingSetAtFirst(p, vars[..0]);
    var settings: map<Setting, Value> := map[];
    var fields: Fields := map[];
    for i := 0 to |vars|
      invariant Readable(p, vars[..i])
      invariant FieldsAre(p, vars[..i], fields)
      invariant settings == SettingsOf(p, vars[..i])
    {
      assert vars[..i + 1] == vars[..i] + [vars[i]];
      var next := ReadOne(p, vars[..i], vars[i], settings, fields);
      if next.Failure? {
        if Readable(p, vars) {
          PrefixIsReadable(p, vars, i + 1);
        }
        assert StopsAt(p, vars, i, next.error);
        return Failure(next.error);
      }
      settings, fields := next.value.settings, next.value.fields;
    }
    assert vars[..|vars|] == vars;
    return Success(Partials(settings, fields));
  }

  /**
   The variables as entries and settings: accepted exactly when each reads, none repeats a field,
   and every entry has its interfaces. Each field is then what its variable says, or its default.
   */
  method ParseEnv(p: Parsers, vars: seq<Var>) returns (r: Result<RawConfig, EnvError>)
    ensures r.Success? <==> Acceptable(p, vars)
    ensures r.Success? ==> EntriesAre(p, vars, r.value.reflectors) && r.value.settings == SettingsOf(p, vars)
    ensures r.Success? ==> forall tag :: tag in r.value.reflectors <==> Mentions(p, vars, tag)
    ensures r.Success? ==> forall tag :: tag in r.value.reflectors ==> ReadsAs(p, vars, tag, r.value.reflectors[tag])
    ensures r.Failure? ==> (exists i :: StopsAt(p, vars, i, r.error)) || Misses(p, vars, r.error)
  {
    hide Readable, SettingsOf, IntoRaw, Gives, Says, Mentions, ReadsAs, StopsAt, Misses;
    var read := ReadAll(p, vars);
    if read.Failure? {
      return Failure(read.error);
    }
    var fields := read.value.fields;
    forall tag | tag in fields
      ensures IntoRaw(tag, fields[tag]).Success? <==> Gives(p, vars, tag, SOURCE_IF) && Gives(p, vars, tag, TARGET_IF)
      ensures IntoRaw(tag, fields[tag]).Failure? ==> Misses(p, vars, IntoRaw(tag, fields[tag]).error)
    {
      CompleteExactly(p, vars, fields, tag);
      if IntoRaw(tag, fields[tag]).Failure? {
        MissedExactly(p, vars, fields, tag);
      }
    }
    var raws := IntoRaws(fields);
    if raws.Failure? {
      return Failure(raws.error);
    }
    EntriesRead(p, vars, raws.value);
    return Success(RawConfig(read.value.settings, raws.value));
  }

  // ----- The order of the variables

  ghost predicate DistinctNames(vars: seq<Var>) {
    forall i, j :: 0 <= i < j < |vars| ==> vars[i].name != vars[j].name
  }

  ghost predicate Reordered(a: seq<Var>, b: seq<Var>) {
    DistinctNames(a) && DistinctNames(b) && forall v :: v in a <==> v in b
  }

  lemma SaysByMember(p: Parsers, vars: seq<Var>)
    ensures forall tag, param, value :: Says(p, vars, tag, param, value) <==> exists v :: v in vars && SenseOf(p, v) == Field(tag, param, value)
    ensures forall tag :: Mentions(p, vars, tag) <==> exists v :: v in vars && SenseOf(p, v).Field? && SenseOf(p, v).tag == tag
  {
    hide SenseOf;
    forall tag, param, value, v | v in vars && SenseOf(p, v) == Field(tag, param, value)
      ensures Says(p, vars, tag, param, value)
    {
      var i :| 0 <= i < |vars| && vars[i] == v;
      assert SenseOf(p, vars[i]) == Field(tag, param, value);
    }
    forall v | v in vars && SenseOf(p, v).Field?
      ensures Mentions(p, vars, SenseOf(p, v).tag)
    {
      var i :| 0 <= i < |vars| && vars[i] == v;
      assert SenseOf(p, vars[i]).Field?;
    }
  }

  lemma ReadableByMember(p: Parsers, vars: seq<Var>)
    requires DistinctNames(vars)
    ensures Readable(p, vars) <==>
              && (forall v :: v in vars ==> !SenseOf(p, v).Bad?)
              && (forall v, w :: v in vars && w in vars && v != w ==> !SameSlot(p, v, w))
  {
    hide SenseOf;
    if Readable(p, vars) {
      forall v, w | v in vars && w in vars && v != w
        ensures !SameSlot(p, v, w)
      {
        var i :| 0 <= i < |vars| && vars[i] == v;
        var j :| 0 <= j < |vars| && vars[j] == w;
        assert !SameSlot(p, vars[i], vars[j]) || !SameSlot(p, vars[j], vars[i]);
      }
    }
  }

  lemma ReorderedReadable(p: Parsers, a: seq<Var>, b: seq<Var>)
    requires Reordered(a, b)
    ensures Readable(p, a) <==> Readable(p, b)
  {
    ReadableByMember(p, a);
    ReadableByMember(p, b);
    hide SenseOf, Readable, SameSlot;
  }

  /** Only the variable of that one name gives a setting. */
  lemma GlobalHasItsName(p: Parsers, v: Var)
    requires SenseOf(p, v).Global?
    ensures v.name == PREFIX + Suffix(SenseOf(p, v).setting)
  {
    hide Suffix, SplitOnce, IsTag, Lower;
    var rest := v.name[|PREFIX|..];
    assert v.name == PREFIX + rest;
  }

  ghost predicate IsSet(settings: map<Setting, Value>, setting: Setting, value: Value) {
    setting in settings && settings[setting] == value
  }

  lemma {:induction false} SettingsByMember(p: Parsers, vars: seq<Var>, setting: Setting, value: Value)
    requires DistinctNames(vars)
    ensures IsSet(SettingsOf(p, vars), setting, value) <==> exists v :: v in vars && SenseOf(p, v) == Global(setting, value)
  {
    hide SenseOf;
    if vars != [] {
      var n := |vars| - 1;
      assert vars == vars[..n] + [vars[n]];
      SettingsNext(p, vars[..n], vars[n]);
      SettingsByMember(p, vars[..n], setting, value);
      if SenseOf(p, vars[n]).Global? && SenseOf(p, vars[n]).setting == setting {
        OnlySetter(p, vars, setting, value);
      }
      hide SettingsOf, DistinctNames;
    }
  }

  /** Of variables with distinct names, only the last can give a setting the last gives. */
  lemma OnlySetter(p: Parsers, vars: seq<Var>, setting: Setting, value: Value)
    requires DistinctNames(vars) && vars != []
    requires SenseOf(p, vars[|vars| - 1]).Global? && SenseOf(p, vars[|vars| - 1]).setting == setting
    ensures forall v :: v in vars && SenseOf(p, v) == Global(setting, value) ==> v == vars[|vars| - 1]
  {
    hide SenseOf;
    var last := vars[|vars| - 1];
    GlobalHasItsName(p, last);
    forall v | v in vars && SenseOf(p, v) == Global(setting, value)
      ensures v == last
    {
      GlobalHasItsName(p, v);
      var i :| 0 <= i < |vars| && vars[i] == v;
    }
  }

  lemma ReorderedSettings(p: Parsers, a: seq<Var>, b: seq<Var>)
    requires Reordered(a, b)
    ensures SettingsOf(p, a) == SettingsOf(p, b)
  {
    var s, t := SettingsOf(p, a), SettingsOf(p, b);
    forall setting: Setting, value: Value
      ensures IsSet(s, setting, value) <==> IsSet(t, setting, value)
    {
      SettingsByMember(p, a, setting, value);
      SettingsByMember(p, b, setting, value);
    }
    assert forall setting :: setting in s ==> IsSet(s, setting, s[setting]);
    assert forall setting :: setting in t ==> IsSet(t, setting, t[setting]);
  }

  ghost predicate SaySame(p: Parsers, a: seq<Var>, b: seq<Var>) {
    && (forall tag :: Mentions(p, a, tag) <==> Mentions(p, b, tag))
    && (forall tag, param, value :: Says(p, a, tag, param, value) <==> Says(p, b, tag, param, value))
  }

  lemma ReorderedSaySame(p: Parsers, a: seq<Var>, b: seq<Var>)
    requires Reordered(a, b)
    ensures SaySame(p, a, b)
  {
    SaysByMember(p, a);
    SaysByMember(p, b);
    hide SenseOf, Says, Mentions;
  }

  lemma SameFields(p: Parsers, a: seq<Var>, b: seq<Var>, f: Fields, g: Fields)
    requires SaySame(p, a, b) && FieldsAre(p, a, f) && FieldsAre(p, b, g)
    ensures f == g
  {
    hide Says, Mentions;
    assert f.Keys == g.Keys;
    forall tag | tag in f
      ensures f[tag] == g[tag]
    {
      SlotsAgree(p, a, b, f, g, tag);
      SlotsAgree(p, b, a, g, f, tag);
    }
  }

  lemma SlotsAgree(p: Parsers, a: seq<Var>, b: seq<Var>, f: Fields, g: Fields, tag: string)
    requires SaySame(p, a, b) && FieldsAre(p, a, f) && FieldsAre(p, b, g) && tag in f && tag in g
    ensures forall param :: param in f[tag] ==> param in g[tag] && g[tag][param] == f[tag][param]
  {
    hide Says, Mentions;
    forall param | param in f[tag]
      ensures param in g[tag] && g[tag][param] == f[tag][param]
    {
      assert Says(p, a, tag, param, f[tag][param]);
    }
  }

  lemma SameEntries(p: Parsers, a: seq<Var>, b: seq<Var>, f: map<string, RawReflector>, g: map<string, RawReflector>)
    requires SaySame(p, a, b) && EntriesAre(p, a, f) && EntriesAre(p, b, g)
    ensures f == g
  {
    hide FieldsAre, MadeWhole, SaySame;
    var x :| FieldsAre(p, a, x) && MadeWhole(x, f);
    var y :| FieldsAre(p, b, y) && MadeWhole(y, g);
    SameFields(p, a, b, x, y);
    WholeOnce(x, f, g);
  }

  lemma WholeOnce(fields: Fields, f: map<string, RawReflector>, g: map<string, RawReflector>)
    requires MadeWhole(fields, f) && MadeWhole(fields, g)
    ensures f == g
  {
    hide IntoRaw;
    forall tag | tag in f
      ensures f[tag] == g[tag]
    {
      assert IntoRaw(tag, fields[tag]) == Success(f[tag]) == Success(g[tag]);
    }
  }

  /** Variables of distinct names are accepted in every order or in none, and mean the same in each. */
  lemma OrderDoesNotMatter(p: Parsers, a: seq<Var>, b: seq<Var>)
    requires Reordered(a, b)
    ensures Acceptable(p, a) <==> Acceptable(p, b)
    ensures SettingsOf(p, a) == SettingsOf(p, b)
    ensures forall f, g :: EntriesAre(p, a, f) && EntriesAre(p, b, g) ==> f == g
  {
    ReorderedReadable(p, a, b);
    ReorderedSettings(p, a, b);
    ReorderedSaySame(p, a, b);
    forall f, g | EntriesAre(p, a, f) && EntriesAre(p, b, g)
      ensures f == g
    {
      SameEntries(p, a, b, f, g);
    }
    hide Readable, EntriesAre, SettingsOf, Says, Mentions;
    assert forall tag, param :: Gives(p, a, tag, param) <==> Gives(p, b, tag, param);
  }

  /** With a repeated name the last one wins, so there the order shows. */
  lemma RepeatedNameShowsOrder(p: Parsers, x: string, y: string)
    requires p.account(x).Some? && p.account(y).Some? && p.account(x) != p.account(y)
    ensures var v, w := Var("NETFLECTOR_USER", x), Var("NETFLECTOR_USER", y);
            Acceptable(p, [v, w]) && Acceptable(p, [w, v]) && SettingsOf(p, [v, w]) != SettingsOf(p, [w, v])
  {
    var v, w := Var("NETFLECTOR_USER", x), Var("NETFLECTOR_USER", y);
    assert SenseOf(p, v) == Global(User, Account(p.account(x).value)) && SenseOf(p, w) == Global(User, Account(p.account(y).value));
    assert [v, w][..1] == [v] && [w, v][..1] == [w];
    assert SettingsOf(p, [v, w])[User] == Account(p.account(y).value) && SettingsOf(p, [w, v])[User] == Account(p.account(x).value);
  }

  // ----- Merging into the file's configuration

  predicate IsEnvTag(s: string) { IsTag(s) && Lower(s) == s }

  lemma {:induction false} LowerTwice(s: string)
    ensures Lower(Lower(s)) == Lower(s)
  {
    assert forall i :: 0 <= i < |s| ==> Lower(Lower(s))[i] == Lower(s)[i];
  }

  lemma SensedTagIsEnvTag(p: Parsers, v: Var)
    requires SenseOf(p, v).Field?
    ensures IsEnvTag(SenseOf(p, v).tag) && SenseOf(p, v).tag !in RESERVED
  {
    hide Suffix;
    var t := SplitOnce(v.name[|PREFIX|..]).value.0;
    assert SenseOf(p, v).tag == Lower(t) && IsTag(t);
    hide SenseOf;
    LowerTwice(t);
    assert forall k :: 0 <= k < |t| ==> Alphanumeric(Lower(t)[k]);
  }

  lemma ParsedTagsAreEnvTags(p: Parsers, vars: seq<Var>, raws: map<string, RawReflector>, tag: string)
    requires EntriesAre(p, vars, raws) && tag in raws
    ensures IsEnvTag(tag) && tag !in RESERVED
  {
    hide SenseOf, IsEnvTag, IntoRaw;
    assert Mentions(p, vars, tag);
    var i :| 0 <= i < |vars| && SenseOf(p, vars[i]).Field? && SenseOf(p, vars[i]).tag == tag;
    SensedTagIsEnvTag(p, vars[i]);
  }

  /** A tag taken from the environment matches a key that is equal to it trimmed and folded. */
  predicate Collides(key: string, tag: string) { Lower(Trim(key)) == Lower(tag) }

  lemma CollidesMeans(key: string, tag: string)
    requires IsEnvTag(tag)
    ensures Collides(key, tag) <==> Lower(Trim(key)) == tag
    ensures Lower(Trim(tag)) == tag
  {
    assert !Whitespace(tag[0]) && !Whitespace(tag[|tag| - 1]);
  }

  /** The file's keys and the tags already merged collide with a tag exactly when the file's do. */
  lemma OnlyFileKeysCollide(file: set<string>, env: set<string>, merged: set<string>, tag: string)
    requires forall t :: t in env ==> IsEnvTag(t)
    requires tag in env && tag !in merged - file && file <= merged <= file + env
    ensures (exists key :: key in merged && Collides(key, tag)) <==> exists key :: key in file && Lower(Trim(key)) == tag
    ensures tag in file ==> exists key :: key in file && Lower(Trim(key)) == tag
  {
    hide Lower, Trim, Collides, IsEnvTag;
    forall key | key in merged
      ensures Collides(key, tag) <==> Lower(Trim(key)) == tag
      ensures Collides(key, tag) ==> key in file
    {
      CollidesMeans(key, tag);
      if key in env {
        CollidesMeans(key, key);
      }
    }
    CollidesMeans(tag, tag);
  }

  /**
   The environment's settings win and its entries join; refused exactly when a tag names one of
   the file's entries, trimmed and folded. Tags never collide with each other.
   */
  method MergeEnv(file: RawConfig, env: RawConfig) returns (r: Result<RawConfig, EnvError>)
    requires forall tag :: tag in env.reflectors ==> IsEnvTag(tag)
    ensures r.Success? <==> forall key, tag :: key in file.reflectors && tag in env.reflectors ==> Lower(Trim(key)) != tag
    ensures r.Failure? ==> r.error.DuplicateReflector? && r.error.tag in env.reflectors
                           && exists key :: key in file.reflectors && Lower(Trim(key)) == r.error.tag
    ensures r.Success? ==> r.value.reflectors == file.reflectors + env.reflectors
    ensures r.Success? ==> forall tag :: tag in env.reflectors ==> tag !in file.reflectors
    ensures r.Success? ==> forall s :: s in r.value.settings <==> s in env.settings || s in file.settings
    ensures r.Success? ==> forall s :: s in r.value.settings ==>
              r.value.settings[s] == if s in env.settings then env.settings[s] else file.settings[s]
  {
    hide Lower, Trim, Collides, IsEnvTag;
    var merged := file.reflectors;
    var todo := env.reflectors.Keys;
    while todo != {}
      invariant todo <= env.reflectors.Keys
      invariant merged == file.reflectors + (env.reflectors - todo)
      invariant forall tag :: tag in env.reflectors && tag !in todo ==> !(exists key :: key in file.reflectors && Lower(Trim(key)) == tag)
      invariant forall tag :: tag in env.reflectors && tag !in todo ==> tag !in file.reflectors
    {
      var tag :| tag in todo;
      OnlyFileKeysCollide(file.reflectors.Keys, env.reflectors.Keys, merged.Keys, tag);
      if exists key :: key in merged && Collides(key, tag) {
        return Failure(DuplicateReflector(tag));
      }
      merged := merged[tag := env.reflectors[tag]];
      todo := todo - {tag};
      assert merged == file.reflectors + (env.reflectors - todo);
    }
    assert env.reflectors - todo == env.reflectors;
    return Success(RawConfig(file.settings + env.settings, merged));
  }
}
