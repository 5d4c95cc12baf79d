// What arrOptions passes on and what arrToOpts makes of it, setting by setting and argument by argument.
module OptionLaws {
  import opened Text
  import opened Options

  // ----- The arguments -----

  // Version 1 binaries know no nopreallocj.
  predicate PassedOn(inherited: set<string>, binVersion: Value, key: string) {
    && key !in LOGICAL_OPTIONS && key !in inherited
    && !(key == "nopreallocj" && binVersion.Text? && binVersion.text != "" && binVersion.text[0] == '1'
         && |binVersion.text| > 1 && binVersion.text[1] == '.')
  }

  predicate Numeric(s: Setting) {
    (s.key == "v" || s.key == "verbose") && s.value.Number?
  }

  lemma PassedIff(inherited: set<string>, binVersion: Value, key: string)
    ensures PassedOn(inherited, binVersion, key)
       <==> !(Logical(inherited, key) || (Version1(binVersion) && key == "nopreallocj"))
  {
    if binVersion.Text? && |binVersion.text| >= 2 {
      assert binVersion.text[..2] == [binVersion.text[0], binVersion.text[1]];
    }
  }

  // The arguments made of one setting.
  lemma SettingArguments(inherited: set<string>, binVersion: Value, s: Setting)
    ensures var args := AllArguments(inherited, binVersion, [s]);
      && (!PassedOn(inherited, binVersion, s.key) ==> args == [])
      && (PassedOn(inherited, binVersion, s.key) && Numeric(s) && s.value.n <= 0 ==> args == [])
      && (PassedOn(inherited, binVersion, s.key) && Numeric(s) && s.value.n > 0 ==>
            && |args| == 1 && |args[0]| == 1 + (if s.value.n > 10 then 10 else s.value.n)
            && args[0][0] == '-' && forall i :: 1 <= i < |args[0]| ==> args[0][i] == 'v')
      && (PassedOn(inherited, binVersion, s.key) && !Numeric(s) ==>
            match s.value
            case Undefined => args == []
            case Null => args == []
            case Text(t) => args == if t == "" then ["--" + s.key] else ["--" + s.key, t]
            case Flag(b) => args == if b then ["--" + s.key, "true"] else ["--" + s.key]
            case Number(n) => args == if n == 0 then ["--" + s.key] else ["--" + s.key, IntText(n)])
  {
    PassedIff(inherited, binVersion, s.key);
    hide Logical, Version1, PassedOn;
    assert AllArguments(inherited, binVersion, [s][..0]) == [];
    assert AllArguments(inherited, binVersion, [s]) == Arguments(s.key, Sends(inherited, binVersion, s));
  }

  // The arguments of an object are those of its settings, in order.
  lemma {:induction false} ArgumentsSplit(inherited: set<string>, binVersion: Value, o: seq<Setting>, p: seq<Setting>)
    ensures AllArguments(inherited, binVersion, o + p)
         == AllArguments(inherited, binVersion, o) + AllArguments(inherited, binVersion, p)
  {
    if p == [] {
      assert o + p == o;
    } else {
      var n := |p| - 1;
      ArgumentsSplit(inherited, binVersion, o, p[..n]);
      assert (o + p)[..|o + p| - 1] == o + p[..n];
      hide Arguments, Sends;
      Options.Regroup(AllArguments(inherited, binVersion, o), AllArguments(inherited, binVersion, p[..n]),
                      Arguments(p[n].key, Sends(inherited, binVersion, p[n])));
    }
  }

  // The first argument is the binary's name, with the version if one other than "latest" is given.
  lemma FirstArgument(inherited: set<string>, name: string, o: seq<Setting>)
    requires DistinctKeys(o) && ObjectArguments(inherited, name, o).Some?
    ensures var args := ObjectArguments(inherited, name, o).value;
      && args != []
      && args[1..] == AllArguments(inherited, Lookup(o, "binVersion"), o)
      && (args[0] == name || exists i :: 0 <= i < |o| && o[i].key == "binVersion")
      && forall i :: 0 <= i < |o| && o[i].key == "binVersion" ==>
           match o[i].value
           case Undefined => args[0] == name
           case Null => args[0] == name
           case Text(t) => args[0] == if t == "" || t == "latest" then name else name + "-" + t
           case Number(n) => args[0] == if n == 0 then name else name + "-" + IntText(n)
           case Flag(b) => args[0] == if b then name + "-true" else name
  {
    var version := Lookup(o, "binVersion");
    LookupHas(o, "binVersion");
    hide AllArguments, Throws;
    assert "-" + "true" == "-true";
    Text.Regroup(name, "-", "true");
    forall i | 0 <= i < |o| && o[i].key == "binVersion" ensures o[i].value == version {
      LookupAt(o, i);
    }
  }

  lemma {:induction false} LookupAt(o: seq<Setting>, i: nat)
    requires DistinctKeys(o) && i < |o|
    ensures Lookup(o, o[i].key) == o[i].value
  {
    if i < |o| - 1 {
      LookupAt(o[..|o| - 1], i);
    }
  }

  // arrOptions throws exactly when the object hides hasOwnProperty, or gives a version that is not a
  // string together with some option that is passed on to binaries of any version.
  lemma ThrowsIff(inherited: set<string>, name: string, o: seq<Setting>)
    requires DistinctKeys(o)
    ensures ObjectArguments(inherited, name, o).None? <==>
      || (exists i :: 0 <= i < |o| && o[i].key == "hasOwnProperty")
      || (exists i, j :: 0 <= i < |o| && 0 <= j < |o| && o[i].key == "binVersion"
            && (o[i].value == Flag(true) || (o[i].value.Number? && o[i].value.n != 0))
            && o[j].key !in LOGICAL_OPTIONS && o[j].key !in inherited)
  {
    var version := Lookup(o, "binVersion");
    LookupHas(o, "binVersion");
    hide AllArguments, BinaryName;
    forall i | 0 <= i < |o| && o[i].key == "binVersion" ensures o[i].value == version {
      LookupAt(o, i);
    }
    if Truthy(version) && !version.Text? {
      var i :| 0 <= i < |o| && o[i].key == "binVersion";
      assert o[i].value == version;
    }
  }

  // ----- Reading arguments -----

  // The name of an option without its dashes, at most two.
  predicate IsNamed(arg: string, opt: string) {
    arg == "--" + opt || (arg == "-" + opt && (opt == "" || opt[0] != '-'))
  }

  lemma NamedIff(arg: string, opt: string)
    ensures IsNamed(arg, opt) <==> Dashed(arg) && Undash(Undash(arg)) == opt
  {
    if Dashed(arg) {
      assert arg == "-" + arg[1..];
      if Dashed(arg[1..]) {
        assert arg[1..] == "-" + arg[2..] && arg == "--" + arg[2..];
      }
      if arg == "--" + opt {
        assert arg[1..] == "-" + opt && arg[2..] == opt;
      } else if arg == "-" + opt {
        assert arg[1..] == opt;
      }
    }
  }

  // What an option called opt with this value puts under the key k.
  function OptionSets(opt: string, value: string, k: string): Option<Value> {
    if k == "verbose" && AllV(opt) then Some(Number(|opt|))
    else if k == opt then Some(Text(value))
    else None
  }

  lemma AssignAt(opts: map<string, Value>, opt: string, value: string, k: string)
    ensures At(Assign(opts, opt, value), k) ==
      if OptionSets(opt, value, k).Some? then OptionSets(opt, value, k) else At(opts, k)
  {
    VerboseIsNoV();
  }

  // An argument is an option if and only if it begins with a dash, wherever it stands; its value is the
  // next argument unless that is an option too.
  function ArgumentSets(args: seq<string>, i: nat, k: string): Option<Value>
    requires i < |args|
  {
    if !Dashed(args[i]) then None
    else OptionSets(Undash(Undash(args[i])), if i + 1 < |args| && !Dashed(args[i + 1]) then args[i + 1] else "", k)
  }

  lemma ArgumentsTail(args: seq<string>, m: nat, i: nat, k: string)
    requires m <= i < |args|
    ensures ArgumentSets(args, i, k) == ArgumentSets(args[m..], i - m, k)
  {
  }

  ghost predicate NoneFrom(args: seq<string>, i: nat, k: string) {
    forall j :: i <= j < |args| ==> ArgumentSets(args, j, k) == None
  }

  lemma NoneTail(args: seq<string>, m: nat, i: nat, k: string)
    requires m <= i <= |args| && NoneFrom(args, i, k)
    ensures NoneFrom(args[m..], i - m, k)
  {
    forall j | i - m <= j < |args| - m ensures ArgumentSets(args[m..], j, k) == None {
      ArgumentsTail(args, m, m + j, k);
    }
  }

  // A key that no argument sets keeps what it had.
  lemma {:induction false} ScanUnset(args: seq<string>, opts: map<string, Value>, k: string)
    requires NoneFrom(args, 0, k)
    ensures At(Scan(args, opts), k) == At(opts, k)
  {
    if args != [] {
      var m := Width(args);
      assert ArgumentSets(args, 0, k) == None && NoneFrom(args, m, k);
      hide ArgumentSets, Scan, NoneFrom, Stepped;
      NoneTail(args, m, m, k);
      ScanStep(args, opts, k);
      ScanUnset(args[m..], Stepped(args, opts), k);
    }
  }

  // How many arguments are read at once, and the options then.
  function Width(args: seq<string>): (m: nat)
    requires args != []
    ensures 1 <= m <= |args|
  {
    if Dashed(args[0]) && |args| > 1 && !Dashed(args[1]) then 2 else 1
  }

  function Stepped(args: seq<string>, opts: map<string, Value>): map<string, Value>
    requires args != []
  {
    if !Dashed(args[0]) then opts
    else Assign(opts, Undash(Undash(args[0])), if |args| > 1 && !Dashed(args[1]) then args[1] else "")
  }

  lemma ScanStep(args: seq<string>, opts: map<string, Value>, k: string)
    requires args != []
    ensures Scan(args, opts) == Scan(args[Width(args)..], Stepped(args, opts))
    ensures At(Stepped(args, opts), k) ==
      if ArgumentSets(args, 0, k).Some? then ArgumentSets(args, 0, k) else At(opts, k)
  {
    if Dashed(args[0]) {
      AssignAt(opts, Undash(Undash(args[0])), if |args| > 1 && !Dashed(args[1]) then args[1] else "", k);
    }
  }

  // The last argument that sets a key has its way.
  lemma {:induction false} ScanSet(args: seq<string>, opts: map<string, Value>, i: nat, k: string)
    requires i < |args| && ArgumentSets(args, i, k).Some? && NoneFrom(args, i + 1, k)
    ensures At(Scan(args, opts), k) == ArgumentSets(args, i, k)
    decreases |args|
  {
    var m := Width(args);
    assert i > 0 ==> m <= i;
    assert i == 0 ==> NoneFrom(args, m, k);
    hide ArgumentSets, Scan, NoneFrom, Stepped, Width;
    ScanStep(args, opts, k);
    if i == 0 {
      NoneTail(args, m, m, k);
      ScanUnset(args[m..], Stepped(args, opts), k);
    } else {
      ArgumentsTail(args, m, i, k);
      NoneTail(args, m, i + 1, k);
      ScanSet(args[m..], Stepped(args, opts), i - m, k);
    }
  }

  // ----- What comes back -----

  // A value that begins with a dash is taken for an option of its own.
  function TextSets(key: string, text: string, k: string): Option<Value> {
    if text == "" || text[0] != '-' then OptionSets(key, text, k)
    else
      var opt := if |text| > 1 && text[1] == '-' then text[2..] else text[1..];
      if OptionSets(opt, "", k).Some? then OptionSets(opt, "", k) else OptionSets(key, "", k)
  }

  // What a setting puts under the key k once its arguments are read back.
  function SettingSets(inherited: set<string>, binVersion: Value, s: Setting, k: string): Option<Value> {
    if !PassedOn(inherited, binVersion, s.key) then None
    else if Numeric(s) then
      var n := if s.value.n > 10 then 10 else s.value.n;
      if n <= 0 then None
      else if k == "verbose" then Some(Number(n))
      else if |k| == n && AllV(k) then Some(Text(""))
      else None
    else
      match s.value
      case Undefined => None
      case Null => None
      case Text(t) => TextSets(s.key, t, k)
      case Number(n) => TextSets(s.key, if n == 0 then "" else IntText(n), k)
      case Flag(b) => OptionSets(s.key, if b then "true" else "", k)
  }

  lemma VsOnly(k: string, n: nat)
    ensures k == Repeat('v', n) <==> |k| == n && AllV(k)
  {
  }

  lemma UndashTwice(text: string)
    requires Dashed(text)
    ensures Undash(Undash(text)) == if |text| > 1 && text[1] == '-' then text[2..] else text[1..]
  {
    if Dashed(text[1..]) {
      assert text[1..][1..] == text[2..];
    }
  }

  lemma TextReceived(opts: map<string, Value>, key: string, text: string, k: string)
    ensures At(Received(key, Plain(text), opts), k) ==
      if TextSets(key, text, k).Some? then TextSets(key, text, k) else At(opts, k)
  {
    hide AllV, Undash, Assign, OptionSets;
    if Dashed(text) {
      UndashTwice(text);
      AssignAt(opts, key, "", k);
      AssignAt(Assign(opts, key, ""), Undash(Undash(text)), "", k);
    } else {
      AssignAt(opts, key, text, k);
    }
  }

  lemma SettingReceived(inherited: set<string>, binVersion: Value, s: Setting, opts: map<string, Value>, k: string)
    ensures At(Received(s.key, Sends(inherited, binVersion, s), opts), k) ==
      if SettingSets(inherited, binVersion, s, k).Some? then SettingSets(inherited, binVersion, s, k) else At(opts, k)
  {
    PassedIff(inherited, binVersion, s.key);
    hide Logical, Version1, PassedOn, AllV, OptionSets, Assign;
    var sent := Sends(inherited, binVersion, s);
    match sent {
      case Nothing =>
      case Verbosity(n) =>
        VsOnly(k, n);
        VsOnly("verbose", n);
        VerboseIsNoV();
      case Plain(text) =>
        TextReceived(opts, s.key, text, k);
    }
  }

  // What the last setting that sets the key puts there.
  function LastSetting(inherited: set<string>, binVersion: Value, o: seq<Setting>, k: string): Option<Value> {
    if o == [] then None
    else
      var last := SettingSets(inherited, binVersion, o[|o| - 1], k);
      if last.Some? then last else LastSetting(inherited, binVersion, o[..|o| - 1], k)
  }

  lemma {:induction false} ReceivedLast(inherited: set<string>, binVersion: Value, o: seq<Setting>, k: string)
    ensures At(AllReceived(inherited, binVersion, o), k) == LastSetting(inherited, binVersion, o, k)
  {
    if o != [] {
      var n := |o| - 1;
      hide SettingSets, Sends, Received;
      ReceivedLast(inherited, binVersion, o[..n], k);
      SettingReceived(inherited, binVersion, o[n], AllReceived(inherited, binVersion, o[..n]), k);
    }
  }

  // What comes back of any object at all, key by key.
  lemma DecodedIs(inherited: set<string>, o: seq<Setting>, k: string)
    requires Decoded(inherited, o).Some?
    ensures At(Decoded(inherited, o).value, k) == LastSetting(inherited, Lookup(o, "binVersion"), o, k)
  {
    Decodes(inherited, Lookup(o, "binVersion"), o);
    ReceivedLast(inherited, Lookup(o, "binVersion"), o, k);
    hide LastSetting, AllArguments, AllReceived, Scan, Throws;
  }

  lemma {:induction false} OnlySetting(inherited: set<string>, binVersion: Value, o: seq<Setting>, i: nat, k: string)
    requires i < |o| && forall j :: 0 <= j < |o| && j != i ==> SettingSets(inherited, binVersion, o[j], k) == None
    ensures LastSetting(inherited, binVersion, o, k) == SettingSets(inherited, binVersion, o[i], k)
  {
    var n := |o| - 1;
    hide SettingSets;
    if i < n {
      assert SettingSets(inherited, binVersion, o[n], k) == None;
      OnlySetting(inherited, binVersion, o[..n], i, k);
    } else if n > 0 {
      NoSetting(inherited, binVersion, o[..n], k);
    }
  }

  lemma {:induction false} NoSetting(inherited: set<string>, binVersion: Value, o: seq<Setting>, k: string)
    requires forall j :: 0 <= j < |o| ==> SettingSets(inherited, binVersion, o[j], k) == None
    ensures LastSetting(inherited, binVersion, o, k) == None
  {
    hide SettingSets;
    if o != [] {
      NoSetting(inherited, binVersion, o[..|o| - 1], k);
    }
  }

  // Strings without a leading dash and numbers that are not negative.
  predicate PlainValue(v: Value) {
    match v
    case Text(t) => !Dashed(t)
    case Number(n) => n >= 0
    case _ => true
  }

  function Spelled(v: Value): Option<Value> {
    match v
    case Undefined => None
    case Null => None
    case Text(t) => Some(Text(t))
    case Number(n) => Some(Text(if n == 0 then "" else IntText(n)))
    case Flag(b) => Some(Text(if b then "true" else ""))
  }

  // Where no value is spelled with a leading dash, every key that is passed on and has no say in the
  // verbosity comes back with its value spelled out: 0, false and "" as an empty text, undefined and null
  // not at all.
  lemma PlainComesBack(inherited: set<string>, o: seq<Setting>, i: nat)
    requires Decoded(inherited, o).Some? && DistinctKeys(o) && i < |o|
    requires forall j :: 0 <= j < |o| ==> PlainValue(o[j].value)
    requires PassedOn(inherited, Lookup(o, "binVersion"), o[i].key) && !AllV(o[i].key) && o[i].key != "verbose"
    ensures At(Decoded(inherited, o).value, o[i].key) == Spelled(o[i].value)
  {
    hide *;
    OwnSetting(inherited, Lookup(o, "binVersion"), o[i]);
    OwnAlone(inherited, o, i);
  }

  // So a number is read back as itself; 0 alone leaves an empty text.
  lemma SpelledNumber(n: nat)
    ensures var v := Spelled(Number(n));
      && v.Some? && v.value.Text? && (v.value.text == "" <==> n == 0)
      && AllDigits(v.value.text) && IntValue(v.value.text) == n
  {
    IntValueText(n);
  }

  lemma OwnAlone(inherited: set<string>, o: seq<Setting>, i: nat)
    requires Decoded(inherited, o).Some? && DistinctKeys(o) && i < |o|
    requires forall j :: 0 <= j < |o| ==> PlainValue(o[j].value)
    requires !AllV(o[i].key) && o[i].key != "verbose"
    ensures At(Decoded(inherited, o).value, o[i].key)
         == SettingSets(inherited, Lookup(o, "binVersion"), o[i], o[i].key)
  {
    var k, version := o[i].key, Lookup(o, "binVersion");
    hide AllV, PassedOn, Throws, SettingSets, Decoded, LastSetting, PlainValue, Lookup;
    forall j | 0 <= j < |o| && j != i ensures SettingSets(inherited, version, o[j], k) == None {
      assert o[j].key != k;
      OtherSetting(inherited, version, o[j], k);
    }
    OnlySetting(inherited, version, o, i, k);
    DecodedIs(inherited, o, k);
  }

  lemma OtherSetting(inherited: set<string>, binVersion: Value, s: Setting, k: string)
    requires PlainValue(s.value) && s.key != k && !AllV(k) && k != "verbose"
    ensures SettingSets(inherited, binVersion, s, k) == None
  {
    hide AllV, PassedOn;
  }

  lemma OwnSetting(inherited: set<string>, binVersion: Value, s: Setting)
    requires PlainValue(s.value) && PassedOn(inherited, binVersion, s.key) && !AllV(s.key) && s.key != "verbose"
    ensures SettingSets(inherited, binVersion, s, s.key) == Spelled(s.value)
  {
    assert AllV("v");
    if s.value.Number? {
      assert IsDigit(IntText(s.value.n)[0]);
    }
    hide AllV, PassedOn;
  }

  // A negative number comes back as an empty text, and its numeral as an option of its own.
  lemma NegativeLost(inherited: set<string>, k: string, n: int)
    requires n < 0 && k !in LOGICAL_OPTIONS && k !in inherited && !AllV(k) && k != "verbose"
    requires "hasOwnProperty" in inherited
    ensures var m := Decoded(inherited, [Setting(k, Number(n))]);
      m.Some? && m.value == map[k := Text(""), NatText(-n) := Text("")]
  {
    var o, numeral := [Setting(k, Number(n))], NatText(-n);
    assert AllV("v") && !AllV(numeral) by {
      assert IsDigit(numeral[0]);
    }
    Decodes(inherited, Undefined, o);
    assert Lookup(o, "binVersion") == Undefined && !HasKey(o, "hasOwnProperty");
    assert IntText(n) == "-" + numeral && IntText(n)[1..] == numeral;
    hide AllV;
    assert o[..0] == [];
    assert AllReceived(inherited, Undefined, o)
        == Received(k, Sends(inherited, Undefined, o[0]), AllReceived(inherited, Undefined, o[..0]));
    assert AllReceived(inherited, Undefined, o[..0]) == map[];
    assert Undash(IntText(n)) == numeral && Undash(numeral) == numeral;
  }
}
