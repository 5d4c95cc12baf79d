// MongoRunner.arrOptions and MongoRunner.arrToOpts of servers.js: option objects to command-line
// arguments and back.
module Options {
  import opened Text

  // The values an option may have. Every number is a whole number.
  datatype Value = Undefined | Null | Text(text: string) | Number(n: int) | Flag(b: bool)

  // One own property; an object is its properties in for-in order.
  datatype Setting = Setting(key: string, value: Value)

  ghost predicate DistinctKeys(o: seq<Setting>) {
    forall i, j :: 0 <= i < j < |o| ==> o[i].key != o[j].key
  }

  predicate HasKey(o: seq<Setting>, key: string) {
    exists i :: 0 <= i < |o| && o[i].key == key
  }

  // o[key]
  function Lookup(o: seq<Setting>, key: string): Value {
    if o == [] then Undefined else if o[|o| - 1].key == key then o[|o| - 1].value else Lookup(o[..|o| - 1], key)
  }

  // The object as a finite map, for comparing objects.
  function AsMap(o: seq<Setting>): (m: map<string, Value>)
    ensures forall k :: k in m <==> HasKey(o, k)
  {
    if o == [] then map[]
    else
      var m := AsMap(o[..|o| - 1]);
      assert forall k :: HasKey(o, k) <==> HasKey(o[..|o| - 1], k) || k == o[|o| - 1].key;
      m[o[|o| - 1].key := o[|o| - 1].value]
  }

  const LOGICAL_OPTIONS: set<string> := {
    "runId", "pathOpts", "remember", "noRemember", "appendOptions", "restart", "noCleanData", "cleanData",
    "startClean", "forceLock", "useLogFiles", "logFile", "useHostName", "useHostname", "noReplSet", "forgetPort",
    "arbiter", "noJournalPrealloc", "noJournal", "binVersion", "waitForConnect"
  }

  // `k in MongoRunner.logicalOptions`; inherited holds the names every object inherits.
  predicate Logical(inherited: set<string>, key: string) {
    key in LOGICAL_OPTIONS || key in inherited
  }

  predicate Truthy(v: Value) {
    match v
    case Undefined => false
    case Null => false
    case Text(t) => t != ""
    case Number(n) => n != 0
    case Flag(b) => b
  }

  // "" + v
  function TextOf(v: Value): string {
    match v
    case Undefined => "undefined"
    case Null => "null"
    case Text(t) => t
    case Number(n) => IntText(n)
    case Flag(b) => if b then "true" else "false"
  }

  // v == "", for a v that is neither undefined nor null
  predicate LooselyEmpty(v: Value) {
    v == Text("") || v == Number(0) || v == Flag(false)
  }

  predicate Dashed(s: string) {
    s != "" && s[0] == '-'
  }

  predicate AllV(s: string) {
    forall i :: 0 <= i < |s| ==> s[i] == 'v'
  }

  // .replace(/^-/, "")
  function Undash(s: string): string {
    if Dashed(s) then s[1..] else s
  }

  function Min(a: int, b: int): int {
    if a < b then a else b
  }

  // ---- Encoding ----

  predicate Version1(binVersion: Value) {
    binVersion.Text? && |binVersion.text| >= 2 && binVersion.text[..2] == "1."
  }

  // What a setting puts on the command line: nothing, `-v...v`, or `--key` with a value if not empty.
  datatype Sent = Nothing | Verbosity(n: nat) | Plain(text: string)

  function Sends(inherited: set<string>, binVersion: Value, s: Setting): (r: Sent) {
    if Logical(inherited, s.key) || (Version1(binVersion) && s.key == "nopreallocj") then Nothing
    else if (s.key == "v" || s.key == "verbose") && s.value.Number? then
      if s.value.n > 0 then Verbosity(Min(s.value.n, 10)) else Nothing
    else if s.value.Undefined? || s.value.Null? then Nothing
    else Plain(if LooselyEmpty(s.value) then "" else TextOf(s.value))
  }

  function Arguments(key: string, sent: Sent): seq<string> {
    match sent
    case Nothing => []
    case Verbosity(n) => ["-" + Repeat('v', n)]
    case Plain(text) => if text == "" then ["--" + key] else ["--" + key, text]
  }

  function AllArguments(inherited: set<string>, binVersion: Value, o: seq<Setting>): seq<string> {
    if o == [] then []
    else
      var last := o[|o| - 1];
      AllArguments(inherited, binVersion, o[..|o| - 1]) + Arguments(last.key, Sends(inherited, binVersion, last))
  }

  // The TypeErrors of arrOptions: hasOwnProperty is not a function, or binVersion has no startsWith.
  predicate Throws(inherited: set<string>, o: seq<Setting>) {
    || HasKey(o, "hasOwnProperty")
    || (Truthy(Lookup(o, "binVersion")) && !Lookup(o, "binVersion").Text?
        && exists i :: 0 <= i < |o| && !Logical(inherited, o[i].key))
  }

  function BinaryName(name: string, binVersion: Value): string {
    if Truthy(binVersion) && binVersion != Text("latest") then name + "-" + TextOf(binVersion) else name
  }

  lemma NoArguments(inherited: set<string>, binVersion: Value, o: seq<Setting>)
    ensures AllArguments(inherited, binVersion, o[..0]) == []
    ensures o == [] ==> !HasKey(o, "hasOwnProperty")
  {
  }

  lemma EmptyTexts(v: Value)
    ensures TextOf(v) == "" ==> LooselyEmpty(v)
  {
  }

  lemma AllArgumentsSnoc(inherited: set<string>, binVersion: Value, o: seq<Setting>, i: nat, sent: Sent)
    requires i < |o| && sent == Sends(inherited, binVersion, o[i])
    ensures [""] + AllArguments(inherited, binVersion, o[..i + 1])
         == [""] + AllArguments(inherited, binVersion, o[..i]) + Arguments(o[i].key, sent)
  {
    assert o[..i + 1][..i] == o[..i];
  }

  // The argument for a numeric v or verbose.
  method VerbosityFlag(value: int) returns (temp: string)
    requires value > 0
    ensures temp == "-" + Repeat('v', Min(value, 10))
  {
    var n := value;
    if n > 10 {
      n := 10;
    }
    ghost var m: nat := n;
    temp := "-";
    while n > 0
      invariant 0 <= n <= m && temp == "-" + Repeat('v', m - n)
    {
      n := n - 1;
      temp := temp + "v";
    }
  }

  // The object branch of arrOptions; None stands for a TypeError.
  method ObjectOptions(inherited: set<string>, name: string, o: seq<Setting>) returns (args: Option<seq<string>>)
    ensures args == ObjectArguments(inherited, name, o)
  {
    hide AllArguments, Lookup, HasKey, Logical, TextOf, Repeat;
    var full := [""];
    var binaryName, version := name, Lookup(o, "binVersion");
    if Truthy(version) && version != Text("latest") && !LooselyEmpty(version) {
      binaryName := binaryName + "-" + TextOf(version);
    }
    NoArguments(inherited, version, o);
    var i := 0;
    while i < |o|
      invariant 0 <= i <= |o|
      invariant i > 0 ==> !HasKey(o, "hasOwnProperty")
      invariant Truthy(version) && !version.Text? ==> forall j :: 0 <= j < i ==> Logical(inherited, o[j].key)
      invariant full == [""] + AllArguments(inherited, version, o[..i])
    {
      var k, value := o[i].key, o[i].value;
      if HasKey(o, "hasOwnProperty") {
        return None;
      }
      AllArgumentsSnoc(inherited, version, o, i, Sends(inherited, version, o[i]));
      i := i + 1;
      if Logical(inherited, k) {
        continue;
      }
      if Truthy(version) {
        if !version.Text? {
          return None;
        }
        if Version1(version) && k == "nopreallocj" {
          continue;
        }
      }
      if (k == "v" || k == "verbose") && value.Number? {
        if value.n > 0 {
          var temp := VerbosityFlag(value.n);
          full := full + [temp];
        }
      } else {
        if value.Undefined? || value.Null? {
          continue;
        }
        EmptyTexts(value);
        full := full + ["--" + k];
        if !LooselyEmpty(value) {
          full := full + [TextOf(value)];
        }
      }
    }
    assert o[..i] == o;
    full := full[0 := binaryName];
    assert full == [binaryName] + AllArguments(inherited, version, o);
    assert binaryName == BinaryName(name, version);
    assert !Throws(inherited, o);
    return Some(full);
  }

  // What callers pass: an object, an array of strings, or a string.
  datatype Args = Settings(o: seq<Setting>) | List(items: seq<string>) | Chars(s: string)

  // isObject is true of arrays too, so an array is the object of its elements by index.
  function ByIndex(items: seq<string>): seq<Setting> {
    seq(|items|, i requires 0 <= i < |items| => Setting(NatText(i), Text(items[i])))
  }

  function Singles(s: string): (r: seq<string>)
    ensures |r| == |s| && forall i :: 0 <= i < |s| ==> r[i] == [s[i]]
  {
    seq(|s|, i requires 0 <= i < |s| => [s[i]])
  }

  function ObjectArguments(inherited: set<string>, name: string, o: seq<Setting>): Option<seq<string>> {
    if Throws(inherited, o) then None
    else Some([BinaryName(name, Lookup(o, "binVersion"))] + AllArguments(inherited, Lookup(o, "binVersion"), o))
  }

  method ArrOptions(inherited: set<string>, name: string, args: Args) returns (full: Option<seq<string>>)
    ensures args.Settings? ==> full == ObjectArguments(inherited, name, args.o)
    ensures args.List? ==> full == ObjectArguments(inherited, name, ByIndex(args.items))
    ensures args.Chars? ==> full == Some([name] + Singles(args.s))
  {
    match args {
      case Settings(o) => full := ObjectOptions(inherited, name, o);
      case List(items) => full := ObjectOptions(inherited, name, ByIndex(items));
      case Chars(s) =>
        var fullArgs := [""];
        for i := 0 to |s|
          invariant fullArgs == [""] + Singles(s)[..i]
        {
          fullArgs := fullArgs + [[s[i]]];
        }
        fullArgs := fullArgs[0 := name];
        assert fullArgs == [name] + Singles(s);
        full := Some(fullArgs);
    }
  }

  // ---- Decoding ----

  // opts[opt] = value, and the special case of options made of v's.
  function Assign(opts: map<string, Value>, opt: string, value: string): map<string, Value> {
    var m := opts[opt := Text(value)];
    if AllV(opt) then m["verbose" := Number(|opt|)] else m
  }

  function Scan(args: seq<string>, opts: map<string, Value>): map<string, Value> {
    if args == [] then opts
    else if !Dashed(args[0]) then Scan(args[1..], opts)
    else
      var opt := Undash(Undash(args[0]));
      if |args| > 1 && !Dashed(args[1]) then Scan(args[2..], Assign(opts, opt, args[1]))
      else Scan(args[1..], Assign(opts, opt, ""))
  }

  // arrToOpts; the first argument is the program's name.
  method ArrToOpts(arr: seq<string>) returns (opts: map<string, Value>)
    ensures arr != [] ==> opts == Scan(arr[1..], map[])
    ensures arr == [] ==> opts == map[]
  {
    opts := map[];
    var i := 1;
    while i < |arr|
      invariant i >= 1
      invariant arr != [] ==> i <= |arr| && Scan(arr[i..], opts) == Scan(arr[1..], map[])
      invariant arr == [] ==> opts == map[]
    {
      var rest := arr[i..];
      assert rest[1..] == arr[i + 1..];
      if Dashed(arr[i]) {
        var opt := Undash(Undash(arr[i]));
        if |arr| > i + 1 && !Dashed(arr[i + 1]) {
          assert rest[2..] == arr[i + 2..];
          opts := opts[opt := Text(arr[i + 1])];
          i := i + 1;
        } else {
          opts := opts[opt := Text("")];
        }
        if AllV(opt) {
          opts := opts["verbose" := Number(|opt|)];
        }
      }
      i := i + 1;
    }
    assert arr != [] ==> arr[i..] == [];
  }

  // ---- One through the other ----

  // What arrToOpts makes of a setting's arguments. A value with a leading dash is read as an option of its own.
  function Received(key: string, sent: Sent, opts: map<string, Value>): map<string, Value> {
    match sent
    case Nothing => opts
    case Verbosity(n) => opts[Repeat('v', n) := Text("")]["verbose" := Number(n)]
    case Plain(text) =>
      if Dashed(text) then Assign(Assign(opts, key, ""), Undash(Undash(text)), "") else Assign(opts, key, text)
  }

  function AllReceived(inherited: set<string>, binVersion: Value, o: seq<Setting>): map<string, Value> {
    if o == [] then map[]
    else
      var last := o[|o| - 1];
      Received(last.key, Sends(inherited, binVersion, last), AllReceived(inherited, binVersion, o[..|o| - 1]))
  }

  // The arguments of a setting read before others that begin with a dash.
  lemma ScanArguments(key: string, sent: Sent, rest: seq<string>, opts: map<string, Value>)
    requires rest == [] || Dashed(rest[0])
    requires sent.Verbosity? ==> sent.n > 0
    ensures Scan(Arguments(key, sent) + rest, opts) == Scan(rest, Received(key, sent, opts))
    ensures Arguments(key, sent) + rest == [] || Dashed((Arguments(key, sent) + rest)[0])
  {
    var args := Arguments(key, sent) + rest;
    match sent
    case Nothing =>
      assert args == rest;
    case Verbosity(n) =>
      assert args[1..] == rest;
      assert Undash("-" + Repeat('v', n)) == Repeat('v', n);
      assert AllV(Repeat('v', n));
    case Plain(text) =>
      assert Undash(Undash("--" + key)) == key by {
        assert Undash("--" + key) == "-" + key;
      }
      if text == "" {
        assert args[1..] == rest;
      } else {
        assert args[1..] == [text] + rest && args[2..] == rest;
        if Dashed(text) {
          assert ([text] + rest)[1..] == rest;
        }
      }
  }

  lemma {:induction false} ScanAllArguments(inherited: set<string>, binVersion: Value,
                                            o: seq<Setting>, rest: seq<string>)
    requires rest == [] || Dashed(rest[0])
    ensures Scan(AllArguments(inherited, binVersion, o) + rest, map[])
         == Scan(rest, AllReceived(inherited, binVersion, o))
  {
    hide Scan, Received, Arguments, Sends, Dashed;
    if o == [] {
      assert AllArguments(inherited, binVersion, o) + rest == rest;
    } else {
      var n := |o| - 1;
      var front, sent := AllArguments(inherited, binVersion, o[..n]), Sends(inherited, binVersion, o[n]);
      var args := Arguments(o[n].key, sent);
      SendsSome(inherited, binVersion, o[n]);
      ScanArguments(o[n].key, sent, rest, AllReceived(inherited, binVersion, o[..n]));
      ScanAllArguments(inherited, binVersion, o[..n], args + rest);
      Regroup(front, args, rest);
    }
  }

  lemma SendsSome(inherited: set<string>, binVersion: Value, s: Setting)
    ensures var sent := Sends(inherited, binVersion, s); sent.Verbosity? ==> sent.n > 0
  {
  }

  lemma Regroup(a: seq<string>, b: seq<string>, c: seq<string>)
    ensures (a + b) + c == a + (b + c)
  {
  }

  // What comes back from any object at all.
  lemma Decodes(inherited: set<string>, binVersion: Value, o: seq<Setting>)
    ensures Scan(AllArguments(inherited, binVersion, o), map[]) == AllReceived(inherited, binVersion, o)
  {
    ScanAllArguments(inherited, binVersion, o, []);
    assert AllArguments(inherited, binVersion, o) + [] == AllArguments(inherited, binVersion, o);
  }

  // ---- When it comes back whole ----

  function Decoded(inherited: set<string>, o: seq<Setting>): Option<map<string, Value>> {
    if Throws(inherited, o) then None
    else Some(Scan(AllArguments(inherited, Lookup(o, "binVersion"), o), map[]))
  }

  // How a started process gets its commandLine.
  method CommandLine(inherited: set<string>, name: string, o: seq<Setting>)
    returns (commandLine: Option<map<string, Value>>)
    ensures commandLine == Decoded(inherited, o)
  {
    var args := ArrOptions(inherited, name, Settings(o));
    if args.None? {
      return None;
    }
    var opts := ArrToOpts(args.value);
    return Some(opts);
  }

  predicate AllTexts(o: seq<Setting>) {
    forall i :: 0 <= i < |o| ==> o[i].value.Text?
  }

  predicate NoDashes(o: seq<Setting>)
    requires AllTexts(o)
  {
    forall i :: 0 <= i < |o| ==> !Dashed(o[i].value.text)
  }

  predicate NoneLogical(inherited: set<string>, o: seq<Setting>) {
    forall i :: 0 <= i < |o| ==> !Logical(inherited, o[i].key)
  }

  // Every option made of v's, the empty one included, is followed by verbose.
  predicate VerboseLast(o: seq<Setting>) {
    forall i :: 0 <= i < |o| && AllV(o[i].key) ==> exists j :: i < j < |o| && o[j].key == "verbose"
  }

  predicate Undashed(m: map<string, Value>) {
    forall k :: k in m && m[k].Text? ==> !Dashed(m[k].text)
  }

  lemma {:induction false} NoDashComesBack(inherited: set<string>, binVersion: Value, o: seq<Setting>)
    ensures Undashed(AllReceived(inherited, binVersion, o))
  {
    if o != [] {
      var last := o[|o| - 1];
      NoDashComesBack(inherited, binVersion, o[..|o| - 1]);
      NoDashReceived(last.key, Sends(inherited, binVersion, last), AllReceived(inherited, binVersion, o[..|o| - 1]));
    }
  }

  lemma NoDashReceived(key: string, sent: Sent, opts: map<string, Value>)
    requires Undashed(opts)
    ensures Undashed(Received(key, sent, opts))
  {
  }

  lemma SendsText(inherited: set<string>, binVersion: Value, s: Setting)
    requires s.value.Text? && !Logical(inherited, s.key) && !Version1(binVersion)
    ensures Sends(inherited, binVersion, s) == Plain(s.value.text)
  {
  }

  lemma VerboseIsNoV()
    ensures !AllV("verbose")
  {
    assert "verbose"[1] == 'e';
  }

  lemma {:induction false} LogicalLost(inherited: set<string>, binVersion: Value, o: seq<Setting>, k: string)
    requires AllTexts(o) && NoDashes(o) && Logical(inherited, k)
    ensures var m := AllReceived(inherited, binVersion, o); k in m ==> m[k].Number?
  {
    if o != [] {
      LogicalLost(inherited, binVersion, o[..|o| - 1], k);
    }
  }

  // What the option verbose comes back as.
  function Verbose(o: seq<Setting>): Option<Value> {
    if o == [] then None
    else
      var last := o[|o| - 1];
      if last.key == "verbose" then Some(last.value)
      else if AllV(last.key) then Some(Number(|last.key|))
      else Verbose(o[..|o| - 1])
  }

  function At(m: map<string, Value>, k: string): Option<Value> {
    if k in m then Some(m[k]) else None
  }

  lemma {:induction false} ComesBack(inherited: set<string>, binVersion: Value, o: seq<Setting>, k: string)
    requires AllTexts(o) && NoDashes(o) && NoneLogical(inherited, o) && !Version1(binVersion)
    ensures At(AllReceived(inherited, binVersion, o), k) == if k == "verbose" then Verbose(o) else At(AsMap(o), k)
  {
    if o != [] {
      var n := |o| - 1;
      hide Logical, Sends, AllV;
      ComesBack(inherited, binVersion, o[..n], k);
      SendsText(inherited, binVersion, o[n]);
      VerboseIsNoV();
      var opts, text := AllReceived(inherited, binVersion, o[..n]), o[n].value.text;
      assert AllReceived(inherited, binVersion, o) == Assign(opts, o[n].key, text);
      assert At(AsMap(o), k) == if k == o[n].key then Some(Text(text)) else At(AsMap(o[..n]), k);
    }
  }

  lemma {:induction false} VerboseSurvives(o: seq<Setting>)
    requires AllTexts(o)
    ensures Verbose(o) == At(AsMap(o), "verbose") <==> VerboseLast(o)
  {
    if o != [] {
      var n := |o| - 1;
      var front := o[..n];
      hide AllV;
      VerboseIsNoV();
      VerboseSurvives(front);
      VerboseLastSnoc(o);
      assert At(AsMap(o), "verbose") == if o[n].key == "verbose" then Some(o[n].value) else At(AsMap(front), "verbose");
      if o[n].key != "verbose" && AllV(o[n].key) {
        AsMapTexts(front, "verbose");
      }
    }
  }

  lemma VerboseLastSnoc(o: seq<Setting>)
    requires o != []
    ensures VerboseLast(o) <==>
      o[|o| - 1].key == "verbose" || (!AllV(o[|o| - 1].key) && VerboseLast(o[..|o| - 1]))
  {
    var n := |o| - 1;
    var front := o[..n];
    hide AllV;
    VerboseIsNoV();
    if o[n].key == "verbose" {
      assert VerboseLast(o);
    }
    if VerboseLast(o) && o[n].key != "verbose" {
      forall i | 0 <= i < n && AllV(front[i].key)
        ensures exists j :: i < j < n && front[j].key == "verbose"
      {
        var j :| i < j < |o| && o[j].key == "verbose";
        assert front[j] == o[j];
      }
    }
    if VerboseLast(front) && !AllV(o[n].key) {
      forall i | 0 <= i < |o| && AllV(o[i].key)
        ensures exists j :: i < j < |o| && o[j].key == "verbose"
      {
        assert front[i] == o[i];
        var j :| i < j < n && front[j].key == "verbose";
        assert o[j] == front[j];
      }
    }
  }

  lemma {:induction false} AsMapTexts(o: seq<Setting>, k: string)
    requires AllTexts(o)
    ensures At(AsMap(o), k).Some? ==> At(AsMap(o), k).value.Text?
  {
    if o != [] {
      AsMapTexts(o[..|o| - 1], k);
    }
  }

  lemma AsMapAt(o: seq<Setting>, i: nat)
    requires DistinctKeys(o) && i < |o|
    ensures At(AsMap(o), o[i].key) == Some(o[i].value)
  {
    if i < |o| - 1 {
      AsMapAt(o[..|o| - 1], i);
    }
  }

  lemma LookupHas(o: seq<Setting>, k: string)
    ensures Lookup(o, k) != Undefined ==> HasKey(o, k)
  {
    if o != [] && o[|o| - 1].key != k {
      LookupHas(o[..|o| - 1], k);
    }
  }

  // An object of strings comes back whole if and only if no key is a logical option or an inherited
  // name, no value begins with a dash, and every key made of v's is followed by verbose.
  lemma RoundTripIff(inherited: set<string>, o: seq<Setting>)
    requires "hasOwnProperty" in inherited
    requires DistinctKeys(o) && AllTexts(o)
    ensures Decoded(inherited, o) == Some(AsMap(o)) <==> NoneLogical(inherited, o) && NoDashes(o) && VerboseLast(o)
  {
    var version := Lookup(o, "binVersion");
    var m := AllReceived(inherited, version, o);
    Decodes(inherited, version, o);
    if !NoDashes(o) {
      var i :| 0 <= i < |o| && Dashed(o[i].value.text);
      AsMapAt(o, i);
      NoDashComesBack(inherited, version, o);
    } else if !NoneLogical(inherited, o) {
      var i :| 0 <= i < |o| && Logical(inherited, o[i].key);
      AsMapAt(o, i);
      LogicalLost(inherited, version, o, o[i].key);
    } else {
      assert !HasKey(o, "hasOwnProperty");
      LookupHas(o, "binVersion");
      assert version == Undefined;
      VerboseSurvives(o);
      forall k ensures At(m, k) == if k == "verbose" then Verbose(o) else At(AsMap(o), k) {
        ComesBack(inherited, version, o, k);
      }
      SameMaps(m, AsMap(o));
    }
  }

  lemma SameMaps(m: map<string, Value>, n: map<string, Value>)
    ensures m == n <==> forall k :: At(m, k) == At(n, k)
  {
    if forall k :: At(m, k) == At(n, k) {
      assert forall k :: k in m <==> At(m, k).Some?;
      assert forall k :: k in n <==> At(n, k).Some?;
      assert forall k :: k in m ==> At(m, k) == Some(m[k]) && At(n, k) == Some(n[k]);
    }
  }

  // Strings that come back as they are, with no say in the verbosity.
  predicate Quiet(inherited: set<string>, o: seq<Setting>) {
    forall i :: 0 <= i < |o| ==>
      && o[i].value.Text? && !Dashed(o[i].value.text) && !Logical(inherited, o[i].key)
      && !AllV(o[i].key) && o[i].key != "verbose"
  }

  // The map after a verbosity of n.
  function WithVerbosity(m: map<string, Value>, n: nat): map<string, Value> {
    m[Repeat('v', n) := Text("")]["verbose" := Number(n)]
  }

  // A single numeric v or verbose comes back as verbose, cut to 10, beside its own flag.
  lemma NumericComesBack(inherited: set<string>, before: seq<Setting>, s: Setting, after: seq<Setting>)
    requires "hasOwnProperty" in inherited
    requires (s.key == "v" || s.key == "verbose") && s.value.Number? && s.value.n > 0 && !Logical(inherited, s.key)
    requires Quiet(inherited, before) && Quiet(inherited, after)
    ensures Decoded(inherited, before + [s] + after) == Some(WithVerbosity(AsMap(before + after), Min(s.value.n, 10)))
  {
    var o := before + [s] + after;
    hide AllV, Dashed;
    assert forall i :: 0 <= i < |o| ==> !Logical(inherited, o[i].key);
    LookupHas(o, "binVersion");
    assert Lookup(o, "binVersion") == Undefined;
    NumericVerbosity(inherited, Undefined, before, s, after);
    Decodes(inherited, Undefined, o);
  }

  lemma {:induction false} NumericVerbosity(inherited: set<string>, binVersion: Value,
                                            before: seq<Setting>, s: Setting, after: seq<Setting>)
    requires (s.key == "v" || s.key == "verbose") && s.value.Number? && s.value.n > 0 && !Logical(inherited, s.key)
    requires Quiet(inherited, before) && Quiet(inherited, after) && !Version1(binVersion)
    ensures AllReceived(inherited, binVersion, before + [s] + after)
         == WithVerbosity(AsMap(before + after), Min(s.value.n, 10))
  {
    var o, rest := before + [s] + after, before + after;
    if after == [] {
      assert o == before + [s] && rest == before;
      NumericAlone(inherited, binVersion, before, s);
    } else {
      var i := |after| - 1;
      var last, n := after[i], Min(s.value.n, 10);
      assert o[..|o| - 1] == before + [s] + after[..i];
      assert rest[..|rest| - 1] == before + after[..i];
      hide AllReceived, AsMap, Sends, AllV, Logical;
      NumericVerbosity(inherited, binVersion, before, s, after[..i]);
      SendsText(inherited, binVersion, last);
      LastReceived(inherited, binVersion, o);
      LastReceived(inherited, binVersion, rest);
      LateAssign(AsMap(before + after[..i]), n, last);
    }
  }

  lemma LateAssign(m: map<string, Value>, n: nat, s: Setting)
    requires s.value.Text? && !Dashed(s.value.text) && !AllV(s.key) && s.key != "verbose"
    ensures Received(s.key, Plain(s.value.text), WithVerbosity(m, n)) == WithVerbosity(m[s.key := s.value], n)
  {
    assert AllV(Repeat('v', n));
  }

  lemma LastReceived(inherited: set<string>, binVersion: Value, o: seq<Setting>)
    requires o != []
    ensures var last := o[|o| - 1];
      && AsMap(o) == AsMap(o[..|o| - 1])[last.key := last.value]
      && AllReceived(inherited, binVersion, o)
         == Received(last.key, Sends(inherited, binVersion, last), AllReceived(inherited, binVersion, o[..|o| - 1]))
  {
  }

  lemma NumericAlone(inherited: set<string>, binVersion: Value, before: seq<Setting>, s: Setting)
    requires (s.key == "v" || s.key == "verbose") && s.value.Number? && s.value.n > 0 && !Logical(inherited, s.key)
    requires Quiet(inherited, before) && !Version1(binVersion)
    ensures AllReceived(inherited, binVersion, before + [s]) == WithVerbosity(AsMap(before), Min(s.value.n, 10))
  {
    hide AllV;
    forall k ensures At(AllReceived(inherited, binVersion, before), k) == At(AsMap(before), k) {
      ComesBack(inherited, binVersion, before, k);
      NoVerbose(before);
    }
    SameMaps(AllReceived(inherited, binVersion, before), AsMap(before));
    LastReceived(inherited, binVersion, before + [s]);
    assert (before + [s])[..|before + [s]| - 1] == before;
  }

  lemma {:induction false} NoVerbose(o: seq<Setting>)
    requires forall i :: 0 <= i < |o| ==> !AllV(o[i].key) && o[i].key != "verbose"
    ensures Verbose(o) == None && At(AsMap(o), "verbose") == None
  {
    if o != [] {
      hide AllV;
      NoVerbose(o[..|o| - 1]);
    }
  }

  // ---- Arrays of arguments ----

  ghost predicate NoNumerals(inherited: set<string>) {
    forall i: nat :: NatText(i) !in inherited
  }

  lemma NumeralsAreOptions(inherited: set<string>, i: nat)
    requires NoNumerals(inherited)
    ensures !Logical(inherited, NatText(i)) && NatText(i) != "v" && NatText(i) != "verbose"
    ensures NatText(i) != "nopreallocj" && NatText(i) != "binVersion" && NatText(i) != "hasOwnProperty"
  {
    var k := NatText(i);
    assert IsDigit(k[0]);
    forall option | option in LOGICAL_OPTIONS ensures option != "" && !IsDigit(option[0]) {
    }
  }

  function Nonempty(items: seq<string>): nat {
    if items == [] then 0 else Nonempty(items[..|items| - 1]) + if items[|items| - 1] == "" then 0 else 1
  }

  // An array of strings gives an option for every index, and its own elements only as their values.
  lemma {:induction false} IndexArguments(inherited: set<string>, items: seq<string>)
    requires NoNumerals(inherited)
    ensures var args := AllArguments(inherited, Undefined, ByIndex(items));
      |args| == |items| + Nonempty(items) && (items != [] ==> args[0] == "--" + NatText(0))
  {
    if items != [] {
      var n := |items| - 1;
      var o, front := ByIndex(items), items[..n];
      assert o[..n] == ByIndex(front);
      IndexArguments(inherited, front);
      NumeralsAreOptions(inherited, n);
      hide NatText, Logical, Lookup;
      assert Sends(inherited, Undefined, o[n]) == Plain(items[n]);
    }
  }

  lemma {:induction false} NoneNonempty(items: seq<string>)
    requires Nonempty(items) == 0
    ensures forall i :: 0 <= i < |items| ==> items[i] == ""
  {
    if items != [] {
      NoneNonempty(items[..|items| - 1]);
      assert forall i :: 0 <= i < |items| - 1 ==> items[i] == items[..|items| - 1][i];
    }
  }

  // Only the empty array of arguments is passed on as it is.
  lemma ArrayPassedIff(inherited: set<string>, name: string, items: seq<string>)
    requires NoNumerals(inherited)
    ensures ObjectArguments(inherited, name, ByIndex(items)) == Some([name] + items) <==> items == []
  {
    var o := ByIndex(items);
    if items == [] {
      assert !HasKey(o, "hasOwnProperty");
    } else {
      LookupHas(o, "binVersion");
      NumeralsAreOptions(inherited, 0);
      forall i | 0 <= i < |items| ensures o[i].key != "binVersion" {
        NumeralsAreOptions(inherited, i);
      }
      hide NatText, Logical, BinaryName;
      var args := AllArguments(inherited, Undefined, o);
      IndexArguments(inherited, items);
      if Nonempty(items) == 0 {
        NoneNonempty(items);
        assert args[0] != items[0];
      } else {
        assert |args| > |items|;
      }
      assert ([name] + items)[1..] == items;
    }
  }
}
