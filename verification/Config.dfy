/**
 The configuration file (server/ServerApp.cpp, parse and serialize): printing a
 configuration and parsing the text gives it back.
 */
module Config {
  import opened Util
  import opened Text
  import opened RightsMask

  datatype User = User(name: string, hash: string, rights: Rights)

  datatype Config = Config(bindAddr: string, port: u16, monitor: u32, allowSubnets: string,
                           tlsCert: string, tlsKey: string, clientCa: string, auditCsv: string,
                           fileRoot: string, maxSessions: u32, users: seq<User>)

  const DEFAULTS: Config :=
    Config("0.0.0.0", 4899, 0, "", "server.crt", "server.key", "", "radminpro_audit.csv", "fileshare", 8, [])

  // -------------------------------------------------------------- the user map

  // Order of std::string keys.
  predicate Less(a: string, b: string) {
    b != "" && (a == "" || a[0] < b[0] || (a[0] == b[0] && Less(a[1..], b[1..])))
  }

  lemma {:induction false} LessIsStrict(a: string, b: string)
    requires Less(a, b)
    ensures a != b && !Less(b, a)
  {
    if a != "" && a[0] == b[0] {
      LessIsStrict(a[1..], b[1..]);
    }
  }

  ghost predicate Ordered(us: seq<User>) {
    forall i, j | 0 <= i < j < |us| :: Less(us[i].name, us[j].name)
  }

  datatype UserField = Hash(text: string) | RightsList(names: seq<string>) | Other

  function SetField(u: User, f: UserField): User {
    match f
    case Hash(text) => u.(hash := text)
    case RightsList(names) => u.(rights := RightsFromStrings(names))
    case Other => u
  }

  // users[name] with a field set: the entry is made, in key order, when it is not there.
  function Update(us: seq<User>, name: string, f: UserField): seq<User> {
    if us == [] then [SetField(User(name, "", {}), f)]
    else if us[0].name == name then [SetField(us[0], f)] + us[1..]
    else if Less(name, us[0].name) then [SetField(User(name, "", {}), f)] + us
    else [us[0]] + Update(us[1..], name, f)
  }

  lemma {:induction false} UpdateAtEnd(us: seq<User>, name: string, f: UserField)
    requires forall i | 0 <= i < |us| :: Less(us[i].name, name)
    ensures Update(us, name, f) == us + [SetField(User(name, "", {}), f)]
  {
    if us != [] {
      LessIsStrict(us[0].name, name);
      UpdateAtEnd(us[1..], name, f);
      assert us == [us[0]] + us[1..];
    }
  }

  lemma {:induction false} UpdateLast(us: seq<User>, u: User, f: UserField)
    requires forall i | 0 <= i < |us| :: Less(us[i].name, u.name)
    ensures Update(us + [u], u.name, f) == us + [SetField(u, f)]
  {
    var all := us + [u];
    if us == [] {
      assert all[1..] == [];
    } else {
      LessIsStrict(us[0].name, u.name);
      assert all[1..] == us[1..] + [u];
      UpdateLast(us[1..], u, f);
      assert us == [us[0]] + us[1..];
    }
  }

  // ------------------------------------------------------------------ parsing

  // std::atoi with an optional sign; the casts then keep the low bits.
  function AtoiSigned(s: string): int {
    if s != "" && s[0] == '-' then -(Atoi(s[1..]) as int)
    else if s != "" && s[0] == '+' then Atoi(s[1..])
    else Atoi(s)
  }

  function ToU16(s: string): u16 { AtoiSigned(s) % 0x1_0000 }

  function ToU32(s: string): u32 { AtoiSigned(s) % 0x1_0000_0000 }

  function FieldOf(field: string, val: string): UserField {
    if field == "hash" then Hash(val)
    else if field == "rights" then RightsList(Split(val, IsListSeparator))
    else Other
  }

  const USER_PREFIX: string := "user."

  // The keys of the file.
  datatype Key =
    | Bind | Port | Monitor | Subnets | Cert | CertKey | ClientCa | AuditCsv | FileRoot | MaxSessions | UserKey
    | Unknown

  function KeyOf(key: string): Key {
    if key == "port" then Port
    else if key == "bind" then Bind
    else if key == "monitor" then Monitor
    else if key == "allow_subnets" then Subnets
    else if key == "tls_cert" then Cert
    else if key == "tls_key" then CertKey
    else if key == "client_ca" then ClientCa
    else if key == "audit_csv" then AuditCsv
    else if key == "file_root" then FileRoot
    else if key == "max_sessions" then MaxSessions
    else if StartsWith(key, USER_PREFIX) then UserKey
    else Unknown
  }

  // One key and value taken in.
  function Assign(c: Config, key: string, val: string): Config {
    SetKey(c, KeyOf(key), if KeyOf(key) == UserKey then key[5..] else "", val)
  }

  // rest is what a user key goes on with.
  function SetKey(c: Config, k: Key, rest: string, val: string): Config {
    match k
    case Port => c.(port := ToU16(val))
    case Bind => c.(bindAddr := val)
    case Monitor => c.(monitor := ToU32(val))
    case Subnets => c.(allowSubnets := val)
    case Cert => c.(tlsCert := val)
    case CertKey => c.(tlsKey := val)
    case ClientCa => c.(clientCa := val)
    case AuditCsv => c.(auditCsv := val)
    case FileRoot => c.(fileRoot := val)
    case MaxSessions => c.(maxSessions := ToU32(val))
    case UserKey => AssignUser(c, rest, val)
    case Unknown => c
  }

  // rest is what follows "user.": a name, a last dot, a field.
  function AssignUser(c: Config, rest: string, val: string): Config {
    LastIndexOfBound(rest, '.');
    match LastIndexOf(rest, '.')
    case None => c
    case Some(dot) => c.(users := Update(c.users, rest[..dot], FieldOf(rest[dot + 1..], val)))
  }

  // One line of the file: blank lines, comments and lines without '=' say nothing.
  function ApplyLine(c: Config, raw: string): Config {
    var line := Trim(raw);
    if line == "" || line[0] == '#' || line[0] == ';' then c else
      IndexOfBound(line, '=');
      match IndexOf(line, '=')
      case None => c
      case Some(eq) => Assign(c, Trim(line[..eq]), Trim(line[eq + 1..]))
  }

  // Reading character by character: the lines taken in, and the one in progress.
  function Feed(c: Config, text: string): (Config, string) {
    if text == "" then (c, "") else
      var ((c', line), x) := (Feed(c, text[..|text| - 1]), text[|text| - 1]);
      if x == '\n' then (ApplyLine(c', line), "") else (c', line + [x])
  }

  function Parse(text: string): Config {
    var (c, line) := Feed(DEFAULTS, text);
    if line == "" then c else ApplyLine(c, line)
  }

  // ----------------------------------------------------------------- printing

  datatype Pair = Pair(key: string, val: string)

  function LineOf(p: Pair): string { p.key + "=" + p.val }

  function UserPairs(us: seq<User>): seq<Pair> {
    if us == [] then [] else
      var (front, u) := (UserPairs(us[..|us| - 1]), us[|us| - 1]);
      if u.name == "" || u.hash == "" then front
      else front + [Pair("user." + u.name + ".hash", u.hash)]
                 + [Pair("user." + u.name + ".rights", RightsToString(u.rights))]
  }

  // A key as it is printed.
  function KeyText(k: Key): string {
    match k
    case Bind => "bind"
    case Port => "port"
    case Monitor => "monitor"
    case Subnets => "allow_subnets"
    case Cert => "tls_cert"
    case CertKey => "tls_key"
    case ClientCa => "client_ca"
    case AuditCsv => "audit_csv"
    case FileRoot => "file_root"
    case MaxSessions => "max_sessions"
    case UserKey => USER_PREFIX
    case Unknown => ""
  }

  datatype Value = Value(key: Key, val: string)

  // The keys and values in the order they are printed.
  function HeadValues(c: Config): seq<Value> {
    NetworkValues(c, Decimal(c.port), Decimal(c.monitor)) + (TlsValues(c) + FileValues(c, Decimal(c.maxSessions)))
  }

  function NetworkValues(c: Config, port: string, monitor: string): seq<Value> {
    [Value(Bind, c.bindAddr)] + [Value(Port, port)] + [Value(Monitor, monitor)] + [Value(Subnets, c.allowSubnets)]
  }

  function TlsValues(c: Config): seq<Value> {
    [Value(Cert, c.tlsCert)] + [Value(CertKey, c.tlsKey)]
    + if c.clientCa == "" then [] else [Value(ClientCa, c.clientCa)]
  }

  function FileValues(c: Config, maxSessions: string): seq<Value> {
    [Value(AuditCsv, c.auditCsv)] + [Value(FileRoot, c.fileRoot)] + [Value(MaxSessions, maxSessions)]
  }

  function PairsOf(vs: seq<Value>): seq<Pair> {
    if vs == [] then [] else PairsOf(vs[..|vs| - 1]) + [Pair(KeyText(vs[|vs| - 1].key), vs[|vs| - 1].val)]
  }

  function HeadPairs(c: Config): seq<Pair> { PairsOf(HeadValues(c)) }

  function TextOf(ps: seq<Pair>): string {
    if ps == [] then "" else TextOf(ps[..|ps| - 1]) + (LineOf(ps[|ps| - 1]) + "\n")
  }

  function Serialize(c: Config): string { TextOf(HeadPairs(c)) + TextOf(UserPairs(c.users)) }

  // --------------------------------------------------------------- round trip

  predicate OneLine(s: string) { forall i | 0 <= i < |s| :: s[i] != '\n' }

  // A value that survives as the right-hand side of a line.
  predicate CleanValue(v: string) { Trimmed(v) && OneLine(v) }

  // A user that is not written at all, or whose name and hash survive being written.
  predicate CleanUser(u: User) {
    u.name != "" && u.hash != "" ==> '=' !in u.name && OneLine(u.name) && CleanValue(u.hash)
  }

  ghost predicate CleanConfig(c: Config) {
    && CleanValue(c.bindAddr) && CleanValue(c.allowSubnets) && CleanValue(c.tlsCert) && CleanValue(c.tlsKey)
    && CleanValue(c.clientCa) && CleanValue(c.auditCsv) && CleanValue(c.fileRoot)
    && (forall i | 0 <= i < |c.users| :: CleanUser(c.users[i]))
    && Ordered(c.users)
  }

  // Numbers that atoi reads as they are written.
  predicate InRange(c: Config) { c.monitor < 0x8000_0000 && c.maxSessions < 0x8000_0000 }

  // What a file can hold of the users: those with a name and a hash, and their named rights.
  function Kept(us: seq<User>): seq<User> {
    if us == [] then [] else
      var (front, u) := (Kept(us[..|us| - 1]), us[|us| - 1]);
      if u.name == "" || u.hash == "" then front else front + [u.(rights := u.rights * KNOWN_RIGHTS)]
  }

  // A key that is read as it is written.
  predicate CleanKey(key: string) {
    key != "" && key[0] != '#' && key[0] != ';' && '=' !in key && Trimmed(key) && OneLine(key)
  }

  predicate CleanPair(p: Pair) { CleanKey(p.key) && CleanValue(p.val) }

  ghost predicate CleanPairs(ps: seq<Pair>) { forall i | 0 <= i < |ps| :: CleanPair(ps[i]) }

  function AssignAll(c: Config, ps: seq<Pair>): Config {
    if ps == [] then c else Assign(AssignAll(c, ps[..|ps| - 1]), ps[|ps| - 1].key, ps[|ps| - 1].val)
  }

  lemma AssignOneMore(c: Config, ps: seq<Pair>, p: Pair)
    requires CleanPairs(ps) && CleanPair(p)
    ensures CleanPairs(ps + [p]) && AssignAll(c, ps + [p]) == Assign(AssignAll(c, ps), p.key, p.val)
  {
    assert (ps + [p])[..|ps|] == ps;
  }

  lemma {:induction false} FeedJoin(c: Config, a: string, line: string)
    requires Feed(c, a).1 == "" && OneLine(line)
    ensures Feed(c, a + line).0 == Feed(c, a).0 && Feed(c, a + line).1 == line
  {
    if line == "" {
      assert a + line == a;
    } else {
      var front, all := line[..|line| - 1], a + line;
      assert all[..|all| - 1] == a + front && all[|all| - 1] == line[|line| - 1];
      FeedJoin(c, a, front);
      assert front + [line[|line| - 1]] == line;
    }
  }

  lemma LineAssigns(c: Config, p: Pair)
    requires CleanPair(p)
    ensures ApplyLine(c, LineOf(p)) == Assign(c, p.key, p.val)
  {
    var line := LineOf(p);
    assert line[0] == p.key[0];
    assert Trimmed(line) by {
      if p.val == "" { assert line[|line| - 1] == '='; } else { assert line[|line| - 1] == p.val[|p.val| - 1]; }
    }
    TrimLeaves(line);
    assert IndexOf(line, '=') == Some(|p.key|) by { IndexOfAfter(p.key, '=', p.val); }
    assert line[..|p.key|] == p.key && line[|p.key| + 1..] == p.val;
    TrimLeaves(p.key);
    TrimLeaves(p.val);
  }

  // A line is taken in when its line break comes.
  lemma FeedLine(c: Config, text: string, p: Pair)
    requires Feed(c, text).1 == "" && CleanPair(p)
    ensures Feed(c, text + (LineOf(p) + "\n")) == (Assign(Feed(c, text).0, p.key, p.val), "")
  {
    LineIsOneLine(p);
    FeedJoin(c, text, LineOf(p));
    LineAssigns(Feed(c, text).0, p);
    FeedBreak(c, text + LineOf(p));
    Assoc(text, LineOf(p), "\n");
  }

  lemma FeedBreak(c: Config, text: string)
    ensures Feed(c, text + "\n") == (ApplyLine(Feed(c, text).0, Feed(c, text).1), "")
  {
    assert (text + "\n")[..|text|] == text;
  }

  lemma LineIsOneLine(p: Pair)
    requires CleanPair(p)
    ensures OneLine(LineOf(p)) && LineOf(p) != ""
  {
  }

  lemma {:induction false} FeedText(c: Config, text: string, ps: seq<Pair>)
    requires Feed(c, text).1 == "" && CleanPairs(ps)
    ensures Feed(c, text + TextOf(ps)) == (AssignAll(Feed(c, text).0, ps), "")
    decreases |ps|
  {
    if ps == [] {
      assert text + "" == text;
    } else {
      var front, p := ps[..|ps| - 1], ps[|ps| - 1];
      FeedText(c, text, front);
      FeedLine(c, text + TextOf(front), p);
      Assoc(text, TextOf(front), LineOf(p) + "\n");
    }
  }

  lemma DecimalIsClean(n: nat)
    ensures CleanValue(Decimal(n)) && AtoiSigned(Decimal(n)) == n
  {
    DecimalIsDigits(n);
    AtoiOfDecimal(n);
    var d := Decimal(n);
    assert IsDigit(d[0]) && IsDigit(d[|d| - 1]);
    forall i | 0 <= i < |d| ensures d[i] != '\n' { assert IsDigit(d[i]); }
  }

  // No two keys are the same, and none is a user key.
  lemma KeyIsRead(k: Key)
    requires k != UserKey && k != Unknown
    ensures KeyOf(KeyText(k)) == k
  {
    match k
    case Bind | Port | Monitor => assert "bind"[0] != "port"[0];
    case Subnets | AuditCsv => assert "audit_csv"[1] == 'u';
    case Cert | CertKey => assert "tls_key"[4] == 'k';
    case ClientCa | FileRoot | MaxSessions => assert "max_sessions"[1] == 'a';
  }

  lemma KeyIsClean(k: Key)
    requires k != UserKey && k != Unknown
    ensures CleanKey(KeyText(k))
  {
  }

  predicate Printable(v: Value) { v.key != UserKey && v.key != Unknown && CleanValue(v.val) }

  ghost predicate AllPrintable(vs: seq<Value>) { forall i | 0 <= i < |vs| :: Printable(vs[i]) }

  function SetAll(c: Config, vs: seq<Value>): Config {
    if vs == [] then c else SetKey(SetAll(c, vs[..|vs| - 1]), vs[|vs| - 1].key, "", vs[|vs| - 1].val)
  }

  lemma SetOneMore(c: Config, vs: seq<Value>, v: Value)
    ensures SetAll(c, vs + [v]) == SetKey(SetAll(c, vs), v.key, "", v.val)
  {
    assert (vs + [v])[..|vs|] == vs;
  }

  lemma {:induction false} ValuesAssign(c: Config, vs: seq<Value>)
    requires AllPrintable(vs)
    ensures CleanPairs(PairsOf(vs)) && AssignAll(c, PairsOf(vs)) == SetAll(c, vs)
  {
    if vs != [] {
      var front, v := vs[..|vs| - 1], vs[|vs| - 1];
      ValuesAssign(c, front);
      assert Printable(v);
      KeyIsRead(v.key);
      KeyIsClean(v.key);
      AssignOneMore(c, PairsOf(front), Pair(KeyText(v.key), v.val));
    }
  }

  lemma {:induction false} SetAllJoin(c: Config, a: seq<Value>, b: seq<Value>)
    ensures SetAll(c, a + b) == SetAll(SetAll(c, a), b)
    decreases |b|
  {
    if b == [] {
      assert a + b == a;
    } else {
      assert (a + b)[..|a + b| - 1] == a + b[..|b| - 1];
      SetAllJoin(c, a, b[..|b| - 1]);
    }
  }

  lemma SetOne(c: Config, v: Value)
    ensures SetAll(c, [v]) == SetKey(c, v.key, "", v.val)
  {
    assert [v][..0] == [];
  }

  // Every field but the users is printed, each with its own key.
  lemma NetworkSet(c0: Config, c: Config, port: string, monitor: string)
    requires ToU16(port) == c.port && ToU32(monitor) == c.monitor
    ensures SetAll(c0, NetworkValues(c, port, monitor))
         == c0.(bindAddr := c.bindAddr, port := c.port, monitor := c.monitor, allowSubnets := c.allowSubnets)
  {
    var v1 := [Value(Bind, c.bindAddr)];
    var v2 := v1 + [Value(Port, port)];
    var v3 := v2 + [Value(Monitor, monitor)];
    SetOne(c0, v1[0]);
    SetOneMore(c0, v1, Value(Port, port));
    SetOneMore(c0, v2, Value(Monitor, monitor));
    SetOneMore(c0, v3, Value(Subnets, c.allowSubnets));
  }

  lemma TlsSet(c0: Config, c: Config)
    requires c0.clientCa == ""
    ensures SetAll(c0, TlsValues(c)) == c0.(tlsCert := c.tlsCert, tlsKey := c.tlsKey, clientCa := c.clientCa)
  {
    var v1 := [Value(Cert, c.tlsCert)];
    var v2 := v1 + [Value(CertKey, c.tlsKey)];
    SetOne(c0, v1[0]);
    SetOneMore(c0, v1, Value(CertKey, c.tlsKey));
    if c.clientCa == "" { assert v2 + [] == v2; } else { SetOneMore(c0, v2, Value(ClientCa, c.clientCa)); }
  }

  lemma FileSet(c0: Config, c: Config, maxSessions: string)
    requires ToU32(maxSessions) == c.maxSessions
    ensures SetAll(c0, FileValues(c, maxSessions))
         == c0.(auditCsv := c.auditCsv, fileRoot := c.fileRoot, maxSessions := c.maxSessions)
  {
    var v1 := [Value(AuditCsv, c.auditCsv)];
    var v2 := v1 + [Value(FileRoot, c.fileRoot)];
    SetOne(c0, v1[0]);
    SetOneMore(c0, v1, Value(FileRoot, c.fileRoot));
    SetOneMore(c0, v2, Value(MaxSessions, maxSessions));
  }

  lemma ValuesSet(c0: Config, c: Config, port: string, monitor: string, maxSessions: string)
    requires c0.clientCa == ""
    requires ToU16(port) == c.port && ToU32(monitor) == c.monitor && ToU32(maxSessions) == c.maxSessions
    ensures SetAll(c0, NetworkValues(c, port, monitor) + (TlsValues(c) + FileValues(c, maxSessions)))
         == c.(users := c0.users)
  {
    var a, b, d := NetworkValues(c, port, monitor), TlsValues(c), FileValues(c, maxSessions);
    SetAllJoin(c0, a, b + d);
    NetworkSet(c0, c, port, monitor);
    SetAllJoin(SetAll(c0, a), b, d);
    TlsSet(SetAll(c0, a), c);
    FileSet(SetAll(SetAll(c0, a), b), c, maxSessions);
  }

  lemma ValuesArePrintable(c: Config, port: string, monitor: string, maxSessions: string)
    requires CleanConfig(c) && CleanValue(port) && CleanValue(monitor) && CleanValue(maxSessions)
    ensures AllPrintable(NetworkValues(c, port, monitor) + (TlsValues(c) + FileValues(c, maxSessions)))
  {
  }

  // Texts a number is read back from.
  predicate Reads(text: string, n: nat) { CleanValue(text) && AtoiSigned(text) == n }

  lemma HeadIsPrintable(c: Config)
    requires CleanConfig(c)
    ensures AllPrintable(HeadValues(c))
  {
    DecimalReads(c.port);
    DecimalReads(c.monitor);
    DecimalReads(c.maxSessions);
    ValuesArePrintable(c, Decimal(c.port), Decimal(c.monitor), Decimal(c.maxSessions));
  }

  lemma HeadIsSet(c0: Config, c: Config)
    requires c0.clientCa == ""
    ensures SetAll(c0, HeadValues(c)) == c.(users := c0.users)
  {
    DecimalReads(c.port);
    DecimalReads(c.monitor);
    DecimalReads(c.maxSessions);
    ValuesSet(c0, c, Decimal(c.port), Decimal(c.monitor), Decimal(c.maxSessions));
  }

  lemma DecimalReads(n: nat)
    ensures Reads(Decimal(n), n)
  {
    DecimalIsClean(n);
  }

  lemma HeadAssigns(c0: Config, c: Config)
    requires CleanConfig(c) && c0.clientCa == ""
    ensures CleanPairs(HeadPairs(c)) && AssignAll(c0, HeadPairs(c)) == c.(users := c0.users)
  {
    var vs := HeadValues(c);
    assert AllPrintable(vs) by { HeadIsPrintable(c); }
    assert SetAll(c0, vs) == c.(users := c0.users) by { HeadIsSet(c0, c); }
    ValuesAssign(c0, vs);
  }

  // ---------------------------------------------------------- the user lines

  lemma UserKeyIsClean(name: string, field: string)
    requires name != "" && '=' !in name && OneLine(name)
    requires field == ".hash" || field == ".rights"
    ensures CleanKey("user." + name + field)
  {
    var key := "user." + name + field;
    assert key[0] == 'u' && key[|key| - 1] == field[|field| - 1];
    assert '=' !in "user." && '=' !in field;
    assert OneLine("user.") && OneLine(field);
  }

  // A key that starts with "user." is none of the others.
  lemma UserKeyAssigns(c: Config, rest: string, val: string)
    ensures Assign(c, USER_PREFIX + rest, val) == AssignUser(c, rest, val)
  {
    var key := USER_PREFIX + rest;
    assert key[0] == 'u' && key[5..] == rest && key[..5] == USER_PREFIX;
  }

  // A user key whose last dot is followed by the field.
  lemma FieldAssigns(c: Config, name: string, field: string, val: string)
    requires field == "hash" || field == "rights"
    ensures AssignUser(c, name + "." + field, val) == c.(users := Update(c.users, name, FieldOf(field, val)))
  {
    var rest := name + "." + field;
    assert rest == name + ['.'] + field && '.' !in field;
    LastIndexOfBefore(name, '.', field);
    assert rest[..|name|] == name && rest[|name| + 1..] == field;
  }

  lemma AssignField(c: Config, name: string, field: string, val: string)
    requires field == "hash" || field == "rights"
    ensures Assign(c, "user." + name + "." + field, val) == c.(users := Update(c.users, name, FieldOf(field, val)))
  {
    assert "user." + name + "." + field == USER_PREFIX + (name + "." + field);
    UserKeyAssigns(c, name + "." + field, val);
    FieldAssigns(c, name, field, val);
  }

  lemma AssignHash(c: Config, name: string, val: string)
    ensures Assign(c, "user." + name + ".hash", val) == c.(users := Update(c.users, name, Hash(val)))
  {
    assert "user." + name + ".hash" == "user." + name + "." + "hash";
    AssignField(c, name, "hash", val);
  }

  lemma AssignRights(c: Config, name: string, val: string)
    ensures Assign(c, "user." + name + ".rights", val)
         == c.(users := Update(c.users, name, RightsList(Split(val, IsListSeparator))))
  {
    assert "user." + name + ".rights" == "user." + name + "." + "rights";
    AssignField(c, name, "rights", val);
  }

  lemma JoinedIsClean(a: string, b: string)
    requires a != "" && b != "" && CleanValue(a) && CleanValue(b)
    ensures CleanValue(a + "|" + b)
  {
    var s := a + "|" + b;
    assert s[0] == a[0] && s[|s| - 1] == b[|b| - 1];
    forall i | 0 <= i < |s| ensures s[i] != '\n' {
      if i < |a| { assert s[i] == a[i]; } else if i > |a| { assert s[i] == b[i - |a| - 1]; }
    }
  }

  lemma {:induction false} RightNamesAreClean(r: Rights, n: nat)
    requires n <= 10
    ensures var s := JoinWith(RightNames(r, n), '|');
      CleanValue(s) && (RightNames(r, n) != [] ==> s != "")
  {
    if n > 0 {
      RightNamesAreClean(r, n - 1);
      var names := RightNames(r, n - 1);
      if n - 1 in r {
        RightNameIsClean(n - 1);
        assert (names + [RightName(n - 1)])[..|names|] == names;
        if names != [] { JoinedIsClean(JoinWith(names, '|'), RightName(n - 1)); }
      } else {
        assert names + [] == names;
      }
    }
  }

  lemma RightNameIsClean(i: nat)
    requires i < 10
    ensures RightName(i) != "" && CleanValue(RightName(i))
  {
  }

  lemma RightsTextIsClean(r: Rights)
    ensures CleanValue(RightsToString(r))
  {
    RightNamesAreClean(r, 10);
  }

  lemma {:induction false} KeptNames(us: seq<User>, bound: string)
    requires forall i | 0 <= i < |us| :: Less(us[i].name, bound)
    ensures forall i | 0 <= i < |Kept(us)| :: Less(Kept(us)[i].name, bound)
  {
    if us != [] { KeptNames(us[..|us| - 1], bound); }
  }

  lemma OneUser(c: Config, u: User)
    requires u.name != "" && u.hash != "" && CleanUser(u)
    requires forall i | 0 <= i < |c.users| :: Less(c.users[i].name, u.name)
    ensures var ps := [Pair("user." + u.name + ".hash", u.hash)]
                      + [Pair("user." + u.name + ".rights", RightsToString(u.rights))];
      CleanPair(ps[0]) && CleanPair(ps[1])
      && Assign(Assign(c, ps[0].key, ps[0].val), ps[1].key, ps[1].val)
         == c.(users := c.users + [u.(rights := u.rights * KNOWN_RIGHTS)])
  {
    UserKeyIsClean(u.name, ".hash");
    UserKeyIsClean(u.name, ".rights");
    RightsTextIsClean(u.rights);
    AssignHash(c, u.name, u.hash);
    UpdateAtEnd(c.users, u.name, Hash(u.hash));
    var made := User(u.name, u.hash, {});
    var names := Split(RightsToString(u.rights), IsListSeparator);
    AssignRights(c.(users := c.users + [made]), u.name, RightsToString(u.rights));
    UpdateLast(c.users, made, RightsList(names));
    RightsRoundTrip(u.rights);
  }

  lemma {:induction false} UsersAssign(c: Config, us: seq<User>)
    requires c.users == [] && Ordered(us) && forall i | 0 <= i < |us| :: CleanUser(us[i])
    ensures CleanPairs(UserPairs(us)) && AssignAll(c, UserPairs(us)) == c.(users := Kept(us))
    decreases |us|
  {
    if us != [] {
      var front, u := us[..|us| - 1], us[|us| - 1];
      UsersAssign(c, front);
      if u.name != "" && u.hash != "" {
        forall i | 0 <= i < |front| ensures Less(front[i].name, u.name) { assert Less(us[i].name, us[|us| - 1].name); }
        KeptNames(front, u.name);
        OneUser(c.(users := Kept(front)), u);
        var p := Pair("user." + u.name + ".hash", u.hash);
        var q := Pair("user." + u.name + ".rights", RightsToString(u.rights));
        AssignOneMore(c, UserPairs(front), p);
        AssignOneMore(c, UserPairs(front) + [p], q);
      }
    }
  }

  /** Parsing what was printed gives the configuration back, with exactly what a
      file cannot hold left out: users without a name or hash, and unnamed rights. */
  lemma ParseOfSerialize(c: Config)
    requires CleanConfig(c) && InRange(c)
    ensures Parse(Serialize(c)) == c.(users := Kept(c.users))
  {
    HeadAssigns(DEFAULTS, c);
    UsersAssign(c.(users := []), c.users);
    assert "" + TextOf(HeadPairs(c)) == TextOf(HeadPairs(c));
    FeedText(DEFAULTS, "", HeadPairs(c));
    FeedText(DEFAULTS, TextOf(HeadPairs(c)), UserPairs(c.users));
  }

  predicate Writable(u: User) { u.name != "" && u.hash != "" && u.rights <= KNOWN_RIGHTS }

  lemma MeetIsSame(r: Rights)
    ensures r * KNOWN_RIGHTS == r <==> r <= KNOWN_RIGHTS
  {
  }

  lemma WritableOneMore(front: seq<User>, u: User)
    ensures (forall i | 0 <= i < |front + [u]| :: Writable((front + [u])[i]))
       <==> (forall i | 0 <= i < |front| :: Writable(front[i])) && Writable(u)
  {
    var us := front + [u];
    assert us[|front|] == u && forall i | 0 <= i < |front| :: us[i] == front[i];
  }

  lemma LastAgrees(a: seq<User>, x: User, b: seq<User>, y: User)
    ensures a + [x] == b + [y] <==> a == b && x == y
  {
    if a + [x] == b + [y] {
      assert a == (a + [x])[..|a|] && b == (b + [y])[..|b|];
      assert x == (a + [x])[|a|] && y == (b + [y])[|b|];
    }
  }

  lemma {:induction false} KeptIsAll(us: seq<User>)
    ensures |Kept(us)| <= |us|
    ensures Kept(us) == us <==> forall i | 0 <= i < |us| :: Writable(us[i])
  {
    if us != [] {
      var front, u := us[..|us| - 1], us[|us| - 1];
      KeptIsAll(front);
      MeetIsSame(u.rights);
      assert us == front + [u];
      WritableOneMore(front, u);
      LastAgrees(Kept(front), u.(rights := u.rights * KNOWN_RIGHTS), front, u);
    }
  }

  // ------------------------------------------------------- what is ever parsed

  // A configuration as parsing makes them.
  ghost predicate Parsed(c: Config) {
    && CleanValue(c.bindAddr) && CleanValue(c.allowSubnets) && CleanValue(c.tlsCert) && CleanValue(c.tlsKey)
    && CleanValue(c.clientCa) && CleanValue(c.auditCsv) && CleanValue(c.fileRoot)
    && ParsedUsers(c.users)
  }

  predicate ParsedUser(u: User) { '=' !in u.name && OneLine(u.name) && CleanValue(u.hash) }

  ghost predicate ParsedUsers(us: seq<User>) {
    (forall i | 0 <= i < |us| :: ParsedUser(us[i])) && Ordered(us)
  }

  predicate FieldIsClean(f: UserField) { f.Hash? ==> CleanValue(f.text) }

  lemma {:induction false} LessSplits(a: string, b: string)
    requires a != b
    ensures Less(a, b) || Less(b, a)
    decreases |a|
  {
    if a != "" && b != "" && a[0] == b[0] {
      assert a == [a[0]] + a[1..] && b == [b[0]] + b[1..];
      LessSplits(a[1..], b[1..]);
    }
  }

  lemma {:induction false} LessChains(a: string, b: string, c: string)
    requires Less(a, b) && Less(b, c)
    ensures Less(a, c)
    decreases |a|
  {
    if a != "" && a[0] == b[0] && b[0] == c[0] { LessChains(a[1..], b[1..], c[1..]); }
  }

  // Names after the one updated stay after it: what Update answers with lies within the bounds.
  lemma {:induction false} UpdateKeepsParsed(us: seq<User>, name: string, f: UserField)
    requires ParsedUsers(us) && '=' !in name && OneLine(name) && FieldIsClean(f)
    ensures ParsedUsers(Update(us, name, f))
    ensures forall u | u in Update(us, name, f) :: u.name == name || exists v :: v in us && v.name == u.name
    decreases |us|
  {
    if us == [] {
    } else if us[0].name == name {
      SetFirst(us, f);
    } else if Less(name, us[0].name) {
      PutFirst(us, SetField(User(name, "", {}), f));
    } else {
      LessSplits(us[0].name, name);
      assert ParsedUsers(us[1..]) by { RestIsParsed(us); }
      UpdateKeepsParsed(us[1..], name, f);
      var rest := Update(us[1..], name, f);
      forall i | 0 <= i < |rest| ensures Less(us[0].name, rest[i].name) {
        assert rest[i] in rest;
        if rest[i].name != name {
          var v :| v in us[1..] && v.name == rest[i].name;
          var k :| 0 <= k < |us[1..]| && us[1..][k] == v;
          assert Less(us[0].name, us[k + 1].name);
        }
      }
      assert ParsedUser(us[0]);
      FirstAndRestAreParsed(us[0], rest);
    }
  }

  lemma RestIsParsed(us: seq<User>)
    requires us != [] && ParsedUsers(us)
    ensures ParsedUsers(us[1..])
  {
    forall i, j | 0 <= i < j < |us[1..]| ensures Less(us[1..][i].name, us[1..][j].name) {
      assert Less(us[i + 1].name, us[j + 1].name);
    }
  }

  lemma FirstAndRestAreParsed(u: User, rest: seq<User>)
    requires ParsedUser(u) && ParsedUsers(rest) && forall i | 0 <= i < |rest| :: Less(u.name, rest[i].name)
    ensures ParsedUsers([u] + rest)
  {
    var us := [u] + rest;
    forall i, j | 0 <= i < j < |us| ensures Less(us[i].name, us[j].name) {
      if i > 0 { assert Less(rest[i - 1].name, rest[j - 1].name); }
    }
  }

  lemma SetFirst(us: seq<User>, f: UserField)
    requires us != [] && ParsedUsers(us) && FieldIsClean(f)
    ensures ParsedUsers([SetField(us[0], f)] + us[1..])
  {
    RestIsParsed(us);
    assert ParsedUser(us[0]);
    forall i | 0 <= i < |us[1..]| ensures Less(us[0].name, us[1..][i].name) { assert Less(us[0].name, us[i + 1].name); }
    FirstAndRestAreParsed(SetField(us[0], f), us[1..]);
  }

  lemma PutFirst(us: seq<User>, u: User)
    requires us != [] && ParsedUsers(us) && ParsedUser(u) && Less(u.name, us[0].name)
    ensures ParsedUsers([u] + us)
  {
    forall i | 0 <= i < |us| ensures Less(u.name, us[i].name) {
      if i > 0 {
        assert Less(us[0].name, us[i].name);
        LessChains(u.name, us[0].name, us[i].name);
      }
    }
    FirstAndRestAreParsed(u, us);
  }

  lemma UserKeepsParsed(c: Config, rest: string, val: string)
    requires Parsed(c) && '=' !in rest && OneLine(rest) && CleanValue(val)
    ensures Parsed(AssignUser(c, rest, val))
  {
    LastIndexOfBound(rest, '.');
    if LastIndexOf(rest, '.').Some? {
      var dot := LastIndexOf(rest, '.').value;
      UpdateKeepsParsed(c.users, rest[..dot], FieldOf(rest[dot + 1..], val));
    }
  }

  lemma SetKeepsParsed(c: Config, k: Key, rest: string, val: string)
    requires Parsed(c) && CleanValue(val) && '=' !in rest && OneLine(rest)
    ensures Parsed(SetKey(c, k, rest, val))
  {
    if k == UserKey { UserKeepsParsed(c, rest, val); }
  }

  lemma PartIsOneLine(s: string, a: string, t: string, b: string)
    requires s == a + t + b && OneLine(s)
    ensures OneLine(t)
  {
    forall i | 0 <= i < |t| ensures t[i] != '\n' { assert s[|a| + i] == t[i]; }
  }

  lemma TrimmedPart(s: string)
    requires OneLine(s)
    ensures CleanValue(Trim(s))
  {
    var a, b := TrimIsExact(s);
    PartIsOneLine(s, a, Trim(s), b);
  }

  lemma TrimKeepsOut(s: string, c: char)
    requires c !in s
    ensures c !in Trim(s)
  {
    var a, b := TrimIsExact(s);
    forall i | 0 <= i < |Trim(s)| ensures Trim(s)[i] != c { assert s[|a| + i] == Trim(s)[i] && s[|a| + i] in s; }
  }

  lemma LineKeepsParsed(c: Config, raw: string)
    requires Parsed(c) && OneLine(raw)
    ensures Parsed(ApplyLine(c, raw))
  {
    var line := Trim(raw);
    TrimmedPart(raw);
    IndexOfBound(line, '=');
    if line != "" && line[0] != '#' && line[0] != ';' && IndexOf(line, '=').Some? {
      var eq := IndexOf(line, '=').value;
      IndexOfIsFirst(line, '=');
      TrimmedPart(line[..eq]);
      TrimmedPart(line[eq + 1..]);
      TrimKeepsOut(line[..eq], '=');
      var key := Trim(line[..eq]);
      SetKeepsParsed(c, KeyOf(key), if KeyOf(key) == UserKey then key[5..] else "", Trim(line[eq + 1..]));
    }
  }

  lemma DefaultTexts()
    ensures CleanValue("0.0.0.0") && CleanValue("server.crt") && CleanValue("server.key")
    ensures CleanValue("radminpro_audit.csv") && CleanValue("fileshare") && CleanValue("")
  {
  }

  lemma DefaultsAreParsed()
    ensures Parsed(DEFAULTS)
  {
    DefaultTexts();
  }

  lemma {:induction false} FeedKeepsParsed(text: string)
    ensures Parsed(Feed(DEFAULTS, text).0) && OneLine(Feed(DEFAULTS, text).1)
    decreases |text|
  {
    if text == "" {
      DefaultsAreParsed();
    } else {
      FeedKeepsParsed(text[..|text| - 1]);
      var (c, line) := Feed(DEFAULTS, text[..|text| - 1]);
      if text[|text| - 1] == '\n' { LineKeepsParsed(c, line); }
    }
  }

  /** Whatever the text, parsing gives trimmed one-line values and users in strict order
      of their names, which hold no '='. */
  lemma ParseIsParsed(text: string)
    ensures Parsed(Parse(text))
  {
    FeedKeepsParsed(text);
    var (c, line) := Feed(DEFAULTS, text);
    if line != "" { LineKeepsParsed(c, line); }
  }

  lemma ParsedIsClean(c: Config)
    requires Parsed(c)
    ensures CleanConfig(c)
  {
    forall i | 0 <= i < |c.users| ensures CleanUser(c.users[i]) { assert ParsedUser(c.users[i]); }
  }

  /** So the round trip is the identity on exactly these configurations: trimmed one-line
      values, users in strict order of names without '=', each with a name, a hash and
      only named rights. */
  lemma RoundTripIsIdentityWhen(c: Config)
    requires InRange(c)
    ensures Parse(Serialize(c)) == c <==> CleanConfig(c) && forall i | 0 <= i < |c.users| :: Writable(c.users[i])
  {
    if CleanConfig(c) {
      ParseOfSerialize(c);
      KeptIsAll(c.users);
    } else {
      ParseIsParsed(Serialize(c));
      if Parse(Serialize(c)) == c { ParsedIsClean(c); }
    }
  }

  // ------------------------------------------------------------- the program

  method ParseText(text: string) returns (c: Config)
    ensures c == Parse(text)
  {
    c := DEFAULTS;
    var line := "";
    for i := 0 to |text|
      invariant Feed(DEFAULTS, text[..i]) == (c, line)
    {
      assert text[..i + 1][..i] == text[..i];
      if text[i] == '\n' {
        c := ApplyLine(c, line);
        line := "";
      } else {
        line := line + [text[i]];
      }
    }
    assert text[..|text|] == text;
    if line != "" { c := ApplyLine(c, line); }
  }

  method SplitAny(s: string, seps: string) returns (out: seq<string>)
    ensures out == Split(s, c => c in seps)
  {
    ghost var sep := (c: char) => c in seps;
    out := [];
    var cur := "";
    for i := 0 to |s|
      invariant Cut(s[..i], sep) == (out, cur)
    {
      assert s[..i + 1][..i] == s[..i];
      if s[i] in seps {
        if cur != "" { out, cur := out + [cur], ""; }
      } else {
        cur := cur + [s[i]];
      }
    }
    assert s[..|s|] == s;
    if cur != "" { out := out + [cur]; }
  }

  method SerializeConfig(c: Config) returns (o: string)
    ensures o == Serialize(c)
  {
    o := "";
    ghost var ps: seq<Pair> := [];
    var head := HeadPairs(c);
    for i := 0 to |head|
      invariant o == TextOf(head[..i])
    {
      assert head[..i + 1][..i] == head[..i];
      o := o + (head[i].key + "=" + head[i].val + "\n");
    }
    assert head[..|head|] == head;
    for i := 0 to |c.users|
      invariant o == TextOf(head) + TextOf(UserPairs(c.users[..i]))
    {
      var u := c.users[i];
      assert c.users[..i + 1][..i] == c.users[..i];
      if u.name == "" || u.hash == "" { continue; }
      var rights := PrintRights(u.rights);
      ghost var done := UserPairs(c.users[..i]);
      var p, q := Pair("user." + u.name + ".hash", u.hash), Pair("user." + u.name + ".rights", rights);
      o := AppendLine(o, p, TextOf(head), done);
      o := AppendLine(o, q, TextOf(head), done + [p]);
    }
    assert c.users[..|c.users|] == c.users;
  }

  method AppendLine(o: string, p: Pair, ghost before: string, ghost done: seq<Pair>) returns (o': string)
    requires o == before + TextOf(done)
    ensures o' == before + TextOf(done + [p])
  {
    o' := o + (p.key + "=" + p.val + "\n");
    assert (done + [p])[..|done|] == done;
    Assoc(before, TextOf(done), LineOf(p) + "\n");
  }
}
