/**
 What a configuration file means however it is written (server/ServerApp.cpp, parse): line by
 line, with blanks, comments and unknown keys, and the keys by their names.
 */
module ConfigText {
  import opened Util
  import opened Text
  import opened RightsMask
  import opened Config

  // -------------------------------------------------------------- line by line

  // Reading on from a configuration.
  function ParseOn(c: Config, text: string): Config {
    var (c', line) := Feed(c, text);
    if line == "" then c' else ApplyLine(c', line)
  }

  lemma BlankLine(c: Config)
    ensures ApplyLine(c, "") == c
  {
  }

  lemma {:induction false} FeedOn(c: Config, a: string, b: string)
    ensures Feed(c, a + "\n" + b) == Feed(ParseOn(c, a), b)
    decreases |b|
  {
    if b == "" {
      FeedBreak(c, a);
      BlankLine(Feed(c, a).0);
      assert a + "\n" + b == a + "\n";
    } else {
      var all := a + "\n" + b;
      assert all[..|all| - 1] == a + "\n" + b[..|b| - 1];
      FeedOn(c, a, b[..|b| - 1]);
    }
  }

  /** A file is read line by line, and its last line with or without a line break. */
  lemma LinesAreReadInTurn(c: Config, a: string, line: string)
    ensures ParseOn(c, a + "\n" + line) == ParseOn(ParseOn(c, a), line)
    ensures ParseOn(c, a + "\n") == ParseOn(c, a) && Parse(a) == ParseOn(DEFAULTS, a)
    ensures OneLine(line) ==> ParseOn(c, line) == ApplyLine(c, line)
  {
    FeedOn(c, a, line);
    FeedOn(c, a, "");
    assert a + "\n" + "" == a + "\n";
    if OneLine(line) {
      FeedJoin(c, "", line);
      BlankLine(c);
      assert "" + line == line;
    }
  }

  // -------------------------------------------------------------- what a line says

  lemma {:induction false} TrimStartSkips(a: string, s: string)
    requires AllSpace(a)
    ensures TrimStart(a + s) == TrimStart(s)
  {
    if a == "" {
      assert a + s == s;
    } else {
      assert (a + s)[1..] == a[1..] + s;
      TrimStartSkips(a[1..], s);
    }
  }

  lemma {:induction false} TrimEndSkips(s: string, b: string)
    requires AllSpace(b)
    ensures TrimEnd(s + b) == TrimEnd(s)
  {
    if b == "" {
      assert s + b == s;
    } else {
      assert (s + b)[..|s + b| - 1] == s + b[..|b| - 1];
      TrimEndSkips(s, b[..|b| - 1]);
    }
  }

  lemma TrimMargins(a: string, s: string, b: string)
    requires AllSpace(a) && AllSpace(b) && Trimmed(s)
    ensures Trim(a + s + b) == s
  {
    Assoc(a, s, b);
    TrimStartSkips(a, s + b);
    if s == "" {
      TrimStartSkips(b, "");
      assert s + b == b == b + "";
    } else {
      assert (s + b)[0] == s[0];
      TrimEndSkips(s, b);
    }
  }

  lemma SplitsAtEquals(c: Config, raw: string, left: string, right: string)
    requires Trim(raw) == left + "=" + right && left != "" && '=' !in left && left[0] != '#' && left[0] != ';'
    ensures ApplyLine(c, raw) == Assign(c, Trim(left), Trim(right))
  {
    var line := left + "=" + right;
    assert line[0] == left[0];
    IndexOfAfter(left, '=', right);
    assert line[..|left|] == left && line[|left| + 1..] == right;
  }

  // What trimming leaves of a line: without its value the value's own blanks go as well.
  lemma TrimmedLine(w: string, left: string, y: string, val: string, z: string)
    requires AllSpace(w) && AllSpace(y) && AllSpace(z) && left != "" && !IsSpace(left[0]) && Trimmed(val)
    ensures Trim(w + (left + "=" + (y + val)) + z) == left + "=" + if val == "" then "" else y + val
  {
    var tail := if val == "" then "" else y + val;
    var short := left + "=" + tail;
    assert short[0] == left[0];
    assert short[|short| - 1] == if val == "" then '=' else val[|val| - 1];
    if val == "" {
      assert y + val == y && w + (left + "=" + y) + z == w + short + (y + z);
      TrimMargins(w, short, y + z);
    } else {
      TrimMargins(w, short, z);
    }
  }

  lemma KeyAndValue(c: Config, raw: string, key: string, x: string, y: string, val: string)
    requires AllSpace(x) && AllSpace(y) && CleanKey(key) && Trimmed(val)
    requires Trim(raw) == key + x + "=" + (y + val)
    ensures ApplyLine(c, raw) == Assign(c, key, val)
  {
    assert (key + x)[0] == key[0];
    NoEquals(key, x);
    SplitsAtEquals(c, raw, key + x, y + val);
    TrimMargins("", key, x);
    TrimMargins(y, val, "");
    assert "" + key + x == key + x && y + val + "" == y + val;
  }

  lemma MarginsDoNotMatter(c: Config, w: string, key: string, x: string, y: string, val: string, z: string)
    requires AllSpace(w) && AllSpace(x) && AllSpace(y) && AllSpace(z) && CleanKey(key) && Trimmed(val)
    ensures ApplyLine(c, w + (key + x + "=" + (y + val)) + z) == Assign(c, key, val)
  {
    assert (key + x)[0] == key[0];
    TrimmedLine(w, key + x, y, val, z);
    var y' := if val == "" then "" else y;
    assert y' + val == if val == "" then "" else y + val;
    KeyAndValue(c, w + (key + x + "=" + (y + val)) + z, key, x, y', val);
  }

  // Spaces, tabs and line ends.
  predicate Blanks(w: string) { forall i | 0 <= i < |w| :: w[i] in " \t\r\n" }

  lemma BlanksAreSpace(w: string)
    ensures Blanks(w) <==> AllSpace(w)
  {
    if AllSpace(w) {
      forall i | 0 <= i < |w| ensures w[i] in " \t\r\n" { assert IsSpace(w[i]); }
    }
  }

  /** A line with a key says what its key and value say, whatever blanks stand around them. */
  lemma BlanksDoNotMatter(c: Config, w: string, key: string, x: string, y: string, val: string, z: string)
    requires Blanks(w) && Blanks(x) && Blanks(y) && Blanks(z) && CleanKey(key) && Trimmed(val)
    ensures ApplyLine(c, w + (key + x + "=" + (y + val)) + z) == Assign(c, key, val)
  {
    forall b | b in [w, x, y, z] ensures AllSpace(b) { BlanksAreSpace(b); }
    assert w in [w, x, y, z] && x in [w, x, y, z] && y in [w, x, y, z] && z in [w, x, y, z];
    MarginsDoNotMatter(c, w, key, x, y, val, z);
  }

  lemma NoEquals(key: string, x: string)
    requires '=' !in key && AllSpace(x)
    ensures '=' !in key + x
  {
  }

  /** Blank lines, comments and lines without '=' say nothing. */
  lemma SilentLines(c: Config, w: string, text: string)
    requires Blanks(w) && Trimmed(text)
    requires text == "" || text[0] == '#' || text[0] == ';' || '=' !in text
    ensures ApplyLine(c, w + text) == c
  {
    BlanksAreSpace(w);
    TrimMargins(w, text, "");
    assert w + text + "" == w + text;
    if '=' !in text { NoIndexOf(text, '='); }
  }

  lemma {:induction false} NoIndexOf(s: string, c: char)
    requires c !in s
    ensures IndexOf(s, c) == None
  {
    if s != "" {
      assert forall d | d in s[1..] :: d in s;
      NoIndexOf(s[1..], c);
    }
  }

  // ------------------------------------------------------------ what a key says

  /** The keys, by name: each sets its own setting and nothing else. */
  lemma KeysSetTheirSetting(c: Config, val: string)
    ensures Assign(c, "bind", val) == c.(bindAddr := val)
    ensures Assign(c, "allow_subnets", val) == c.(allowSubnets := val)
    ensures Assign(c, "tls_cert", val) == c.(tlsCert := val)
    ensures Assign(c, "tls_key", val) == c.(tlsKey := val)
    ensures Assign(c, "client_ca", val) == c.(clientCa := val)
    ensures Assign(c, "audit_csv", val) == c.(auditCsv := val)
    ensures Assign(c, "file_root", val) == c.(fileRoot := val)
  {
  }

  lemma NoSign(n: nat)
    ensures AtoiSigned(Decimal(n)) == n
  {
    DecimalIsDigits(n);
    AtoiOfDecimal(n);
    assert IsDigit(Decimal(n)[0]);
  }

  lemma MinusSign(n: nat)
    ensures AtoiSigned("-" + Decimal(n)) == -(n as int)
  {
    AtoiOfDecimal(n);
    assert ("-" + Decimal(n))[1..] == Decimal(n);
  }

  /** Numbers wrap at the width of their setting, negative ones too. */
  lemma NumbersWrap(c: Config, n: nat)
    ensures Assign(c, "port", Decimal(n)) == c.(port := n % 0x1_0000)
    ensures Assign(c, "monitor", Decimal(n)) == c.(monitor := n % 0x1_0000_0000)
    ensures Assign(c, "max_sessions", Decimal(n)) == c.(maxSessions := n % 0x1_0000_0000)
    ensures Assign(c, "port", "-" + Decimal(n)) == c.(port := (-(n as int)) % 0x1_0000)
  {
    NoSign(n);
    MinusSign(n);
  }

  /** What an empty file configures. */
  lemma EmptyFile()
    ensures Parse("") == Config("0.0.0.0", 4899, 0, "", "server.crt", "server.key", "", "radminpro_audit.csv",
                                "fileshare", 8, [])
  {
  }

  lemma OneRight(i: nat)
    requires i < 10
    ensures RightsFromStrings([RightName(i)]) == {i}
  {
    assert [RightName(i)][..0] == [];
    BitOfName(i, 0);
  }

  lemma {:induction false} BitOfName(i: nat, from: nat)
    requires from <= i < 10
    ensures BitOf(RightName(i), from) == {i}
    decreases i - from
  {
    if from < i {
      NamesDiffer(from, i);
      BitOfName(i, from + 1);
    }
  }

  lemma NamesDiffer(i: nat, j: nat)
    requires i < j < 10
    ensures RightName(i) != RightName(j)
  {
    var (a, b) := (RightName(i), RightName(j));
    assert |a| == |b| ==> a[0] != b[0] || a[6] != b[6];
  }

  /** The rights by name, as users are given them. */
  lemma RightsByName()
    ensures RightsFromStrings(["AllAccess"]) == {0} && RightsFromStrings(["RemoteScreenView"]) == {1}
    ensures RightsFromStrings(["RemoteScreenControl"]) == {2} && RightsFromStrings(["FileTransfer"]) == {3}
    ensures RightsFromStrings(["Chat"]) == {4} && RightsFromStrings(["SendMessage"]) == {5}
    ensures RightsFromStrings(["Shutdown"]) == {6} && RightsFromStrings(["Redirect"]) == {7}
    ensures RightsFromStrings(["Telnet"]) == {8} && RightsFromStrings(["VoiceChat"]) == {9}
  {
    forall i | 0 <= i < 10 ensures RightsFromStrings([RightName(i)]) == {i} { OneRight(i); }
    assert RightName(0) == "AllAccess" && RightName(1) == "RemoteScreenView" && RightName(2) == "RemoteScreenControl";
    assert RightName(3) == "FileTransfer" && RightName(4) == "Chat" && RightName(5) == "SendMessage";
    assert RightName(6) == "Shutdown" && RightName(7) == "Redirect" && RightName(8) == "Telnet";
  }

  /** Lists of rights are cut at `|` and commas, each piece giving its right. */
  lemma RightsListsAreCut(a: string, c: char, b: string)
    requires c in "|,"
    ensures var given := (text: string) => RightsFromStrings(Split(text, IsListSeparator));
      given(a + [c] + b) == given(a) + given(b)
    ensures a != "" && (forall d | d in a :: d !in "|,") ==> Split(a, IsListSeparator) == [a]
  {
    SplitAtSeparator(a, c, b, IsListSeparator);
    RightsOfBoth(Split(a, IsListSeparator), Split(b, IsListSeparator));
    if forall d | d in a :: d !in "|," {
      forall i | 0 <= i < |a| ensures !IsListSeparator(a[i]) { assert a[i] in a; }
    }
  }

  lemma {:induction false} RightsOfBoth(xs: seq<string>, ys: seq<string>)
    ensures RightsFromStrings(xs + ys) == RightsFromStrings(xs) + RightsFromStrings(ys)
    decreases |ys|
  {
    if ys == [] {
      assert xs + ys == xs;
    } else {
      assert (xs + ys)[..|xs + ys| - 1] == xs + ys[..|ys| - 1];
      RightsOfBoth(xs, ys[..|ys| - 1]);
    }
  }

  // The user of this name, if there is one.
  function Find(us: seq<User>, name: string): Option<User> {
    if us == [] then None else if us[0].name == name then Some(us[0]) else Find(us[1..], name)
  }

  function Known(u: Option<User>, name: string): User { if u.Some? then u.value else User(name, "", {}) }

  lemma {:induction false} NoSmaller(us: seq<User>, name: string)
    requires Ordered(us) && us != [] && Less(name, us[0].name)
    ensures Find(us, name) == None
    decreases |us|
  {
    LessIsStrict(name, us[0].name);
    if |us| > 1 {
      LessJoins(name, us[0].name, us[1].name);
      NoSmaller(us[1..], name);
    }
  }

  lemma {:induction false} LessJoins(a: string, b: string, c: string)
    requires Less(a, b) && Less(b, c)
    ensures Less(a, c)
  {
    if a != "" && a[0] == b[0] == c[0] { LessJoins(a[1..], b[1..], c[1..]); }
  }

  lemma {:induction false} UpdateFinds(us: seq<User>, name: string, f: UserField, q: string)
    requires Ordered(us)
    ensures Find(Update(us, name, f), q) ==
      if q == name then Some(SetField(Known(Find(us, name), name), f)) else Find(us, q)
    decreases |us|
  {
    var out := Update(us, name, f);
    if us == [] {
      assert out[1..] == [];
    } else if us[0].name == name {
      assert out[1..] == us[1..];
    } else if Less(name, us[0].name) {
      NoSmaller(us, name);
      assert out[1..] == us;
    } else {
      assert out[1..] == Update(us[1..], name, f);
      UpdateFinds(us[1..], name, f, q);
    }
  }

  /** A key "user.", a name, a dot and a field sets that field of that user, who is made if not
      there, and touches no other user and no other setting; the name may hold dots. */
  lemma UserKeysSetTheirUser(c: Config, name: string, field: string, val: string, q: string)
    requires Ordered(c.users) && '.' !in field
    ensures var c' := Assign(c, "user." + (name + "." + field), val);
      var was := Known(Find(c.users, name), name);
      && c' == c.(users := c'.users)
      && Find(c'.users, q) ==
         if q != name then Find(c.users, q)
         else if field == "hash" then Some(was.(hash := val))
         else if field == "rights" then Some(was.(rights := RightsFromStrings(Split(val, IsListSeparator))))
         else Some(was)
  {
    var rest := name + "." + field;
    UserKeyAssigns(c, rest, val);
    LastIndexOfBefore(name, '.', field);
    assert rest[..|name|] == name && rest[|name| + 1..] == field;
    UpdateFinds(c.users, name, FieldOf(field, val), q);
  }

  /** Any other key says nothing. */
  lemma OtherKeysAreIgnored(c: Config, key: string, val: string)
    requires key !in ["bind", "port", "monitor", "allow_subnets", "tls_cert", "tls_key", "client_ca", "audit_csv",
                      "file_root", "max_sessions"]
    requires !("user." <= key) || '.' !in key[5..]
    ensures Assign(c, key, val) == c
  {
    if "user." <= key { NoLastIndexOf(key[5..], '.'); }
  }

  lemma {:induction false} NoLastIndexOf(s: string, c: char)
    requires c !in s
    ensures LastIndexOf(s, c) == None
  {
    if s != "" {
      assert forall d | d in s[..|s| - 1] :: d in s;
      NoLastIndexOf(s[..|s| - 1], c);
    }
  }

  // ---------------------------------------------------------- what is printed

  lemma {:induction false} PairAt(vs: seq<Value>, i: nat)
    requires i < |vs|
    ensures |PairsOf(vs)| == |vs| && PairsOf(vs)[i] == Pair(KeyText(vs[i].key), vs[i].val)
    decreases |vs|
  {
    if |vs| > 1 { PairAt(vs[..|vs| - 1], if i < |vs| - 1 then i else 0); }
  }

  // The keys in the order they are printed.
  function KeysPrinted(ca: bool): seq<Key> {
    [Bind, Port, Monitor, Subnets, Cert, CertKey] + (if ca then [ClientCa] else []) + [AuditCsv, FileRoot, MaxSessions]
  }

  lemma KeyAt(c: Config, i: nat)
    requires i < |HeadValues(c)|
    ensures var ks := KeysPrinted(c.clientCa != "");
      |HeadValues(c)| == |ks| && HeadValues(c)[i].key == ks[i]
  {
  }

  lemma KeysDiffer(ca: bool, i: nat, j: nat)
    requires i < j < |KeysPrinted(ca)|
    ensures KeyText(KeysPrinted(ca)[i]) != KeyText(KeysPrinted(ca)[j])
  {
    KeyIsRead(KeysPrinted(ca)[i]);
    KeyIsRead(KeysPrinted(ca)[j]);
  }

  /** Besides the users nine settings are printed, and the client certificate authority as the
      tenth where there is one; and none of them twice. */
  lemma SettingsArePrintedOnce(c: Config)
    ensures var ps := HeadPairs(c);
      && |ps| == (if c.clientCa == "" then 9 else 10)
      && forall i, j | 0 <= i < j < |ps| :: ps[i].key != ps[j].key
  {
    var vs, ps := HeadValues(c), HeadPairs(c);
    KeyAt(c, 0);
    PairAt(vs, 0);
    forall i, j | 0 <= i < j < |ps| ensures ps[i].key != ps[j].key {
      PrintedApart(c, i, j);
    }
  }

  lemma PrintedApart(c: Config, i: nat, j: nat)
    requires i < j < |HeadPairs(c)|
    ensures HeadPairs(c)[i].key != HeadPairs(c)[j].key
  {
    var vs := HeadValues(c);
    KeyAt(c, 0);
    PairAt(vs, 0);
    PairAt(vs, i);
    PairAt(vs, j);
    KeyAt(c, i);
    KeyAt(c, j);
    KeysDiffer(c.clientCa != "", i, j);
  }
}
