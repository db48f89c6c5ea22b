/**
 The audit log (audit/AuditLogger.cpp): RFC 4180 rows, the hash chain over them,
 and picking the chain up again from the file.  SHA-256 in hexadecimal is any
 function from text to 64 lower-case hexadecimal digits.
 */
module Audit {
  import opened Util
  import opened Text

  predicate IsHexDigit(c: char) { IsDigit(c) || 'a' <= c <= 'f' }

  predicate IsHex64(s: string) { |s| == 64 && forall i | 0 <= i < 64 :: IsHexDigit(s[i]) }

  type Hex64 = s: string | IsHex64(s) witness seq(64, _ => '0')
  type RowHash = string -> Hex64

  // Sixty-four zeros, the chain value before the first row.
  function Genesis(): Hex64 { seq(64, _ => '0') }

  datatype AuditAction =
    | Connection | Rejected | AuthSuccess | AuthFailure | SessionStart | SessionEnd
    | FileUpload | FileDownload | FileMove | FileDelete | IntegrityFail
    | PermissionDenied | ConfigChange | Error

  function ActionName(a: AuditAction): string {
    match a
    case Connection => "CONNECTION"
    case Rejected => "REJECTED"
    case AuthSuccess => "AUTH_SUCCESS"
    case AuthFailure => "AUTH_FAILURE"
    case SessionStart => "SESSION_START"
    case SessionEnd => "SESSION_END"
    case FileUpload => "FILE_UPLOAD"
    case FileDownload => "FILE_DOWNLOAD"
    case FileMove => "FILE_MOVE"
    case FileDelete => "FILE_DELETE"
    case IntegrityFail => "INTEGRITY_FAIL"
    case PermissionDenied => "PERMISSION_DENIED"
    case ConfigChange => "CONFIG_CHANGE"
    case Error => "ERROR"
  }

  datatype AuditEvent = AuditEvent(actor: string, peer: string, action: AuditAction,
                                   target: string, result: string, detail: string)

  // An event with the clock text and process number `log` adds to it.
  datatype Entry = Entry(stamp: string, pid: nat, event: AuditEvent)

  // timestamp_utc,pid,actor,peer,action,target,result,detail,chain
  const HEADER: string :=
    "timestamp_utc" + "," + ("pid" + "," + ("actor" + "," + ("peer" + "," + ("action" + "," + ("target" + ","
    + ("result" + "," + ("detail" + "," + "chain")))))))
  const HEADER_FIELDS: seq<string> :=
    ["timestamp_utc"] + (["pid"] + (["actor"] + (["peer"] + (["action"] + (["target"]
    + (["result"] + (["detail"] + ["chain"])))))))
  const HEADER_START: string := "timestamp_utc" + ","
  const CRLF: string := "\r\n"

  // -------------------------------------------------------------- csv quoting

  predicate Special(c: char) { c == ',' || c == '"' || c == '\r' || c == '\n' }

  predicate NeedsQuote(field: string) { exists i | 0 <= i < |field| :: Special(field[i]) }

  // Quotes doubled.
  function Doubled(s: string): string {
    if s == "" then "" else (if s[0] == '"' then "\"\"" else [s[0]]) + Doubled(s[1..])
  }

  function CsvEscape(field: string): string {
    if NeedsQuote(field) then "\"" + Doubled(field) + "\"" else field
  }

  function OrDash(s: string): string { if s == "" then "-" else s }

  function FieldsOf(e: Entry): seq<string> {
    [e.stamp, Decimal(e.pid), OrDash(e.event.actor), OrDash(e.event.peer), ActionName(e.event.action),
     e.event.target, e.event.result, e.event.detail]
  }

  // Fields quoted where needed and separated by commas.
  function Join(fields: seq<string>): string
    requires fields != []
  {
    if |fields| == 1 then CsvEscape(fields[0])
    else CsvEscape(fields[0]) + "," + Join(fields[1..])
  }

  function RowText(e: Entry): string { Join(FieldsOf(e)) }

  // ------------------------------------------- reading csv, RFC 4180 section 2

  // A field not in quotes: up to a comma, a line break or a quote.
  function ParsePlain(s: string): (r: (string, string))
    ensures |r.1| <= |s|
  {
    if s == "" || Special(s[0]) then ("", s) else
      var (f, rest) := ParsePlain(s[1..]);
      ([s[0]] + f, rest)
  }

  // A field in quotes, after its opening quote; a doubled quote stands for one.
  function ParseQuoted(s: string): (r: Option<(string, string)>)
    ensures r.Some? ==> |r.value.1| < |s|
  {
    if s == "" then None
    else if s[0] != '"' then
      var (f, rest) :- ParseQuoted(s[1..]);
      Some(([s[0]] + f, rest))
    else if |s| > 1 && s[1] == '"' then
      var (f, rest) :- ParseQuoted(s[2..]);
      Some((['"'] + f, rest))
    else Some(("", s[1..]))
  }

  function ParseField(s: string): (r: Option<(string, string)>)
    ensures r.Some? ==> |r.value.1| <= |s|
  {
    if s != "" && s[0] == '"' then ParseQuoted(s[1..]) else Some(ParsePlain(s))
  }

  // Fields separated by commas, up to a line break or the end of the text.
  function ParseRecord(s: string): (r: Option<(seq<string>, string)>)
    ensures r.Some? && s != "" ==> |r.value.1| < |s|
    decreases |s|
  {
    var (f, rest) :- ParseField(s);
    if rest == "" then Some(([f], ""))
    else if rest[0] == ',' then
      var (fs, rest') :- ParseRecord(rest[1..]);
      Some(([f] + fs, if rest[1..] == "" then "" else rest'))
    else if CRLF <= rest then Some(([f], rest[2..]))
    else None
  }

  function ParseFile(s: string): Option<seq<seq<string>>>
    decreases |s|
  {
    if s == "" then Some([]) else
      var (fs, rest) :- ParseRecord(s);
      var more :- ParseFile(rest);
      Some([fs] + more)
  }

  /** A record tells its event: under each name of the header stands what the name says, with a
      dash for an actor or a peer there is none of. */
  lemma ColumnsTellTheEvent(e: Entry)
    ensures var (fs, names) := (FieldsOf(e), HEADER_FIELDS);
      && |names| == |fs| + 1 && names[8] == "chain"
      && names[0] == "timestamp_utc" && fs[0] == e.stamp
      && names[1] == "pid" && Atoi(fs[1]) == e.pid
      && names[2] == "actor" && fs[2] == (if e.event.actor == "" then "-" else e.event.actor)
      && names[3] == "peer" && fs[3] == (if e.event.peer == "" then "-" else e.event.peer)
      && names[4] == "action" && (forall a | ActionName(a) == fs[4] :: a == e.event.action)
      && names[5] == "target" && fs[5] == e.event.target
      && names[6] == "result" && fs[6] == e.event.result
      && names[7] == "detail" && fs[7] == e.event.detail
  {
    AtoiOfDecimal(e.pid);
    forall a | ActionName(a) == ActionName(e.event.action) ensures a == e.event.action {
      NamesDiffer(a, e.event.action);
    }
  }

  /** What was done can be read off the file: the action column names each kind of event. */
  lemma ActionColumnTells(e: Entry)
    ensures var (named, a) := (FieldsOf(e)[4], e.event.action);
      && (named == "CONNECTION" <==> a == Connection) && (named == "REJECTED" <==> a == Rejected)
      && (named == "AUTH_SUCCESS" <==> a == AuthSuccess) && (named == "AUTH_FAILURE" <==> a == AuthFailure)
      && (named == "SESSION_START" <==> a == SessionStart) && (named == "SESSION_END" <==> a == SessionEnd)
      && (named == "FILE_UPLOAD" <==> a == FileUpload) && (named == "FILE_DOWNLOAD" <==> a == FileDownload)
      && (named == "FILE_MOVE" <==> a == FileMove) && (named == "FILE_DELETE" <==> a == FileDelete)
      && (named == "INTEGRITY_FAIL" <==> a == IntegrityFail)
      && (named == "PERMISSION_DENIED" <==> a == PermissionDenied)
      && (named == "CONFIG_CHANGE" <==> a == ConfigChange) && (named == "ERROR" <==> a == Error)
  {
    forall b | ActionName(b) == FieldsOf(e)[4] ensures b == e.event.action { NamesDiffer(b, e.event.action); }
  }

  // Every action has a name of its own.
  lemma NamesDiffer(a: AuditAction, b: AuditAction)
    requires ActionName(a) == ActionName(b)
    ensures a == b
  {
    var (x, y) := (ActionName(a), ActionName(b));
    assert |x| == |y| && x[0] == y[0] && x[|x| - 1] == y[|y| - 1] && x[3] == y[3] && x[4] == y[4];
    assert |x| > 5 ==> x[5] == y[5];
  }

  /** A field stands in the file as it is, unless it holds a comma, a quote or a line break; and
      then between quotes. */
  lemma QuotedExactlyWhen(f: string)
    ensures if forall c | c in f :: c !in ",\"\r\n" then CsvEscape(f) == f
            else CsvEscape(f) != f && |CsvEscape(f)| >= 2
                 && CsvEscape(f)[0] == CsvEscape(f)[|CsvEscape(f)| - 1] == '"'
  {
    DoubledLength(f);
    if forall c | c in f :: c !in ",\"\r\n" {
      forall i | 0 <= i < |f| ensures !Special(f[i]) { assert f[i] in f; }
    } else {
      var c :| c in f && c in ",\"\r\n";
      var i :| 0 <= i < |f| && f[i] == c;
      assert Special(f[i]);
    }
  }

  lemma {:induction false} DoubledLength(s: string)
    ensures |Doubled(s)| >= |s|
  {
    if s != "" { DoubledLength(s[1..]); }
  }

  // What may follow a field: a comma or a line break.
  predicate Ends(rest: string) { rest != "" && (rest[0] == ',' || rest[0] == '\r') }

  lemma {:induction false} ParsePlainOf(f: string, rest: string)
    requires !NeedsQuote(f) && Ends(rest)
    ensures ParsePlain(f + rest) == (f, rest)
  {
    if f == "" {
      assert f + rest == rest;
    } else {
      assert Special(f[0]) ==> NeedsQuote(f);
      assert (f + rest)[1..] == f[1..] + rest;
      forall i | 0 <= i < |f[1..]| ensures !Special(f[1..][i]) { assert !Special(f[i + 1]); }
      ParsePlainOf(f[1..], rest);
      assert [f[0]] + f[1..] == f;
    }
  }

  lemma {:induction false} ParseQuotedOf(f: string, rest: string)
    requires Ends(rest)
    ensures ParseQuoted(Doubled(f) + ("\"" + rest)) == Some((f, rest))
  {
    var tail := "\"" + rest;
    if f == "" {
      assert Doubled(f) + tail == tail && tail[1..] == rest;
    } else {
      var more, c := Doubled(f[1..]) + tail, if f[0] == '"' then "\"\"" else [f[0]];
      ParseQuotedOf(f[1..], rest);
      Assoc(c, Doubled(f[1..]), tail);
      assert (c + more)[|c|..] == more;
      assert [f[0]] + f[1..] == f;
    }
  }

  lemma ParseFieldOfEscape(f: string, rest: string)
    requires Ends(rest)
    ensures ParseField(CsvEscape(f) + rest) == Some((f, rest))
  {
    if NeedsQuote(f) {
      var s, inner := CsvEscape(f) + rest, Doubled(f) + ("\"" + rest);
      assert s == "\"" + inner && s[1..] == inner;
      assert ParseQuoted(inner) == Some((f, rest)) by { ParseQuotedOf(f, rest); }
    } else {
      assert ParsePlain(f + rest) == (f, rest) by { ParsePlainOf(f, rest); }
      if f != "" { assert Special('"') && !Special(f[0]); }
    }
  }

  lemma {:induction false} ParseRecordOfJoin(fields: seq<string>, rest: string)
    requires fields != []
    ensures ParseRecord(Join(fields) + (CRLF + rest)) == Some((fields, rest))
  {
    var tail := CRLF + rest;
    if |fields| == 1 {
      ParseFieldOfEscape(fields[0], tail);
      assert fields == [fields[0]] && tail[2..] == rest;
    } else {
      var next := Join(fields[1..]) + tail;
      assert Join(fields) + tail == CsvEscape(fields[0]) + ("," + next);
      ParseFieldOfEscape(fields[0], "," + next);
      assert ("," + next)[1..] == next;
      ParseRecordOfJoin(fields[1..], rest);
      assert [fields[0]] + fields[1..] == fields;
    }
  }

  // ------------------------------------------------------------ the hash chain

  // The chain value after these row texts.
  function Chain(h: RowHash, rows: seq<string>): Hex64 {
    if rows == [] then Genesis() else h(Chain(h, rows[..|rows| - 1]) + rows[|rows| - 1])
  }

  // A row's text with its chain value, as one line of the file.
  function Line(text: string, chain: string): string { text + "," + chain + CRLF }

  // The lines written for these row texts.
  function LinesOf(h: RowHash, rows: seq<string>): string {
    if rows == [] then "" else
      LinesOf(h, rows[..|rows| - 1]) + Line(rows[|rows| - 1], Chain(h, rows))
  }

  function FileOf(h: RowHash, rows: seq<string>): string { HEADER + CRLF + LinesOf(h, rows) }

  function RowTexts(es: seq<Entry>): seq<string> {
    seq(|es|, i requires 0 <= i < |es| => RowText(es[i]))
  }

  // A row as it stands in the file: its text and its chain value.
  datatype Row = Row(text: string, chain: string)

  // What the auditor recomputes the i-th chain value from.
  function HashInput(rows: seq<Row>, i: nat): string
    requires i < |rows|
  {
    (if i == 0 then Genesis() else rows[i - 1].chain) + rows[i].text
  }

  ghost predicate Verifies(h: RowHash, rows: seq<Row>) {
    forall i | 0 <= i < |rows| :: VerifiesAt(h, rows, i)
  }

  ghost predicate VerifiesAt(h: RowHash, rows: seq<Row>, i: nat)
    requires i < |rows|
  {
    rows[i].chain == h(HashInput(rows, i))
  }

  function EndOf(rows: seq<Row>): string {
    if rows == [] then Genesis() else rows[|rows| - 1].chain
  }

  // Why two logs may end alike: they are the same, or SHA-256 has been broken in
  // one of two ways, at inputs the two logs contain.
  datatype Finding = Same | Collision(i: nat, j: nat) | ZeroPreimage(inFirst: bool)

  ghost predicate Supports(h: RowHash, a: seq<Row>, b: seq<Row>, f: Finding) {
    match f
    case Same => a == b
    case Collision(i, j) =>
      i < |a| && j < |b| && HashInput(a, i) != HashInput(b, j) && h(HashInput(a, i)) == h(HashInput(b, j))
    case ZeroPreimage(inFirst) => HashesToZero(h, if inFirst then a else b)
  }

  ghost predicate HashesToZero(h: RowHash, rows: seq<Row>) {
    exists i | 0 <= i < |rows| :: h(HashInput(rows, i)) == Genesis()
  }

  /** Two logs that both verify and end in the same chain value are the same log,
      row for row, or hold two different hash inputs with one hash, or a hash input
      whose hash is the genesis value; the finding says where. */
  lemma {:induction false} ChainBindsTheLog(h: RowHash, a: seq<Row>, b: seq<Row>) returns (f: Finding)
    requires Verifies(h, a) && Verifies(h, b) && EndOf(a) == EndOf(b)
    ensures Supports(h, a, b, f)
    decreases |a|
  {
    if a == [] && b == [] { return Same; }
    if b == [] {
      EndsAtZero(h, a);
      return ZeroPreimage(true);
    }
    if a == [] {
      EndsAtZero(h, b);
      return ZeroPreimage(false);
    }
    var i, j := |a| - 1, |b| - 1;
    if HashInput(a, i) != HashInput(b, j) {
      assert VerifiesAt(h, a, i) && VerifiesAt(h, b, j);
      return Collision(i, j);
    }
    LastRowsAgree(h, a, b);
    f := ChainBindsTheLog(h, a[..i], b[..j]);
    FindingLifts(h, a, b, f);
  }

  lemma EndsAtZero(h: RowHash, rows: seq<Row>)
    requires rows != [] && Verifies(h, rows) && EndOf(rows) == Genesis()
    ensures HashesToZero(h, rows)
  {
    assert VerifiesAt(h, rows, |rows| - 1);
  }

  lemma LastRowsAgree(h: RowHash, a: seq<Row>, b: seq<Row>)
    requires a != [] && b != [] && Verifies(h, a) && Verifies(h, b) && EndOf(a) == EndOf(b)
    requires HashInput(a, |a| - 1) == HashInput(b, |b| - 1)
    ensures var (a', b') := (a[..|a| - 1], b[..|b| - 1]);
      Verifies(h, a') && Verifies(h, b') && EndOf(a') == EndOf(b') && a[|a| - 1] == b[|b| - 1]
  {
    var i, j := |a| - 1, |b| - 1;
    VerifiesPrefix(h, a, i);
    VerifiesPrefix(h, b, j);
    assert VerifiesAt(h, a, i) && VerifiesAt(h, b, j);
    SplitInput(EndOf(a[..i]), a[i].text, EndOf(b[..j]), b[j].text);
  }

  lemma VerifiesPrefix(h: RowHash, rows: seq<Row>, n: nat)
    requires Verifies(h, rows) && n < |rows|
    ensures Verifies(h, rows[..n]) && |EndOf(rows[..n])| == 64
    ensures HashInput(rows, n) == EndOf(rows[..n]) + rows[n].text
  {
    var front := rows[..n];
    forall k | 0 <= k < n ensures VerifiesAt(h, front, k) { assert VerifiesAt(h, rows, k); }
    if n > 0 {
      var d: Hex64 := h(HashInput(front, n - 1));
      assert VerifiesAt(h, front, n - 1) && front[n - 1].chain == d;
    }
  }

  lemma FindingLifts(h: RowHash, a: seq<Row>, b: seq<Row>, f: Finding)
    requires a != [] && b != [] && a[|a| - 1] == b[|b| - 1]
    requires Supports(h, a[..|a| - 1], b[..|b| - 1], f)
    ensures Supports(h, a, b, f)
  {
    var a', b' := a[..|a| - 1], b[..|b| - 1];
    match f {
      case Same => assert a == a' + [a[|a| - 1]] && b == b' + [b[|b| - 1]];
      case Collision(k, l) =>
        assert HashInput(a', k) == HashInput(a, k) && HashInput(b', l) == HashInput(b, l);
      case ZeroPreimage(inFirst) => ZeroLifts(h, if inFirst then a else b);
    }
  }

  lemma ZeroLifts(h: RowHash, rows: seq<Row>)
    requires rows != [] && HashesToZero(h, rows[..|rows| - 1])
    ensures HashesToZero(h, rows)
  {
    var front := rows[..|rows| - 1];
    var k :| 0 <= k < |front| && h(HashInput(front, k)) == Genesis();
    assert HashInput(rows, k) == HashInput(front, k);
  }

  lemma SplitInput(c1: string, t1: string, c2: string, t2: string)
    requires |c1| == |c2| && c1 + t1 == c2 + t2
    ensures c1 == c2 && t1 == t2
  {
    assert c1 == (c1 + t1)[..|c1|] && c2 == (c2 + t2)[..|c2|];
    assert t1 == (c1 + t1)[|c1|..] && t2 == (c2 + t2)[|c2|..];
  }

  // The rows of a file written from these row texts.
  function Written(h: RowHash, rows: seq<string>): seq<Row> {
    if rows == [] then [] else
      Written(h, rows[..|rows| - 1]) + [Row(rows[|rows| - 1], Chain(h, rows))]
  }

  lemma {:induction false} WrittenVerifies(h: RowHash, rows: seq<string>)
    ensures |Written(h, rows)| == |rows|
    ensures Verifies(h, Written(h, rows)) && EndOf(Written(h, rows)) == Chain(h, rows)
    ensures forall i | 0 <= i < |rows| :: Written(h, rows)[i].text == rows[i]
  {
    if rows != [] {
      var front := rows[..|rows| - 1];
      WrittenVerifies(h, front);
      assert Chain(h, rows) == h(EndOf(Written(h, front)) + rows[|rows| - 1]);
      VerifiesAppend(h, Written(h, front), rows[|rows| - 1]);
      TextsAppend(Written(h, front), Row(rows[|rows| - 1], Chain(h, rows)), rows);
    }
  }

  lemma TextsAppend(written: seq<Row>, last: Row, rows: seq<string>)
    requires |rows| == |written| + 1 && last.text == rows[|written|]
    requires forall i | 0 <= i < |written| :: written[i].text == rows[..|rows| - 1][i]
    ensures forall i | 0 <= i < |rows| :: (written + [last])[i].text == rows[i]
  {
  }

  lemma VerifiesAppend(h: RowHash, rows: seq<Row>, text: string)
    requires Verifies(h, rows)
    ensures Verifies(h, rows + [Row(text, h(EndOf(rows) + text))])
  {
    var all := rows + [Row(text, h(EndOf(rows) + text))];
    forall i | 0 <= i < |all| ensures VerifiesAt(h, all, i) {
      if i < |rows| { assert VerifiesAt(h, rows, i) && HashInput(all, i) == HashInput(rows, i); }
    }
  }

  // ------------------------------------------------------- the file as records

  // Nine fields per row: the event's eight and the chain value.
  function RecordsOf(h: RowHash, es: seq<Entry>): seq<seq<string>> {
    if es == [] then [] else
      RecordsOf(h, es[..|es| - 1]) + [FieldsOf(es[|es| - 1]) + [Chain(h, RowTexts(es))]]
  }

  lemma HexNeedsNoQuote(c: Hex64)
    ensures CsvEscape(c) == c
  {
    forall i | 0 <= i < |c| ensures !Special(c[i]) { assert IsHexDigit(c[i]); }
  }

  lemma {:induction false} JoinAppend(fields: seq<string>, f: string)
    requires fields != []
    ensures Join(fields + [f]) == Join(fields) + "," + CsvEscape(f)
  {
    if |fields| > 1 {
      assert (fields + [f])[1..] == fields[1..] + [f];
      JoinAppend(fields[1..], f);
    } else {
      assert (fields + [f])[1..] == [f];
    }
  }

  lemma {:induction false} ParseLines(h: RowHash, es: seq<Entry>, rest: string, more: seq<seq<string>>)
    requires ParseFile(rest) == Some(more)
    ensures ParseFile(LinesOf(h, RowTexts(es)) + rest) == Some(RecordsOf(h, es) + more)
  {
    if es == [] {
      assert "" + rest == rest && [] + more == more;
    } else {
      var front, e := es[..|es| - 1], es[|es| - 1];
      var texts, chain := RowTexts(es), Chain(h, RowTexts(es));
      var fields := FieldsOf(e) + [chain];
      var line := Join(fields) + (CRLF + rest);
      assert ParseFile(line) == Some([fields] + more) by { ParseRecordOfJoin(fields, rest); }
      ParseLines(h, front, line, [fields] + more);
      assert LinesOf(h, texts) + rest == LinesOf(h, RowTexts(front)) + line by { LastLineOf(h, es, rest); }
      Assoc(RecordsOf(h, front), [fields], more);
    }
  }

  lemma LastLineOf(h: RowHash, es: seq<Entry>, rest: string)
    requires es != []
    ensures var (front, e, chain) := (es[..|es| - 1], es[|es| - 1], Chain(h, RowTexts(es)));
      LinesOf(h, RowTexts(es)) + rest == LinesOf(h, RowTexts(front)) + (Join(FieldsOf(e) + [chain]) + (CRLF + rest))
  {
    var front, e := es[..|es| - 1], es[|es| - 1];
    var texts, chain := RowTexts(es), Chain(h, RowTexts(es));
    assert texts[..|texts| - 1] == RowTexts(front) && texts[|texts| - 1] == RowText(e);
    assert Join(FieldsOf(e) + [chain]) == RowText(e) + "," + chain by {
      HexNeedsNoQuote(chain);
      JoinAppend(FieldsOf(e), chain);
    }
    var line := RowText(e) + "," + chain;
    Assoc(LinesOf(h, RowTexts(front)), line + CRLF, rest);
    Assoc(line, CRLF, rest);
  }

  lemma JoinCons(f: string, fields: seq<string>)
    requires !NeedsQuote(f) && fields != []
    ensures Join([f] + fields) == f + "," + Join(fields)
  {
    assert ([f] + fields)[1..] == fields;
  }

  lemma LastFiveJoined()
    ensures Join(["action"] + (["target"] + (["result"] + (["detail"] + ["chain"]))))
         == "action" + "," + ("target" + "," + ("result" + "," + ("detail" + "," + "chain")))
  {
    JoinCons("detail", ["chain"]);
    JoinCons("result", ["detail"] + ["chain"]);
    JoinCons("target", ["result"] + (["detail"] + ["chain"]));
    JoinCons("action", ["target"] + (["result"] + (["detail"] + ["chain"])));
  }

  lemma HeaderWords()
    ensures !NeedsQuote("timestamp_utc") && !NeedsQuote("pid") && !NeedsQuote("actor") && !NeedsQuote("peer")
  {
  }

  lemma FourBefore(a: string, b: string, c: string, d: string, f: seq<string>)
    requires !NeedsQuote(a) && !NeedsQuote(b) && !NeedsQuote(c) && !NeedsQuote(d) && f != []
    ensures Join([a] + ([b] + ([c] + ([d] + f)))) == a + "," + (b + "," + (c + "," + (d + "," + Join(f))))
  {
    JoinCons(d, f);
    JoinCons(c, [d] + f);
    JoinCons(b, [c] + ([d] + f));
    JoinCons(a, [b] + ([c] + ([d] + f)));
  }

  lemma HeaderIsJoined()
    ensures Join(HEADER_FIELDS) == HEADER
  {
    var f4 := ["action"] + (["target"] + (["result"] + (["detail"] + ["chain"])));
    LastFiveJoined();
    HeaderWords();
    FourBefore("timestamp_utc", "pid", "actor", "peer", f4);
  }

  /** Read by RFC 4180, the file is the header and the nine fields of every logged
      row, whatever text the events carry. */
  lemma FileParses(h: RowHash, es: seq<Entry>)
    ensures ParseFile(FileOf(h, RowTexts(es))) == Some([HEADER_FIELDS] + RecordsOf(h, es))
  {
    var lines := LinesOf(h, RowTexts(es));
    assert ParseFile(lines) == Some(RecordsOf(h, es)) by {
      ParseLines(h, es, "", []);
      assert lines + "" == lines && RecordsOf(h, es) + [] == RecordsOf(h, es);
    }
    ParseFirst(HEADER_FIELDS, lines, RecordsOf(h, es));
    HeaderIsJoined();
    Assoc(HEADER, CRLF, lines);
  }

  lemma ParseFirst(fields: seq<string>, lines: string, records: seq<seq<string>>)
    requires fields != [] && ParseFile(lines) == Some(records)
    ensures ParseFile(Join(fields) + (CRLF + lines)) == Some([fields] + records)
  {
    ParseRecordOfJoin(fields, lines);
  }

  // --------------------------------------------------- picking the chain up

  // Reading line by line: the line so far, and the last line that was not blank.
  datatype Scan = Scan(line: string, last: string)

  predicate Blank(line: string) { line == "" || line == "\r" }

  function Feed(s: Scan, c: char): Scan {
    if c == '\n' then Scan("", if Blank(s.line) then s.last else s.line) else s.(line := s.line + [c])
  }

  function ScanText(s: Scan, text: string): Scan {
    if text == "" then s else Feed(ScanText(s, text[..|text| - 1]), text[|text| - 1])
  }

  function LastNonBlank(file: string): string {
    var s := ScanText(Scan("", ""), file);
    if Blank(s.line) then s.last else s.line
  }

  function TrimmedField(f: string): string {
    if f != "" && (f[|f| - 1] == '\r' || f[|f| - 1] == '\n' || f[|f| - 1] == ' ')
    then TrimmedField(f[..|f| - 1]) else f
  }

  // What follows the last comma; all of it when there is none.
  function AfterLastComma(line: string): string {
    if line == "" || line[|line| - 1] == ',' then ""
    else AfterLastComma(line[..|line| - 1]) + [line[|line| - 1]]
  }

  function LastCsvField(line: string): string { TrimmedField(AfterLastComma(line)) }

  function Resume(file: string): string { ResumeFrom(LastNonBlank(file)) }

  function ResumeFrom(last: string): string {
    if last == "" || StartsWith(last, HEADER_START) then Genesis() else
      var f := LastCsvField(last);
      if |f| != 64 then Genesis() else f
  }

  // The last physical line of a row's text, and whether it passes for the header.
  function LastLine(text: string): string { ScanText(Scan("", ""), text).line }

  predicate LooksLikeHeader(text: string) { StartsWith(LastLine(text) + ",", HEADER_START) }

  lemma {:induction false} ScanJoin(s: Scan, a: string, b: string)
    ensures ScanText(s, a + b) == ScanText(ScanText(s, a), b)
  {
    if b == "" {
      assert a + b == a;
    } else {
      var front := b[..|b| - 1];
      assert (a + b)[..|a + b| - 1] == a + front;
      ScanJoin(s, a, front);
    }
  }

  // The line being read does not depend on what was remembered before.
  lemma {:induction false} LineOnly(last: string, text: string)
    ensures ScanText(Scan("", last), text).line == LastLine(text)
  {
    if text != "" { LineOnly(last, text[..|text| - 1]); }
  }

  predicate NoBreak(text: string) { forall i | 0 <= i < |text| :: text[i] != '\n' }

  lemma NoBreakJoin(a: string, b: string)
    requires NoBreak(a) && NoBreak(b)
    ensures NoBreak(a + b)
  {
  }

  lemma {:induction false} ScanNoBreak(s: Scan, text: string)
    requires NoBreak(text)
    ensures ScanText(s, text) == s.(line := s.line + text)
  {
    if text == "" {
      assert s.line + text == s.line;
    } else {
      ScanNoBreak(s, text[..|text| - 1]);
      assert s.line + text == s.line + text[..|text| - 1] + [text[|text| - 1]];
    }
  }

  lemma {:induction false} AfterComma(line: string, f: string)
    requires forall i | 0 <= i < |f| :: f[i] != ','
    ensures AfterLastComma(line + "," + f) == f
  {
    var s := line + "," + f;
    if f == "" {
      assert s[|s| - 1] == ',';
    } else {
      assert s[..|s| - 1] == line + "," + f[..|f| - 1];
      AfterComma(line, f[..|f| - 1]);
    }
  }

  // The physical line a row ends with.
  function Tail(chain: string): string { "," + chain + "\r" }

  lemma LastFieldIsChain(line: string, chain: Hex64)
    ensures LastCsvField(line + Tail(chain)) == chain
  {
    var f := chain + "\r";
    forall i | 0 <= i < |f| ensures f[i] != ',' { if i < 64 { assert IsHexDigit(chain[i]); } }
    AfterComma(line, f);
    assert line + Tail(chain) == line + "," + f;
    assert f[|f| - 1] == '\r' && f[..|f| - 1] == chain;
    assert TrimmedField(chain) == chain by { assert |chain| == 64 && IsHexDigit(chain[63]); }
  }

  lemma TailHasNoBreak(chain: Hex64)
    ensures NoBreak(Tail(chain))
  {
    forall i | 0 <= i < |Tail(chain)| ensures Tail(chain)[i] != '\n' {
      if 1 <= i < 65 { assert IsHexDigit(chain[i - 1]); }
    }
  }

  // After a complete row the scan remembers its last physical line.
  lemma RowIsRemembered(s: Scan, text: string, chain: Hex64)
    requires s.line == ""
    ensures ScanText(s, Line(text, chain)) == Scan("", LastLine(text) + Tail(chain))
  {
    var tail, all := Tail(chain), Line(text, chain);
    assert all[..|all| - 1] == text + tail && all[|all| - 1] == '\n';
    LineOnly(s.last, text);
    ScanJoin(s, text, tail);
    TailHasNoBreak(chain);
    ScanNoBreak(ScanText(s, text), tail);
    NotBlank(LastLine(text), tail);
  }

  lemma NotBlank(l: string, tail: string)
    requires tail != "" && tail[0] == ','
    ensures !Blank(l + tail)
  {
    assert (l + tail)[|l|] == ',';
  }

  lemma HeaderHasOneComma(l: string, chain: string)
    ensures StartsWith(l + Tail(chain), HEADER_START) <==> StartsWith(l + ",", HEADER_START)
  {
    var s, t := l + Tail(chain), l + ",";
    if |l| < 13 {
      assert s[|l|] == ',' && HEADER_START[|l|] != ',';
    } else {
      assert s[..|t|] == t && s[..14] == t[..14];
    }
  }

  lemma {:induction false} ScanOfLines(head: string, h: RowHash, rows: seq<string>)
    requires ScanText(Scan("", ""), head).line == ""
    ensures var s := ScanText(Scan("", ""), head + LinesOf(h, rows));
      s.line == "" && s.last == if rows == [] then ScanText(Scan("", ""), head).last
        else LastLine(rows[|rows| - 1]) + Tail(Chain(h, rows))
  {
    if rows == [] {
      assert head + "" == head;
    } else {
      var front, text, chain := rows[..|rows| - 1], rows[|rows| - 1], Chain(h, rows);
      ScanOfLines(head, h, front);
      var before, line := head + LinesOf(h, front), Line(text, chain);
      Assoc(head, LinesOf(h, front), line);
      ScanJoin(Scan("", ""), before, line);
      RowIsRemembered(ScanText(Scan("", ""), before), text, chain);
    }
  }

  lemma HeaderLine()
    ensures ScanText(Scan("", ""), HEADER + CRLF) == Scan("", HEADER + "\r")
    ensures StartsWith(HEADER + "\r", HEADER_START)
  {
    var r0 := "result" + "," + ("detail" + "," + "chain");
    var r1 := "action" + "," + ("target" + "," + r0);
    var r2 := "pid" + "," + ("actor" + "," + ("peer" + "," + r1));
    assert NoBreak(r0);
    NoBreakJoin("target" + ",", r0);
    NoBreakJoin("action" + ",", "target" + "," + r0);
    NoBreakJoin("peer" + ",", r1);
    NoBreakJoin("actor" + ",", "peer" + "," + r1);
    NoBreakJoin("pid" + ",", "actor" + "," + ("peer" + "," + r1));
    NoBreakJoin("timestamp_utc" + ",", r2);
    assert HEADER == HEADER_START + r2;
    Assoc(HEADER_START, r2, "\r");
    assert StartsWith(HEADER_START + (r2 + "\r"), HEADER_START);
    NoBreakJoin(HEADER, "\r");
    ScanOneLine(HEADER + "\r");
    assert HEADER + CRLF == HEADER + "\r" + "\n";
  }

  lemma ScanOneLine(line: string)
    requires NoBreak(line) && |line| > 1
    ensures ScanText(Scan("", ""), line + "\n") == Scan("", line)
  {
    ScanNoBreak(Scan("", ""), line);
    assert (line + "\n")[..|line|] == line && "" + line == line;
  }

  // The last line that is not blank: the header, or the last row's last physical line.
  lemma LastNonBlankOf(h: RowHash, rows: seq<string>)
    ensures LastNonBlank(FileOf(h, rows)) ==
      if rows == [] then HEADER + "\r" else LastLine(rows[|rows| - 1]) + Tail(Chain(h, rows))
  {
    HeaderLine();
    ScanOfLines(HEADER + CRLF, h, rows);
  }

  lemma ResumeFromRow(l: string, chain: Hex64)
    ensures ResumeFrom(l + Tail(chain)) == if StartsWith(l + ",", HEADER_START) then Genesis() else chain
  {
    HeaderHasOneComma(l, chain);
    LastFieldIsChain(l, chain);
    NotBlank(l, Tail(chain));
  }

  /** What reopening the file recovers: the chain value held before it was closed,
      unless the last physical line of the last row passes for the header, when it
      starts again from the genesis value. */
  lemma ResumeExactly(h: RowHash, rows: seq<string>)
    ensures Resume(FileOf(h, rows)) ==
      if rows != [] && LooksLikeHeader(rows[|rows| - 1]) then Genesis() else Chain(h, rows)
  {
    LastNonBlankOf(h, rows);
    if rows == [] {
      HeaderLine();
    } else {
      ResumeFromRow(LastLine(rows[|rows| - 1]), Chain(h, rows));
    }
  }

  /** So reopening is invisible exactly when that line does not pass for the header,
      or the chain stood at the genesis value anyway. */
  lemma ReopeningIsInvisibleWhen(h: RowHash, rows: seq<string>)
    requires rows != []
    ensures Resume(FileOf(h, rows)) == Chain(h, rows)
       <==> (!LooksLikeHeader(rows[|rows| - 1]) || Chain(h, rows) == Genesis())
  {
    ResumeExactly(h, rows);
  }

  predicate TrailingBlank(c: char) { c == '\r' || c == '\n' || c == ' ' }

  lemma LineInProgress(a: string, line: string)
    requires (a == "" || a[|a| - 1] == '\n') && NoBreak(line)
    ensures ScanText(Scan("", ""), a + line).line == line
  {
    var s := ScanText(Scan("", ""), a);
    ScanJoin(Scan("", ""), a, line);
    ScanNoBreak(s, line);
    assert s.line == "" && "" + line == line;
  }

  lemma LastLineBreaks(text: string)
    requires !Blank(ScanText(Scan("", ""), text).line)
    ensures LastNonBlank(text) == LastNonBlank(text + "\n") == ScanText(Scan("", ""), text).line
  {
    OneMoreChar(text, '\n');
  }

  lemma OneMoreChar(text: string, c: char)
    ensures ScanText(Scan("", ""), text + [c]) == Feed(ScanText(Scan("", ""), text), c)
  {
    assert (text + [c])[..|text|] == text;
  }

  lemma {:induction false} TrimmedOf(f: string, w: string)
    requires f != "" ==> !TrailingBlank(f[|f| - 1])
    requires forall c | c in w :: TrailingBlank(c)
    ensures TrimmedField(f + w) == f
    decreases |w|
  {
    if w == "" {
      assert f + w == f;
    } else {
      var g := f + w;
      assert g[|g| - 1] == w[|w| - 1] && w[|w| - 1] in w;
      assert g[..|g| - 1] == f + w[..|w| - 1];
      assert forall c | c in w[..|w| - 1] :: c in w;
      TrimmedOf(f, w[..|w| - 1]);
    }
  }

  lemma FieldOfLine(pre: string, f: string, w: string)
    requires ',' !in f && (f != "" ==> !TrailingBlank(f[|f| - 1]))
    requires forall c | c in w :: TrailingBlank(c)
    ensures LastCsvField(pre + "," + f + w) == f
  {
    var g := f + w;
    forall i | 0 <= i < |g| ensures g[i] != ',' { assert g[i] in f || g[i] in w; }
    AfterComma(pre, g);
    assert pre + "," + f + w == pre + "," + g;
    TrimmedOf(f, w);
  }

  lemma SameStart(line: string, w: string)
    requires ',' in line && ',' !in w
    ensures StartsWith(line + w, HEADER_START) <==> StartsWith(line, HEADER_START)
  {
    var s := line + w;
    if |line| < 14 {
      if |s| >= 14 {
        assert s[13] == w[13 - |line|];
        assert s[13] in w && HEADER_START[13] == ',';
      }
    } else {
      assert s[..14] == line[..14];
    }
  }

  lemma ResumeFromLine(pre: string, f: string, w: string)
    requires ',' !in f && (f != "" ==> !TrailingBlank(f[|f| - 1]))
    requires forall c | c in w :: TrailingBlank(c)
    ensures var line := pre + "," + f;
      && !Blank(line + w)
      && ResumeFrom(line + w) == if StartsWith(line, HEADER_START) || |f| != 64 then Genesis() else f
  {
    var line := pre + "," + f;
    assert line[|pre|] == ',' && (line + w)[|pre|] == ',';
    FieldOfLine(pre, f, w);
    SameStart(line, w);
  }

  // The line that a file ends with, before the line break if it has one.
  lemma EndsInLine(a: string, line: string, end: string)
    requires (a == "" || a[|a| - 1] == '\n') && NoBreak(line) && (end == "" || end == "\n")
    requires !Blank(line)
    ensures LastNonBlank(a + line + end) == line
  {
    LineInProgress(a, line);
    LastLineBreaks(a + line);
    if end == "" { assert a + line + end == a + line; }
  }

  /** Whatever stands before it, a last line with a comma says what the chain goes on from, with
      or without a line break after it: the text after its last comma, blanks at its end left
      out, if that is 64 characters and the line does not begin like the header; and otherwise
      64 zeros. */
  lemma ResumeOfAnyFile(a: string, pre: string, f: string, w: string, end: string)
    requires (a == "" || a[|a| - 1] == '\n') && NoBreak(pre) && NoBreak(f)
    requires (forall c | c in w :: c in " \r") && (end == "" || end == "\n")
    requires ',' !in f && (f != "" ==> f[|f| - 1] !in " \r\n")
    ensures Resume(a + (pre + "," + f + w) + end) ==
      if StartsWith(pre + "," + f, "timestamp_utc,") || |f| != 64 then seq(64, _ => '0') else f
  {
    var line := pre + "," + f;
    NoBreakJoin(pre, ",");
    NoBreakJoin(pre + ",", f);
    forall i | 0 <= i < |w| ensures w[i] != '\n' { assert w[i] in w; }
    NoBreakJoin(line, w);
    ResumeFromLine(pre, f, w);
    EndsInLine(a, line + w, end);
  }

  // ------------------------------------------------------------ runs of the log

  datatype LogOp = Log(entry: Entry) | Reopen

  // The file and the chain value in memory.
  datatype LogState = LogState(file: string, prev: string)

  function Opened(file: string): LogState {
    if file == "" then LogState(HEADER + CRLF, Genesis()) else LogState(file, Resume(file))
  }

  function Logged(h: RowHash, s: LogState, e: Entry): LogState {
    var row := RowText(e);
    var chain := h(s.prev + row);
    LogState(s.file + Line(row, chain), chain)
  }

  function LogAfter(h: RowHash, ops: seq<LogOp>): LogState {
    if ops == [] then Opened("") else
      var s := LogAfter(h, ops[..|ops| - 1]);
      match ops[|ops| - 1]
      case Log(e) => Logged(h, s, e)
      case Reopen => Opened(s.file)
  }

  function Entries(ops: seq<LogOp>): seq<Entry> {
    if ops == [] then [] else
      Entries(ops[..|ops| - 1]) + if ops[|ops| - 1].Log? then [ops[|ops| - 1].entry] else []
  }

  // The file and chain value of one log of the same entries, never closed.
  function Uninterrupted(h: RowHash, ops: seq<LogOp>): LogState {
    var rows := RowTexts(Entries(ops));
    LogState(FileOf(h, rows), Chain(h, rows))
  }

  // The log is what it would have been.
  ghost predicate NoTrace(h: RowHash, ops: seq<LogOp>) { LogAfter(h, ops) == Uninterrupted(h, ops) }

  // Reopened after these rows the log forgets its chain value: the last of them ends like
  // the header, and the chain does not stand at the genesis value anyway.
  predicate Forgets(h: RowHash, rows: seq<string>) {
    rows != [] && LooksLikeHeader(rows[|rows| - 1]) && Chain(h, rows) != Genesis()
  }

  // This operation does not reopen the log where it forgets.
  predicate HarmlessReopen(h: RowHash, ops: seq<LogOp>, i: nat)
    requires i < |ops|
  {
    ops[i].Reopen? ==> !Forgets(h, RowTexts(Entries(ops[..i])))
  }

  ghost predicate HarmlessReopens(h: RowHash, ops: seq<LogOp>) {
    forall i | 0 <= i < |ops| :: HarmlessReopen(h, ops, i)
  }

  lemma HarmlessOneMore(h: RowHash, ops: seq<LogOp>)
    requires ops != []
    ensures HarmlessReopens(h, ops)
       <==> HarmlessReopens(h, ops[..|ops| - 1]) && HarmlessReopen(h, ops, |ops| - 1)
  {
    var n := |ops| - 1;
    forall i | 0 <= i < n ensures HarmlessReopen(h, ops, i) == HarmlessReopen(h, ops[..n], i) {
      assert ops[..n][..i] == ops[..i];
    }
    if HarmlessReopens(h, ops[..n]) && HarmlessReopen(h, ops, n) {
      forall i | 0 <= i < |ops| ensures HarmlessReopen(h, ops, i) {
        if i < n { assert HarmlessReopen(h, ops[..n], i); }
      }
    }
    if HarmlessReopens(h, ops) {
      forall i | 0 <= i < n ensures HarmlessReopen(h, ops[..n], i) { assert HarmlessReopen(h, ops, i); }
    }
  }

  lemma ReopenTrace(h: RowHash, rows: seq<string>)
    ensures var s := LogState(FileOf(h, rows), Chain(h, rows));
      && Opened(s.file).file == s.file
      && (Opened(s.file) == s <==> !Forgets(h, rows))
  {
    ResumeExactly(h, rows);
  }

  lemma LoggingTrace(h: RowHash, ops: seq<LogOp>)
    requires ops != [] && NoTrace(h, ops[..|ops| - 1]) && ops[|ops| - 1].Log?
    ensures NoTrace(h, ops)
  {
    LogStep(h, Entries(ops[..|ops| - 1]), ops[|ops| - 1].entry);
  }

  lemma ReopeningTrace(h: RowHash, ops: seq<LogOp>)
    requires ops != [] && NoTrace(h, ops[..|ops| - 1]) && ops[|ops| - 1].Reopen?
    ensures NoTrace(h, ops) <==> HarmlessReopen(h, ops, |ops| - 1)
    ensures LogAfter(h, ops).file == Uninterrupted(h, ops).file
  {
    var es := Entries(ops[..|ops| - 1]);
    assert Entries(ops) == es;
    assert LogAfter(h, ops) == Opened(FileOf(h, RowTexts(es)));
    ReopenTrace(h, RowTexts(es));
  }

  // One operation more leaves a log what it would have been exactly when it is harmless.
  lemma TraceOneMore(h: RowHash, ops: seq<LogOp>)
    requires ops != [] && NoTrace(h, ops[..|ops| - 1])
    ensures NoTrace(h, ops) <==> HarmlessReopen(h, ops, |ops| - 1)
    ensures LogAfter(h, ops).file == Uninterrupted(h, ops).file
  {
    if ops[|ops| - 1].Log? { LoggingTrace(h, ops); } else { ReopeningTrace(h, ops); }
  }

  /** Closing and reopening any number of times between rows leaves no trace if every
      reopening is harmless: the file and the chain value are those of one uninterrupted
      log of the same rows. */
  lemma {:induction false} ReopensLeaveNoTrace(h: RowHash, ops: seq<LogOp>)
    requires HarmlessReopens(h, ops)
    ensures LogAfter(h, ops) == Uninterrupted(h, ops)
    decreases |ops|
  {
    if ops == [] {
      assert HEADER + CRLF + LinesOf(h, []) == HEADER + CRLF;
    } else {
      HarmlessOneMore(h, ops);
      ReopensLeaveNoTrace(h, ops[..|ops| - 1]);
      TraceOneMore(h, ops);
    }
  }

  lemma HarmlessSoFar(h: RowHash, ops: seq<LogOp>, n: nat)
    requires HarmlessReopens(h, ops) && n <= |ops|
    ensures NoTrace(h, ops[..n])
  {
    forall i | 0 <= i < n ensures HarmlessReopen(h, ops[..n], i) {
      assert HarmlessReopen(h, ops, i) && ops[..n][..i] == ops[..i];
    }
    ReopensLeaveNoTrace(h, ops[..n]);
  }

  lemma HarmlessAt(h: RowHash, ops: seq<LogOp>, i: nat)
    requires i < |ops| && NoTrace(h, ops[..i]) && NoTrace(h, ops[..i + 1])
    ensures HarmlessReopen(h, ops, i)
  {
    assert ops[..i + 1][..i] == ops[..i];
    TraceOneMore(h, ops[..i + 1]);
  }

  /** And only if: the log is the uninterrupted one at every point of a run if and only if
      every reopening in it is harmless. */
  lemma NoTraceExactlyWhen(h: RowHash, ops: seq<LogOp>)
    ensures (forall n | 0 <= n <= |ops| :: NoTrace(h, ops[..n])) <==> HarmlessReopens(h, ops)
  {
    if HarmlessReopens(h, ops) {
      forall n | 0 <= n <= |ops| ensures NoTrace(h, ops[..n]) { HarmlessSoFar(h, ops, n); }
    }
    if forall n | 0 <= n <= |ops| :: NoTrace(h, ops[..n]) {
      forall i | 0 <= i < |ops| ensures HarmlessReopen(h, ops, i) {
        assert NoTrace(h, ops[..i]) && NoTrace(h, ops[..i + 1]);
        HarmlessAt(h, ops, i);
      }
    }
  }

  // A record of the file as a row: its first eight fields as they were hashed, and the ninth.
  function RowOf(fields: seq<string>): Row
    requires |fields| == 9
  {
    Row(Join(fields[..8]), fields[8])
  }

  predicate AllNine(records: seq<seq<string>>) { forall i | 0 <= i < |records| :: |records[i]| == 9 }

  function RowsOf(records: seq<seq<string>>): seq<Row>
    requires AllNine(records)
  {
    seq(|records|, i requires 0 <= i < |records| => RowOf(records[i]))
  }

  lemma {:induction false} RowsOfRecords(h: RowHash, es: seq<Entry>)
    ensures AllNine(RecordsOf(h, es)) && RowsOf(RecordsOf(h, es)) == Written(h, RowTexts(es))
    decreases |es|
  {
    if es != [] {
      var front, e := es[..|es| - 1], es[|es| - 1];
      RowsOfRecords(h, front);
      var texts := RowTexts(es);
      assert texts[..|texts| - 1] == RowTexts(front) && texts[|texts| - 1] == RowText(e);
      var last := FieldsOf(e) + [Chain(h, texts)];
      assert last[..8] == FieldsOf(e) && RowOf(last) == Row(RowText(e), Chain(h, texts));
      RowsOfAppend(RecordsOf(h, front), last);
    }
  }

  lemma RowsOfAppend(records: seq<seq<string>>, last: seq<string>)
    requires AllNine(records) && |last| == 9
    ensures AllNine(records + [last]) && RowsOf(records + [last]) == RowsOf(records) + [RowOf(last)]
  {
  }

  // The file is read as the header and one record of nine fields per logged event, and the
  // rows so read verify as a single chain, which ends in the value the logger holds.
  ghost predicate OneChain(h: RowHash, ops: seq<LogOp>) {
    var records := ParseFile(LogAfter(h, ops).file);
    && records.Some? && records.value != [] && records.value[0] == HEADER_FIELDS
    && var rest := records.value[1..];
       && rest == RecordsOf(h, Entries(ops)) && AllNine(rest)
       && Verifies(h, RowsOf(rest)) && EndOf(RowsOf(rest)) == LogAfter(h, ops).prev
  }

  lemma OneChainIfUninterrupted(h: RowHash, ops: seq<LogOp>)
    requires LogAfter(h, ops).file == Uninterrupted(h, ops).file
    ensures OneChain(h, ops) <==> NoTrace(h, ops)
  {
    var es := Entries(ops);
    FileParses(h, es);
    RowsOfRecords(h, es);
    WrittenVerifies(h, RowTexts(es));
    assert ([HEADER_FIELDS] + RecordsOf(h, es))[1..] == RecordsOf(h, es);
  }

  /** So the whole file is one chain, at every point of a run, if and only if every reopening
      in it is harmless. */
  lemma LogIsOneChainExactlyWhen(h: RowHash, ops: seq<LogOp>)
    ensures (forall n | 0 <= n <= |ops| :: OneChain(h, ops[..n])) <==> HarmlessReopens(h, ops)
  {
    NoTraceExactlyWhen(h, ops);
    if HarmlessReopens(h, ops) {
      forall n | 0 <= n <= |ops| ensures OneChain(h, ops[..n]) {
        assert NoTrace(h, ops[..n]);
        OneChainIfUninterrupted(h, ops[..n]);
      }
    }
    if forall n | 0 <= n <= |ops| :: OneChain(h, ops[..n]) {
      forall n | 0 <= n <= |ops| ensures NoTrace(h, ops[..n]) {
        ChainIsUninterrupted(h, ops, n);
      }
    }
  }

  lemma ChainOneMore(h: RowHash, ops: seq<LogOp>)
    requires ops != [] && NoTrace(h, ops[..|ops| - 1]) && OneChain(h, ops)
    ensures NoTrace(h, ops)
  {
    TraceOneMore(h, ops);
    OneChainIfUninterrupted(h, ops);
  }

  lemma {:induction false} ChainIsUninterrupted(h: RowHash, ops: seq<LogOp>, n: nat)
    requires n <= |ops| && forall i | 0 <= i <= |ops| :: OneChain(h, ops[..i])
    ensures NoTrace(h, ops[..n])
  {
    if n == 0 {
      ReopensLeaveNoTrace(h, ops[..0]);
    } else {
      ChainIsUninterrupted(h, ops, n - 1);
      assert ops[..n][..n - 1] == ops[..n - 1] && OneChain(h, ops[..n]);
      ChainOneMore(h, ops[..n]);
    }
  }

  lemma LogStep(h: RowHash, es: seq<Entry>, e: Entry)
    ensures Logged(h, LogState(FileOf(h, RowTexts(es)), Chain(h, RowTexts(es))), e)
         == LogState(FileOf(h, RowTexts(es + [e])), Chain(h, RowTexts(es + [e])))
  {
    var rows, rows' := RowTexts(es), RowTexts(es + [e]);
    assert rows'[..|rows'| - 1] == rows && rows'[|rows'| - 1] == RowText(e);
    Assoc(HEADER + CRLF, LinesOf(h, rows), Line(RowText(e), Chain(h, rows')));
  }

  // ------------------------------------------------------------- the program

  class AuditLogger {
    const h: RowHash
    var file: string
    var prevChainHex: string

    // Opening the file the path names, with this content.
    constructor (h: RowHash, existing: string)
      ensures this.h == h && State() == Opened(existing)
    {
      this.h := h;
      file := existing;
      prevChainHex := Genesis();
      new;
      if existing == "" {
        file := HEADER + CRLF;
        prevChainHex := Genesis();
      } else {
        ResumeChain();
      }
    }

    ghost function State(): LogState reads this { LogState(file, prevChainHex) }

    method ResumeChain()
      modifies this`prevChainHex
      ensures prevChainHex == Resume(file)
    {
      var line, last := "", "";
      for i := 0 to |file|
        invariant ScanText(Scan("", ""), file[..i]) == Scan(line, last)
      {
        assert file[..i + 1][..i] == file[..i];
        if file[i] == '\n' {
          if line != "" && line != "\r" { last := line; }
          line := "";
        } else {
          line := line + [file[i]];
        }
      }
      assert file[..|file|] == file;
      if line != "" && line != "\r" { last := line; }
      if last == "" || StartsWith(last, HEADER_START) {
        prevChainHex := Genesis();
      } else {
        prevChainHex := ReadLastCsvField(last);
        if |prevChainHex| != 64 { prevChainHex := Genesis(); }
      }
    }

    static method ReadLastCsvField(line: string) returns (f: string)
      ensures f == LastCsvField(line)
    {
      var pos := |line|;
      f := "";
      assert line[..pos] == line && line[pos..] == "" && AfterLastComma(line) + "" == AfterLastComma(line);
      while pos > 0 && line[pos - 1] != ','
        invariant 0 <= pos <= |line| && f == line[pos..]
        invariant AfterLastComma(line) == AfterLastComma(line[..pos]) + line[pos..]
      {
        assert line[..pos][..pos - 1] == line[..pos - 1];
        assert line[pos - 1..] == [line[pos - 1]] + line[pos..];
        f := [line[pos - 1]] + f;
        pos := pos - 1;
      }
      assert AfterLastComma(line[..pos]) == "";
      assert "" + f == f;
      while f != "" && (f[|f| - 1] == '\r' || f[|f| - 1] == '\n' || f[|f| - 1] == ' ')
        invariant TrimmedField(f) == LastCsvField(line)
        decreases |f|
      {
        f := f[..|f| - 1];
      }
    }

    static method Escape(field: string) returns (out: string)
      ensures out == CsvEscape(field)
    {
      var needQuote := exists i | 0 <= i < |field| :: Special(field[i]);
      if !needQuote { return field; }
      out := "\"";
      for i := 0 to |field|
        invariant out + Doubled(field[i..]) == "\"" + Doubled(field)
      {
        var c := if field[i] == '"' then "\"\"" else [field[i]];
        assert field[i..][1..] == field[i + 1..];
        assert out + (c + Doubled(field[i + 1..])) == out + c + Doubled(field[i + 1..]);
        out := out + c;
      }
      assert field[|field|..] == "" && out + "" == out;
      out := out + "\"";
    }

    static method BuildRow(e: Entry) returns (row: string)
      ensures row == RowText(e)
    {
      row := Escape(e.stamp);
      row := row + "," + Decimal(e.pid);
      var fields := [OrDash(e.event.actor), OrDash(e.event.peer), ActionName(e.event.action),
                     e.event.target, e.event.result, e.event.detail];
      ghost var taken: seq<string> := [e.stamp, Decimal(e.pid)];
      DecimalNeedsNoQuote(e.pid);
      assert taken[1..] == [Decimal(e.pid)];
      for i := 0 to |fields|
        invariant taken == [e.stamp, Decimal(e.pid)] + fields[..i]
        invariant row == Join(taken)
      {
        var f := Escape(fields[i]);
        row := row + "," + f;
        JoinAppend(taken, fields[i]);
        taken := taken + [fields[i]];
      }
      assert fields[..|fields|] == fields;
      TwoAndSix(e);
    }

    method Log(e: Entry)
      modifies this
      ensures State() == Logged(h, old(State()), e)
    {
      var row := BuildRow(e);
      var chain := h(prevChainHex + row);
      file := file + (row + "," + chain + CRLF);
      prevChainHex := chain;
    }
  }

  lemma TwoAndSix(e: Entry)
    ensures [e.stamp, Decimal(e.pid)] + [OrDash(e.event.actor), OrDash(e.event.peer), ActionName(e.event.action),
              e.event.target, e.event.result, e.event.detail] == FieldsOf(e)
  {
  }

  lemma DecimalNeedsNoQuote(n: nat)
    ensures CsvEscape(Decimal(n)) == Decimal(n)
  {
    DecimalIsDigits(n);
    forall i | 0 <= i < |Decimal(n)| ensures !Special(Decimal(n)[i]) { assert IsDigit(Decimal(n)[i]); }
  }
}
