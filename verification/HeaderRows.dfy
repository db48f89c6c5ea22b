/**
 Which rows make the audit log forget its chain on reopening.  resumeChain
 (audit/AuditLogger.cpp) knows the header by the start of the last physical line of the
 file; a quoted field may hold line breaks, so a logged row can end in such a line.
 */
module HeaderRows {
  import opened Text
  import opened Audit

  // ------------------------------------------------ the last line of a text

  lemma {:induction false} BreakForgets(s: Scan, text: string)
    requires !NoBreak(text)
    ensures ScanText(s, text).line == LastLine(text)
    decreases |text|
  {
    var front, c := text[..|text| - 1], text[|text| - 1];
    if c != '\n' {
      assert NoBreak(front) ==> NoBreak(text);
      BreakForgets(s, front);
    }
  }

  lemma LastLineOfJoin(a: string, b: string)
    ensures LastLine(a + b) == if NoBreak(b) then LastLine(a) + b else LastLine(b)
  {
    ScanJoin(Scan("", ""), a, b);
    if NoBreak(b) {
      ScanNoBreak(ScanText(Scan("", ""), a), b);
    } else {
      BreakForgets(ScanText(Scan("", ""), a), b);
    }
  }

  lemma {:induction false} DoubledJoin(a: string, b: string)
    ensures Doubled(a + b) == Doubled(a) + Doubled(b)
    decreases |a|
  {
    if a == "" {
      assert a + b == b;
    } else {
      assert (a + b)[1..] == a[1..] + b;
      DoubledJoin(a[1..], b);
    }
  }

  lemma {:induction false} DoubledBreaks(s: string)
    ensures NoBreak(Doubled(s)) <==> NoBreak(s)
    decreases |s|
  {
    if s != "" {
      DoubledBreaks(s[1..]);
      var c := if s[0] == '"' then "\"\"" else [s[0]];
      assert Doubled(s) == c + Doubled(s[1..]);
      BreaksOfJoin(c, Doubled(s[1..]));
      assert NoBreak([s[0]] + s[1..]) <==> NoBreak([s[0]]) && NoBreak(s[1..]) by { BreaksOfJoin([s[0]], s[1..]); }
      assert [s[0]] + s[1..] == s;
      assert NoBreak(c) <==> NoBreak([s[0]]) by { OneOrTwo(s[0], c); }
    }
  }

  lemma OneOrTwo(x: char, c: string)
    requires c == if x == '"' then "\"\"" else [x]
    ensures NoBreak(c) <==> NoBreak([x])
  {
    assert [x][0] == x;
    if x == '\n' { assert c[0] == '\n'; }
  }

  lemma BreaksOfJoin(a: string, b: string)
    ensures NoBreak(a + b) <==> NoBreak(a) && NoBreak(b)
  {
    if NoBreak(a + b) {
      forall i | 0 <= i < |a| ensures a[i] != '\n' { assert (a + b)[i] == a[i]; }
      forall i | 0 <= i < |b| ensures b[i] != '\n' { assert (a + b)[|a| + i] == b[i]; }
    }
  }

  lemma {:induction false} LastLineOfDoubled(s: string)
    ensures LastLine(Doubled(s)) == Doubled(LastLine(s))
    decreases |s|
  {
    if s != "" {
      var front, c := s[..|s| - 1], [s[|s| - 1]];
      LastLineOfDoubled(front);
      assert s == front + c;
      DoubledJoin(front, c);
      LastLineOfJoin(front, c);
      LastLineOfJoin(Doubled(front), Doubled(c));
      DoubledJoin(LastLine(front), c);
      OneChar(c[0]);
    }
  }

  lemma OneChar(x: char)
    ensures NoBreak(Doubled([x])) <==> NoBreak([x])
    ensures x == '\n' ==> LastLine(Doubled([x])) == Doubled(LastLine([x]))
  {
    DoubledBreaks([x]);
    if x == '\n' { assert [x][..0] == "" && Doubled([x]) == [x]; }
  }

  // What a row's physical line ends with, when this field is its last so far.
  lemma LastLineOfField(row: string, f: string)
    ensures LastLine(row + "," + CsvEscape(f)) ==
      if NoBreak(f) then LastLine(row) + "," + CsvEscape(f) else Doubled(LastLine(f)) + "\""
  {
    var q := CsvEscape(f);
    assert NoBreak(",") && NoBreak("\"");
    LastLineOfJoin(row, ",");
    LastLineOfJoin(row + ",", q);
    EscapedBreaks(f);
    if !NoBreak(f) {
      LastLineOfJoin("\"" + Doubled(f), "\"");
      LastLineOfJoin("\"", Doubled(f));
      DoubledBreaks(f);
      LastLineOfDoubled(f);
    }
  }

  lemma EscapedBreaks(f: string)
    ensures NoBreak(CsvEscape(f)) <==> NoBreak(f)
    ensures !NoBreak(f) ==> NeedsQuote(f)
  {
    if NeedsQuote(f) {
      assert NoBreak("\"");
      DoubledBreaks(f);
      BreaksOfJoin("\"", Doubled(f));
      BreaksOfJoin("\"" + Doubled(f), "\"");
    }
  }

  // --------------------------------------------------------- like the header

  // The last of the fields to hold a line break goes on, after its last one, like the header.
  predicate EndsLikeHeader(fields: seq<string>) {
    fields != [] &&
    var f := fields[|fields| - 1];
    if NoBreak(f) then EndsLikeHeader(fields[..|fields| - 1]) else StartsWith(LastLine(f), HEADER_START)
  }

  lemma HeaderStartShape()
    ensures |HEADER_START| == 14 && HEADER_START[13] == ',' && HEADER_START[0] == 't'
    ensures forall i | 0 <= i < 13 :: HEADER_START[i] != ',' && HEADER_START[i] != '"'
  {
  }

  // What follows the first comma does not matter.
  lemma UpToTheComma(l: string, more: string)
    ensures StartsWith(l + "," + more, HEADER_START) <==> StartsWith(l + ",", HEADER_START)
  {
    HeaderStartShape();
    var s, t := l + "," + more, l + ",";
    if |l| < 13 {
      assert s[|l|] == ',' && t[|l|] == ',';
    } else {
      assert s[..14] == t[..14];
    }
  }

  // A quote is not part of the header.
  lemma {:induction false} UpToTheQuote(l: string, more: string, p: string)
    requires forall i | 0 <= i < |p| :: p[i] != '"'
    ensures StartsWith(Doubled(l) + "\"" + more, p) <==> StartsWith(l, p)
    decreases |p|
  {
    var s := Doubled(l) + "\"" + more;
    if p == "" {
    } else if l == "" {
      assert s[0] == '"';
    } else if l[0] == '"' {
      assert Doubled(l)[0] == '"' && s[0] == '"';
    } else {
      assert Doubled(l) == [l[0]] + Doubled(l[1..]);
      assert s[1..] == Doubled(l[1..]) + "\"" + more && s[0] == l[0];
      UpToTheQuote(l[1..], more, p[1..]);
      FirstAndRest(s, p);
      FirstAndRest(l, p);
    }
  }

  lemma FirstAndRest(s: string, p: string)
    requires s != "" && p != ""
    ensures StartsWith(s, p) <==> s[0] == p[0] && StartsWith(s[1..], p[1..])
  {
    if s[0] == p[0] && p[1..] <= s[1..] {
      assert p == [p[0]] + p[1..] && s == [s[0]] + s[1..];
    }
  }

  // A time stamp, as far as the header test cares: it begins with a digit and has no line break.
  predicate IsStamp(s: string) { s != "" && IsDigit(s[0]) && NoBreak(s) }

  lemma {:induction false} LooksLikeExactlyWhen(fields: seq<string>)
    requires fields != [] && IsStamp(fields[0])
    ensures StartsWith(LastLine(Join(fields)) + ",", HEADER_START) <==> EndsLikeHeader(fields)
    decreases |fields|
  {
    var n := |fields| - 1;
    var front, f := fields[..n], fields[n];
    if n == 0 {
      StampIsNotTheHeader(f);
      assert front == [] && Join(fields) == CsvEscape(f);
    } else {
      LooksLikeExactlyWhen(front);
      assert fields == front + [f];
      JoinAppend(front, f);
      LastLineOfField(Join(front), f);
      if NoBreak(f) {
        assert LastLine(Join(fields)) + "," == LastLine(Join(front)) + "," + (CsvEscape(f) + ",");
        UpToTheComma(LastLine(Join(front)), CsvEscape(f) + ",");
      } else {
        UpToItsQuote(LastLine(f));
      }
    }
  }

  lemma UpToItsQuote(l: string)
    ensures StartsWith(Doubled(l) + "\"" + ",", HEADER_START) <==> StartsWith(l, HEADER_START)
  {
    HeaderStartShape();
    assert HEADER_START[13] != '"';
    UpToTheQuote(l, ",", HEADER_START);
  }

  lemma StampIsNotTheHeader(f: string)
    requires IsStamp(f)
    ensures !StartsWith(LastLine(CsvEscape(f)) + ",", HEADER_START)
  {
    HeaderStartShape();
    EscapedBreaks(f);
    var q := CsvEscape(f);
    ScanNoBreak(Scan("", ""), q);
    assert "" + q == q && q != "" && (q[0] == '"' || q[0] == f[0]);
    assert (q + ",")[0] == q[0] && q[0] != 't';
  }

  /** A row passes for the header if and only if the last of its fields that holds a line
      break goes on after its last one with the header's start. */
  lemma PassesExactlyWhen(e: Entry)
    requires IsStamp(e.stamp)
    ensures LooksLikeHeader(RowText(e)) <==> EndsLikeHeader(FieldsOf(e))
  {
    LooksLikeExactlyWhen(FieldsOf(e));
  }

  // -------------------------------------------------------- which fields do

  lemma {:induction false} FieldDecides(fields: seq<string>, k: nat)
    requires k < |fields| && !NoBreak(fields[k]) && forall l | k < l < |fields| :: NoBreak(fields[l])
    ensures EndsLikeHeader(fields) <==> StartsWith(LastLine(fields[k]), HEADER_START)
    decreases |fields|
  {
    if k < |fields| - 1 {
      assert NoBreak(fields[|fields| - 1]);
      FieldDecides(fields[..|fields| - 1], k);
    }
  }

  lemma LineAfterBreak(before: string, after: string)
    requires NoBreak(after)
    ensures !NoBreak(before + "\n" + HEADER_START + after)
    ensures StartsWith(LastLine(before + "\n" + HEADER_START + after), HEADER_START)
  {
    var f, tail := before + "\n" + HEADER_START + after, HEADER_START + after;
    assert f[|before|] == '\n' && f == before + "\n" + tail;
    assert NoBreak(HEADER_START);
    BreaksOfJoin(HEADER_START, after);
    LastLineOfJoin(before + "\n", tail);
    assert (before + "\n")[..|before|] == before && (before + "\n")[|before|] == '\n';
    assert LastLine(before + "\n") == "" && "" + tail == tail;
  }

  // Any text field can do it, when no field after it has a line break.
  lemma FieldPasses(h: RowHash, rows: seq<string>, e: Entry, k: nat, before: string, after: string)
    requires IsStamp(e.stamp) && k < 8 && NoBreak(after)
    requires FieldsOf(e)[k] == before + "\n" + HEADER_START + after
    requires forall l | k < l < 8 :: NoBreak(FieldsOf(e)[l])
    ensures LooksLikeHeader(RowText(e)) && Resume(FileOf(h, rows + [RowText(e)])) == Genesis()
  {
    LineAfterBreak(before, after);
    FieldDecides(FieldsOf(e), k);
    PassesExactlyWhen(e);
    ResumeExactly(h, rows + [RowText(e)]);
  }

  /** The name of a failed login can: whoever may try to log in can make the next start of
      the server forget the chain of any log, if it comes right after. */
  lemma LoginNamePasses(h: RowHash, rows: seq<string>, stamp: string, pid: nat, before: string, after: string,
                        peer: string, detail: string)
    requires IsStamp(stamp) && NoBreak(after) && NoBreak(peer) && NoBreak(detail)
    ensures var name := before + "\n" + HEADER_START + after;
      var row := RowText(Entry(stamp, pid, AuditEvent(name, peer, AuthFailure, "", "FAIL", detail)));
      LooksLikeHeader(row) && Resume(FileOf(h, rows + [row])) == Genesis()
  {
    var name := before + "\n" + HEADER_START + after;
    var e := Entry(stamp, pid, AuditEvent(name, peer, AuthFailure, "", "FAIL", detail));
    assert NoBreak("FAIL") && NoBreak("AUTH_FAILURE") && NoBreak("-") && NoBreak("");
    FieldPasses(h, rows, e, 2, before, after);
  }

  /** And so can the path of a rejected upload. */
  lemma RejectedPathPasses(h: RowHash, rows: seq<string>, stamp: string, pid: nat, before: string, after: string,
                           actor: string, peer: string)
    requires IsStamp(stamp) && NoBreak(after)
    ensures var path := before + "\n" + HEADER_START + after;
      var row := RowText(Entry(stamp, pid,
                               AuditEvent(actor, peer, FileUpload, path, "DENIED", "path outside sandbox")));
      LooksLikeHeader(row) && Resume(FileOf(h, rows + [row])) == Genesis()
  {
    var path := before + "\n" + HEADER_START + after;
    var e := Entry(stamp, pid, AuditEvent(actor, peer, FileUpload, path, "DENIED", "path outside sandbox"));
    assert NoBreak("DENIED") && NoBreak("path outside sandbox");
    FieldPasses(h, rows, e, 5, before, after);
  }
}
