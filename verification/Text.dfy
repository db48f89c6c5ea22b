/** Text helpers the configuration, the allow-list and the audit log share. */
module Text {
  import opened Util

  predicate StartsWith(s: string, prefix: string) { prefix <= s }

  // ------------------------------------------------------------- decimal text

  predicate IsDigit(c: char) { '0' <= c <= '9' }

  function Digit(d: nat): char
    requires d < 10
  {
    '0' + d as char
  }

  // std::to_string of a non-negative number.
  function Decimal(n: nat): string {
    if n < 10 then [Digit(n)] else Decimal(n / 10) + [Digit(n % 10)]
  }

  // The leading digits of s as a number, on top of those already read.
  function AtoiFrom(s: string, n: nat): nat
    decreases |s|
  {
    if s == "" || !IsDigit(s[0]) then n else AtoiFrom(s[1..], n * 10 + (s[0] - '0') as nat)
  }

  // std::atoi on text without a sign or leading space.
  function Atoi(s: string): nat { AtoiFrom(s, 0) }

  lemma {:induction false} DecimalIsDigits(n: nat)
    ensures Decimal(n) != "" && forall i | 0 <= i < |Decimal(n)| :: IsDigit(Decimal(n)[i])
  {
    if n >= 10 { DecimalIsDigits(n / 10); }
  }

  lemma {:induction false} AtoiFromJoin(a: string, b: string, n: nat)
    requires forall i | 0 <= i < |a| :: IsDigit(a[i])
    ensures AtoiFrom(a + b, n) == AtoiFrom(b, AtoiFrom(a, n))
    decreases |a|
  {
    if a == "" {
      assert a + b == b;
    } else {
      assert (a + b)[1..] == a[1..] + b;
      AtoiFromJoin(a[1..], b, n * 10 + (a[0] - '0') as nat);
    }
  }

  /** Reading a printed number gives it back. */
  lemma {:induction false} AtoiOfDecimal(n: nat)
    ensures Atoi(Decimal(n)) == n
  {
    if n >= 10 {
      AtoiOfDecimal(n / 10);
      DecimalIsDigits(n / 10);
      AtoiFromJoin(Decimal(n / 10), [Digit(n % 10)], 0);
    }
    var last := [Digit(n % 10)];
    assert last[1..] == "";
    assert AtoiFrom(last, n / 10) == n;
  }

  // ---------------------------------------------------------------- searching

  function IndexOf(s: string, c: char): Option<nat> {
    if s == "" then None
    else if s[0] == c then Some(0)
    else
      var i :- IndexOf(s[1..], c);
      Some(i + 1)
  }

  function LastIndexOf(s: string, c: char): Option<nat> {
    if s == "" then None
    else if s[|s| - 1] == c then Some(|s| - 1)
    else LastIndexOf(s[..|s| - 1], c)
  }

  lemma {:induction false} IndexOfBound(s: string, c: char)
    ensures IndexOf(s, c).Some? ==> IndexOf(s, c).value < |s|
  {
    if s != "" { IndexOfBound(s[1..], c); }
  }

  lemma {:induction false} LastIndexOfBound(s: string, c: char)
    ensures LastIndexOf(s, c).Some? ==> LastIndexOf(s, c).value < |s|
  {
    if s != "" { LastIndexOfBound(s[..|s| - 1], c); }
  }

  lemma {:induction false} IndexOfIsFirst(s: string, c: char)
    ensures IndexOf(s, c).Some? ==> IndexOf(s, c).value < |s| && c !in s[..IndexOf(s, c).value]
  {
    if s != "" && s[0] != c && IndexOf(s, c).Some? {
      IndexOfIsFirst(s[1..], c);
      var i := IndexOf(s[1..], c).value;
      assert s[..i + 1] == [s[0]] + s[1..][..i];
    }
  }

  lemma {:induction false} IndexOfAfter(a: string, c: char, b: string)
    requires c !in a
    ensures IndexOf(a + [c] + b, c) == Some(|a|)
  {
    var s := a + [c] + b;
    if a != "" {
      assert s[1..] == a[1..] + [c] + b;
      IndexOfAfter(a[1..], c, b);
    }
  }

  lemma {:induction false} LastIndexOfBefore(a: string, c: char, b: string)
    requires c !in b
    ensures LastIndexOf(a + [c] + b, c) == Some(|a|)
  {
    var s := a + [c] + b;
    if b != "" {
      assert s[..|s| - 1] == a + [c] + b[..|b| - 1];
      LastIndexOfBefore(a, c, b[..|b| - 1]);
    }
  }

  // ----------------------------------------------------------------- trimming

  predicate IsSpace(c: char) { c == ' ' || c == '\t' || c == '\r' || c == '\n' }

  function TrimStart(s: string): string {
    if s != "" && IsSpace(s[0]) then TrimStart(s[1..]) else s
  }

  function TrimEnd(s: string): string {
    if s != "" && IsSpace(s[|s| - 1]) then TrimEnd(s[..|s| - 1]) else s
  }

  function Trim(s: string): string { TrimEnd(TrimStart(s)) }

  predicate Trimmed(s: string) { s != "" ==> !IsSpace(s[0]) && !IsSpace(s[|s| - 1]) }

  predicate AllSpace(s: string) { forall i | 0 <= i < |s| :: IsSpace(s[i]) }

  lemma {:induction false} TrimEndDrops(s: string) returns (b: string)
    ensures s == TrimEnd(s) + b && AllSpace(b)
    ensures TrimEnd(s) != "" ==> !IsSpace(TrimEnd(s)[|TrimEnd(s)| - 1])
  {
    if s != "" && IsSpace(s[|s| - 1]) {
      b := TrimEndDrops(s[..|s| - 1]);
      b := b + [s[|s| - 1]];
    } else {
      b := "";
    }
  }

  lemma {:induction false} TrimStartDrops(s: string) returns (a: string)
    ensures s == a + TrimStart(s) && AllSpace(a)
    ensures TrimStart(s) != "" ==> !IsSpace(TrimStart(s)[0])
  {
    if s != "" && IsSpace(s[0]) {
      a := TrimStartDrops(s[1..]);
      a := [s[0]] + a;
    } else {
      a := "";
    }
  }

  /** Trimming takes blanks and nothing else off the two ends, and as many as there
      are: what is left neither starts nor ends with one. */
  lemma TrimIsExact(s: string) returns (a: string, b: string)
    ensures s == a + Trim(s) + b && AllSpace(a) && AllSpace(b)
    ensures Trimmed(Trim(s)) && (Trimmed(s) <==> Trim(s) == s)
  {
    a := TrimStartDrops(s);
    b := TrimEndDrops(TrimStart(s));
    assert s == a + (Trim(s) + b);
    if Trimmed(s) { TrimmedHasNoMargins(s, a, Trim(s), b); }
  }

  // Trimmed text has no blank margins to lose.
  lemma TrimmedHasNoMargins(s: string, a: string, t: string, b: string)
    requires s == a + t + b && AllSpace(a) && AllSpace(b) && Trimmed(s)
    ensures a == "" && b == "" && t == s
  {
  }

  lemma TrimLeaves(s: string)
    requires Trimmed(s)
    ensures Trim(s) == s
  {
    var _, _ := TrimIsExact(s);
  }

  // ---------------------------------------------------------------- splitting

  // The pieces completed by the text so far, and the one in progress.
  function Cut(s: string, sep: char -> bool): (seq<string>, string) {
    if s == "" then ([], "") else
      var ((done, cur), c) := (Cut(s[..|s| - 1], sep), s[|s| - 1]);
      if !sep(c) then (done, cur + [c])
      else if cur == "" then (done, "") else (done + [cur], "")
  }

  // The non-empty runs of characters between separators.
  function Split(s: string, sep: char -> bool): seq<string> {
    var (done, cur) := Cut(s, sep);
    if cur == "" then done else done + [cur]
  }

  predicate IsPiece(p: string, sep: char -> bool) { p != "" && Unbroken(p, sep) }

  predicate Unbroken(p: string, sep: char -> bool) { forall i | 0 <= i < |p| :: !sep(p[i]) }

  ghost predicate ArePieces(ps: seq<string>, sep: char -> bool) {
    forall i | 0 <= i < |ps| :: IsPiece(ps[i], sep)
  }

  lemma {:induction false} CutAfter(a: string, c: char, b: string, sep: char -> bool)
    requires sep(c)
    ensures Cut(a + [c] + b, sep) == (Split(a, sep) + Cut(b, sep).0, Cut(b, sep).1)
  {
    var s := a + [c] + b;
    if b == "" {
      assert s == a + [c] && s[..|s| - 1] == a;
      assert Split(a, sep) + [] == Split(a, sep);
    } else {
      var front := b[..|b| - 1];
      assert s[..|s| - 1] == a + [c] + front && s[|s| - 1] == b[|b| - 1];
      CutAfter(a, c, front, sep);
      var (done, cur) := Cut(front, sep);
      Assoc(Split(a, sep), done, [cur]);
    }
  }

  /** What splitting is: an unbroken text is its own one piece, and the pieces on the
      two sides of any separator are found independently. */
  lemma SplitAtSeparator(a: string, c: char, b: string, sep: char -> bool)
    requires sep(c)
    ensures Split(a + [c] + b, sep) == Split(a, sep) + Split(b, sep)
    ensures IsPiece(a, sep) ==> Split(a, sep) == [a]
  {
    CutAfter(a, c, b, sep);
    var (done, cur) := Cut(b, sep);
    Assoc(Split(a, sep), done, [cur]);
    if IsPiece(a, sep) {
      CutUnbroken("", a, sep);
      assert "" + a == a;
    }
  }

  // Pieces written with one separator between them.
  function JoinWith(pieces: seq<string>, c: char): string {
    if pieces == [] then ""
    else if |pieces| == 1 then pieces[0]
    else JoinWith(pieces[..|pieces| - 1], c) + [c] + pieces[|pieces| - 1]
  }

  lemma {:induction false} CutUnbroken(s: string, p: string, sep: char -> bool)
    requires Unbroken(p, sep)
    ensures Cut(s + p, sep) == (Cut(s, sep).0, Cut(s, sep).1 + p)
  {
    if p == "" {
      assert s + p == s && Cut(s, sep).1 + p == Cut(s, sep).1;
    } else {
      var front := p[..|p| - 1];
      assert (s + p)[..|s + p| - 1] == s + front;
      CutUnbroken(s, front, sep);
      assert Cut(s, sep).1 + front + [p[|p| - 1]] == Cut(s, sep).1 + p;
    }
  }

  lemma {:induction false} CutOfJoin(pieces: seq<string>, c: char, sep: char -> bool)
    requires pieces != [] && sep(c) && ArePieces(pieces, sep)
    ensures Cut(JoinWith(pieces, c), sep) == (pieces[..|pieces| - 1], pieces[|pieces| - 1])
  {
    var last := pieces[|pieces| - 1];
    if |pieces| == 1 {
      CutUnbroken("", last, sep);
      assert "" + last == last && Cut("", sep).1 + last == last;
    } else {
      var front := pieces[..|pieces| - 1];
      CutOfJoin(front, c, sep);
      var s := JoinWith(front, c) + [c];
      assert s[..|s| - 1] == JoinWith(front, c);
      assert front[..|front| - 1] + [front[|front| - 1]] == front;
      CutUnbroken(s, last, sep);
      assert "" + last == last;
    }
  }

  /** Splitting undoes joining. */
  lemma SplitOfJoin(pieces: seq<string>, c: char, sep: char -> bool)
    requires sep(c) && ArePieces(pieces, sep)
    ensures Split(JoinWith(pieces, c), sep) == pieces
  {
    if pieces != [] {
      CutOfJoin(pieces, c, sep);
      assert pieces[..|pieces| - 1] + [pieces[|pieces| - 1]] == pieces;
    }
  }
}
