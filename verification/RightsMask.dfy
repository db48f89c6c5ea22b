/** The per-user rights mask and its text form (common/Protocol.cpp). */
module RightsMask {
  import opened Text

  // A 32-bit mask, as the set of the positions of its bits: `|` is union, `&` intersection.
  type Rights = set<nat>

  const ALL_ACCESS: nat := 0
  const SCREEN_VIEW: nat := 1
  const SCREEN_CONTROL: nat := 2
  const FILE_TRANSFER: nat := 3

  // The bits that have a name.
  const KNOWN_RIGHTS: Rights := set i | 0 <= i < 10

  predicate HasRight(granted: Rights, need: nat) {
    ALL_ACCESS in granted || need in granted
  }

  // The table of rights, in the order they are printed.
  function RightName(i: nat): string
    requires i < 10
  {
    match i
    case 0 => "AllAccess"
    case 1 => "RemoteScreenView"
    case 2 => "RemoteScreenControl"
    case 3 => "FileTransfer"
    case 4 => "Chat"
    case 5 => "SendMessage"
    case 6 => "Shutdown"
    case 7 => "Redirect"
    case 8 => "Telnet"
    case _ => "VoiceChat"
  }

  // The names among the first n whose bit is set.
  function RightNames(r: Rights, n: nat): seq<string>
    requires n <= 10
  {
    if n == 0 then [] else
      RightNames(r, n - 1) + if n - 1 in r then [RightName(n - 1)] else []
  }

  function RightsToString(r: Rights): string {
    var names := RightNames(r, 10);
    if names == [] then "None" else JoinWith(names, '|')
  }

  // The bit of the first entry from i on with this name; no bit for an unknown name.
  function BitOf(name: string, i: nat): Rights
    requires i <= 10
    decreases 10 - i
  {
    if i == 10 then {} else if name == RightName(i) then {i} else BitOf(name, i + 1)
  }

  function RightsFromStrings(names: seq<string>): Rights {
    if names == [] then {} else RightsFromStrings(names[..|names| - 1]) + BitOf(names[|names| - 1], 0)
  }

  lemma RightNameShape(i: nat)
    requires i < 10
    ensures |RightName(i)| == [9, 16, 19, 12, 4, 11, 8, 8, 6, 9][i]
    ensures RightName(i)[0] == "ARRFCSSRTV"[i]
    ensures forall k | 0 <= k < |RightName(i)| :: !IsListSeparator(RightName(i)[k])
  {
  }

  lemma RightNamesDiffer(i: nat, j: nat)
    requires i < j < 10
    ensures RightName(i) != RightName(j)
  {
    RightNameShape(i);
    RightNameShape(j);
  }

  lemma {:induction false} BitOfName(i: nat, j: nat)
    requires i <= j < 10
    ensures BitOf(RightName(j), i) == {j}
    decreases j - i
  {
    if i < j {
      RightNamesDiffer(i, j);
      BitOfName(i + 1, j);
    }
  }

  // The rights among the first n bits.
  ghost function Below(r: Rights, n: nat): Rights { set i | 0 <= i < n && i in r }

  lemma BelowOneMore(r: Rights, n: nat)
    ensures Below(r, n + 1) == Below(r, n) + if n in r then {n} else {}
  {
  }

  lemma BitsOneMore(names: seq<string>, n: nat)
    requires n < 10
    ensures RightsFromStrings(names + [RightName(n)]) == RightsFromStrings(names) + {n}
  {
    assert (names + [RightName(n)])[..|names|] == names;
    BitOfName(0, n);
  }

  lemma NamesOneMore(r: Rights, n: nat)
    requires n < 10
    ensures RightNames(r, n + 1) == if n in r then RightNames(r, n) + [RightName(n)] else RightNames(r, n)
  {
    assert RightNames(r, n) + [] == RightNames(r, n);
  }

  lemma OneMoreGivesBits(r: Rights, n: nat, names: seq<string>)
    requires n < 10 && RightsFromStrings(names) == Below(r, n)
    ensures RightsFromStrings(if n in r then names + [RightName(n)] else names) == Below(r, n + 1)
  {
    BelowOneMore(r, n);
    if n in r { BitsOneMore(names, n); }
  }

  lemma {:induction false} NamesGiveBits(r: Rights, n: nat)
    requires n <= 10
    ensures RightsFromStrings(RightNames(r, n)) == Below(r, n)
  {
    if n > 0 {
      var names := RightNames(r, n - 1);
      var next := if n - 1 in r then names + [RightName(n - 1)] else names;
      assert RightsFromStrings(next) == Below(r, n) by {
        NamesGiveBits(r, n - 1);
        OneMoreGivesBits(r, n - 1, names);
      }
      assert RightNames(r, n) == next by { NamesOneMore(r, n - 1); }
    }
  }

  lemma {:induction false} NamesArePieces(r: Rights, n: nat)
    requires n <= 10
    ensures ArePieces(RightNames(r, n), IsListSeparator)
  {
    if n > 0 {
      NamesArePieces(r, n - 1);
      RightNameShape(n - 1);
    }
  }

  predicate IsListSeparator(c: char) { c == '|' || c == ',' }

  /** Printing a mask and reading it back keeps exactly the ten known rights. */
  lemma RightsRoundTrip(r: Rights)
    ensures RightsFromStrings(Split(RightsToString(r), IsListSeparator)) == r * KNOWN_RIGHTS
  {
    NamesGiveBits(r, 10);
    assert Below(r, 10) == r * KNOWN_RIGHTS;
    NamesArePieces(r, 10);
    var names := RightNames(r, 10);
    if names == [] {
      NoneIsNoRight();
    } else {
      SplitOfJoin(names, '|', IsListSeparator);
    }
  }

  predicate IsBar(c: char) { c == '|' }

  // Where in the table the names printed stand.
  function Positions(r: Rights, n: nat): seq<nat> {
    if n == 0 then [] else Positions(r, n - 1) + if n - 1 in r then [n - 1] else []
  }

  lemma {:induction false} NamesAtPositions(r: Rights, n: nat)
    requires n <= 10
    ensures var (at, names) := (Positions(r, n), RightNames(r, n));
      && |at| == |names| && (forall i | 0 <= i < |at| :: at[i] < n && at[i] in r && names[i] == RightName(at[i]))
      && forall i, j | 0 <= i < j < |at| :: at[i] < at[j]
  {
    if n > 0 { NamesAtPositions(r, n - 1); }
  }

  /** What is printed: None for a mask without a known right, and otherwise, between bars, names of
      rights it holds, each once and in the order of the table. */
  lemma RightsAsPrinted(r: Rights) returns (at: seq<nat>)
    ensures at == [] <==> RightsToString(r) == "None"
    ensures forall i | 0 <= i < |at| :: at[i] < 10 && at[i] in r
    ensures forall i, j | 0 <= i < j < |at| :: at[i] < at[j]
    ensures at != [] ==> Split(RightsToString(r), IsBar) == seq(|at|, i requires 0 <= i < |at| => RightName(at[i]))
  {
    at := Positions(r, 10);
    NamesAtPositions(r, 10);
    NamesArePieces(r, 10);
    var names := RightNames(r, 10);
    if at != [] {
      assert ArePieces(names, IsBar) by {
        forall i | 0 <= i < |names| ensures IsPiece(names[i], IsBar) { assert IsPiece(names[i], IsListSeparator); }
      }
      SplitOfJoin(names, '|', IsBar);
      assert names == seq(|at|, i requires 0 <= i < |at| => RightName(at[i]));
      NoneIsNoName(names);
    }
  }

  // The word that stands for no right is not a list of names.
  lemma NoneIsNoName(names: seq<string>)
    requires names != [] && Split(JoinWith(names, '|'), IsBar) == names
    requires exists i :: 0 <= i < 10 && names[0] == RightName(i)
    ensures JoinWith(names, '|') != "None"
  {
    var i :| 0 <= i < 10 && names[0] == RightName(i);
    RightNameShape(i);
    SplitOfJoin(["None"], '|', IsBar);
    assert JoinWith(["None"], '|') == "None";
  }

  lemma NoneIsNoRight()
    ensures RightsFromStrings(Split("None", IsListSeparator)) == {}
  {
    assert ["None"][..0] == [];
    SplitOfJoin(["None"], '|', IsListSeparator);
    assert forall i | 0 <= i < 10 :: RightName(i) != "None" by {
      forall i | 0 <= i < 10 ensures RightName(i) != "None" { RightNameShape(i); }
    }
    UnknownName("None", 0);
  }

  lemma {:induction false} UnknownName(name: string, i: nat)
    requires i <= 10 && forall j | i <= j < 10 :: RightName(j) != name
    ensures BitOf(name, i) == {}
    decreases 10 - i
  {
    if i < 10 { UnknownName(name, i + 1); }
  }

  method PrintRights(rights: Rights) returns (s: string)
    ensures s == RightsToString(rights)
  {
    if rights == {} {
      NamesOfNothing(10);
      return "None";
    }
    s := "";
    for i := 0 to 10
      invariant s == JoinWith(RightNames(rights, i), '|')
      invariant s == "" <==> RightNames(rights, i) == []
    {
      RightNameShape(i);
      ghost var names := RightNames(rights, i);
      if i in rights {
        assert (names + [RightName(i)])[..|names|] == names;
        if s != "" { s := s + "|"; }
        s := s + RightName(i);
        assert names == [] ==> s == RightName(i);
      } else {
        assert names + [] == names;
      }
    }
    if s == "" { s := "None"; }
  }

  lemma {:induction false} NamesOfNothing(n: nat)
    requires n <= 10
    ensures RightNames({}, n) == []
  {
    if n > 0 { NamesOfNothing(n - 1); }
  }

  method ReadRights(names: seq<string>) returns (rights: Rights)
    ensures rights == RightsFromStrings(names)
  {
    rights := {};
    for k := 0 to |names|
      invariant rights == RightsFromStrings(names[..k])
    {
      assert names[..k + 1][..k] == names[..k];
      var i := 0;
      while i < 10 && names[k] != RightName(i)
        invariant 0 <= i <= 10 && BitOf(names[k], 0) == BitOf(names[k], i)
      {
        i := i + 1;
      }
      if i < 10 { rights := rights + {i}; }
    }
    assert names[..|names|] == names;
  }
}
