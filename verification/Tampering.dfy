/**
 What the hash chain of the audit log shows to someone who recomputes it
 (audit/AuditLogger.cpp, log): exactly when a deletion or a replacement goes
 unnoticed, and what going unnoticed costs.
 */
module Tampering {
  import opened Audit

  // The log without rows i to j - 1.
  function Without(rows: seq<Row>, i: nat, j: nat): seq<Row>
    requires i <= j <= |rows|
  {
    rows[..i] + rows[j..]
  }

  /** A log with rows deleted verifies if and only if the deletion reaches its end, or the
      first row kept after the gap happens to hash, on the chain value before the gap, to
      the value it already carries. */
  lemma DeletionVerifiesExactlyWhen(h: RowHash, rows: seq<Row>, i: nat, j: nat)
    requires Verifies(h, rows) && i <= j <= |rows|
    ensures Verifies(h, Without(rows, i, j))
       <==> j == |rows| || h(EndOf(rows[..i]) + rows[j].text) == rows[j].chain
  {
    var cut := Without(rows, i, j);
    assert forall k | 0 <= k < i :: cut[k] == rows[k];
    assert forall k | i <= k < |cut| :: cut[k] == rows[k + (j - i)];
    if j < |rows| { assert HashInput(cut, i) == EndOf(rows[..i]) + rows[j].text; }
    forall k | 0 <= k < |cut| && k != i ensures VerifiesAt(h, cut, k) {
      if k < i {
        assert VerifiesAt(h, rows, k) && HashInput(cut, k) == HashInput(rows, k);
      } else {
        assert VerifiesAt(h, rows, k + (j - i)) && HashInput(cut, k) == HashInput(rows, k + (j - i));
      }
    }
    if j < |rows| { assert VerifiesAt(h, cut, i) <==> h(EndOf(rows[..i]) + rows[j].text) == rows[j].chain; }
  }

  /** So rows deleted before the last show, unless two different inputs of the two logs
      have one hash, or one hashes to the genesis value; the finding says where. */
  lemma DeletionShows(h: RowHash, rows: seq<Row>, i: nat, j: nat) returns (f: Finding)
    requires Verifies(h, rows) && i < j < |rows| && Verifies(h, Without(rows, i, j))
    ensures f != Same && Supports(h, Without(rows, i, j), rows, f)
  {
    var cut := Without(rows, i, j);
    assert cut[|cut| - 1] == rows[|rows| - 1];
    f := ChainBindsTheLog(h, cut, rows);
    assert |cut| < |rows|;
  }

  /** A log with one row replaced verifies if and only if the new row carries the hash of
      its own text, and the next one, if there is one, still hashes to what it carries. */
  lemma ReplacementVerifiesExactlyWhen(h: RowHash, rows: seq<Row>, k: nat, r: Row)
    requires Verifies(h, rows) && k < |rows|
    ensures Verifies(h, rows[k := r])
       <==> && r.chain == h(EndOf(rows[..k]) + r.text)
            && (k + 1 < |rows| ==> h(r.chain + rows[k + 1].text) == rows[k + 1].chain)
  {
    var edited := rows[k := r];
    assert HashInput(edited, k) == EndOf(rows[..k]) + r.text;
    if k + 1 < |rows| { assert HashInput(edited, k + 1) == r.chain + rows[k + 1].text; }
    forall n | 0 <= n < |rows| && n != k && n != k + 1 ensures VerifiesAt(h, edited, n) {
      assert VerifiesAt(h, rows, n) && HashInput(edited, n) == HashInput(rows, n);
    }
    assert VerifiesAt(h, edited, k) <==> r.chain == h(EndOf(rows[..k]) + r.text);
    if k + 1 < |rows| {
      assert VerifiesAt(h, edited, k + 1) <==> h(r.chain + rows[k + 1].text) == rows[k + 1].chain;
    }
  }

  /** So a row replaced by another one before the last shows, with the same exceptions. */
  lemma ReplacementShows(h: RowHash, rows: seq<Row>, k: nat, r: Row) returns (f: Finding)
    requires Verifies(h, rows) && k + 1 < |rows| && r != rows[k] && Verifies(h, rows[k := r])
    ensures f != Same && Supports(h, rows[k := r], rows, f)
  {
    var edited := rows[k := r];
    assert edited[|rows| - 1] == rows[|rows| - 1] && edited[k] != rows[k];
    f := ChainBindsTheLog(h, edited, rows);
  }

  // The log continued with these texts, their chain values computed afresh.
  function Recomputed(h: RowHash, rows: seq<Row>, texts: seq<string>): seq<Row> {
    if texts == [] then rows else
      var front := Recomputed(h, rows, texts[..|texts| - 1]);
      front + [Row(texts[|texts| - 1], h(EndOf(front) + texts[|texts| - 1]))]
  }

  /** An editor who recomputes what follows the edit is not detected: after any rows that
      verify, any texts at all can follow.  Only an end value kept elsewhere tells. */
  lemma {:induction false} RecomputingIsNotDetected(h: RowHash, rows: seq<Row>, texts: seq<string>)
    requires Verifies(h, rows)
    ensures var log := Recomputed(h, rows, texts);
      && Verifies(h, log) && |log| == |rows| + |texts| && log[..|rows|] == rows
      && forall i | 0 <= i < |texts| :: log[|rows| + i].text == texts[i]
    decreases |texts|
  {
    if texts != [] {
      var n := |texts| - 1;
      RecomputingIsNotDetected(h, rows, texts[..n]);
      VerifiesAppend(h, Recomputed(h, rows, texts[..n]), texts[n]);
      assert forall i | 0 <= i < n :: texts[..n][i] == texts[i];
    }
  }
}
