/**
 Suggestion persistence (`save_suggestions`): replace a reception's ranked
 suggestions with a new ranking inside one transaction, retrying when the
 store reports a deadlock.

 The `suggestion` table is a sequence of rows. The store is an environment
 given as the list of exceptions its attempts raise: attempt k (from 0) raises
 `failures[k]` when k < |failures| and commits otherwise. A failed attempt
 commits nothing, so the table it leaves is the table it found.
 */
module Suggestions {

  /** One row of `suggestion`: a product and its 1-based rank for a reception. */
  datatype SuggestionRow = SuggestionRow(receptionId: int, productId: int, ranking: int)

  /**
   An exception raised while deleting, inserting or committing: SQLAlchemy's
   `OperationalError` (whose text may report a deadlock) or anything else.
   */
  datatype AttemptError = OperationalError(message: string) | OtherError(message: string)

  /**
   How a call ends: committed; an exception propagated to the caller; or every
   allowed attempt deadlocked ("Deadlock could not be resolved after N retries.").
   */
  datatype SaveOutcome = Saved | Raised(error: AttemptError) | DeadlockUnresolved(maxRetries: int)

  /** `sub` occurs in `s` starting at index `i`. */
  ghost predicate OccursAt(s: string, sub: string, i: int) {
    0 <= i && i + |sub| <= |s| && s[i..i + |sub|] == sub
  }

  /** Python's `sub in s` for strings. */
  function Contains(s: string, sub: string): (b: bool)
    ensures b <==> exists i :: OccursAt(s, sub, i)
    decreases |s|
  {
    if sub <= s then
      assert OccursAt(s, sub, 0);
      true
    else if |s| == 0 then false
    else
      var b := Contains(s[1..], sub);
      ContainsStep(s, sub);
      b
  }

  lemma ContainsStep(s: string, sub: string)
    requires |s| > 0 && !(sub <= s)
    ensures (exists i :: OccursAt(s, sub, i)) <==> (exists i :: OccursAt(s[1..], sub, i))
  {
    if i :| OccursAt(s, sub, i) {
      if i == 0 {
        assert false;
      }
      assert s[1..][i - 1..i - 1 + |sub|] == s[i..i + |sub|];
      assert OccursAt(s[1..], sub, i - 1);
    }
    if i :| OccursAt(s[1..], sub, i) {
      assert s[i + 1..i + 1 + |sub|] == s[1..][i..i + |sub|];
      assert OccursAt(s, sub, i + 1);
    }
  }

  /** The source's test for a retryable error: `"Deadlock found" in str(e)` on an `OperationalError`. */
  function IsDeadlock(e: AttemptError): (b: bool)
    ensures b <==> e.OperationalError? && exists i :: OccursAt(e.message, "Deadlock found", i)
  {
    e.OperationalError? && Contains(e.message, "Deadlock found")
  }

  /** How many attempts in a row deadlock before the first one that does not. */
  function LeadingDeadlocks(failures: seq<AttemptError>): (d: nat)
    ensures d <= |failures|
    ensures forall i :: 0 <= i < d ==> IsDeadlock(failures[i])
    ensures d < |failures| ==> !IsDeadlock(failures[d])
  {
    if |failures| == 0 || !IsDeadlock(failures[0]) then 0
    else 1 + LeadingDeadlocks(failures[1..])
  }

  // ---------------------------------------------------------------------------
  // The table.
  // ---------------------------------------------------------------------------

  /** The rows of one reception, in table order. */
  function RowsOf(table: seq<SuggestionRow>, receptionId: int): (rows: seq<SuggestionRow>)
    ensures forall i :: 0 <= i < |rows| ==> rows[i].receptionId == receptionId
  {
    if |table| == 0 then []
    else (if table[0].receptionId == receptionId then [table[0]] else []) + RowsOf(table[1..], receptionId)
  }

  /** The table without the rows of one reception: the `DELETE ... WHERE reception_id = ...`. */
  function Others(table: seq<SuggestionRow>, receptionId: int): (rows: seq<SuggestionRow>)
    ensures forall i :: 0 <= i < |rows| ==> rows[i].receptionId != receptionId
  {
    if |table| == 0 then []
    else (if table[0].receptionId != receptionId then [table[0]] else []) + Others(table[1..], receptionId)
  }

  /** The new rows: `(receptionId, ids[k], k + 1)` for each position k. */
  function Ranked(receptionId: int, productIds: seq<int>): (rows: seq<SuggestionRow>)
    ensures |rows| == |productIds|
    ensures forall k :: 0 <= k < |rows| ==> rows[k] == SuggestionRow(receptionId, productIds[k], k + 1)
  {
    seq(|productIds|, k requires 0 <= k < |productIds| => SuggestionRow(receptionId, productIds[k], k + 1))
  }

  /**
   A successful attempt: the reception's rows become exactly the new ranking
   (dense ranks from 1 in list order), and no other reception's rows change.
   */
  function Replace(table: seq<SuggestionRow>, receptionId: int, productIds: seq<int>): (t: seq<SuggestionRow>)
    ensures RowsOf(t, receptionId) == Ranked(receptionId, productIds)
    ensures forall other :: other != receptionId ==> RowsOf(t, other) == RowsOf(table, other)
  {
    var kept := Others(table, receptionId);
    var added := Ranked(receptionId, productIds);
    RowsOfAppend(kept, added, receptionId);
    RowsOfOthers(table, receptionId, receptionId);
    RowsOfHomogeneous(added, receptionId);
    forall other | other != receptionId
      ensures RowsOf(kept + added, other) == RowsOf(table, other)
    {
      RowsOfAppend(kept, added, other);
      RowsOfOthers(table, receptionId, other);
      RowsOfForeign(added, other);
    }
    kept + added
  }

  lemma {:induction false} RowsOfAppend(a: seq<SuggestionRow>, b: seq<SuggestionRow>, rid: int)
    ensures RowsOf(a + b, rid) == RowsOf(a, rid) + RowsOf(b, rid)
  {
    if |a| > 0 {
      assert (a + b)[1..] == a[1..] + b;
      RowsOfAppend(a[1..], b, rid);
    } else {
      assert a + b == b;
    }
  }

  lemma {:induction false} OthersAppend(a: seq<SuggestionRow>, b: seq<SuggestionRow>, rid: int)
    ensures Others(a + b, rid) == Others(a, rid) + Others(b, rid)
  {
    if |a| > 0 {
      assert (a + b)[1..] == a[1..] + b;
      OthersAppend(a[1..], b, rid);
    } else {
      assert a + b == b;
    }
  }

  /** After the delete, the deleted reception has no rows and every other reception keeps all of its rows. */
  lemma {:induction false} RowsOfOthers(table: seq<SuggestionRow>, rid: int, other: int)
    ensures RowsOf(Others(table, rid), other) == if other == rid then [] else RowsOf(table, other)
  {
    if |table| > 0 {
      RowsOfOthers(table[1..], rid, other);
      var head := if table[0].receptionId != rid then [table[0]] else [];
      RowsOfAppend(head, Others(table[1..], rid), other);
      if table[0].receptionId != rid {
        assert RowsOf(head, other) == if table[0].receptionId == other then [table[0]] else [] by {
          assert head[1..] == [];
        }
      }
    }
  }

  lemma {:induction false} RowsOfHomogeneous(rows: seq<SuggestionRow>, rid: int)
    requires forall i :: 0 <= i < |rows| ==> rows[i].receptionId == rid
    ensures RowsOf(rows, rid) == rows
  {
    if |rows| > 0 {
      RowsOfHomogeneous(rows[1..], rid);
    }
  }

  lemma {:induction false} RowsOfForeign(rows: seq<SuggestionRow>, other: int)
    requires forall i :: 0 <= i < |rows| ==> rows[i].receptionId != other
    ensures RowsOf(rows, other) == []
  {
    if |rows| > 0 {
      RowsOfForeign(rows[1..], other);
    }
  }

  lemma {:induction false} OthersOfForeign(rows: seq<SuggestionRow>, rid: int)
    requires forall i :: 0 <= i < |rows| ==> rows[i].receptionId != rid
    ensures Others(rows, rid) == rows
  {
    if |rows| > 0 {
      OthersOfForeign(rows[1..], rid);
    }
  }

  lemma {:induction false} OthersOfHomogeneous(rows: seq<SuggestionRow>, rid: int)
    requires forall i :: 0 <= i < |rows| ==> rows[i].receptionId == rid
    ensures Others(rows, rid) == []
  {
    if |rows| > 0 {
      OthersOfHomogeneous(rows[1..], rid);
    }
  }

  /**
   Replacing twice is replacing once with the second list: the latest ranking
   wins and nothing is left over from an earlier one. In particular saving the
   same ranking twice is the same as saving it once.
   */
  lemma ReplaceLastWins(table: seq<SuggestionRow>, rid: int, first: seq<int>, second: seq<int>)
    ensures Replace(Replace(table, rid, first), rid, second) == Replace(table, rid, second)
  {
    var kept := Others(table, rid);
    OthersAppend(kept, Ranked(rid, first), rid);
    OthersOfForeign(kept, rid);
    OthersOfHomogeneous(Ranked(rid, first), rid);
  }

  // ---------------------------------------------------------------------------
  // The retry loop.
  // ---------------------------------------------------------------------------

  /**
   `save_suggestions`: up to `maxRetries` attempts. A deadlock rolls back and
   tries again; any other `OperationalError` rolls back and is re-raised; any
   other exception passes through untouched; when every allowed attempt
   deadlocked (or none was allowed) the call raises. `attempts` counts the
   attempts made.
   */
  method SaveSuggestions(table: seq<SuggestionRow>, receptionId: int, productIds: seq<int>,
                         failures: seq<AttemptError>, maxRetries: int)
    returns (outcome: SaveOutcome, table': seq<SuggestionRow>, attempts: nat)
    ensures outcome.DeadlockUnresolved? <==> maxRetries <= LeadingDeadlocks(failures)
    ensures outcome.Raised? <==> LeadingDeadlocks(failures) < maxRetries && LeadingDeadlocks(failures) < |failures|
    ensures outcome.Saved? <==> LeadingDeadlocks(failures) < maxRetries && LeadingDeadlocks(failures) == |failures|
    ensures outcome.DeadlockUnresolved? ==> outcome.maxRetries == maxRetries && attempts == (if maxRetries > 0 then maxRetries else 0)
    ensures outcome.Raised? ==> outcome.error == failures[LeadingDeadlocks(failures)] && attempts == LeadingDeadlocks(failures) + 1
    ensures outcome.Saved? ==> table' == Replace(table, receptionId, productIds) && attempts == |failures| + 1
    ensures !outcome.Saved? ==> table' == table
    ensures attempts <= (if maxRetries > 0 then maxRetries else 0)
  {
    var retries := 0;
    attempts := 0;
    table' := table;
    while retries < maxRetries
      invariant attempts == retries <= LeadingDeadlocks(failures)
      invariant retries <= (if maxRetries > 0 then maxRetries else 0)
      invariant table' == table
      decreases maxRetries - retries
    {
      attempts := attempts + 1;
      if retries < |failures| {
        var e := failures[retries];
        if IsDeadlock(e) {
          // rollback; sleep; try again
          retries := retries + 1;
        } else {
          // an OperationalError is rolled back and re-raised; anything else was never caught
          outcome := Raised(e);
          return;
        }
      } else {
        table' := Replace(table, receptionId, productIds);
        outcome := Saved;
        return;
      }
    }
    outcome := DeadlockUnresolved(maxRetries);
  }
}
