/**
 * What a database connection records of a session: the statements it
 * accepted, in order, and whether the session ended in a commit. A refused
 * statement raises, so nothing after it runs and nothing is committed.
 */
module Sessions {
  import opened Store

  /**
   * What the connection records when `stmts` are executed in order and
   * `rejects` says which statements the database refuses: the accepted
   * statements up to the first refusal, and the commit only when none is
   * refused (the refusal raises, so `commit` is never reached).
   */
  function Session(stmts: seq<string>, rejects: string -> bool): seq<Event>
    decreases |stmts|
  {
    if stmts == [] then [Committed]
    else if rejects(stmts[0]) then []
    else [Executed(stmts[0])] + Session(stmts[1..], rejects)
  }

  /** How many statements are accepted before the first refusal. */
  function AcceptedPrefix(stmts: seq<string>, rejects: string -> bool): (k: nat)
    ensures k <= |stmts|
    decreases |stmts|
  {
    if stmts == [] || rejects(stmts[0]) then 0 else 1 + AcceptedPrefix(stmts[1..], rejects)
  }

  /** The executions of `stmts`, in order. */
  function Executions(stmts: seq<string>): seq<Event> {
    seq(|stmts|, i requires 0 <= i < |stmts| => Executed(stmts[i]))
  }

  /**
   * The session is the executions of the accepted prefix, followed by one
   * commit exactly when every statement was accepted.
   */
  lemma {:induction false} SessionShape(stmts: seq<string>, rejects: string -> bool)
    ensures var k := AcceptedPrefix(stmts, rejects);
      && (forall i :: 0 <= i < k ==> !rejects(stmts[i]))
      && (k < |stmts| ==> rejects(stmts[k]))
      && Session(stmts, rejects) == Executions(stmts[..k]) + (if k == |stmts| then [Committed] else [])
    decreases |stmts|
  {
    if stmts != [] && !rejects(stmts[0]) {
      var k := AcceptedPrefix(stmts, rejects);
      SessionShape(stmts[1..], rejects);
      assert stmts[1..][..k - 1] == stmts[1..k];
      assert Executions(stmts[..k]) == [Executed(stmts[0])] + Executions(stmts[1..k]);
      forall i | 0 <= i < k
        ensures !rejects(stmts[i])
      {
        if i > 0 {
          assert stmts[i] == stmts[1..][i - 1];
        }
      }
    } else {
      assert stmts[..0] == [];
    }
  }

  /**
   * The session commits at most once, only as its last event, and exactly
   * when no statement is refused; every other event executes a statement.
   */
  lemma CommitsOnce(stmts: seq<string>, rejects: string -> bool)
    ensures var e := Session(stmts, rejects);
      && (Committed in e <==> forall i :: 0 <= i < |stmts| ==> !rejects(stmts[i]))
      && (Committed in e ==> e[|e| - 1] == Committed)
      && (forall i :: 0 <= i < |e| - 1 ==> e[i].Executed?)
      && (forall i :: 0 <= i < |e| && e[i].Executed? ==> i < |stmts| && e[i].sql == stmts[i])
  {
    SessionShape(stmts, rejects);
    var k := AcceptedPrefix(stmts, rejects);
    var e := Session(stmts, rejects);
    var ex := Executions(stmts[..k]);
    assert Committed !in ex by {
      forall i | 0 <= i < |ex| ensures ex[i] != Committed { }
    }
  }

  /** When the first `k` statements are accepted and the next, if any, is refused, `k` statements are accepted. */
  lemma {:induction false} AcceptedPrefixIs(stmts: seq<string>, k: nat, rejects: string -> bool)
    requires k <= |stmts|
    requires forall i :: 0 <= i < k ==> !rejects(stmts[i])
    requires k < |stmts| ==> rejects(stmts[k])
    ensures AcceptedPrefix(stmts, rejects) == k
    decreases k
  {
    if k > 0 {
      forall i | 0 <= i < k - 1
        ensures !rejects(stmts[1..][i])
      {
        assert stmts[1..][i] == stmts[i + 1];
      }
      if k - 1 < |stmts| - 1 {
        assert stmts[1..][k - 1] == stmts[k];
      }
      AcceptedPrefixIs(stmts[1..], k - 1, rejects);
    }
  }

  /**
   * A session whose first `k` statements are accepted and whose next one, if
   * any, is refused records exactly those `k` executions, and commits exactly
   * when `k` is the whole plan.
   */
  lemma SessionStopsAt(stmts: seq<string>, k: nat, rejects: string -> bool)
    requires k <= |stmts|
    requires forall i :: 0 <= i < k ==> !rejects(stmts[i])
    requires k < |stmts| ==> rejects(stmts[k])
    ensures Session(stmts, rejects) == Executions(stmts[..k]) + (if k == |stmts| then [Committed] else [])
    ensures Committed in Session(stmts, rejects) <==> k == |stmts|
  {
    AcceptedPrefixIs(stmts, k, rejects);
    SessionShape(stmts, rejects);
    CommitsOnce(stmts, rejects);
  }

  /**
   * One `cur.execute` call within a session: `sql` is the next statement and
   * `next` the statements planned after it; `goal` is the journal the whole
   * session leads to. After an accepted statement the rest of the plan still
   * leads there, and commits exactly when the plan did; after a refusal the
   * journal is already final and holds no commit.
   */
  method ExecuteNext(wh: Warehouse, sql: string, ghost next: seq<string>, rejects: string -> bool, ghost goal: seq<Event>)
    returns (ok: bool)
    requires wh.journal + Session([sql] + next, rejects) == goal
    modifies wh
    ensures ok == !rejects(sql) && wh.tables == old(wh.tables)
    ensures ok ==> wh.journal + Session(next, rejects) == goal
    ensures ok ==> (Committed in Session([sql] + next, rejects) <==> Committed in Session(next, rejects))
    ensures !ok ==> wh.journal == goal && Committed !in Session([sql] + next, rejects)
  {
    ghost var before := wh.journal;
    ghost var rest := [sql] + next;
    assert rest[0] == sql && rest[1..] == next;
    ok := wh.Execute(sql, rejects);
    if ok {
      assert Session(rest, rejects) == [Executed(sql)] + Session(next, rejects);
      calc {
        wh.journal + Session(next, rejects);
        (before + [Executed(sql)]) + Session(next, rejects);
        before + ([Executed(sql)] + Session(next, rejects));
      }
    } else {
      assert Session(rest, rejects) == [];
      assert before + [] == before;
    }
  }
}
