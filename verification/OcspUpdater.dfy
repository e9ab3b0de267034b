/** The updater's tick for revoked certificates (cmd/ocsp-updater/main.go): which rows it answers,
    and how many ticks clear the backlog. */
module OcspUpdater {
  import opened Prelude
  import opened Ocsp

  // ---------------------------------------------------------------- the revoked backlog

  /** `WHERE status = revoked AND ocspLastUpdated <= revokedDate`. */
  function Backlog(t: Table): set<string> {
    set serial | serial in t && t[serial].status.Revoked? && t[serial].ocspLastUpdated <= t[serial].revokedDate
  }

  /** Any batchSize of the rows in the backlog, or all of them. */
  method FindRevokedCertificatesToUpdate(t: Table, batchSize: nat) returns (serials: seq<string>)
    ensures forall i | 0 <= i < |serials| :: serials[i] in Backlog(t)
    ensures forall i, j | 0 <= i < j < |serials| :: serials[i] != serials[j]
    ensures |serials| == Min(batchSize, |Backlog(t)|)
  {
    var left := Backlog(t);
    serials := [];
    while |serials| < batchSize && left != {}
      invariant left <= Backlog(t) && |serials| <= batchSize
      invariant forall i | 0 <= i < |serials| :: serials[i] in Backlog(t) && serials[i] !in left
      invariant forall i, j | 0 <= i < j < |serials| :: serials[i] != serials[j]
      invariant |serials| + |left| == |Backlog(t)|
      decreases left
    {
      var serial := Pick(left);
      serials := serials + [serial];
      left := left - {serial};
    }
  }

  /** In t' the rows `done` carry a revoked response signed at one of the clock readings; every
      other row is as in t. */
  predicate Answered(t: Table, t': Table, done: set<string>, clock: seq<int>) {
    && t'.Keys == t.Keys
    && (forall serial | serial in t && serial !in done :: t'[serial] == t[serial])
    && (forall serial | serial in t && serial in done ::
          && t'[serial].ocspLastUpdated in clock
          && t'[serial] == t[serial].(response := Some(Response(serial, Revoked)),
                                      ocspLastUpdated := t'[serial].ocspLastUpdated))
  }

  /** Every clock reading is later than every revocation among the rows. */
  predicate Prompt(t: Table, done: set<string>, clock: seq<int>)
    requires done <= t.Keys
  {
    forall serial, now | serial in done && now in clock :: now > t[serial].revokedDate
  }

  /** Rows answered strictly after their revocation leave the backlog. */
  lemma AnsweredLeaves(t: Table, t': Table, done: set<string>, clock: seq<int>)
    requires Answered(t, t', done, clock) && done <= Backlog(t) && Prompt(t, done, clock)
    ensures Backlog(t') == Backlog(t) - done && |Backlog(t')| == |Backlog(t)| - |done|
  {
  }

  lemma StoreAnswers(t: Table, t': Table, done: set<string>, clock: seq<int>, serial: string, now: int)
    requires Answered(t, t', done, clock) && serial in Backlog(t) && serial !in done && now in clock
    ensures Answered(t, StoreResponse(t', Signed(serial, Revoked, Response(serial, Revoked), now)), done + {serial}, clock)
  {
  }

  /** One tick in which every selected row is signed, after its revocation, and stored. */
  ghost predicate CleanTick(t: Table, t': Table, batchSize: nat) {
    exists done, clock :: IsCleanTick(t, t', batchSize, done, clock)
  }

  predicate IsCleanTick(t: Table, t': Table, batchSize: nat, done: set<string>, clock: seq<int>) {
    && Answered(t, t', done, clock) && done <= Backlog(t) && Prompt(t, done, clock)
    && |done| == Min(batchSize, |Backlog(t)|)
  }

  /** A row of the backlog that a tick leaves there is still the same row. */
  lemma AnsweredKeepsOthers(t: Table, t': Table, batchSize: nat, clock: seq<int>)
    requires CleanTick(t, t', batchSize) && Backlog(t) <= t.Keys && Prompt(t, Backlog(t), clock)
    ensures Backlog(t') <= Backlog(t) && Prompt(t', Backlog(t'), clock)
  {
    var done, readings :| IsCleanTick(t, t', batchSize, done, readings);
    AnsweredLeaves(t, t', done, readings);
  }

  class Updater {
    var table: Table

    /** revokedCertificatesTick, given the clock readings it will take and the serials for
        which the CA signs and the database stores. A failure to sign ends the tick; a failure
        to store does not. */
    method RevokedCertificatesTick(batchSize: nat, clock: seq<int>, signs: set<string>, stores: set<string>)
      returns (err: bool, ghost done: set<string>)
      requires |clock| >= batchSize
      modifies this
      ensures Answered(old(table), table, done, clock)
      ensures done <= old(Backlog(table)) * signs * stores && |done| <= batchSize
      ensures old(Backlog(table)) <= signs ==> !err
      ensures old(Backlog(table)) <= signs * stores ==> |done| == Min(batchSize, |old(Backlog(table))|)
      ensures old(Backlog(table)) <= signs * stores && Prompt(old(table), old(Backlog(table)), clock) ==>
                CleanTick(old(table), table, batchSize)
    {
      err, done := false, {};
      var serials := FindRevokedCertificatesToUpdate(table, batchSize);
      var i := 0;
      while i < |serials| && !err
        invariant 0 <= i <= |serials|
        invariant Answered(old(table), table, done, clock)
        invariant done <= old(Backlog(table)) * signs * stores && |done| <= i
        invariant forall k | i <= k < |serials| :: serials[k] !in done
        invariant old(Backlog(table)) <= signs ==> !err
        invariant old(Backlog(table)) <= signs * stores ==> |done| == i
        decreases |serials| - i, !err
      {
        var serial := serials[i];
        if serial !in signs {
          err := true;
        } else {
          if serial in stores {
            StoreAnswers(old(table), table, done, clock, serial, clock[i]);
            table := StoreResponse(table, Signed(serial, Revoked, Response(serial, Revoked), clock[i]));
            done := done + {serial};
          }
          i := i + 1;
        }
      }
      assert old(Backlog(table)) <= signs * stores && Prompt(old(table), old(Backlog(table)), clock) ==>
               IsCleanTick(old(table), table, batchSize, done, clock);
    }

    /** One tick for each list of clock readings, all after the revocations, with nothing failing
        and no new revocation: the backlog is clear if and only if there were enough of them. */
    method RevokedCertificatesTicks(batchSize: nat, clocks: seq<seq<int>>, signs: set<string>, stores: set<string>)
      requires batchSize > 0 && Backlog(table) <= signs * stores
      requires forall k | 0 <= k < |clocks| :: |clocks[k]| >= batchSize && Prompt(table, Backlog(table), clocks[k])
      modifies this
      ensures Backlog(table) == {} <==> |clocks| >= (|old(Backlog(table))| + batchSize - 1) / batchSize
    {
      ghost var tables := [table];
      for k := 0 to |clocks|
        invariant |tables| == k + 1 && tables[0] == old(table) && tables[k] == table
        invariant Backlog(table) <= signs * stores
        invariant forall i | k <= i < |clocks| :: Prompt(table, Backlog(table), clocks[i])
        invariant forall i | 0 <= i < k :: CleanTick(tables[i], tables[i + 1], batchSize)
      {
        ghost var before := table;
        var err, done := RevokedCertificatesTick(batchSize, clocks[k], signs, stores);
        forall i | k <= i < |clocks| ensures Backlog(table) <= Backlog(before) && Prompt(table, Backlog(table), clocks[i]) {
          AnsweredKeepsOthers(before, table, batchSize, clocks[i]);
        }
        tables := tables + [table];
      }
      TicksClearBacklog(tables, batchSize, |clocks|);
    }
  }

  /** In every reachable state a revoked certificate has a response that says so or is waiting for
      one, also after a response was lost. */
  lemma RevokedIsAnsweredOrWaiting(s: System, serial: string)
    requires Reachable(s) && serial in s.table && s.table[serial].status.Revoked?
    ensures SaysRevoked(s, serial) || serial in Backlog(s.table)
  {
    if serial !in Backlog(s.table) {
      FreshResponseSaysRevoked(s, serial);
    }
  }

  /** The size of the backlog after each error-free tick. */
  predicate Draining(sizes: seq<nat>, batchSize: nat) {
    forall k | 0 <= k < |sizes| - 1 :: sizes[k + 1] == sizes[k] - Min(batchSize, sizes[k])
  }

  /** Without new revocations, ceil(n / batchSize) error-free ticks clear a backlog of n, and
      no fewer do. */
  lemma BacklogClears(sizes: seq<nat>, batchSize: nat, k: nat)
    requires batchSize > 0 && k < |sizes| && Draining(sizes, batchSize)
    ensures sizes[k] == 0 <==> k >= (sizes[0] + batchSize - 1) / batchSize
  {
    DrainedBy(sizes, batchSize, k);
    CeilIsLeast(sizes[0], batchSize, k);
  }

  lemma CeilIsLeast(n: nat, b: nat, k: nat)
    requires b > 0
    ensures k * b >= n <==> k >= (n + b - 1) / b
  {
    var need, r := (n + b - 1) / b, (n + b - 1) % b;
    DividedBy(n + b - 1, b);
    if k >= need {
      TimesKeepsOrder(need, k, b);
    } else {
      TimesKeepsOrder(k + 1, need, b);
      OneMore(k, b);
    }
  }

  lemma DividedBy(n: nat, b: nat)
    requires b > 0
    ensures n == n / b * b + n % b && n % b < b
  {
  }

  lemma TimesKeepsOrder(x: nat, y: nat, b: nat)
    requires x <= y
    ensures x * b <= y * b
  {
  }

  lemma OneMore(k: nat, b: nat)
    ensures (k + 1) * b == k * b + b
  {
  }

  lemma {:induction false} DrainedBy(sizes: seq<nat>, batchSize: nat, k: nat)
    requires k < |sizes| && Draining(sizes, batchSize)
    ensures sizes[k] == if k * batchSize >= sizes[0] then 0 else sizes[0] - k * batchSize
  {
    if k > 0 {
      DrainedBy(sizes, batchSize, k - 1);
      assert k * batchSize == (k - 1) * batchSize + batchSize;
    }
  }

  lemma TicksClearBacklog(tables: seq<Table>, batchSize: nat, k: nat)
    requires batchSize > 0 && k < |tables|
    requires forall i | 0 <= i < |tables| - 1 :: CleanTick(tables[i], tables[i + 1], batchSize)
    ensures Backlog(tables[k]) == {} <==> k >= (|Backlog(tables[0])| + batchSize - 1) / batchSize
  {
    var sizes := seq(|tables|, i requires 0 <= i < |tables| => |Backlog(tables[i])|);
    forall i | 0 <= i < |sizes| - 1 ensures sizes[i + 1] == sizes[i] - Min(batchSize, sizes[i]) {
      assert CleanTick(tables[i], tables[i + 1], batchSize);
      var done, clock :| IsCleanTick(tables[i], tables[i + 1], batchSize, done, clock);
      AnsweredLeaves(tables[i], tables[i + 1], done, clock);
    }
    BacklogClears(sizes, batchSize, k);
  }
}
