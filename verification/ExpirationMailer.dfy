/** The expiration mailer (cmd/expiration-mailer/main.go): certificates close to expiry are mailed
    about once for each nag window, as long as the time of the last nag gets stored. */
module ExpirationMailer {
  import opened Prelude

  /** A row of certificateStatus, with the account from certificates; times are in seconds. */
  datatype Row = Row(regID: int, notAfter: int, revoked: bool, lastNag: Option<int>)

  /** One certificate in a mail that was sent, and whether the nag was recorded. */
  datatype Mail = Mail(serial: string, window: nat, stored: bool)

  datatype State = State(rows: map<string, Row>, log: seq<Mail>)

  /** Nag times as they are sorted at start-up. */
  predicate Ascending(nags: seq<int>) {
    forall i, j | 0 <= i < j < |nags| :: nags[i] <= nags[j]
  }

  function Left(nags: seq<int>, i: nat, now: int): int
    requires i < |nags|
  {
    if i > 0 then now + nags[i - 1] else now
  }

  predicate InWindow(nags: seq<int>, i: nat, now: int, notAfter: int) {
    i < |nags| && Left(nags, i, now) < notAfter <= now + nags[i]
  }

  /** No nag was sent this close to expiry. */
  predicate Unnagged(row: Row, nag: int) {
    row.lastNag.None? || row.notAfter - row.lastNag.value > nag
  }

  /** The WHERE clause apart from the status. */
  predicate Due(nags: seq<int>, row: Row, i: nat, now: int) {
    InWindow(nags, i, now, row.notAfter) && Unnagged(row, nags[i])
  }

  // ---------------------------------------------------------------- windows

  lemma {:induction false} FirstAtLeast(nags: seq<int>, d: int) returns (i: nat)
    requires |nags| > 0 && d <= nags[|nags| - 1]
    ensures i < |nags| && d <= nags[i]
    ensures i > 0 ==> nags[i - 1] < d
  {
    if |nags| > 1 && d <= nags[|nags| - 2] {
      i := FirstAtLeast(nags[..|nags| - 1], d);
    } else {
      i := |nags| - 1;
    }
  }

  lemma WindowsDisjoint(nags: seq<int>, now: int, notAfter: int, i: nat, j: nat)
    requires Ascending(nags) && i < j
    ensures !(InWindow(nags, i, now, notAfter) && InWindow(nags, j, now, notAfter))
  {
  }

  /** The windows of one run cover the interval up to the last nag time. */
  lemma WindowsCover(nags: seq<int>, now: int, notAfter: int)
    requires Ascending(nags) && |nags| > 0
    ensures (exists i :: InWindow(nags, i, now, notAfter)) <==>
            now + Min(0, nags[0]) < notAfter <= now + nags[|nags| - 1]
  {
    var last := |nags| - 1;
    if now + Min(0, nags[0]) < notAfter <= now + nags[last] {
      var i := FirstAtLeast(nags, notAfter - now);
      assert InWindow(nags, i, now, notAfter);
    }
    forall i: nat | InWindow(nags, i, now, notAfter) ensures now + Min(0, nags[0]) < notAfter <= now + nags[last] {
      assert i <= 1 || nags[0] <= nags[i - 1];
      assert i == last || nags[i] <= nags[last];
    }
  }

  // ---------------------------------------------------------------- the machine

  /** What can happen to the tables: the mailer sends a nag and tries to store its time, or stores
      the time without a mail; certificates are issued and revoked. */
  datatype Step =
    | Mailed(serial: string, window: nat, now: int, at: int, stored: bool)
    | Noted(serial: string, window: nat, now: int, at: int)
    | Issued(serial: string, regID: int, notAfter: int)
    | Revoked(serial: string)

  /** A nag for a row that was due when the run began at `now`, stored no earlier than that. */
  predicate Enabled(nags: seq<int>, s: State, serial: string, window: nat, now: int, at: int) {
    serial in s.rows && Due(nags, s.rows[serial], window, now) && at >= now
  }

  function Nagged(rows: map<string, Row>, serial: string, at: int): map<string, Row>
    requires serial in rows
  {
    rows[serial := rows[serial].(lastNag := Some(at))]
  }

  function Apply(nags: seq<int>, s: State, step: Step): State {
    match step
    case Mailed(serial, window, now, at, stored) =>
      if !Enabled(nags, s, serial, window, now, at) then s
      else State(if stored then Nagged(s.rows, serial, at) else s.rows, s.log + [Mail(serial, window, stored)])
    case Noted(serial, window, now, at) =>
      if !Enabled(nags, s, serial, window, now, at) then s else s.(rows := Nagged(s.rows, serial, at))
    case Issued(serial, regID, notAfter) =>
      if serial in s.rows then s else s.(rows := s.rows[serial := Row(regID, notAfter, false, None)])
    case Revoked(serial) =>
      if serial !in s.rows then s else s.(rows := s.rows[serial := s.rows[serial].(revoked := true)])
  }

  function Run(nags: seq<int>, s: State, steps: seq<Step>): State {
    if |steps| == 0 then s else Apply(nags, Run(nags, s, steps[..|steps| - 1]), steps[|steps| - 1])
  }

  lemma RunSnoc(nags: seq<int>, s: State, steps: seq<Step>, step: Step)
    ensures Run(nags, s, steps + [step]) == Apply(nags, Run(nags, s, steps), step)
  {
  }

  lemma RunOne(nags: seq<int>, s: State, step: Step)
    ensures Run(nags, s, [step]) == Apply(nags, s, step)
  {
    assert [step][..0] == [];
  }

  lemma {:induction false} RunSplit(nags: seq<int>, s: State, a: seq<Step>, b: seq<Step>)
    ensures Run(nags, s, a + b) == Run(nags, Run(nags, s, a), b)
  {
    if |b| == 0 {
      assert a + b == a;
    } else {
      assert (a + b)[..|a + b| - 1] == a + b[..|b| - 1];
      RunSplit(nags, s, a, b[..|b| - 1]);
    }
  }

  // ---------------------------------------------------------------- the invariant

  /** The last nag of the certificate of a stored mail is at least as close to expiry as the
      window of the mail. */
  predicate Recorded(nags: seq<int>, rows: map<string, Row>, m: Mail) {
    && m.window < |nags|
    && m.serial in rows
    && (m.stored ==> !Unnagged(rows[m.serial], nags[m.window]))
  }

  /** After a stored mail, further mails about the certificate are for narrower windows. */
  predicate Narrowing(log: seq<Mail>) {
    forall k, l | 0 <= k < l < |log| && log[k].serial == log[l].serial && log[k].stored :: log[l].window < log[k].window
  }

  predicate Inv(nags: seq<int>, s: State) {
    (forall m | m in s.log :: Recorded(nags, s.rows, m)) && Narrowing(s.log)
  }

  /** A due row was only mailed for wider windows. */
  lemma DueIsNarrower(nags: seq<int>, s: State, serial: string, window: nat, now: int, m: Mail)
    requires Ascending(nags) && Inv(nags, s) && m in s.log && m.serial == serial && m.stored
    requires serial in s.rows && Due(nags, s.rows[serial], window, now)
    ensures nags[window] < nags[m.window] && window < m.window
  {
  }

  /** Storing the time of a nag keeps every mail recorded. */
  lemma NaggedKeeps(nags: seq<int>, s: State, serial: string, window: nat, now: int, at: int, m: Mail)
    requires Ascending(nags) && Inv(nags, s) && Enabled(nags, s, serial, window, now, at) && m in s.log
    ensures Recorded(nags, Nagged(s.rows, serial, at), m)
  {
  }

  lemma MailedKeeps(nags: seq<int>, s: State, serial: string, window: nat, now: int, at: int, stored: bool)
    requires Ascending(nags) && Inv(nags, s) && Enabled(nags, s, serial, window, now, at)
    ensures Inv(nags, Apply(nags, s, Mailed(serial, window, now, at, stored)))
  {
    var s' := Apply(nags, s, Mailed(serial, window, now, at, stored));
    var mail := Mail(serial, window, stored);
    forall m | m in s'.log ensures Recorded(nags, s'.rows, m) {
      if m in s.log {
        NaggedKeeps(nags, s, serial, window, now, at, m);
      } else {
        assert m == mail;
      }
    }
    forall k, l | 0 <= k < l < |s'.log| && s'.log[k].serial == s'.log[l].serial && s'.log[k].stored
      ensures s'.log[l].window < s'.log[k].window
    {
      if l == |s.log| {
        assert s.log[k] in s.log;
        DueIsNarrower(nags, s, serial, window, now, s.log[k]);
      }
    }
  }

  lemma StepKeeps(nags: seq<int>, s: State, step: Step)
    requires Ascending(nags) && Inv(nags, s)
    ensures Inv(nags, Apply(nags, s, step))
  {
    match step
    case Mailed(serial, window, now, at, stored) =>
      if Enabled(nags, s, serial, window, now, at) {
        MailedKeeps(nags, s, serial, window, now, at, stored);
      }
    case Noted(serial, window, now, at) =>
      if Enabled(nags, s, serial, window, now, at) {
        forall m | m in s.log ensures Recorded(nags, Nagged(s.rows, serial, at), m) {
          NaggedKeeps(nags, s, serial, window, now, at, m);
        }
      }
    case Issued(serial, regID, notAfter) =>
      assert forall m | m in s.log :: Recorded(nags, s.rows, m);
    case Revoked(serial) =>
      assert forall m | m in s.log :: Recorded(nags, s.rows, m);
  }

  lemma {:induction false} RunKeeps(nags: seq<int>, s: State, steps: seq<Step>)
    requires Ascending(nags) && Inv(nags, s)
    ensures Inv(nags, Run(nags, s, steps))
  {
    if |steps| > 0 {
      RunKeeps(nags, s, steps[..|steps| - 1]);
      StepKeeps(nags, Run(nags, s, steps[..|steps| - 1]), steps[|steps| - 1]);
    }
  }

  /** What storing the time of a nag is for: the certificate is not due again in its window or a wider
      one, whenever the next run begins. */
  lemma NaggedIsNotDue(nags: seq<int>, row: Row, i: nat, now: int, at: int, j: nat, later: int)
    requires Ascending(nags) && Due(nags, row, i, now) && at >= now && i <= j
    ensures !Due(nags, row.(lastNag := Some(at)), j, later)
  {
    assert j < |nags| ==> nags[i] <= nags[j] || i == j;
  }

  /** A certificate nagged at `at` is due in a window if and only if the window holds its expiry now and
      was not yet reached when it was nagged. */
  lemma DueAgainIff(nags: seq<int>, row: Row, i: nat, at: int, now: int)
    requires i < |nags| && row.lastNag == Some(at)
    ensures Due(nags, row, i, now) <==>
            now + (if i == 0 then 0 else nags[i - 1]) < row.notAfter <= now + nags[i] && at + nags[i] < row.notAfter
  {
  }

  /** One that was never nagged is due whenever the window holds its expiry. */
  lemma DueFirstIff(nags: seq<int>, row: Row, i: nat, now: int)
    requires i < |nags| && row.lastNag == None
    ensures Due(nags, row, i, now) <==> now + (if i == 0 then 0 else nags[i - 1]) < row.notAfter <= now + nags[i]
  {
  }

  /** A stored nag changes nothing but the time of the last nag of its certificate. */
  lemma StoredNag(nags: seq<int>, s: State, serial: string, window: nat, now: int, at: int)
    requires Enabled(nags, s, serial, window, now, at)
    ensures var s' := Apply(nags, s, Mailed(serial, window, now, at, true));
            && s'.rows.Keys == s.rows.Keys && s'.rows[serial].lastNag == Some(at)
            && (forall other | other in s.rows && other != serial :: s'.rows[other] == s.rows[other])
            && s'.rows[serial].(lastNag := s.rows[serial].lastNag) == s.rows[serial]
            && s'.log == s.log + [Mail(serial, window, true)]
  {
  }

  /** A certificate that is mailed about in one window is due again in every narrower one, as soon as a
      run begins while that window holds its expiry. */
  lemma NarrowerIsDueAgain(nags: seq<int>, s: State, serial: string, j: nat, now: int, i: nat, later: int)
    requires Ascending(nags) && i < j && serial in s.rows && Due(nags, s.rows[serial], j, now)
    requires later + (if i == 0 then 0 else nags[i - 1]) < s.rows[serial].notAfter <= later + nags[i]
    ensures var s' := Apply(nags, s, Mailed(serial, j, now, now, true));
            Due(nags, s'.rows[serial], i, later)
  {
    assert i == j - 1 || nags[i] <= nags[j - 1];
  }

  // ---------------------------------------------------------------- how often a certificate is mailed about

  function CountMails(log: seq<Mail>, serial: string): nat {
    if |log| == 0 then 0
    else CountMails(log[..|log| - 1], serial) + if log[|log| - 1].serial == serial then 1 else 0
  }

  /** The nags about a certificate were all recorded. */
  predicate AllStored(log: seq<Mail>, serial: string) {
    forall m | m in log && m.serial == serial :: m.stored
  }

  /** With windows that only get narrower there is room for one mail in each. */
  lemma {:induction false} NarrowedBound(log: seq<Mail>, serial: string, low: nat, n: nat)
    requires Narrowing(log) && AllStored(log, serial) && low <= n
    requires forall m | m in log && m.serial == serial :: low <= m.window < n
    ensures CountMails(log, serial) <= n - low
    decreases |log|
  {
    if |log| > 0 {
      var front, last := log[..|log| - 1], log[|log| - 1];
      assert forall m | m in front :: m in log;
      if last.serial == serial {
        forall m | m in front && m.serial == serial ensures last.window < m.window {
          var k :| 0 <= k < |front| && front[k] == m;
          assert log[k] == m && log[k].stored;
        }
        assert last in log;
        NarrowedBound(front, serial, last.window + 1, n);
      } else {
        NarrowedBound(front, serial, low, n);
      }
    }
  }

  /** Over any run: a certificate whose nags are recorded is mailed about at most once in each
      window, in windows that get narrower, and so at most as often as there are nag times. */
  lemma MailedOncePerWindow(nags: seq<int>, s: State, steps: seq<Step>, serial: string)
    requires Ascending(nags) && s.log == []
    requires AllStored(Run(nags, s, steps).log, serial)
    ensures var log := Run(nags, s, steps).log;
            && (forall k, l | 0 <= k < l < |log| && log[k].serial == log[l].serial == serial :: log[l].window < log[k].window)
            && CountMails(log, serial) <= |nags|
  {
    RunKeeps(nags, s, steps);
    var log := Run(nags, s, steps).log;
    assert forall m | m in log :: Recorded(nags, Run(nags, s, steps).rows, m);
    NarrowedBound(log, serial, 0, |nags|);
  }

  /** The nag times are positive and all different, so no window is empty. */
  predicate Spread(nags: seq<int>) {
    (|nags| > 0 ==> nags[0] > 0) && forall i, j | 0 <= i < j < |nags| :: nags[i] < nags[j]
  }

  /** The certificate has been mailed about in the windows from k on, last when it reached window k. */
  predicate NaggedDownTo(nags: seq<int>, s: State, serial: string, row: Row, k: nat)
    requires k <= |nags|
  {
    && serial in s.rows
    && s.rows[serial] == row.(lastNag := if k == |nags| then None else Some(row.notAfter - nags[k]))
    && CountMails(s.log, serial) == |nags| - k && AllStored(s.log, serial)
  }

  lemma CountMailsSnoc(log: seq<Mail>, m: Mail)
    ensures CountMails(log + [m], m.serial) == CountMails(log, m.serial) + 1
    ensures AllStored(log, m.serial) && m.stored ==> AllStored(log + [m], m.serial)
  {
    assert (log + [m])[..|log|] == log;
  }

  lemma NaggingStep(nags: seq<int>, s: State, serial: string, row: Row, k: nat)
    requires Spread(nags) && k < |nags| && NaggedDownTo(nags, s, serial, row, k + 1)
    ensures NaggedDownTo(nags, Apply(nags, s, Mailed(serial, k, row.notAfter - nags[k], row.notAfter - nags[k], true)), serial, row, k)
  {
    assert k > 0 ==> nags[k - 1] < nags[k];
    assert k + 1 < |nags| ==> nags[k] < nags[k + 1];
    assert Enabled(nags, s, serial, k, row.notAfter - nags[k], row.notAfter - nags[k]);
    CountMailsSnoc(s.log, Mail(serial, k, true));
  }

  /** A mail in each window, from the widest down to window k, at the moment the window is reached. */
  lemma {:induction false} NaggingMails(nags: seq<int>, s: State, serial: string, row: Row, k: nat) returns (steps: seq<Step>)
    requires Spread(nags) && k <= |nags| && NaggedDownTo(nags, s, serial, row, |nags|)
    ensures NaggedDownTo(nags, Run(nags, s, steps), serial, row, k)
    decreases |nags| - k
  {
    if k == |nags| {
      steps := [];
    } else {
      var wider := NaggingMails(nags, s, serial, row, k + 1);
      var step := Mailed(serial, k, row.notAfter - nags[k], row.notAfter - nags[k], true);
      NaggingStep(nags, Run(nags, s, wider), serial, row, k);
      RunSnoc(nags, s, wider, step);
      steps := wider + [step];
    }
  }

  /** A window without mails makes room for one less. */
  lemma {:induction false} HoledBound(log: seq<Mail>, serial: string, low: nat, hole: nat, n: nat)
    requires Narrowing(log) && AllStored(log, serial) && low <= hole < n
    requires forall m | m in log && m.serial == serial :: low <= m.window < n && m.window != hole
    ensures CountMails(log, serial) < n - low
    decreases |log|
  {
    if |log| > 0 {
      var front, last := log[..|log| - 1], log[|log| - 1];
      assert forall m | m in front :: m in log;
      if last.serial == serial {
        forall m | m in front && m.serial == serial ensures last.window < m.window {
          var k :| 0 <= k < |front| && front[k] == m;
          assert log[k] == m && log[k].stored;
        }
        assert last in log;
        if last.window < hole {
          HoledBound(front, serial, last.window + 1, hole, n);
        } else {
          NarrowedBound(front, serial, last.window + 1, n);
        }
      } else {
        HoledBound(front, serial, low, hole, n);
      }
    }
  }

  /** Only windows that are not empty are mailed in. */
  lemma {:induction false} MailedWindows(nags: seq<int>, s: State, steps: seq<Step>, m: Mail)
    requires s.log == [] && m in Run(nags, s, steps).log
    ensures m.window < |nags| && (if m.window == 0 then 0 else nags[m.window - 1]) < nags[m.window]
  {
    if |steps| > 0 && m in Run(nags, s, steps[..|steps| - 1]).log {
      MailedWindows(nags, s, steps[..|steps| - 1], m);
    }
  }

  ghost predicate MailedForEveryWindow(nags: seq<int>, s: State, serial: string) {
    exists steps :: AllStored(Run(nags, s, steps).log, serial) && CountMails(Run(nags, s, steps).log, serial) == |nags|
  }

  lemma EmptyWindow(nags: seq<int>) returns (hole: nat)
    requires Ascending(nags) && !Spread(nags)
    ensures hole < |nags| && nags[hole] <= if hole == 0 then 0 else nags[hole - 1]
  {
    if nags[0] <= 0 {
      hole := 0;
    } else {
      var i, j :| 0 <= i < j < |nags| && nags[i] >= nags[j];
      assert i == j - 1 || nags[i] <= nags[j - 1];
      hole := j;
    }
  }

  /** The bound is reached, by a certificate that has not been nagged yet, if and only if the nag times
      are positive and all different. */
  lemma BoundIsReachedIff(nags: seq<int>, s: State, serial: string)
    requires Ascending(nags) && s.log == [] && serial in s.rows && s.rows[serial].lastNag == None
    ensures MailedForEveryWindow(nags, s, serial) <==> Spread(nags)
  {
    if Spread(nags) {
      var steps := NaggingMails(nags, s, serial, s.rows[serial], 0);
    } else if MailedForEveryWindow(nags, s, serial) {
      var steps :| AllStored(Run(nags, s, steps).log, serial) && CountMails(Run(nags, s, steps).log, serial) == |nags|;
      var hole := EmptyWindow(nags);
      var log := Run(nags, s, steps).log;
      RunKeeps(nags, s, steps);
      forall m | m in log && m.serial == serial ensures m.window < |nags| && m.window != hole {
        MailedWindows(nags, s, steps, m);
      }
      HoledBound(log, serial, 0, hole, |nags|);
    }
  }

  /** A nag that was not stored is sent again in the same window. */
  lemma UnstoredNagRepeats(nags: seq<int>, s: State, serial: string, window: nat, now: int)
    requires serial in s.rows && Due(nags, s.rows[serial], window, now)
    ensures var step := Mailed(serial, window, now, now, false);
            Run(nags, s, [step, step]).log == s.log + [Mail(serial, window, false), Mail(serial, window, false)]
  {
    var step := Mailed(serial, window, now, now, false);
    assert [step, step] == [] + [step] + [step];
    RunSnoc(nags, s, [], step);
    RunSnoc(nags, s, [] + [step], step);
  }

  // ---------------------------------------------------------------- the mailer

  /** What the mailer finds outside its tables while it works on one window: whether its queries
      and its mail connection work, which certificates parse and are renewed, which accounts exist,
      have contacts, have a mail address and can be sent to, which updates are stored, and the clock
      when a certificate is updated. */
  datatype World = World(loads: bool, connects: bool, parses: set<string>, renewed: set<string>, registered: set<int>, contacts: set<int>,
                         addressed: set<int>, sends: set<int>, stores: set<string>, at: string -> int)

  /** The clock does not go back while a run is under way. */
  ghost predicate Later(w: World, now: int) {
    forall serial :: w.at(serial) >= now
  }

  predicate Distinct(s: seq<string>) {
    forall i, j | 0 <= i < j < |s| :: s[i] != s[j]
  }

  /** A mail about this certificate goes out. */
  predicate Mailable(w: World, serial: string, regID: int) {
    && serial in w.parses && serial !in w.renewed
    && regID in w.registered * w.contacts * w.addressed * w.sends
  }

  /** Some of the certificates listed have another time of the last nag; nothing else has changed. */
  predicate Touched(rows: map<string, Row>, rows': map<string, Row>, serials: seq<string>) {
    && rows'.Keys == rows.Keys
    && (forall s | s in rows :: rows'[s] == rows[s].(lastNag := rows'[s].lastNag))
    && (forall s | s in rows && s !in serials :: rows'[s] == rows[s])
  }

  lemma TouchedMore(rows: map<string, Row>, rows': map<string, Row>, rows'': map<string, Row>, serials: seq<string>, serial: string)
    requires Touched(rows, rows', serials) && (rows'' == rows' || Touched(rows', rows'', [serial]))
    ensures Touched(rows, rows'', serials + [serial])
  {
  }

  /** The rows that the query for a window selects before LIMIT. */
  function Selection(nags: seq<int>, rows: map<string, Row>, i: nat, now: int): set<string> {
    set s | s in rows && !rows[s].revoked && Due(nags, rows[s], i, now)
  }

  /** What the query returns: as many as the limit allows, soonest to expire first. */
  predicate Batch(nags: seq<int>, rows: map<string, Row>, limit: nat, i: nat, now: int, batch: set<string>) {
    SoonestOf(rows, Selection(nags, rows, i, now), limit, batch)
  }

  predicate SoonestOf(rows: map<string, Row>, selection: set<string>, limit: nat, batch: set<string>)
    requires selection <= rows.Keys
  {
    && batch <= selection && |batch| == Min(limit, |selection|)
    && forall s, t | s in batch && t in selection && t !in batch :: rows[s].notAfter <= rows[t].notAfter
  }

  /** ORDER BY notAfter LIMIT. */
  method TakeSoonest(rows: map<string, Row>, selection: set<string>, limit: nat) returns (serials: seq<string>, ghost batch: set<string>)
    requires selection <= rows.Keys
    ensures Distinct(serials) && (forall s :: s in serials <==> s in batch) && |serials| == |batch|
    ensures SoonestOf(rows, selection, limit, batch)
  {
    serials, batch := [], {};
    var rest := selection;
    while rest != {} && |serials| < limit
      invariant rest !! batch && rest + batch == selection
      invariant |serials| == |batch| <= limit
      invariant Distinct(serials) && forall s :: s in serials <==> s in batch
      invariant forall s, t | s in batch && t in rest :: rows[s].notAfter <= rows[t].notAfter
      decreases |rest|
    {
      var s := Soonest(rows, rest);
      serials := serials + [s];
      batch := batch + {s};
      rest := rest - {s};
    }
    assert |selection| == |rest| + |batch|;
  }

  method Soonest(rows: map<string, Row>, serials: set<string>) returns (s: string)
    requires serials != {} && serials <= rows.Keys
    ensures s in serials && forall t | t in serials :: rows[s].notAfter <= rows[t].notAfter
  {
    s := Pick(serials);
    var rest := serials - {s};
    while rest != {}
      invariant rest <= serials && s in serials
      invariant forall t | t in serials - rest :: rows[s].notAfter <= rows[t].notAfter
      decreases |rest|
    {
      var t := Pick(rest);
      if rows[t].notAfter < rows[s].notAfter {
        s := t;
      }
      rest := rest - {t};
    }
  }

  /** A certificate of the batch for which everything that is needed works. */
  predicate MailedAbout(w: World, rows: map<string, Row>, batch: set<string>, s: string) {
    s in batch && s in rows && w.connects && Mailable(w, s, rows[s].regID)
  }

  /** Where the limit does not cut anything off, a certificate is mailed about in a window if and only if
      it is not revoked, expires in the window, was not nagged that close to expiry, and nothing that
      is needed fails. */
  lemma MailedAboutIff(nags: seq<int>, rows: map<string, Row>, limit: nat, i: nat, now: int, w: World, batch: set<string>, s: string)
    requires i < |nags| && Batch(nags, rows, limit, i, now, batch) && |batch| < limit
    ensures MailedAbout(w, rows, batch, s) <==>
            && s in rows && !rows[s].revoked
            && now + (if i == 0 then 0 else nags[i - 1]) < rows[s].notAfter <= now + nags[i]
            && (rows[s].lastNag.Some? ==> rows[s].lastNag.value + nags[i] < rows[s].notAfter)
            && w.connects && s in w.parses && s !in w.renewed
            && rows[s].regID in w.registered && rows[s].regID in w.contacts && rows[s].regID in w.addressed && rows[s].regID in w.sends
  {
    SubsetSize(batch, Selection(nags, rows, i, now));
    assert batch == Selection(nags, rows, i, now);
  }

  /** The batches of the windows before `i`, each as the rows were at the start of the run. */
  predicate Batches(nags: seq<int>, rows: map<string, Row>, limit: nat, now: int, batches: seq<set<string>>) {
    forall k | 0 <= k < |batches| :: Batch(nags, rows, limit, k, now, batches[k])
  }

  /** Nothing but nags has been recorded, and only for certificates in the batches. */
  predicate OnlyNagged(rows: map<string, Row>, rows': map<string, Row>, batches: seq<set<string>>) {
    && rows'.Keys == rows.Keys
    && (forall s | s in rows :: rows'[s] == rows[s].(lastNag := rows'[s].lastNag))
    && (forall s | s in rows && (forall k | 0 <= k < |batches| :: s !in batches[k]) :: rows'[s] == rows[s])
  }

  /** What earlier windows did is invisible to the query for the next one. */
  lemma SelectionUntouched(nags: seq<int>, rows: map<string, Row>, rows': map<string, Row>, limit: nat, now: int,
                           batches: seq<set<string>>, i: nat)
    requires Ascending(nags) && i == |batches|
    requires Batches(nags, rows, limit, now, batches) && OnlyNagged(rows, rows', batches)
    ensures Selection(nags, rows', i, now) == Selection(nags, rows, i, now)
    ensures forall s | s in Selection(nags, rows, i, now) :: rows'[s] == rows[s]
  {
    forall s | s in rows && InWindow(nags, i, now, rows[s].notAfter) ensures rows'[s] == rows[s] {
      forall k | 0 <= k < |batches| ensures s !in batches[k] {
        WindowsDisjoint(nags, now, rows[s].notAfter, k, i);
        assert Batch(nags, rows, limit, k, now, batches[k]);
      }
    }
  }

  lemma BatchUntouched(nags: seq<int>, rows: map<string, Row>, rows': map<string, Row>, limit: nat, now: int,
                       batches: seq<set<string>>, batch: set<string>)
    requires Ascending(nags)
    requires Batches(nags, rows, limit, now, batches) && OnlyNagged(rows, rows', batches)
    requires Batch(nags, rows', limit, |batches|, now, batch)
    ensures Batches(nags, rows, limit, now, batches + [batch])
    ensures forall s | s in batch :: s in rows && rows'[s] == rows[s]
  {
    SelectionUntouched(nags, rows, rows', limit, now, batches, |batches|);
    assert Batch(nags, rows, limit, |batches|, now, batch);
  }

  lemma OnlyNaggedMore(rows: map<string, Row>, rows': map<string, Row>, rows'': map<string, Row>,
                       batches: seq<set<string>>, serials: seq<string>, batch: set<string>)
    requires OnlyNagged(rows, rows', batches) && Touched(rows', rows'', serials)
    requires forall s | s in serials :: s in batch
    ensures OnlyNagged(rows, rows'', batches + [batch])
  {
    var all := batches + [batch];
    forall s | s in rows && (forall k | 0 <= k < |all| :: s !in all[k]) ensures rows''[s] == rows[s] {
      assert s !in all[|batches|];
      assert forall k | 0 <= k < |batches| :: s !in all[k];
      assert forall k | 0 <= k < |batches| :: all[k] == batches[k];
    }
  }

  /** Mailed about in one of the windows. */
  predicate MailedBefore(worlds: seq<World>, rows: map<string, Row>, batches: seq<set<string>>, s: string)
    requires |batches| <= |worlds|
  {
    exists k | 0 <= k < |batches| :: MailedAbout(worlds[k], rows, batches[k], s)
  }

  lemma MailedBeforeSnoc(worlds: seq<World>, rows: map<string, Row>, batches: seq<set<string>>, batch: set<string>, s: string)
    requires |batches| < |worlds|
    ensures MailedBefore(worlds, rows, batches + [batch], s)
            <==> MailedBefore(worlds, rows, batches, s) || MailedAbout(worlds[|batches|], rows, batch, s)
  {
    var all := batches + [batch];
    if MailedBefore(worlds, rows, batches, s) {
      var k :| 0 <= k < |batches| && MailedAbout(worlds[k], rows, batches[k], s);
      assert all[k] == batches[k];
    }
    assert all[|batches|] == batch;
  }

  function MailedIn(steps: seq<Step>): set<string> {
    set step | step in steps && step.Mailed? :: step.serial
  }

  class Mailer {
    const nags: seq<int>
    const limit: nat
    var rows: map<string, Row>
    var log: seq<Mail>

    constructor (nags: seq<int>, limit: nat, rows: map<string, Row>)
      ensures this.nags == nags && this.limit == limit && Value() == State(rows, [])
    {
      this.nags, this.limit, this.rows, this.log := nags, limit, rows, [];
    }

    function Value(): State
      reads this
    {
      State(rows, log)
    }

    ghost predicate DueAll(serials: seq<string>, i: nat, now: int)
      reads this
    {
      Distinct(serials) && forall s | s in serials :: s in rows && Due(nags, rows[s], i, now)
    }

    /** updateCertStatus. */
    method UpdateCertStatus(serial: string, w: World)
      requires serial in rows
      modifies this`rows
      ensures rows == if serial in w.stores then Nagged(old(rows), serial, w.at(serial)) else old(rows)
    {
      if serial in w.stores {
        rows := Nagged(rows, serial, w.at(serial));
      }
    }

    /** One certificate in the first loop: whether it is to be mailed about. */
    method ParseCert(serial: string, i: nat, now: int, w: World) returns (keep: bool, ghost steps: seq<Step>)
      requires serial in rows && Due(nags, rows[serial], i, now) && Later(w, now)
      modifies this`rows
      ensures Value() == Run(nags, old(Value()), steps) && MailedIn(steps) == {}
      ensures keep <==> serial in w.parses && serial !in w.renewed
      ensures if keep then rows == old(rows) else Touched(old(rows), rows, [serial])
    {
      keep, steps := serial in w.parses && serial !in w.renewed, [];
      if serial in w.parses && serial in w.renewed {
        if serial in w.stores {
          steps := [Noted(serial, i, now, w.at(serial))];
          RunOne(nags, Value(), steps[0]);
        }
        UpdateCertStatus(serial, w);
      }
    }

    /** The first loop over the certificates of an account: keep those to be mailed about. */
    method ParseCerts(certs: seq<string>, i: nat, now: int, w: World) returns (parsed: seq<string>, ghost steps: seq<Step>)
      requires DueAll(certs, i, now) && Later(w, now)
      modifies this`rows
      ensures Value() == Run(nags, old(Value()), steps) && MailedIn(steps) == {}
      ensures DueAll(parsed, i, now)
      ensures forall s :: s in parsed <==> s in certs && s in w.parses && s !in w.renewed
      ensures Touched(old(rows), rows, certs)
    {
      parsed, steps := [], [];
      for k := 0 to |certs|
        invariant Value() == Run(nags, old(Value()), steps) && MailedIn(steps) == {}
        invariant Distinct(parsed) && Touched(old(rows), rows, certs[..k])
        invariant forall s :: s in parsed <==> s in certs[..k] && s in w.parses && s !in w.renewed
        invariant forall s | s in parsed :: s in rows && rows[s] == old(rows)[s]
      {
        var serial := certs[k];
        ghost var before := rows;
        assert serial in certs && serial !in certs[..k];
        assert certs[..k + 1] == certs[..k] + [serial];
        var keep;
        ghost var more;
        keep, more := ParseCert(serial, i, now, w);
        RunSplit(nags, old(Value()), steps, more);
        MailedInSplit(steps, more);
        TouchedMore(old(rows), before, rows, certs[..k], serial);
        steps := steps + more;
        if keep {
          parsed := parsed + [serial];
        }
      }
      assert certs[..|certs|] == certs;
    }

    /** One certificate in the last loop. */
    method RecordNag(serial: string, sent: bool, i: nat, now: int, w: World) returns (ghost steps: seq<Step>)
      requires serial in rows && Due(nags, rows[serial], i, now) && Later(w, now)
      modifies this`rows, this`log
      ensures Value() == Run(nags, old(Value()), steps)
      ensures MailedIn(steps) == if sent then {serial} else {}
      ensures Touched(old(rows), rows, [serial])
    {
      var stored := serial in w.stores;
      steps := if sent then [Mailed(serial, i, now, w.at(serial), stored)]
               else if stored then [Noted(serial, i, now, w.at(serial))] else [];
      if |steps| > 0 {
        RunOne(nags, Value(), steps[0]);
      }
      if sent {
        log := log + [Mail(serial, i, stored)];
      }
      UpdateCertStatus(serial, w);
    }

    /** The last loop: after the mail, if there is anyone to send it to, record the nags. */
    method RecordNags(parsed: seq<string>, sent: bool, i: nat, now: int, w: World) returns (ghost steps: seq<Step>)
      requires DueAll(parsed, i, now) && Later(w, now)
      modifies this`rows, this`log
      ensures Value() == Run(nags, old(Value()), steps)
      ensures MailedIn(steps) == if sent then set s | s in parsed else {}
      ensures Touched(old(rows), rows, parsed)
    {
      steps := [];
      for k := 0 to |parsed|
        invariant Value() == Run(nags, old(Value()), steps)
        invariant MailedIn(steps) == if sent then set s | s in parsed[..k] else {}
        invariant Touched(old(rows), rows, parsed[..k])
      {
        var serial := parsed[k];
        ghost var before := rows;
        assert serial in parsed && serial !in parsed[..k];
        assert parsed[..k + 1] == parsed[..k] + [serial];
        ghost var more := RecordNag(serial, sent, i, now, w);
        RunSplit(nags, old(Value()), steps, more);
        MailedInSplit(steps, more);
        TouchedMore(old(rows), before, rows, parsed[..k], serial);
        steps := steps + more;
      }
      assert parsed[..|parsed|] == parsed;
    }

    /** The body of the loop over accounts in processCerts. */
    method ProcessAccount(regID: int, certs: seq<string>, i: nat, now: int, w: World) returns (ghost steps: seq<Step>)
      requires DueAll(certs, i, now) && Later(w, now)
      modifies this`rows, this`log
      ensures Value() == Run(nags, old(Value()), steps)
      ensures MailedIn(steps) == set s | s in certs && Mailable(w, s, regID)
      ensures Touched(old(rows), rows, certs)
    {
      steps := [];
      if regID !in w.registered {
        return;
      }
      var parsed;
      parsed, steps := ParseCerts(certs, i, now, w);
      if |parsed| == 0 || regID !in w.contacts || (regID in w.addressed && regID !in w.sends) {
        return;
      }
      ghost var more := RecordNags(parsed, regID in w.addressed, i, now, w);
      RunSplit(nags, old(Value()), steps, more);
      MailedInSplit(steps, more);
      steps := steps + more;
    }

    /** The map of slices that processCerts builds first. */
    method GroupByAccount(certs: seq<string>) returns (groups: map<int, seq<string>>)
      requires Distinct(certs) && forall s | s in certs :: s in rows
      ensures Grouped(rows, certs, groups)
    {
      groups := map[];
      for k := 0 to |certs|
        invariant Grouped(rows, certs[..k], groups)
      {
        var serial := certs[k];
        assert serial in certs && serial !in certs[..k];
        assert certs[..k + 1] == certs[..k] + [serial];
        var regID := rows[serial].regID;
        var cs := if regID in groups then groups[regID] else [];
        GroupedSnoc(rows, certs[..k], groups, serial);
        groups := groups[regID := cs + [serial]];
      }
      assert certs[..|certs|] == certs;
    }

    method ProcessCerts(certs: seq<string>, i: nat, now: int, w: World) returns (ghost steps: seq<Step>)
      requires DueAll(certs, i, now) && Later(w, now)
      modifies this`rows, this`log
      ensures Value() == Run(nags, old(Value()), steps)
      ensures MailedIn(steps) == set s | s in certs && w.connects && Mailable(w, s, old(rows)[s].regID)
      ensures Touched(old(rows), rows, certs)
    {
      steps := [];
      var groups := GroupByAccount(certs);
      if !w.connects {
        return;
      }
      var rest := groups.Keys;
      while rest != {}
        invariant rest <= groups.Keys
        invariant Value() == Run(nags, old(Value()), steps)
        invariant MailedIn(steps) == set s | s in certs && old(rows)[s].regID !in rest && Mailable(w, s, old(rows)[s].regID)
        invariant Touched(old(rows), rows, certs)
        invariant forall s | s in certs && old(rows)[s].regID in rest :: rows[s] == old(rows)[s]
        decreases |rest|
      {
        var regID := Pick(rest);
        assert forall s | s in groups[regID] :: s in certs && old(rows)[s].regID == regID;
        ghost var more := ProcessAccount(regID, groups[regID], i, now, w);
        RunSplit(nags, old(Value()), steps, more);
        MailedInSplit(steps, more);
        steps := steps + more;
        rest := rest - {regID};
      }
    }

    /** The query: soonest to expire first, and no more than the limit. */
    method SelectSerials(i: nat, now: int) returns (serials: seq<string>, ghost batch: set<string>)
      ensures Distinct(serials) && (forall s :: s in serials <==> s in batch) && |serials| == |batch|
      ensures Batch(nags, rows, limit, i, now, batch)
      ensures |serials| == Min(limit, |Selection(nags, rows, i, now)|)
      ensures forall s, t | s in serials && t in Selection(nags, rows, i, now) && t !in serials :: rows[s].notAfter <= rows[t].notAfter
      ensures forall s | s in serials :: s in rows && !rows[s].revoked && i < |nags|
                && now + (if i == 0 then 0 else nags[i - 1]) < rows[s].notAfter <= now + nags[i]
                && (rows[s].lastNag.Some? ==> rows[s].lastNag.value + nags[i] < rows[s].notAfter)
      ensures |serials| < limit && i < |nags| ==> forall s | s in rows && !rows[s].revoked
                && now + (if i == 0 then 0 else nags[i - 1]) < rows[s].notAfter <= now + nags[i]
                && (rows[s].lastNag.Some? ==> rows[s].lastNag.value + nags[i] < rows[s].notAfter) :: s in serials
    {
      serials, batch := TakeSoonest(rows, Selection(nags, rows, i, now), limit);
      SubsetSize(batch, Selection(nags, rows, i, now));
      if |serials| < limit {
        assert batch == Selection(nags, rows, i, now);
      }
    }

    /** One window of a run. */
    method ProcessWindow(i: nat, now: int, worlds: seq<World>, ghost start: map<string, Row>, ghost batches: seq<set<string>>)
      returns (ghost steps: seq<Step>, ghost batch: set<string>)
      requires i == |batches| < |worlds| && Later(worlds[i], now)
      requires Ascending(nags) ==> Batches(nags, start, limit, now, batches) && OnlyNagged(start, rows, batches)
      modifies this`rows, this`log
      ensures Value() == Run(nags, old(Value()), steps)
      ensures Ascending(nags) ==>
                && Batches(nags, start, limit, now, batches + [batch]) && OnlyNagged(start, rows, batches + [batch])
                && forall s :: s in MailedIn(steps) <==> MailedAbout(worlds[i], start, batch, s)
    {
      var serials;
      serials, batch := SelectSerials(i, now);
      if Ascending(nags) {
        BatchUntouched(nags, start, rows, limit, now, batches, batch);
      }
      steps := ProcessCerts(serials, i, now, worlds[i]);
      if Ascending(nags) {
        OnlyNaggedMore(start, old(rows), rows, batches, serials, batch);
      }
    }

    /** One run of the mailer, begun at `now`: every change it makes is a step of the machine, so
        it keeps the invariant; and it mails about exactly the certificates that were in the batch of
        some window when it began and for which nothing failed. */
    method FindExpiringCertificates(now: int, worlds: seq<World>)
      returns (ok: bool, ghost steps: seq<Step>, ghost batches: seq<set<string>>)
      requires |worlds| == |nags| && forall i | 0 <= i < |worlds| :: Later(worlds[i], now)
      modifies this`rows, this`log
      ensures Value() == Run(nags, old(Value()), steps)
      ensures Ascending(nags) && Inv(nags, old(Value())) ==> Inv(nags, Value())
      ensures ok <==> forall i | 0 <= i < |worlds| :: worlds[i].loads
      ensures |batches| <= |worlds| && (ok ==> |batches| == |worlds|) && (!ok ==> |batches| < |worlds| && !worlds[|batches|].loads)
      ensures Ascending(nags) ==>
                && Batches(nags, old(rows), limit, now, batches) && OnlyNagged(old(rows), rows, batches)
                && forall s :: s in MailedIn(steps) <==> MailedBefore(worlds, old(rows), batches, s)
    {
      ok, steps, batches := true, [], [];
      var i := 0;
      while i < |nags| && ok
        invariant 0 <= i <= |nags| && i == |batches|
        invariant Value() == Run(nags, old(Value()), steps)
        invariant forall k | 0 <= k < i :: worlds[k].loads
        invariant !ok ==> i < |nags| && !worlds[i].loads
        invariant Ascending(nags) ==> Batches(nags, old(rows), limit, now, batches) && OnlyNagged(old(rows), rows, batches)
        invariant Ascending(nags) ==> forall s :: s in MailedIn(steps) <==> MailedBefore(worlds, old(rows), batches, s)
        decreases |nags| - i, ok
      {
        if !worlds[i].loads {
          ok := false;
        } else {
          ghost var more, batch := ProcessWindow(i, now, worlds, old(rows), batches);
          RunSplit(nags, old(Value()), steps, more);
          MailedInSplit(steps, more);
          forall s ensures MailedBefore(worlds, old(rows), batches + [batch], s)
                           <==> MailedBefore(worlds, old(rows), batches, s) || MailedAbout(worlds[i], old(rows), batch, s)
          {
            MailedBeforeSnoc(worlds, old(rows), batches, batch, s);
          }
          steps, batches := steps + more, batches + [batch];
          i := i + 1;
        }
      }
      if Ascending(nags) && Inv(nags, old(Value())) {
        RunKeeps(nags, old(Value()), steps);
      }
    }
  }

  /** The certificates of each account, each once. */
  predicate Grouped(rows: map<string, Row>, certs: seq<string>, groups: map<int, seq<string>>)
    requires forall s | s in certs :: s in rows
  {
    && (forall s | s in certs :: rows[s].regID in groups)
    && (forall r | r in groups :: Distinct(groups[r]))
    && (forall r | r in groups :: forall s | s in groups[r] :: s in certs && rows[s].regID == r)
    && (forall s | s in certs && rows[s].regID in groups :: s in groups[rows[s].regID])
  }

  lemma GroupedSnoc(rows: map<string, Row>, certs: seq<string>, groups: map<int, seq<string>>, serial: string)
    requires forall s | s in certs :: s in rows
    requires Grouped(rows, certs, groups) && serial in rows && serial !in certs
    ensures var regID := rows[serial].regID;
            var cs := if regID in groups then groups[regID] else [];
            Grouped(rows, certs + [serial], groups[regID := cs + [serial]])
  {
  }

  lemma MailedInSplit(a: seq<Step>, b: seq<Step>)
    ensures MailedIn(a + b) == MailedIn(a) + MailedIn(b)
  {
  }
}
