/** Polling the notarization service: classifying the text of one
    `xcrun altool --notarization-info` run (`check_is_ready`) and the wait
    loop around it (`do_wait`). */
module Status {
  import opened Optional
  import opened Text
  import opened Tools

  /** The status codes of `check_is_ready`. */
  const Ready := 1
  const NotReady := 0
  const Failed := -1

  const StatusMessageMarker := "Status Message"
  const ApprovedMarker := "Package Approved"
  const InProgressMarker := "Status: in progress"

  /** The seconds `do_wait` sleeps between two queries. */
  const PollInterval: nat := 10

  predicate Approved(line: string) {
    Contains(line, StatusMessageMarker) && Contains(line, ApprovedMarker)
  }

  predicate InProgress(line: string) {
    Contains(line, InProgressMarker)
  }

  /** The status the lines announce, stated without any scan order: ready
      when some line announces the approval, otherwise not ready when some
      line says the work is in progress, otherwise an error. */
  function StatusOf(lines: seq<string>): int {
    if exists l :: l in lines && Approved(l) then Ready
    else if exists l :: l in lines && InProgress(l) then NotReady
    else Failed
  }

  /** The status of one query, from its whole captured output. */
  function PollStatus(o: ToolOutput): int {
    StatusOf(SplitLines(Combined(o)))
  }

  /** The scan of `check_is_ready`: an approval line settles the answer and
      stops the scan; an in-progress line only records "not ready" and the
      scan goes on. The answer depends only on the lines of each stream. */
  method CheckIsReady(o: ToolOutput) returns (ret: int)
    ensures ret == PollStatus(o)
    ensures ret == StatusOf(SplitLines(o.stdout) + SplitLines(o.stderr))
  {
    var lines := SplitLines(Combined(o));
    ret := Failed;
    var i := 0;
    while i < |lines|
      invariant 0 <= i <= |lines|
      invariant forall j :: 0 <= j < i ==> !Approved(lines[j])
      invariant ret == if exists j :: 0 <= j < i && InProgress(lines[j]) then NotReady else Failed
    {
      if Approved(lines[i]) {
        ret := Ready;
        break;
      } else if InProgress(lines[i]) {
        // Approval may still follow on a later line, so the scan goes on.
        ret := NotReady;
      }
      i := i + 1;
    }
    StatusOfStreams(o.stdout, o.stderr);
  }

  /** Gluing the two streams with "\r\n" adds at most one empty line, which
      announces nothing, so the status is that of the lines of each stream. */
  lemma StatusOfStreams(stdout: string, stderr: string)
    ensures StatusOf(SplitLines(stdout + "\r\n" + stderr))
      == StatusOf(SplitLines(stdout) + SplitLines(stderr))
  {
    SplitLinesJoined(stdout, stderr);
    var extra: seq<string> := if EndsLine(stdout) then [""] else [];
    var joined := SplitLines(stdout) + extra + SplitLines(stderr);
    var parts := SplitLines(stdout) + SplitLines(stderr);
    assert !Approved("") && !InProgress("");
    assert forall l :: l in joined <==> l in parts || l in extra;
  }

  /** The status does not depend on the order of the lines. */
  lemma StatusOrderFree(a: seq<string>, b: seq<string>)
    requires multiset(a) == multiset(b)
    ensures StatusOf(a) == StatusOf(b)
  {
    assert forall l :: l in a <==> l in multiset(a);
    assert forall l :: l in b <==> l in multiset(b);
  }

  /** The status is one of the three codes, and an approval line wins over
      any in-progress line, wherever each stands. */
  lemma StatusCodes(lines: seq<string>)
    ensures StatusOf(lines) in {Ready, NotReady, Failed}
    ensures (exists i :: 0 <= i < |lines| && Approved(lines[i])) ==> StatusOf(lines) == Ready
  {
  }

  // ---------------------------------------------------------------------
  // `do_wait`

  /** The answers the successive queries give, one per query output. */
  function Answers(polls: seq<ToolOutput>): (answers: seq<int>)
    ensures |answers| == |polls|
    ensures forall i :: 0 <= i < |polls| ==> answers[i] == PollStatus(polls[i])
  {
    seq(|polls|, i requires 0 <= i < |polls| => PollStatus(polls[i]))
  }

  /** The answer `do_wait` settles on, over a finite run of answers: the
      first that is not "not ready"; `None` when every answer of the run is
      "not ready" (the program itself would go on polling). */
  function Settle(answers: seq<int>): (r: Option<int>)
    ensures r.Some? ==> r.value != NotReady && r.value in answers
    ensures r.None? <==> forall i :: 0 <= i < |answers| ==> answers[i] == NotReady
    decreases |answers|
  {
    if answers == [] then None
    else if answers[0] != NotReady then Some(answers[0])
    else Settle(answers[1..])
  }

  /** `Settle` picks the first answer that is not "not ready". */
  lemma {:induction false} SettleIsFirst(answers: seq<int>, n: nat)
    requires n < |answers| && answers[n] != NotReady
    requires forall j :: 0 <= j < n ==> answers[j] == NotReady
    ensures Settle(answers) == Some(answers[n])
  {
    if n > 0 {
      SettleIsFirst(answers[1..], n - 1);
    }
  }

  /** Over the answers the service gives, `do_wait` settles on 1 or -1. */
  lemma SettledAnswer(polls: seq<ToolOutput>)
    ensures Settle(Answers(polls)).Some? ==> Settle(Answers(polls)).value in {Ready, Failed}
  {
    var answers := Answers(polls);
    if Settle(answers).Some? {
      var i :| 0 <= i < |answers| && answers[i] == Settle(answers).value;
      StatusCodes(SplitLines(Combined(polls[i])));
    }
  }

  /** The commands `do_wait` runs over a run of answers: a query per answer
      up to the first that is not "not ready", and a sleep after each
      "not ready". */
  function PollCalls(query: Action, answers: seq<int>): (calls: seq<Action>)
    ensures forall a :: a in calls ==> a == query || a == Sleep(PollInterval)
    ensures |calls| > 0 <==> |answers| > 0
    ensures |calls| > 0 ==> calls[0] == query
    decreases |answers|
  {
    if answers == [] then []
    else if answers[0] != NotReady then [query]
    else [query, Sleep(PollInterval)] + PollCalls(query, answers[1..])
  }

  /** The trace alternates query and sleep, starting with a query. Every
      sleep follows a "not ready" answer. A settled wait ends on the query
      that got the first other answer; an unsettled run holds one query
      and one sleep per answer. */
  lemma {:induction false} PollCallsEnd(query: Action, answers: seq<int>)
    ensures var calls := PollCalls(query, answers);
      forall m :: 0 <= m < |calls| ==> calls[m] == (if m % 2 == 0 then query else Sleep(PollInterval))
    ensures var calls := PollCalls(query, answers);
      forall j :: 0 <= j < |answers| && 2 * j + 1 < |calls| ==> answers[j] == NotReady
    ensures var calls := PollCalls(query, answers);
      Settle(answers).Some? ==>
        |calls| % 2 == 1 && answers[|calls| / 2] != NotReady
        && Settle(answers) == Some(answers[|calls| / 2])
    ensures Settle(answers).None? ==> |PollCalls(query, answers)| == 2 * |answers|
    decreases |answers|
  {
    if answers != [] && answers[0] == NotReady {
      var tail := answers[1..];
      var more := PollCalls(query, tail);
      PollCallsEnd(query, tail);
      var calls := PollCalls(query, answers);
      assert calls == [query, Sleep(PollInterval)] + more;
      forall m | 2 <= m < |calls|
        ensures calls[m] == (if m % 2 == 0 then query else Sleep(PollInterval))
      {
        assert calls[m] == more[m - 2];
      }
      forall j | 1 <= j < |answers| && 2 * j + 1 < |calls|
        ensures answers[j] == NotReady
      {
        assert answers[j] == tail[j - 1];
      }
      if Settle(answers).Some? {
        assert |calls| / 2 == |more| / 2 + 1;
        assert answers[|calls| / 2] == tail[|more| / 2];
      }
    }
  }

  /** One round of `do_wait`, seen from the `i`-th answer on. */
  lemma PollStep(query: Action, answers: seq<int>, i: nat)
    requires i < |answers|
    ensures var rest := answers[i..];
      Settle(rest) == (if answers[i] != NotReady then Some(answers[i]) else Settle(answers[i + 1..]))
      && PollCalls(query, rest)
         == (if answers[i] != NotReady then [query]
             else [query, Sleep(PollInterval)] + PollCalls(query, answers[i + 1..]))
  {
    assert answers[i..][0] == answers[i];
    assert answers[i..][1..] == answers[i + 1..];
  }

  /** The loop of `do_wait` over the outputs the successive queries would
      print: it queries, stops on any answer but "not ready", and sleeps only
      after a "not ready". It never returns "not ready". */
  method Wait(uploadId: string, username: string, password: string, polls: seq<ToolOutput>)
    returns (status: Option<int>, calls: seq<Action>)
    ensures status == Settle(Answers(polls))
    ensures status != Some(NotReady)
    ensures calls == PollCalls(QueryStatus(uploadId, username, password), Answers(polls))
  {
    var query := QueryStatus(uploadId, username, password);
    ghost var answers := Answers(polls);
    status, calls := None, [];
    var i := 0;
    while i < |polls|
      invariant i <= |polls|
      invariant Settle(answers[i..]) == Settle(answers)
      invariant calls + PollCalls(query, answers[i..]) == PollCalls(query, answers)
    {
      var isReady := CheckIsReady(polls[i]);
      PollStep(query, answers, i);
      calls := calls + [query];
      if isReady != NotReady {
        status := Some(isReady);
        return;
      }
      calls := calls + [Sleep(PollInterval)];
      i := i + 1;
    }
    assert answers[i..] == [];
  }
}
