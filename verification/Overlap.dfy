/** Sessions of the helper's server that overlap: exactly when the server can still misuse a channel,
    although from now on no source opens a session while it has one open. */
module Overlaps {
  import opened HelperServers
  import opened Tables

  // Every open session's source is expected, and no two of them have the same source.
  ghost predicate Orderly<P(!new)>(s: State<P>) {
    && (forall i :: 0 <= i < |s.calls| && s.calls[i].Active() ==> s.calls[i].source in s.expected)
    && (forall i, j :: 0 <= i < j < |s.calls| && s.calls[i].Active() && s.calls[j].Active() ==>
        s.calls[i].source != s.calls[j].source)
  }

  // more continues the run, and opens no session of a source that has one open.
  ghost predicate Continues<P(!new)>(server: Server<P>, run: seq<Action<P>>, more: seq<Action<P>>)
    decreases |more|
  {
    && server.IsRun(run + more)
    && (more == [] ||
        (Continues(server, run, more[..|more| - 1]) && server.IsRun(run + more[..|more| - 1])
        && server.OpensAlone(server.After(run + more[..|more| - 1]), more[|more| - 1])))
  }

  ghost predicate CanPanicAlone<P(!new)>(server: Server<P>, run: seq<Action<P>>) {
    exists more :: Continues(server, run, more) && server.IsRun(run + more) && server.After(run + more).ChannelPanic()
  }

  lemma ContinueWith<P(!new)>(server: Server<P>, run: seq<Action<P>>, more: seq<Action<P>>, a: Action<P>)
    requires Continues(server, run, more) && server.IsRun(run + more)
    requires server.Enabled(server.After(run + more), a) && server.OpensAlone(server.After(run + more), a)
    ensures Continues(server, run, more + [a]) && server.IsRun(run + (more + [a]))
    ensures server.After(run + (more + [a])) == server.Step(server.After(run + more), a)
  {
    server.Extend(run + more, a);
    assert run + (more + [a]) == run + more + [a];
    assert (more + [a])[..|more|] == more;
  }

  // ----- Orderly servers stay orderly -----

  lemma StepKeepsOrderly<P(!new)>(server: Server<P>, s: State<P>, a: Action<P>)
    requires server.Invariant(s) && Orderly(s) && server.Enabled(s, a) && server.OpensAlone(s, a)
    ensures Orderly(server.Step(s, a))
  {
    var s' := server.Step(s, a);
    forall i | 0 <= i < |s'.calls|
      ensures i < |s.calls| ==> s'.calls[i].source == s.calls[i].source
      ensures i < |s.calls| && !s.calls[i].Active() ==> !s'.calls[i].Active()
      ensures i >= |s.calls| ==> i == |s.calls| && a.Push? && s'.calls[i].source == a.source && a.source in s.expected
    {
      server.CallAfter(s, a, i);
    }
    forall i | 0 <= i < |s'.calls| && s'.calls[i].Active()
      ensures s'.calls[i].source in s'.expected
    {
      StaysExpected(server, s, a, i);
    }
  }

  lemma StaysExpected<P(!new)>(server: Server<P>, s: State<P>, a: Action<P>, i: nat)
    requires Orderly(s) && server.Enabled(s, a) && server.OpensAlone(s, a)
    requires i < |server.Step(s, a).calls| && server.Step(s, a).calls[i].Active()
    ensures server.Step(s, a).calls[i].source in server.Step(s, a).expected
  {
    server.CallAfter(s, a, i);
    if a.Finish? {
      assert i != a.call && s.calls[i].Active() && s.calls[a.call].Active();
      assert s.calls[i].source != s.calls[a.call].source;
    }
  }

  lemma OrderlyStepIsSafe<P(!new)>(server: Server<P>, s: State<P>, a: Action<P>)
    requires server.Invariant(s) && Orderly(s) && server.Enabled(s, a)
    ensures !server.Step(s, a).ChannelPanic()
  {
    server.StepKeepsInvariant(s, a);
    if a.Receive? || a.Finish? {
      OrderlyCallIsSafe(server, s, a);
    } else {
      OthersKeepIncoming(server, s, a);
    }
  }

  lemma OrderlyCallIsSafe<P(!new)>(server: Server<P>, s: State<P>, a: Action<P>)
    requires server.Invariant(s) && Orderly(s) && server.Enabled(s, a) && (a.Receive? || a.Finish?)
    ensures server.Step(s, a).lateSends == 0 && server.Step(s, a).incomingCloses <= 1
  {
    assert s.calls[a.call].Active() && s.calls[a.call].source in s.expected;
  }

  lemma OthersKeepIncoming<P(!new)>(server: Server<P>, s: State<P>, a: Action<P>)
    requires server.Enabled(s, a) && !a.Receive? && !a.Finish?
    ensures server.Step(s, a).lateSends == s.lateSends && server.Step(s, a).incomingCloses == s.incomingCloses
  {
  }

  // The last step of a continuation.
  lemma LastOfMore<P(!new)>(server: Server<P>, run: seq<Action<P>>, more: seq<Action<P>>)
    requires more != [] && Continues(server, run, more) && server.IsRun(run + more)
    ensures var front, a := more[..|more| - 1], more[|more| - 1];
      && run + more == run + front + [a] && Continues(server, run, front) && server.IsRun(run + front)
      && server.OpensAlone(server.After(run + front), a)
  {
    var front, a := more[..|more| - 1], more[|more| - 1];
    assert run + more == run + front + [a];
  }

  lemma {:induction false} OrderlyIsSafe<P(!new)>(server: Server<P>, run: seq<Action<P>>, more: seq<Action<P>>)
    requires server.IsRun(run) && Orderly(server.After(run)) && !server.After(run).ChannelPanic()
    requires Continues(server, run, more) && server.IsRun(run + more)
    ensures Orderly(server.After(run + more)) && !server.After(run + more).ChannelPanic()
  {
    if more == [] {
      assert run + more == run;
    } else {
      var front, a := more[..|more| - 1], more[|more| - 1];
      LastOfMore(server, run, more);
      OrderlyIsSafe(server, run, front);
      OrderlyStays(server, run + front, a);
    }
  }

  lemma OrderlyStays<P(!new)>(server: Server<P>, run: seq<Action<P>>, a: Action<P>)
    requires server.IsRun(run) && server.IsRun(run + [a])
    requires Orderly(server.After(run)) && server.OpensAlone(server.After(run), a)
    ensures Orderly(server.After(run + [a])) && !server.After(run + [a]).ChannelPanic()
  {
    assert (run + [a])[..|run|] == run;
    server.RunsKeepInvariant(run);
    StepKeepsOrderly(server, server.After(run), a);
    OrderlyStepIsSafe(server, server.After(run), a);
  }

  // ----- Others can be driven into a panic -----

  // An open session can run to its end.
  lemma FinishCall<P(!new)>(server: Server<P>, run: seq<Action<P>>, more: seq<Action<P>>, i: nat)
    returns (next: seq<Action<P>>)
    requires Continues(server, run, more) && server.IsRun(run + more) && !server.After(run + more).Panicked()
    requires i < |server.After(run + more).calls| && server.After(run + more).calls[i].Active()
    ensures Continues(server, run, next) && server.IsRun(run + next)
    ensures server.After(run + next) == server.Finished(server.After(run + more), i)
  {
    if server.After(run + more).calls[i].phase == Receiving {
      next := FinishReceiving(server, run, more, i);
    } else {
      ContinueWith(server, run, more, Finish(i));
      next := more + [Finish(i)];
    }
  }

  lemma FinishReceiving<P(!new)>(server: Server<P>, run: seq<Action<P>>, more: seq<Action<P>>, i: nat)
    returns (next: seq<Action<P>>)
    requires Continues(server, run, more) && server.IsRun(run + more) && !server.After(run + more).Panicked()
    requires server.InPhase(server.After(run + more), i, Receiving)
    ensures Continues(server, run, next) && server.IsRun(run + next)
    ensures server.After(run + next) == server.Finished(server.After(run + more), i)
  {
    ContinueWith(server, run, more, Eof(i));
    ContinueWith(server, run, more + [Eof(i)], Finish(i));
    server.FinishedAfterDrained(server.After(run + more), i);
    next := more + [Eof(i)] + [Finish(i)];
  }

  // An open session whose source is no longer expected.
  ghost predicate IsStray<P(!new)>(s: State<P>, i: nat) {
    i < |s.calls| && s.calls[i].Active() && s.calls[i].source !in s.expected
  }

  // A session of an expected source: one that is open, or a new one.
  lemma SessionOf<P(!new)>(server: Server<P>, run: seq<Action<P>>, more: seq<Action<P>>, id: SourceID, i: nat)
    returns (next: seq<Action<P>>, j: nat)
    requires Continues(server, run, more) && server.IsRun(run + more) && !server.After(run + more).Panicked()
    requires id in server.After(run + more).expected && IsStray(server.After(run + more), i)
    ensures Continues(server, run, next) && server.IsRun(run + next)
    ensures var s, s' := server.After(run + more), server.After(run + next);
      && s'.expected == s.expected && s'.incomingCloses == s.incomingCloses && IsStray(s', i)
      && j < |s'.calls| && s'.calls[j].Active() && s'.calls[j].source == id && j != i
      && (server.Invariant(s) ==> !s'.Panicked())
  {
    var s := server.After(run + more);
    if k :| 0 <= k < |s.calls| && s.calls[k].Active() && s.calls[k].source == id {
      next, j := more, k;
    } else {
      ContinueWith(server, run, more, Push(id));
      next, j := more + [Push(id)], |s.calls|;
    }
  }

  lemma FinishedKeepsStray<P(!new)>(server: Server<P>, s: State<P>, i: nat, j: nat)
    requires !s.Panicked() && s.incomingCloses == 0 && IsStray(s, i)
    requires j < |s.calls| && s.calls[j].source in s.expected && i != j
    ensures IsStray(server.Finished(s, j), i) && !server.Finished(s, j).Panicked()
    ensures |server.Finished(s, j).expected| < |s.expected|
  {
    var expected := s.expected - {s.calls[j].source};
    assert expected.Keys == s.expected.Keys - {s.calls[j].source};
    assert |expected| == |expected.Keys| && |s.expected| == |s.expected.Keys|;
  }

  lemma FinishedMakesStray<P(!new)>(server: Server<P>, s: State<P>, i: nat, j: nat)
    requires server.Invariant(s) && !s.Panicked() && AreTwoOfOne(s, i, j) && !IsStray(s, i)
    ensures IsStray(server.Finished(s, j), i) && !server.Finished(s, j).Panicked()
  {
  }

  // With a stray session open, the remaining sources can all finish.
  lemma {:induction false} Drain<P(!new)>(server: Server<P>, run: seq<Action<P>>, more: seq<Action<P>>, i: nat)
    returns (next: seq<Action<P>>)
    requires Continues(server, run, more) && server.IsRun(run + more) && !server.After(run + more).Panicked()
    requires IsStray(server.After(run + more), i)
    ensures Continues(server, run, next) && server.IsRun(run + next) && !server.After(run + next).Panicked()
    ensures IsStray(server.After(run + next), i) && server.After(run + next).expected == map[]
    decreases |server.After(run + more).expected|
  {
    var s := server.After(run + more);
    server.RunsKeepInvariant(run + more);
    if s.expected == map[] {
      next := more;
    } else {
      var id :| id in s.expected;
      var begun, j := SessionOf(server, run, more, id, i);
      var finished := FinishCall(server, run, begun, j);
      FinishedKeepsStray(server, server.After(run + begun), i, j);
      next := Drain(server, run, finished, i);
    }
  }

  lemma StrayPanics<P(!new)>(server: Server<P>, run: seq<Action<P>>, more: seq<Action<P>>, i: nat)
    requires Continues(server, run, more) && server.IsRun(run + more) && !server.After(run + more).Panicked()
    requires IsStray(server.After(run + more), i)
    ensures CanPanicAlone(server, run)
  {
    var drained := Drain(server, run, more, i);
    server.RunsKeepInvariant(run + drained);
    var s := server.After(run + drained);
    assert server.IsIndexed(s.calls[i]);
    assert s.incomingCloses > 0;
    var last := FinishCall(server, run, drained, i);
    assert server.After(run + last).ChannelPanic();
  }

  // Of two open sessions of one source, the first to finish makes the other stray.
  lemma TwoSessionsPanic<P(!new)>(server: Server<P>, run: seq<Action<P>>, i: nat, j: nat)
    requires server.IsRun(run) && !server.After(run).Panicked()
    requires AreTwoOfOne(server.After(run), i, j)
    ensures CanPanicAlone(server, run)
  {
    server.RunsKeepInvariant(run);
    NothingMore(server, run);
    if IsStray(server.After(run), i) {
      StrayPanics(server, run, [], i);
    } else {
      var next := FinishCall(server, run, [], j);
      FinishedMakesStray(server, server.After(run), i, j);
      StrayPanics(server, run, next, i);
    }
  }

  ghost predicate AreTwoOfOne<P(!new)>(s: State<P>, i: nat, j: nat) {
    i < j < |s.calls| && s.calls[i].Active() && s.calls[j].Active() && s.calls[i].source == s.calls[j].source
  }

  lemma NothingMore<P(!new)>(server: Server<P>, run: seq<Action<P>>)
    requires server.IsRun(run)
    ensures Continues(server, run, []) && run + [] == run
  {
    assert run + [] == run;
  }

  // From now on without overlap, an orderly server misuses no channel, and any other one can.
  lemma OrderlyCannotPanic<P(!new)>(server: Server<P>, run: seq<Action<P>>)
    requires server.IsRun(run) && !server.After(run).Panicked() && Orderly(server.After(run))
    ensures !CanPanicAlone(server, run)
  {
    forall more | Continues(server, run, more) && server.IsRun(run + more)
      ensures !server.After(run + more).ChannelPanic()
    {
      OrderlyIsSafe(server, run, more);
    }
  }

  lemma DisorderlyCanPanic<P(!new)>(server: Server<P>, run: seq<Action<P>>)
    requires server.IsRun(run) && !server.After(run).Panicked() && !Orderly(server.After(run))
    ensures CanPanicAlone(server, run)
  {
    NothingMore(server, run);
    if i: nat :| IsStray(server.After(run), i) {
      StrayPanics(server, run, [], i);
    } else {
      var i, j := TwoOfOne(server.After(run));
      TwoSessionsPanic(server, run, i, j);
    }
  }

  lemma TwoOfOne<P(!new)>(s: State<P>) returns (i: nat, j: nat)
    requires !Orderly(s) && forall k: nat :: !IsStray(s, k)
    ensures AreTwoOfOne(s, i, j)
  {
    assert forall k :: 0 <= k < |s.calls| && s.calls[k].Active() ==> !IsStray(s, k);
    i, j :| 0 <= i < j < |s.calls| && s.calls[i].Active() && s.calls[j].Active()
      && s.calls[i].source == s.calls[j].source;
  }

  // For every run: from now on without overlap, the server can misuse a channel exactly if two
  // sessions of one source are open, or one of a source that has finished another.
  lemma OverlapPanicsExactly<P(!new)>(server: Server<P>, run: seq<Action<P>>)
    requires server.IsRun(run) && !server.After(run).Panicked()
    ensures CanPanicAlone(server, run) <==> !Orderly(server.After(run))
  {
    if Orderly(server.After(run)) {
      OrderlyCannotPanic(server, run);
    } else {
      DisorderlyCanPanic(server, run);
    }
  }

  // An input, for any server: a source that opens a session twice.
  lemma OverlapPanics<P(!new)>(server: Server<P>, id: SourceID) returns (run: seq<Action<P>>)
    requires id in server.sources
    ensures run == [Push(id), Push(id)] && server.IsRun(run) && CanPanicAlone(server, run)
  {
    assert server.sources[..|server.sources|] == server.sources;
    var none: seq<Action<P>> := [];
    run := [Push(id), Push(id)];
    server.Extend(none, Push(id));
    server.Extend([Push(id)], Push(id));
    assert none + [Push(id)] == [Push(id)] && [Push(id)] + [Push(id)] == run;
    TwoSessionsPanic(server, run, 0, 1);
  }
}
