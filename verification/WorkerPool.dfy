/** The worker pools of mppj-go: goroutines that receive tasks from one channel, work on them, and
    complete them one at a time under a lock, until the channel is closed and empty. The workers
    run the same code, so a state counts them; tasks are named by their position in the channel. */
module WorkerPools {
  import opened Permutations

  datatype Pool = Pool(next: nat, idle: nat, busy: set<nat>, exited: nat, completed: nat) {
    ghost function Remaining(total: nat): int {
      3 * (total - next) + 2 * |busy| + idle
    }

    // Tasks received are being converted or have been done, once.
    ghost predicate Conserved(total: nat, n: nat, done: seq<nat>) {
      && next <= total
      && NoDuplicates(done) && Elements(done) !! busy
      && Elements(done) + busy == Indices(next)
      && completed == |done|
      && n == idle + |busy| + exited
      && (exited > 0 ==> next == total)
    }

    function Receive(): Pool
      requires idle > 0
    {
      this.(next := next + 1, idle := idle - 1, busy := busy + {next})
    }

    function Complete(id: nat): Pool {
      this.(idle := idle + 1, busy := busy - {id}, completed := completed + 1)
    }

    function Exit(): Pool
      requires idle > 0
    {
      this.(idle := idle - 1, exited := exited + 1)
    }

    lemma ReceiveConserves(total: nat, n: nat, done: seq<nat>)
      requires Conserved(total, n, done) && idle > 0
      ensures next < total ==> Receive().Conserved(total, n, done) && Receive().Remaining(total) < Remaining(total)
      ensures next == total ==> Exit().Conserved(total, n, done) && Exit().Remaining(total) < Remaining(total)
    {
      NextIndex(done, busy, next);
    }

    static lemma NextIndex(done: seq<nat>, busy: set<nat>, next: nat)
      requires Elements(done) !! busy && Elements(done) + busy == Indices(next)
      ensures next !in busy && Elements(done) !! busy + {next}
      ensures Elements(done) + (busy + {next}) == Indices(next + 1)
    {
      assert next !in Indices(next);
      assert Indices(next + 1) == Indices(next) + {next};
    }

    lemma CompleteConserves(total: nat, n: nat, done: seq<nat>, id: nat)
      requires Conserved(total, n, done) && id in busy
      ensures Complete(id).Conserved(total, n, done + [id]) && Complete(id).Remaining(total) < Remaining(total)
      ensures id < total
    {
      assert id in Indices(next);
      DoneNext(done, busy, id);
    }

    static lemma DoneNext(done: seq<nat>, busy: set<nat>, id: nat)
      requires NoDuplicates(done) && Elements(done) !! busy && id in busy
      ensures NoDuplicates(done + [id]) && Elements(done + [id]) !! busy - {id}
      ensures Elements(done + [id]) + (busy - {id}) == Elements(done) + busy
    {
      assert id !in Elements(done);
      assert Elements(done + [id]) == Elements(done) + {id};
    }

    // When all workers have exited, every task has been completed.
    lemma AllCompleted(total: nat, n: nat, done: seq<nat>)
      requires Conserved(total, n, done) && n >= 1 && idle == 0 && busy == {}
      ensures IsPermutation(done, total)
    {
      DoneBounded(total, n, done);
      assert Elements(done) == Indices(total);
      ElementsCardinality(done);
      IndicesCardinality(total);
    }

    lemma DoneBounded(total: nat, n: nat, done: seq<nat>)
      requires Conserved(total, n, done)
      ensures forall j :: 0 <= j < |done| ==> done[j] < total
      ensures |done| + |busy| <= total
    {
      forall j | 0 <= j < |done|
        ensures done[j] < total
      {
        assert done[j] in Elements(done);
        assert done[j] in Indices(next);
      }
      ElementsCardinality(done);
      IndicesCardinality(next);
    }
  }
}
