// The storage interface the ranking engine is written against (database.go).
// Its methods become total functions over an abstract backend state `S`:
// a query maps a state to a result, a write maps a state to the next state
// and the `error` it returns. Close and createLadderTable are not modelled.
module Store {
  import opened Records

  datatype Db<!S> = Db(
    getUser: (S, string, string) -> Result<Ladder>,        // (state, userID, channelID)
    getUserAbove: (S, string, int) -> Result<Ladder>,      // (state, channelID, rank)
    getLastUser: (S, string) -> Result<Ladder>,
    getLadders: S -> Result<seq<string>>,
    getLadder: (S, string) -> Result<seq<Ladder>>,
    clearLadder: (S, string) -> (S, Outcome),
    removeUser: (S, Ladder) -> (S, Outcome),
    insertOrUpdate: (S, Ladder) -> (S, Outcome),
    updateLadder: (S, seq<Ladder>) -> (S, Outcome))

  /** A loop that issues `write` for each entry in order and returns the
      first error: the writes before the failing one stay applied. */
  function WriteEach<S, T>(write: (S, T) -> (S, Outcome), s: S, ls: seq<T>): (S, Outcome)
    decreases |ls|
  {
    if ls == [] then (s, Pass)
    else
      var (s1, o) := write(s, ls[0]);
      if o.Fail? then (s1, o) else WriteEach(write, s1, ls[1..])
  }

  /** Writing a + b one entry at a time is writing a, then, if nothing
      failed, writing b from where a left off: a failure inside b leaves
      all of a applied, so such a loop is not atomic. */
  lemma {:induction false} WriteEachConcat<S, T>(write: (S, T) -> (S, Outcome), s: S, a: seq<T>, b: seq<T>)
    ensures WriteEach(write, s, a + b) ==
      (var (s1, o) := WriteEach(write, s, a); if o.Fail? then (s1, o) else WriteEach(write, s1, b))
  {
    if a == [] {
      assert a + b == b;
    } else {
      var (s1, o) := write(s, a[0]);
      assert (a + b)[0] == a[0];
      assert (a + b)[1..] == a[1..] + b;
      if o.Pass? {
        WriteEachConcat(write, s1, a[1..], b);
      }
    }
  }

  /** When the writes before position j all succeed and the write at j
      fails, the loop returns that failure in the state it left, and no
      later entry is written. */
  lemma WriteEachStopsAt<S, T>(write: (S, T) -> (S, Outcome), s: S, ls: seq<T>, j: nat, before: S, e: Error)
    requires j < |ls|
    requires WriteEach(write, s, ls[..j]) == (before, Pass)
    requires write(before, ls[j]).1 == Fail(e)
    ensures WriteEach(write, s, ls) == (write(before, ls[j]).0, Fail(e))
  {
    assert ls == ls[..j] + ls[j..];
    WriteEachConcat(write, s, ls[..j], ls[j..]);
    assert ls[j..][0] == ls[j];
  }

  /** Writing one more entry after a run of successful writes. */
  lemma WriteEachSnoc<S, T>(write: (S, T) -> (S, Outcome), s: S, ls: seq<T>, x: T, before: S)
    requires WriteEach(write, s, ls) == (before, Pass)
    ensures WriteEach(write, s, ls + [x]) == write(before, x)
  {
    WriteEachConcat(write, s, ls, [x]);
    assert [x][1..] == [];
  }
}
