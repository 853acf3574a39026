// Copying every ladder from one store into another, and the choice of
// backend by name (main.go). Both stores are seen only through the storage
// interface; their states are independent, and reads leave the input's
// state as it is.
module Transfer {
  import opened Records
  import opened Store
  import opened Sqlite

  /** One iteration of the copy loop: fetch the group's entries from the
      input and hand them, unchanged, to the output's `updateLadder`. A
      failed fetch writes nothing. */
  function CopyGroup<I, O>(input: Db<I>, si: I, output: Db<O>, so: O, group: string): (r: (O, Outcome))
    ensures input.getLadder(si, group).Err? ==> r == (so, Fail(input.getLadder(si, group).error))
    ensures input.getLadder(si, group).Ok? ==> r == output.updateLadder(so, input.getLadder(si, group).value)
  {
    match input.getLadder(si, group)
    case Err(e) => (so, Fail(e))
    case Ok(ranks) => output.updateLadder(so, ranks)
  }

  /** The copy loop as a write step over group names. */
  function CopyStep<I, O>(input: Db<I>, si: I, output: Db<O>): (O, string) -> (O, Outcome) {
    (so: O, g: string) => CopyGroup(input, si, output, so, g)
  }

  /** What `transferData` leaves in the output and returns. */
  function Transferred<I, O>(input: Db<I>, si: I, output: Db<O>, so: O): (O, Outcome) {
    match input.getLadders(si)
    case Err(e) => (so, Fail(e))
    case Ok(groups) => WriteEach(CopyStep(input, si, output), so, groups)
  }

  /** `transferData`: for each group the input lists, in that order, copy
      its entries into the output; the first error ends the run. */
  method TransferData<I, O>(input: Db<I>, si: I, output: Db<O>, so: O) returns (so': O, o: Outcome)
    ensures (so', o) == Transferred(input, si, output, so)
  {
    var listed := input.getLadders(si);
    if listed.Err? {
      return so, Fail(listed.error);
    }
    var groups := listed.value;
    var step := CopyStep(input, si, output);
    so' := so;
    for i := 0 to |groups|
      invariant WriteEach(step, so, groups[..i]) == (so', Pass)
    {
      var ranks := input.getLadder(si, groups[i]);
      if ranks.Err? {
        WriteEachStopsAt(step, so, groups, i, so', ranks.error);
        return so', Fail(ranks.error);
      }
      var (s1, o1) := output.updateLadder(so', ranks.value);
      if o1.Fail? {
        WriteEachStopsAt(step, so, groups, i, so', o1.error);
        return s1, o1;
      }
      WriteEachSnoc(step, so, groups[..i], groups[i], so');
      assert groups[..i + 1] == groups[..i] + [groups[i]];
      so' := s1;
    }
    assert groups[..|groups|] == groups;
    return so', Pass;
  }

  /** With no groups to copy the output is untouched and the transfer
      succeeds. */
  lemma TransferNothing<I, O>(input: Db<I>, si: I, output: Db<O>, so: O)
    requires input.getLadders(si) == Ok([])
    ensures Transferred(input, si, output, so) == (so, Pass)
  {
  }

  /** The entries fetched for each group, in group order. */
  function Fetched<I>(input: Db<I>, si: I, groups: seq<string>): (r: seq<seq<Ladder>>)
    requires forall i :: 0 <= i < |groups| ==> input.getLadder(si, groups[i]).Ok?
    ensures |r| == |groups|
    ensures forall i :: 0 <= i < |groups| ==> r[i] == input.getLadder(si, groups[i]).value
  {
    seq(|groups|, i requires 0 <= i < |groups| => input.getLadder(si, groups[i]).value)
  }

  /** When every fetch succeeds, the transfer is `updateLadder` applied to
      each group's entries in turn, stopping at the first failure. */
  lemma {:induction false} CopyIsUpdates<I, O>(input: Db<I>, si: I, output: Db<O>, so: O, groups: seq<string>)
    requires forall i :: 0 <= i < |groups| ==> input.getLadder(si, groups[i]).Ok?
    ensures WriteEach(CopyStep(input, si, output), so, groups) == WriteEach(output.updateLadder, so, Fetched(input, si, groups))
    decreases |groups|
  {
    if groups != [] {
      var f := Fetched(input, si, groups);
      var (s1, o1) := output.updateLadder(so, f[0]);
      assert CopyStep(input, si, output)(so, groups[0]) == (s1, o1);
      if o1.Pass? {
        CopyIsUpdates(input, si, output, s1, groups[1..]);
        assert Fetched(input, si, groups[1..]) == f[1..];
      }
    }
  }

  /** When the first j groups copy cleanly and group j fails, either at the
      fetch or at the write, that error is what the transfer returns and no
      later group is copied. */
  lemma TransferStopsAt<I, O>(input: Db<I>, si: I, output: Db<O>, so: O, groups: seq<string>, j: nat, before: O)
    requires input.getLadders(si) == Ok(groups) && j < |groups|
    requires WriteEach(CopyStep(input, si, output), so, groups[..j]) == (before, Pass)
    requires CopyGroup(input, si, output, before, groups[j]).1.Fail?
    ensures Transferred(input, si, output, so) == CopyGroup(input, si, output, before, groups[j])
  {
    var r := CopyGroup(input, si, output, before, groups[j]);
    WriteEachStopsAt(CopyStep(input, si, output), so, groups, j, before, r.1.error);
  }

  /** Copying into sqlite: the writes cannot fail, so the transfer fails
      only at a fetch, and when every fetch succeeds the output holds each
      group's entries written in order. */
  lemma {:induction false} IntoSqlite<I>(input: Db<I>, si: I, getLadders: Table -> Result<seq<string>>, t: Table, groups: seq<string>)
    requires forall i :: 0 <= i < |groups| ==> input.getLadder(si, groups[i]).Ok?
    ensures WriteEach(CopyStep(input, si, SqliteDb(getLadders)), t, groups) == (Replayed(t, Fetched(input, si, groups)), Pass)
    decreases |groups|
  {
    if groups != [] {
      var f := Fetched(input, si, groups);
      var t1 := UpdateAll(t, f[0]);
      assert CopyStep(input, si, SqliteDb(getLadders))(t, groups[0]) == (t1, Pass);
      IntoSqlite(input, si, getLadders, t1, groups[1..]);
      assert Fetched(input, si, groups[1..]) == f[1..];
    }
  }

  /** The table after writing each list of entries in turn. */
  function Replayed(t: Table, lists: seq<seq<Ladder>>): (t': Table)
    ensures Valid(t) ==> Valid(t')
    decreases |lists|
  {
    if lists == [] then t else Replayed(UpdateAll(t, lists[0]), lists[1..])
  }

  /** The backends a database name can select. */
  datatype Backend = SqliteBackend | BoltBackend

  /** `openDatabase`'s name check: only "sqlite" and "boltdb" open a
      backend; any other name is an error. */
  function OpenDatabase(name: string): (r: Result<Backend>)
    ensures r == Ok(SqliteBackend) <==> name == "sqlite"
    ensures r == Ok(BoltBackend) <==> name == "boltdb"
    ensures r.Err? <==> name != "sqlite" && name != "boltdb"
    ensures r.Err? ==> r.error == NewError("invalid database argument") && !IsNotFound(r.error)
  {
    if name == "sqlite" then Ok(SqliteBackend)
    else if name == "boltdb" then Ok(BoltBackend)
    else Err(NewError("invalid database argument"))
  }
}
