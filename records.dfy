// The ladder record, the error values the backends and the engine pass
// around, and the rank ordering of a list of ladder entries (main.go).
module Records {

  /** One participant's position in one channel's ladder. `id` is the
      relational row id; rank 0 is the top of the ladder. */
  datatype Ladder = Ladder(id: int, channelId: string, userId: string, rank: int)

  /** The zero value of a ladder record (what a fresh slice slot holds). */
  function ZeroLadder(): (z: Ladder)
    ensures z.channelId == "" && z.userId == "" && z.rank == 0 && z.id == 0
  {
    Ladder(0, "", "", 0)
  }

  datatype Option<T> = None | Some(value: T)

  /** The root of an error once every wrapping context is peeled off:
      the `errNotFound` sentinel, or any other failure. */
  datatype Cause = NotFound | Failure(message: string)

  /** An error value: its root cause and the contexts it was wrapped in,
      outermost first. */
  datatype Error = Error(cause: Cause, context: seq<string>)

  datatype Result<T> = Ok(value: T) | Err(error: Error)

  /** What a call that returns only an `error` returns: nil or an error. */
  datatype Outcome = Pass | Fail(error: Error)

  /** Whether the cause of `e` is the not-found sentinel. */
  predicate IsNotFound(e: Error) {
    e.cause == NotFound
  }

  /** A fresh error with no context. */
  function NewError(message: string): (e: Error)
    ensures !IsNotFound(e) && e.context == []
  {
    Error(Failure(message), [])
  }

  /** Wrapping adds a context and keeps the cause, so a wrapped not-found
      error is still recognised as not found. */
  function Wrap(e: Error, context: string): (w: Error)
    ensures IsNotFound(w) <==> IsNotFound(e)
    ensures w.cause == e.cause && w.context == [context] + e.context
  {
    Error(e.cause, [context] + e.context)
  }

  /** The not-found sentinel wrapped in one context. */
  function NotFoundError(context: string): (e: Error)
    ensures IsNotFound(e) && e.context == [context]
  {
    Wrap(Error(NotFound, []), context)
  }

  /** Wrapping a call's outcome: a nil error stays nil. */
  function WrapOutcome(o: Outcome, context: string): (w: Outcome)
    ensures w.Pass? <==> o.Pass?
    ensures o.Fail? ==> w.error == Wrap(o.error, context)
  {
    match o
    case Pass => Pass
    case Fail(e) => Fail(Wrap(e, context))
  }

  /** `ladders.Less`: entry i sorts before entry j. */
  predicate Less(l: seq<Ladder>, i: int, j: int)
    requires 0 <= i < |l| && 0 <= j < |l|
  {
    l[i].rank < l[j].rank
  }

  /** The order `sort.Sort` establishes with `Less`: no later entry is
      strictly less than an earlier one. */
  predicate SortedByRank(l: seq<Ladder>) {
    forall i, j :: 0 <= i < j < |l| ==> !Less(l, j, i)
  }

  /** `Less` is a strict weak order, which is what `sort.Sort` needs of it:
      irreflexive, transitive, and with transitive incomparability (entries
      of equal rank are interchangeable). */
  lemma LessIsStrictWeakOrder(l: seq<Ladder>)
    ensures forall i :: 0 <= i < |l| ==> !Less(l, i, i)
    ensures forall i, j, k :: 0 <= i < |l| && 0 <= j < |l| && 0 <= k < |l| ==>
      (Less(l, i, j) && Less(l, j, k) ==> Less(l, i, k))
    ensures forall i, j, k :: 0 <= i < |l| && 0 <= j < |l| && 0 <= k < |l| ==>
      (!Less(l, i, j) && !Less(l, j, i) && !Less(l, j, k) && !Less(l, k, j) ==>
       !Less(l, i, k) && !Less(l, k, i))
  {
  }

  /** `ladders.Swap`: exchanges positions i and j in place. */
  method Swap(l: array<Ladder>, i: int, j: int)
    requires 0 <= i < l.Length && 0 <= j < l.Length
    modifies l
    ensures l[i] == old(l[j]) && l[j] == old(l[i])
    ensures forall k :: 0 <= k < l.Length && k != i && k != j ==> l[k] == old(l[k])
    ensures multiset(l[..]) == multiset(old(l[..]))
  {
    l[i], l[j] := l[j], l[i];
  }
}
