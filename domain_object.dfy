/**
 * The identifier authority shared by contacts and meetings. The source keeps
 * one process-wide counter; here it is an explicit `IdBank` object that every
 * contact and meeting constructor draws from, so both kinds of object share
 * one namespace of ids 1, 2, 3, ...
 */
module DomainObject {

  class IdBank {
    /** The last id issued, or the highest id restored, whichever is larger (0 at start). */
    var last: nat

    constructor ()
      ensures last == 0
    {
      last := 0;
    }

    /** Issue an id: increment the counter by exactly one and hand out its new value. */
    method Issue() returns (id: nat)
      modifies this
      ensures id == old(last) + 1 && last == id
    {
      last := last + 1;
      id := last;
    }

    /** What restoring an object with id `id` does to the counter: raise it to that id, never lower it. */
    method Observe(id: int)
      modifies this
      ensures last == Raised(old(last), id)
      ensures last >= old(last) && last >= id
    {
      if id > last {
        last := id;
      }
    }
  }

  /** The counter after an object with id `id` has been restored. */
  function Raised(counter: nat, id: int): (r: nat)
    ensures r >= counter && r >= id
    ensures r == counter || r == id
  {
    if id > counter then id else counter
  }

  /** The counter after objects with the ids `ids` have been restored, in order. */
  function RaisedAll(counter: nat, ids: seq<int>): (r: nat)
    ensures r >= counter
    ensures forall i :: 0 <= i < |ids| ==> r >= ids[i]
    decreases |ids|
  {
    if ids == [] then counter else RaisedAll(Raised(counter, ids[0]), ids[1..])
  }

  /** The ids `n` successive constructions receive when the counter stands at `counter`. */
  function Issued(counter: nat, n: nat): (r: seq<nat>)
    ensures |r| == n
    decreases n
  {
    if n == 0 then [] else [counter + 1] + Issued(counter + 1, n - 1)
  }

  /** Successive constructions receive consecutive ids, all above the counter, strictly increasing. */
  lemma {:induction false} IssuedIncreasing(counter: nat, n: nat)
    ensures forall i :: 0 <= i < n ==> Issued(counter, n)[i] == counter + 1 + i
    ensures forall i, j :: 0 <= i < j < n ==> Issued(counter, n)[i] < Issued(counter, n)[j]
    decreases n
  {
    if n > 0 {
      IssuedIncreasing(counter + 1, n - 1);
    }
  }

  /**
   * After objects with ids `restored` have been restored, every id issued
   * later is greater than each of them and than any id issued before the
   * restore, so none collides.
   */
  lemma {:induction false} IssuedAfterRestoreIsFresh(counter: nat, restored: seq<int>, n: nat)
    ensures forall i, j :: 0 <= i < n && 0 <= j < |restored| ==>
      Issued(RaisedAll(counter, restored), n)[i] > restored[j]
    ensures forall i :: 0 <= i < n ==> Issued(RaisedAll(counter, restored), n)[i] > counter
  {
    IssuedIncreasing(RaisedAll(counter, restored), n);
  }
}
