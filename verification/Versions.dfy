/** Collections of versions, given by membership, and the newest version of each
    key in them. */
module Versions {
  import opened Bytes
  import opened Levels

  /** A version of its key that no version in the collection is newer than. */
  ghost predicate Newest(p: Entry -> bool, e: Entry) {
    p(e) && forall d :: p(d) && d.key == e.key ==> d.seqNo <= e.seqNo
  }

  /** Two versions of one key with one sequence number are the same. */
  ghost predicate Distinct(p: Entry -> bool) {
    forall d, e :: p(d) && p(e) && d.key == e.key && d.seqNo == e.seqNo ==> d == e
  }

  ghost predicate Within(q: Entry -> bool, p: Entry -> bool) {
    forall e :: q(e) ==> p(e)
  }

  /** Every version in p is matched by one in q that is at least as new. */
  ghost predicate CoveredBy(p: Entry -> bool, q: Entry -> bool) {
    forall e :: p(e) ==> Matched(q, e)
  }

  ghost predicate Matched(q: Entry -> bool, e: Entry) {
    exists o :: q(o) && o.key == e.key && e.seqNo <= o.seqNo
  }

  function Either(p: Entry -> bool, q: Entry -> bool): Entry -> bool {
    (e: Entry) => p(e) || q(e)
  }

  lemma NewestInPart(p: Entry -> bool, q: Entry -> bool, e: Entry)
    requires Distinct(p) && Within(q, p) && CoveredBy(p, q) && Newest(p, e)
    ensures Newest(q, e)
  {
    assert Matched(q, e);
    var o :| q(o) && o.key == e.key && e.seqNo <= o.seqNo;
    assert p(o) && o == e;
  }

  lemma NewestInWhole(p: Entry -> bool, q: Entry -> bool, e: Entry)
    requires Within(q, p) && CoveredBy(p, q) && Newest(q, e)
    ensures Newest(p, e)
  {
    forall d | p(d) && d.key == e.key ensures d.seqNo <= e.seqNo {
      assert Matched(q, d);
      var o :| q(o) && o.key == d.key && d.seqNo <= o.seqNo;
    }
  }

  /** A part that matches every version of the whole has the same newest versions. */
  lemma SameNewest(p: Entry -> bool, q: Entry -> bool, e: Entry)
    requires Distinct(p) && Within(q, p) && CoveredBy(p, q)
    ensures Newest(p, e) <==> Newest(q, e)
  {
    if Newest(p, e) {
      NewestInPart(p, q, e);
    }
    if Newest(q, e) {
      NewestInWhole(p, q, e);
    }
  }

  /** Sequence numbers are bounded, so every version is matched by a newest one. */
  lemma {:induction false} HasNewest(p: Entry -> bool, e: Entry) returns (o: Entry)
    requires p(e)
    ensures Newest(p, o) && o.key == e.key && e.seqNo <= o.seqNo
    decreases U64_MAX - e.seqNo
  {
    if Newest(p, e) {
      o := e;
    } else {
      var d :| p(d) && d.key == e.key && d.seqNo > e.seqNo;
      o := HasNewest(p, d);
    }
  }

  /** Two collections have the same newest versions exactly when each holds the
      newest versions of the other. */
  lemma SameNewestExactly(p: Entry -> bool, q: Entry -> bool)
    ensures (forall e :: Newest(p, e) <==> Newest(q, e)) <==>
            (forall e :: Newest(p, e) ==> q(e)) && (forall e :: Newest(q, e) ==> p(e))
  {
    if (forall e :: Newest(p, e) ==> q(e)) && (forall e :: Newest(q, e) ==> p(e)) {
      forall e ensures Newest(p, e) <==> Newest(q, e) {
        if Newest(p, e) {
          var o := HasNewest(q, e);
          assert p(o);
        }
        if Newest(q, e) {
          var o := HasNewest(p, e);
          assert q(o);
        }
      }
    }
  }
}
