/** app/api/steam/pending/route.ts: the approval queue. `GET` lists the pending
    purchases, `POST` approves one (copies it into `purchases`, then deletes it
    from `pending_purchases`), `DELETE` rejects one.

    The two tables are an explicit `Tables` value; the outcomes of the insert and
    delete requests are boolean parameters, and the id the database gives an
    inserted purchase is the parameter `newId`. */
module PendingRoute {
  import opened Common
  import opened Records

  /** The two tables the handlers write. */
  datatype Tables = Tables(purchases: seq<Purchase>, pending: seq<PendingPurchase>)

  /** The HTTP status classes the handlers answer with. */
  datatype Status = Success | BadRequest | ServerError

  datatype Outcome = Outcome(status: Status, tables: Tables)

  /** `GET`: the empty list when the database is not configured (no request is
      made) or the read is answered with an error; the database's rows (already
      ordered newest first by the query) when it answers OK. The read is not
      guarded, so a read that throws leaves the handler and the framework answers
      500, modelled as None. */
  function ListPending(configured: bool, answer: PendingRead): (r: Option<seq<PendingPurchase>>)
    ensures r.None? <==> configured && answer.PendingThrew?
    ensures !configured ==> r == Some([])
    ensures configured && answer.PendingRefused? ==> r == Some([])
    ensures configured && answer.PendingAnswered? ==> r == Some(answer.rows)
  {
    if !configured then Some([])
    else match answer
      case PendingAnswered(rows) => Some(rows)
      case PendingRefused => Some([])
      case PendingThrew => None
  }

  /** With the database configured, an answered read is listed as it is: the same
      rows in the same order; an error answer lists nothing. */
  lemma ListingShowsTheQueue(t: Tables)
    ensures ListPending(true, PendingAnswered(t.pending)) == Some(t.pending)
    ensures ListPending(true, PendingRefused) == Some([])
  {
  }

  /** The JSON body of an approval; absent fields are None. */
  datatype ApproveBody = ApproveBody(
    id: Option<int>, participantId: Option<int>, gameName: Option<string>,
    gameAppid: Option<int>, gameImage: Option<string>, price: Option<real>)

  /** The guard on missing fields does not fire: both ids are
      present and non-zero, the name present and non-empty. */
  predicate Complete(body: ApproveBody)
  {
    && body.id.Some? && body.id.value != 0
    && body.participantId.Some? && body.participantId.value != 0
    && body.gameName.Some? && body.gameName.value != ""
  }

  /** The purchase row the approval inserts: the body's fields, a missing price becoming 0. */
  function Approved(body: ApproveBody, newId: int): (r: Purchase)
    requires Complete(body)
    ensures r.id == newId && r.participantId == body.participantId.value && r.gameName == body.gameName.value
    ensures r.gameAppid == body.gameAppid && r.gameImage == body.gameImage
    ensures body.price.Some? ==> r.price == body.price.value
    ensures body.price.None? ==> r.price == 0.0
  {
    Purchase(newId, body.participantId.value, body.gameName.value, body.gameImage, body.gameAppid, body.price.GetOr(0.0))
  }

  /** The pending rows whose id is not `id`: what a delete filtered on that id leaves. */
  function DropPending(pending: seq<PendingPurchase>, id: int): (r: seq<PendingPurchase>)
    ensures forall x :: x in r <==> x in pending && x.id != id
    ensures Subsequence(r, pending)
  {
    Filter(pending, (x: PendingPurchase) => x.id != id)
  }

  /** `POST`: approve a pending purchase. `insertOk` is false when the insert is
      answered with an error or its request throws (both end in 500 with nothing
      written); `delete` is how the delete request that follows ended. Its answer
      is not looked at, but a request that throws escapes the handler, which then
      answers 500 although the purchase is already inserted. */
  function Approve(t: Tables, body: ApproveBody, newId: int, insertOk: bool, delete: WriteResult): (r: Outcome)
    // an incomplete body is refused before any write
    ensures r.status == BadRequest <==> !Complete(body)
    ensures r.status == ServerError <==> Complete(body) && (!insertOk || delete == WriteThrew)
    ensures r.status == BadRequest || !insertOk ==> r.tables == t
    // once the insert is taken the purchase exists, whatever becomes of the delete
    ensures Complete(body) && insertOk ==> r.tables.purchases == t.purchases + [Approved(body, newId)]
    ensures Complete(body) && insertOk && delete == WriteOk ==> r.tables.pending == DropPending(t.pending, body.id.value)
    ensures Complete(body) && insertOk && delete != WriteOk ==> r.tables.pending == t.pending
    // success means the insert was taken and the delete request did not throw
    ensures r.status == Success ==> insertOk && delete != WriteThrew
  {
    if !Complete(body) then Outcome(BadRequest, t)
    else if !insertOk then Outcome(ServerError, t)
    else
      var purchases := t.purchases + [Approved(body, newId)];
      var pending := if delete == WriteOk then DropPending(t.pending, body.id.value) else t.pending;
      Outcome(if delete == WriteThrew then ServerError else Success, Tables(purchases, pending))
  }

  /** The body the approval dialog sends for pending row `p`, with `price` the
      price it approves at. */
  function BodyFor(p: PendingPurchase, price: real): ApproveBody
  {
    ApproveBody(Some(p.id), Some(p.participantId), Some(p.gameName), Some(p.gameAppid), p.gameImage, Some(price))
  }

  /** The ids of `pending` are pairwise distinct. */
  ghost predicate UniqueIds(pending: seq<PendingPurchase>)
  {
    forall i, j :: 0 <= i < j < |pending| ==> pending[i].id != pending[j].id
  }

  /** Approving row `p` with both writes answered OK moves it: it leaves the queue,
      a purchase with its fields and the approved price appears, every other
      pending row stays, and the two tables together keep their size. */
  lemma ApprovalMovesTheRow(t: Tables, p: PendingPurchase, price: real, newId: int)
    requires p in t.pending && UniqueIds(t.pending)
    requires p.id != 0 && p.participantId != 0 && p.gameName != ""
    ensures var r := Approve(t, BodyFor(p, price), newId, true, WriteOk);
            && r.status == Success
            && r.tables.purchases == t.purchases + [Purchase(newId, p.participantId, p.gameName, p.gameImage, Some(p.gameAppid), price)]
            && p !in r.tables.pending
            && (forall x :: x in t.pending && x != p ==> x in r.tables.pending)
            && |r.tables.purchases| + |r.tables.pending| == |t.purchases| + |t.pending|
  {
    var rest := DropPending(t.pending, p.id);
    forall x | x in t.pending && x != p ensures x.id != p.id {
      var i :| 0 <= i < |t.pending| && t.pending[i] == x;
      var j :| 0 <= j < |t.pending| && t.pending[j] == p;
      assert i != j;
    }
    DropUniqueShrinksByOne(t.pending, p);
  }

  /** Dropping the id of a row whose id is unique removes exactly one row. */
  lemma {:induction false} DropUniqueShrinksByOne(pending: seq<PendingPurchase>, p: PendingPurchase)
    requires p in pending && UniqueIds(pending)
    ensures |DropPending(pending, p.id)| == |pending| - 1
    decreases |pending|
  {
    assert DropPending(pending, p.id)
           == (if pending[0].id != p.id then [pending[0]] else []) + DropPending(pending[1..], p.id);
    if pending[0] == p {
      assert forall x :: x in pending[1..] ==> x.id != p.id by {
        forall x | x in pending[1..] ensures x.id != p.id {
          var i :| 0 <= i < |pending[1..]| && pending[1..][i] == x;
          assert pending[i + 1] == x;
        }
      }
      DropNothing(pending[1..], p.id);
    } else {
      assert pending[0].id != p.id by {
        var j :| 0 <= j < |pending| && pending[j] == p;
        assert j != 0;
      }
      assert p in pending[1..];
      DropUniqueShrinksByOne(pending[1..], p);
    }
  }

  /** Dropping an id no row has changes nothing. */
  lemma {:induction false} DropNothing(pending: seq<PendingPurchase>, id: int)
    requires forall x :: x in pending ==> x.id != id
    ensures DropPending(pending, id) == pending
    decreases |pending|
  {
    if |pending| > 0 {
      assert pending[0] in pending;
      assert pending[1..] + [] == pending[1..];
      DropNothing(pending[1..], id);
      assert [pending[0]] + pending[1..] == pending;
    }
  }

  /** When the delete after a successful insert is refused, the approval still
      reports success, the row stays queued, and approving it again inserts a
      second purchase for the same game. */
  lemma FailedDeleteLetsApprovalRepeat(t: Tables, body: ApproveBody, id1: int, id2: int)
    requires Complete(body)
    ensures var first := Approve(t, body, id1, true, WriteRefused);
            var second := Approve(first.tables, body, id2, true, WriteOk);
            && first.status == Success && first.tables.pending == t.pending
            && second.status == Success
            && second.tables.purchases == t.purchases + [Approved(body, id1), Approved(body, id2)]
  {
  }

  /** When the delete request throws, the approval reports a server error although
      the purchase was inserted and the row is still queued: a retry inserts it twice. */
  lemma ThrownDeleteHidesTheInsert(t: Tables, body: ApproveBody, id1: int, id2: int)
    requires Complete(body)
    ensures var first := Approve(t, body, id1, true, WriteThrew);
            var second := Approve(first.tables, body, id2, true, WriteOk);
            && first.status == ServerError
            && first.tables == Tables(t.purchases + [Approved(body, id1)], t.pending)
            && second.tables.purchases == t.purchases + [Approved(body, id1), Approved(body, id2)]
  {
  }

  /** The decimal text of an integer, as the client puts it in the query string. */
  function Decimal(n: int): (r: string)
    ensures |r| >= 1
  {
    if n < 0 then "-" + Digits(-n) else Digits(n)
  }

  /** The decimal digits of a natural number, most significant first. */
  function Digits(n: nat): (r: string)
    ensures |r| >= 1 && '0' <= r[0] <= '9'
    ensures n < 10 <==> |r| == 1
  {
    if n < 10 then [Digit(n)] else Digits(n / 10) + [Digit(n % 10)]
  }

  function Digit(d: int): (c: char)
    requires 0 <= d < 10
    ensures '0' <= c <= '9'
  {
    "0123456789"[d]
  }

  /** Different integers have different decimal texts, so a filter on the text of
      an id matches exactly the rows with that id. */
  lemma DecimalInjective(m: int, n: int)
    requires Decimal(m) == Decimal(n)
    ensures m == n
  {
    if m < 0 && n < 0 {
      assert Digits(-m) == Decimal(m)[1..] == Decimal(n)[1..] == Digits(-n);
      DigitsInjective(-m, -n);
    } else if m < 0 || n < 0 {
      // one text starts with '-', the other with a digit
      assert false;
    } else {
      DigitsInjective(m, n);
    }
  }

  lemma {:induction false} DigitsInjective(m: nat, n: nat)
    requires Digits(m) == Digits(n)
    ensures m == n
    decreases m
  {
    var dm, dn := Digits(m), Digits(n);
    if m < 10 {
      assert n < 10;
      assert dm[0] == dn[0];
      DigitInjective(m, n);
    } else {
      assert n >= 10;
      assert dm[|dm| - 1] == Digit(m % 10) && dn[|dn| - 1] == Digit(n % 10);
      DigitInjective(m % 10, n % 10);
      assert dm[..|dm| - 1] == Digits(m / 10) && dn[..|dn| - 1] == Digits(n / 10);
      DigitsInjective(m / 10, n / 10);
    }
  }

  lemma DigitInjective(a: int, b: int)
    requires 0 <= a < 10 && 0 <= b < 10
    requires Digit(a) == Digit(b)
    ensures a == b
  {
  }

  /** `DELETE ?id=<text>`: reject the pending rows whose id has that text. The
      query parameter is None when absent. */
  function Reject(t: Tables, id: Option<string>, deleteOk: bool): (r: Outcome)
    // only an absent or empty parameter is refused; "0" passes the guard
    ensures r.status == BadRequest <==> id.None? || id.value == ""
    ensures r.status == ServerError <==> id.Some? && id.value != "" && !deleteOk
    ensures r.status != Success ==> r.tables == t
    ensures r.tables.purchases == t.purchases
    ensures r.status == Success ==>
              forall x :: x in r.tables.pending <==> x in t.pending && Decimal(x.id) != id.value
  {
    if id.None? || id.value == "" then Outcome(BadRequest, t)
    else if !deleteOk then Outcome(ServerError, t)
    else Outcome(Success, Tables(t.purchases, Filter(t.pending, (x: PendingPurchase) => Decimal(x.id) != id.value)))
  }

  /** Rejecting by the text of row `p`'s id removes exactly the rows with that id. */
  lemma RejectRemovesThatId(t: Tables, p: PendingPurchase)
    ensures var r := Reject(t, Some(Decimal(p.id)), true);
            r.status == Success && forall x :: x in r.tables.pending <==> x in t.pending && x.id != p.id
  {
    forall x | x in t.pending && Decimal(x.id) == Decimal(p.id) ensures x.id == p.id {
      DecimalInjective(x.id, p.id);
    }
  }

  /** The two handlers disagree about id 0: approval refuses it, rejection
      accepts its text "0". */
  lemma ZeroIdIsRejectableButNotApprovable(t: Tables, body: ApproveBody)
    requires body.id == Some(0)
    ensures Approve(t, body, 0, true, WriteOk).status == BadRequest
    ensures Reject(t, Some(Decimal(0)), true).status == Success
  {
  }
}
