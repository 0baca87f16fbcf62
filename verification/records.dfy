/** The record shapes the handlers exchange with the database tables
    `participants`, `purchases`, `pending_purchases` and `trophies`, and with the
    browser. Prices are JavaScript numbers and are written here as `real`. */
module Records {
  import opened Common

  /** A confirmed purchase (table `purchases`). */
  datatype Purchase = Purchase(
    id: int,
    participantId: int,
    gameName: string,
    gameImage: Option<string>,
    gameAppid: Option<int>,
    price: real)

  /** A trophy row (table `trophies`): position 1, 2, 3 for the podium, 5 for shame. */
  datatype Trophy = Trophy(
    id: int,
    participantId: int,
    month: int,
    year: int,
    position: int,
    totalSpent: real)

  /** A detected or suggested purchase awaiting approval (table `pending_purchases`). */
  datatype PendingPurchase = PendingPurchase(
    id: int,
    participantId: int,
    gameName: string,
    gameAppid: int,
    gameImage: Option<string>,
    price: real,
    currency: string,
    detectedAt: string)

  /** How a read of the pending table ended. */
  datatype PendingRead = PendingAnswered(rows: seq<PendingPurchase>) | PendingRefused | PendingThrew {

    /** The rows as a caller that ignores errors sees them: a read answered with
        an error counts as an empty table. */
    function Table(): (r: seq<PendingPurchase>)
      ensures PendingAnswered? ==> r == rows
      ensures !PendingAnswered? ==> r == []
    {
      if PendingAnswered? then rows else []
    }
  }

  /** A participant row as stored. */
  datatype ParticipantRow = ParticipantRow(
    id: int,
    name: string,
    avatarUrl: Option<string>,
    countryCode: Option<string>)

  /** A participant as the browser receives it from `GET /api/data`: the row
      joined with its purchases, its trophies and its spending total. */
  datatype ParticipantView = ParticipantView(
    id: int,
    name: string,
    avatarUrl: Option<string>,
    countryCode: Option<string>,
    total: real,
    purchases: seq<Purchase>,
    trophies: seq<Trophy>)

  /** The rows of `purchases` owned by participant `pid`, in table order. */
  function PurchasesOf(pid: int, purchases: seq<Purchase>): (r: seq<Purchase>)
    ensures forall p :: p in r <==> p in purchases && p.participantId == pid
  {
    Filter(purchases, (p: Purchase) => p.participantId == pid)
  }

  /** The sum of the prices of `purchases`. */
  function PriceSum(purchases: seq<Purchase>): real
  {
    SumBy(purchases, (p: Purchase) => p.price)
  }

  /** What participant `pid` spent: the sum of the prices of its purchases. */
  function TotalFor(pid: int, purchases: seq<Purchase>): real
  {
    PriceSum(PurchasesOf(pid, purchases))
  }
}
