/**
 * The MySQL tables the pages read and write (users, sessions, items, bids),
 * held by one Database object, with the single-statement updates the pages
 * issue. `available` says whether the server answers statements; when it
 * does not, every statement fails and changes nothing.
 */
module Tables {
  import opened Common

  type UserId = int

  /** A row of `users`. */
  datatype User = User(email: string, passwordHash: string)

  /** A row of `sessions`; the table is keyed by `session_token`. */
  datatype SessionRow = SessionRow(userId: UserId, ip: string, lastActive: int)

  /** A row of `items`; times are in seconds. */
  datatype Item = Item(
    id: int,
    sellerId: UserId,
    title: string,
    description: string,
    startPrice: real,
    startTime: int,
    endTime: int,
    winnerId: Option<UserId>,
    winningBidId: Option<int>)

  /** A row of `bids`. */
  datatype Bid = Bid(id: int, itemId: int, bidderId: UserId, amount: real)

  /** No two users share an e-mail address. */
  predicate EmailsUnique(users: map<UserId, User>)
  {
    forall a, b :: a in users && b in users && users[a].email == users[b].email ==> a == b
  }

  /** Some user is registered with `email`. */
  predicate EmailTaken(users: map<UserId, User>, email: string)
  {
    exists u :: u in users && users[u].email == email
  }

  /** The row an UPDATE ... SET last_active = NOW() WHERE session_token = ? leaves. */
  function Refreshed(sessions: map<string, SessionRow>, token: string, now: int): (r: map<string, SessionRow>)
    ensures r.Keys == sessions.Keys
    ensures token in r ==> r[token] == sessions[token].(lastActive := now)
    ensures forall t :: t in r && t != token ==> r[t] == sessions[t]
  {
    if token in sessions then sessions[token := sessions[token].(lastActive := now)] else sessions
  }

  /** A bid on `itemId`, and by `bidder` when one is given. */
  predicate BidCounts(b: Bid, itemId: int, bidder: Option<UserId>)
  {
    b.itemId == itemId && (bidder.None? || b.bidderId == bidder.value)
  }

  /**
   * MAX(bid_amount) over the bids on one item (and by one bidder when given):
   * None when no bid qualifies, which SQL reports as NULL.
   */
  function MaxBid(bids: seq<Bid>, itemId: int, bidder: Option<UserId>): (m: Option<real>)
    ensures m.None? <==> forall k :: 0 <= k < |bids| ==> !BidCounts(bids[k], itemId, bidder)
    ensures m.Some? ==> exists k :: 0 <= k < |bids| && BidCounts(bids[k], itemId, bidder) && bids[k].amount == m.value
    ensures m.Some? ==> forall k :: 0 <= k < |bids| && BidCounts(bids[k], itemId, bidder) ==> bids[k].amount <= m.value
  {
    if bids == [] then None
    else
      var rest := MaxBid(bids[1..], itemId, bidder);
      assert forall k :: 1 <= k < |bids| ==> bids[k] == bids[1..][k - 1];
      if !BidCounts(bids[0], itemId, bidder) then rest
      else if rest.None? || rest.value < bids[0].amount then Some(bids[0].amount)
      else rest
  }

  class Database {
    var available: bool
    var users: map<UserId, User>
    var sessions: map<string, SessionRow>
    var items: seq<Item>
    var bids: seq<Bid>
    /** The AUTO_INCREMENT counters of users and items. */
    var nextUserId: UserId
    var nextItemId: int

    ghost predicate Valid()
      reads this
    {
      && EmailsUnique(users)
      && 0 < nextUserId
      && (forall u :: u in users ==> 0 < u < nextUserId)
      && 0 < nextItemId
      && (forall i :: 0 <= i < |items| ==> 0 < items[i].id < nextItemId)
    }

    constructor (available: bool)
      ensures Valid() && this.available == available
      ensures users == map[] && sessions == map[] && items == [] && bids == []
    {
      this.available := available;
      users, sessions, items, bids := map[], map[], [], [];
      nextUserId, nextItemId := 1, 1;
    }

    /** INSERT INTO users; the new row gets the next AUTO_INCREMENT id. */
    method InsertUser(email: string, passwordHash: string) returns (id: Option<UserId>)
      requires Valid()
      modifies this
      ensures available == old(available) && sessions == old(sessions)
      ensures items == old(items) && bids == old(bids) && nextItemId == old(nextItemId)
      ensures !available ==> id.None? && users == old(users) && nextUserId == old(nextUserId)
      ensures available ==> id == Some(old(nextUserId)) && old(nextUserId) !in old(users)
                            && users == old(users)[old(nextUserId) := User(email, passwordHash)]
                            && nextUserId == old(nextUserId) + 1
      ensures !EmailTaken(old(users), email) ==> Valid()
    {
      if !available {
        return None;
      }
      id := Some(nextUserId);
      users := users[nextUserId := User(email, passwordHash)];
      nextUserId := nextUserId + 1;
    }

    /** INSERT INTO sessions; it fails when the token is already a key of the table. */
    method InsertSession(userId: UserId, token: string, ip: string, now: int) returns (ok: bool)
      modifies this
      ensures ok == (old(available) && token !in old(sessions))
      ensures sessions == if ok then old(sessions)[token := SessionRow(userId, ip, now)] else old(sessions)
      ensures available == old(available) && users == old(users) && items == old(items) && bids == old(bids)
      ensures nextUserId == old(nextUserId) && nextItemId == old(nextItemId)
    {
      ok := available && token !in sessions;
      if ok {
        sessions := sessions[token := SessionRow(userId, ip, now)];
      }
    }

    /** UPDATE sessions SET last_active = NOW() WHERE session_token = ? */
    method TouchSession(token: string, now: int)
      modifies this
      ensures sessions == if old(available) then Refreshed(old(sessions), token, now) else old(sessions)
      ensures available == old(available) && users == old(users) && items == old(items) && bids == old(bids)
      ensures nextUserId == old(nextUserId) && nextItemId == old(nextItemId)
    {
      if available {
        sessions := Refreshed(sessions, token, now);
      }
    }

    /** DELETE FROM sessions WHERE session_token = ? */
    method DeleteSession(token: string)
      modifies this
      ensures sessions == if old(available) then old(sessions) - {token} else old(sessions)
      ensures available == old(available) && users == old(users) && items == old(items) && bids == old(bids)
      ensures nextUserId == old(nextUserId) && nextItemId == old(nextItemId)
    {
      if available {
        sessions := sessions - {token};
      }
    }

    /** INSERT INTO items; the new row gets the next AUTO_INCREMENT id and no winner. */
    method InsertItem(sellerId: UserId, title: string, description: string,
                      startPrice: real, startTime: int, endTime: int) returns (id: Option<int>)
      requires Valid()
      modifies this
      ensures Valid()
      ensures available == old(available) && users == old(users) && sessions == old(sessions)
      ensures bids == old(bids) && nextUserId == old(nextUserId)
      ensures !available ==> id.None? && items == old(items) && nextItemId == old(nextItemId)
      ensures available ==> id == Some(old(nextItemId)) && nextItemId == old(nextItemId) + 1
                            && items == old(items) + [Item(old(nextItemId), sellerId, title, description,
                                                           startPrice, startTime, endTime, None, None)]
    {
      if !available {
        return None;
      }
      id := Some(nextItemId);
      items := items + [Item(nextItemId, sellerId, title, description, startPrice, startTime, endTime, None, None)];
      nextItemId := nextItemId + 1;
    }
  }
}
