/**
 * A member's history: what they sell, what they won, the open auctions they
 * are bidding on and the finished auctions somebody else won. The page class
 * (src/pages/TransactionsPage.cpp) runs four prepared statements through one
 * fetch helper; the legacy CGI program (my_bids.cpp) runs the same four
 * selections as plain queries, each with its own error row.
 */
module Transactions {
  import opened Common
  import opened Tables
  import opened SessionStore
  import opened Queries

  /** The columns a history row carries; the end time is kept for the ORDER BY. */
  datatype HistoryRow =
    | SellingRow(title: string, closed: bool, endTime: int)
    | PurchaseRow(title: string, winningBid: real, endTime: int)
    | BidRow(itemId: int, title: string, highest: real, yours: real, endTime: int)
    | LostRow(title: string, winningBid: real, endTime: int)

  /** ORDER BY end_time DESC. */
  function Latest(r: HistoryRow): real { -(r.endTime as real) }
  /** ORDER BY end_time ASC. */
  function Soonest(r: HistoryRow): real { r.endTime as real }

  /** EXISTS (SELECT 1 FROM bids WHERE item_id = ? AND bidder_id = ?). */
  predicate HasBidOn(bids: seq<Bid>, itemId: int, user: UserId)
  {
    exists k :: 0 <= k < |bids| && bids[k].itemId == itemId && bids[k].bidderId == user
  }

  /** The bid row with the given id, the first one if several share it. */
  function BidById(bids: seq<Bid>, id: int): (r: Option<Bid>)
    ensures r.Some? ==> r.value in bids && r.value.id == id
    ensures r.None? <==> forall k :: 0 <= k < |bids| ==> bids[k].id != id
  {
    if bids == [] then None
    else if bids[0].id == id then Some(bids[0])
    else
      assert forall k :: 1 <= k < |bids| ==> bids[k] == bids[1..][k - 1];
      BidById(bids[1..], id)
  }

  /** IFNULL((SELECT bid_amount FROM bids WHERE bid_id = winning_bid_id), 0.00). */
  function WinningBid(bids: seq<Bid>, winningBidId: Option<int>): real
  {
    if winningBidId.None? then 0.0
    else match BidById(bids, winningBidId.value)
      case None => 0.0
      case Some(b) => b.amount
  }

  /** IFNULL(MAX(...), 0.00). */
  function OrZero(m: Option<real>): real
  {
    if m.Some? then m.value else 0.0
  }

  // ---------------------------------------------------------------------------
  // The four selections
  // ---------------------------------------------------------------------------

  /** Selling: the user's own items, "Closed" once the end has passed, latest end first. */
  function Selling(items: seq<Item>, user: UserId, now: int): (rows: seq<HistoryRow>)
    ensures forall r :: r in rows <==>
              exists i :: 0 <= i < |items| && items[i].sellerId == user
                          && r == SellingRow(items[i].title, items[i].endTime < now, items[i].endTime)
    ensures SortedBy(rows, Latest)
  {
    var selected := Select(items, (it: Item) => it.sellerId == user,
                           (it: Item) => SellingRow(it.title, it.endTime < now, it.endTime));
    assert forall r :: r in SortBy(selected, Latest) <==> r in selected by {
      forall r { SortByMembers(selected, Latest, r); }
    }
    SortBy(selected, Latest)
  }

  /** Purchases: the items the user won, with the amount of the winning bid, latest end first. */
  function Purchases(items: seq<Item>, bids: seq<Bid>, user: UserId): (rows: seq<HistoryRow>)
    ensures forall r :: r in rows <==>
              exists i :: 0 <= i < |items| && items[i].winnerId == Some(user)
                          && r == PurchaseRow(items[i].title, WinningBid(bids, items[i].winningBidId), items[i].endTime)
    ensures SortedBy(rows, Latest)
  {
    var selected := Select(items, (it: Item) => it.winnerId == Some(user),
                           (it: Item) => PurchaseRow(it.title, WinningBid(bids, it.winningBidId), it.endTime));
    assert forall r :: r in SortBy(selected, Latest) <==> r in selected by {
      forall r { SortByMembers(selected, Latest, r); }
    }
    SortBy(selected, Latest)
  }

  /** The Current Bids row of an item: the highest bid overall and the user's own highest. */
  function BidRowOf(it: Item, bids: seq<Bid>, user: UserId): HistoryRow
  {
    BidRow(it.id, it.title, OrZero(MaxBid(bids, it.id, None)), OrZero(MaxBid(bids, it.id, Some(user))), it.endTime)
  }

  /** Current Bids: open items the user has bid on, soonest end first. */
  function CurrentBids(items: seq<Item>, bids: seq<Bid>, user: UserId, now: int): (rows: seq<HistoryRow>)
    ensures forall r :: r in rows <==>
              exists i :: 0 <= i < |items| && items[i].endTime > now && HasBidOn(bids, items[i].id, user)
                          && r == BidRowOf(items[i], bids, user)
    ensures SortedBy(rows, Soonest)
  {
    var selected := Select(items, (it: Item) => it.endTime > now && HasBidOn(bids, it.id, user),
                           (it: Item) => BidRowOf(it, bids, user));
    assert forall r :: r in SortBy(selected, Soonest) <==> r in selected by {
      forall r { SortByMembers(selected, Soonest, r); }
    }
    SortBy(selected, Soonest)
  }

  /** Didn't Win: items somebody else won although the user bid on them, latest end first. */
  function Lost(items: seq<Item>, bids: seq<Bid>, user: UserId): (rows: seq<HistoryRow>)
    ensures forall r :: r in rows <==>
              exists i :: 0 <= i < |items| && items[i].winnerId.Some? && items[i].winnerId.value != user
                          && HasBidOn(bids, items[i].id, user)
                          && r == LostRow(items[i].title, WinningBid(bids, items[i].winningBidId), items[i].endTime)
    ensures SortedBy(rows, Latest)
  {
    var selected := Select(items, (it: Item) => it.winnerId.Some? && it.winnerId.value != user && HasBidOn(bids, it.id, user),
                           (it: Item) => LostRow(it.title, WinningBid(bids, it.winningBidId), it.endTime));
    assert forall r :: r in SortBy(selected, Latest) <==> r in selected by {
      forall r { SortByMembers(selected, Latest, r); }
    }
    SortBy(selected, Latest)
  }

  /**
   * On every Current Bids row the user's own highest bid is at most the
   * highest bid overall, and both are actual bids on the item.
   */
  lemma YoursAtMostHighest(items: seq<Item>, bids: seq<Bid>, user: UserId, now: int)
    ensures forall r :: r in CurrentBids(items, bids, user, now) ==>
              && r.BidRow? && r.endTime > now && r.yours <= r.highest
              && MaxBid(bids, r.itemId, Some(user)).Some? && MaxBid(bids, r.itemId, None).Some?
  {
    forall r | r in CurrentBids(items, bids, user, now)
      ensures r.BidRow? && r.endTime > now && r.yours <= r.highest
      ensures MaxBid(bids, r.itemId, Some(user)).Some? && MaxBid(bids, r.itemId, None).Some?
    {
      var i :| 0 <= i < |items| && items[i].endTime > now && HasBidOn(bids, items[i].id, user)
               && r == BidRowOf(items[i], bids, user);
      var id := items[i].id;
      var k :| 0 <= k < |bids| && bids[k].itemId == id && bids[k].bidderId == user;
      assert BidCounts(bids[k], id, Some(user)) && BidCounts(bids[k], id, None);
      var mine := MaxBid(bids, id, Some(user));
      var j :| 0 <= j < |bids| && BidCounts(bids[j], id, Some(user)) && bids[j].amount == mine.value;
      assert BidCounts(bids[j], id, None);
    }
  }

  /**
   * At the very moment an auction ends, its seller still sees it as active,
   * while no bidder sees it among their current bids.
   */
  lemma EndingNowIsActiveButNotOpen(items: seq<Item>, bids: seq<Bid>, i: int, bidder: UserId, now: int)
    requires 0 <= i < |items| && items[i].endTime == now
    ensures SellingRow(items[i].title, false, now) in Selling(items, items[i].sellerId, now)
    ensures forall r :: r in CurrentBids(items, bids, bidder, now) ==> r.endTime != now
  {
  }

  /**
   * A won auction the user bid on shows under Purchases when the user is the
   * winner and under Didn't Win otherwise.
   */
  lemma WonAuctionShown(items: seq<Item>, bids: seq<Bid>, i: int, user: UserId)
    requires 0 <= i < |items| && items[i].winnerId.Some? && HasBidOn(bids, items[i].id, user)
    ensures var amount := WinningBid(bids, items[i].winningBidId);
      && (items[i].winnerId == Some(user) ==>
            PurchaseRow(items[i].title, amount, items[i].endTime) in Purchases(items, bids, user))
      && (items[i].winnerId != Some(user) ==>
            LostRow(items[i].title, amount, items[i].endTime) in Lost(items, bids, user))
  {
  }

  // ---------------------------------------------------------------------------
  // src/pages/TransactionsPage.cpp
  // ---------------------------------------------------------------------------

  /** Each text column is fetched into a 256-byte buffer. */
  const ColumnBuffer: int := 256

  /**
   * The rows mysql_stmt_fetch hands out: it reports success until the first
   * row whose title does not fit its buffer, where it reports truncation and
   * the loop stops.
   */
  function Fetched(rows: seq<HistoryRow>): (r: seq<HistoryRow>)
    ensures r <= rows
    ensures forall k :: 0 <= k < |r| ==> |r[k].title| <= ColumnBuffer
    ensures |r| < |rows| ==> |rows[|r|].title| > ColumnBuffer
  {
    if rows == [] || |rows[0].title| > ColumnBuffer then []
    else [rows[0]] + Fetched(rows[1..])
  }

  /**
   * runQueryAndPrint: when the statement cannot be prepared, bound or run
   * (`fails`), nothing is printed and the answer is false; otherwise the
   * fetched rows are printed and the answer says whether there was any.
   */
  method RunQueryAndPrint(rows: seq<HistoryRow>, fails: bool) returns (any: bool, printed: seq<HistoryRow>)
    ensures printed == (if fails then [] else Fetched(rows))
    ensures any <==> printed != []
  {
    if fails {
      return false, [];
    }
    any, printed := false, [];
    var i := 0;
    while i < |rows| && |rows[i].title| <= ColumnBuffer
      invariant 0 <= i <= |rows|
      invariant printed == rows[..i]
      invariant forall k :: 0 <= k < i ==> |rows[k].title| <= ColumnBuffer
      invariant any <==> i > 0
    {
      any := true;
      printed := printed + [rows[i]];
      i := i + 1;
    }
    FetchedStopsAt(rows, i);
  }

  /** The fetched rows are exactly the prefix before the first over-long title. */
  lemma {:induction false} FetchedStopsAt(rows: seq<HistoryRow>, n: int)
    requires 0 <= n <= |rows|
    requires forall k :: 0 <= k < n ==> |rows[k].title| <= ColumnBuffer
    requires n == |rows| || |rows[n].title| > ColumnBuffer
    ensures Fetched(rows) == rows[..n]
    decreases n
  {
    if n == 0 {
    } else {
      var tail := rows[1..];
      assert forall k :: 0 <= k < n - 1 ==> tail[k] == rows[k + 1];
      assert n - 1 < |tail| ==> tail[n - 1] == rows[n];
      FetchedStopsAt(tail, n - 1);
      assert |rows[0].title| <= ColumnBuffer;
      assert Fetched(rows) == [rows[0]] + Fetched(tail);
      assert rows[..n] == [rows[0]] + tail[..n - 1];
    }
  }

  /** Rows whose titles all fit their buffer are all fetched. */
  lemma ShortTitlesAllFetched(rows: seq<HistoryRow>)
    requires forall r :: r in rows ==> |r.title| <= ColumnBuffer
    ensures Fetched(rows) == rows
  {
    FetchedStopsAt(rows, |rows|);
  }

  datatype SectionView =
    | Rows(rows: seq<HistoryRow>)
    | Placeholder(text: string)
    | ErrorRow(text: string)

  /** A section of the page: the printed rows, or the placeholder when there were none. */
  function TabView(rows: seq<HistoryRow>, fails: bool, placeholder: string): SectionView
  {
    var printed := if fails then [] else Fetched(rows);
    if printed == [] then Placeholder(placeholder) else Rows(printed)
  }

  /**
   * A section shows its placeholder when its statement fails or selects
   * nothing; when every title fits its buffer and the statement runs, the
   * placeholder appears exactly when nothing was selected, and otherwise all
   * the selected rows appear.
   */
  lemma TabPlaceholder(rows: seq<HistoryRow>, fails: bool, placeholder: string)
    ensures fails || rows == [] ==> TabView(rows, fails, placeholder) == Placeholder(placeholder)
    ensures !fails && (forall r :: r in rows ==> |r.title| <= ColumnBuffer) ==>
              TabView(rows, fails, placeholder) == if rows == [] then Placeholder(placeholder) else Rows(rows)
  {
    if !fails && (forall r :: r in rows ==> |r.title| <= ColumnBuffer) {
      ShortTitlesAllFetched(rows);
    }
  }

  /** The statements of a history page that can fail while the database is up. */
  datatype Step = IdLookup | PageConnection | SellingQuery | PurchasesQuery | BidsQuery | LostQuery

  datatype TransactionsView =
    | RedirectToLogin(location: string)
    | Tabs(selling: SectionView, purchases: SectionView, currentBids: SectionView, lost: SectionView)

  /**
   * TransactionsPage::handleGet. `failing` lists the statements that fail on
   * this request; when the database does not answer, every one of them fails.
   */
  method TransactionsGet(db: Database, session: Session, failing: set<Step>, now: int) returns (page: TransactionsView)
    ensures !session.loggedIn ==> page == RedirectToLogin("login.cgi")
    ensures session.loggedIn ==>
              var user, down := session.userId, !db.available;
              page == Tabs(TabView(Selling(db.items, user, now), down || SellingQuery in failing, "No listings."),
                           TabView(Purchases(db.items, db.bids, user), down || PurchasesQuery in failing, "No purchases yet."),
                           TabView(CurrentBids(db.items, db.bids, user, now), down || BidsQuery in failing, "No active bids."),
                           TabView(Lost(db.items, db.bids, user), down || LostQuery in failing, "No lost auctions."))
  {
    if !session.loggedIn {
      return RedirectToLogin("login.cgi");
    }
    var user := session.userId;
    var any, printed := RunQueryAndPrint(Selling(db.items, user, now), !db.available || SellingQuery in failing);
    var selling := if any then Rows(printed) else Placeholder("No listings.");
    any, printed := RunQueryAndPrint(Purchases(db.items, db.bids, user), !db.available || PurchasesQuery in failing);
    var purchases := if any then Rows(printed) else Placeholder("No purchases yet.");
    any, printed := RunQueryAndPrint(CurrentBids(db.items, db.bids, user, now), !db.available || BidsQuery in failing);
    var current := if any then Rows(printed) else Placeholder("No active bids.");
    any, printed := RunQueryAndPrint(Lost(db.items, db.bids, user), !db.available || LostQuery in failing);
    var lost := if any then Rows(printed) else Placeholder("No lost auctions.");
    page := Tabs(selling, purchases, current, lost);
  }

  // ---------------------------------------------------------------------------
  // my_bids.cpp
  // ---------------------------------------------------------------------------

  /** A section of the legacy page: its error row, its placeholder, or every selected row. */
  function PanelView(rows: seq<HistoryRow>, fails: bool, placeholder: string, error: string): (v: SectionView)
    ensures v.ErrorRow? <==> fails
    ensures v.Placeholder? <==> !fails && rows == []
    ensures v.Rows? ==> v.rows == rows
  {
    if fails then ErrorRow(error) else if rows == [] then Placeholder(placeholder) else Rows(rows)
  }

  datatype MyBidsView =
    | LoginRefresh
    | UnknownUser
    | ConnectionFailed
    | Panels(currentBids: SectionView, selling: SectionView, purchases: SectionView, lost: SectionView)

  /**
   * my_bids.cpp main. The session is checked the legacy way, the user id is
   * looked up by the session's e-mail address (LIMIT 1: any user with that
   * address), and each of the four panels is filled independently.
   */
  method MyBids(db: Database, httpCookie: Option<string>, failing: set<Step>, now: int)
    returns (page: MyBidsView, userId: Option<UserId>)
    modifies db
    ensures db.users == old(db.users) && db.items == old(db.items) && db.bids == old(db.bids)
    ensures var token := CookieToken(httpCookie);
      var v := LegacyLookup(old(db.users), old(db.sessions), token, now);
      && db.sessions == (if token != "" && old(db.available) then LegacySessionsAfter(old(db.sessions), token, v, now)
                         else old(db.sessions))
      && (!(token != "" && old(db.available) && v.Fresh?) ==> page == LoginRefresh && userId.None?)
      && (token != "" && old(db.available) && v.Fresh? ==>
            && (IdLookup in failing ==> page == UnknownUser && userId.None?)
            && (IdLookup !in failing ==>
                  && userId.Some? && userId.value in db.users && db.users[userId.value].email == v.email
                  && (EmailsUnique(db.users) ==> userId.value == old(db.sessions)[token].userId)
                  && (PageConnection in failing ==> page == ConnectionFailed)
                  && (PageConnection !in failing ==>
                        var user := userId.value;
                        page == Panels(PanelView(CurrentBids(db.items, db.bids, user, now), BidsQuery in failing,
                                                 "No active bids.", "Error retrieving bids."),
                                       PanelView(Selling(db.items, user, now), SellingQuery in failing,
                                                 "No listings.", "Error retrieving listings."),
                                       PanelView(Purchases(db.items, db.bids, user), PurchasesQuery in failing,
                                                 "No purchases yet.", "Error retrieving purchases."),
                                       PanelView(Lost(db.items, db.bids, user), LostQuery in failing,
                                                 "No lost auctions.", "Error retrieving lost auctions.")))))
  {
    var loggedIn, email := IsUserLoggedIn(db, httpCookie, now, "");
    if !loggedIn {
      return LoginRefresh, None;
    }
    if IdLookup in failing || !exists u :: u in db.users && db.users[u].email == email {
      return UnknownUser, None;
    }
    var uid :| uid in db.users && db.users[uid].email == email;
    userId := Some(uid);
    if PageConnection in failing {
      return ConnectionFailed, userId;
    }
    var current := PanelView(CurrentBids(db.items, db.bids, uid, now), BidsQuery in failing,
                             "No active bids.", "Error retrieving bids.");
    var selling := PanelView(Selling(db.items, uid, now), SellingQuery in failing,
                             "No listings.", "Error retrieving listings.");
    var purchases := PanelView(Purchases(db.items, db.bids, uid), PurchasesQuery in failing,
                               "No purchases yet.", "Error retrieving purchases.");
    var lost := PanelView(Lost(db.items, db.bids, uid), LostQuery in failing,
                          "No lost auctions.", "Error retrieving lost auctions.");
    page := Panels(current, selling, purchases, lost);
  }
}
