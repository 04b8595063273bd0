/**
 * The browse page (src/pages/BrowsePage.cpp): the auctions still running,
 * optionally narrowed by a search term and ordered by one of four sort keys
 * read from the query string, each shown with its current bid, the time it
 * has left and whether the visitor may bid on it.
 */
module Browse {
  import opened Common
  import opened Utils
  import opened Tables
  import opened Queries

  // ---------------------------------------------------------------------------
  // parseQueryString
  // ---------------------------------------------------------------------------

  /** The raw key and value of one `&`-separated pair; without '=' the value is empty. */
  function RawPair(piece: string): (string, string)
  {
    match Find(piece, '=', 0)
    case None => (piece, "")
    case Some(e) => (piece[..e], piece[e + 1..])
  }

  predicate PairDecodable(piece: string)
  {
    Decodable(RawPair(piece).0) && Decodable(RawPair(piece).1)
  }

  predicate AllPairsDecodable(ps: seq<string>)
  {
    forall i :: 0 <= i < |ps| ==> PairDecodable(ps[i])
  }

  /** Every key and value of the query string can be decoded. */
  predicate QueryDecodable(qs: string)
  {
    AllPairsDecodable(Pieces(qs, 0))
  }

  function DecodedKey(piece: string): string
    requires PairDecodable(piece)
  {
    UrlDecoded(RawPair(piece).0)
  }

  function DecodedValue(piece: string): string
    requires PairDecodable(piece)
  {
    UrlDecoded(RawPair(piece).1)
  }

  /** The two parameters the page reads. */
  datatype QueryParams = QueryParams(q: string, sort: string)

  /** One step of the loop: a `q` or `sort` pair replaces that parameter; other keys are ignored. */
  function ApplyPair(p: QueryParams, piece: string): QueryParams
    requires PairDecodable(piece)
  {
    var k := DecodedKey(piece);
    if k == "q" then p.(q := DecodedValue(piece))
    else if k == "sort" then p.(sort := DecodedValue(piece))
    else p
  }

  /** The parameters after the pairs `ps`, taken in order. */
  function FoldQuery(p: QueryParams, ps: seq<string>): QueryParams
    requires AllPairsDecodable(ps)
    decreases |ps|
  {
    if ps == [] then p else ApplyPair(FoldQuery(p, ps[..|ps| - 1]), ps[|ps| - 1])
  }

  /** The parameters of a request; no QUERY_STRING leaves both empty. */
  function QueryOf(queryString: Option<string>): QueryParams
    requires queryString.Some? ==> QueryDecodable(queryString.value)
  {
    match queryString
    case None => QueryParams("", "")
    case Some(qs) => FoldQuery(QueryParams("", ""), Pieces(qs, 0))
  }

  /** The key and value of one pair, both URL-decoded. */
  method ReadPair(pair: string) returns (key: string, value: string)
    requires PairDecodable(pair)
    ensures key == DecodedKey(pair) && value == DecodedValue(pair)
  {
    var eq := Find(pair, '=', 0);
    if eq.Some? {
      key, value := pair[..eq.value], pair[eq.value + 1..];
    } else {
      key, value := pair, "";
    }
    key := UrlDecode(key);
    value := UrlDecode(value);
  }

  /** Taking one more pair extends the fold by one step. */
  lemma FoldQueryStep(p: QueryParams, done: seq<string>, pair: string)
    requires AllPairsDecodable(done) && PairDecodable(pair)
    ensures AllPairsDecodable(done + [pair])
    ensures FoldQuery(p, done + [pair]) == ApplyPair(FoldQuery(p, done), pair)
  {
    assert (done + [pair])[..|done|] == done;
  }

  lemma AppendOne<T>(a: seq<T>, x: T, b: seq<T>)
    ensures a + [x] + b == a + ([x] + b)
  {
  }

  /** The loop's next pair starts the pieces from `pos`. */
  lemma PiecesStep(qs: string, pos: nat, pair: string, next: nat)
    requires pos < |qs|
    requires Find(qs, '&', pos).None? ==> pair == qs[pos..] && next == |qs|
    requires Find(qs, '&', pos).Some? ==> pair == qs[pos..Find(qs, '&', pos).value] && next == Find(qs, '&', pos).value + 1
    requires AllPairsDecodable(Pieces(qs, pos))
    ensures Pieces(qs, pos) == [pair] + Pieces(qs, next)
    ensures PairDecodable(pair) && AllPairsDecodable(Pieces(qs, next))
  {
    var rest := Pieces(qs, next);
    assert Pieces(qs, pos)[0] == pair;
    forall k | 0 <= k < |rest|
      ensures PairDecodable(rest[k])
    {
      assert rest[k] == Pieces(qs, pos)[k + 1];
    }
  }

  /** parseQueryString: splits at '&', then at each pair's first '=', decoding key and value. */
  method ParseQueryString(queryString: Option<string>) returns (q: string, sort: string)
    requires queryString.Some? ==> QueryDecodable(queryString.value)
    ensures QueryParams(q, sort) == QueryOf(queryString)
  {
    q, sort := "", "";
    if queryString.None? {
      return;
    }
    var qs := queryString.value;
    var pos := 0;
    ghost var done: seq<string> := [];
    while pos < |qs|
      invariant pos <= |qs|
      invariant Pieces(qs, 0) == done + Pieces(qs, pos)
      invariant AllPairsDecodable(done) && AllPairsDecodable(Pieces(qs, pos))
      invariant QueryParams(q, sort) == FoldQuery(QueryParams("", ""), done)
      decreases |qs| - pos
    {
      var amp := Find(qs, '&', pos);
      var pair := if amp.None? then qs[pos..] else qs[pos..amp.value];
      var next := if amp.None? then |qs| else amp.value + 1;
      PiecesStep(qs, pos, pair, next);
      var key, value := ReadPair(pair);
      ghost var before := QueryParams(q, sort);
      if key == "q" {
        q := value;
      } else if key == "sort" {
        sort := value;
      }
      assert QueryParams(q, sort) == ApplyPair(before, pair);
      FoldQueryStep(QueryParams("", ""), done, pair);
      ghost var rest := Pieces(qs, next);
      AppendOne(done, pair, rest);
      done := done + [pair];
      pos := next;
    }
    assert Pieces(qs, pos) == [];
    assert done == Pieces(qs, 0);
  }

  /** A key no pair carries keeps its starting value. */
  lemma {:induction false} FoldQueryUntouched(p: QueryParams, ps: seq<string>)
    requires AllPairsDecodable(ps)
    ensures (forall i :: 0 <= i < |ps| ==> DecodedKey(ps[i]) != "q") ==> FoldQuery(p, ps).q == p.q
    ensures (forall i :: 0 <= i < |ps| ==> DecodedKey(ps[i]) != "sort") ==> FoldQuery(p, ps).sort == p.sort
    decreases |ps|
  {
    if ps != [] {
      var init := ps[..|ps| - 1];
      assert forall i :: 0 <= i < |init| ==> init[i] == ps[i];
      FoldQueryUntouched(p, init);
    }
  }

  /** The last pair carrying a key decides that parameter. */
  lemma {:induction false} FoldQueryLastWins(p: QueryParams, ps: seq<string>, key: string, i: nat)
    requires AllPairsDecodable(ps)
    requires key == "q" || key == "sort"
    requires i < |ps| && DecodedKey(ps[i]) == key
    requires forall j :: i < j < |ps| ==> DecodedKey(ps[j]) != key
    ensures (if key == "q" then FoldQuery(p, ps).q else FoldQuery(p, ps).sort) == DecodedValue(ps[i])
    decreases |ps|
  {
    var init := ps[..|ps| - 1];
    assert forall j :: 0 <= j < |init| ==> init[j] == ps[j];
    if i < |ps| - 1 {
      FoldQueryLastWins(p, init, key, i);
    }
  }

  // ---------------------------------------------------------------------------
  // Sort key
  // ---------------------------------------------------------------------------

  datatype SortKey = Ending | Newest | Low | High

  /** Any sort parameter other than the three alternatives means "ending". */
  function NormalizeSort(sort: string): (k: SortKey)
    ensures k == Newest <==> sort == "newest"
    ensures k == Low <==> sort == "low"
    ensures k == High <==> sort == "high"
    ensures k == Ending <==> sort != "newest" && sort != "low" && sort != "high"
  {
    if sort == "newest" then Newest
    else if sort == "low" then Low
    else if sort == "high" then High
    else Ending
  }

  /** The name a sort key carries in the query string and the page's selector. */
  function SortName(k: SortKey): string
  {
    match k
    case Ending => "ending"
    case Newest => "newest"
    case Low => "low"
    case High => "high"
  }

  /** Normalising a key's own name gives the key back, and a normalised name is one of the four. */
  lemma SortNameRoundTrip(k: SortKey, sort: string)
    ensures NormalizeSort(SortName(k)) == k
    ensures SortName(NormalizeSort(sort)) in ["ending", "newest", "low", "high"]
  {
  }

  // ---------------------------------------------------------------------------
  // formatTimeLeft
  // ---------------------------------------------------------------------------

  /** A number printed with a leading "0" below ten, as the page does for hours, minutes and seconds. */
  function TwoDigits(n: nat): string
  {
    (if n < 10 then "0" else "") + NatToString(n)
  }

  lemma TwoDigitsValue(n: nat)
    requires n < 100
    ensures |TwoDigits(n)| == 2 && AllDigits(TwoDigits(n)) && DigitsValue(TwoDigits(n)) == n
  {
    NatToStringRoundTrip(n);
    if n < 10 {
      var t := TwoDigits(n);
      assert t == ['0', DigitChar(n)];
      assert t[..1] == ['0'] && ['0'][..0] == [];
    }
  }

  /** A span of seconds as whole days, hours, minutes and seconds. */
  datatype Span = Span(days: nat, hours: nat, minutes: nat, seconds: nat)

  function Breakdown(diff: nat): (s: Span)
    ensures diff == s.days * 86400 + s.hours * 3600 + s.minutes * 60 + s.seconds
    ensures s.hours < 24 && s.minutes < 60 && s.seconds < 60
  {
    var dayRest := diff % 86400;
    var hourRest := dayRest % 3600;
    assert diff == diff / 86400 * 86400 + dayRest;
    assert dayRest == dayRest / 3600 * 3600 + hourRest;
    assert hourRest == hourRest / 60 * 60 + hourRest % 60;
    Span(diff / 86400, dayRest / 3600, hourRest / 60, hourRest % 60)
  }

  /** "Ended", "<days>d <hh>h" or "hh:mm:ss". */
  function TimeLeftText(endT: int, nowT: int): string
  {
    if endT <= nowT then "Ended"
    else
      var s := Breakdown(endT - nowT);
      if s.days > 0 then NatToString(s.days) + "d " + TwoDigits(s.hours) + "h"
      else TwoDigits(s.hours) + ":" + TwoDigits(s.minutes) + ":" + TwoDigits(s.seconds)
  }

  /** formatTimeLeft, given the end and the present as seconds. */
  method FormatTimeLeft(endT: int, nowT: int) returns (text: string)
    ensures text == TimeLeftText(endT, nowT)
  {
    if endT <= nowT {
      return "Ended";
    }
    var diff := endT - nowT;
    var days := diff / 86400;
    diff := diff % 86400;
    var hours := diff / 3600;
    diff := diff % 3600;
    var minutes := diff / 60;
    var seconds := diff % 60;
    if days > 0 {
      text := NatToString(days) + "d " + TwoDigits(hours) + "h";
    } else {
      text := TwoDigits(hours) + ":" + TwoDigits(minutes) + ":" + TwoDigits(seconds);
    }
  }

  /** The text is "Ended" exactly when the end is not after the present. */
  lemma TimeLeftEnded(endT: int, nowT: int)
    ensures TimeLeftText(endT, nowT) == "Ended" <==> endT <= nowT
  {
    if endT > nowT {
      var s := Breakdown(endT - nowT);
      var t := TimeLeftText(endT, nowT);
      if s.days > 0 {
        assert t[0] == NatToString(s.days)[0];
      } else {
        TwoDigitsValue(s.hours);
        assert t[0] == TwoDigits(s.hours)[0];
      }
      assert IsDigit(t[0]);
    }
  }

  /** Under a day, the clock text reads back as the remaining seconds. */
  lemma TimeLeftClockReadsBack(endT: int, nowT: int)
    requires 0 < endT - nowT < 86400
    ensures var t := TimeLeftText(endT, nowT);
      && |t| == 8 && t[2] == ':' && t[5] == ':'
      && AllDigits(t[..2]) && AllDigits(t[3..5]) && AllDigits(t[6..])
      && DigitsValue(t[..2]) * 3600 + DigitsValue(t[3..5]) * 60 + DigitsValue(t[6..]) == endT - nowT
  {
    var s := Breakdown(endT - nowT);
    TwoDigitsValue(s.hours);
    TwoDigitsValue(s.minutes);
    TwoDigitsValue(s.seconds);
    var t := TimeLeftText(endT, nowT);
    assert t == TwoDigits(s.hours) + ":" + TwoDigits(s.minutes) + ":" + TwoDigits(s.seconds);
    assert t[..2] == TwoDigits(s.hours);
    assert t[3..5] == TwoDigits(s.minutes);
    assert t[6..] == TwoDigits(s.seconds);
  }

  /** From a day on, the text is the whole days followed by the two-digit hours of the rest. */
  lemma TimeLeftDaysReadBack(endT: int, nowT: int)
    requires endT - nowT >= 86400
    ensures var t := TimeLeftText(endT, nowT);
      && |t| >= 6 && t[|t| - 1] == 'h' && t[|t| - 5..|t| - 3] == "d "
      && AllDigits(t[..|t| - 5]) && AllDigits(t[|t| - 3..|t| - 1])
      && DigitsValue(t[..|t| - 5]) == (endT - nowT) / 86400
      && DigitsValue(t[|t| - 3..|t| - 1]) == (endT - nowT) % 86400 / 3600
  {
    var s := Breakdown(endT - nowT);
    TwoDigitsValue(s.hours);
    NatToStringRoundTrip(s.days);
    var t := TimeLeftText(endT, nowT);
    var d := NatToString(s.days);
    assert t == d + "d " + TwoDigits(s.hours) + "h";
    assert t[..|t| - 5] == d;
    assert t[|t| - 3..|t| - 1] == TwoDigits(s.hours);
  }

  // ---------------------------------------------------------------------------
  // The listing query
  // ---------------------------------------------------------------------------

  /** canBid: a logged-in visitor with a real id who is not the seller. */
  predicate CanBid(loggedIn: bool, userId: int, sellerId: UserId)
  {
    loggedIn && userId > 0 && userId != sellerId
  }

  /** One row of the grouped query, with the start time its ORDER BY may use. */
  datatype ListingRow = ListingRow(itemId: int, title: string, sellerEmail: string, sellerId: UserId,
                                   currentBid: real, startTime: int, endTime: int)

  /** COALESCE(MAX(b.bid_amount), i.start_price). */
  function CurrentBid(item: Item, bids: seq<Bid>): (c: real)
    ensures (forall k :: 0 <= k < |bids| ==> bids[k].itemId != item.id) ==> c == item.startPrice
    ensures (exists k :: 0 <= k < |bids| && bids[k].itemId == item.id) ==>
              (exists k :: 0 <= k < |bids| && bids[k].itemId == item.id && bids[k].amount == c)
              && (forall k :: 0 <= k < |bids| && bids[k].itemId == item.id ==> bids[k].amount <= c)
  {
    match MaxBid(bids, item.id, None)
    case None => item.startPrice
    case Some(m) => m
  }

  /** The WHERE clause: still running, seller joined, and the term (if any) in the title or the description. */
  predicate Selected(item: Item, users: map<UserId, User>, term: string, now: int)
  {
    item.endTime > now && item.sellerId in users
    && (term == "" || Contains(item.title, term) || Contains(item.description, term))
  }

  function RowOf(item: Item, users: map<UserId, User>, bids: seq<Bid>): ListingRow
    requires item.sellerId in users
  {
    ListingRow(item.id, item.title, users[item.sellerId].email, item.sellerId,
               CurrentBid(item, bids), item.startTime, item.endTime)
  }

  /** The selected rows, in table order. */
  function SelectedRows(items: seq<Item>, users: map<UserId, User>, bids: seq<Bid>, term: string, now: int)
    : (rows: seq<ListingRow>)
    ensures forall r :: r in rows <==>
              exists i :: 0 <= i < |items| && Selected(items[i], users, term, now) && r == RowOf(items[i], users, bids)
  {
    if items == [] then []
    else
      var rest := SelectedRows(items[1..], users, bids, term, now);
      assert forall i :: 1 <= i < |items| ==> items[i] == items[1..][i - 1];
      if Selected(items[0], users, term, now) then [RowOf(items[0], users, bids)] + rest else rest
  }

  /** The key each ORDER BY sorts on; the descending ones negate it. */
  function RowKey(k: SortKey): ListingRow -> real
  {
    match k
    case Ending => (r: ListingRow) => r.endTime as real
    case Newest => (r: ListingRow) => -(r.startTime as real)
    case Low => (r: ListingRow) => r.currentBid
    case High => (r: ListingRow) => -r.currentBid
  }

  /** The rows the listing query returns, in the order its ORDER BY gives. */
  function Listing(items: seq<Item>, users: map<UserId, User>, bids: seq<Bid>, term: string, k: SortKey, now: int)
    : seq<ListingRow>
  {
    SortBy(SelectedRows(items, users, bids, term, now), RowKey(k))
  }

  /** A row is listed exactly when its item passes the WHERE clause. */
  lemma ListingMembers(items: seq<Item>, users: map<UserId, User>, bids: seq<Bid>, term: string, k: SortKey,
                       now: int, r: ListingRow)
    ensures r in Listing(items, users, bids, term, k, now) <==>
            exists i :: 0 <= i < |items| && Selected(items[i], users, term, now) && r == RowOf(items[i], users, bids)
  {
    SortByMembers(SelectedRows(items, users, bids, term, now), RowKey(k), r);
  }

  /** Every listed auction is still running, and the order is the one the sort key names. */
  lemma ListingOrdered(items: seq<Item>, users: map<UserId, User>, bids: seq<Bid>, term: string, k: SortKey,
                       now: int)
    ensures var rows := Listing(items, users, bids, term, k, now);
      && (forall i :: 0 <= i < |rows| ==> rows[i].endTime > now)
      && (k == Ending ==> forall i, j :: 0 <= i < j < |rows| ==> rows[i].endTime <= rows[j].endTime)
      && (k == Newest ==> forall i, j :: 0 <= i < j < |rows| ==> rows[i].startTime >= rows[j].startTime)
      && (k == Low ==> forall i, j :: 0 <= i < j < |rows| ==> rows[i].currentBid <= rows[j].currentBid)
      && (k == High ==> forall i, j :: 0 <= i < j < |rows| ==> rows[i].currentBid >= rows[j].currentBid)
  {
    var rows := Listing(items, users, bids, term, k, now);
    forall i | 0 <= i < |rows|
      ensures rows[i].endTime > now
    {
      ListingMembers(items, users, bids, term, k, now, rows[i]);
    }
    assert SortedBy(rows, RowKey(k));
  }

  // ---------------------------------------------------------------------------
  // BrowsePage::handleGet
  // ---------------------------------------------------------------------------

  /** What a table row shows: the item, the seller, the bid, the time left and whether a Bid button appears. */
  datatype BrowseRow = BrowseRow(itemId: int, title: string, sellerEmail: string, currentBid: real,
                                 timeLeft: string, canBid: bool)

  function ViewOf(r: ListingRow, loggedIn: bool, userId: int, now: int): BrowseRow
  {
    BrowseRow(r.itemId, r.title, r.sellerEmail, r.currentBid, TimeLeftText(r.endTime, now),
              CanBid(loggedIn, userId, r.sellerId))
  }

  /**
   * The rows of the browse table for a visitor (`loggedIn`, `userId` from the
   * session). When the database does not answer, the query is never executed
   * and the table is empty.
   */
  method BrowseGet(db: Database, loggedIn: bool, userId: int, queryString: Option<string>, now: int)
    returns (term: string, sort: SortKey, rows: seq<BrowseRow>)
    requires queryString.Some? ==> QueryDecodable(queryString.value)
    ensures term == QueryOf(queryString).q && sort == NormalizeSort(QueryOf(queryString).sort)
    ensures !db.available ==> rows == []
    ensures db.available ==>
              var listed := Listing(db.items, db.users, db.bids, term, sort, now);
              |rows| == |listed| && forall i :: 0 <= i < |rows| ==> rows[i] == ViewOf(listed[i], loggedIn, userId, now)
  {
    var sortParam;
    term, sortParam := ParseQueryString(queryString);
    sort := NormalizeSort(sortParam);
    rows := [];
    if !db.available {
      return;
    }
    var listed := Listing(db.items, db.users, db.bids, term, sort, now);
    var i := 0;
    while i < |listed|
      invariant 0 <= i <= |listed| && |rows| == i
      invariant forall j :: 0 <= j < i ==> rows[j] == ViewOf(listed[j], loggedIn, userId, now)
    {
      var r := listed[i];
      var timeLeft := FormatTimeLeft(r.endTime, now);
      var canBid := loggedIn && userId > 0 && userId != r.sellerId;
      rows := rows + [BrowseRow(r.itemId, r.title, r.sellerEmail, r.currentBid, timeLeft, canBid)];
      i := i + 1;
    }
  }

  /** No row offers a Bid button to its own seller or to a visitor who is not logged in. */
  lemma NoBidOnOwnItem(r: ListingRow, loggedIn: bool, userId: int, now: int)
    requires ViewOf(r, loggedIn, userId, now).canBid
    ensures loggedIn && userId != r.sellerId
  {
  }
}
