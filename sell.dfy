/**
 * Listing an item for auction (src/pages/SellPage.cpp). A logged-in seller
 * submits a title, a condition, a description, a starting price and a start
 * date-time from an HTML datetime-local input ("YYYY-MM-DDTHH:MM"). The checks
 * run in a fixed order; an accepted listing starts at the given moment, which
 * must lie in the future, and always runs for exactly seven days.
 */
module Sell {
  import opened Common
  import opened Utils
  import opened Tables
  import opened SessionStore

  /** DATE_ADD(start, INTERVAL 7 DAY), in seconds. */
  const Week: int := 7 * 86400
  const MaxTitleLength: int := 100

  const TitleMessage := "Item name is required and must be 100 characters or less."
  const ConditionMessage := "Please select a condition."
  const DescriptionMessage := "Description is required."
  const PriceRequiredMessage := "Starting price is required."
  const PriceFormatMessage := "Invalid starting price format."
  const PricePositiveMessage := "Starting price must be greater than zero."
  const StartRequiredMessage := "Starting date and time is required."
  const StartFormatMessage := "Invalid date/time format."
  const StartPastMessage := "Starting date and time must be in the future."

  /**
   * What std::stod reports: how many characters it consumed and the number
   * they denote. A parse that throws is None.
   */
  datatype NumberPrefix = NumberPrefix(length: nat, value: real)

  /** The title, condition and description checks pass. */
  predicate TextFieldsGiven(title: string, condition: string, description: string)
  {
    0 < |title| <= MaxTitleLength && condition != "" && description != ""
  }

  /** std::stod reads the whole price without throwing. */
  predicate PriceParses(price: string, stod: string -> Option<NumberPrefix>)
  {
    stod(price).Some? && stod(price).value.length == |price|
  }

  /** The price checks pass: given, read whole, and greater than zero. */
  predicate PriceValid(price: string, stod: string -> Option<NumberPrefix>)
  {
    price != "" && PriceParses(price, stod) && stod(price).value.value > 0.0
  }

  /** The submitted listing passes every check that needs no database. */
  predicate ListingAcceptable(title: string, condition: string, description: string, price: string,
                              start: string, stod: string -> Option<NumberPrefix>)
  {
    && TextFieldsGiven(title, condition, description)
    && PriceValid(price, stod)
    && |start| >= 16 && ('T' in start || ' ' in start)
  }

  /**
   * The message of the first failing check, in the order the page applies
   * them: each message appears exactly when its own check fails and every
   * earlier one passes.
   */
  function ListingError(title: string, condition: string, description: string, price: string,
                        start: string, stod: string -> Option<NumberPrefix>): (r: Option<string>)
    ensures r.None? <==> ListingAcceptable(title, condition, description, price, start, stod)
    ensures r == Some(TitleMessage) <==> title == "" || |title| > MaxTitleLength
    ensures r == Some(ConditionMessage) <==> 0 < |title| <= MaxTitleLength && condition == ""
    ensures r == Some(DescriptionMessage) <==>
              0 < |title| <= MaxTitleLength && condition != "" && description == ""
    ensures r == Some(PriceRequiredMessage) <==> TextFieldsGiven(title, condition, description) && price == ""
    ensures r == Some(PriceFormatMessage) <==>
              TextFieldsGiven(title, condition, description) && price != "" && !PriceParses(price, stod)
    ensures r == Some(PricePositiveMessage) <==>
              TextFieldsGiven(title, condition, description) && price != "" && PriceParses(price, stod)
              && stod(price).value.value <= 0.0
    ensures r == Some(StartRequiredMessage) <==>
              TextFieldsGiven(title, condition, description) && PriceValid(price, stod) && |start| < 16
    ensures r == Some(StartFormatMessage) <==>
              TextFieldsGiven(title, condition, description) && PriceValid(price, stod)
              && |start| >= 16 && 'T' !in start && ' ' !in start
  {
    if title == "" || |title| > MaxTitleLength then Some(TitleMessage)
    else if condition == "" then Some(ConditionMessage)
    else if description == "" then Some(DescriptionMessage)
    else if price == "" then Some(PriceRequiredMessage)
    else if stod(price).None? || stod(price).value.length != |price| then Some(PriceFormatMessage)
    else if stod(price).value.value <= 0.0 then Some(PricePositiveMessage)
    else if |start| < 16 then Some(StartRequiredMessage)
    else if 'T' !in start && ' ' !in start then Some(StartFormatMessage)
    else None
  }

  // ---------------------------------------------------------------------------
  // Date-time text
  // ---------------------------------------------------------------------------

  /** The text with its first 'T' (if any) turned into a space. */
  function SpaceForT(s: string): (r: string)
    ensures |r| == |s|
    ensures forall i :: 0 <= i < |s| ==> r[i] == if Find(s, 'T', 0) == Some(i) then ' ' else s[i]
  {
    match Find(s, 'T', 0)
    case None => s
    case Some(p) => s[p := ' ']
  }

  /**
   * The MySQL DATETIME text built from the input: the first 'T' becomes a
   * space and ":00" seconds are appended.
   */
  method MysqlDatetime(start: string) returns (t: string)
    ensures |t| == |start| + 3 && t[|start|..] == ":00"
    ensures forall i :: 0 <= i < |start| ==> t[i] == if Find(start, 'T', 0) == Some(i) then ' ' else start[i]
    ensures t == SpaceForT(start) + ":00"
  {
    t := start;
    var tPos := Find(t, 'T', 0);
    if tPos.Some? {
      t := t[tPos.value := ' '];
    }
    t := t + ":00";
  }

  /** The shape a datetime-local input submits: "YYYY-MM-DDTHH:MM". */
  predicate LocalDatetime(s: string)
  {
    && |s| == 16
    && IsDigit(s[0]) && IsDigit(s[1]) && IsDigit(s[2]) && IsDigit(s[3]) && s[4] == '-'
    && IsDigit(s[5]) && IsDigit(s[6]) && s[7] == '-' && IsDigit(s[8]) && IsDigit(s[9])
    && s[10] == 'T' && IsDigit(s[11]) && IsDigit(s[12]) && s[13] == ':' && IsDigit(s[14]) && IsDigit(s[15])
  }

  /** A datetime-local value becomes "YYYY-MM-DD HH:MM:00". */
  lemma LocalDatetimeToMysql(s: string)
    requires LocalDatetime(s)
    ensures SpaceForT(s) + ":00" == s[..10] + " " + s[11..] + ":00"
  {
    assert Find(s, 'T', 0) == Some(10) by {
      assert forall k :: 0 <= k < 10 ==> s[k] != 'T';
    }
    assert SpaceForT(s) == s[..10] + " " + s[11..];
  }

  // ---------------------------------------------------------------------------
  // The 12-hour clock of the confirmation page
  // ---------------------------------------------------------------------------

  /** The hour on a 12-hour clock: 0 shows as 12, 13..23 lose twelve. */
  function ClockHour(hour: int): (h: int)
    ensures 0 <= hour < 24 ==> 1 <= h <= 12 && ClockToDay(h, hour >= 12) == hour
  {
    if hour > 12 then hour - 12 else if hour == 0 then 12 else hour
  }

  /** Reads a 12-hour clock reading back as an hour of the day. */
  function ClockToDay(h: int, pm: bool): int
  {
    (if h == 12 then 0 else h) + (if pm then 12 else 0)
  }

  /** The page's in-place conversion of the hour, with its AM/PM marker. */
  method DisplayHour(hour: int) returns (h: int, pm: bool)
    ensures pm <==> hour >= 12
    ensures h == ClockHour(hour)
  {
    pm := hour >= 12;
    h := hour;
    if h > 12 {
      h := h - 12;
    }
    if h == 0 {
      h := 12;
    }
  }

  /** Distinct hours of one day show as distinct readings. */
  lemma ClockReadingsDistinct(a: int, b: int)
    requires 0 <= a < 24 && 0 <= b < 24 && a != b
    ensures (ClockHour(a), a >= 12) != (ClockHour(b), b >= 12)
  {
    assert ClockToDay(ClockHour(a), a >= 12) == a;
    assert ClockToDay(ClockHour(b), b >= 12) == b;
  }

  /**
   * "MM/DD/YYYY h:MM AM" from the submitted value; None when std::stoi
   * throws on the hour characters.
   */
  function DisplayDatetime(start: string): Option<string>
    requires |start| >= 16
  {
    var d := SpaceForT(start);
    match Stoi(d[11..13])
    case None => None
    case Some(hour) =>
      Some(d[5..7] + "/" + d[8..10] + "/" + d[..4] + " " + IntToString(ClockHour(hour)) + ":" + d[14..16]
           + (if hour >= 12 then " PM" else " AM"))
  }

  /** A datetime-local value is always shown, with its two hour digits read as a number. */
  lemma DisplayOfLocalDatetime(s: string)
    requires LocalDatetime(s)
    ensures var hour := 10 * DigitValue(s[11]) + DigitValue(s[12]);
      DisplayDatetime(s) == Some(s[5..7] + "/" + s[8..10] + "/" + s[..4] + " " + IntToString(ClockHour(hour))
                                 + ":" + s[14..16] + (if hour >= 12 then " PM" else " AM"))
  {
    LocalDatetimeToMysql(s);
    var d := SpaceForT(s);
    assert d == s[..10] + " " + s[11..];
    assert d[11..13] == [s[11], s[12]];
    assert d[5..7] == s[5..7] && d[8..10] == s[8..10] && d[..4] == s[..4] && d[14..16] == s[14..16];
    StoiTwoDigits(s[11], s[12]);
  }

  // ---------------------------------------------------------------------------
  // SellPage::handlePost
  // ---------------------------------------------------------------------------

  datatype SellOutcome =
    | MustLogIn
    | SellForm(message: string)
      /** The item was stored; `startShown` is the start time as the confirmation shows it. */
    | Listed(itemId: int, startShown: string)
      /** The item was stored, then std::stoi threw while the confirmation was being written. */
    | ListedThenAborted(itemId: int)

  /**
   * SellPage::handlePost. `stod` stands for std::stod, `toSeconds` for MySQL's
   * reading of a DATETIME text (None when the text is not a date-time, in
   * which case `? > NOW()` is NULL and the page refuses the start). The
   * condition is checked but not stored.
   */
  method SellPost(db: Database, session: Session, form: map<string, string>,
                  stod: string -> Option<NumberPrefix>, toSeconds: string -> Option<int>, now: int)
    returns (outcome: SellOutcome)
    requires db.Valid() && session.db == db
    modifies db, session
    ensures db.Valid()
    ensures db.users == old(db.users) && db.bids == old(db.bids)
    ensures var found := SessionLookup(old(db.users), old(db.sessions), old(session.token), now);
      !(old(session.token) != "" && old(db.available) && found.Some?) ==>
        outcome == MustLogIn && db.items == old(db.items) && db.sessions == old(db.sessions)
    ensures var found := SessionLookup(old(db.users), old(db.sessions), old(session.token), now);
      var title, condition, description := Field(form, "item_name"), Field(form, "condition"), Field(form, "description");
      var price, start := Field(form, "starting_price"), Field(form, "start_datetime");
      old(session.token) != "" && old(db.available) && found.Some? ==>
        && session.userId == found.value && session.loggedIn
        && db.sessions == Refreshed(old(db.sessions), old(session.token), now)
        && (ListingError(title, condition, description, price, start, stod).Some? ==>
              outcome == SellForm(ListingError(title, condition, description, price, start, stod).value)
              && db.items == old(db.items))
        && (ListingAcceptable(title, condition, description, price, start, stod) ==>
              var instant := toSeconds(SpaceForT(start) + ":00");
              && (instant.None? || instant.value <= now ==>
                    outcome == SellForm(StartPastMessage) && db.items == old(db.items))
              && (instant.Some? && instant.value > now ==>
                    var id := old(db.nextItemId);
                    && db.items == old(db.items) + [Item(id, found.value, title, description, stod(price).value.value,
                                                         instant.value, instant.value + Week, None, None)]
                    && outcome == (if DisplayDatetime(start).Some? then Listed(id, DisplayDatetime(start).value)
                                   else ListedThenAborted(id))))
  {
    var loggedIn := session.Validate(now);
    if !loggedIn {
      return MustLogIn;
    }
    var title, condition, description := Field(form, "item_name"), Field(form, "condition"), Field(form, "description");
    var price, start := Field(form, "starting_price"), Field(form, "start_datetime");
    var problem := ListingError(title, condition, description, price, start, stod);
    if problem.Some? {
      return SellForm(problem.value);
    }
    var startPrice := stod(price).value.value;
    var startText := MysqlDatetime(start);
    var instant := toSeconds(startText);
    if instant.None? || instant.value <= now {
      return SellForm(StartPastMessage);
    }
    var id := db.InsertItem(session.userId, title, description, startPrice, instant.value, instant.value + Week);
    var d := SpaceForT(start);
    var hour := Stoi(d[11..13]);
    if hour.None? {
      return ListedThenAborted(id.value);
    }
    var h, pm := DisplayHour(hour.value);
    var shown := d[5..7] + "/" + d[8..10] + "/" + d[..4] + " " + IntToString(h) + ":" + d[14..16]
                 + (if pm then " PM" else " AM");
    outcome := Listed(id.value, shown);
  }
}
