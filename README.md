# Auction house core, modelled in Dafny

The auction house is a set of CGI programs in C++ backed by MySQL. It has two
generations of code side by side. The legacy programs are `register.cpp`,
`login.cpp`, `index.cpp` and `my_bids.cpp`, with the shared helpers in
`utils.cpp`. The page classes under `src/` are driven by `src/core/Session.cpp`
and the helpers in `src/utils/utils.cpp`. This project models the logic both
generations share:

- the string helpers: cookie extraction, HTML escaping, URL decoding, the
  splitting of form bodies and query strings, and e-mail validation;
- the session store: a five-minute sliding inactivity window, refreshed on
  every successful check, in its legacy form and in its `Session` class form;
- the form chains of registration, login and listing an item: ordered
  checks, each with its own message, ending in inserts into the tables;
- the browse listing: the query-string parameters, the sort key, the
  time-left text, the Bid button, and the filter and order of the listing query;
- the history views: the four selections Selling, Purchases, Current Bids
  and Didn't Win, on the page class and in the legacy program.

The database is a class `Tables.Database` holding the tables `users`,
`sessions`, `items` and `bids`. Its flag `available` says whether statements
reach the server. Its methods are the INSERT, UPDATE and DELETE statements the
programs run. SELECT statements are pure functions over the tables. Time is
integer seconds, and the present moment `now` is a parameter. Amounts are
exact `real` numbers.

Some operations stand outside the model and become parameters:

- `hash`: the password hash;
- `token`: the fresh session token;
- `ip`: the client address;
- `stod`: the number reader `std::stod`;
- `toSeconds`: MySQL's reading of a DATETIME text;
- `failing`: the set of statements that fail on one request of the history pages.

Modules, one file each:

| module | file | models |
|---|---|---|
| `Common` | common.dfy | `std::string::find`, decimal text, `std::stoi` |
| `Utils` | utils.dfy | the helpers of `src/utils/utils.cpp` and `utils.cpp` |
| `Tables` | tables.dfy | the four tables and the statements that change them |
| `SessionStore` | session_store.dfy | `isUserLoggedIn`, the inline check of `index.cpp`, class `Session` |
| `Register` | register.dfy | `RegisterPage::handlePost`, `register.cpp` |
| `Login` | login.dfy | `LoginPage::handlePost`, `login.cpp` |
| `Sell` | sell.dfy | `SellPage::handlePost` |
| `Queries` | queries.dfy | the SELECT … WHERE … ORDER BY shape |
| `Browse` | browse.dfy | `BrowsePage` |
| `Transactions` | transactions.dfy | `TransactionsPage`, `my_bids.cpp` |

## Model

| member | source | states |
|---|---|---|
| `Common.NatToStringRoundTrip` | src/pages/BrowsePage.cpp:108-130 | The decimal text of a count reads back as that count. |
| `Common.StoiTwoDigits` | src/pages/SellPage.cpp:398 | `std::stoi` of two decimal digits is the number they spell. |
| `Common.StoiOfDigits` | src/pages/SellPage.cpp:398 | `std::stoi` reads a nonempty run of decimal digits, with no sign or leading space, as the number the digits spell. |
| `Common.StoiRejectsNonNumeric` | src/pages/SellPage.cpp:398 | `std::stoi` throws on text that starts with neither white space, a sign nor a digit. |
| `Utils.GetCookieValue` | src/utils/utils.cpp:11-20 | The result is "" when `name=` occurs nowhere. Otherwise it is the text after the first `name=` up to the next `;` or the end. The result never holds a `;`. The legacy copy is utils.cpp:14-23. |
| `Utils.CookieExample` | src/utils/utils.hpp:18 | The documented example gives "abc". |
| `Utils.CookieNameMatchedAsSubstring` | src/utils/utils.cpp:12 | The name is matched anywhere in the header, so a first cookie named `xsession_token` shadows `session_token`. |
| `Utils.HtmlEscape` | src/utils/utils.cpp:23-37 | The loop appends the escape of every character in order: `&amp;`, `&lt;`, `&gt;`, `&quot;` and `&#x27;` for the five specials, the character itself otherwise. The legacy copy is utils.cpp:52-66. |
| `Utils.EscapedConcat` | src/utils/utils.cpp:26-35 | Escaping goes character by character: it distributes over concatenation. |
| `Utils.EscapeCharSafe` | src/utils/utils.cpp:27-33 | No replacement holds a raw `<`, `>`, `"` or `'`. A character that is not special is copied unchanged. |
| `Utils.EscapedHasNoRawSpecials` | src/utils/utils.cpp:26-35 | Escaped text holds no raw `<`, `>`, `"` or `'`. |
| `Utils.EscapedNotShorter` | src/utils/utils.cpp:26-35 | Escaped text is at least as long as its input. |
| `Utils.EscapedPlain` | src/utils/utils.cpp:26-35 | Text without any of the five specials is returned unchanged. |
| `Utils.UnescapeEscaped` | src/utils/utils.cpp:23-37 | Reading the entities back gives the original text: escaping loses nothing. |
| `Utils.EscapeValue` | src/utils/utils.cpp:46 | `sscanf("%x")` on the two characters after `%` gives a byte value. It reads both digits when both are hexadecimal and only the first otherwise. |
| `Utils.UrlDecode` | src/utils/utils.cpp:40-53 | The loop maps `+` to a space. It decodes `%` plus two characters to one byte, skipping both characters. It copies everything else. The copies are utils.cpp:69-82 and index.cpp:10-23. |
| `Utils.UrlDecodedNotLonger` | src/utils/utils.cpp:40-53 | Decoded text is never longer than its input. |
| `Utils.UrlDecodedPlain` | src/utils/utils.cpp:40-53 | Text with no `+` and no `%` decodes to itself. |
| `Utils.ShortEscapeKept` | src/utils/utils.cpp:44 | A `%` with fewer than two characters after it is copied literally. |
| `Utils.EscapeDecoded` | src/utils/utils.cpp:44-48 | `%` and two hexadecimal digits decode to the byte they spell. The rest is decoded after it. |
| `Utils.UrlDecodeInvertsFormEncoding` | src/utils/utils.cpp:40-53 | Decoding undoes the browser's form encoding of any byte string. |
| `Utils.PiecesHaveNoSeparator` | src/utils/utils.cpp:67 | No piece that `getline(ss, pair, '&')` reads holds an `&`. |
| `Utils.PiecesJoin` | src/utils/utils.cpp:65-67 | Joining the pieces with `&` gives the body back. The only exception is one trailing `&`, which yields no piece. |
| `Utils.ParseFormBody` | src/utils/utils.cpp:65-74 | The loop over pieces yields exactly the fields of the body. The legacy copy is utils.cpp:95-104. |
| `Utils.FoldFieldsKeys` | src/utils/utils.cpp:67-73 | A key is in the map exactly when it was already there or some piece carries it before its first `=`. |
| `Utils.FoldFieldsUntouched` | src/utils/utils.cpp:67-73 | A key that no piece carries keeps its value. |
| `Utils.FoldFieldsLastWins` | src/utils/utils.cpp:72 | A later duplicate key overwrites an earlier one. |
| `Utils.FormFieldsKeys` | src/utils/utils.cpp:67-73 | The keys of a body are the text before the first `=` of its pieces. Pieces without `=` are dropped. |
| `Utils.FormFieldsLastWins` | src/utils/utils.cpp:72 | The value of a key is the URL-decoded value of the last piece that carries it. |
| `Utils.IsValidEmail` | src/utils/utils.cpp:104-109 | Holds iff the first `@` is past index 0, and the first `.` after it is more than one place later and not the last character. The legacy copy is utils.cpp:134-139. |
| `Tables.Refreshed` | src/core/Session.cpp:84-85 | `UPDATE sessions SET last_active=NOW()` changes only that token's row and only its time. |
| `Tables.MaxBid` | src/pages/TransactionsPage.cpp:249-250 | `MAX(bid_amount)` over the matching bids is None iff no bid matches. Otherwise it is the amount of a matching bid, and no matching bid is higher. |
| `Tables.Database.InsertUser` | src/pages/RegisterPage.cpp:133-159 | With the server up, the user gets the next id, a fresh one, and nothing else changes. With the server down, nothing changes. |
| `Tables.Database.InsertSession` | src/core/Session.cpp:117-141 | The row is added iff the server is up and the token is not already a key. The result says which happened. |
| `Tables.Database.TouchSession` | src/core/Session.cpp:84-95 | With the server up, the token's `last_active` becomes now. No other table changes. |
| `Tables.Database.DeleteSession` | src/core/Session.cpp:157-167 | With the server up, the token's row is removed. No other table changes. |
| `Tables.Database.InsertItem` | src/pages/SellPage.cpp:304-311 | With the server up, the item is appended with the next item id. Nothing else changes. |
| `SessionStore.LegacyLookup` | utils.cpp:258-323 | No session exactly when the row or its user is missing, the e-mail is over 256 bytes, or `last_active` lies after now (the negative `TIMESTAMPDIFF` does not fit the unsigned fetch, which reports truncation). Fresh exactly when the row joins, the e-mail fits and `last_active <= now <= last_active + 300`. Stale exactly when it joins, fits and more than 300 seconds have passed. |
| `SessionStore.CheckLegacySession` | utils.cpp:254-329 | A fresh session is refreshed and gives its e-mail. A stale one is deleted. An unknown token or a `last_active` after now changes nothing. |
| `SessionStore.IsUserLoggedIn` | utils.cpp:245-330 | With no cookie or an empty token, the result is false and no row is touched. Otherwise the result is true exactly for a fresh session, whose e-mail it writes out. The sessions table afterwards is `HeadSessions` of the table before. |
| `SessionStore.InlineTokenIsCookieToken` | index.cpp:34-43 | The inline extraction (14 characters after `session_token=`) finds the same token as `getCookieValue`. |
| `SessionStore.IndexSession` | index.cpp:28-112 | The inline check of `index.cpp` behaves like `isUserLoggedIn`: refresh when fresh, delete when stale, no lookup without a token. |
| `SessionStore.SessionLookup` | src/core/Session.cpp:35-75 | A user is found iff the joined row has `last_active > now - 300` and an e-mail that fits 128 bytes. The user found is the row's user. |
| `SessionStore.Session.constructor` | src/core/Session.cpp:7-12 | The object starts with user -1, logged out, and the cookie token. It validates only a non-empty token. |
| `SessionStore.Session.Validate` | src/core/Session.cpp:27-103 | An empty token or a server that is down gives false with nothing changed. Otherwise success sets the user and e-mail, marks the object logged in and refreshes the row. Failure marks it logged out and deletes nothing. |
| `SessionStore.Session.Create` | src/core/Session.cpp:108-144 | The object takes the user and token and counts as logged in whatever the insert does. The row is added when the insert succeeds. |
| `SessionStore.Session.Destroy` | src/core/Session.cpp:149-172 | With no token it does nothing. Otherwise it deletes the row, logs out and clears the token, keeping the user id and e-mail. |
| `SessionStore.WindowsDisagreeAtBoundary` | src/core/Session.cpp:38 | At exactly 300 seconds of inactivity the legacy check (utils.cpp:290) accepts and `Session::validate` refuses. |
| `SessionStore.WindowsAgreeInside` | src/core/Session.cpp:38 | Strictly inside the window both checks accept the same user. |
| `SessionStore.FutureLastActive` | utils.cpp:275-290 | A `last_active` in the future makes the legacy check find no session and leave the sessions table unchanged, while `Session::validate` accepts the token. |
| `SessionStore.ValidateKeepsSessionAlive` | src/core/Session.cpp:78-96 | After a successful validation, the refreshed row validates again for the next five minutes. |
| `SessionStore.LegacyRefreshKeepsSessionAlive` | utils.cpp:290-306 | After the legacy refresh, the session stays fresh for 300 more seconds. |
| `SessionStore.LegacyStaleIsDeleted` | utils.cpp:308-322 | A stale session is gone for good once the legacy check has seen it. |
| `SessionStore.ExpiredStaysExpired` | src/core/Session.cpp:98-100 | An expired row is left in place but never validates again. |
| `SessionStore.CreatedSessionValidates` | src/core/Session.cpp:108-144 | A session that `create` inserted validates for the next five minutes. |
| `SessionStore.DestroyedSessionRejected` | src/core/Session.cpp:157-171 | After `destroy`, neither check accepts the token. |
| `Register.InputError` | src/pages/RegisterPage.cpp:53-82 | The checks run in order: all fields present, valid e-mail, at least 8 characters, password equals confirmation. Each message is given exactly when its check is the first to fail. The legacy copy is register.cpp:64-79. |
| `Register.RegisterPost` | src/pages/RegisterPage.cpp:47-190 | Input errors, a server that is down and a taken e-mail change nothing. Success inserts the user with the hashed password under a fresh id and creates a session with the new token, which is also the cookie. The escaped e-mail shown holds no raw `<` or `'`. |
| `Register.LegacyRegister` | register.cpp:52-199 | The page's own writes come first. Then `printHead` (register.cpp:8, :40) runs the legacy session check on the request's cookie, which refreshes or deletes that cookie's row. On a GET, on errors and on a taken e-mail, that check is the only change to the sessions table. On success the check runs on the table that already holds the new session. |
| `Register.LegacyRegisterWrites` | register.cpp:52-199 | A GET shows the empty form. Errors re-show the form with the raw e-mail and change nothing. Success inserts the user, then the session row. A failed session insert gives the error form although the user row stays. |
| `Login.MatchingUsers` | src/pages/LoginPage.cpp:88-96 | A user matches iff both the e-mail and the password hash are equal. |
| `Login.AtMostOneMatch` | src/pages/LoginPage.cpp:121-128 | With unique e-mails, the lookup finds at most one user. |
| `Login.LoginPost` | src/pages/LoginPage.cpp:44-152 | An empty field, a server that is down or no match re-show the form with the escaped e-mail and change nothing. A match creates a session for exactly that user with the new token as cookie. |
| `Login.LegacyLogin` | login.cpp:56-166 | After the page's own writes, `printHead` (login.cpp:12, :43) runs the legacy session check on the request's cookie, which refreshes or deletes that cookie's row. Users, items and bids never change. Without a match, that check is the only change to the sessions table. |
| `Login.LegacyLoginWrites` | login.cpp:56-166 | A GET shows the form. Empty fields, a failed connection and no match give their messages and change nothing. A match inserts a session row, whose failure is ignored: the cookie is sent anyway. |
| `Login.RegisteredUserCanLogIn` | src/pages/RegisterPage.cpp:133-159 | The row registration writes is exactly what a later login with the same e-mail and password finds. |
| `Sell.ListingError` | src/pages/SellPage.cpp:209-259 | The checks run in order. Each message has its own two-way clause: it is given exactly when its check fails and all earlier checks pass. The checks are: title 1 to 100 characters, condition, description, price present, price read whole by `stod`, price above zero, start at least 16 characters, a `T` or a space. |
| `Sell.SpaceForT` | src/pages/SellPage.cpp:263-268 | Only the first `T` becomes a space. Every other character and the length stay. |
| `Sell.MysqlDatetime` | src/pages/SellPage.cpp:263-268 | The stored text is the input with its first `T` made a space and `:00` appended, 3 characters longer. |
| `Sell.LocalDatetimeToMysql` | src/pages/SellPage.cpp:263-268 | A `YYYY-MM-DDTHH:MM` value becomes `YYYY-MM-DD HH:MM:00`. |
| `Sell.ClockHour` | src/pages/SellPage.cpp:400-401 | Hours 0 to 23 map to 1 to 12, and together with AM/PM they read back as the hour. |
| `Sell.DisplayHour` | src/pages/SellPage.cpp:399-401 | The in-place conversion gives PM iff the hour is at least 12, and the 12-hour reading. |
| `Sell.ClockReadingsDistinct` | src/pages/SellPage.cpp:399-401 | Distinct hours of a day show as distinct readings. |
| `Sell.DisplayOfLocalDatetime` | src/pages/SellPage.cpp:384-405 | A datetime-local value is always shown as `MM/DD/YYYY h:MM AM/PM`. |
| `Sell.SellPost` | src/pages/SellPage.cpp:119-428 | A visitor not logged in gets an error and no insert. Check failures show their message. A start that is not later than now is refused. Otherwise the item is stored from the start for exactly seven days. |
| `Queries.Select` | src/pages/TransactionsPage.cpp:167-172 | A row is selected exactly when some entry passes the WHERE clause and maps to it. |
| `Queries.SortBy` | src/pages/BrowsePage.cpp:281-292 | ORDER BY gives the same rows, as a permutation, sorted on the key. |
| `Browse.ReadPair` | src/pages/BrowsePage.cpp:34-47 | A pair splits at its first `=`, with an empty value when there is none, and both halves are URL-decoded. |
| `Browse.ParseQueryString` | src/pages/BrowsePage.cpp:15-62 | The loop over `&`-separated pairs yields the parameters that folding the pairs in order gives. With no QUERY_STRING both stay empty. |
| `Browse.FoldQueryUntouched` | src/pages/BrowsePage.cpp:49-54 | Keys other than `q` and `sort` are ignored. A parameter that no pair names stays as it was. |
| `Browse.FoldQueryLastWins` | src/pages/BrowsePage.cpp:49-54 | The last pair naming `q` (or `sort`) decides its value. |
| `Browse.NormalizeSort` | src/pages/BrowsePage.cpp:160-169 | `newest`, `low` and `high` keep their meaning, and any other text means `ending`. |
| `Browse.SortNameRoundTrip` | src/pages/BrowsePage.cpp:160-169 | The normalised key is one of the four names and normalises to itself. |
| `Browse.TwoDigitsValue` | src/pages/BrowsePage.cpp:110-127 | A number under 100 printed with a leading zero is two digits that read back as it. |
| `Browse.Breakdown` | src/pages/BrowsePage.cpp:98-104 | The remaining seconds equal days·86400 + hours·3600 + minutes·60 + seconds, with hours < 24 and minutes, seconds < 60. |
| `Browse.FormatTimeLeft` | src/pages/BrowsePage.cpp:80-133 | The in-place computation gives the time-left text. |
| `Browse.TimeLeftEnded` | src/pages/BrowsePage.cpp:94-96 | The text is `Ended` exactly when the end is not after now. |
| `Browse.TimeLeftClockReadsBack` | src/pages/BrowsePage.cpp:116-130 | Under a day, the text is `hh:mm:ss` and reads back as the remaining seconds. |
| `Browse.TimeLeftDaysReadBack` | src/pages/BrowsePage.cpp:108-115 | From a day on, the text is the whole days, `d `, and the two-digit hours of the rest. |
| `Browse.CurrentBid` | src/pages/BrowsePage.cpp:267 | The current bid is the start price without bids, otherwise the highest bid on the item. |
| `Browse.SelectedRows` | src/pages/BrowsePage.cpp:266-277 | A row is selected iff its item is still running, its seller exists, and the search term (if any) is in the title or description. |
| `Browse.ListingMembers` | src/pages/BrowsePage.cpp:266-279 | The listing holds exactly the rows of selected items, whatever the sort. |
| `Browse.ListingOrdered` | src/pages/BrowsePage.cpp:281-292 | Every listed item is still running. The order is end ascending, start descending, or current bid ascending or descending, as the key says. |
| `Browse.BrowseGet` | src/pages/BrowsePage.cpp:145-465 | The term and sort come from the query string. With the server down the table is empty. Otherwise each listing row is shown with its time left and the Bid button rule. |
| `Browse.NoBidOnOwnItem` | src/pages/BrowsePage.cpp:367-370 | A Bid button appears only for a logged-in visitor who is not the seller. |
| `Transactions.BidById` | src/pages/TransactionsPage.cpp:212 | The winning bid is a bid with that id, or none when no bid has it. |
| `Transactions.Selling` | src/pages/TransactionsPage.cpp:167-172 | The rows are the user's items, `Closed` iff the end is before now, latest end first. The same query is at my_bids.cpp:295-300. |
| `Transactions.Purchases` | src/pages/TransactionsPage.cpp:210-215 | The rows are the items the user won, with the winning bid's amount or 0, latest end first. The same query is at my_bids.cpp:341-346. |
| `Transactions.CurrentBids` | src/pages/TransactionsPage.cpp:247-253 | The rows are items still running that the user bid on, with the highest bid and the user's highest, soonest end first. The same query is at my_bids.cpp:232-240. |
| `Transactions.Lost` | src/pages/TransactionsPage.cpp:298-305 | The rows are items won by someone else that the user bid on, latest end first. The same query is at my_bids.cpp:387-395. |
| `Transactions.YoursAtMostHighest` | src/pages/TransactionsPage.cpp:247-253 | On every Current Bids row the user's highest bid is at most the overall highest, and both are real bids on the item. |
| `Transactions.EndingNowIsActiveButNotOpen` | src/pages/TransactionsPage.cpp:167-172 | An item ending exactly now is `Active` under Selling (line 169) but on nobody's Current Bids (line 251). |
| `Transactions.WonAuctionShown` | src/pages/TransactionsPage.cpp:210-215 | A won auction the user bid on shows under Purchases if the user won it, and under Didn't Win (lines 298-305) otherwise. |
| `Transactions.Fetched` | src/pages/TransactionsPage.cpp:56-60 | The fetch loop yields the rows before the first title too long for its 256-byte buffer. |
| `Transactions.RunQueryAndPrint` | src/pages/TransactionsPage.cpp:14-61 | A failed statement prints nothing and answers false. Otherwise the fetched rows are printed, and the answer is true iff any row was printed. |
| `Transactions.FetchedStopsAt` | src/pages/TransactionsPage.cpp:56-60 | The fetched rows are exactly the prefix before the first over-long title. |
| `Transactions.ShortTitlesAllFetched` | src/pages/TransactionsPage.cpp:56-60 | When every title fits, every selected row is fetched. |
| `Transactions.TabPlaceholder` | src/pages/TransactionsPage.cpp:195 | A section shows its placeholder when its statement fails or selects nothing. When every title fits, it shows the placeholder iff nothing is selected, and otherwise all the rows. |
| `Transactions.TransactionsGet` | src/pages/TransactionsPage.cpp:67-374 | A visitor not logged in is redirected to `login.cgi`. Otherwise the four sections are shown, each its fetched rows or its placeholder. |
| `Transactions.PanelView` | my_bids.cpp:242-280 | A failed query gives the section's error row. Otherwise zero rows give the placeholder, and any rows are shown in full. |
| `Transactions.MyBids` | my_bids.cpp:9-436 | A visitor not logged in gets the refresh page. An unresolved user id stops with its message. Otherwise each of the four panels is filled independently. With unique e-mails, the user found is the session's user. |

## Left out

- HTML, CSS and JavaScript output is left out, because it is presentation. This includes the page templates, the tab switcher, the Pacific-time formatting, `DATE_FORMAT` and `FORMAT`. The legacy `printHead` (utils.cpp:149-151) is the exception: its call of `isUserLoggedIn` writes to the sessions table, so `Register.LegacyRegister` and `Login.LegacyLogin` include it. `Page::printHead` in `src/core/Page.cpp` only reads the session object.
- The MySQL client calls are left out. The tables are abstract, and the connection, prepare, bind and fetch plumbing and the `main_*.cpp` entry points are not modelled.
- `available` is one flag for the whole database, so a page that reaches the server once reaches it again.
- Some failures need a statement to fail after an earlier one on the same request succeeded, which one flag cannot express. They are therefore unreachable in the model: "Could not create account." on RegisterPage, the failed item insert on SellPage, and the `!conn` branches of the page classes. The `Database` constructor throws on a failed connection, so no page runs and `connection()` never returns null.
- The history pages take the failing statements as the parameter `failing`, so their per-section error rows are modelled.
- BidPage is left out: it is a stub with placeholder values and no bid rules. Logout is left out because its only logic, deleting the token's row, is `Session.Destroy`.
- The password hash, token generation, the client address and the clock are parameters, not models.
- Floating point is left out: amounts are exact reals. Also left out are `std::stod`'s acceptance of `inf` and `nan` (it is the parameter `stod`) and `formatCurrency`.
- Reading `CONTENT_LENGTH`, stdin, `QUERY_STRING` and `HTTP_COOKIE` from the environment is left out. The model starts from the strings they give.
- `UrlDecode`, `ParseFormBody` and `ParseQueryString` require every `%` that starts an escape to be followed by a hexadecimal digit. Two kinds of input are excluded by this:
  - Input where `sscanf("%x")` leaves the value unset, which is undefined behaviour in C++. The first character after the `%` is not a hexadecimal digit, white space or a sign, or a sign or space is followed by a character that is not a hexadecimal digit.
  - Input with a well-defined result that is not modelled. `%x` skips white space and accepts a sign, so `% 5` and `%+5` decode to the byte 5, and `%-1` decodes to the byte 0xFF.
  - Neither kind comes out of a browser's form encoding, which `Utils.UrlDecodeInvertsFormEncoding` covers.
- Characters stand for bytes. Buffer limits (256 and 128 bytes for e-mails, 256 for history columns) are compared with the character count, so multi-byte UTF-8 text is not modelled.
- Tables.EmailTaken, Login.MatchingUsers and the keys of `sessions`: the SQL comparisons `user_email = ?` and `session_token = ?` are read as exact string equality, which assumes a binary collation. Under MySQL's default case-insensitive collations `A@x.com` equals `a@x.com`, so the programs would refuse such a registration as a duplicate and accept a login typed in another case. The model does neither.
- Browse.BrowseGet: rows with equal sort keys are listed in the order they were selected (a stable sort). `ORDER BY` does not promise any order among such rows. The same holds for the four history sections of Transactions.
- Browse.SelectedRows: `LIKE '%term%'` is read as a literal, case-sensitive substring. Wildcards inside the term and the collation's case folding are not modelled.
- Browse.BrowseGet: the listing loop also continues on a truncated fetch and reads the title buffer with the reported full length. That over-read is not modelled, and long titles are shown whole.
- Transactions.RunQueryAndPrint: only the title column is checked against its 256-byte buffer. The other columns (ids, formatted amounts, dates) are taken to fit.
- Transactions.MyBids: the user id query is built by pasting the e-mail into the SQL text. The model reads it as a lookup by e-mail, so the SQL injection an address with a quote allows is not modelled.
- Transactions.MyBids: the legacy page prints titles without HTML escaping. This is a property of the printed HTML and is not modelled.
- Common.StoiTwoDigits: the range check of `std::stoi` (`out_of_range` past 32 bits) is not modelled. Only text without a number makes it throw.
- Auction settlement (setting the winner and the winning bid) happens in none of the programs. `winnerId` and `winningBidId` are read as given.
- Each request is a separate process, so concurrency between requests is left out.
- The item condition is checked on SellPage but never stored, so `Item` has no condition field.
- The session token is taken to be the key of `sessions`. A session insert with a token already present fails.
