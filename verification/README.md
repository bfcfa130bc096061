# Train seat booking: selection, submission and booking dates

A Dafny model of the logic inside the train-ticket frontend's two pages:

- **Seat booking page** (`frontend/src/pages/SeatBooking.jsx`). The traveller picks a
  number of tickets, from 1 up to the number of free seats and at most 5. They then click
  seats. The selection is an ordered list capped at the ticket count:
  - a booked seat ignores clicks;
  - clicking a selected seat deselects it;
  - a new seat is appended while below the cap;
  - at the cap the oldest selected seat is dropped to make room (first in, first out).

  Changing the ticket count clears the selection. Booking is refused unless exactly the
  chosen number of seats is selected. Otherwise one booking request goes out per seat,
  and the outcome is all-or-error:
  - if every request is accepted, the page reloads the seats and moves to the history page;
  - on the first rejection it shows an error and does nothing else.
- **Booking history page** (`frontend/src/pages/MyBookings.jsx`). Each row shows a date
  and a status. The date is chosen as follows:
  - `bookedAt`, or else `createdAt`. A present date that does not parse prints "Invalid date".
  - Else the first eight characters of the record id, read by `parseInt(…, 16)` as epoch
    seconds, tagged " (from ID)".
  - Else the current time, tagged " (fallback)".

  The status is "Booked" exactly when the booked seat's `isBooked` flag is set.

Modules:
- `Wrappers` (`wrappers.dfy`): `Option`.
- `Numbers` (`numbers.dfy`): `Min`, for the menu bound and the id prefix length.
- `Decimal` (`decimal.dfy`): number-to-text, as the page's message templates print numbers.
- `SeatSelection` (`seat_selection.dfy`): seats, the click transition, the selection
  invariant, the ticket-count menu and the page state.
- `SeatBooking` (`seat_booking.dfy`): the booking gate, the requests, the all-or-error join,
  the effects (requests, seat reload, navigation) and the button.
- `JsParseInt` (`js_parse_int.dfy`): `parseInt(s, 16)` as section 19.2.5 of ECMA-262 reads
  its input. That means leading white space, an optional sign, an optional `0x`, the longest
  run of hex digits, and NaN (`None`) when there are no digits. The value is the exact integer
  rather than a double. The two agree for inputs of at most 13 characters (`ShortInputIsExact`),
  and the page reads at most 8.
- `MyBookings` (`my_bookings.dfy`): `formatBookingDate` and the status rule.

Date parsing (`new Date(text)`), `toLocaleString()` of a valid time value and the clock are
outside the model. They are the three fields of a `DateLib` value passed in, so every
statement about dates holds for any parser, any locale and any current time. The two
behaviours of JavaScript dates the page depends on are modelled:
- `new Date(ms)` is invalid outside ±8.64e15 ms (TimeClip, section 21.4.1.31 of ECMA-262);
- an invalid Date prints "Invalid Date".

## Behaviour worth knowing

- A booking attempt has no partial-success result. `Promise.all` rejects on the first failed
  request, and the page shows one error message (the service's or a default). Which seats
  failed is not kept.
- The seat list is reloaded only after full success. Requests already accepted are never undone.
- A present but unparsable `bookedAt`/`createdAt` gives "Invalid date". The id and the clock
  are then not tried.
- With neither date field truthy, any non-empty id takes the id branch, and the clock is then
  never used. When `parseInt` reads
  the first eight characters as NaN, the text is "Invalid Date (from ID)". Examples are
  "zzzzzzzz" and "0xzzzzzz", where no hex digit follows the `0x`.
- `parseInt` skips leading white space, a sign and a `0x` prefix, and stops at the first
  non-hex character. So "-abc1234" and " 5f1b2c3" also read as numbers of seconds, and the id
  branch is not a strict 4-byte unsigned decode. When all eight characters are hex digits it
  is one, and the value is at most 0xFFFFFFFF.
- The ticket count clears the selection only when it changes. It is bounded by the menu and
  is not re-checked when the seat list changes.

## Model

| member | source | states |
|---|---|---|
| `SeatSelection.Click` | frontend/src/pages/SeatBooking.jsx:80-97 | a click adds no seat except the clicked one, and only if it is free; on a free seat it toggles membership by id; the selection grows by at most one |
| `SeatSelection.RemoveId` | frontend/src/pages/SeatBooking.jsx:84-88 | deselecting keeps exactly the seats with another id, leaves none with this id, and shrinks the list only when the id was selected |
| `SeatSelection.RemoveIdAt` | frontend/src/pages/SeatBooking.jsx:88 | with distinct ids, the filter deletes exactly the one position holding the id |
| `SeatSelection.ClickBookedIsNoOp` | frontend/src/pages/SeatBooking.jsx:81 | clicking a booked seat leaves the selection unchanged |
| `SeatSelection.ClickSelectedRemovesInPlace` | frontend/src/pages/SeatBooking.jsx:84-88 | clicking a selected seat removes it and keeps the other seats in their original order; the length drops by one |
| `SeatSelection.ClickAppendsBelowCap` | frontend/src/pages/SeatBooking.jsx:89-91 | below the cap a new free seat is appended at the end; the length grows by one |
| `SeatSelection.ClickEvictsOldestAtCap` | frontend/src/pages/SeatBooking.jsx:92-94 | at the cap the oldest seat is dropped and the new one appended; the length is unchanged |
| `SeatSelection.ClickPreservesValid` | frontend/src/pages/SeatBooking.jsx:80-97 | for a positive ticket count every click keeps: size at most the count, ids pairwise distinct, no booked seat |
| `SeatSelection.ToggleTwiceBelowCap` | frontend/src/pages/SeatBooking.jsx:84-91 | below the cap, picking a new free seat and clicking it again restores the selection |
| `SeatSelection.ToggleTwiceAtCapLosesOldest` | frontend/src/pages/SeatBooking.jsx:84-94 | at the cap the same double click leaves the selection without its oldest seat, so it is not restored |
| `SeatSelection.ClickAllPreservesValid` | frontend/src/pages/SeatBooking.jsx:80-97 | any sequence of clicks keeps the selection invariant |
| `SeatSelection.ClickAllKeepsNewest` | frontend/src/pages/SeatBooking.jsx:89-94 | clicking distinct free seats from an empty selection leaves exactly the last n clicked, oldest first |
| `SeatSelection.FifoEvictionExample` | frontend/src/pages/SeatBooking.jsx:92-94 | seats 1, 2, 3 with two tickets leave seats 2 and 3 |
| `SeatSelection.CountFree` | frontend/src/pages/SeatBooking.jsx:144 | the free count is at most the seat count; it equals it iff no seat is booked and is zero iff every seat is booked |
| `SeatSelection.CountFreeAppend` | frontend/src/pages/SeatBooking.jsx:144 | the free count of two seat lists joined is the sum of their free counts |
| `SeatSelection.CountFreeIsFreeIndices` | frontend/src/pages/SeatBooking.jsx:144 | the free count is exactly the number of positions holding a seat that is not booked |
| `SeatSelection.TicketOptions` | frontend/src/pages/SeatBooking.jsx:211-217 | the menu offers exactly 1..min(free seats, 5) in increasing order, and nothing when every seat is booked |
| `SeatSelection.InitialScreen` | frontend/src/pages/SeatBooking.jsx:34-35 | the page starts with the given seats, an empty selection and one ticket, which satisfies the invariant |
| `SeatSelection.ChooseTickets` | frontend/src/pages/SeatBooking.jsx:45-48 | a menu choice sets the count; a different count empties the selection; the count lies in 1..min(5, free seats); the invariant holds afterwards |
| `SeatSelection.ClickSeat` | frontend/src/pages/SeatBooking.jsx:80-97 | a click on the page replaces the selection by the click transition's result, changes nothing else, and keeps the page invariant |
| `SeatBooking.ReadyToBook` | frontend/src/pages/SeatBooking.jsx:100 | the gate passes iff the count is positive and exactly that many seats are selected |
| `SeatBooking.RefusalMessage` | frontend/src/pages/SeatBooking.jsx:101 | the refusal is "Please select exactly ", the shortest digit string whose value is n, " seat", and "s" iff n > 1 |
| `SeatBooking.SuccessNotice` | frontend/src/pages/SeatBooking.jsx:119 | the notice is "Successfully booked ", the shortest digit string whose value is n, " ticket", "s" iff n > 1, then the redirect announcement |
| `SeatBooking.BookingRequests` | frontend/src/pages/SeatBooking.jsx:110-114 | one request per selected seat, carrying that seat's number, in selection order |
| `SeatBooking.FirstRejection` | frontend/src/pages/SeatBooking.jsx:116 | the join finds no rejection iff every request was accepted; otherwise it points at the first one |
| `SeatBooking.RejectionMessage` | frontend/src/pages/SeatBooking.jsx:130 | the error text is the service's message when it sent a non-empty one, otherwise the default text; it is never empty |
| `SeatBooking.HandleBooking` | frontend/src/pages/SeatBooking.jsx:99-134 | an incomplete selection is refused with the count message and no effect; a complete one is never refused, and every seat is requested first; success iff complete and all accepted, and then the notice is the success notice for n; failure iff complete and some request rejected, with the message of the first rejection to settle |
| `SeatBooking.FailureNeitherRefreshesNorRollsBack` | frontend/src/pages/SeatBooking.jsx:116-131 | a complete selection with any rejected request ends in the error branch, and the only effects are the original requests: no seat reload, no undo |
| `SeatBooking.SuccessRefreshesThenNavigates` | frontend/src/pages/SeatBooking.jsx:118-126 | after full success the requests are followed by a seat reload and a navigation after 2000 ms |
| `SeatBooking.OneRequestPerSeat` | frontend/src/pages/SeatBooking.jsx:110-116 | with distinct seat numbers, each selected seat is requested exactly once, whatever the outcomes |
| `SeatBooking.LostRaceIsReportedAsError` | frontend/src/pages/SeatBooking.jsx:110-130 | three requests with the last rejected give an error with the service's message, and the three requests stand |
| `SeatBooking.IncompleteSelectionExample` | frontend/src/pages/SeatBooking.jsx:100-103 | one seat selected for two tickets is refused with "Please select exactly 2 seats" and nothing is sent |
| `SeatBooking.BookButtonEnabled` | frontend/src/pages/SeatBooking.jsx:440 | the button is never enabled while loading |
| `SeatBooking.EnabledButtonPassesGate` | frontend/src/pages/SeatBooking.jsx:440 | for a positive count, the button is enabled iff not loading and the booking gate passes |
| `SeatBooking.Label` | frontend/src/pages/SeatBooking.jsx:456-458 | the button offers to book iff the selection is complete; otherwise the missing count plus the selected count is the ticket count |
| `SeatBooking.LabelAsksForMissingSeats` | frontend/src/pages/SeatBooking.jsx:456-458 | under the selection invariant, the button asks for more seats iff fewer than n are selected, and then for between 1 and n |
| `SeatBooking.IntToString` | frontend/src/pages/SeatBooking.jsx:458 | the printed integer starts with "-" iff it is negative, and its digits, with no leading zero, read back as its magnitude |
| `SeatBooking.LabelText` | frontend/src/pages/SeatBooking.jsx:456-458 | the text starts with "Book " or "Select " according to the label |
| `Decimal.NatToString` | frontend/src/pages/SeatBooking.jsx:101 | counts print as non-empty digit strings without leading zeros |
| `Decimal.DecimalRoundTrip` | frontend/src/pages/SeatBooking.jsx:101 | reading the printed count back gives the count |
| `JsParseInt.TrimStart` | frontend/src/pages/MyBookings.jsx:53 | leading JavaScript white space is skipped, and only that |
| `JsParseInt.HexPrefix` | frontend/src/pages/MyBookings.jsx:53 | the digits read are the longest leading run of hex digits |
| `JsParseInt.ParseInt16` | frontend/src/pages/MyBookings.jsx:53 | NaN iff no hex digit follows the white space, sign and 0x; otherwise the exact value's magnitude is below 16^(length of input) |
| `JsParseInt.ParseUnsignedDigits` | frontend/src/pages/MyBookings.jsx:53 | without a minus sign the value is the value of the digits read |
| `JsParseInt.ParseNegativeDigits` | frontend/src/pages/MyBookings.jsx:53 | after a minus sign the value is the negated value of the digits read |
| `JsParseInt.TrimStartSkipsWhitespace` | frontend/src/pages/MyBookings.jsx:53 | white space in front of any text is removed by the trim |
| `JsParseInt.ParseSeesOnlyTrimmed` | frontend/src/pages/MyBookings.jsx:53 | two inputs with the same text after their leading white space parse the same |
| `JsParseInt.ParseIgnoresLeadingWhitespace` | frontend/src/pages/MyBookings.jsx:53 | white space put in front of an input does not change its parse |
| `JsParseInt.ParseSignedAfterWhitespace` | frontend/src/pages/MyBookings.jsx:53 | white space, "-" and a run of hex digits read as minus the digits' value |
| `JsParseInt.ShortInputIsExact` | frontend/src/pages/MyBookings.jsx:53 | an input of at most 13 characters reads within ±(2^53 − 1), where a double holds every integer exactly |
| `JsParseInt.HexValueBound` | frontend/src/pages/MyBookings.jsx:53 | k hex digits denote less than 16^k |
| `JsParseInt.ParseAllHex` | frontend/src/pages/MyBookings.jsx:53 | a non-empty all-hex string reads as its unsigned big-endian value |
| `JsParseInt.HexPrefixOfDigits` | frontend/src/pages/MyBookings.jsx:53 | the read stops at the first non-hex character |
| `JsParseInt.ParseStopsAtNonHex` | frontend/src/pages/MyBookings.jsx:53 | digits then a non-hex character read as the digits alone, except where "0x" starts a prefix |
| `JsParseInt.HexPrefixSkipped` | frontend/src/pages/MyBookings.jsx:53 | "0x1F" reads as 31 |
| `JsParseInt.BarePrefixIsNaN` | frontend/src/pages/MyBookings.jsx:53 | "0x" with nothing after it reads as NaN |
| `JsParseInt.NoDigitsIsNaN` | frontend/src/pages/MyBookings.jsx:53 | "zz" and "" read as NaN |
| `JsParseInt.ObjectIdPrefixExample` | frontend/src/pages/MyBookings.jsx:53 | "5f1b2c3d" reads as 1595616317 seconds |
| `MyBookings.FormatBookingDate` | frontend/src/pages/MyBookings.jsx:45-59 | the date branch shows the date field's text; the id branch ends in " (from ID)"; the clock branch ends in " (fallback)" |
| `MyBookings.ChosenDate` | frontend/src/pages/MyBookings.jsx:46 | the chosen date is bookedAt or createdAt; it is truthy iff either is; a truthy bookedAt wins |
| `MyBookings.FieldText` | frontend/src/pages/MyBookings.jsx:47-49 | a date that does not parse shows "Invalid date"; one that parses shows its locale text |
| `MyBookings.IdMillis` | frontend/src/pages/MyBookings.jsx:53 | the id time is NaN iff parseInt gives NaN; otherwise it is a whole number of seconds, namely the parsed number, in milliseconds |
| `MyBookings.LocaleString` | frontend/src/pages/MyBookings.jsx:54-55 | an invalid Date prints "Invalid Date"; a valid one prints its locale text |
| `MyBookings.IdPrefixOf` | frontend/src/pages/MyBookings.jsx:53 | the id prefix is the first min(8, length) characters |
| `MyBookings.TimeClip` | frontend/src/pages/MyBookings.jsx:54 | a time value is valid iff it is a number within ±8.64e15 ms, and is then kept as is |
| `MyBookings.Source` | frontend/src/pages/MyBookings.jsx:45-59 | the date branch iff some date field is truthy; the id branch iff neither is and the id is; the clock iff none is or there is no record |
| `MyBookings.BookedAtTakesPrecedence` | frontend/src/pages/MyBookings.jsx:46 | a truthy bookedAt alone decides the text; createdAt and the id never change it |
| `MyBookings.CreatedAtWhenBookedAtFalsy` | frontend/src/pages/MyBookings.jsx:46 | createdAt is used when bookedAt is falsy, and the id then never changes the text |
| `MyBookings.UnparsableDateIsFinal` | frontend/src/pages/MyBookings.jsx:47-49 | a present date that does not parse gives exactly "Invalid date" |
| `MyBookings.IdMillisInRange` | frontend/src/pages/MyBookings.jsx:53-54 | seconds from at most 8 characters are within ±0xFFFFFFFF, so the id-derived time is never clipped |
| `MyBookings.FromIdText` | frontend/src/pages/MyBookings.jsx:52-55 | with no date and a truthy id, the text is the printed clipped time from the id prefix plus " (from ID)" |
| `MyBookings.FromIdReadsSeconds` | frontend/src/pages/MyBookings.jsx:52-55 | with no date and an id prefix parseInt reads as a number, the text is the locale text of that number times 1000 plus " (from ID)", and the number is within ±0xFFFFFFFF |
| `MyBookings.FromIdHexTimestamp` | frontend/src/pages/MyBookings.jsx:52-55 | with no date and an id whose first eight characters are all hex digits, the text is the locale text of their big-endian value times 1000 plus " (from ID)", and the seconds are at most 0xFFFFFFFF |
| `MyBookings.FromIdNotHex` | frontend/src/pages/MyBookings.jsx:52-55 | with no date and an id that reads as NaN, the text is exactly "Invalid Date (from ID)" |
| `MyBookings.FromIdReadsOnlyPrefix` | frontend/src/pages/MyBookings.jsx:53 | ids that share their first eight characters give the same text |
| `MyBookings.FallbackOnlyWithoutDateOrId` | frontend/src/pages/MyBookings.jsx:58 | the clock branch gives the locale text of now plus " (fallback)"; every other branch ignores the clock |
| `MyBookings.BookingStatus` | frontend/src/pages/MyBookings.jsx:127-141 | the status is Booked iff the booked seat's isBooked is set, otherwise Pending |
| `MyBookings.StatusLabel` | frontend/src/pages/MyBookings.jsx:127-141 | the chip reads "Booked" iff the status is Booked, and "Pending" iff it is Pending |

## Left out

- Network calls: fetching seats, initialising seats and fetching bookings
  (SeatBooking.jsx:50-78, MyBookings.jsx:32-43). The service is represented only by the
  per-request outcomes passed to `HandleBooking`. The seat reload is an effect (`FetchSeats`)
  with no result.
- Concurrency: `Promise.all` becomes a sequential join over outcomes listed in the order they
  settle. The two-second `setTimeout` navigation becomes an effect carrying its delay.
- React state plumbing: the `loading` flag, the snackbar and `bookingSuccess` flags, error
  clearing and console logging. `loading` appears only as an input to the button rule.
- Date parsing, locale formatting and the clock are the `DateLib` parameters.
- Rendering: the "Selected: k of n tickets" line, the list of chosen seat numbers, seat
  colours and the "N seats available" text. The selected-seat highlight is the same id test
  as `Contains`.
- Only string or missing values are modelled for `bookedAt`, `createdAt` and `_id`. JavaScript
  strings are UTF-16 code units, while Dafny characters are Unicode scalar values, so
  `substring(0, 8)` differs for ids containing characters outside the Basic Multilingual Plane.
- `JsParseInt.ParseInt16`: `parseInt("-0", 16)` is -0 in JavaScript and 0 here. The value
  only feeds `new Date`, where the two are the same time.
- `JsParseInt.ParseInt16`: returns the exact integer, while JavaScript rounds it to the
  nearest double (step 16 of section 19.2.5 of ECMA-262). From 14 characters on the two can
  differ: "20000000000001" is 2^53 in JavaScript, and fifteen "f"s are 16^15, which breaks the
  bound below 16^(length). The page reads at most 8 characters, where they agree
  (`ShortInputIsExact`).
- `JsParseInt.ParseAllHex`: the big-endian value it states is the JavaScript result only up to
  2^53 (at most 13 digits), for the rounding reason above.
- `JsParseInt.ParseStopsAtNonHex`: the same rounding applies to digit runs above 2^53.
- `JsParseInt.ParseUnsignedDigits`: the exact value it states is the JavaScript result only up
  to 2^53, for the same rounding reason.
- `JsParseInt.ParseNegativeDigits`: the same rounding applies to magnitudes above 2^53.
- `JsParseInt.ParseSignedAfterWhitespace`: the same rounding applies to magnitudes above 2^53.
- `MyBookings.BookingStatus`: a booking's `seat` is always a populated seat record here. When
  it is not populated, `booking.seat.seatNumber` and `booking.seat.isBooked`
  (MyBookings.jsx:120, 127) throw during rendering, and that is not modelled.
- `SeatBooking.LabelText`: states only how the text starts, not the full wording with the
  plural "s".
- `SeatSelection.ClickPreservesValid`: requires a ticket count of at least 1. With a count of
  0, which the menu never offers, a click on a free seat selects one seat.
