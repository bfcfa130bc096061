/**
 * Submitting the selection (`handleBooking`): the exact-count gate, one booking
 * request per selected seat, and the all-or-error join of their outcomes; plus
 * the booking button's enabled state and label.
 */
module SeatBooking {
  import opened Wrappers
  import opened SeatSelection
  import Decimal

  /** The service's answer to one booking request; a rejection may carry the service's message. */
  datatype RequestOutcome = Accepted | Rejected(serverMessage: Option<string>)

  /** What the page does towards the outside world, in order. */
  datatype Effect =
    | PostBooking(seatNumber: int)   // POST /api/bookings for one seat
    | FetchSeats                     // reload the seat list
    | NavigateToMyBookings(delayMs: nat)

  /** How a booking attempt ends, with the text shown (error alert or success notice). */
  datatype BookingResult =
    | Refused(error: string)    // the selection is incomplete; nothing was sent
    | Booked(notice: string)    // every request was accepted
    | Failed(error: string)     // some request was rejected

  datatype BookingRun = BookingRun(effects: seq<Effect>, result: BookingResult)

  const RedirectDelayMs: nat := 2000
  const DefaultFailure: string := "Failed to book seats. Please try again."

  /** `s` when more than one, as the page's messages pluralise. */
  function Plural(k: int): string {
    if k > 1 then "s" else ""
  }

  /** The refusal alert: the exact count wanted, with "seats" for more than one. */
  function RefusalMessage(n: nat): (m: string)
    ensures 26 <= |m| && m[..22] == "Please select exactly "
    ensures m[|m| - 1] == 's' <==> n > 1
    ensures exists d :: Decimal.AllDigits(d) && Decimal.DecimalValue(d) == n && (|d| > 1 ==> d[0] != '0')
                     && m == "Please select exactly " + d + " seat" + Plural(n)
  {
    Decimal.DecimalRoundTrip(n);
    "Please select exactly " + Decimal.NatToString(n) + " seat" + Plural(n)
  }

  /** The success notice: the number of tickets booked, then the redirect announcement. */
  function SuccessNotice(n: nat): (m: string)
    ensures 20 <= |m| && m[..20] == "Successfully booked "
    ensures |RedirectSuffix| <= |m| && m[|m| - |RedirectSuffix|..] == RedirectSuffix
    ensures exists d :: Decimal.AllDigits(d) && Decimal.DecimalValue(d) == n && (|d| > 1 ==> d[0] != '0')
                     && m == "Successfully booked " + d + " ticket" + Plural(n) + RedirectSuffix
  {
    Decimal.DecimalRoundTrip(n);
    "Successfully booked " + Decimal.NatToString(n) + " ticket" + Plural(n) + RedirectSuffix
  }

  const RedirectSuffix: string := "! Redirecting to My Bookings..."

  /** The error text for a rejection: the service's message if it gave a non-empty one. */
  function RejectionMessage(o: RequestOutcome): (m: string)
    requires o.Rejected?
    ensures m != ""
    ensures o.serverMessage.Some? && o.serverMessage.value != "" ==> m == o.serverMessage.value
    ensures o.serverMessage.None? || o.serverMessage.value == "" ==> m == DefaultFailure
  {
    if o.serverMessage.Some? && o.serverMessage.value != "" then o.serverMessage.value else DefaultFailure
  }

  /** The gate of `handleBooking`: a non-empty selection of exactly the chosen count. */
  predicate ReadyToBook(sel: seq<Seat>, n: nat)
    ensures ReadyToBook(sel, n) ==> 1 <= n
    ensures ReadyToBook(sel, n) <==> 0 < n && |sel| == n
  {
    |sel| != 0 && |sel| == n
  }

  /** One booking request per selected seat, in selection order. */
  function BookingRequests(sel: seq<Seat>): (posts: seq<Effect>)
    ensures |posts| == |sel|
    ensures forall i :: 0 <= i < |sel| ==> posts[i] == PostBooking(sel[i].seatNumber)
  {
    if |sel| == 0 then []
    else [PostBooking(sel[0].seatNumber)] + BookingRequests(sel[1..])
  }

  /** Position of the first rejection among outcomes listed in the order they settled. */
  function FirstRejection(outcomes: seq<RequestOutcome>): (r: Option<nat>)
    ensures r.None? <==> forall i :: 0 <= i < |outcomes| ==> outcomes[i].Accepted?
    ensures r.Some? ==> r.value < |outcomes| && outcomes[r.value].Rejected?
    ensures r.Some? ==> forall i :: 0 <= i < r.value ==> outcomes[i].Accepted?
  {
    if |outcomes| == 0 then None
    else if outcomes[0].Rejected? then Some(0)
    else
      match FirstRejection(outcomes[1..])
      case None => None
      case Some(k) => Some(k + 1)
  }

  /**
   * `handleBooking` with `n` tickets chosen, given the service's outcomes for
   * the requests in the order they settle. The requests are all sent before any
   * outcome is known; the join fails on the first rejection to settle.
   */
  function HandleBooking(sel: seq<Seat>, n: nat, outcomes: seq<RequestOutcome>): (run: BookingRun)
    requires ReadyToBook(sel, n) ==> |outcomes| == |sel|
    ensures !ReadyToBook(sel, n) ==> run == BookingRun([], Refused(RefusalMessage(n)))
    ensures ReadyToBook(sel, n) ==> |sel| <= |run.effects| && run.effects[..|sel|] == BookingRequests(sel)
    ensures ReadyToBook(sel, n) ==> !run.result.Refused?
    ensures run.result.Booked? <==> ReadyToBook(sel, n) && forall i :: 0 <= i < |outcomes| ==> outcomes[i].Accepted?
    ensures run.result.Booked? ==> run.result.notice == SuccessNotice(n)
    ensures run.result.Failed? <==> ReadyToBook(sel, n) && exists i :: 0 <= i < |outcomes| && outcomes[i].Rejected?
    ensures run.result.Failed? ==>
      exists i :: 0 <= i < |outcomes| && outcomes[i].Rejected? && run.result.error == RejectionMessage(outcomes[i])
               && forall j :: 0 <= j < i ==> outcomes[j].Accepted?
  {
    if !ReadyToBook(sel, n) then BookingRun([], Refused(RefusalMessage(n)))
    else
      var posts := BookingRequests(sel);
      match FirstRejection(outcomes)
      case None =>
        assert (posts + [FetchSeats, NavigateToMyBookings(RedirectDelayMs)])[..|sel|] == posts;
        BookingRun(posts + [FetchSeats, NavigateToMyBookings(RedirectDelayMs)], Booked(SuccessNotice(n)))
      case Some(k) =>
        assert posts[..|sel|] == posts;
        BookingRun(posts, Failed(RejectionMessage(outcomes[k])))
  }

  /**
   * A complete selection with any rejected request ends in the error branch,
   * and there nothing is undone and nothing is reloaded: the only effects are
   * the original requests, so seats already accepted stay booked.
   */
  lemma FailureNeitherRefreshesNorRollsBack(sel: seq<Seat>, n: nat, outcomes: seq<RequestOutcome>)
    requires |outcomes| == |sel| && ReadyToBook(sel, n)
    requires exists i :: 0 <= i < |outcomes| && outcomes[i].Rejected?
    ensures HandleBooking(sel, n, outcomes).result.Failed?
    ensures |HandleBooking(sel, n, outcomes).effects| == |sel|
    ensures forall i :: 0 <= i < |sel| ==>
      HandleBooking(sel, n, outcomes).effects[i] == PostBooking(sel[i].seatNumber)
    ensures FetchSeats !in HandleBooking(sel, n, outcomes).effects
  {
  }

  /** On success the seats are reloaded and the page moves to the booking history after two seconds. */
  lemma SuccessRefreshesThenNavigates(sel: seq<Seat>, n: nat, outcomes: seq<RequestOutcome>)
    requires |outcomes| == |sel|
    requires HandleBooking(sel, n, outcomes).result.Booked?
    ensures HandleBooking(sel, n, outcomes).effects
         == BookingRequests(sel) + [FetchSeats, NavigateToMyBookings(2000)]
    ensures |HandleBooking(sel, n, outcomes).effects| == n + 2
  {
  }

  /** Every seat gets exactly one request, whatever the outcomes; no request is retried. */
  lemma OneRequestPerSeat(sel: seq<Seat>, n: nat, outcomes: seq<RequestOutcome>, i: nat)
    requires |outcomes| == |sel| && ReadyToBook(sel, n) && i < |sel|
    requires DistinctSeatNumbers(sel)
    ensures multiset(HandleBooking(sel, n, outcomes).effects)[PostBooking(sel[i].seatNumber)] == 1
  {
    var run := HandleBooking(sel, n, outcomes);
    var posts := BookingRequests(sel);
    var e := PostBooking(sel[i].seatNumber);
    CountInRequests(sel, i);
    if run.result.Booked? {
      assert run.effects == posts + [FetchSeats, NavigateToMyBookings(RedirectDelayMs)];
      assert multiset(run.effects) == multiset(posts) + multiset([FetchSeats, NavigateToMyBookings(RedirectDelayMs)]);
    }
  }

  predicate DistinctSeatNumbers(sel: seq<Seat>) {
    forall a, b :: 0 <= a < b < |sel| ==> sel[a].seatNumber != sel[b].seatNumber
  }

  lemma {:induction false} CountInRequests(sel: seq<Seat>, i: nat)
    requires i < |sel| && DistinctSeatNumbers(sel)
    ensures multiset(BookingRequests(sel))[PostBooking(sel[i].seatNumber)] == 1
    decreases |sel|
  {
    var e := PostBooking(sel[i].seatNumber);
    var tail := sel[1..];
    assert DistinctSeatNumbers(tail) by {
      forall a, b | 0 <= a < b < |tail| ensures tail[a].seatNumber != tail[b].seatNumber {
        assert tail[a] == sel[a + 1] && tail[b] == sel[b + 1];
      }
    }
    assert BookingRequests(sel) == [PostBooking(sel[0].seatNumber)] + BookingRequests(tail);
    assert multiset(BookingRequests(sel))
        == multiset([PostBooking(sel[0].seatNumber)]) + multiset(BookingRequests(tail));
    if i == 0 {
      assert e !in BookingRequests(tail) by {
        forall k | 0 <= k < |tail| ensures BookingRequests(tail)[k] != e {
          assert tail[k] == sel[k + 1];
        }
      }
    } else {
      assert tail[i - 1] == sel[i];
      CountInRequests(tail, i - 1);
      assert sel[0].seatNumber != sel[i].seatNumber;
    }
  }

  /** The booking button is enabled when not loading and the selection has the chosen count. */
  predicate BookButtonEnabled(loading: bool, sel: seq<Seat>, n: nat)
    ensures BookButtonEnabled(loading, sel, n) ==> !loading
  {
    !loading && |sel| == n
  }

  /** With at least one ticket, an enabled button always passes the booking gate. */
  lemma EnabledButtonPassesGate(loading: bool, sel: seq<Seat>, n: nat)
    requires 1 <= n
    ensures BookButtonEnabled(loading, sel, n) ==> ReadyToBook(sel, n)
    ensures ReadyToBook(sel, n) && !loading ==> BookButtonEnabled(loading, sel, n)
  {
  }

  /** What the booking button says. */
  datatype ButtonLabel = BookTickets(count: nat) | SelectMore(remaining: int)

  function Label(sel: seq<Seat>, n: nat): (l: ButtonLabel)
    ensures l.BookTickets? <==> |sel| == n
    ensures l.BookTickets? ==> l.count == |sel|
    ensures l.SelectMore? ==> l.remaining + |sel| == n
  {
    if |sel| == n then BookTickets(n) else SelectMore(n - |sel|)
  }

  /** Under the selection invariant the button never asks for zero or fewer seats. */
  lemma LabelAsksForMissingSeats(sel: seq<Seat>, n: nat)
    requires Valid(sel, n)
    ensures Label(sel, n).SelectMore? ==> 1 <= Label(sel, n).remaining <= n
    ensures Label(sel, n).SelectMore? <==> |sel| < n
  {
  }

  /** A JavaScript integer in a template literal: a minus sign for negatives, then the digits. */
  function IntToString(k: int): (t: string)
    ensures 0 < |t| && (t[0] == '-' <==> k < 0)
    ensures k >= 0 ==> Decimal.AllDigits(t) && Decimal.DecimalValue(t) == k && (|t| > 1 ==> t[0] != '0')
    ensures k < 0 ==> Decimal.AllDigits(t[1..]) && Decimal.DecimalValue(t[1..]) == -k && (|t| > 2 ==> t[1] != '0')
  {
    if k < 0 then
      Decimal.DecimalRoundTrip(-k);
      var digits := Decimal.NatToString(-k);
      assert ("-" + digits)[1..] == digits;
      "-" + digits
    else
      Decimal.DecimalRoundTrip(k);
      Decimal.NatToString(k)
  }

  function LabelText(l: ButtonLabel): (t: string)
    ensures l.BookTickets? ==> 5 <= |t| && t[..5] == "Book "
    ensures l.SelectMore? ==> 7 <= |t| && t[..7] == "Select "
  {
    match l
    case BookTickets(k) => "Book " + Decimal.NatToString(k) + " Ticket" + Plural(k)
    case SelectMore(k) => "Select " + IntToString(k) + " More Seat" + Plural(k)
  }

  /**
   * Three seats where the last request loses a race: the page reports the
   * service's message as an error, and the two accepted seats stay booked.
   */
  lemma LostRaceIsReportedAsError()
    ensures var sel := [Seat("a", 1, false), Seat("b", 2, false), Seat("c", 3, false)];
            var outcomes := [Accepted, Accepted, Rejected(Some("Seat already booked"))];
            HandleBooking(sel, 3, outcomes)
              == BookingRun([PostBooking(1), PostBooking(2), PostBooking(3)], Failed("Seat already booked"))
  {
    var sel := [Seat("a", 1, false), Seat("b", 2, false), Seat("c", 3, false)];
    var outcomes := [Accepted, Accepted, Rejected(Some("Seat already booked"))];
    assert FirstRejection(outcomes[2..]) == Some(0);
    assert FirstRejection(outcomes[1..]) == Some(1) by { assert outcomes[1..][1..] == outcomes[2..]; }
    assert FirstRejection(outcomes) == Some(2);
    var posts := BookingRequests(sel);
    assert posts == [PostBooking(1), PostBooking(2), PostBooking(3)];
  }

  /** An incomplete selection is refused with the count spelled out, and nothing is sent. */
  lemma IncompleteSelectionExample()
    ensures HandleBooking([Seat("a", 1, false)], 2, [Accepted])
         == BookingRun([], Refused("Please select exactly 2 seats"))
  {
    assert !ReadyToBook([Seat("a", 1, false)], 2);
    RefusalForTwo();
  }

  lemma RefusalForTwo()
    ensures RefusalMessage(2) == "Please select exactly 2 seats"
  {
    assert Decimal.NatToString(2) == "2";
  }
}
