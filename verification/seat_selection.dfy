/**
 * The seat-selection state machine of the booking page: the ordered list of
 * selected seats under the cap set by the chosen number of tickets, the
 * ticket-count choices offered, and the reset when the count changes.
 */
module SeatSelection {
  import opened Wrappers
  import opened Numbers

  /** A seat as listed by the seat service; `id` is its identity. */
  datatype Seat = Seat(id: string, seatNumber: int, isBooked: bool)

  /** The ticket-count menu never offers more than this many tickets. */
  const MaxTicketsPerBooking: nat := 5

  /** Some selected seat has identity `id` (the `some(s => s._id === id)` test). */
  predicate Contains(sel: seq<Seat>, id: string) {
    exists i :: 0 <= i < |sel| && sel[i].id == id
  }

  predicate DistinctIds(sel: seq<Seat>) {
    forall i, j :: 0 <= i < j < |sel| ==> sel[i].id != sel[j].id
  }

  predicate AllFree(seats: seq<Seat>) {
    forall i :: 0 <= i < |seats| ==> !seats[i].isBooked
  }

  /** The selection invariant: at most `n` seats, no seat twice, none of them booked. */
  predicate Valid(sel: seq<Seat>, n: nat) {
    |sel| <= n && DistinctIds(sel) && AllFree(sel)
  }

  lemma ContainsCons(sel: seq<Seat>, id: string)
    requires 0 < |sel|
    ensures Contains(sel, id) <==> sel[0].id == id || Contains(sel[1..], id)
  {
    if Contains(sel, id) && sel[0].id != id {
      var i :| 0 <= i < |sel| && sel[i].id == id;
      assert sel[1..][i - 1].id == id;
    }
    if Contains(sel[1..], id) {
      var i :| 0 <= i < |sel[1..]| && sel[1..][i].id == id;
      assert sel[i + 1].id == id;
    }
  }

  lemma ContainsOfCons(x: Seat, rest: seq<Seat>, id: string)
    ensures Contains([x] + rest, id) <==> x.id == id || Contains(rest, id)
  {
    ContainsCons([x] + rest, id);
    assert ([x] + rest)[1..] == rest;
  }

  /** Every seat whose identity differs from `id`, in the original order. */
  function RemoveId(sel: seq<Seat>, id: string): (r: seq<Seat>)
    ensures forall x :: x in r <==> x in sel && x.id != id
    ensures !Contains(r, id)
    ensures Contains(sel, id) ==> |r| < |sel|
    ensures !Contains(sel, id) ==> r == sel
  {
    if |sel| == 0 then []
    else
      var rest := RemoveId(sel[1..], id);
      ContainsCons(sel, id);
      assert sel == [sel[0]] + sel[1..];
      if sel[0].id == id then rest
      else
        ContainsOfCons(sel[0], rest, id);
        [sel[0]] + rest
  }

  /**
   * One click on `seat` while `n` tickets are chosen: a booked seat is ignored,
   * a selected seat is deselected, a new seat is appended while below the cap,
   * and at the cap the oldest selected seat makes room for it.
   */
  function Click(sel: seq<Seat>, seat: Seat, n: nat): (r: seq<Seat>)
    ensures forall x :: x in r ==> x in sel || (x == seat && !seat.isBooked)
    ensures !seat.isBooked ==> (Contains(r, seat.id) <==> !Contains(sel, seat.id))
    ensures |r| <= |sel| + 1
  {
    if seat.isBooked then sel
    else if Contains(sel, seat.id) then RemoveId(sel, seat.id)
    else if |sel| < n then
      assert (sel + [seat])[|sel|].id == seat.id;
      sel + [seat]
    else
      var kept := if |sel| == 0 then [] else sel[1..];
      assert (kept + [seat])[|kept|].id == seat.id;
      kept + [seat]
  }

  lemma DistinctIdsOfSlice(sel: seq<Seat>, lo: nat, hi: nat)
    requires lo <= hi <= |sel|
    ensures DistinctIds(sel) ==> DistinctIds(sel[lo..hi])
    ensures AllFree(sel) ==> AllFree(sel[lo..hi])
  {
    var t := sel[lo..hi];
    forall a | 0 <= a < |t| ensures t[a] == sel[lo + a] { }
  }

  lemma HeadIdNotInTail(sel: seq<Seat>)
    requires 0 < |sel| && DistinctIds(sel)
    ensures !Contains(sel[1..], sel[0].id)
  {
    var tail := sel[1..];
    forall k | 0 <= k < |tail| ensures tail[k].id != sel[0].id {
      assert tail[k] == sel[k + 1];
    }
  }

  lemma ConsOfDeletion(sel: seq<Seat>, i: nat)
    requires 0 < i < |sel|
    ensures [sel[0]] + (sel[1..][..i - 1] + sel[1..][i..]) == sel[..i] + sel[i + 1..]
  {
    assert sel[1..][..i - 1] == sel[1..i];
    assert sel[1..][i..] == sel[i + 1..];
    assert [sel[0]] + sel[1..i] == sel[..i];
  }

  /** With distinct identities, removing a seat by identity deletes exactly its position. */
  lemma {:induction false} RemoveIdAt(sel: seq<Seat>, i: nat)
    requires DistinctIds(sel) && i < |sel|
    ensures RemoveId(sel, sel[i].id) == sel[..i] + sel[i + 1..]
    decreases |sel|
  {
    var id := sel[i].id;
    var tail := sel[1..];
    if i == 0 {
      HeadIdNotInTail(sel);
      assert RemoveId(sel, id) == RemoveId(tail, id);
    } else {
      DistinctIdsOfSlice(sel, 1, |sel|);
      assert tail[i - 1] == sel[i];
      RemoveIdAt(tail, i - 1);
      assert sel[0].id != id;
      assert RemoveId(sel, id) == [sel[0]] + RemoveId(tail, id);
      ConsOfDeletion(sel, i);
    }
  }

  lemma DistinctIdsOfDeletion(sel: seq<Seat>, i: nat)
    requires DistinctIds(sel) && i < |sel|
    ensures DistinctIds(sel[..i] + sel[i + 1..])
    ensures AllFree(sel) ==> AllFree(sel[..i] + sel[i + 1..])
  {
    var r := sel[..i] + sel[i + 1..];
    forall a | 0 <= a < |r| ensures r[a] == sel[if a < i then a else a + 1] { }
  }

  /** Deselecting keeps every other seat, in its original relative order. */
  lemma ClickSelectedRemovesInPlace(sel: seq<Seat>, seat: Seat, n: nat, i: nat)
    requires DistinctIds(sel) && i < |sel| && sel[i].id == seat.id
    requires !seat.isBooked
    ensures Click(sel, seat, n) == sel[..i] + sel[i + 1..]
    ensures |Click(sel, seat, n)| == |sel| - 1
  {
    assert Contains(sel, seat.id);
    RemoveIdAt(sel, i);
  }

  /** A booked seat cannot be picked: the selection stays as it was. */
  lemma ClickBookedIsNoOp(sel: seq<Seat>, seat: Seat, n: nat)
    requires seat.isBooked
    ensures Click(sel, seat, n) == sel
  {
  }

  /** Below the cap, a new free seat goes to the end and the selection grows by one. */
  lemma ClickAppendsBelowCap(sel: seq<Seat>, seat: Seat, n: nat)
    requires !seat.isBooked && !Contains(sel, seat.id) && |sel| < n
    ensures Click(sel, seat, n) == sel + [seat]
    ensures |Click(sel, seat, n)| == |sel| + 1
  {
  }

  /** At the cap, the oldest seat is dropped and the new one appended; the size is unchanged. */
  lemma ClickEvictsOldestAtCap(sel: seq<Seat>, seat: Seat, n: nat)
    requires !seat.isBooked && !Contains(sel, seat.id) && 0 < |sel| && n <= |sel|
    ensures Click(sel, seat, n) == sel[1..] + [seat]
    ensures |Click(sel, seat, n)| == |sel|
  {
  }

  /** Every click keeps the selection invariant, for any positive ticket count. */
  lemma ClickPreservesValid(sel: seq<Seat>, seat: Seat, n: nat)
    requires 1 <= n && Valid(sel, n)
    ensures Valid(Click(sel, seat, n), n)
  {
    var r := Click(sel, seat, n);
    if seat.isBooked {
    } else if Contains(sel, seat.id) {
      var i :| 0 <= i < |sel| && sel[i].id == seat.id;
      RemoveIdAt(sel, i);
      DistinctIdsOfDeletion(sel, i);
    } else {
      var kept := if |sel| < n then sel else sel[1..];
      assert r == kept + [seat];
      forall a, b | 0 <= a < b < |r| ensures r[a].id != r[b].id {
        if b == |kept| {
          assert r[a] == kept[a] && kept[a] in sel;
          var k :| 0 <= k < |sel| && sel[k] == r[a];
        } else {
          assert r[a] == kept[a] && r[b] == kept[b];
          if |sel| >= n { assert r[a] == sel[a + 1] && r[b] == sel[b + 1]; }
        }
      }
      forall a | 0 <= a < |r| ensures !r[a].isBooked {
        if a < |kept| { assert r[a] in sel; var k :| 0 <= k < |sel| && sel[k] == r[a]; }
      }
    }
  }

  /** Picking a new free seat and clicking it again undoes the pick, while below the cap. */
  lemma ToggleTwiceBelowCap(sel: seq<Seat>, seat: Seat, n: nat)
    requires DistinctIds(sel) && !seat.isBooked && !Contains(sel, seat.id) && |sel| < n
    ensures Click(Click(sel, seat, n), seat, n) == sel
  {
    var once := sel + [seat];
    assert Click(sel, seat, n) == once;
    assert DistinctIds(once) by {
      forall a, b | 0 <= a < b < |once| ensures once[a].id != once[b].id {
        if b == |sel| { assert once[a] == sel[a]; }
      }
    }
    assert once[|sel|] == seat;
    ClickSelectedRemovesInPlace(once, seat, n, |sel|);
    assert once[..|sel|] + once[|sel| + 1..] == sel;
  }

  /** At the cap the double toggle does not restore: the evicted oldest seat is gone. */
  lemma ToggleTwiceAtCapLosesOldest(sel: seq<Seat>, seat: Seat, n: nat)
    requires 1 <= n && Valid(sel, n) && |sel| == n
    requires !seat.isBooked && !Contains(sel, seat.id)
    ensures Click(Click(sel, seat, n), seat, n) == sel[1..]
    ensures Click(Click(sel, seat, n), seat, n) != sel
  {
    var once := sel[1..] + [seat];
    assert Click(sel, seat, n) == once;
    ClickPreservesValid(sel, seat, n);
    assert once[|sel| - 1] == seat;
    ClickSelectedRemovesInPlace(once, seat, n, |sel| - 1);
    assert once[..|sel| - 1] + once[|sel|..] == sel[1..];
  }

  /** The clicks `clicks`, in order, starting from the selection `sel`. */
  function ClickAll(sel: seq<Seat>, clicks: seq<Seat>, n: nat): seq<Seat>
    decreases |clicks|
  {
    if |clicks| == 0 then sel
    else Click(ClickAll(sel, clicks[..|clicks| - 1], n), clicks[|clicks| - 1], n)
  }

  lemma {:induction false} ClickAllPreservesValid(sel: seq<Seat>, clicks: seq<Seat>, n: nat)
    requires 1 <= n && Valid(sel, n)
    ensures Valid(ClickAll(sel, clicks, n), n)
    decreases |clicks|
  {
    if |clicks| > 0 {
      ClickAllPreservesValid(sel, clicks[..|clicks| - 1], n);
      ClickPreservesValid(ClickAll(sel, clicks[..|clicks| - 1], n), clicks[|clicks| - 1], n);
    }
  }

  /** The newest `n` of `clicks`, oldest first. */
  function Newest(clicks: seq<Seat>, n: nat): (r: seq<Seat>)
    ensures |r| == Min(|clicks|, n)
  {
    clicks[if |clicks| <= n then 0 else |clicks| - n..]
  }

  lemma NewestOmitsLaterSeat(clicks: seq<Seat>, n: nat)
    requires 0 < |clicks| && DistinctIds(clicks)
    ensures !Contains(Newest(clicks[..|clicks| - 1], n), clicks[|clicks| - 1].id)
  {
    var m := |clicks| - 1;
    var start := if m <= n then 0 else m - n;
    var before := Newest(clicks[..m], n);
    assert before == clicks[start..m];
    forall k | 0 <= k < |before| ensures before[k].id != clicks[m].id {
      assert before[k] == clicks[start + k];
    }
  }

  /** One more free click, on a seat not among the newest, moves the window of the newest `n` by one. */
  lemma ClickExtendsNewest(clicks: seq<Seat>, n: nat)
    requires 1 <= n && 0 < |clicks| && !clicks[|clicks| - 1].isBooked
    requires !Contains(Newest(clicks[..|clicks| - 1], n), clicks[|clicks| - 1].id)
    ensures Click(Newest(clicks[..|clicks| - 1], n), clicks[|clicks| - 1], n) == Newest(clicks, n)
  {
    var m := |clicks| - 1;
    var seat := clicks[m];
    var start := if m <= n then 0 else m - n;
    var before := Newest(clicks[..m], n);
    assert before == clicks[start..m];
    if m < n {
      ClickAppendsBelowCap(before, seat, n);
      assert before + [seat] == clicks;
    } else {
      ClickEvictsOldestAtCap(before, seat, n);
      assert before[1..] + [seat] == clicks[|clicks| - n..];
    }
  }

  /**
   * First-in-first-out: clicking distinct free seats one after another, from an
   * empty selection, leaves exactly the `n` most recently clicked, oldest first.
   */
  lemma {:induction false} ClickAllKeepsNewest(clicks: seq<Seat>, n: nat)
    requires 1 <= n && DistinctIds(clicks) && AllFree(clicks)
    ensures ClickAll([], clicks, n) == Newest(clicks, n)
    decreases |clicks|
  {
    if |clicks| > 0 {
      var m := |clicks| - 1;
      DistinctIdsOfSlice(clicks, 0, m);
      assert clicks[0..m] == clicks[..m];
      ClickAllKeepsNewest(clicks[..m], n);
      NewestOmitsLaterSeat(clicks, n);
      ClickExtendsNewest(clicks, n);
    }
  }

  /** Selecting seats 1, 2 and 3 with two tickets leaves seats 2 and 3. */
  lemma FifoEvictionExample()
    ensures var s1 := Seat("a", 1, false);
            var s2 := Seat("b", 2, false);
            var s3 := Seat("c", 3, false);
            ClickAll([], [s1, s2, s3], 2) == [s2, s3]
  {
    var s1 := Seat("a", 1, false);
    var s2 := Seat("b", 2, false);
    var s3 := Seat("c", 3, false);
    var clicks := [s1, s2, s3];
    assert DistinctIds(clicks) && AllFree(clicks);
    ClickAllKeepsNewest(clicks, 2);
    assert clicks[1..] == [s2, s3];
  }

  /** The number of seats not booked (the page's `availableSeats`). */
  function CountFree(seats: seq<Seat>): (k: nat)
    ensures k <= |seats|
    ensures k == |seats| <==> AllFree(seats)
    ensures k == 0 <==> forall i :: 0 <= i < |seats| ==> seats[i].isBooked
  {
    if |seats| == 0 then 0
    else
      var rest := CountFree(seats[1..]);
      assert AllFree(seats) <==> !seats[0].isBooked && AllFree(seats[1..]) by {
        assert forall i :: 1 <= i < |seats| ==> seats[i] == seats[1..][i - 1];
      }
      assert (forall i :: 0 <= i < |seats| ==> seats[i].isBooked)
         <==> seats[0].isBooked && (forall i :: 0 <= i < |seats[1..]| ==> seats[1..][i].isBooked) by {
        assert forall i :: 1 <= i < |seats| ==> seats[i] == seats[1..][i - 1];
      }
      (if seats[0].isBooked then 0 else 1) + rest
  }

  /** The positions of the seats not booked. */
  function FreeIndices(seats: seq<Seat>): set<nat> {
    set i: nat | i < |seats| && !seats[i].isBooked
  }

  /** Counting a concatenation adds the counts of its parts. */
  lemma {:induction false} CountFreeAppend(a: seq<Seat>, b: seq<Seat>)
    ensures CountFree(a + b) == CountFree(a) + CountFree(b)
    decreases |a|
  {
    if |a| == 0 {
      assert a + b == b;
    } else {
      assert (a + b)[1..] == a[1..] + b;
      CountFreeAppend(a[1..], b);
    }
  }

  /** `CountFree` is the number of positions holding a free seat. */
  lemma {:induction false} CountFreeIsFreeIndices(seats: seq<Seat>)
    ensures CountFree(seats) == |FreeIndices(seats)|
    decreases |seats|
  {
    if |seats| > 0 {
      var init := seats[..|seats| - 1];
      var last := seats[|seats| - 1];
      assert seats == init + [last];
      CountFreeIsFreeIndices(init);
      CountFreeAppend(init, [last]);
      assert [last][1..] == [];
      var extra: set<nat> := if last.isBooked then {} else {|seats| - 1};
      assert FreeIndices(seats) == FreeIndices(init) + extra by {
        forall i: nat | i < |init| ensures seats[i] == init[i] { }
      }
      assert |seats| - 1 !in FreeIndices(init);
    }
  }

  /** The ticket counts the menu offers: 1 up to the free-seat count, at most five. */
  function TicketOptions(seats: seq<Seat>): (opts: seq<nat>)
    ensures |opts| == Min(CountFree(seats), MaxTicketsPerBooking)
    ensures forall i :: 0 <= i < |opts| ==> opts[i] == i + 1
    ensures forall k :: k in opts <==> 1 <= k <= Min(CountFree(seats), MaxTicketsPerBooking)
    ensures opts == [] <==> forall i :: 0 <= i < |seats| ==> seats[i].isBooked
  {
    var m := Min(CountFree(seats), MaxTicketsPerBooking);
    var opts := seq(m, (i: nat) => i + 1);
    forall k | 1 <= k <= m ensures k in opts { assert opts[k - 1] == k; }
    opts
  }

  /** What the booking page holds: the seat list, the selection, the chosen ticket count. */
  datatype Screen = Screen(seats: seq<Seat>, selected: seq<Seat>, tickets: nat)

  /** The page as it starts: nothing selected, one ticket. */
  function InitialScreen(seats: seq<Seat>): (s: Screen)
    ensures s.seats == seats && s.selected == [] && s.tickets == 1
    ensures ScreenValid(s)
  {
    Screen(seats, [], 1)
  }

  predicate ScreenValid(s: Screen) {
    1 <= s.tickets && Valid(s.selected, s.tickets)
  }

  /**
   * Choosing a ticket count from the menu. The selection is cleared whenever
   * the count actually changes; re-choosing the current count changes nothing.
   */
  function ChooseTickets(s: Screen, n: nat): (r: Screen)
    requires n in TicketOptions(s.seats)
    ensures r.tickets == n && r.seats == s.seats
    ensures n != s.tickets ==> r.selected == []
    ensures n == s.tickets ==> r == s
    ensures 1 <= n <= MaxTicketsPerBooking && n <= CountFree(s.seats)
    ensures ScreenValid(s) || n != s.tickets ==> ScreenValid(r)
  {
    if n == s.tickets then s else s.(selected := [], tickets := n)
  }

  /** A click on a seat of the page. */
  function ClickSeat(s: Screen, seat: Seat): (r: Screen)
    ensures r.seats == s.seats && r.tickets == s.tickets
    ensures r.selected == Click(s.selected, seat, s.tickets)
    ensures ScreenValid(s) ==> ScreenValid(r)
  {
    var r := s.(selected := Click(s.selected, seat, s.tickets));
    if ScreenValid(s) then ClickPreservesValid(s.selected, seat, s.tickets); r else r
  }
}
