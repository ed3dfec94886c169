/** The seat-selection page of a screening (frontend/src/pages/SeatBookingPage.tsx): the
    click handler that toggles seats under the one-seat-gap rule and the eight-seat cap,
    the total price, the booking request sent on submit, and the in-place sort of the
    selection that the summary panel performs. */
module SeatBooking {
  import opened Wrappers
  import Seqs
  import Sorting
  import Text

  /** A seat of the screening's seat map, as the screening-seats endpoint returns it. */
  datatype Seat = Seat(id: int, row: string, number: int, isBooked: bool)

  /** What a click did; the two rejections are the alerts the page shows. */
  datatype ClickOutcome = IgnoredBooked | Removed | RejectedGap | RejectedLimit | Added

  /** The booking request `handleBookingSubmit` sends, or why it sends none. */
  datatype SubmitOutcome =
    | RedirectToLogin
    | NoSeatsAlert
    | Request(screeningId: int, seatIds: seq<int>)

  const MaxSeats: nat := 8

  function SeatId(s: Seat): int {
    s.id
  }

  function Ids(sel: seq<Seat>): (r: seq<int>)
    ensures |r| == |sel| && forall i :: 0 <= i < |sel| ==> r[i] == sel[i].id
  {
    Seqs.Map(sel, SeatId)
  }

  /** `selectedSeats.some(s => s.id === id)`. */
  predicate IsSelected(sel: seq<Seat>, id: int) {
    id in Ids(sel)
  }

  predicate DistinctIds(sel: seq<Seat>) {
    forall i, j :: 0 <= i < j < |sel| ==> sel[i].id != sel[j].id
  }

  /** The pair at positions `i`, `i + 1` trips the gap test: `nextId && nextId - id === 2`,
      where a next id of 0 is falsy and so never counts. */
  predicate GapAt(ids: seq<int>, i: nat)
    requires i + 1 < |ids|
  {
    ids[i + 1] != 0 && ids[i + 1] - ids[i] == 2
  }

  /** `ids.some((id, index) => ...)` over neighbouring pairs. */
  function HasGap(ids: seq<int>): (b: bool)
    ensures b <==> exists i: nat :: i + 1 < |ids| && GapAt(ids, i)
  {
    if |ids| < 2 then false
    else if GapAt(ids, 0) then true
    else
      var rest := HasGap(ids[1..]);
      assert forall i: nat :: i + 2 < |ids| ==> (GapAt(ids[1..], i) <==> GapAt(ids, i + 1));
      assert forall i: nat :: i + 1 < |ids| && GapAt(ids, i) ==> i > 0 && GapAt(ids[1..], i - 1);
      rest
  }

  /** The ids of `sel` plus `id`, sorted ascending, as `handleSeatClick` builds them. */
  function SortedIdsWith(sel: seq<Seat>, id: int): seq<int> {
    Sorting.Sort(Ids(sel) + [id], Sorting.IntLe)
  }

  /** The sorted ids of a selection. */
  function SortedIds(sel: seq<Seat>): seq<int> {
    Sorting.Sort(Ids(sel), Sorting.IntLe)
  }

  /** Removing a selected seat from a selection with distinct ids drops exactly that
      one entry, keeps the others in order, and keeps the ids distinct. */
  lemma RemoveSelected(sel: seq<Seat>, k: nat)
    requires DistinctIds(sel) && k < |sel|
    ensures Seqs.Filter(sel, NotId(sel[k].id)) == sel[..k] + sel[k + 1..]
    ensures DistinctIds(sel[..k] + sel[k + 1..])
  {
    assert forall j :: 0 <= j < |sel| && j != k ==> sel[j].id != sel[k].id;
    FilterNotIdAt(sel, k);
    DistinctIdsRemoveAt(sel, k);
  }

  /** Filtering out the id of the only seat that has it removes that seat. */
  lemma FilterNotIdAt(sel: seq<Seat>, k: nat)
    requires k < |sel| && forall j :: 0 <= j < |sel| && j != k ==> sel[j].id != sel[k].id
    ensures Seqs.Filter(sel, NotId(sel[k].id)) == sel[..k] + sel[k + 1..]
  {
    var before, after := sel[..k], sel[k + 1..];
    NoOtherSeatWithId(sel, k, sel[k].id);
    assert sel == before + [sel[k]] + after;
    Seqs.FilterDropsOne(before, sel[k], after, NotId(sel[k].id));
  }

  /** An id held by no seat but the one at `k` is absent before and after it. */
  lemma NoOtherSeatWithId(sel: seq<Seat>, k: nat, id: int)
    requires k < |sel| && forall j :: 0 <= j < |sel| && j != k ==> sel[j].id != id
    ensures forall x :: x in sel[..k] ==> NotId(id)(x)
    ensures forall x :: x in sel[k + 1..] ==> NotId(id)(x)
  {
    forall x | x in sel[..k] ensures NotId(id)(x) {
      var i :| 0 <= i < k && sel[..k][i] == x;
      assert sel[i] == x;
    }
    forall x | x in sel[k + 1..] ensures NotId(id)(x) {
      var i :| 0 <= i < |sel| - k - 1 && sel[k + 1..][i] == x;
      assert sel[k + 1 + i] == x;
    }
  }

  lemma DistinctIdsRemoveAt(sel: seq<Seat>, k: nat)
    requires DistinctIds(sel) && k < |sel|
    ensures DistinctIds(sel[..k] + sel[k + 1..])
  {
    var r := sel[..k] + sel[k + 1..];
    forall i, j | 0 <= i < j < |r| ensures r[i].id != r[j].id {
      var i' := if i < k then i else i + 1;
      var j' := if j < k then j else j + 1;
      assert r[i] == sel[i'] && r[j] == sel[j'];
    }
  }

  /** `s => s.id !== id`. */
  function NotId(id: int): Seat -> bool {
    (s: Seat) => s.id != id
  }

  /** Sum of one screening price per seat: the reference the total is checked against. */
  function ChargeEach(seats: seq<Seat>, price: int): int {
    if seats == [] then 0 else price + ChargeEach(seats[1..], price)
  }

  /** `calculateTotalPrice`: 0 while no screening data is loaded. */
  function TotalPrice(seats: seq<Seat>, price: Option<int>): int {
    if price.None? then 0 else |seats| * price.value
  }

  /** The total is one screening price per selected seat, and never exceeds eight
      prices for a selection the page can reach. */
  lemma {:induction false} TotalPriceChargesEachSeat(seats: seq<Seat>, price: int)
    ensures TotalPrice(seats, Some(price)) == ChargeEach(seats, price)
    ensures TotalPrice(seats, None) == 0
    ensures 0 <= price && |seats| <= MaxSeats ==> 0 <= TotalPrice(seats, Some(price)) <= MaxSeats * price
  {
    if seats != [] {
      TotalPriceChargesEachSeat(seats[1..], price);
    }
  }

  /** The summary order: `a.row.localeCompare(b.row) || a.number - b.number`, with row
      labels compared by code unit. */
  predicate RowThenNumber(a: Seat, b: Seat) {
    Text.StrLt(a.row, b.row) || (a.row == b.row && a.number <= b.number)
  }

  lemma RowThenNumberTotalPreorder()
    ensures Sorting.TotalPreorder(RowThenNumber)
  {
    forall a: Seat, b: Seat ensures RowThenNumber(a, b) || RowThenNumber(b, a) {
      Text.StrLtTrichotomy(a.row, b.row);
    }
    forall a: Seat, b: Seat, c: Seat | RowThenNumber(a, b) && RowThenNumber(b, c)
      ensures RowThenNumber(a, c)
    {
      if Text.StrLt(a.row, b.row) && Text.StrLt(b.row, c.row) {
        Text.StrLtTransitive(a.row, b.row, c.row);
      }
    }
  }

  /** The summary lists the same seats, ordered by row and then by seat number. */
  lemma SummaryOrder(sel: seq<Seat>)
    ensures multiset(Sorting.Sort(sel, RowThenNumber)) == multiset(sel)
    ensures forall i, j :: 0 <= i < j < |sel| ==>
              var s := Sorting.Sort(sel, RowThenNumber);
              Text.StrLt(s[i].row, s[j].row) || (s[i].row == s[j].row && s[i].number <= s[j].number)
  {
    RowThenNumberTotalPreorder();
    Sorting.SortSorted(sel, RowThenNumber);
  }

  lemma {:induction false} DistinctCountAtMostOne(s: seq<Seat>, v: Seat)
    requires DistinctIds(s)
    ensures multiset(s)[v] <= 1
  {
    if s != [] {
      assert s == [s[0]] + s[1..];
      DistinctCountAtMostOne(s[1..], v);
      if s[0] == v {
        assert v !in s[1..] by {
          forall k | 0 <= k < |s[1..]| ensures s[1..][k] != v {
            assert s[k + 1].id != s[0].id;
          }
        }
      }
    }
  }

  /** Reordering a selection keeps its ids distinct. */
  lemma DistinctIdsPermutation(a: seq<Seat>, b: seq<Seat>)
    requires multiset(a) == multiset(b) && DistinctIds(a)
    ensures DistinctIds(b)
  {
    forall i, j | 0 <= i < j < |b| ensures b[i].id != b[j].id {
      if b[i] == b[j] {
        var v := b[i];
        assert b == b[..j] + [b[j]] + b[j + 1..];
        assert b[..j][i] == v;
        assert multiset(b)[v] >= 2;
        DistinctCountAtMostOne(a, v);
      } else {
        assert b[i] in multiset(a) && b[j] in multiset(a);
        var p :| 0 <= p < |a| && a[p] == b[i];
        var q :| 0 <= q < |a| && a[q] == b[j];
        assert p != q;
        assert a[p].id != a[q].id;
      }
    }
  }

  /** A selection already in ascending id order sorts to its own ids. */
  lemma SortedIdsInOrder(sel: seq<Seat>)
    requires forall i, j :: 0 <= i < j < |sel| ==> sel[i].id <= sel[j].id
    ensures SortedIds(sel) == Ids(sel)
  {
    Sorting.SortOfSorted(Ids(sel), Sorting.IntLe);
  }

  /** The gap rule looks at ids only: with one seat selected, a seat of another row
      whose id is two higher is refused. */
  lemma GapRuleIgnoresRows(selected: Seat, seat: Seat)
    requires seat.row != selected.row && seat.id == selected.id + 2 && seat.id != 0
    ensures HasGap(SortedIdsWith([selected], seat.id))
  {
    var ids := Ids([selected]) + [seat.id];
    assert Ids([selected, seat]) == ids;
    SortedIdsInOrder([selected, seat]);
    assert GapAt(ids, 0);
  }

  /** Removal can leave a gap: three seats with consecutive ids have none, and removing
      the middle one leaves a selection the gap rule would never have let the user
      build. */
  lemma RemovalCanLeaveGap(a: Seat, b: Seat, c: Seat)
    requires b.id == a.id + 1 && c.id == a.id + 2 && c.id != 0
    ensures !HasGap(SortedIds([a, b, c]))
    ensures HasGap(SortedIds([a, c]))
  {
    var full := Ids([a, b, c]);
    SortedIdsInOrder([a, b, c]);
    forall i: nat | i + 1 < |full| ensures !GapAt(full, i) {
      assert i == 0 || i == 1;
    }
    var removed := Ids([a, c]);
    SortedIdsInOrder([a, c]);
    assert GapAt(removed, 0);
  }

  /** The page's state: the current selection and the screening price once loaded. */
  class SeatBookingPage {
    var selectedSeats: seq<Seat>
    var price: Option<int>

    /** What every reachable state satisfies: at most eight seats, no seat twice, no
        booked seat. */
    ghost predicate Valid()
      reads this
    {
      && |selectedSeats| <= MaxSeats
      && DistinctIds(selectedSeats)
      && forall s :: s in selectedSeats ==> !s.isBooked
    }

    constructor (price: Option<int>)
      ensures Valid() && selectedSeats == [] && this.price == price
    {
      selectedSeats := [];
      this.price := price;
    }

    /** `handleSeatClick`. */
    method HandleSeatClick(seat: Seat) returns (outcome: ClickOutcome)
      requires Valid()
      modifies this
      ensures Valid() && price == old(price)
      ensures seat.isBooked ==> outcome == IgnoredBooked && selectedSeats == old(selectedSeats)
      ensures !seat.isBooked && IsSelected(old(selectedSeats), seat.id) ==>
                outcome == Removed && selectedSeats == Seqs.Filter(old(selectedSeats), NotId(seat.id))
      ensures !seat.isBooked && !IsSelected(old(selectedSeats), seat.id) ==>
                if HasGap(SortedIdsWith(old(selectedSeats), seat.id)) then
                  outcome == RejectedGap && selectedSeats == old(selectedSeats)
                else if |old(selectedSeats)| < MaxSeats then
                  outcome == Added && selectedSeats == old(selectedSeats) + [seat]
                else
                  outcome == RejectedLimit && selectedSeats == old(selectedSeats)
      ensures outcome == Removed ==> |selectedSeats| == |old(selectedSeats)| - 1
      ensures outcome == Added ==> !HasGap(SortedIds(selectedSeats))
    {
      if seat.isBooked {
        return IgnoredBooked;
      }
      if IsSelected(selectedSeats, seat.id) {
        var k :| 0 <= k < |selectedSeats| && selectedSeats[k].id == seat.id;
        RemoveSelected(selectedSeats, k);
        selectedSeats := Seqs.Filter(selectedSeats, NotId(seat.id));
        return Removed;
      }
      var allSeats := SortedIdsWith(selectedSeats, seat.id);
      if HasGap(allSeats) {
        return RejectedGap;
      }
      if |selectedSeats| < MaxSeats {
        assert Ids(selectedSeats + [seat]) == Ids(selectedSeats) + [seat.id];
        selectedSeats := selectedSeats + [seat];
        outcome := Added;
      } else {
        outcome := RejectedLimit;
      }
    }

    /** `handleBookingSubmit` up to the request: without a login the user is sent to the
        login page, an empty selection only raises an alert, otherwise the request
        carries the selected ids in selection order. */
    method HandleBookingSubmit(isAuthenticated: bool, screeningId: int) returns (o: SubmitOutcome)
      ensures !isAuthenticated ==> o == RedirectToLogin
      ensures isAuthenticated && selectedSeats == [] ==> o == NoSeatsAlert
      ensures isAuthenticated && selectedSeats != [] ==>
                o.Request? && o.screeningId == screeningId && |o.seatIds| == |selectedSeats|
                && forall i :: 0 <= i < |selectedSeats| ==> o.seatIds[i] == selectedSeats[i].id
    {
      if !isAuthenticated {
        return RedirectToLogin;
      }
      if |selectedSeats| == 0 {
        return NoSeatsAlert;
      }
      o := Request(screeningId, Ids(selectedSeats));
    }

    /** `calculateTotalPrice`. */
    method CalculateTotalPrice() returns (total: int)
      ensures total == TotalPrice(selectedSeats, price)
      ensures price.Some? ==> total == ChargeEach(selectedSeats, price.value)
    {
      if price.None? {
        return 0;
      }
      TotalPriceChargesEachSeat(selectedSeats, price.value);
      total := |selectedSeats| * price.value;
    }

    /** The summary panel's `selectedSeats.sort(...)`, which reorders the state array
        itself; later submits therefore send ids in row-then-number order. */
    method SortSummary()
      requires Valid()
      modifies this
      ensures Valid() && price == old(price)
      ensures selectedSeats == Sorting.Sort(old(selectedSeats), RowThenNumber)
    {
      var sorted := Sorting.Sort(selectedSeats, RowThenNumber);
      DistinctIdsPermutation(selectedSeats, sorted);
      assert forall s :: s in sorted ==> s in multiset(selectedSeats);
      selectedSeats := sorted;
    }
  }
}
