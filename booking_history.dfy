/** The booking history page (frontend/src/pages/BookingHistoryPage.tsx): bookings
    newest first, the seat list of a booking as "A1, A2, B3", the status colour and
    the status filter. */
module BookingHistory {
  import opened Wrappers
  import Seqs
  import Sorting
  import Text

  /** The `seat` object of a booking seat; a missing row is "", a number that is
      `undefined` is `None`. */
  datatype SeatInfo = SeatInfo(row: string, seatNumber: Option<int>, number: Option<int>)

  /** A booking seat in any of the shapes the page accepts: a nested `seat`, or `row`
      and `number` on the booking seat itself. */
  datatype BookingSeat = BookingSeat(seat: Option<SeatInfo>, row: string, number: Option<int>)

  /** A booking; `createdAt` is in milliseconds since the epoch. */
  datatype Booking = Booking(id: int, createdAt: int, bookingStatus: string,
                             bookingSeats: Option<seq<BookingSeat>>)

  /** `${row}${number}`. */
  function Label(row: string, number: int): string {
    row + Text.IntToString(number)
  }

  /** The label of one booking seat, from the first shape that fits: `seat.row` with
      `seat.seatNumber`, then `row` with `number`, then `seat.row` with `seat.number`. */
  function ExtractLabel(bs: BookingSeat): (r: Option<string>)
    ensures r.None? <==>
              !(bs.seat.Some? && bs.seat.value.row != "" && bs.seat.value.seatNumber.Some?) &&
              !(bs.row != "" && bs.number.Some?) &&
              !(bs.seat.Some? && bs.seat.value.row != "" && bs.seat.value.number.Some?)
    ensures bs.seat.Some? && bs.seat.value.row != "" && bs.seat.value.seatNumber.Some? ==>
              r == Some(Label(bs.seat.value.row, bs.seat.value.seatNumber.value))
    ensures !(bs.seat.Some? && bs.seat.value.row != "" && bs.seat.value.seatNumber.Some?) &&
            bs.row != "" && bs.number.Some? ==>
              r == Some(Label(bs.row, bs.number.value))
    ensures !(bs.seat.Some? && bs.seat.value.row != "" && bs.seat.value.seatNumber.Some?) &&
            !(bs.row != "" && bs.number.Some?) &&
            bs.seat.Some? && bs.seat.value.row != "" && bs.seat.value.number.Some? ==>
              r == Some(Label(bs.seat.value.row, bs.seat.value.number.value))
    ensures r.Some? ==> |r.value| >= 2 && Text.IsDigit(r.value[|r.value| - 1])
  {
    if bs.seat.Some? && bs.seat.value.row != "" && bs.seat.value.seatNumber.Some? then
      Some(Label(bs.seat.value.row, bs.seat.value.seatNumber.value))
    else if bs.row != "" && bs.number.Some? then
      Some(Label(bs.row, bs.number.value))
    else if bs.seat.Some? && bs.seat.value.row != "" && bs.seat.value.number.Some? then
      Some(Label(bs.seat.value.row, bs.seat.value.number.value))
    else
      None
  }

  /** The labels the loop collects from `seats`, in seat order. */
  function Labels(seats: seq<BookingSeat>): (r: seq<string>)
    ensures |r| <= |seats|
    ensures forall l :: l in r ==> |l| >= 2 && Text.IsDigit(l[|l| - 1])
  {
    if seats == [] then []
    else
      var last := ExtractLabel(seats[|seats| - 1]);
      Labels(seats[..|seats| - 1]) + (if last.Some? then [last.value] else [])
  }

  /** One more booking seat adds its label, if it has one, at the end. */
  lemma LabelsStep(seats: seq<BookingSeat>, i: nat)
    requires i < |seats|
    ensures var l := ExtractLabel(seats[i]);
            Labels(seats[..i + 1]) == Labels(seats[..i]) + (if l.Some? then [l.value] else [])
  {
    assert seats[..i + 1][..i] == seats[..i];
  }

  /** `a.charAt(0)`. */
  function RowKey(lbl: string): string {
    if lbl == [] then [] else [lbl[0]]
  }

  /** `parseInt(a.substring(1))`, `None` for `NaN`. */
  function NumberKey(lbl: string): Option<int> {
    if lbl == [] then Text.ParseInt([]) else Text.ParseInt(lbl[1..])
  }

  /** The seat comparator: rows by their first character, then the numbers; a `NaN`
      difference counts as a tie. */
  predicate LabelLe(a: string, b: string) {
    if RowKey(a) != RowKey(b) then Text.StrLt(RowKey(a), RowKey(b))
    else match (NumberKey(a), NumberKey(b))
      case (Some(x), Some(y)) => x <= y
      case _ => true
  }

  const NotAvailable: string := "N/A"

  /** What `formatSeats` returns. */
  function SeatsText(b: Booking): string {
    if b.bookingSeats.None? || b.bookingSeats.value == [] then NotAvailable
    else
      var labels := Labels(b.bookingSeats.value);
      if labels == [] then NotAvailable
      else Text.Join(Sorting.Sort(labels, LabelLe), ", ")
  }

  /** `formatSeats`: the loop over the booking seats, then the sort and the join. */
  method FormatSeats(b: Booking) returns (r: string)
    ensures r == SeatsText(b)
  {
    if b.bookingSeats.None? || |b.bookingSeats.value| == 0 {
      return NotAvailable;
    }
    var seats := b.bookingSeats.value;
    var seatsList: seq<string> := [];
    for i := 0 to |seats|
      invariant seatsList == Labels(seats[..i])
    {
      var bs := seats[i];
      LabelsStep(seats, i);
      if bs.seat.Some? && bs.seat.value.row != "" && bs.seat.value.seatNumber.Some? {
        seatsList := seatsList + [Label(bs.seat.value.row, bs.seat.value.seatNumber.value)];
        continue;
      }
      if bs.row != "" && bs.number.Some? {
        seatsList := seatsList + [Label(bs.row, bs.number.value)];
        continue;
      }
      if bs.seat.Some? && bs.seat.value.row != "" && bs.seat.value.number.Some? {
        seatsList := seatsList + [Label(bs.seat.value.row, bs.seat.value.number.value)];
        continue;
      }
    }
    assert seats[..|seats|] == seats;
    if |seatsList| == 0 {
      return NotAvailable;
    }
    r := Text.Join(Sorting.Sort(seatsList, LabelLe), ", ");
  }

  /** 'N/A' comes back exactly when no label could be extracted (or there are no
      booking seats): a real seat list ends in a digit. */
  lemma SeatsTextNotAvailableIff(b: Booking)
    ensures SeatsText(b) == NotAvailable <==>
              b.bookingSeats.None? || Labels(b.bookingSeats.value) == []
  {
    if b.bookingSeats.Some? && Labels(b.bookingSeats.value) != [] {
      JoinedLabelsEndInDigit(Labels(b.bookingSeats.value), LabelLe);
    }
  }

  /** Joining the sorted labels ends in the last digit of one of them, whatever the
      comparator. */
  lemma JoinedLabelsEndInDigit(labels: seq<string>, le: (string, string) -> bool)
    requires labels != [] && forall l :: l in labels ==> |l| >= 2 && Text.IsDigit(l[|l| - 1])
    ensures var r := Text.Join(Sorting.Sort(labels, le), ", ");
            |r| > 0 && Text.IsDigit(r[|r| - 1])
  {
    Sorting.SortLastIn(labels, le);
  }

  /** The labels shown are those extracted, each as often as extracted, at most one per
      booking seat. */
  lemma SeatsTextIsPermutation(seats: seq<BookingSeat>)
    ensures multiset(Sorting.Sort(Labels(seats), LabelLe)) == multiset(Labels(seats))
    ensures |Sorting.Sort(Labels(seats), LabelLe)| <= |seats|
  {
  }

  /** A label with a one-character row: its keys are that row and its number. */
  ghost predicate OneCharRow(lbl: string) {
    exists c: char, n: int :: lbl == Label([c], n)
  }

  lemma OneCharRowKeys(lbl: string, c: char, n: int)
    requires lbl == Label([c], n)
    ensures RowKey(lbl) == [c] && NumberKey(lbl) == Some(n)
  {
    assert lbl[1..] == Text.IntToString(n);
    Text.ParseIntToString(n);
  }

  lemma OneCharRowHasKeys(lbl: string)
    requires OneCharRow(lbl)
    ensures |lbl| > 0 && RowKey(lbl) == [lbl[0]] && NumberKey(lbl).Some?
  {
    var c, n :| lbl == Label([c], n);
    OneCharRowKeys(lbl, c, n);
  }

  /** On one-character rows the comparator is total and transitive. */
  lemma LabelLeConsistent(labels: seq<string>)
    requires forall l :: l in labels ==> OneCharRow(l)
    ensures Sorting.TotalPreorderOn(LabelLe, labels)
  {
    forall a, b | a in labels && b in labels ensures LabelLe(a, b) || LabelLe(b, a) {
      OneCharRowHasKeys(a);
      OneCharRowHasKeys(b);
      Text.StrLtTrichotomy(RowKey(a), RowKey(b));
    }
    forall a, b, c | a in labels && b in labels && c in labels && LabelLe(a, b) && LabelLe(b, c)
      ensures LabelLe(a, c)
    {
      OneCharRowHasKeys(a);
      OneCharRowHasKeys(b);
      OneCharRowHasKeys(c);
      Text.StrLtTrichotomy(RowKey(a), RowKey(c));
      if RowKey(a) != RowKey(b) && RowKey(b) != RowKey(c) {
        Text.StrLtTransitive(RowKey(a), RowKey(b), RowKey(c));
      }
    }
  }

  /** `a` comes no later than `b` by row, then by seat number. */
  predicate RowThenNumber(a: string, b: string) {
    && |a| > 0 && |b| > 0
    && (a[0] < b[0] || (a[0] == b[0] && NumberKey(a).Some? && NumberKey(b).Some? &&
                        NumberKey(a).value <= NumberKey(b).value))
  }

  /** What the comparator says about two one-character-row labels. */
  lemma LabelLeMeans(a: string, b: string)
    requires OneCharRow(a) && OneCharRow(b) && LabelLe(a, b)
    ensures RowThenNumber(a, b)
  {
    OneCharRowHasKeys(a);
    OneCharRowHasKeys(b);
  }

  /** On one-character rows the list comes out by row, then by seat number. */
  lemma SortedByRowThenNumber(labels: seq<string>)
    requires forall l :: l in labels ==> OneCharRow(l)
    ensures var sorted := Sorting.Sort(labels, LabelLe);
            forall i, j :: 0 <= i < j < |sorted| ==> RowThenNumber(sorted[i], sorted[j])
  {
    var sorted := Sorting.Sort(labels, LabelLe);
    assert Sorting.SortedBy(sorted, LabelLe) by {
      LabelLeConsistent(labels);
      Sorting.SortSorted(labels, LabelLe);
    }
    forall i, j | 0 <= i < j < |sorted| ensures RowThenNumber(sorted[i], sorted[j]) {
      assert sorted[i] in labels && sorted[j] in labels by {
        assert sorted[i] in multiset(sorted) && sorted[j] in multiset(sorted);
      }
      LabelLeMeans(sorted[i], sorted[j]);
    }
  }

  const Green: string := "text-green-500 bg-green-500/20"
  const Yellow: string := "text-yellow-500 bg-yellow-500/20"
  const Red: string := "text-red-500 bg-red-500/20"
  const Gray: string := "text-gray-400 bg-gray-400/20"

  /** `getStatusColor`. */
  function StatusColor(status: string): (r: string)
    ensures r == Green <==> Text.ToLower(status) == "confirmed"
    ensures r == Yellow <==> Text.ToLower(status) == "pending"
    ensures r == Red <==> Text.ToLower(status) == "cancelled"
    ensures r == Gray <==> Text.ToLower(status) !in {"confirmed", "pending", "cancelled"}
  {
    match Text.ToLower(status)
    case "confirmed" => Green
    case "pending" => Yellow
    case "cancelled" => Red
    case _ => Gray
  }

  /** The colour ignores letter case. */
  lemma StatusColorIgnoresCase(status: string)
    ensures StatusColor(status) == StatusColor(Text.ToLower(status))
  {
    Text.ToLowerIdempotent(status);
  }

  function HasStatus(filter: string): Booking -> bool {
    (b: Booking) => Text.ToLower(b.bookingStatus) == filter
  }

  /** `filteredBookings`: every booking for 'all', else exactly those whose lower-cased
      status is the filter, in order. */
  function FilterBookings(bookings: seq<Booking>, filter: string): (r: seq<Booking>)
    ensures filter == "all" ==> r == bookings
    ensures filter != "all" ==> forall b :: b in r <==> b in bookings && Text.ToLower(b.bookingStatus) == filter
    ensures filter != "all" ==>
              forall b :: multiset(r)[b] == if Text.ToLower(b.bookingStatus) == filter then multiset(bookings)[b] else 0
    ensures Seqs.IsSubseq(r, bookings)
  {
    if filter == "all" then
      Seqs.FilterKeepsAll(bookings, (b: Booking) => true);
      Seqs.FilterIsSubseq(bookings, (b: Booking) => true);
      bookings
    else
      Seqs.FilterIsSubseq(bookings, HasStatus(filter));
      Seqs.Filter(bookings, HasStatus(filter))
  }

  /** Filtering by a status tab shows only bookings in that tab's colour. */
  lemma FilterAgreesWithColor(bookings: seq<Booking>, b: Booking)
    requires b in FilterBookings(bookings, "confirmed")
    ensures StatusColor(b.bookingStatus) == Green
  {
  }

  /** The comparator `(a, b) => time(b) - time(a)`. */
  predicate NewerFirst(a: Booking, b: Booking) {
    a.createdAt >= b.createdAt
  }

  /** Bookings sorted newest first. */
  function NewestFirst(bookings: seq<Booking>): seq<Booking> {
    Sorting.Sort(bookings, NewerFirst)
  }

  /** The history lists every booking once and the creation times never increase. */
  lemma NewestFirstSpec(bookings: seq<Booking>)
    ensures multiset(NewestFirst(bookings)) == multiset(bookings)
    ensures forall i, j :: 0 <= i < j < |NewestFirst(bookings)| ==>
              NewestFirst(bookings)[i].createdAt >= NewestFirst(bookings)[j].createdAt
  {
    Sorting.SortSorted(bookings, NewerFirst);
  }
}
