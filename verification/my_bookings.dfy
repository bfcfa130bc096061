/**
 * The booking-history page: which timestamp a booking row shows, and its status.
 * Date parsing, locale formatting and the clock are outside the model; they
 * are given as a `DateLib` value.
 */
module MyBookings {
  import opened Wrappers
  import opened Numbers
  import opened JsParseInt
  import SeatSelection

  /** A booking record as returned by the booking service; `seat` is the populated seat document. */
  datatype Booking = Booking(
    id: Option<string>,
    seat: SeatSelection.Seat,
    bookedAt: Option<string>,
    createdAt: Option<string>)

  /** JavaScript truthiness of an optional string: present and not empty. */
  predicate Truthy(v: Option<string>) {
    v.Some? && v.value != ""
  }

  /**
   * The date facilities the page relies on: `parse` is `new Date(text)` (its
   * time value in milliseconds, `None` for an invalid date), `localeText` is
   * `toLocaleString()` of a valid time value, `now` is the current time.
   */
  datatype DateLib = DateLib(parse: string -> Option<int>, localeText: int -> string, now: int)

  /** Largest absolute time value a JavaScript Date can hold (section 21.4.1.31 of ECMA-262, TimeClip). */
  const MaxTimeValue: int := 8_640_000_000_000_000

  /** Number of characters of the id read as the creation time. */
  const IdTimePrefixLength: nat := 8

  /** `new Date(ms)`: `None` when `ms` is NaN or out of the representable range. */
  function TimeClip(ms: Option<int>): (t: Option<int>)
    ensures t.Some? <==> ms.Some? && -MaxTimeValue <= ms.value <= MaxTimeValue
    ensures t.Some? ==> t == ms
  {
    match ms
    case None => None
    case Some(v) => if -MaxTimeValue <= v <= MaxTimeValue then Some(v) else None
  }

  /** `toLocaleString()` of a Date; an invalid Date prints "Invalid Date". */
  function LocaleString(lib: DateLib, t: Option<int>): (text: string)
    ensures t.None? ==> text == "Invalid Date"
    ensures t.Some? ==> text == lib.localeText(t.value)
  {
    match t
    case None => "Invalid Date"
    case Some(v) => lib.localeText(v)
  }

  /** Where the shown timestamp comes from. */
  datatype DateSource = FieldDate(text: string) | IdPrefix(prefix: string) | CurrentTime

  /** The first eight characters of `id` (JavaScript's `substring(0, 8)`). */
  function IdPrefixOf(id: string): (p: string)
    ensures |p| == Min(|id|, IdTimePrefixLength) && p == id[..|p|]
  {
    if |id| <= IdTimePrefixLength then id else id[..IdTimePrefixLength]
  }

  /** `bookedAt || createdAt`: `bookedAt` unless it is falsy. */
  function ChosenDate(b: Booking): (d: Option<string>)
    ensures d == b.bookedAt || d == b.createdAt
    ensures Truthy(d) <==> Truthy(b.bookedAt) || Truthy(b.createdAt)
    ensures Truthy(b.bookedAt) ==> d == b.bookedAt
  {
    if Truthy(b.bookedAt) then b.bookedAt else b.createdAt
  }

  /** The branch `formatBookingDate` takes for a record (`None` is a missing record). */
  function Source(b: Option<Booking>): (src: DateSource)
    ensures src.FieldDate? <==> b.Some? && (Truthy(b.value.bookedAt) || Truthy(b.value.createdAt))
    ensures src.IdPrefix? <==> b.Some? && !Truthy(b.value.bookedAt) && !Truthy(b.value.createdAt) && Truthy(b.value.id)
    ensures src.CurrentTime? <==> b.None? || (!Truthy(b.value.bookedAt) && !Truthy(b.value.createdAt) && !Truthy(b.value.id))
  {
    match b
    case None => CurrentTime
    case Some(r) =>
      if Truthy(ChosenDate(r)) then FieldDate(ChosenDate(r).value)
      else if Truthy(r.id) then IdPrefix(IdPrefixOf(r.id.value))
      else CurrentTime
  }

  /** Seconds read from the id prefix, times 1000; NaN stays NaN. */
  function IdMillis(prefix: string): (ms: Option<int>)
    ensures ms.None? <==> ParseInt16(prefix).None?
    ensures ms.Some? ==> ms.value % 1000 == 0 && ms.value / 1000 == ParseInt16(prefix).value
  {
    match ParseInt16(prefix)
    case None => None
    case Some(seconds) => Some(seconds * 1000)
  }

  /** A date field: its locale text, or "Invalid date" when it does not parse. */
  function FieldText(lib: DateLib, text: string): (shown: string)
    ensures lib.parse(text).None? ==> shown == "Invalid date"
    ensures lib.parse(text).Some? ==> shown == lib.localeText(lib.parse(text).value)
  {
    match lib.parse(text)
    case Some(t) => lib.localeText(t)
    case None => "Invalid date"
  }

  /** The text in the "Booking Date" column (`formatBookingDate`). */
  function FormatBookingDate(lib: DateLib, b: Option<Booking>): (shown: string)
    ensures Source(b).FieldDate? ==> shown == FieldText(lib, ChosenDate(b.value).value)
    ensures Source(b).IdPrefix? ==> 10 <= |shown| && shown[|shown| - 10..] == " (from ID)"
    ensures Source(b).CurrentTime? ==> 11 <= |shown| && shown[|shown| - 11..] == " (fallback)"
  {
    match Source(b)
    case FieldDate(text) => FieldText(lib, text)
    case IdPrefix(prefix) => LocaleString(lib, TimeClip(IdMillis(prefix))) + " (from ID)"
    case CurrentTime => lib.localeText(lib.now) + " (fallback)"
  }

  /** A truthy `bookedAt` decides the text alone: `createdAt` and the id are never read. */
  lemma BookedAtTakesPrecedence(lib: DateLib, b: Booking, createdAt: Option<string>, id: Option<string>)
    requires Truthy(b.bookedAt)
    ensures FormatBookingDate(lib, Some(b)) == FieldText(lib, b.bookedAt.value)
    ensures FormatBookingDate(lib, Some(b)) == FormatBookingDate(lib, Some(b.(createdAt := createdAt, id := id)))
  {
  }

  /** `createdAt` is used only when `bookedAt` is falsy, and then the id is not read. */
  lemma CreatedAtWhenBookedAtFalsy(lib: DateLib, b: Booking, id: Option<string>)
    requires !Truthy(b.bookedAt) && Truthy(b.createdAt)
    ensures FormatBookingDate(lib, Some(b)) == FieldText(lib, b.createdAt.value)
    ensures FormatBookingDate(lib, Some(b)) == FormatBookingDate(lib, Some(b.(id := id)))
  {
  }

  /** A present date that does not parse gives exactly "Invalid date"; nothing further is tried. */
  lemma UnparsableDateIsFinal(lib: DateLib, b: Booking)
    requires Truthy(ChosenDate(b)) && lib.parse(ChosenDate(b).value).None?
    ensures FormatBookingDate(lib, Some(b)) == "Invalid date"
  {
  }

  /** The id branch: the clipped id-derived time, printed, then " (from ID)". */
  lemma FromIdText(lib: DateLib, b: Booking)
    requires !Truthy(b.bookedAt) && !Truthy(b.createdAt) && Truthy(b.id)
    ensures FormatBookingDate(lib, Some(b))
         == LocaleString(lib, TimeClip(IdMillis(IdPrefixOf(b.id.value)))) + " (from ID)"
  {
    assert Source(Some(b)) == IdPrefix(IdPrefixOf(b.id.value));
  }

  /** Seconds read from at most eight characters fit in 32 bits, so the time value is never clipped. */
  lemma IdMillisInRange(prefix: string)
    requires |prefix| <= IdTimePrefixLength
    ensures IdMillis(prefix).Some? ==> -0xFFFF_FFFF * 1000 <= IdMillis(prefix).value <= 0xFFFF_FFFF * 1000
    ensures TimeClip(IdMillis(prefix)) == IdMillis(prefix)
  {
    Pow16Monotone(|prefix|, IdTimePrefixLength);
    assert Pow16(IdTimePrefixLength) == 0x1_0000_0000;
  }

  /**
   * With no date, a truthy id whose first eight characters `parseInt` reads as a
   * number of seconds gives that number times 1000, printed, tagged " (from ID)";
   * the number is within ±0xFFFFFFFF, so the time is never clipped.
   */
  lemma FromIdReadsSeconds(lib: DateLib, b: Booking)
    requires !Truthy(b.bookedAt) && !Truthy(b.createdAt) && Truthy(b.id)
    requires ParseInt16(IdPrefixOf(b.id.value)).Some?
    ensures -0xFFFF_FFFF <= ParseInt16(IdPrefixOf(b.id.value)).value <= 0xFFFF_FFFF
    ensures FormatBookingDate(lib, Some(b))
         == lib.localeText(ParseInt16(IdPrefixOf(b.id.value)).value * 1000) + " (from ID)"
  {
    var p := IdPrefixOf(b.id.value);
    var v := ParseInt16(p).value;
    FromIdText(lib, b);
    assert IdMillis(p) == Some(v * 1000);
    IdMillisInRange(p);
    assert TimeClip(IdMillis(p)) == Some(v * 1000);
  }

  /**
   * With no date, a truthy id whose first eight characters are all hex digits gives
   * their big-endian value as epoch seconds, at most 0xFFFFFFFF, tagged " (from ID)".
   */
  lemma FromIdHexTimestamp(lib: DateLib, b: Booking)
    requires !Truthy(b.bookedAt) && !Truthy(b.createdAt) && Truthy(b.id)
    requires AllHex(IdPrefixOf(b.id.value))
    ensures HexValue(IdPrefixOf(b.id.value)) <= 0xFFFF_FFFF
    ensures FormatBookingDate(lib, Some(b))
         == lib.localeText(HexValue(IdPrefixOf(b.id.value)) * 1000) + " (from ID)"
  {
    var p := IdPrefixOf(b.id.value);
    ParseAllHex(p);
    FromIdReadsSeconds(lib, b);
  }

  /** A truthy id whose prefix `parseInt` reads as NaN still takes the id branch and prints "Invalid Date (from ID)". */
  lemma FromIdNotHex(lib: DateLib, b: Booking)
    requires !Truthy(b.bookedAt) && !Truthy(b.createdAt) && Truthy(b.id)
    requires ParseInt16(IdPrefixOf(b.id.value)).None?
    ensures FormatBookingDate(lib, Some(b)) == "Invalid Date (from ID)"
  {
    FromIdText(lib, b);
    UnreadableIdText(lib, IdPrefixOf(b.id.value));
  }

  lemma UnreadableIdText(lib: DateLib, prefix: string)
    requires ParseInt16(prefix).None?
    ensures LocaleString(lib, TimeClip(IdMillis(prefix))) + " (from ID)" == "Invalid Date (from ID)"
  {
    assert IdMillis(prefix) == None;
  }

  /** The id branch reads only the first eight characters: ids agreeing there give the same text. */
  lemma FromIdReadsOnlyPrefix(lib: DateLib, b1: Booking, b2: Booking)
    requires !Truthy(b1.bookedAt) && !Truthy(b1.createdAt) && Truthy(b1.id)
    requires !Truthy(b2.bookedAt) && !Truthy(b2.createdAt) && Truthy(b2.id)
    requires IdPrefixOf(b1.id.value) == IdPrefixOf(b2.id.value)
    ensures FormatBookingDate(lib, Some(b1)) == FormatBookingDate(lib, Some(b2))
  {
  }

  /** The current time is used only with no date and no id, and the text then ends in " (fallback)". */
  lemma FallbackOnlyWithoutDateOrId(lib: DateLib, b: Option<Booking>)
    ensures Source(b).CurrentTime? ==> FormatBookingDate(lib, b) == lib.localeText(lib.now) + " (fallback)"
    ensures !Source(b).CurrentTime? ==> FormatBookingDate(lib, b) == FormatBookingDate(lib.(now := 0), b)
  {
  }

  /** The status chip of a booking row. */
  datatype Status = Booked | Pending

  function BookingStatus(b: Booking): (s: Status)
    ensures s == Booked <==> b.seat.isBooked
    ensures s == Pending <==> !b.seat.isBooked
  {
    if b.seat.isBooked then Booked else Pending
  }

  function StatusLabel(s: Status): (chip: string)
    ensures chip == "Booked" <==> s == Booked
    ensures chip == "Pending" <==> s == Pending
  {
    match s
    case Booked => "Booked"
    case Pending => "Pending"
  }
}
