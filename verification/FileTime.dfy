/** Unix seconds to FILETIME, the 100-nanosecond count since 1601 split into two
    32-bit words (section 2.3.3 of MS-DTYP). */
module FileTimes {
  import opened Text

  datatype FileTime = FileTime(low: DWord, high: DWord)

  const EPOCH_DIFFERENCE := 11644473600
  const TICKS_PER_SECOND := 10000000
  const TWO_32 := 0x1_0000_0000
  const TWO_64 := 0x1_0000_0000_0000_0000

  function Ticks(mtime: int): int {
    (mtime + EPOCH_DIFFERENCE) * TICKS_PER_SECOND
  }

  /** The conversion to ULONGLONG and the two casts to DWORD. */
  function Convert(mtime: int): FileTime {
    var ll := Ticks(mtime) % TWO_64;
    FileTime(ll % TWO_32, ll / TWO_32)
  }

  predicate IsConvertible(mtime: int) {
    -11644473600 <= mtime <= 910692730085
  }

  function Seconds(f: FileTime): int {
    (f.high * TWO_32 + f.low) / TICKS_PER_SECOND - EPOCH_DIFFERENCE
  }

  predicate Earlier(f: FileTime, g: FileTime) {
    f.high < g.high || (f.high == g.high && f.low < g.low)
  }

  /** The signed product stays in range, and not negative, exactly then. */
  lemma ProductFitsIff(mtime: int)
    ensures IsConvertible(mtime) <==> 0 <= Ticks(mtime) < 0x8000_0000_0000_0000
  {
  }

  lemma ConversionIsExact(mtime: int)
    requires IsConvertible(mtime)
    ensures Seconds(Convert(mtime)) == mtime
  {
  }

  lemma ConversionKeepsOrder(m: int, n: int)
    requires IsConvertible(m) && IsConvertible(n)
    ensures Earlier(Convert(m), Convert(n)) <==> m < n
  {
  }

  // ---- The Gregorian calendar -----------------------------------------------

  predicate IsLeap(year: int) {
    year % 4 == 0 && (year % 100 != 0 || year % 400 == 0)
  }

  function DaysBetween(first: int, last: int): int
    decreases last - first
  {
    if first >= last then 0 else DaysBetween(first, last - 1) + (if IsLeap(last - 1) then 366 else 365)
  }

  function LeapsBefore(year: int): int
    requires year > 0
  {
    (year - 1) / 4 - (year - 1) / 100 + (year - 1) / 400
  }

  lemma LeapsAdvance(year: int)
    requires year > 0
    ensures LeapsBefore(year + 1) == LeapsBefore(year) + (if IsLeap(year) then 1 else 0)
  {
    assert year / 4 == (year - 1) / 4 + (if year % 4 == 0 then 1 else 0);
    assert year / 100 == (year - 1) / 100 + (if year % 100 == 0 then 1 else 0);
    assert year / 400 == (year - 1) / 400 + (if year % 400 == 0 then 1 else 0);
  }

  lemma {:induction false} DaysInClosedForm(first: int, last: int)
    requires 0 < first <= last
    ensures DaysBetween(first, last) == 365 * (last - first) + LeapsBefore(last) - LeapsBefore(first)
    decreases last - first
  {
    if first == last {
    } else {
      var year := last - 1;
      DaysInClosedForm(first, year);
      LeapsAdvance(year);
    }
  }

  /** The constant is the number of seconds from 1601 to 1970. */
  lemma EpochDifferenceIsCalendar()
    ensures DaysBetween(1601, 1970) * 86400 == EPOCH_DIFFERENCE
  {
    DaysInClosedForm(1601, 1970);
    assert LeapsBefore(1601) == 388;
    assert LeapsBefore(1970) == 477;
  }
}
