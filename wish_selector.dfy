/**
 * getDeterministicWishIndex of lib/hash.ts: the key "<fid>-<YYYY-MM-DD>",
 * its FNV-1a hash, and that hash reduced modulo the number of wishes.
 */
module WishSelector {
  import opened JsStrings
  import opened JsNumber
  import opened Fnv1a
  import opened IsoText

  /** The template literal `${fid}-${dateStr}` with the date already cut from the ISO text. */
  function Key(fid: nat, date: CalendarDate): (r: JsString)
    requires ValidDate(date)
    ensures |r| == |Decimal(fid)| + 11
    ensures SplitFirst(r, HYPHEN) == Decimal(fid)
    ensures r[|r| - 10..] == DateText(date)
  {
    var id := Decimal(fid);
    var r := id + [HYPHEN] + DateText(date);
    assert r[..|id|] == id;
    SplitFirstAt(r, HYPHEN, |id|);
    r
  }

  /** Keys coincide exactly when user id and date both do. */
  lemma KeyInjective(fid1: nat, d1: CalendarDate, fid2: nat, d2: CalendarDate)
    requires ValidDate(d1) && ValidDate(d2)
    ensures Key(fid1, d1) == Key(fid2, d2) <==> fid1 == fid2 && d1 == d2
  {
    if Key(fid1, d1) == Key(fid2, d2) {
      DecimalInjective(fid1, fid2);
      DateTextInjective(d1, d2);
    }
  }

  /**
   * getDeterministicWishIndex: `date.toISOString().split('T')[0]`, the key,
   * its hash, and `hash % wishesCount`, which is NaN for no wishes and
   * ignores the sign of a negative count.
   */
  function GetDeterministicWishIndex(fid: nat, date: UtcInstant, wishesCount: int): (r: Number)
    requires ValidInstant(date)
    ensures r == Remainder(Hash(Key(fid, date.date)), wishesCount)
    ensures r.NaN? <==> wishesCount == 0
    ensures r.Integral? ==> 0 <= r.value < Abs(wishesCount)
  {
    var dateStr := SplitFirst(IsoString(date), LATIN_T);
    var input := Decimal(fid) + [HYPHEN] + dateStr;
    IsoDatePart(date);
    Remainder(Hash(input), wishesCount)
  }

  /** For a positive number of wishes the index is the hash of the key modulo that number, a valid position. */
  lemma WishIndexInRange(fid: nat, date: UtcInstant, wishesCount: int)
    requires ValidInstant(date) && wishesCount > 0
    ensures GetDeterministicWishIndex(fid, date, wishesCount).Integral?
    ensures 0 <= GetDeterministicWishIndex(fid, date, wishesCount).value < wishesCount
    ensures GetDeterministicWishIndex(fid, date, wishesCount).value == Hash(Key(fid, date.date)) % wishesCount
  {
    assert Abs(wishesCount) == wishesCount;
  }

  /** The time of day does not matter: a user keeps the same wish for the whole UTC day. */
  lemma SameDaySameIndex(fid: nat, t1: UtcInstant, t2: UtcInstant, wishesCount: int)
    requires ValidInstant(t1) && ValidInstant(t2)
    requires t1.date == t2.date
    ensures GetDeterministicWishIndex(fid, t1, wishesCount) == GetDeterministicWishIndex(fid, t2, wishesCount)
  {
  }

  /**
   * Two days of the same month whose numbers differ only in the units digit
   * (the 1st and the 2nd, the 10th and the 17th) give keys that differ in
   * their last code unit only, so their hashes differ.
   */
  lemma UnitsDigitOfDayChangesHash(fid: nat, d1: CalendarDate, d2: CalendarDate)
    requires ValidDate(d1) && ValidDate(d2)
    requires d1.year == d2.year && d1.month == d2.month
    requires d1.day / 10 == d2.day / 10 && d1.day != d2.day
    ensures Hash(Key(fid, d1)) != Hash(Key(fid, d2))
  {
    DateTextLastUnit(d1);
    DateTextLastUnit(d2);
    var prefix := Decimal(fid) + [HYPHEN] + DateText(d1)[..9];
    var u1, u2 := Digit(d1.day % 10), Digit(d2.day % 10);
    assert Key(fid, d1) == prefix + [u1];
    assert Key(fid, d2) == prefix + [u2];
    FoldSnoc(OFFSET_BASIS, prefix, u1);
    FoldSnoc(OFFSET_BASIS, prefix, u2);
    StepInjectiveInUnit(Hash(prefix), u1, u2);
  }

}
