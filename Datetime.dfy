/** Decoding of the packed FAT date and time words (`createDatetime`). */
module Datetime {
  import opened Bytes

  /** A decoded timestamp, field widths as in fat.c's struct. */
  datatype Datetime = Datetime(
    year: U16, month: Byte, dayOfMonth: Byte,
    hour: Byte, minute: Byte, second: Byte, millisecond: U16)

  /** `1 << (1 + tenth / 100)`: the factor by which fat.c's seconds
      expression `(time & 0x1f) << 1 + tenth / 100` multiplies the two-second
      count, `<<` binding looser than `+` in C. */
  function SecondsFactor(tenth: Byte): (f: nat)
  {
    if tenth < 100 then 2 else if tenth < 200 then 4 else 8
  }

  /** `createDatetime`: the date word packs day (bits 0-4), month (5-8) and
      years since 1980 (9-15); the time word packs two-second units (0-4),
      minutes (5-10) and hours (11-15). */
  function CreateDatetime(date: U16, time: U16, tenth: Byte): (d: Datetime)
    ensures 1980 <= d.year <= 2107
    ensures d.month < 16 && d.dayOfMonth < 32
    ensures d.hour < 32 && d.minute < 64 && d.second <= 31 * 8
    ensures d.millisecond < 10000
  {
    Datetime(
      date / 0x200 + 1980, (date / 0x20) % 0x10, date % 0x20,
      time / 0x800, (time / 0x20) % 0x40, (time % 0x20) * SecondsFactor(tenth),
      (tenth * 100) % 10000)
  }

  /** The date word for a day, as the format packs it. */
  function EncodeDate(year: int, month: int, day: int): (w: U16)
    requires 1980 <= year <= 2107 && 0 <= month < 16 && 0 <= day < 32
  {
    (year - 1980) * 0x200 + month * 0x20 + day
  }

  /** The time word for a time of day with seconds in two-second units. */
  function EncodeTime(hour: int, minute: int, twoSeconds: int): (w: U16)
    requires 0 <= hour < 32 && 0 <= minute < 64 && 0 <= twoSeconds < 32
  {
    hour * 0x800 + minute * 0x20 + twoSeconds
  }

  /** Decoding an encoded date and time gives the fields back; below 100
      tenths the seconds are twice the stored two-second count. */
  lemma DecodeEncode(year: int, month: int, day: int, hour: int, minute: int, twoSeconds: int, tenth: Byte)
    requires 1980 <= year <= 2107 && 0 <= month < 16 && 0 <= day < 32
    requires 0 <= hour < 32 && 0 <= minute < 64 && 0 <= twoSeconds < 32
    ensures var d := CreateDatetime(EncodeDate(year, month, day), EncodeTime(hour, minute, twoSeconds), tenth);
      d.year == year && d.month == month && d.dayOfMonth == day &&
      d.hour == hour && d.minute == minute &&
      d.second == twoSeconds * SecondsFactor(tenth) && d.millisecond == (tenth * 100) % 10000
  {
    var date := EncodeDate(year, month, day);
    var time := EncodeTime(hour, minute, twoSeconds);
    DivMod(date, 0x200, year - 1980, month * 0x20 + day);
    DivMod(date, 0x20, (year - 1980) * 0x10 + month, day);
    DivMod(date / 0x20, 0x10, year - 1980, month);
    DivMod(time, 0x800, hour, minute * 0x20 + twoSeconds);
    DivMod(time, 0x20, hour * 0x40 + minute, twoSeconds);
    DivMod(time / 0x20, 0x40, hour, minute);
  }

  /** Re-encoding the decoded fields gives the words back: no bit of the date
      word and no bit of the time word is lost. */
  lemma EncodeDecode(date: U16, time: U16, tenth: Byte)
    ensures var d := CreateDatetime(date, time, tenth);
      EncodeDate(d.year, d.month, d.dayOfMonth) == date &&
      EncodeTime(d.hour, d.minute, time % 0x20) == time
  {
    var d := CreateDatetime(date, time, tenth);
    DivMod(date / 0x20, 0x10, date / 0x200, (date / 0x20) % 0x10);
    DivMod(time / 0x20, 0x40, time / 0x800, (time / 0x20) % 0x40);
  }

  /** fat.c's seconds agree with the format's `2 * count + tenth / 100`
      exactly when the tenths byte is below 100. */
  lemma SecondsMatchFormatIff(date: U16, time: U16, tenth: Byte)
    ensures CreateDatetime(date, time, tenth).second == 2 * (time % 0x20) + tenth / 100 <==> tenth < 100
  {
  }
}
