/** The wire codec of a commitment's `dia` (`YYYY-MM-DD`) and `hora` (`H:MM`
    or `HH:MM`, 24-hour) fields. The pair is read as a UTC moment purely to
    get timezone-free arithmetic: decoding anchors `dia` at UTC midnight and
    sets the UTC hour and minute; encoding prints the UTC date and the UTC
    hour and minute back. */
module Codec {
  import opened Text
  import opened Calendar
  import opened DateTime

  datatype WallClock = WallClock(hours: int, minutes: int)

  /** `dia` is `YYYY-MM-DD` naming a day of the calendar. */
  predicate ValidDia(dia: string) {
    |dia| == 10 && dia[4] == '-' && dia[7] == '-'
    && AllDigits(dia[0..4]) && AllDigits(dia[5..7]) && AllDigits(dia[8..10])
    && ValidDate(CivilDate(NumberValue(dia[0..4]), NumberValue(dia[5..7]), NumberValue(dia[8..10])))
  }

  /** The date a valid `dia` names; printing it back gives `dia`. */
  function ParseDia(dia: string): (c: CivilDate)
    requires ValidDia(dia)
    ensures ValidDate(c) && c.year < 10000 && IsoDate(c) == dia
  {
    var c := CivilDate(NumberValue(dia[0..4]), NumberValue(dia[5..7]), NumberValue(dia[8..10]));
    Pad4OfNumberValue(dia[0..4]);
    Pad2OfNumberValue(dia[5..7]);
    Pad2OfNumberValue(dia[8..10]);
    assert dia == dia[0..4] + "-" + dia[5..7] + "-" + dia[8..10];
    c
  }

  /** Every date with a four-digit year prints as a valid `dia` that parses
      back to it. */
  lemma IsoDateParses(c: CivilDate)
    requires ValidDate(c) && c.year < 10000
    ensures ValidDia(IsoDate(c)) && ParseDia(IsoDate(c)) == c
  {
    var s := IsoDate(c);
    assert s[0..4] == Pad4(c.year);
    assert s[5..7] == Pad2(c.month);
    assert s[8..10] == Pad2(c.day);
  }

  /** `hora` is one or two digits of hour (0-23), a colon and two digits of
      minute (0-59): the form `^\d{1,2}:\d{2}$` with its ranges. */
  predicate ValidHora(hora: string) {
    var parts := Split(hora, ':');
    |parts| == 2 && 1 <= |parts[0]| <= 2 && |parts[1]| == 2
    && AllDigits(parts[0]) && AllDigits(parts[1])
    && NumberValue(parts[0]) < 24 && NumberValue(parts[1]) < 60
  }

  /** `const [hours, minutes] = hora.split(':')`, each read as a number. */
  function ParseHora(hora: string): (w: WallClock)
    requires ValidHora(hora)
    ensures 0 <= w.hours < 24 && 0 <= w.minutes < 60
  {
    var parts := Split(hora, ':');
    WallClock(NumberValue(parts[0]), NumberValue(parts[1]))
  }

  /** `hora` with its hour zero-padded to two digits. */
  function PaddedHora(hora: string): string {
    if |hora| == 4 then "0" + hora else hora
  }

  lemma DigitsHaveNoSeparator(s: string, c: char)
    requires AllDigits(s) && !IsDigit(c)
    ensures c !in s
  {
  }

  /** Printing the parsed hour and minute as `HH:MM` gives the zero-padded
      `hora`. */
  lemma ParseHoraPrints(hora: string)
    requires ValidHora(hora)
    ensures var w := ParseHora(hora); Pad2(w.hours) + ":" + Pad2(w.minutes) == PaddedHora(hora)
  {
    var parts := Split(hora, ':');
    JoinSplit(hora, ':');
    assert hora == parts[0] + ":" + parts[1];
    Pad2OfNumberValue(parts[1]);
    Pad2OfNumberValue(parts[0]);
  }

  /** Every in-range hour and minute printed as `HH:MM` is a valid `hora` that
      parses back to them. */
  lemma PrintedHoraParses(h: int, m: int)
    requires 0 <= h < 24 && 0 <= m < 60
    ensures ValidHora(Pad2(h) + ":" + Pad2(m))
    ensures ParseHora(Pad2(h) + ":" + Pad2(m)) == WallClock(h, m)
  {
    DigitsHaveNoSeparator(Pad2(h), ':');
    DigitsHaveNoSeparator(Pad2(m), ':');
    SplitAtFirst(Pad2(h), ':', Pad2(m));
    SplitNoSeparator(Pad2(m), ':');
    assert Pad2(h) + ":" + Pad2(m) == Pad2(h) + [':'] + Pad2(m);
  }

  /** `new Date(`${dia}T00:00:00.000Z`)`: the start of `dia` in UTC. */
  function AtUtcMidnight(dia: string): (t: Instant)
    requires ValidDia(dia)
    ensures UtcDate(t) == ParseDia(dia)
    ensures UtcHours(t) == 0 && UtcMinutes(t) == 0 && UtcSeconds(t) == 0 && UtcMilliseconds(t) == 0
  {
    UtcInstant(ParseDia(dia), 0, 0, 0, 0)
  }

  /** The decode in `handleEdit`: anchor `dia` at UTC midnight, then
      `setUTCHours(hours, minutes)`. The UTC date is `dia`, unshifted, and the
      UTC hour and minute are those of `hora`. */
  function Decode(dia: string, hora: string): (t: Instant)
    requires ValidDia(dia) && ValidHora(hora)
    ensures UtcDate(t) == ParseDia(dia)
    ensures UtcHours(t) == ParseHora(hora).hours && UtcMinutes(t) == ParseHora(hora).minutes
    ensures UtcSeconds(t) == 0 && UtcMilliseconds(t) == 0
  {
    var w := ParseHora(hora);
    SetUTCHoursMinutes(AtUtcMidnight(dia), w.hours, w.minutes)
  }

  /** `date.toISOString().split('T')[0]`: the UTC date as a valid `dia`. */
  function EncodeDay(t: Instant): (dia: string)
    ensures ValidDia(dia) && ParseDia(dia) == UtcDate(t)
  {
    var iso := ToISOString(t);
    assert iso == IsoDate(UtcDate(t)) + ['T'] + iso[11..];
    SplitAtFirst(IsoDate(UtcDate(t)), 'T', iso[11..]);
    IsoDateParses(UtcDate(t));
    Split(iso, 'T')[0]
  }

  /** `t.toLocaleTimeString('pt-BR', { hour: '2-digit', minute: '2-digit',
      hour12: false, timeZone: 'UTC' })` in the submit handlers: the UTC hour
      and minute as a valid, zero-padded `HH:MM` `hora`. */
  function EncodeHour(t: int): (hora: string)
    ensures ValidHora(hora) && |hora| == 5
    ensures ParseHora(hora) == WallClock(UtcHours(t), UtcMinutes(t))
  {
    PrintedHoraParses(UtcHours(t), UtcMinutes(t));
    Pad2(UtcHours(t)) + ":" + Pad2(UtcMinutes(t))
  }

  /** Round trip from the wire: decoding a valid pair and encoding the
      instant again gives `dia` back exactly and `hora` zero-padded. */
  lemma EncodeDecode(dia: string, hora: string)
    requires ValidDia(dia) && ValidHora(hora)
    ensures EncodeDay(Decode(dia, hora)) == dia
    ensures EncodeHour(Decode(dia, hora)) == PaddedHora(hora)
  {
    var t := Decode(dia, hora);
    assert IsoDate(ParseDia(EncodeDay(t))) == IsoDate(ParseDia(dia));
    ParseHoraPrints(hora);
  }

  /** A two-digit-hour `hora` survives the round trip unchanged. */
  lemma EncodeDecodePadded(dia: string, hora: string)
    requires ValidDia(dia) && ValidHora(hora) && |hora| == 5
    ensures EncodeDay(Decode(dia, hora)) == dia && EncodeHour(Decode(dia, hora)) == hora
  {
    EncodeDecode(dia, hora);
  }

  /** Round trip from the instant: an instant on a whole minute is recovered
      by encoding it and decoding the pair. */
  lemma DecodeEncode(t: Instant)
    requires UtcSeconds(t) == 0 && UtcMilliseconds(t) == 0
    ensures Decode(EncodeDay(t), EncodeHour(t)) == t
  {
    var t' := Decode(EncodeDay(t), EncodeHour(t));
    InstantFromFields(t);
    InstantFromFields(t');
  }

  /** The start and end computed by `addEventToCalendar`: the decode written
      with `setUTCHours(hours)` then `setUTCMinutes(minutes)`, and an end one
      hour later. */
  method EventWindow(dia: string, hora: string) returns (start: Instant, end: int)
    requires ValidDia(dia) && ValidHora(hora)
    ensures start == Decode(dia, hora)
    ensures end - start == 60 * MS_PER_MINUTE
  {
    var parts := Split(hora, ':');
    var hours, minutes := NumberValue(parts[0]), NumberValue(parts[1]);
    start := AtUtcMidnight(dia);
    start := SetUTCHours(start, hours);
    start := SetUTCMinutes(start, minutes);
    end := start + 60 * 60 * 1000;
    InstantFromFields(start);
    InstantFromFields(Decode(dia, hora));
  }

  /** The one-hour window as seen in UTC fields: before 23:00 the end is on
      the same day one hour later; from 23:00 it is at 00:MM of the next day,
      across a month or year end when `dia` is the last day of one. */
  lemma EventEndFields(dia: string, hora: string)
    requires ValidDia(dia) && ValidHora(hora)
    ensures var w := ParseHora(hora);
      var end := Decode(dia, hora) + MS_PER_HOUR;
      && UtcMinutes(end) == w.minutes
      && (w.hours < 23 ==> end < END_TIME && UtcDate(end) == ParseDia(dia) && UtcHours(end) == w.hours + 1)
      && (w.hours == 23 ==> UtcHours(end) == 0)
      && (w.hours == 23 && end < END_TIME ==> UtcDate(end) == NextDay(ParseDia(dia)))
  {
    AddHour(Decode(dia, hora));
  }
}
