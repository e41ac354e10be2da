/** Contract numbers: the one the usecase assigns from the clock, and the NIK-prefixed builder
    kept beside the usecase's tests. The clock is an argument throughout. */
module ContractNumber {
  import opened Wrappers
  import opened Model
  import opened Decimal

  /** The contract number the usecase assigns: "CON-" and the clock's Unix time in nanoseconds. */
  function FromUnixNano(nanos: int): (r: string)
    ensures |r| > 4 && r[..4] == "CON-"
  {
    "CON-" + FormatInt(nanos)
  }

  /** The clock reading can be read back out of the contract number. */
  lemma FromUnixNanoRoundTrip(nanos: int)
    ensures DecodeUnixNano(FromUnixNano(nanos)) == Some(nanos)
  {
    assert FromUnixNano(nanos)[4..] == FormatInt(nanos);
    ParseFormatInt(nanos);
  }

  /** Reads the clock reading back out of a "CON-" contract number. */
  function DecodeUnixNano(s: string): Option<int> {
    if |s| >= 4 && s[..4] == "CON-" then ParseInt(s[4..]) else None
  }

  /** Two calls get the same contract number exactly when the clock read the same nanosecond. */
  lemma FromUnixNanoInjective(a: int, b: int)
    ensures FromUnixNano(a) == FromUnixNano(b) <==> a == b
  {
    FromUnixNanoRoundTrip(a);
    FromUnixNanoRoundTrip(b);
  }

  /** The first eight characters of the NIK, or the whole NIK when it is not longer than that. */
  function NikPrefix(nik: string): (p: string)
    ensures |p| <= 8 && p <= nik
    ensures |nik| <= 8 ==> p == nik
    ensures |nik| > 8 ==> p == nik[..8]
  {
    if |nik| > 8 then nik[..8] else nik
  }

  /** The year as the layout "2006" writes it: at least four digits, a minus sign before negative years. */
  function FormatYear(year: int): (s: string)
    ensures 0 <= year < 10000 ==> |s| == 4 && AllDigits(s) && Value(s) == year
  {
    if year < 0 then "-" + PadLeft(-year, 4) else PadLeft(year, 4)
  }

  /** The layout "02012006150405": day, month, year, hour, minute, second. */
  function Timestamp(t: Instant): (s: string)
    requires t.Valid()
    ensures 0 <= t.year < 10000 ==> |s| == 14 && AllDigits(s)
  {
    PadLeft(t.day, 2) + PadLeft(t.month, 2) + FormatYear(t.year)
      + PadLeft(t.hour, 2) + PadLeft(t.minute, 2) + PadLeft(t.second, 2)
  }

  /** NIK prefix, "-", timestamp, "-", and the nanosecond field modulo 10000 in four digits. */
  function Generate(nik: string, now: Instant): (r: string)
    requires now.Valid()
    ensures |r| >= |NikPrefix(nik)| + 20
    ensures 0 <= now.year < 10000 ==> |r| == |NikPrefix(nik)| + 20
    ensures r[..|NikPrefix(nik)| + 1] == NikPrefix(nik) + "-"
  {
    var p := NikPrefix(nik);
    var r := p + "-" + Timestamp(now) + "-" + PadLeft(now.nanosecond % 10000, 4);
    assert r[..|p| + 1] == p + "-";
    r
  }

  /** The fields a generated contract number carries. */
  datatype Parts = Parts(prefix: string, day: nat, month: nat, year: nat, hour: nat, minute: nat, second: nat, suffix: nat)

  /** Splits a contract number from its end: the last twenty characters are "-", fourteen
      timestamp digits, "-" and four suffix digits; everything before them is the prefix. */
  function Parse(s: string): Option<Parts> {
    var n := |s|;
    if n >= 20 && s[n - 20] == '-' && s[n - 5] == '-' && AllDigits(s[n - 19..n - 5]) && AllDigits(s[n - 4..]) then
      var ts := s[n - 19..n - 5];
      Some(Parts(s[..n - 20], Value(ts[0..2]), Value(ts[2..4]), Value(ts[4..8]),
                 Value(ts[8..10]), Value(ts[10..12]), Value(ts[12..14]), Value(s[n - 4..])))
    else None
  }

  /** The timestamp's digit groups read back as the instant's fields. */
  lemma TimestampFields(t: Instant)
    requires t.Valid() && 0 <= t.year < 10000
    ensures var ts := Timestamp(t);
      && Value(ts[0..2]) == t.day && Value(ts[2..4]) == t.month && Value(ts[4..8]) == t.year
      && Value(ts[8..10]) == t.hour && Value(ts[10..12]) == t.minute && Value(ts[12..14]) == t.second
  {
    var d, mo, y := PadLeft(t.day, 2), PadLeft(t.month, 2), FormatYear(t.year);
    var h, mi, se := PadLeft(t.hour, 2), PadLeft(t.minute, 2), PadLeft(t.second, 2);
    var ts := Timestamp(t);
    assert ts == d + mo + y + h + mi + se;
    assert ts[0..2] == d;
    assert ts[2..4] == mo;
    assert ts[4..8] == y;
    assert ts[8..10] == h;
    assert ts[10..12] == mi;
    assert ts[12..14] == se;
  }

  /** Parsing a generated contract number recovers the NIK prefix, the clock's calendar
      fields and the suffix, which is the nanosecond field modulo 10000. */
  lemma ParseGenerate(nik: string, now: Instant)
    requires now.Valid() && 0 <= now.year < 10000
    ensures Parse(Generate(nik, now))
         == Some(Parts(NikPrefix(nik), now.day, now.month, now.year, now.hour, now.minute, now.second, now.nanosecond % 10000))
  {
    var p := NikPrefix(nik);
    var ts := Timestamp(now);
    var suffix := PadLeft(now.nanosecond % 10000, 4);
    var s := Generate(nik, now);
    assert s == p + "-" + ts + "-" + suffix;
    var n := |s|;
    assert s[n - 20] == '-';
    assert s[n - 5] == '-';
    assert s[n - 19..n - 5] == ts;
    assert s[n - 4..] == suffix;
    assert s[..n - 20] == p;
    TimestampFields(now);
  }

  /** Whatever the instant, the contract number ends in "-" and four digits that read as the
      nanosecond field modulo 10000, so the suffix lies in 0..9999; for a four-digit year the
      parser recovers that suffix. */
  lemma SuffixInRange(nik: string, now: Instant)
    requires now.Valid()
    ensures var r := Generate(nik, now);
      && |r| >= 5 && r[|r| - 5] == '-'
      && r[|r| - 4..] == PadLeft(now.nanosecond % 10000, 4)
      && AllDigits(r[|r| - 4..])
      && Value(r[|r| - 4..]) == now.nanosecond % 10000 <= 9999
    ensures 0 <= now.year < 10000 ==> Parse(Generate(nik, now)).Some?
    ensures 0 <= now.year < 10000 ==> 0 <= Parse(Generate(nik, now)).value.suffix <= 9999
  {
    var suffix := PadLeft(now.nanosecond % 10000, 4);
    var head := NikPrefix(nik) + "-" + Timestamp(now);
    var r := Generate(nik, now);
    assert r == head + "-" + suffix;
    assert |suffix| == 4;
    assert r[|r| - 4..] == suffix;
    assert r[|r| - 5] == '-';
    if 0 <= now.year < 10000 {
      ParseGenerate(nik, now);
    }
  }

  /** The two NIKs of the builder's table-driven test, at midnight on 1 January 2023. */
  lemma GenerateTestTable()
    ensures Generate("1234567890123456", Instant(2023, 1, 1, 0, 0, 0, 0))[..9] == "12345678-"
    ensures Generate("1234", Instant(2023, 1, 1, 0, 0, 0, 0))[..5] == "1234-"
  {
    assert NikPrefix("1234567890123456") == "12345678";
    assert NikPrefix("1234") == "1234";
  }
}
