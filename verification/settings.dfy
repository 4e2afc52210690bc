/** Camera settings: the enum tables with their wire codes, the calendar
    rules a stored date must obey, and the 48-byte settings block
    (`CamSettings::to_bytes` / `CamSettings::from_bytes`). */
module Settings {
  import opened Bytes
  import opened Errors

  // ---------------------------------------------------------------------
  // Enum tables. Each `Code` is the `#[repr(i8)]` discriminant; each
  // `FromCode` is `try_from(i8)`, which accepts exactly the listed codes.
  // ---------------------------------------------------------------------

  datatype LiveViewResolution = LiveViewLow | LiveViewHigh

  function LiveViewCode(r: LiveViewResolution): (c: I8)
    ensures LiveViewFromCode(c) == Some(r)
  {
    match r
    case LiveViewLow => 10
    case LiveViewHigh => 9
  }

  function LiveViewFromCode(c: I8): (r: Option<LiveViewResolution>)
    ensures r.Some? <==> c in {9, 10}
  {
    if c == 10 then Some(LiveViewLow) else if c == 9 then Some(LiveViewHigh) else None
  }

  datatype PictureOrientation = Deg0 | Deg90 | Deg180 | Deg270

  function OrientationCode(o: PictureOrientation): (c: I8)
    ensures OrientationFromCode(c) == Some(o)
  {
    match o
    case Deg0 => 2
    case Deg90 => 3
    case Deg180 => 0
    case Deg270 => 1
  }

  function OrientationFromCode(c: I8): (r: Option<PictureOrientation>)
    ensures r.Some? <==> 0 <= c <= 3
  {
    if c == 2 then Some(Deg0) else if c == 3 then Some(Deg90)
    else if c == 0 then Some(Deg180) else if c == 1 then Some(Deg270) else None
  }

  datatype PhotoResolution = PhotoHigh | PhotoLow

  function PhotoCode(r: PhotoResolution): (c: I8)
    ensures PhotoFromCode(c) == Some(r)
  {
    match r
    case PhotoHigh => 3
    case PhotoLow => 4
  }

  function PhotoFromCode(c: I8): (r: Option<PhotoResolution>)
    ensures r.Some? <==> c in {3, 4}
  {
    if c == 3 then Some(PhotoHigh) else if c == 4 then Some(PhotoLow) else None
  }

  datatype VideoResolution = VideoHigh | VideoLow | VideoUnknown

  function VideoCode(r: VideoResolution): (c: I8)
    ensures VideoFromCode(c) == Some(r)
  {
    match r
    case VideoHigh => 9
    case VideoLow => 10
    case VideoUnknown => 11
  }

  function VideoFromCode(c: I8): (r: Option<VideoResolution>)
    ensures r.Some? <==> 9 <= c <= 11
  {
    if c == 9 then Some(VideoHigh) else if c == 10 then Some(VideoLow)
    else if c == 11 then Some(VideoUnknown) else None
  }

  /** Exposure compensation: `None` = 0, then -2 EV .. +2 EV in thirds as 1 .. 12. */
  datatype EvValue = EvNone | Neg2 | Neg1_67 | Neg1_33 | Neg1 | Neg0_67 | Neg0_33
                   | Pos0_33 | Pos0_67 | Pos1 | Pos1_33 | Pos1_67 | Pos2

  function EvCode(e: EvValue): (c: I8)
    ensures 0 <= c <= 12 && EvFromCode(c) == Some(e)
  {
    match e
    case EvNone => 0  case Neg2 => 1     case Neg1_67 => 2  case Neg1_33 => 3
    case Neg1 => 4    case Neg0_67 => 5  case Neg0_33 => 6  case Pos0_33 => 7
    case Pos0_67 => 8 case Pos1 => 9     case Pos1_33 => 10 case Pos1_67 => 11
    case Pos2 => 12
  }

  function EvFromCode(c: I8): (r: Option<EvValue>)
    ensures r.Some? <==> 0 <= c <= 12
  {
    if !(0 <= c <= 12) then None
    else Some([EvNone, Neg2, Neg1_67, Neg1_33, Neg1, Neg0_67, Neg0_33,
               Pos0_33, Pos0_67, Pos1, Pos1_33, Pos1_67, Pos2][c])
  }

  datatype WhiteBalance = WbAuto | Sunny | Cloudy | Tungsten | Fluorescent

  function WbCode(w: WhiteBalance): (c: I8)
    ensures WbFromCode(c) == Some(w)
  {
    match w
    case WbAuto => 0 case Sunny => 1 case Cloudy => 2 case Tungsten => 3 case Fluorescent => 4
  }

  function WbFromCode(c: I8): (r: Option<WhiteBalance>)
    ensures r.Some? <==> 0 <= c <= 4
  {
    if !(0 <= c <= 4) then None
    else Some([WbAuto, Sunny, Cloudy, Tungsten, Fluorescent][c])
  }

  datatype FilterValue = FilterNone | Faded | Nimbus | Tea | Twilight | Sapphire
                       | Vintage | Greyscale | Newspaper

  function FilterCode(f: FilterValue): (c: I8)
    ensures FilterFromCode(c) == Some(f)
  {
    match f
    case FilterNone => 0 case Faded => 1 case Nimbus => 2 case Tea => 3 case Twilight => 4
    case Sapphire => 5 case Vintage => 6 case Greyscale => 7 case Newspaper => 8
  }

  function FilterFromCode(c: I8): (r: Option<FilterValue>)
    ensures r.Some? <==> 0 <= c <= 8
  {
    if !(0 <= c <= 8) then None
    else Some([FilterNone, Faded, Nimbus, Tea, Twilight, Sapphire, Vintage, Greyscale, Newspaper][c])
  }

  datatype LogoType = HuaweiLogo | LogoNone

  function LogoCode(l: LogoType): (c: I8)
    ensures LogoFromCode(c) == Some(l)
  {
    match l
    case HuaweiLogo => 1
    case LogoNone => 0
  }

  function LogoFromCode(c: I8): (r: Option<LogoType>)
    ensures r.Some? <==> c in {0, 1}
  {
    if c == 1 then Some(HuaweiLogo) else if c == 0 then Some(LogoNone) else None
  }

  datatype Bitrate = Unset | Bitrate0 | Bitrate1 | Bitrate2

  function BitrateCode(b: Bitrate): (c: I8)
    ensures BitrateFromCode(c) == Some(b)
  {
    match b
    case Unset => 0 case Bitrate0 => 4 case Bitrate1 => 8 case Bitrate2 => 16
  }

  function BitrateFromCode(c: I8): (r: Option<Bitrate>)
    ensures r.Some? <==> c in {0, 4, 8, 16}
  {
    if c == 0 then Some(Unset) else if c == 4 then Some(Bitrate0)
    else if c == 8 then Some(Bitrate1) else if c == 16 then Some(Bitrate2) else None
  }

  /** The setting selector of the single-setting commands. */
  datatype SettingType = PhotoResolutionSetting | VideoResolutionSetting | EvBalanceSetting
                       | WhiteBalanceSetting | FilterSetting | ShutterTimeSetting
                       | LogoTypeSetting | BitrateSetting

  function SettingCode(s: SettingType): (c: I8)
    ensures SettingFromCode(c) == Some(s)
  {
    match s
    case PhotoResolutionSetting => 3 case VideoResolutionSetting => 4
    case EvBalanceSetting => 7       case WhiteBalanceSetting => 8
    case FilterSetting => 9          case ShutterTimeSetting => 16
    case LogoTypeSetting => 17       case BitrateSetting => 12
  }

  function SettingFromCode(c: I8): (r: Option<SettingType>)
    ensures r.Some? <==> c in {3, 4, 7, 8, 9, 12, 16, 17}
  {
    if c == 3 then Some(PhotoResolutionSetting) else if c == 4 then Some(VideoResolutionSetting)
    else if c == 7 then Some(EvBalanceSetting) else if c == 8 then Some(WhiteBalanceSetting)
    else if c == 9 then Some(FilterSetting) else if c == 16 then Some(ShutterTimeSetting)
    else if c == 17 then Some(LogoTypeSetting) else if c == 12 then Some(BitrateSetting)
    else None
  }

  /** Distinct enum values have distinct codes: every table is injective,
      because decoding a code gives back the value it came from. */
  lemma CodesInjective()
    ensures forall a, b :: LiveViewCode(a) == LiveViewCode(b) ==> a == b
    ensures forall a, b :: OrientationCode(a) == OrientationCode(b) ==> a == b
    ensures forall a, b :: PhotoCode(a) == PhotoCode(b) ==> a == b
    ensures forall a, b :: VideoCode(a) == VideoCode(b) ==> a == b
    ensures forall a, b :: EvCode(a) == EvCode(b) ==> a == b
    ensures forall a, b :: WbCode(a) == WbCode(b) ==> a == b
    ensures forall a, b :: FilterCode(a) == FilterCode(b) ==> a == b
    ensures forall a, b :: LogoCode(a) == LogoCode(b) ==> a == b
    ensures forall a, b :: BitrateCode(a) == BitrateCode(b) ==> a == b
    ensures forall a, b :: SettingCode(a) == SettingCode(b) ==> a == b
  {
    forall a, b | LiveViewCode(a) == LiveViewCode(b) ensures a == b {
      assert Some(a) == LiveViewFromCode(LiveViewCode(a)) == LiveViewFromCode(LiveViewCode(b)) == Some(b);
    }
    forall a, b | OrientationCode(a) == OrientationCode(b) ensures a == b {
      assert Some(a) == OrientationFromCode(OrientationCode(a)) == OrientationFromCode(OrientationCode(b)) == Some(b);
    }
    forall a, b | PhotoCode(a) == PhotoCode(b) ensures a == b {
      assert Some(a) == PhotoFromCode(PhotoCode(a)) == PhotoFromCode(PhotoCode(b)) == Some(b);
    }
    forall a, b | VideoCode(a) == VideoCode(b) ensures a == b {
      assert Some(a) == VideoFromCode(VideoCode(a)) == VideoFromCode(VideoCode(b)) == Some(b);
    }
    forall a, b | EvCode(a) == EvCode(b) ensures a == b {
      assert Some(a) == EvFromCode(EvCode(a)) == EvFromCode(EvCode(b)) == Some(b);
    }
    forall a, b | WbCode(a) == WbCode(b) ensures a == b {
      assert Some(a) == WbFromCode(WbCode(a)) == WbFromCode(WbCode(b)) == Some(b);
    }
    forall a, b | FilterCode(a) == FilterCode(b) ensures a == b {
      assert Some(a) == FilterFromCode(FilterCode(a)) == FilterFromCode(FilterCode(b)) == Some(b);
    }
    forall a, b | LogoCode(a) == LogoCode(b) ensures a == b {
      assert Some(a) == LogoFromCode(LogoCode(a)) == LogoFromCode(LogoCode(b)) == Some(b);
    }
    forall a, b | BitrateCode(a) == BitrateCode(b) ensures a == b {
      assert Some(a) == BitrateFromCode(BitrateCode(a)) == BitrateFromCode(BitrateCode(b)) == Some(b);
    }
    forall a, b | SettingCode(a) == SettingCode(b) ensures a == b {
      assert Some(a) == SettingFromCode(SettingCode(a)) == SettingFromCode(SettingCode(b)) == Some(b);
    }
  }

  // ---------------------------------------------------------------------
  // The `Resolution` trait: pixel dimensions of the resolution settings.
  // ---------------------------------------------------------------------

  function LiveViewSize(r: LiveViewResolution): (wh: (nat, nat))
  {
    match r
    case LiveViewHigh => (1920, 960)
    case LiveViewLow => (1280, 640)
  }

  function PhotoSize(r: PhotoResolution): (wh: (nat, nat))
  {
    match r
    case PhotoHigh => (5376, 2688)
    case PhotoLow => (3840, 1920)
  }

  function VideoSize(r: VideoResolution): (wh: (nat, nat))
  {
    match r
    case VideoHigh => (1920, 960)
    case VideoLow => (1280, 640)
    case VideoUnknown => (1280, 640)
  }

  // ---------------------------------------------------------------------
  // Calendar: the values a `chrono::NaiveDateTime` can hold.
  // ---------------------------------------------------------------------

  /** Proleptic Gregorian leap years (year 0 is a leap year). */
  predicate IsLeapYear(year: int)
  {
    year % 4 == 0 && (year % 100 != 0 || year % 400 == 0)
  }

  function DaysInMonth(year: int, month: nat): (n: nat)
    requires 1 <= month <= 12
    ensures 28 <= n <= 31
  {
    if month == 2 then (if IsLeapYear(year) then 29 else 28)
    else if month in {4, 6, 9, 11} then 30
    else 31
  }

  /** `NaiveDate::from_ymd_opt` succeeds exactly for these triples. */
  predicate ValidDate(year: int, month: nat, day: nat)
  {
    && -262143 <= year <= 262142
    && 1 <= month <= 12
    && 1 <= day <= DaysInMonth(year, month)
  }

  /** `NaiveTime::from_hms_nano_opt` succeeds exactly for these values: a
      nanosecond count of a second or more marks a leap second, which may
      only follow second 59. */
  predicate ValidTime(hour: nat, minute: nat, second: nat, nano: nat)
  {
    && hour < 24 && minute < 60 && second < 60
    && nano < 2_000_000_000
    && (nano >= 1_000_000_000 ==> second == 59)
  }

  datatype DateTime = DateTime(year: int, month: nat, day: nat,
                               hour: nat, minute: nat, second: nat, nano: nat)

  predicate ValidDateTime(d: DateTime)
  {
    ValidDate(d.year, d.month, d.day) && ValidTime(d.hour, d.minute, d.second, d.nano)
  }

  /** A `chrono::NaiveDateTime`. */
  type NaiveDateTime = d: DateTime | ValidDateTime(d) witness DateTime(1970, 1, 1, 0, 0, 0, 0)

  // ---------------------------------------------------------------------
  // The 48-byte settings block.
  // ---------------------------------------------------------------------

  datatype CamSettings = CamSettings(
    photoResolution: PhotoResolution,   // byte 2
    videoResolution: VideoResolution,   // byte 3
    evb: EvValue,                       // byte 6
    wb: WhiteBalance,                   // byte 7
    dateTime: NaiveDateTime,            // bytes 10-19
    filter: FilterValue,                // byte 32
    bitrate: Bitrate,                   // byte 35
    logoType: LogoType)                 // byte 39

  const SETTINGS_BLOCK_SIZE: nat := 48
  const SETTINGS_MIN_SIZE: nat := 40

  /** The offsets of the block that carry a field; byte 17 and everything
      from 20 to 31, 33, 34, 36 to 38 and 40 to 47 are written as zero and
      never read. */
  const FIELD_OFFSETS: set<nat> := {2, 3, 6, 7, 10, 11, 12, 13, 14, 15, 16, 18, 19, 32, 35, 39}

  /** Whole milliseconds of a nanosecond count (`nanosecond() / 1_000_000`). */
  function Millis(nano: nat): nat
  {
    nano / 1_000_000
  }

  /** `CamSettings::to_bytes`: a zeroed 48-byte block with each field at its
      offset. The year is written as its two low bytes (`year as u8`,
      `(year >> 8) as u8`) and the milliseconds little-endian. */
  function ToBytes(s: CamSettings): (r: Bytes)
    ensures |r| == SETTINGS_BLOCK_SIZE
    ensures r[2] == AsU8(PhotoCode(s.photoResolution)) && r[3] == AsU8(VideoCode(s.videoResolution))
    ensures r[6] == AsU8(EvCode(s.evb)) && r[7] == AsU8(WbCode(s.wb))
    ensures r[10] == s.dateTime.year % 0x100 && r[11] == (s.dateTime.year / 0x100) % 0x100
    ensures r[12] == s.dateTime.month && r[13] == s.dateTime.day
    ensures r[14] == s.dateTime.hour && r[15] == s.dateTime.minute && r[16] == s.dateTime.second
    ensures r[18..20] == LeU16(Millis(s.dateTime.nano))
    ensures r[32] == AsU8(FilterCode(s.filter)) && r[35] == AsU8(BitrateCode(s.bitrate))
    ensures r[39] == AsU8(LogoCode(s.logoType))
    ensures forall i :: 0 <= i < SETTINGS_BLOCK_SIZE && i !in FIELD_OFFSETS ==> r[i] == 0
  {
    var d := s.dateTime;
    var ms := LeU16(Millis(d.nano));
    Zeros(SETTINGS_BLOCK_SIZE)
      [2 := AsU8(PhotoCode(s.photoResolution))]
      [3 := AsU8(VideoCode(s.videoResolution))]
      [6 := AsU8(EvCode(s.evb))]
      [7 := AsU8(WbCode(s.wb))]
      [10 := d.year % 0x100]
      [11 := (d.year / 0x100) % 0x100]
      [12 := d.month]
      [13 := d.day]
      [14 := d.hour]
      [15 := d.minute]
      [16 := d.second]
      [18 := ms[0]]
      [19 := ms[1]]
      [32 := AsU8(FilterCode(s.filter))]
      [35 := AsU8(BitrateCode(s.bitrate))]
      [39 := AsU8(LogoCode(s.logoType))]
  }

  /** `CamSettings::from_bytes`: `None` for a block shorter than 40 bytes,
      for a byte that is not a code of its enum, or for a date or time chrono
      rejects. The year and the milliseconds are little-endian `u16`s. */
  function FromBytes(data: Bytes): (r: Option<CamSettings>)
    ensures |data| < SETTINGS_MIN_SIZE ==> r.None?
    ensures r.Some? ==> r.value.dateTime.year == FromLeU16(data[10..12]) && r.value.dateTime.month == data[12]
    ensures r.Some? ==> r.value.dateTime.nano == FromLeU16(data[18..20]) * 1_000_000
  {
    if |data| < SETTINGS_MIN_SIZE then None
    else
      var photo := PhotoFromCode(AsI8(data[2]));
      var video := VideoFromCode(AsI8(data[3]));
      var evb := EvFromCode(AsI8(data[6]));
      var wb := WbFromCode(AsI8(data[7]));
      var year := FromLeU16(data[10..12]);
      var ms := FromLeU16(data[18..20]);
      var filter := FilterFromCode(AsI8(data[32]));
      var bitrate := BitrateFromCode(AsI8(data[35]));
      var logo := LogoFromCode(AsI8(data[39]));
      var d := DateTime(year, data[12], data[13], data[14], data[15], data[16], ms * 1_000_000);
      if photo.None? || video.None? || evb.None? || wb.None? || !ValidDateTime(d)
        || filter.None? || bitrate.None? || logo.None?
      then None
      else
        Some(CamSettings(photo.value, video.value, evb.value, wb.value, d,
                         filter.value, bitrate.value, logo.value))
  }

  /** The enum bytes of a decoded block, written back. */
  lemma ToBytesFromBytesCodes(data: Bytes)
    requires FromBytes(data).Some?
    ensures var b := ToBytes(FromBytes(data).value);
            && b[2] == data[2] && b[3] == data[3] && b[6] == data[6] && b[7] == data[7]
            && b[32] == data[32] && b[35] == data[35] && b[39] == data[39]
  {
  }

  /** The date and time bytes of a decoded block, written back. */
  lemma ToBytesFromBytesDate(data: Bytes)
    requires FromBytes(data).Some?
    ensures var b := ToBytes(FromBytes(data).value);
            && b[10] == data[10] && b[11] == data[11] && b[12] == data[12] && b[13] == data[13]
            && b[14] == data[14] && b[15] == data[15] && b[16] == data[16]
            && b[18] == data[18] && b[19] == data[19]
  {
    var s := FromBytes(data).value;
    var b := ToBytes(s);
    var d := s.dateTime;
    LeU16OfFromLeU16(data[10..12]);
    LeU16OfFromLeU16(data[18..20]);
    assert Millis(d.nano) == FromLeU16(data[18..20]);
    assert b[18..20] == data[18..20];
    assert b[18] == data[18] && b[19] == data[19];
  }

  /** Writing back a decoded block reproduces every field byte: decoding
      loses nothing the block carries. */
  lemma ToBytesFromBytes(data: Bytes)
    requires FromBytes(data).Some?
    ensures var b := ToBytes(FromBytes(data).value);
            forall i :: i in FIELD_OFFSETS ==> b[i] == data[i]
  {
    ToBytesFromBytesCodes(data);
    ToBytesFromBytesDate(data);
  }

  /** The stored date and time can be written to the block without loss:
      the year fits an unsigned 16-bit field and the time has no sub-
      millisecond part. */
  predicate Representable(s: CamSettings)
  {
    0 <= s.dateTime.year < 0x1_0000 && s.dateTime.nano % 1_000_000 == 0
  }

  /** Reading back a written block gives the same settings. */
  lemma FromBytesToBytes(s: CamSettings)
    requires Representable(s)
    ensures FromBytes(ToBytes(s)) == Some(s)
  {
    var b := ToBytes(s);
    var d := s.dateTime;
    assert b[10..12] == [d.year % 0x100, (d.year / 0x100) % 0x100];
    assert FromLeU16(b[10..12]) == d.year;
    assert FromLeU16(b[18..20]) == Millis(d.nano);
    assert Millis(d.nano) * 1_000_000 == d.nano;
    assert AsI8(b[2]) == PhotoCode(s.photoResolution);
    assert AsI8(b[3]) == VideoCode(s.videoResolution);
    assert AsI8(b[6]) == EvCode(s.evb);
    assert AsI8(b[7]) == WbCode(s.wb);
    assert AsI8(b[32]) == FilterCode(s.filter);
    assert AsI8(b[35]) == BitrateCode(s.bitrate);
    assert AsI8(b[39]) == LogoCode(s.logoType);
  }

  /** A year outside 0 ..= 65535 does not survive the round trip: only its
      two low bytes are written. */
  lemma YearTruncated(s: CamSettings)
    requires s.dateTime.nano % 1_000_000 == 0
    requires FromBytes(ToBytes(s)).Some?
    ensures FromBytes(ToBytes(s)).value.dateTime.year == s.dateTime.year % 0x1_0000
  {
    var b := ToBytes(s);
    var y := s.dateTime.year;
    assert b[10..12][0] == y % 0x100 && b[10..12][1] == (y / 0x100) % 0x100;
    LowBytes16(y);
  }

  /** Decoding reads only the field offsets: two blocks that agree there
      decode alike. */
  lemma FromBytesLocal(a: Bytes, b: Bytes)
    requires |a| >= SETTINGS_MIN_SIZE && |b| >= SETTINGS_MIN_SIZE
    requires forall i :: i in FIELD_OFFSETS ==> a[i] == b[i]
    ensures FromBytes(a) == FromBytes(b)
  {
    assert a[10..12] == b[10..12];
    assert a[18..20] == b[18..20];
  }

  /** A block decodes exactly when every enum byte is a code of its table and
      the date and time are ones chrono accepts. */
  lemma FromBytesAccepts(data: Bytes)
    requires |data| >= SETTINGS_MIN_SIZE
    ensures FromBytes(data).Some? <==>
              && AsI8(data[2]) in {3, 4} && 9 <= AsI8(data[3]) <= 11
              && 0 <= AsI8(data[6]) <= 12 && 0 <= AsI8(data[7]) <= 4
              && ValidDate(FromLeU16(data[10..12]), data[12], data[13])
              && ValidTime(data[14], data[15], data[16], FromLeU16(data[18..20]) * 1_000_000)
              && 0 <= AsI8(data[32]) <= 8 && AsI8(data[35]) in {0, 4, 8, 16}
              && AsI8(data[39]) in {0, 1}
  {
  }

  /** Milliseconds at or past 1000 are a leap second and are accepted only at
      second 59; 2000 or more is always rejected. */
  lemma LeapMillis(data: Bytes)
    requires |data| >= SETTINGS_MIN_SIZE && FromBytes(data).Some?
    ensures FromLeU16(data[18..20]) < 2000
    ensures FromLeU16(data[18..20]) >= 1000 ==> data[16] == 59
  {
    FromBytesAccepts(data);
  }

  /** February 29 decodes only in a leap year. */
  lemma LeapDay(data: Bytes)
    requires |data| >= SETTINGS_MIN_SIZE && data[12] == 2 && data[13] == 29
    requires FromBytes(data).Some?
    ensures IsLeapYear(FromLeU16(data[10..12]))
  {
    FromBytesAccepts(data);
  }
}
