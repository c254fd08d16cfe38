/** The snapshot file name of `store_monitors`: the local time rendered by
    chrono's `%-I_%M%P` items (12-hour clock hour without padding, underscore,
    two-digit minute, lowercase `am`/`pm`), every `:` replaced by `_`, then
    `"_"`, the suffix and `".json"`. The local time is an input. A parser
    for the names is their inverse; it shows that no two times of day share
    a name. */
module SnapshotName {
  import opened Wrappers

  /** What `Timelike::hour` and `Timelike::minute` can return. */
  type Hour = h: nat | h < 24
  type Minute = m: nat | m < 60

  const Suffix: string := "_monitors"
  const NameTail: string := "__monitors.json"
  /** The format string the caller passes; the function ignores it. */
  const IgnoredFormat: string := "%-I:%M%P"

  function DigitChar(d: nat): (c: char)
    requires d < 10
    ensures '0' <= c <= '9'
  {
    (48 + d) as char
  }

  predicate IsDigit(c: char) {
    '0' <= c <= '9'
  }

  function DigitValue(c: char): (d: nat)
    requires IsDigit(c)
    ensures d < 10 && DigitChar(d) == c
  {
    c as int - 48
  }

  /** `%-I`: the hour on the 12-hour clock. */
  function Hour12(h: Hour): (r: nat)
    ensures 1 <= r <= 12
    ensures r % 12 == h % 12
  {
    if h % 12 == 0 then 12 else h % 12
  }

  /** `%P`. */
  function Meridiem(h: Hour): (s: string)
    ensures s == "am" || s == "pm"
    ensures (s == "pm") == (h >= 12)
  {
    if h < 12 then "am" else "pm"
  }

  /** A number from 1 to 12 in decimal, without padding. */
  function Unpadded(n: nat): (s: string)
    requires 1 <= n <= 12
    ensures (n < 10 ==> |s| == 1) && (n >= 10 ==> |s| == 2)
    ensures forall i :: 0 <= i < |s| ==> IsDigit(s[i])
    ensures s[0] != '0'
    ensures n < 10 ==> DigitValue(s[0]) == n
    ensures n >= 10 ==> 10 * DigitValue(s[0]) + DigitValue(s[1]) == n
  {
    if n < 10 then [DigitChar(n)] else [DigitChar(n / 10), DigitChar(n % 10)]
  }

  /** `%M`: the minute as two digits, zero-padded. */
  function Padded(m: Minute): (s: string)
    ensures |s| == 2 && IsDigit(s[0]) && IsDigit(s[1])
    ensures 10 * DigitValue(s[0]) + DigitValue(s[1]) == m
  {
    [DigitChar(m / 10), DigitChar(m % 10)]
  }

  /** chrono's rendering of the items `%-I_%M%P` at hour `h` and minute `m`. */
  function FormatTime(h: Hour, m: Minute): (s: string)
    ensures 6 <= |s| <= 7
    ensures ':' !in s
  {
    Unpadded(Hour12(h)) + "_" + Padded(m) + Meridiem(h)
  }

  /** `str::replace(":", "_")`. */
  function ReplaceColons(s: string): (r: string)
    ensures |r| == |s|
    ensures forall i :: 0 <= i < |s| ==> r[i] == (if s[i] == ':' then '_' else s[i])
    ensures ':' !in r
  {
    if s == [] then []
    else [if s[0] == ':' then '_' else s[0]] + ReplaceColons(s[1..])
  }

  /** `format_time_with_suffix`: the rendered time with colons replaced, then
      `"_"`, the suffix, and the extension `".json"`. The `format` argument
      plays no part. The source's `items` parameter is fixed to the items of
      its one call site, `%-I_%M%P`, whose rendering has no `:`; so the
      replacement never changes anything here (`SnapshotFilenameShape`). */
  function FormatTimeWithSuffix(format: string, h: Hour, m: Minute, suffix: string): (name: string)
    ensures |name| == |FormatTime(h, m)| + 1 + |suffix| + 5
    ensures name[..|FormatTime(h, m)|] == ReplaceColons(FormatTime(h, m))
    ensures name[|FormatTime(h, m)|..] == "_" + suffix + ".json"
    ensures ':' !in suffix ==> ':' !in name
  {
    ReplaceColons(FormatTime(h, m)) + "_" + suffix + ".json"
  }

  /** The name `store_monitors` passes to `File::create`. */
  function SnapshotFilename(h: Hour, m: Minute): (name: string)
    ensures ':' !in name
    ensures |name| >= |NameTail| && name[|name| - |NameTail|..] == NameTail
  {
    var name := FormatTimeWithSuffix(IgnoredFormat, h, m, Suffix);
    assert "_" + Suffix + ".json" == NameTail;
    assert |name| - |NameTail| == |FormatTime(h, m)|;
    name
  }

  /** The rendering has no colon, so the replacement leaves it unchanged, and
      the file name is the rendering followed by `__monitors.json`. */
  lemma SnapshotFilenameShape(h: Hour, m: Minute)
    ensures SnapshotFilename(h, m) == FormatTime(h, m) + NameTail
  {
    var t := FormatTime(h, m);
    assert ReplaceColons(t) == t;
  }

  /** The result does not depend on the ignored format argument. */
  lemma FormatArgumentIgnored(f1: string, f2: string, h: Hour, m: Minute, suffix: string)
    ensures FormatTimeWithSuffix(f1, h, m, suffix) == FormatTimeWithSuffix(f2, h, m, suffix)
  {
  }

  /** Reads `%-I` back: one digit 1-9, or `10`, `11`, `12`. */
  function ParseHour12(s: string): (r: Option<nat>)
    ensures r.Some? ==> 1 <= r.value <= 12
  {
    if |s| == 1 && IsDigit(s[0]) && s[0] != '0' then Some(DigitValue(s[0]))
    else if |s| == 2 && s[0] == '1' && '0' <= s[1] <= '2' then Some(10 + DigitValue(s[1]))
    else None
  }

  /** The 24-hour clock hour of a 12-hour clock hour and its marker. */
  function To24(h12: nat, pm: bool): (h: Hour)
    requires 1 <= h12 <= 12
  {
    if h12 == 12 then (if pm then 12 else 0) else if pm then h12 + 12 else h12
  }

  /** Reads a rendering of `%-I_%M%P` back into an hour and a minute. */
  function ParseTime(t: string): (r: Option<(Hour, Minute)>)
  {
    if |t| < 6 || |t| > 7 then None
    else
      var n := |t|;
      var marker := t[n - 2..];
      if t[n - 5] != '_' || (marker != "am" && marker != "pm") || !IsDigit(t[n - 4]) || !IsDigit(t[n - 3]) then None
      else
        var minute := 10 * DigitValue(t[n - 4]) + DigitValue(t[n - 3]);
        match ParseHour12(t[..n - 5])
        case None => None
        case Some(h12) =>
          if minute < 60 then Some((To24(h12, marker == "pm"), minute)) else None
  }

  /** The time of day a snapshot file name was made from, if it is one. */
  function ParseSnapshotFilename(name: string): (r: Option<(Hour, Minute)>)
  {
    if |name| < |NameTail| || name[|name| - |NameTail|..] != NameTail then None
    else ParseTime(name[..|name| - |NameTail|])
  }

  lemma ParseUnpadded(n: nat)
    requires 1 <= n <= 12
    ensures ParseHour12(Unpadded(n)) == Some(n)
  {
  }

  lemma ParseTimeRoundTrip(h: Hour, m: Minute)
    ensures ParseTime(FormatTime(h, m)) == Some((h, m))
  {
    var t := FormatTime(h, m);
    var hour := Unpadded(Hour12(h));
    var n := |t|;
    assert t[..n - 5] == hour;
    assert t[n - 5] == '_';
    assert t[n - 4..n - 2] == Padded(m);
    assert t[n - 2..] == Meridiem(h);
    ParseUnpadded(Hour12(h));
  }

  /** Parsing a snapshot name gives back the hour and minute it was made from. */
  lemma ParseSnapshotFilenameRoundTrip(h: Hour, m: Minute)
    ensures ParseSnapshotFilename(SnapshotFilename(h, m)) == Some((h, m))
  {
    SnapshotFilenameShape(h, m);
    var t := FormatTime(h, m);
    var name := t + NameTail;
    assert name[..|name| - |NameTail|] == t;
    assert name[|name| - |NameTail|..] == NameTail;
    ParseTimeRoundTrip(h, m);
  }

  lemma ParseHour12Sound(s: string)
    requires ParseHour12(s).Some?
    ensures Unpadded(ParseHour12(s).value) == s
  {
  }

  lemma ParseTimeSound(t: string)
    requires ParseTime(t).Some?
    ensures t == FormatTime(ParseTime(t).value.0, ParseTime(t).value.1)
  {
    var n := |t|;
    var marker := t[n - 2..];
    var h12 := ParseHour12(t[..n - 5]).value;
    var h := To24(h12, marker == "pm");
    var m := 10 * DigitValue(t[n - 4]) + DigitValue(t[n - 3]);
    assert ParseTime(t).value == (h, m);
    ParseHour12Sound(t[..n - 5]);
    assert Hour12(h) == h12;
    assert Meridiem(h) == marker;
    assert Padded(m) == t[n - 4..n - 2];
    assert t == t[..n - 5] + "_" + t[n - 4..n - 2] + marker;
  }

  /** Conversely, whatever the parser accepts is exactly the snapshot name of
      the time it returns. */
  lemma ParseSnapshotFilenameSound(name: string)
    requires ParseSnapshotFilename(name).Some?
    ensures name == SnapshotFilename(ParseSnapshotFilename(name).value.0, ParseSnapshotFilename(name).value.1)
  {
    var t := name[..|name| - |NameTail|];
    ParseTimeSound(t);
    var hm := ParseTime(t).value;
    assert name == t + name[|name| - |NameTail|..];
    SnapshotFilenameShape(hm.0, hm.1);
  }

  /** Distinct times of day (hour and minute) give distinct file names. This
      says nothing about a run: the name comes from its own clock reading, so
      two passes whose readings fall in the same hour and minute, or a
      restarted program, or a repeated local hour, reuse a name. */
  lemma SnapshotFilenameInjective(h1: Hour, m1: Minute, h2: Hour, m2: Minute)
    requires SnapshotFilename(h1, m1) == SnapshotFilename(h2, m2)
    ensures h1 == h2 && m1 == m2
  {
    ParseSnapshotFilenameRoundTrip(h1, m1);
    ParseSnapshotFilenameRoundTrip(h2, m2);
  }
}
