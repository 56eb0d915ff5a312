/**
 * The YouTube downloader's pure helpers: the format selector for a resolution choice, the
 * duration text, and the options and attempt order of a download with its 403 fallback.
 */
module YtOptions {
  import opened Text

  datatype Option<T> = None | Some(value: T)

  /** The choices the selector knows, and the format string each one stands for. */
  const Formats: map<string, string> := map[
    "360p" := "bestvideo[height<=360]+bestaudio/best[height<=360]",
    "480p" := "bestvideo[height<=480]+bestaudio/best[height<=480]",
    "720p" := "bestvideo[height<=720]+bestaudio/best[height<=720]",
    "1080p" := "bestvideo[height<=1080]+bestaudio/best[height<=1080]",
    "1440p" := "bestvideo[height<=1440]+bestaudio/best[height<=1440]",
    "2160p" := "bestvideo[height<=2160]+bestaudio/best[height<=2160]",
    "best" := "best",
    "all" := "best",
    "audio" := "bestaudio/best"
  ]

  /** `choice.strip().lower()`. */
  function Key(choice: string): string {
    Lower(Trim(choice, PySpace))
  }

  /** A missing or empty choice is "best"; otherwise the normalised key is looked up, "best" if unknown. */
  function FormatSelector(choice: Option<string>): (r: string)
    ensures r == "best" || exists k :: k in Formats && Formats[k] == r
    ensures choice.Some? && Key(choice.value) in Formats ==> r == Formats[Key(choice.value)]
    ensures choice.None? || choice.value == "" || Key(choice.value) !in Formats ==> r == "best"
  {
    if choice.None? || choice.value == "" then "best"
    else
      var key := Key(choice.value);
      if key in Formats then Formats[key] else "best"
  }

  /** Normalising a key twice is normalising it once. */
  lemma KeyIdempotent(choice: string)
    ensures Key(Key(choice)) == Key(choice)
  {
    var t := Trim(choice, PySpace);
    var key := Lower(t);
    LowerIdempotent(t);
    if |key| > 0 {
      LowerKeepsSpace(t[0]);
      LowerKeepsSpace(t[|t| - 1]);
    }
    TrimPlain(key, PySpace);
  }

  /** White space around the choice and the case of its letters do not matter. */
  lemma SelectorNormalises(choice: string)
    ensures FormatSelector(Some(choice)) == FormatSelector(Some(Key(choice)))
  {
    KeyIdempotent(choice);
  }

  /** What `int(seconds)` saw: no value, a value that does not convert, or a whole number. */
  datatype Seconds = Missing | NotInteger | Whole(n: int)

  /** A number below 100 as exactly two digits. */
  function Two(m: nat): (r: string)
    requires m < 100
    ensures |r| == 2 && IsDigit(r[0]) && IsDigit(r[1]) && DigitsValue(r) == m
  {
    var r := [DigitChar(m / 10), DigitChar(m % 10)];
    assert DigitValue(r[0]) == m / 10 && DigitValue(r[1]) == m % 10;
    assert r[..1] == [r[0]] && r[..1][..0] == [];
    assert DigitsValue(r[..1]) == m / 10;
    r
  }

  /**
   * `H:MM:SS` for a time of day (`divmod` by 60, then by 60 again): the hours in plain decimal, then
   * the minutes below 60 and the seconds below 60, each as exactly two digits; the text reads back
   * as the seconds it shows.
   */
  function Clock(s: nat): (r: string)
    requires s < 86400
    ensures |r| >= 7 && r[|r| - 6] == ':' && r[|r| - 3] == ':'
    ensures r[..|r| - 6] == NatToString(s / 3600)
    ensures AllDigits(r[|r| - 5..|r| - 3]) && DigitsValue(r[|r| - 5..|r| - 3]) == s / 60 % 60
    ensures AllDigits(r[|r| - 2..]) && DigitsValue(r[|r| - 2..]) == s % 60
    ensures ReadClock(r) == Some(s)
  {
    var minutes := s / 60;
    var h := NatToString(minutes / 60);
    NatToStringValue(minutes / 60);
    Fields(h, Two(minutes % 60), Two(s % 60));
    assert minutes == 60 * (minutes / 60) + minutes % 60;
    assert s == 60 * minutes + s % 60;
    assert minutes / 60 == s / 3600;
    h + ":" + Two(minutes % 60) + ":" + Two(s % 60)
  }

  /** The three fields of `h:mm:ss`, read off from the end. */
  lemma Fields(h: string, m: string, s: string)
    requires |m| == 2 && |s| == 2
    ensures var r := h + ":" + m + ":" + s;
      |r| == |h| + 6 && r[..|r| - 6] == h && r[|r| - 6] == ':' && r[|r| - 5..|r| - 3] == m && r[|r| - 3] == ':' && r[|r| - 2..] == s
  {
  }

  /**
   * `str(timedelta(seconds=n))`: below one day the bare clock, which reads back as n; from one day on
   * the day count, then " day, " for exactly one day and " days, " otherwise, then the clock of the rest.
   */
  function TimeDelta(n: nat): (r: string)
    ensures n < 86400 ==> r == Clock(n) && ReadClock(r) == Some(n)
    ensures n >= 86400 ==> var d := NatToString(n / 86400); var c := Clock(n % 86400);
      |r| > |d| + |c| && r[..|d|] == d && r[|r| - |c|..] == c && ReadClock(c) == Some(n % 86400)
      && r[|d|..|r| - |c|] == (if n / 86400 == 1 then " day, " else " days, ")
  {
    var days := n / 86400;
    var c := Clock(n % 86400);
    if days == 0 then
      assert "" + c == c;
      "" + c
    else
      var d := NatToString(days);
      var mid := DayWord(days);
      Pieces(d, mid, c);
      d + mid + c
  }

  /** `" day, "` for one day, `" days, "` for more. */
  function DayWord(days: int): (w: string)
    ensures w == if days == 1 then " day, " else " days, "
  {
    var w := " day" + (if days != 1 then "s" else "") + ", ";
    assert days == 1 ==> w == " day, ";
    w
  }

  /** The three parts of a concatenation can be read back off it. */
  lemma Pieces(a: string, b: string, c: string)
    ensures var r := a + b + c;
      |r| == |a| + |b| + |c| && r[..|a|] == a && r[|r| - |c|..] == c && r[|a|..|r| - |c|] == b
  {
    var r := a + b + c;
    assert r[..|a|] == a;
    assert r[|r| - |c|..] == c;
    assert r[|a|..|r| - |c|] == b;
  }

  /**
   * "N/A" exactly for no value, a value that does not convert, or a negative count; otherwise the
   * `timedelta` text, which below one day reads back as the count.
   */
  function HumanTime(seconds: Seconds): (r: string)
    ensures r == "N/A" <==> !seconds.Whole? || seconds.n < 0
    ensures seconds.Whole? && seconds.n >= 0 ==> r == TimeDelta(seconds.n)
    ensures seconds.Whole? && 0 <= seconds.n < 86400 ==> ReadClock(r) == Some(seconds.n)
  {
    if seconds.Whole? && seconds.n >= 0 then
      var r := TimeDelta(seconds.n);
      assert ReadClock("N/A") == None;
      assert r != "N/A" by {
        if seconds.n >= 86400 {
          assert |r| > 3;
        }
      }
      r
    else "N/A"
  }

  /** Reads `H:MM:SS` back into seconds, if r has that shape. */
  function ReadClock(r: string): Option<int> {
    if |r| < 7 || r[|r| - 6] != ':' || r[|r| - 3] != ':' then None
    else
      var h, m, s := r[..|r| - 6], r[|r| - 5..|r| - 3], r[|r| - 2..];
      if AllDigits(h) && AllDigits(m) && AllDigits(s) then Some(3600 * DigitsValue(h) + 60 * DigitsValue(m) + DigitsValue(s))
      else None
  }

  /** `"HTTP Error 403" in s or "403" in s`: its first test adds nothing, it holds exactly when "403" occurs. */
  predicate Is403(message: string): (b: bool)
    ensures b <==> Contains(message, "403")
  {
    if Contains(message, "HTTP Error 403") then
      ContainsPiece(message, "HTTP Error 403", 11, 14);
      assert "HTTP Error 403"[11..14] == "403";
      true
    else Contains(message, "403")
  }

  /** The download options the model tracks. */
  datatype Options = Options(format: string, retries: Option<int>, hlsPreferFfmpeg: bool,
                             hlsPreferNative: bool, allowUnplayable: bool, geoBypass: bool)

  /**
   * The options every download starts with: the selected format, 5 retries, ffmpeg for HLS and the geo
   * bypass; falling back from them gives format "best" and exactly 6 retries.
   */
  function BaseOptions(choice: Option<string>): (r: Options)
    ensures r.format == FormatSelector(choice) && r.retries == Some(5)
    ensures r.hlsPreferFfmpeg && !r.hlsPreferNative && r.allowUnplayable && r.geoBypass
    ensures FallbackOptions(r).retries == Some(6) && FallbackOptions(r).format == "best"
  {
    Options(FormatSelector(choice), Some(5), true, false, true, true)
  }

  /** The fallback options: format "best" and at least 6 retries (3 assumed when none were set). */
  function FallbackOptions(o: Options): (r: Options)
    ensures r.format == "best" && r.retries.Some? && r.retries.value >= 6
    ensures o.retries.Some? ==> r.retries.value >= o.retries.value
    ensures r.geoBypass == o.geoBypass
  {
    var current := if o.retries.Some? then o.retries.value else 3;
    o.(format := "best", retries := Some(if current > 6 then current else 6),
       hlsPreferFfmpeg := true, hlsPreferNative := false, allowUnplayable := true)
  }

  datatype Attempt = Primary | Fallback | Diagnostic

  /** The attempts a download makes, and whether it ended in success. */
  datatype Chain = Chain(tried: seq<Attempt>, ok: bool)

  /**
   * Given how each attempt would end, and the primary attempt's error: the fallback runs only after a
   * failed primary attempt whose error mentions 403, and the diagnostic attempt only when neither of
   * those succeeded.
   */
  function Attempts(primaryOk: bool, error: Option<string>, fallbackOk: bool, diagnosticOk: bool): (r: Chain)
    ensures |r.tried| >= 1 && r.tried[0] == Primary
    ensures Fallback in r.tried <==> !primaryOk && Contains(if error.Some? then error.value else "", "403")
    ensures Diagnostic in r.tried <==> !primaryOk && !(Fallback in r.tried && fallbackOk)
    ensures r.ok <==> primaryOk || (Fallback in r.tried && fallbackOk) || (Diagnostic in r.tried && diagnosticOk)
  {
    var text := if error.Some? then error.value else "";
    if primaryOk then Chain([Primary], true)
    else if Is403(text) && fallbackOk then Chain([Primary, Fallback], true)
    else
      var before := if Is403(text) then [Primary, Fallback] else [Primary];
      Chain(before + [Diagnostic], diagnosticOk)
  }
}
