/**
 * The pure pieces of the web music player: the `MM:SS` time label, the wrap-around of the previous
 * and next buttons over the song list, and the clamping of the volume. JavaScript numbers are
 * modelled as exact reals, with NaN as its own case.
 */
module MusicPlayer {
  import opened Text

  datatype Option<T> = None | Some(value: T)

  /** A JavaScript number as the player sees it: NaN, or a finite value. */
  datatype Number = NaN | Finite(value: real)

  /** `String(n).padStart(2, '0')`: one leading zero below 10, the plain digits from 10 on. */
  function Pad2(n: nat): (r: string)
    ensures |r| >= 2 && AllDigits(r)
    ensures DigitsValue(r) == n
  {
    NatToStringValue(n);
    if n < 10 then
      var r := ['0', DigitChar(n)];
      assert r[..1] == ['0'] && r[..1][..0] == [];
      r
    else NatToString(n)
  }

  /** Pad2 is `padStart(2, '0')` of the decimal rendering, and gives two digits below 100. */
  lemma Pad2IsPadStart(n: nat)
    ensures Pad2(n) == PadStart(NatToString(n), 2, '0')
    ensures n < 100 ==> |Pad2(n)| == 2
  {
    if n < 10 {
      assert PadStart(NatToString(n), 2, '0') == ['0'] + [DigitChar(n)];
    } else if n < 100 {
      assert |NatToString(n / 10)| == 1;
    }
  }

  /**
   * `secondsToMinutesSeconds`: NaN or a negative time shows `00:00`; otherwise the label is the
   * source's own formula `JsLabel`. The seconds field is two digits below 60, and the label reads
   * back as the whole seconds of s.
   */
  function TimeLabel(seconds: Number): (r: string)
    ensures seconds.NaN? || seconds.value < 0.0 ==> r == "00:00"
    ensures seconds.Finite? && seconds.value >= 0.0 ==> r == JsLabel(seconds.value)
    ensures |r| >= 5 && r[|r| - 3] == ':'
    ensures AllDigits(r[|r| - 2..]) && DigitsValue(r[|r| - 2..]) < 60
    ensures seconds.Finite? && seconds.value >= 0.0 ==> ReadLabel(r) == Some(seconds.value.Floor)
    ensures seconds.NaN? || seconds.value < 0.0 ==> ReadLabel(r) == Some(0)
  {
    if seconds.NaN? || seconds.value < 0.0 then ZeroLabel(); "00:00"
    else WholeLabel(seconds.value)
  }

  /**
   * The finite branch as the source writes it: `Math.floor(s / 60)` and `Math.floor(s % 60)` (for
   * s >= 0, `s % 60` is s less 60 times the whole minutes), each as `String(n).padStart(2, '0')`,
   * around a colon.
   */
  function JsLabel(s: real): string
    requires s >= 0.0
  {
    var minutes := (s / 60.0).Floor;
    var remaining := (s - 60.0 * minutes as real).Floor;
    Split(s, minutes, remaining);
    PadStart(NatToString(minutes), 2, '0') + ":" + PadStart(NatToString(remaining), 2, '0')
  }

  /** The label of a time that is not negative, written on its whole seconds: it is the source's formula. */
  function WholeLabel(s: real): (r: string)
    requires s >= 0.0
    ensures s.Floor >= 0 && r == JsLabel(s) && r == Label(s.Floor)
  {
    PaddedFields(s);
    Label(s.Floor)
  }

  /** Whole seconds as padded minutes, a colon and the two-digit seconds below 60; it reads back as w. */
  function Label(w: nat): (r: string)
    ensures |r| >= 5 && r[|r| - 3] == ':' && ReadLabel(r) == Some(w)
    ensures AllDigits(r[|r| - 2..]) && DigitsValue(r[|r| - 2..]) == w % 60
  {
    LabelFields(w / 60, w % 60);
    assert 60 * (w / 60) + w % 60 == w;
    Pad2(w / 60) + ":" + Pad2(w % 60)
  }

  /** On the whole seconds, the two padded fields are those of `Math.floor(s / 60)` and `Math.floor(s % 60)`. */
  lemma PaddedFields(s: real)
    requires s >= 0.0
    ensures s.Floor >= 0 && Pad2(s.Floor / 60) + ":" + Pad2(s.Floor % 60) == JsLabel(s)
  {
    var minutes := (s / 60.0).Floor;
    var remaining := (s - 60.0 * minutes as real).Floor;
    Split(s, minutes, remaining);
    JsFields(s);
    var w: nat := s.Floor;
    assert minutes == w / 60 && remaining == w % 60;
    Pad2IsPadStart(w / 60);
    Pad2IsPadStart(w % 60);
    assert JsLabel(s) == PadStart(NatToString(w / 60), 2, '0') + ":" + PadStart(NatToString(w % 60), 2, '0');
  }

  /** `Math.floor(s / 60)` and `Math.floor(s % 60)` split the whole seconds of s into minutes and a rest below 60. */
  lemma Split(s: real, minutes: int, remaining: int)
    requires s >= 0.0 && minutes == (s / 60.0).Floor && remaining == (s - 60.0 * minutes as real).Floor
    ensures minutes >= 0 && 0 <= remaining < 60 && 60 * minutes + remaining == s.Floor
  {
    assert minutes as real <= s / 60.0 < minutes as real + 1.0;
    assert 0.0 <= s - 60.0 * minutes as real < 60.0;
    assert (60 * minutes + remaining) as real <= s < (60 * minutes + remaining + 1) as real;
  }

  /** The label's two fields are the source's `Math.floor(s / 60)` and `Math.floor(s % 60)`. */
  lemma JsFields(s: real)
    requires s >= 0.0
    ensures var minutes := (s / 60.0).Floor;
      minutes == s.Floor / 60 && (s - 60.0 * minutes as real).Floor == s.Floor % 60
  {
    var minutes := (s / 60.0).Floor;
    var remaining := (s - 60.0 * minutes as real).Floor;
    Split(s, minutes, remaining);
    DivModUnique(s.Floor, minutes, remaining);
  }

  /** Division by 60 has a single quotient and remainder. */
  lemma DivModUnique(w: int, q: int, r: int)
    requires 0 <= r < 60 && w == 60 * q + r
    ensures q == w / 60 && r == w % 60
  {
  }

  /** Reads `M..M:SS` back into whole seconds, if the label has that shape. */
  function ReadLabel(r: string): Option<int> {
    if |r| < 4 || r[|r| - 3] != ':' then None
    else
      var m, s := r[..|r| - 3], r[|r| - 2..];
      if AllDigits(m) && AllDigits(s)
      then Some(60 * DigitsValue(m) + DigitsValue(s))
      else None
  }

  /** A run of digits, then a colon and two more digits, reads back as minutes and seconds. */
  lemma ReadParts(m: string, t: string)
    requires |m| >= 2 && |t| == 2
    requires AllDigits(m) && AllDigits(t)
    ensures var r := m + ":" + t;
      |r| >= 5 && r[|r| - 3] == ':' && ReadLabel(r) == Some(60 * DigitsValue(m) + DigitsValue(t))
      && r[|r| - 2..] == t
  {
    var c := ":" + t;
    var r := m + c;
    assert m + ":" + t == r;
    assert |r| - 3 == |m|;
    assert r[..|r| - 3] == m;
    assert r[|r| - 2..] == c[1..] == t;
    ReadFields(r, m, t);
  }

  /** A label whose parts before and after the colon are digit runs reads as their value in seconds. */
  lemma ReadFields(r: string, m: string, t: string)
    requires |r| >= 4 && r[|r| - 3] == ':' && m == r[..|r| - 3] && t == r[|r| - 2..]
    requires AllDigits(m) && AllDigits(t)
    ensures ReadLabel(r) == Some(60 * DigitsValue(m) + DigitsValue(t))
  {
  }

  /** A label built from a minute count and a rest below 60 reads back as their total in seconds. */
  lemma LabelFields(minutes: nat, remaining: nat)
    requires remaining < 60
    ensures var r := Pad2(minutes) + ":" + Pad2(remaining);
      |r| >= 5 && r[|r| - 3] == ':' && ReadLabel(r) == Some(60 * minutes + remaining)
      && r[|r| - 2..] == Pad2(remaining)
  {
    Pad2IsPadStart(remaining);
    ReadParts(Pad2(minutes), Pad2(remaining));
  }

  /** The label shown for NaN and negative times reads back as zero. */
  lemma ZeroLabel()
    ensures ReadLabel("00:00") == Some(0)
  {
    LabelFields(0, 0);
    assert Pad2(0) + ":" + Pad2(0) == "00:00";
  }

  /** JavaScript's `%` by a positive divisor: the remainder takes the sign of the dividend. */
  function JsRem(a: int, b: int): (r: int)
    requires b > 0
    ensures -b < r < b && (a >= 0 ==> 0 <= r) && (a <= 0 ==> r <= 0)
    ensures -b < a < b ==> r == a
    ensures b <= a < 2 * b ==> r == a - b
    decreases if a >= 0 then a else -a
  {
    if a >= b then JsRem(a - b, b) else if a <= -b then JsRem(a + b, b) else a
  }

  /** `songs.indexOf(name)`: the first position of name, or -1. */
  function IndexOf(songs: seq<string>, name: string): (r: int)
    ensures -1 <= r < |songs|
    ensures r >= 0 ==> songs[r] == name && forall k :: 0 <= k < r ==> songs[k] != name
    ensures r == -1 ==> forall k :: 0 <= k < |songs| ==> songs[k] != name
  {
    if songs == [] then -1
    else if songs[0] == name then 0
    else
      var i := IndexOf(songs[1..], name);
      if i == -1 then -1 else i + 1
  }

  /** The next button: `(index + 1) % songs.length`; with no songs the index is NaN, so None. */
  function Next(songs: seq<string>, current: string): (r: Option<int>)
    ensures r.None? <==> songs == []
    ensures r.Some? ==> 0 <= r.value < |songs|
    ensures r.Some? && IndexOf(songs, current) == |songs| - 1 ==> r.value == 0
    ensures r.Some? && IndexOf(songs, current) < |songs| - 1 ==> r.value == IndexOf(songs, current) + 1
  {
    if songs == [] then None else Some(JsRem(IndexOf(songs, current) + 1, |songs|))
  }

  /** The previous button: `(index - 1 + songs.length) % songs.length`. */
  function Previous(songs: seq<string>, current: string): (r: Option<int>)
    ensures r.None? <==> songs == []
    ensures r.Some? ==> 0 <= r.value < |songs|
    ensures r.Some? && IndexOf(songs, current) == 0 ==> r.value == |songs| - 1
    ensures r.Some? && IndexOf(songs, current) > 0 ==> r.value == IndexOf(songs, current) - 1
  {
    if songs == [] then None else Some(JsRem(IndexOf(songs, current) - 1 + |songs|, |songs|))
  }

  predicate Distinct(songs: seq<string>) {
    forall i, j :: 0 <= i < j < |songs| ==> songs[i] != songs[j]
  }

  /** In a list without repeats each song's first position is its position. */
  lemma IndexOfDistinct(songs: seq<string>, j: int)
    requires Distinct(songs) && 0 <= j < |songs|
    ensures IndexOf(songs, songs[j]) == j
  {
    var r := IndexOf(songs, songs[j]);
    assert r >= 0;
    assert songs[r] == songs[j];
  }

  /** In a list without repeats, previous undoes next. */
  lemma PreviousAfterNext(songs: seq<string>, current: string)
    requires Distinct(songs) && current in songs
    ensures Previous(songs, songs[Next(songs, current).value]) == Some(IndexOf(songs, current))
  {
    var i := IndexOf(songs, current);
    var n := Next(songs, current).value;
    IndexOfDistinct(songs, n);
    assert IndexOf(songs, songs[n]) == n;
    assert n == if i == |songs| - 1 then 0 else i + 1;
    assert JsRem(n - 1 + |songs|, |songs|) == i;
  }

  /** In a list without repeats, next undoes previous. */
  lemma NextAfterPrevious(songs: seq<string>, current: string)
    requires Distinct(songs) && current in songs
    ensures Next(songs, songs[Previous(songs, current).value]) == Some(IndexOf(songs, current))
  {
    var i := IndexOf(songs, current);
    var p := Previous(songs, current).value;
    IndexOfDistinct(songs, p);
    assert IndexOf(songs, songs[p]) == p;
    assert p == if i == 0 then |songs| - 1 else i - 1;
    assert JsRem(p + 1, |songs|) == i;
  }

  /** A song not in the list sends next to the first song and previous to the second-to-last one. */
  lemma UnknownSong(songs: seq<string>, current: string)
    requires songs != [] && current !in songs
    ensures Next(songs, current) == Some(0)
    ensures Previous(songs, current) == Some(if |songs| >= 2 then |songs| - 2 else 0)
  {
    assert IndexOf(songs, current) == -1;
  }

  function Clamp(v: real, lo: real, hi: real): real {
    if v < lo then lo else if v > hi then hi else v
  }

  /** `loadVolume`: an unreadable value (NaN) gives null; any other value is clamped into [0, 1]. */
  function LoadVolume(parsed: Number): (r: Option<real>)
    ensures r.None? <==> parsed.NaN?
    ensures r.Some? ==> 0.0 <= r.value <= 1.0
    ensures r.Some? && 0.0 <= parsed.value <= 1.0 ==> r.value == parsed.value
    ensures r.Some? && parsed.value < 0.0 ==> r.value == 0.0
    ensures r.Some? && parsed.value > 1.0 ==> r.value == 1.0
  {
    match parsed
    case NaN => None
    case Finite(v) => Some(Clamp(v, 0.0, 1.0))
  }

  /** `applyVolume`: the slider position over 100, clamped into [0, 1]. */
  function ApplyVolume(slider: real): (r: real)
    ensures 0.0 <= r <= 1.0
    ensures 0.0 <= slider <= 100.0 ==> r * 100.0 == slider
    ensures slider <= 0.0 ==> r == 0.0
    ensures slider >= 100.0 ==> r == 1.0
  {
    Clamp(slider / 100.0, 0.0, 1.0)
  }

  /** A volume that was saved and loaded again is unchanged. */
  lemma SavedVolumeLoads(slider: real)
    ensures LoadVolume(Finite(ApplyVolume(slider))) == Some(ApplyVolume(slider))
  {
  }

  /** The mute button: an audible player goes silent with the slider at 0; a silent one goes to 0.1 and 10. */
  function Mute(volume: real): (r: (real, int))
    ensures volume > 0.0 ==> r == (0.0, 0)
    ensures volume <= 0.0 ==> r == (0.1, 10)
    ensures ApplyVolume(r.1 as real) == r.0
  {
    if volume > 0.0 then (0.0, 0) else (0.1, 10)
  }
}
