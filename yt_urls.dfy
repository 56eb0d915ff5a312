/**
 * The YouTube downloader's URL handling: splitting the pasted line into URLs, dropping repeated
 * URLs while keeping their first order, and the sequential download loop that skips blank entries.
 */
module YtUrls {
  import opened Text

  datatype Option<T> = None | Some(value: T)

  function Concat(parts: seq<string>): string {
    if parts == [] then [] else parts[0] + Concat(parts[1..])
  }

  lemma {:induction false} ConcatAppend(a: seq<string>, b: seq<string>)
    ensures Concat(a + b) == Concat(a) + Concat(b)
  {
    if a == [] {
      assert a + b == b;
    } else {
      assert (a + b)[0] == a[0] && (a + b)[1..] == a[1..] + b;
      ConcatAppend(a[1..], b);
    }
  }

  predicate NotSpace(c: char) { !PySpace(c) }
  predicate NotComma(c: char) { c != ',' }
  /** A character that is part of a URL token: neither a comma nor white space. */
  predicate Plain(c: char) { c != ',' && !PySpace(c) }

  /** `s.split()`: the maximal runs of non-white-space characters, in order. */
  function Words(s: string): (r: seq<string>)
    ensures forall k :: 0 <= k < |r| ==> r[k] != [] && forall j :: 0 <= j < |r[k]| ==> NotSpace(r[k][j])
    ensures Concat(r) == Keep(s, NotSpace)
    decreases |s|
  {
    if s == [] then []
    else if PySpace(s[0]) then
      assert Keep(s, NotSpace) == Keep(s[1..], NotSpace);
      Words(s[1..])
    else
      var n := Lead(s, NotSpace);
      var rest := Words(s[n..]);
      assert s == s[..n] + s[n..];
      KeepAppend(s[..n], s[n..], NotSpace);
      KeepAll(s[..n], NotSpace);
      [s[..n]] + rest
  }

  /** Every character of t satisfies p. */
  ghost predicate Free(t: string, p: char -> bool) {
    forall j :: 0 <= j < |t| ==> p(t[j])
  }

  lemma ConcatCons(x: string, rest: seq<string>)
    ensures Concat([x] + rest) == x + Concat(rest)
  {
    assert ([x] + rest)[0] == x && ([x] + rest)[1..] == rest;
  }

  /** The pieces with one c between each two: `c.join(ts)` in Python. */
  function Joined(ts: seq<string>, c: char): string {
    if |ts| == 0 then [] else if |ts| == 1 then ts[0] else ts[0] + [c] + Joined(ts[1..], c)
  }

  /**
   * `s.split(",")`: the pieces between commas, empty ones included, so one more than the commas.
   * Joined back with commas they give s again.
   */
  function SplitComma(s: string): (r: seq<string>)
    ensures |r| >= 1 && forall k :: 0 <= k < |r| ==> Free(r[k], NotComma)
    ensures Concat(r) == Keep(s, NotComma)
    ensures Joined(r, ',') == s
    ensures |r| == |s| - |Keep(s, NotComma)| + 1
    decreases |s|
  {
    var n := Lead(s, NotComma);
    if n == |s| then
      WholePiece(s);
      [s]
    else
      var rest := SplitComma(s[n + 1..]);
      PieceThenRest(s, n, rest);
      [s[..n]] + rest
  }

  /** With no comma in s, the one piece s meets every clause of `SplitComma`. */
  lemma WholePiece(s: string)
    requires Lead(s, NotComma) == |s|
    ensures Free(s, NotComma) && Concat([s]) == Keep(s, NotComma) && Joined([s], ',') == s
    ensures 1 == |s| - |Keep(s, NotComma)| + 1
  {
    assert s[..|s|] == s;
    KeepAll(s, NotComma);
    ConcatCons(s, []);
  }

  /** The piece before the first comma, then the pieces after it, meet every clause of `SplitComma`. */
  lemma PieceThenRest(s: string, n: nat, rest: seq<string>)
    requires n < |s| && n == Lead(s, NotComma)
    requires |rest| >= 1 && forall k :: 0 <= k < |rest| ==> Free(rest[k], NotComma)
    requires Concat(rest) == Keep(s[n + 1..], NotComma) && Joined(rest, ',') == s[n + 1..]
    requires |rest| == |s[n + 1..]| - |Keep(s[n + 1..], NotComma)| + 1
    ensures var r := [s[..n]] + rest;
      |r| >= 1 && (forall k :: 0 <= k < |r| ==> Free(r[k], NotComma))
      && Concat(r) == Keep(s, NotComma) && Joined(r, ',') == s
      && |r| == |s| - |Keep(s, NotComma)| + 1
  {
    var head, tail := s[..n], s[n + 1..];
    assert s == head + [','] + tail;
    assert Free(head, NotComma);
    FreeAppend([head], rest);
    JoinedHead(head, rest, ',');
    KeepAroundComma(head, tail);
    ConcatCons(head, rest);
  }

  /** Keeping the non-commas of a comma-free head, a comma and a tail keeps the head and the tail's. */
  lemma KeepAroundComma(head: string, tail: string)
    requires Free(head, NotComma)
    ensures Keep(head + [','] + tail, NotComma) == head + Keep(tail, NotComma)
  {
    KeepAll(head, NotComma);
    KeepAppend(head + [','], tail, NotComma);
    KeepAppend(head, [','], NotComma);
  }

  function WordsOfAll(parts: seq<string>): seq<string> {
    if parts == [] then [] else Words(parts[0]) + WordsOfAll(parts[1..])
  }

  /**
   * `[p.strip() for part in raw.split(",") for p in part.split() if p.strip()]`: every token is
   * non-empty and free of commas and white space, and together the tokens are exactly the line's
   * other characters, in order.
   */
  function SplitUrls(raw: string): (r: seq<string>)
    ensures forall k :: 0 <= k < |r| ==> r[k] != [] && forall j :: 0 <= j < |r[k]| ==> Plain(r[k][j])
    ensures Concat(r) == Keep(raw, Plain)
  {
    var parts := SplitComma(raw);
    WordsOfAllProps(parts);
    KeepTwice(raw);
    PartsHaveNoComma(parts);
    TokensPlain(WordsOfAll(parts));
    WordsOfAll(parts)
  }

  /** `Lead` is the one length whose characters all pass p and after which one fails or s ends. */
  lemma LeadIs(s: string, p: char -> bool, m: nat)
    requires m <= |s| && forall k :: 0 <= k < m ==> p(s[k])
    requires m < |s| ==> !p(s[m])
    ensures Lead(s, p) == m
  {
    var n := Lead(s, p);
    assert forall k :: 0 <= k < n ==> p(s[k]);
  }

  /** A character p rejects ends the leading run of p characters at the latest. */
  lemma LeadBefore(a: string, c: char, b: string, p: char -> bool)
    requires !p(c)
    ensures Lead(a + [c] + b, p) == Lead(a, p)
  {
    var s, m := a + [c] + b, Lead(a, p);
    assert forall k :: 0 <= k <= m ==> s[k] == if k < |a| then a[k] else c;
    LeadIs(s, p, m);
  }

  /** A space splits the words: those before it, then those after it. */
  lemma {:induction false} WordsSplit(a: string, c: char, b: string)
    requires PySpace(c)
    ensures Words(a + [c] + b) == Words(a) + Words(b)
    decreases |a|
  {
    if a == [] {
      LeadingSpace(c, b);
      assert a + [c] + b == [c] + b;
    } else if PySpace(a[0]) {
      WordsSplit(a[1..], c, b);
      SkipSpace(a, c, b);
    } else {
      var m := Lead(a, NotSpace);
      WordsSplit(a[m..], c, b);
      FirstWord(a, c, b);
      var w, x, y := [a[..m]], Words(a[m..]), Words(b);
      assert Words(a + [c] + b) == w + (x + y);
      Assoc(w, x, y);
    }
  }

  /** A space at the front is skipped. */
  lemma LeadingSpace(c: char, b: string)
    requires PySpace(c)
    ensures Words([c] + b) == Words(b)
  {
    assert ([c] + b)[0] == c && ([c] + b)[1..] == b;
  }

  /** A leading space of a is skipped, before the split point as well as in a alone. */
  lemma SkipSpace(a: string, c: char, b: string)
    requires a != [] && PySpace(a[0])
    ensures Words(a + [c] + b) == Words(a[1..] + [c] + b) && Words(a) == Words(a[1..])
  {
    var s := a + [c] + b;
    assert s[0] == a[0] && s[1..] == a[1..] + [c] + b;
  }

  /** A leading word of a ends before the space at the split point, so both splits start with it. */
  lemma FirstWord(a: string, c: char, b: string)
    requires a != [] && !PySpace(a[0]) && PySpace(c)
    ensures var m := Lead(a, NotSpace);
      m <= |a| && Words(a + [c] + b) == [a[..m]] + Words(a[m..] + [c] + b)
      && Words(a) == [a[..m]] + Words(a[m..])
  {
    var s, m := a + [c] + b, Lead(a, NotSpace);
    LeadBefore(a, c, b, NotSpace);
    assert s[0] == a[0];
    assert s[..m] == a[..m];
    assert s[m..] == a[m..] + [c] + b;
  }

  /** A run of non-space characters is one word. */
  lemma WordsRun(t: string)
    requires t != [] && Free(t, NotSpace)
    ensures Words(t) == [t]
  {
    LeadIs(t, NotSpace, |t|);
    assert t[..|t|] == t && t[|t|..] == [];
  }

  /** Words joined by any white-space character split back into the same words. */
  lemma {:induction false} WordsJoined(ts: seq<string>, c: char)
    requires PySpace(c)
    requires forall k :: 0 <= k < |ts| ==> ts[k] != [] && Free(ts[k], NotSpace)
    ensures Words(Joined(ts, c)) == ts
  {
    if |ts| == 1 {
      WordsRun(ts[0]);
    } else if |ts| > 1 {
      WordsJoined(ts[1..], c);
      WordsRun(ts[0]);
      WordsSplit(ts[0], c, Joined(ts[1..], c));
    }
  }

  /** Comma-free pieces joined by commas split back into the same pieces. */
  lemma {:induction false} SplitCommaJoined(ts: seq<string>)
    requires |ts| >= 1 && forall k :: 0 <= k < |ts| ==> Free(ts[k], NotComma)
    ensures SplitComma(Joined(ts, ',')) == ts
  {
    if |ts| == 1 {
      LeadIs(ts[0], NotComma, |ts[0]|);
    } else {
      assert Free(ts[0], NotComma);
      FirstPiece(ts[0], Joined(ts[1..], ','));
      SplitCommaJoined(ts[1..]);
      assert ts == [ts[0]] + ts[1..];
    }
  }

  /** A comma-free piece, a comma and more text split into that piece, then the pieces of the rest. */
  lemma FirstPiece(head: string, rest: string)
    requires Free(head, NotComma)
    ensures SplitComma(head + [','] + rest) == [head] + SplitComma(rest)
  {
    var s := head + [','] + rest;
    LeadIs(head, NotComma, |head|);
    LeadBefore(head, ',', rest, NotComma);
    assert s[..|head|] == head && s[|head| + 1..] == rest;
  }

  /** Joining two non-empty lists is joining their joins. */
  lemma {:induction false} JoinedAppend(xs: seq<string>, ys: seq<string>, c: char)
    requires |xs| >= 1 && |ys| >= 1
    ensures Joined(xs + ys, c) == Joined(xs, c) + [c] + Joined(ys, c)
  {
    assert (xs + ys)[0] == xs[0] && (xs + ys)[1..] == xs[1..] + ys;
    if |xs| > 1 {
      JoinedAppend(xs[1..], ys, c);
    }
  }

  /** The last piece of xs and the first of ys run together around x. */
  function Glue(xs: seq<string>, x: string, ys: seq<string>): seq<string>
    requires |xs| >= 1 && |ys| >= 1
  {
    xs[..|xs| - 1] + [xs[|xs| - 1] + x + ys[0]] + ys[1..]
  }

  /** Joining the glued list is joining both lists with x in place of the separator between them. */
  lemma JoinedGlue(xs: seq<string>, x: string, ys: seq<string>, c: char)
    requires |xs| >= 1 && |ys| >= 1
    ensures Joined(Glue(xs, x, ys), c) == Joined(xs, c) + x + Joined(ys, c)
  {
    var front, last, first, back := xs[..|xs| - 1], xs[|xs| - 1], ys[0], ys[1..];
    var mid := last + x + first;
    assert Glue(xs, x, ys) == front + ([mid] + back);
    assert xs == front + [last] && ys == [first] + back;
    var before := if front == [] then [] else Joined(front, c) + [c];
    var after := if back == [] then [] else [c] + Joined(back, c);
    JoinedHead(mid, back, c);
    JoinedHead(first, back, c);
    JoinedLast(front, last, c);
    JoinedFront(front, [mid] + back, c);
    Regroup(before, last, x, first, after);
  }

  /** Regrouping five strings. */
  lemma Regroup(p: string, q: string, r: string, s: string, t: string)
    ensures p + (q + r + s + t) == (p + q) + r + (s + t)
  {
  }

  /** Joining pieces in front of a non-empty rest: their join and a separator if any, then the rest's join. */
  lemma JoinedFront(front: seq<string>, rest: seq<string>, c: char)
    requires rest != []
    ensures Joined(front + rest, c) == (if front == [] then [] else Joined(front, c) + [c]) + Joined(rest, c)
  {
    if front == [] {
      assert front + rest == rest;
    } else {
      JoinedAppend(front, rest, c);
    }
  }

  /** Joining a first piece onto the rest: the piece, then a separator and the rest's join if any. */
  lemma JoinedHead(t: string, rest: seq<string>, c: char)
    ensures Joined([t] + rest, c) == t + (if rest == [] then [] else [c] + Joined(rest, c))
  {
    assert ([t] + rest)[0] == t && ([t] + rest)[1..] == rest;
  }

  /** Joining a last piece after the others: their join and a separator if any, then the piece. */
  lemma JoinedLast(front: seq<string>, t: string, c: char)
    ensures Joined(front + [t], c) == (if front == [] then [] else Joined(front, c) + [c]) + t
  {
    JoinedFront(front, [t], c);
  }

  /** A comma splits the pieces: those of the text before it, then those of the text after it. */
  lemma CommaSplit(a: string, b: string)
    ensures SplitComma(a + [','] + b) == SplitComma(a) + SplitComma(b)
  {
    var xs, ys := SplitComma(a), SplitComma(b);
    JoinedAppend(xs, ys, ',');
    FreeAppend(xs, ys);
    SplitCommaJoined(xs + ys);
  }

  /** Two lists of comma-free pieces make one. */
  lemma FreeAppend(xs: seq<string>, ys: seq<string>)
    requires forall k :: 0 <= k < |xs| ==> Free(xs[k], NotComma)
    requires forall k :: 0 <= k < |ys| ==> Free(ys[k], NotComma)
    ensures forall k :: 0 <= k < |xs + ys| ==> Free((xs + ys)[k], NotComma)
  {
    assert forall k :: 0 <= k < |xs + ys| ==> (xs + ys)[k] == if k < |xs| then xs[k] else ys[k - |xs|];
  }

  /** Any other character joins the last piece before it to the first piece after it. */
  lemma CommaGlue(a: string, c: char, b: string)
    requires c != ','
    ensures SplitComma(a + [c] + b) == Glue(SplitComma(a), [c], SplitComma(b))
  {
    var xs, ys := SplitComma(a), SplitComma(b);
    var g := Glue(xs, [c], ys);
    JoinedGlue(xs, [c], ys, ',');
    PiecesOfGlue(xs, [c], ys);
    SplitCommaJoined(g);
  }

  /** Gluing comma-free pieces around comma-free text leaves every piece comma free. */
  lemma PiecesOfGlue(xs: seq<string>, x: string, ys: seq<string>)
    requires |xs| >= 1 && |ys| >= 1 && Free(x, NotComma)
    requires forall k :: 0 <= k < |xs| ==> Free(xs[k], NotComma)
    requires forall k :: 0 <= k < |ys| ==> Free(ys[k], NotComma)
    ensures var g := Glue(xs, x, ys); |g| >= 1 && forall k :: 0 <= k < |g| ==> Free(g[k], NotComma)
  {
    var g := Glue(xs, x, ys);
    var mid := xs[|xs| - 1] + x + ys[0];
    assert forall j :: 0 <= j < |mid| ==>
      mid[j] == if j < |xs[|xs| - 1]| then xs[|xs| - 1][j]
                else if j < |xs[|xs| - 1]| + |x| then x[j - |xs[|xs| - 1]|]
                else ys[0][j - |xs[|xs| - 1]| - |x|];
    assert Free(mid, NotComma);
    assert forall k :: 0 <= k < |g| ==>
      g[k] == if k < |xs| - 1 then xs[k] else if k == |xs| - 1 then mid else ys[k - |xs| + 1];
  }

  /** Splitting two lists of pieces is splitting each in turn. */
  lemma {:induction false} WordsOfAllAppend(xs: seq<string>, ys: seq<string>)
    ensures WordsOfAll(xs + ys) == WordsOfAll(xs) + WordsOfAll(ys)
  {
    if xs == [] {
      assert xs + ys == ys;
    } else {
      assert (xs + ys)[0] == xs[0] && (xs + ys)[1..] == xs[1..] + ys;
      WordsOfAllAppend(xs[1..], ys);
    }
  }

  /** A single piece splits into its own words. */
  lemma WordsOfOne(t: string)
    ensures WordsOfAll([t]) == Words(t)
  {
    assert [t][1..] == [];
  }

  /** Any separator, a comma or white space, splits the URLs: those before it, then those after it. */
  lemma UrlsSplit(a: string, c: char, b: string)
    requires !Plain(c)
    ensures SplitUrls(a + [c] + b) == SplitUrls(a) + SplitUrls(b)
  {
    var xs, ys := SplitComma(a), SplitComma(b);
    if c == ',' {
      CommaSplit(a, b);
      WordsOfAllAppend(xs, ys);
    } else {
      CommaGlue(a, c, b);
      WordsOfGlue(xs, c, ys);
    }
  }

  /** The words of two comma pieces run together around a space are the words of both. */
  lemma WordsOfGlue(xs: seq<string>, c: char, ys: seq<string>)
    requires |xs| >= 1 && |ys| >= 1 && PySpace(c)
    ensures WordsOfAll(Glue(xs, [c], ys)) == WordsOfAll(xs) + WordsOfAll(ys)
  {
    var front, last, first, back := xs[..|xs| - 1], xs[|xs| - 1], ys[0], ys[1..];
    var mid := last + [c] + first;
    assert xs == front + [last] && ys == [first] + back;
    assert Glue(xs, [c], ys) == (front + [mid]) + back;
    WordsOfAllAppend(front + [mid], back);
    WordsOfAllAppend(front, [mid]);
    WordsOfOne(mid);
    WordsSplit(last, c, first);
    WordsOfAllAppend(front, [last]);
    WordsOfOne(last);
    WordsOfAllAppend([first], back);
    WordsOfOne(first);
    Regroup4(WordsOfAll(front), Words(last), Words(first), WordsOfAll(back));
  }

  /** Regrouping three sequences. */
  lemma Assoc<T>(p: seq<T>, q: seq<T>, r: seq<T>)
    ensures p + (q + r) == (p + q) + r
  {
  }

  /** Regrouping four sequences. */
  lemma Regroup4<T>(p: seq<T>, q: seq<T>, r: seq<T>, s: seq<T>)
    ensures (p + (q + r)) + s == (p + q) + (r + s)
  {
  }

  /** A run of plain characters is one URL. */
  lemma UrlsRun(t: string)
    requires t != [] && Free(t, Plain)
    ensures SplitUrls(t) == [t]
  {
    assert Free(t, NotComma) && Free(t, NotSpace);
    assert Joined([t], ',') == t;
    SplitCommaJoined([t]);
    WordsRun(t);
    WordsOfOne(t);
  }

  /** URLs joined by a comma, or by white space, split back into the same URLs. */
  lemma {:induction false} UrlsJoined(ts: seq<string>, c: char)
    requires !Plain(c)
    requires forall k :: 0 <= k < |ts| ==> ts[k] != [] && Free(ts[k], Plain)
    ensures SplitUrls(Joined(ts, c)) == ts
  {
    if |ts| == 0 {
      assert SplitComma([]) == [[]];
      WordsOfOne([]);
    } else if |ts| == 1 {
      UrlsRun(ts[0]);
    } else {
      UrlsJoined(ts[1..], c);
      UrlsRun(ts[0]);
      UrlsSplit(ts[0], c, Joined(ts[1..], c));
    }
  }

  /** Tokens free of commas and of white space are made of plain characters. */
  lemma TokensPlain(r: seq<string>)
    requires forall t :: t in r ==> Free(t, NotComma)
    requires forall k :: 0 <= k < |r| ==> forall j :: 0 <= j < |r[k]| ==> NotSpace(r[k][j])
    ensures forall k, j :: 0 <= k < |r| && 0 <= j < |r[k]| ==> Plain(r[k][j])
  {
    forall k, j | 0 <= k < |r| && 0 <= j < |r[k]| ensures Plain(r[k][j]) {
      assert r[k] in r;
    }
  }

  lemma {:induction false} WordsOfAllProps(parts: seq<string>)
    ensures var r := WordsOfAll(parts);
      (forall k :: 0 <= k < |r| ==> r[k] != [] && forall j :: 0 <= j < |r[k]| ==> NotSpace(r[k][j]))
      && Concat(r) == Keep(Concat(parts), NotSpace)
  {
    if parts != [] {
      WordsOfAllProps(parts[1..]);
      var w, rest := Words(parts[0]), WordsOfAll(parts[1..]);
      ConcatAppend(w, rest);
      KeepAppend(parts[0], Concat(parts[1..]), NotSpace);
      WordTokensAppend(w, rest);
    }
  }

  /** Two lists of non-empty space-free tokens make one. */
  lemma WordTokensAppend(w: seq<string>, rest: seq<string>)
    requires forall k :: 0 <= k < |w| ==> w[k] != [] && forall j :: 0 <= j < |w[k]| ==> NotSpace(w[k][j])
    requires forall k :: 0 <= k < |rest| ==> rest[k] != [] && forall j :: 0 <= j < |rest[k]| ==> NotSpace(rest[k][j])
    ensures forall k :: 0 <= k < |w + rest| ==>
      (w + rest)[k] != [] && forall j :: 0 <= j < |(w + rest)[k]| ==> NotSpace((w + rest)[k][j])
  {
    forall k | 0 <= k < |w + rest|
      ensures (w + rest)[k] != [] && forall j :: 0 <= j < |(w + rest)[k]| ==> NotSpace((w + rest)[k][j])
    {
      if k >= |w| {
        assert (w + rest)[k] == rest[k - |w|];
      }
    }
  }

  /** Filtering by one test and then another is filtering by both. */
  lemma {:induction false} KeepTwice(s: string)
    ensures Keep(Keep(s, NotComma), NotSpace) == Keep(s, Plain)
  {
    if s != [] {
      KeepTwice(s[1..]);
      var head := if NotComma(s[0]) then [s[0]] else [];
      KeepAppend(head, Keep(s[1..], NotComma), NotSpace);
      assert Keep(s, NotComma) == head + Keep(s[1..], NotComma);
    }
  }

  lemma PartsHaveNoComma(parts: seq<string>)
    requires forall a :: 0 <= a < |parts| ==> Free(parts[a], NotComma)
    ensures forall t :: t in WordsOfAll(parts) ==> Free(t, NotComma)
  {
    WordsOfAllProps(parts);
    forall t | t in WordsOfAll(parts) ensures Free(t, NotComma) {
      WordsFrom(parts, t);
    }
  }

  /** Every token comes from one of the parts, so it is made of that part's characters. */
  lemma {:induction false} WordsFrom(parts: seq<string>, t: string)
    requires forall a :: 0 <= a < |parts| ==> Free(parts[a], NotComma)
    requires t in WordsOfAll(parts)
    ensures Free(t, NotComma)
  {
    if t in Words(parts[0]) {
      WordsSub(parts[0], t);
      assert Free(parts[0], NotComma);
    } else {
      assert t in WordsOfAll(parts[1..]);
      WordsFrom(parts[1..], t);
    }
  }

  /** Every word of s is a piece of s. */
  lemma {:induction false} WordsSub(s: string, t: string)
    requires t in Words(s)
    ensures forall i :: 0 <= i < |t| ==> t[i] in s
    decreases |s|
  {
    if PySpace(s[0]) {
      WordsSub(s[1..], t);
      assert forall c :: c in s[1..] ==> c in s;
    } else {
      var n := Lead(s, NotSpace);
      if t != s[..n] {
        WordsSub(s[n..], t);
        assert forall c :: c in s[n..] ==> c in s;
      } else {
        assert forall i :: 0 <= i < |t| ==> t[i] == s[i];
      }
    }
  }

  /**
   * The URLs of a pasted line: none when it is blank (the program then exits), otherwise its comma-
   * and space-separated tokens. Every token is non-empty and free of commas and white space, and
   * together they are exactly the line's other characters, in order.
   */
  function InteractiveUrls(raw: string): (r: Option<seq<string>>)
    ensures r.None? <==> Trim(raw, PySpace) == []
    ensures r.Some? ==> r.value == SplitUrls(raw)
  {
    if Trim(raw, PySpace) == [] then None else Some(SplitUrls(raw))
  }

  /** The URLs seen so far: each first occurrence, in input order. */
  function FirstOccurrences(s: seq<string>): (r: seq<string>)
    ensures forall x :: x in r <==> x in s
    ensures forall i, j :: 0 <= i < j < |r| ==> r[i] != r[j]
  {
    if s == [] then []
    else
      var p := FirstOccurrences(s[..|s| - 1]);
      var x := s[|s| - 1];
      assert s == s[..|s| - 1] + [x];
      if x in p then p else p + [x]
  }

  /** The index of the first occurrence of x in s. */
  function IndexOf(s: seq<string>, x: string): (k: nat)
    requires x in s
    ensures k < |s| && s[k] == x && forall j :: 0 <= j < k ==> s[j] != x
  {
    if s[0] == x then 0 else 1 + IndexOf(s[1..], x)
  }

  /** a occurs in s, and first occurs before b does. */
  ghost predicate Earlier(s: seq<string>, a: string, b: string) {
    a in s && b in s && IndexOf(s, a) < IndexOf(s, b)
  }

  /** Appending an element does not move the first occurrence of anything already there. */
  lemma IndexOfAppend(pre: seq<string>, x: string, y: string)
    requires y in pre
    ensures IndexOf(pre + [x], y) == IndexOf(pre, y)
  {
    var s := pre + [x];
    var k := IndexOf(pre, y);
    assert s[k] == y;
    var m := IndexOf(s, y);
    assert m <= k;
    assert pre[m] == s[m];
  }

  lemma IndexOfLast(pre: seq<string>, x: string)
    requires x !in pre
    ensures IndexOf(pre + [x], x) == |pre|
  {
    var s := pre + [x];
    assert s[|pre|] == x;
    assert forall j :: 0 <= j < |pre| ==> s[j] == pre[j];
  }

  /** The kept URLs appear in the order of their first occurrences. */
  lemma {:induction false} FirstOccurrencesOrder(s: seq<string>)
    ensures forall i, j :: 0 <= i < j < |FirstOccurrences(s)| ==>
      Earlier(s, FirstOccurrences(s)[i], FirstOccurrences(s)[j])
  {
    if s != [] {
      var pre := s[..|s| - 1];
      var x := s[|s| - 1];
      assert s == pre + [x];
      var p := FirstOccurrences(pre);
      FirstOccurrencesOrder(pre);
      forall i, j | 0 <= i < j < |p| ensures Earlier(s, p[i], p[j]) {
        assert p[i] in p && p[j] in p;
        IndexOfAppend(pre, x, p[i]);
        IndexOfAppend(pre, x, p[j]);
      }
      if x !in p {
        IndexOfLast(pre, x);
        forall i | 0 <= i < |p| ensures Earlier(s, p[i], x) {
          assert p[i] in p;
          IndexOfAppend(pre, x, p[i]);
        }
        var r := p + [x];
        assert forall i, j :: 0 <= i < j < |r| ==> Earlier(s, r[i], r[j]) by {
          forall i, j | 0 <= i < j < |r| ensures Earlier(s, r[i], r[j]) {
            if j < |p| {
              assert r[i] == p[i] && r[j] == p[j];
            } else {
              assert r[i] == p[i] && r[j] == x;
            }
          }
        }
      }
    }
  }

  /** The de-duplication loop with its `seen` set. */
  method Dedupe(urls: seq<string>) returns (finalUrls: seq<string>)
    ensures finalUrls == FirstOccurrences(urls)
  {
    finalUrls := [];
    var seen: set<string> := {};
    for i := 0 to |urls|
      invariant finalUrls == FirstOccurrences(urls[..i])
      invariant forall x :: x in seen <==> x in finalUrls
    {
      var u := urls[i];
      assert urls[..i + 1][..i] == urls[..i];
      if u !in seen {
        finalUrls := finalUrls + [u];
        seen := seen + {u};
      }
    }
    assert urls[..|urls|] == urls;
  }

  /** The URLs the sequential loop downloads: the non-blank entries, stripped, in order. */
  function Cleaned(urls: seq<string>): (r: seq<string>)
    ensures |r| <= |urls|
    ensures forall k :: 0 <= k < |r| ==> r[k] != [] && Trim(r[k], PySpace) == r[k]
  {
    if urls == [] then []
    else
      var p := Cleaned(urls[..|urls| - 1]);
      var u := urls[|urls| - 1];
      TrimIdempotent(u, PySpace);
      if Trim(u, PySpace) == [] then p else p + [Trim(u, PySpace)]
  }

  /** Every non-blank entry is downloaded, stripped; nothing else is. */
  lemma {:induction false} CleanedComplete(urls: seq<string>)
    ensures forall u :: u in urls && Trim(u, PySpace) != [] ==> Trim(u, PySpace) in Cleaned(urls)
    ensures forall v :: v in Cleaned(urls) ==> exists u :: u in urls && Trim(u, PySpace) == v
  {
    if urls != [] {
      var pre := urls[..|urls| - 1];
      CleanedComplete(pre);
      assert urls == pre + [urls[|urls| - 1]];
      forall v | v in Cleaned(urls) ensures exists u :: u in urls && Trim(u, PySpace) == v {
        if v in Cleaned(pre) {
          var u :| u in pre && Trim(u, PySpace) == v;
          assert u in urls;
        } else {
          assert urls[|urls| - 1] in urls;
        }
      }
    }
  }

  lemma CleanedStep(urls: seq<string>, i: nat)
    requires i < |urls|
    ensures Cleaned(urls[..i + 1]) == Cleaned(urls[..i]) + (if Trim(urls[i], PySpace) == [] then [] else [Trim(urls[i], PySpace)])
  {
    assert urls[..i + 1][..i] == urls[..i];
  }

  /** One result per attempted URL: the URL and whether its download succeeded. */
  datatype Outcome = Outcome(url: string, ok: bool)

  /** The results the loop collects for the entries it tries. */
  function Results(urls: seq<string>, attempt: string -> bool): (r: seq<Outcome>)
    ensures |r| == |urls|
    ensures forall k :: 0 <= k < |urls| ==> r[k] == Outcome(urls[k], attempt(urls[k]))
  {
    if urls == [] then [] else Results(urls[..|urls| - 1], attempt) + [Outcome(urls[|urls| - 1], attempt(urls[|urls| - 1]))]
  }

  lemma ResultsAppend(us: seq<string>, u: string, attempt: string -> bool)
    ensures Results(us + [u], attempt) == Results(us, attempt) + [Outcome(u, attempt(u))]
  {
    assert (us + [u])[..|us|] == us;
  }

  /**
   * `download` with one worker: blank entries (empty or all white space) are skipped, the others are
   * stripped and tried in order, each adding its result.
   */
  method Download(urls: seq<string>, attempt: string -> bool) returns (results: seq<Outcome>)
    ensures results == Results(Cleaned(urls), attempt)
  {
    results := [];
    for i := 0 to |urls|
      invariant results == Results(Cleaned(urls[..i]), attempt)
    {
      CleanedStep(urls, i);
      var u := urls[i];
      if u == [] || Trim(u, PySpace) == [] {
        continue;
      }
      u := Trim(u, PySpace);
      ResultsAppend(Cleaned(urls[..i]), u, attempt);
      results := results + [Outcome(u, attempt(u))];
    }
    assert urls[..|urls|] == urls;
  }
}
