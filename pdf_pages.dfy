/**
 * The page selection of the PDF page extractor: an optional 1-based range, validated, and a list of
 * single pages, of which the ones outside the document are skipped with a warning. The chosen
 * 0-based indices are collected in a set and written in ascending order.
 */
module PdfPages {
  import opened Text

  datatype Option<T> = None | Some(value: T)

  /** What the selection yields: the ValueError's message, or the indices and the skipped pages. */
  datatype Selection = Refused(message: string) | Chosen(indices: seq<int>, skipped: seq<int>)

  /** `sorted(s)` for a set of indices in [lo, hi): each member once, ascending. */
  function Ascending(s: set<int>, lo: int, hi: int): (r: seq<int>)
    ensures forall x :: x in r <==> x in s && lo <= x < hi
    ensures forall i, j :: 0 <= i < j < |r| ==> r[i] < r[j]
    decreases hi - lo
  {
    if lo >= hi then []
    else
      var rest := Ascending(s, lo + 1, hi);
      forall k | 0 <= k < |rest|
        ensures lo < rest[k]
      {
        assert rest[k] in rest;
      }
      (if lo in s then [lo] else []) + rest
  }

  /** `range(a, b)` as a set. */
  function Span(a: int, b: int): (r: set<int>)
    ensures forall x :: x in r <==> a <= x < b
    decreases b - a
  {
    if a >= b then {} else {a} + Span(a + 1, b)
  }

  /** The range is refused when it starts before page 1, ends after the last page, or is reversed. */
  predicate BadRange(start: int, end: int, total: nat) {
    start < 1 || end > total || start > end
  }

  /**
   * The pages of `specific` outside [1, total], in request order: those that draw a warning. Every
   * page warned about was requested and lies outside the document, and every such request is warned about.
   */
  function OutOfRange(specific: seq<int>, total: nat): (r: seq<int>)
    ensures |r| <= |specific|
    ensures forall k :: 0 <= k < |r| ==> r[k] in specific && !(1 <= r[k] <= total)
    ensures forall p :: p in specific && !(1 <= p <= total) ==> p in r
  {
    if specific == [] then []
    else
      var init := specific[..|specific| - 1];
      var p := specific[|specific| - 1];
      assert specific == init + [p];
      OutOfRange(init, total) + (if 1 <= p <= total then [] else [p])
  }

  /** The ValueError text: the fixed words around the page count, which is written in decimal. */
  function RangeMessage(total: nat): (r: string)
    ensures var pre, post := "Range must be within 1 and ", ", and start <= end";
      |r| > |pre| + |post| && r[..|pre|] == pre && r[|r| - |post|..] == post
      && AllDigits(r[|pre|..|r| - |post|]) && DigitsValue(r[|pre|..|r| - |post|]) == total
  {
    var pre, digits, post := "Range must be within 1 and ", NatToString(total), ", and start <= end";
    NatToStringValue(total);
    var r := pre + digits + post;
    assert r[..|pre|] == pre && r[|r| - |post|..] == post && r[|pre|..|r| - |post|] == digits;
    r
  }

  /**
   * A bad range raises before any single page is looked at. Otherwise the indices are those of the
   * range and of the single pages within the document, each once, ascending and inside [0, total).
   */
  method SelectPages(total: nat, pageRange: Option<(int, int)>, specific: seq<int>) returns (r: Selection)
    ensures r.Refused? <==> pageRange.Some? && BadRange(pageRange.value.0, pageRange.value.1, total)
    ensures r.Refused? ==> r.message == RangeMessage(total)
    ensures r.Chosen? ==> r.skipped == OutOfRange(specific, total)
    ensures r.Chosen? ==> forall i, j :: 0 <= i < j < |r.indices| ==> r.indices[i] < r.indices[j]
    ensures r.Chosen? ==> forall x :: x in r.indices <==>
      (pageRange.Some? && pageRange.value.0 - 1 <= x < pageRange.value.1)
      || (x + 1 in specific && 1 <= x + 1 <= total)
    ensures r.Chosen? ==> forall x :: x in r.indices ==> 0 <= x < total
  {
    var pages: set<int> := {};
    if pageRange.Some? {
      var (start, end) := pageRange.value;
      if BadRange(start, end, total) {
        return Refused(RangeMessage(total));
      }
      pages := Span(start - 1, end);
    }
    var skipped;
    pages, skipped := AddSingles(total, specific, pages);
    r := Chosen(Ascending(pages, 0, total), skipped);
  }

  /** The 0-based indices of the single pages inside the document. */
  function Singles(specific: seq<int>, total: nat): set<int> {
    if specific == [] then {}
    else
      var p := specific[|specific| - 1];
      Singles(specific[..|specific| - 1], total) + (if 1 <= p <= total then {p - 1} else {})
  }

  /** An index is among the singles exactly when its page was requested and lies in the document. */
  lemma {:induction false} SinglesMembers(specific: seq<int>, total: nat)
    ensures forall x :: x in Singles(specific, total) <==> x + 1 in specific && 1 <= x + 1 <= total
  {
    if specific != [] {
      var init := specific[..|specific| - 1];
      assert specific == init + [specific[|specific| - 1]];
      SinglesMembers(init, total);
    }
  }

  /**
   * The loop over the single pages: each one inside the document adds its 0-based index to the
   * set, each one outside is appended to the warnings, in request order.
   */
  method AddSingles(total: nat, specific: seq<int>, pages0: set<int>) returns (pages: set<int>, skipped: seq<int>)
    ensures forall x :: x in pages <==> x in pages0 || (x + 1 in specific && 1 <= x + 1 <= total)
    ensures skipped == OutOfRange(specific, total)
  {
    pages, skipped := pages0, [];
    for k := 0 to |specific|
      invariant pages == pages0 + Singles(specific[..k], total)
      invariant skipped == OutOfRange(specific[..k], total)
    {
      var page := specific[k];
      assert specific[..k + 1][..k] == specific[..k] && specific[..k + 1][k] == page;
      if 1 <= page <= total {
        pages := pages + {page - 1};
      } else {
        skipped := skipped + [page];
      }
    }
    assert specific[..|specific|] == specific;
    SinglesMembers(specific, total);
  }
}
