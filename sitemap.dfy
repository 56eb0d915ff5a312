/**
 * The portfolio's sitemap: one `<url>` element per site page, inside a single `<urlset>`. The site
 * address comes from the environment; the `lastmod` time stamps, read from the clock once per
 * entry, are passed in.
 */
module Sitemap {
  datatype Option<T> = None | Some(value: T)

  const DefaultSite := "https://your-domain.com"

  /** The pages listed, in order; the empty path is the home page. */
  const SitePages: seq<string> := ["", "/about", "/projects", "/certificates", "/contact", "/blog"]

  /** `process.env.NEXT_PUBLIC_SITE_URL || ...`: an unset or empty variable falls back to the default. */
  function SiteUrl(env: Option<string>): (r: string)
    ensures env.Some? && env.value != "" ==> r == env.value
    ensures env.None? || env.value == "" ==> r == DefaultSite
  {
    if env.Some? && env.value != "" then env.value else DefaultSite
  }

  /** The four fields of a `<url>` element. */
  datatype UrlEntry = UrlEntry(loc: string, lastmod: string, changefreq: string, priority: string)

  function EntryFor(site: string, page: string, stamp: string): UrlEntry {
    UrlEntry(site + page, stamp, if page == "" then "weekly" else "monthly", if page == "" then "1.0" else "0.8")
  }

  /** The entries for a page list: the address is the site followed by the path; home alone is weekly and 1.0. */
  function Entries(site: string, pages: seq<string>, stamps: seq<string>): (r: seq<UrlEntry>)
    requires |stamps| == |pages|
    ensures |r| == |pages|
    ensures forall i :: 0 <= i < |r| ==> r[i].loc == site + pages[i] && r[i].lastmod == stamps[i]
    ensures forall i :: 0 <= i < |r| ==> (r[i].changefreq == "weekly" <==> pages[i] == "")
    ensures forall i :: 0 <= i < |r| ==> (r[i].priority == "1.0" <==> pages[i] == "")
    ensures forall i :: 0 <= i < |r| ==> (pages[i] != "" ==> r[i].changefreq == "monthly" && r[i].priority == "0.8")
  {
    seq(|pages|, i requires 0 <= i < |pages| => EntryFor(site, pages[i], stamps[i]))
  }

  /** The text of one `<url>` element, with the template's own line breaks and indentation. */
  function UrlXml(e: UrlEntry): string {
    "\n    <url>\n      <loc>" + e.loc + "</loc>\n      <lastmod>" + e.lastmod
    + "</lastmod>\n      <changefreq>" + e.changefreq + "</changefreq>\n      <priority>" + e.priority
    + "</priority>\n    </url>\n  "
  }

  /** `.join('')`. */
  function Join(parts: seq<string>): string {
    if parts == [] then "" else parts[0] + Join(parts[1..])
  }

  /** `.map(...)`: each entry's element text, in entry order. */
  function Elements(entries: seq<UrlEntry>): (r: seq<string>)
    ensures |r| == |entries| && forall i :: 0 <= i < |r| ==> r[i] == UrlXml(entries[i])
  {
    seq(|entries|, i requires 0 <= i < |entries| => UrlXml(entries[i]))
  }

  const Header := "<?xml version=\"1.0\" encoding=\"UTF-8\"?>\n<urlset xmlns=\"http://www.sitemaps.org/schemas/sitemap/0.9\">\n  "
  const Footer := "\n</urlset>"

  /**
   * `generateSitemap`: the XML declaration and `<urlset>`, then the elements of every site page's
   * entry in page order, then `</urlset>`. The first element is the home page's, at the site
   * address, weekly with priority 1.0.
   */
  function Generate(env: Option<string>, stamps: seq<string>): (g: string)
    requires |stamps| == |SitePages|
    ensures g == Header + Join(Elements(Entries(SiteUrl(env), SitePages, stamps))) + Footer
    ensures g == Header + HomeXml(SiteUrl(env), stamps[0])
                 + Join(Elements(Entries(SiteUrl(env), SitePages, stamps))[1..]) + Footer
  {
    var parts := Elements(Entries(SiteUrl(env), SitePages, stamps));
    HomeFirst(SiteUrl(env), stamps);
    Framed(Header, parts, Footer);
    Header + Join(parts) + Footer
  }

  /** The home page's element: at the bare site address, weekly, priority 1.0. */
  function HomeXml(site: string, stamp: string): string {
    UrlXml(UrlEntry(site, stamp, "weekly", "1.0"))
  }

  /** The first element is the home page's: at the bare site address, weekly, priority 1.0. */
  lemma HomeFirst(site: string, stamps: seq<string>)
    requires |stamps| == |SitePages|
    ensures Elements(Entries(site, SitePages, stamps))[0] == HomeXml(site, stamps[0])
  {
    var entries := Entries(site, SitePages, stamps);
    assert site + SitePages[0] == site;
    assert entries[0] == EntryFor(site, SitePages[0], stamps[0]) == UrlEntry(site, stamps[0], "weekly", "1.0");
  }

  /** A header, the joined parts and a footer: the header, then the first part, the others' join and the footer. */
  lemma Framed(h: string, parts: seq<string>, f: string)
    requires |parts| > 0
    ensures h + Join(parts) + f == h + parts[0] + Join(parts[1..]) + f
  {
    var rest := Join(parts[1..]);
    assert Join(parts) == parts[0] + rest;
    Regroup(h, parts[0], rest, f);
  }

  lemma Regroup(h: string, p: string, r: string, f: string)
    ensures h + (p + r) + f == h + p + r + f
  {
  }

  /** Joining is concatenation: the parts of a list followed by more parts join to the two joins in order. */
  lemma {:induction false} JoinAppend(a: seq<string>, b: seq<string>)
    ensures Join(a + b) == Join(a) + Join(b)
  {
    if a == [] {
      assert a + b == b;
    } else {
      assert (a + b)[0] == a[0] && (a + b)[1..] == a[1..] + b;
      JoinAppend(a[1..], b);
    }
  }

  /** Only the first entry, the home page, is weekly with priority 1.0; the five others are monthly at 0.8. */
  lemma HomeOnlyWeekly(site: string, stamps: seq<string>)
    requires |stamps| == |SitePages|
    ensures var e := Entries(site, SitePages, stamps);
      e[0].loc == site && e[0].changefreq == "weekly" && e[0].priority == "1.0"
      && forall i :: 1 <= i < |e| ==> e[i].changefreq == "monthly" && e[i].priority == "0.8"
  {
    assert forall i :: 1 <= i < |SitePages| ==> |SitePages[i]| > 0;
  }

  /** No two pages share an address: the sitemap lists each URL once. */
  lemma DistinctLocations(site: string, stamps: seq<string>)
    requires |stamps| == |SitePages|
    ensures var e := Entries(site, SitePages, stamps);
      forall i, j :: 0 <= i < j < |e| ==> e[i].loc != e[j].loc
  {
    var e := Entries(site, SitePages, stamps);
    forall i, j | 0 <= i < j < |e|
      ensures e[i].loc != e[j].loc
    {
      assert SitePages[i] != SitePages[j];
      assert (site + SitePages[i])[|site|..] == SitePages[i];
      assert (site + SitePages[j])[|site|..] == SitePages[j];
    }
  }
}
